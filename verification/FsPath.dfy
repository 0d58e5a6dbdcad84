/** Paths as lists of components: `next_component` of fs.c and what it computes. */
module FsPath {
  import opened CTypes

  const FS_PATH_MAX := 64
  const FS_NAME_MAX := 16

  /** The first position at or after `pos` that is not a slash. */
  function SkipSlashes(path: cstring, pos: nat): (p: nat)
    requires pos <= |path|
    ensures pos <= p <= |path|
    ensures p < |path| ==> path[p] != SLASH
    ensures forall i :: pos <= i < p ==> path[i] == SLASH
    decreases |path| - pos
  {
    if pos < |path| && path[pos] == SLASH then SkipSlashes(path, pos + 1) else pos
  }

  /** The first position at or after `pos` that is a slash, or the end. */
  function ComponentEnd(path: cstring, pos: nat): (p: nat)
    requires pos <= |path|
    ensures pos <= p <= |path|
    ensures p < |path| ==> path[p] == SLASH
    ensures forall i :: pos <= i < p ==> path[i] != SLASH
    decreases |path| - pos
  {
    if pos < |path| && path[pos] != SLASH then ComponentEnd(path, pos + 1) else pos
  }

  /** The nonempty stretches between slashes, from `pos` on. */
  function ComponentsFrom(path: cstring, pos: nat): (cs: seq<cstring>)
    requires pos <= |path|
    decreases |path| - pos
  {
    var start := SkipSlashes(path, pos);
    if start == |path| then []
    else
      var end := ComponentEnd(path, start);
      Chars(path, start, end);
      [path[start..end]] + ComponentsFrom(path, end)
  }

  function Components(path: cstring): seq<cstring> {
    ComponentsFrom(path, 0)
  }

  lemma Chars(path: cstring, i: nat, j: nat)
    requires i <= j <= |path|
    ensures 0 !in path[i..j]
  {
  }

  predicate Absolute(path: cstring) {
    |path| > 0 && path[0] == SLASH
  }

  /** A component as `next_component` delivers it. */
  predicate ComponentName(c: cstring) {
    c != [] && SLASH !in c
  }

  /** A name that fits `fs_node.name`. */
  predicate GoodName(c: cstring) {
    ComponentName(c) && |c| < FS_NAME_MAX
  }

  // ----- what components are -----

  lemma {:induction false} ComponentsAreNames(path: cstring, pos: nat)
    requires pos <= |path|
    ensures forall c :: c in ComponentsFrom(path, pos) ==> ComponentName(c)
    decreases |path| - pos
  {
    var start := SkipSlashes(path, pos);
    if start < |path| {
      ComponentsAreNames(path, ComponentEnd(path, start));
    }
  }

  lemma ComponentsStep(path: cstring, pos: nat)
    requires pos <= |path|
    ensures var start := SkipSlashes(path, pos);
      if start == |path| then ComponentsFrom(path, pos) == []
      else
        var end := ComponentEnd(path, start);
        0 !in path[start..end] && ComponentsFrom(path, pos) == [path[start..end]] + ComponentsFrom(path, end)
  {
  }

  /** Components depend only on the rest of the path. */
  lemma {:induction false} ComponentsOfSuffix(path: cstring, pos: nat, tail: cstring, shift: nat)
    requires shift <= pos <= |path| && tail == path[shift..]
    ensures ComponentsFrom(path, pos) == ComponentsFrom(tail, pos - shift)
    decreases |path| - pos
  {
    hide ComponentsFrom, SkipSlashes, ComponentEnd;
    SkipOfSuffix(path, pos, tail, shift);
    var start := SkipSlashes(path, pos);
    ComponentsStep(path, pos);
    ComponentsStep(tail, pos - shift);
    if start < |path| {
      EndOfSuffix(path, start, tail, shift);
      var end := ComponentEnd(path, start);
      ComponentsOfSuffix(path, end, tail, shift);
      assert path[start..end] == tail[start - shift..end - shift];
    }
  }

  lemma {:induction false} SkipOfSuffix(path: cstring, pos: nat, tail: cstring, shift: nat)
    requires shift <= pos <= |path| && tail == path[shift..]
    ensures SkipSlashes(path, pos) == SkipSlashes(tail, pos - shift) + shift
    decreases |path| - pos
  {
    if pos < |path| && path[pos] == SLASH {
      SkipOfSuffix(path, pos + 1, tail, shift);
    }
  }

  lemma {:induction false} EndOfSuffix(path: cstring, pos: nat, tail: cstring, shift: nat)
    requires shift <= pos <= |path| && tail == path[shift..]
    ensures ComponentEnd(path, pos) == ComponentEnd(tail, pos - shift) + shift
    decreases |path| - pos
  {
    if pos < |path| && path[pos] != SLASH {
      EndOfSuffix(path, pos + 1, tail, shift);
    }
  }

  /** Repeated slashes do not matter. */
  lemma LeadingSlash(rest: cstring)
    ensures Components([SLASH] + rest) == Components(rest)
  {
    var path: cstring := [SLASH] + rest;
    assert path[1..] == rest;
    ComponentsOfSuffix(path, 1, rest, 1);
    assert SkipSlashes(path, 0) == SkipSlashes(path, 1);
  }

  /** A name, then nothing or a slash and more. */
  lemma NameThen(c: cstring, rest: cstring)
    requires ComponentName(c) && (rest == [] || rest[0] == SLASH)
    ensures Components(c + rest) == [c] + Components(rest)
  {
    var path: cstring := c + rest;
    assert SkipSlashes(path, 0) == 0;
    EndIs(path, 0, |c|);
    assert path[0..|c|] == c && path[|c|..] == rest;
    ComponentsOfSuffix(path, |c|, rest, |c|);
  }

  lemma {:induction false} EndIs(path: cstring, pos: nat, end: nat)
    requires pos <= end <= |path| && (end < |path| ==> path[end] == SLASH)
    requires forall i :: pos <= i < end ==> path[i] != SLASH
    ensures ComponentEnd(path, pos) == end
    decreases end - pos
  {
    if pos < end {
      EndIs(path, pos + 1, end);
    }
  }

  lemma {:induction false} SkipInPrefix(p: cstring, q: cstring, pos: nat)
    requires pos <= |p|
    ensures SkipSlashes(p + q, pos) == if SkipSlashes(p, pos) < |p| then SkipSlashes(p, pos) else SkipSlashes(p + q, |p|)
    decreases |p| - pos
  {
    if pos < |p| && p[pos] == SLASH {
      SkipInPrefix(p, q, pos + 1);
    }
  }

  /** Splitting a path at a slash splits its components. */
  lemma {:induction false} ComponentsOfConcat(p: cstring, q: cstring, pos: nat)
    requires pos <= |p| && (q == [] || q[0] == SLASH)
    ensures ComponentsFrom(p + q, pos) == ComponentsFrom(p, pos) + Components(q)
    decreases |p| - pos
  {
    hide ComponentsFrom, SkipSlashes, ComponentEnd;
    var whole: cstring := p + q;
    var start := SkipSlashes(p, pos);
    SkipInPrefix(p, q, pos);
    ComponentsStep(p, pos);
    ComponentsStep(whole, pos);
    if start < |p| {
      var end := ComponentEnd(p, start);
      EndIs(whole, start, end);
      assert whole[start..end] == p[start..end];
      ComponentsOfConcat(p, q, end);
    } else {
      assert whole[|p|..] == q;
      ComponentsStep(whole, |p|);
      ComponentsOfSuffix(whole, |p|, q, |p|);
      assert [] + Components(q) == Components(q);
    }
  }

  /** A name behind a slash is the last component. */
  lemma OneMoreComponent(path: cstring, c: cstring)
    requires ComponentName(c)
    ensures Components(path + [SLASH] + c) == Components(path) + [c]
  {
    hide ComponentsFrom;
    var q: cstring := [SLASH] + c;
    assert path + [SLASH] + c == path + q;
    ComponentsOfConcat(path, q, 0);
    LeadingSlash(c);
    NameThen(c, []);
    assert c + [] == c;
    NoComponents();
  }

  /** A list of components written out with one slash before each. */
  function Joined(cs: seq<cstring>): cstring {
    if cs == [] then [] else [SLASH] + cs[0] + Joined(cs[1..])
  }

  lemma JoinedUnfold(cs: seq<cstring>)
    ensures Joined(cs) == if cs == [] then [] else [SLASH] + cs[0] + Joined(cs[1..])
  {
  }

  /** The canonical path of a list of components. */
  function Printed(cs: seq<cstring>): (p: cstring)
    ensures Absolute(p)
  {
    if cs == [] then [SLASH] else Joined(cs)
  }

  lemma NoComponents()
    ensures Components([]) == []
  {
  }

  lemma {:induction false} ComponentsOfJoined(cs: seq<cstring>)
    requires forall c :: c in cs ==> ComponentName(c)
    ensures Components(Joined(cs)) == cs
  {
    hide Components, Joined, ComponentName;
    JoinedUnfold(cs);
    if cs == [] {
      NoComponents();
    } else {
      assert cs[0] in cs;
      ComponentsOfJoined(cs[1..]);
      JoinedUnfold(cs[1..]);
      var rest := Joined(cs[1..]);
      NameThen(cs[0], rest);
      var whole: cstring := cs[0] + rest;
      LeadingSlash(whole);
      assert Joined(cs) == [SLASH] + whole;
    }
  }

  /** Printing a list of names and splitting it gives the list back. */
  lemma ComponentsOfPrinted(cs: seq<cstring>)
    requires forall c :: c in cs ==> ComponentName(c)
    ensures Components(Printed(cs)) == cs
  {
    ComponentsOfJoined(cs);
    if cs == [] {
      LeadingSlash([]);
      assert [SLASH] + [] == [SLASH];
    }
  }

  // ----- next_component -----

  /** The loop over a run of slashes. */
  method SkipRun(path: cstring, pos: nat) returns (next: nat)
    requires pos <= |path|
    ensures next == SkipSlashes(path, pos)
  {
    next := pos;
    while At(path, next) == SLASH
      invariant pos <= next <= |path| && SkipSlashes(path, pos) == SkipSlashes(path, next)
      decreases |path| - next
    {
      next := next + 1;
    }
  }

  /** 1 and the next name, 0 at the end of the path, -1 if the name is too long. */
  method NextComponent(path: cstring, pos: nat) returns (t: int, next: nat, name: cstring)
    requires pos <= |path|
    ensures next <= |path| && t in {-1, 0, 1}
    ensures t == 0 <==> ComponentsFrom(path, pos) == []
    ensures t == -1 <==> ComponentsFrom(path, pos) != [] && |ComponentsFrom(path, pos)[0]| >= FS_NAME_MAX
    ensures t == 1 ==>
      && pos < next && ComponentsFrom(path, pos) == [name] + ComponentsFrom(path, next) && GoodName(name)
  {
    hide ComponentsFrom;
    ComponentsStep(path, pos);
    ComponentsAreNames(path, pos);
    name := [];
    next := SkipRun(path, pos);
    if At(path, next) == NUL {
      return 0, next, name;
    }
    ghost var start := next;
    while At(path, next) != NUL && At(path, next) != SLASH
      invariant start <= next <= |path| && name == path[start..next] && |name| < FS_NAME_MAX
      invariant ComponentEnd(path, start) == ComponentEnd(path, next)
      decreases |path| - next
    {
      if |name| >= FS_NAME_MAX - 1 {
        return -1, next, name;
      }
      name := name + [path[next]];
      next := next + 1;
    }
    assert ComponentsFrom(path, pos)[0] == name;
    t := 1;
  }
}
