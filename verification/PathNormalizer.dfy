/** user_path.c: the in-place path normaliser, as evaluation of a stack of components. */
module PathNormalizer {
  import opened CTypes
  import opened FsPath

  const DOT_NAME: cstring := [DOT]
  const DOTDOT_NAME: cstring := [DOT, DOT]

  // ----- the reference -----

  function TakeString(s: cstring, n: nat): cstring {
    Take(s, n)
  }

  /** The absolute path that the buffer holds before normalising. */
  function AbsolutePath(input: cstring, cwd: cstring): cstring {
    if Absolute(input) then TakeString(input, FS_PATH_MAX - 1)
    else TakeString(cwd + (if TakeString(cwd, FS_PATH_MAX - 1) == [SLASH] then [] else [SLASH]) + input, FS_PATH_MAX - 1)
  }

  /** Components are cut to what a node name can hold. */
  function Cut(c: cstring): cstring {
    TakeString(c, FS_NAME_MAX - 1)
  }

  function Apply(stack: seq<cstring>, c: cstring): seq<cstring> {
    if c == DOT_NAME then stack
    else if c == DOTDOT_NAME then (if stack == [] then [] else stack[..|stack| - 1])
    else stack + [c]
  }

  /** Work through the components from left to right. */
  function Evaluate(stack: seq<cstring>, cs: seq<cstring>): seq<cstring>
    decreases |cs|
  {
    if cs == [] then stack else Evaluate(Apply(stack, Cut(cs[0])), cs[1..])
  }

  function Normalized(path: cstring): cstring {
    Printed(Evaluate([], Components(path)))
  }

  // ----- canonical results -----

  predicate StackName(c: cstring) {
    GoodName(c) && c != DOT_NAME && c != DOTDOT_NAME
  }

  predicate StackNames(stack: seq<cstring>) {
    forall i :: 0 <= i < |stack| ==> StackName(stack[i])
  }

  predicate Names(cs: seq<cstring>) {
    forall i :: 0 <= i < |cs| ==> ComponentName(cs[i])
  }

  lemma ApplyKeepsNames(stack: seq<cstring>, c: cstring)
    requires StackNames(stack) && ComponentName(c)
    ensures StackNames(Apply(stack, Cut(c)))
  {
  }

  lemma {:induction false} EvaluateKeepsNames(stack: seq<cstring>, cs: seq<cstring>)
    requires StackNames(stack) && Names(cs)
    ensures StackNames(Evaluate(stack, cs))
    decreases |cs|
  {
    if cs != [] {
      ApplyKeepsNames(stack, cs[0]);
      EvaluateKeepsNames(Apply(stack, Cut(cs[0])), cs[1..]);
    }
  }

  lemma {:induction false} EvaluateNames(stack: seq<cstring>, cs: seq<cstring>)
    requires StackNames(cs)
    ensures Evaluate(stack, cs) == stack + cs
    decreases |cs|
  {
    if cs != [] {
      EvaluateNames(stack + [cs[0]], cs[1..]);
      assert stack + [cs[0]] + cs[1..] == stack + cs;
    }
  }

  lemma PathNames(path: cstring)
    ensures Names(Components(path))
  {
    ComponentsAreNames(path, 0);
  }

  /** The result is canonical: one slash before each name, no dots, names that fit. */
  lemma NormalizedIsCanonical(path: cstring)
    ensures exists cs: seq<cstring> :: Normalized(path) == Printed(cs) && StackNames(cs)
  {
    PathNames(path);
    EvaluateKeepsNames([], Components(path));
  }

  /** The kernel's own splitting of the result gives the names left on the stack. */
  lemma NormalizedComponents(path: cstring)
    ensures Components(Normalized(path)) == Evaluate([], Components(path))
  {
    hide Components, Evaluate, StackName, Printed;
    PathNames(path);
    EvaluateKeepsNames([], Components(path));
    StackComponents(Evaluate([], Components(path)));
  }

  /** Normalising a normalised path changes nothing. */
  lemma NormalizedIsFixed(path: cstring)
    ensures Normalized(Normalized(path)) == Normalized(path)
  {
    hide Components, Evaluate, StackName, Printed;
    var stack := Evaluate([], Components(path));
    PathNames(path);
    EvaluateKeepsNames([], Components(path));
    NormalizedComponents(path);
    EvaluateNames([], stack);
    assert [] + stack == stack;
  }

  lemma StackComponents(stack: seq<cstring>)
    requires StackNames(stack)
    ensures Components(Printed(stack)) == stack
  {
    ComponentsOfPrinted(stack);
  }

  lemma {:induction false} JoinedAppend(cs: seq<cstring>, c: cstring)
    ensures Joined(cs + [c]) == Joined(cs) + [SLASH] + c
  {
    if cs == [] {
      assert Joined([c]) == [SLASH] + c + Joined([]);
    } else {
      JoinedAppend(cs[1..], c);
      assert (cs + [c])[1..] == cs[1..] + [c];
    }
  }

  lemma LastOff(stack: seq<cstring>)
    requires stack != []
    ensures Joined(stack) == Joined(stack[..|stack| - 1]) + [SLASH] + stack[|stack| - 1]
  {
    JoinedAppend(stack[..|stack| - 1], stack[|stack| - 1]);
    assert stack[..|stack| - 1] + [stack[|stack| - 1]] == stack;
  }

  // ----- lengths -----

  lemma {:induction false} JoinedLength(path: cstring, pos: nat)
    requires pos <= |path| && (pos < |path| ==> path[pos] == SLASH)
    ensures |Joined(ComponentsFrom(path, pos))| <= |path| - pos
    decreases |path| - pos
  {
    hide SkipSlashes, ComponentEnd;
    ComponentsStep(path, pos);
    var start := SkipSlashes(path, pos);
    if start < |path| {
      JoinedLength(path, ComponentEnd(path, start));
    }
  }

  lemma {:induction false} EvaluateLength(stack: seq<cstring>, cs: seq<cstring>)
    ensures |Joined(Evaluate(stack, cs))| <= |Joined(stack)| + |Joined(cs)|
    decreases |cs|
  {
    if cs != [] {
      var next := Apply(stack, Cut(cs[0]));
      EvaluateLength(next, cs[1..]);
      JoinedAppend(stack, Cut(cs[0]));
      if stack != [] {
        LastOff(stack);
      }
    }
  }

  /** Normalising never lengthens an absolute path. */
  lemma NormalizedLength(path: cstring)
    requires Absolute(path)
    ensures |Normalized(path)| <= |path|
  {
    hide Evaluate, ComponentsFrom;
    JoinedLength(path, 0);
    EvaluateLength([], Components(path));
  }

  /** Resolving a resolved path into a full-size buffer is the identity, from any directory. */
  lemma ResolveTwice(input: cstring, cwd: cstring, other: cstring)
    requires Absolute(input) || Absolute(cwd)
    ensures var p := Normalized(AbsolutePath(input, cwd));
      Absolute(p) && |p| < FS_PATH_MAX && Normalized(AbsolutePath(p, other)) == p
  {
    hide Evaluate, Components;
    AbsoluteIsAbsolute(input, cwd);
    NormalizedLength(AbsolutePath(input, cwd));
    NormalizedIsFixed(AbsolutePath(input, cwd));
  }

  // ----- what the components of the result are -----

  lemma {:induction false} EvaluateSnoc(stack: seq<cstring>, cs: seq<cstring>, c: cstring)
    ensures Evaluate(stack, cs + [c]) == Apply(Evaluate(stack, cs), Cut(c))
    decreases |cs|
  {
    hide Apply, Cut;
    if cs == [] {
      assert [] + [c] == [c] && [c][1..] == [];
    } else {
      assert (cs + [c])[1..] == cs[1..] + [c];
      EvaluateSnoc(Apply(stack, Cut(cs[0])), cs[1..], c);
    }
  }

  /**
   What one more component does, for every path: `.` changes nothing, `..` takes the
   last name away if there is one, and a name is added, cut to 15 characters.
   Together with the root these laws say what every path normalises to.
   */
  lemma OneMoreName(path: cstring, c: cstring)
    requires ComponentName(c)
    ensures var before, after := Components(Normalized(path)), Components(Normalized(path + [SLASH] + c));
      if c == [DOT] then after == before
      else if c == [DOT, DOT] then after == (if before == [] then [] else before[..|before| - 1])
      else after == before + [if |c| < 16 then c else c[..15]]
  {
    hide Components, Evaluate, Normalized;
    OneMoreComponent(path, c);
    NormalizedComponents(path);
    NormalizedComponents(path + [SLASH] + c);
    EvaluateSnoc([], Components(path), c);
  }

  lemma RootNormalized()
    ensures Components(Normalized([])) == [] && Components(Normalized([SLASH])) == []
  {
    hide ComponentsFrom;
    NormalizedComponents([]);
    NormalizedComponents([SLASH]);
    NoComponents();
    LeadingSlash([]);
    assert [SLASH] + [] == [SLASH];
  }

  /** The path that is normalised: the input, or the working directory, a slash and the input; its first 63 characters. */
  lemma AbsoluteIs(input: cstring, cwd: cstring)
    requires Absolute(input) || (Absolute(cwd) && |cwd| < 64)
    ensures var full := if input != [] && input[0] == SLASH then input
                        else if cwd == [SLASH] then [SLASH] + input
                        else cwd + [SLASH] + input;
      AbsolutePath(input, cwd) == if |full| < 64 then full else full[..63]
  {
    if !Absolute(input) && cwd == [SLASH] {
      assert cwd + [] + input == [SLASH] + input;
    }
  }

  /** A relative path resolves like the working directory joined with it. */
  lemma RelativeResolves(input: cstring, cwd: cstring, other: cstring)
    requires !Absolute(input) && Absolute(cwd) && |cwd| + 1 + |input| < 64
    ensures Normalized(AbsolutePath(input, cwd)) == Normalized(AbsolutePath(cwd + [SLASH] + input, other))
    ensures Normalized(AbsolutePath(input, cwd)) == Normalized(cwd + [SLASH] + input)
  {
    hide ComponentsFrom, Evaluate, AbsolutePath;
    AbsoluteIs(input, cwd);
    AbsoluteIs(cwd + [SLASH] + input, other);
    if cwd == [SLASH] {
      LeadingSlash([SLASH] + input);
      assert cwd + [SLASH] + input == [SLASH] + ([SLASH] + input);
    }
  }

  /** `..` behind a path resolves to the directory above what the path resolves to. */
  lemma ResolveParent(input: cstring, cwd: cstring)
    requires Absolute(input) || Absolute(cwd)
    requires (if Absolute(input) then 0 else |cwd| + 1) + |input| + 3 < 64 && input != []
    ensures var here := Components(Normalized(AbsolutePath(input, cwd)));
      Components(Normalized(AbsolutePath(input + [SLASH, DOT, DOT], cwd))) == if here == [] then [] else here[..|here| - 1]
  {
    hide ComponentsFrom, Evaluate, AbsolutePath, Normalized;
    var up: cstring := input + [SLASH, DOT, DOT];
    AbsoluteIs(input, cwd);
    AbsoluteIs(up, cwd);
    var path := AbsolutePath(input, cwd);
    assert AbsolutePath(up, cwd) == path + [SLASH] + [DOT, DOT];
    OneMoreName(path, [DOT, DOT]);
  }

  // ----- the buffer -----

  /** The buffer holds the printed stack. */
  ghost predicate Holds(norm: array<byte>, len: nat, stack: seq<cstring>)
    reads norm
  {
    len == |Printed(stack)| < norm.Length && norm[..len] == Printed(stack) && norm[len] == NUL
  }

  /** `pop_component`. */
  method PopComponent(norm: array<byte>, len: nat, ghost stack: seq<cstring>) returns (next: nat)
    requires norm.Length == FS_PATH_MAX && Holds(norm, len, stack) && StackNames(stack)
    modifies norm
    ensures Holds(norm, next, Apply(stack, DOTDOT_NAME))
  {
    ghost var before := norm[..];
    if len <= 1 {
      if stack != [] {
        LastOff(stack);
      }
      norm[1] := NUL;
      return 1;
    }
    assert stack != [];
    LastOff(stack);
    ghost var below := stack[..|stack| - 1];
    ghost var cut := |Joined(below)|;
    forall k | cut < k < len ensures norm[k] != SLASH {
      assert norm[k] == norm[..len][k] == stack[|stack| - 1][k - cut - 1];
    }
    var i := len - 1;
    while i > 0 && norm[i] != SLASH
      invariant cut <= i < len
    {
      assert norm[..len][i] == norm[i];
      i := i - 1;
    }
    assert norm[..len][cut] == SLASH;
    assert norm[..len][..cut] == Joined(below);
    if i == 0 {
      next := 1;
      if below != [] {
        LastOff(below);
      }
      norm[1] := NUL;
      assert norm[..1] == [SLASH];
      return;
    }
    next := i;
    norm[next] := NUL;
    assert norm[..next] == before[..next] == before[..len][..next];
  }

  /** The loop that copies a token to the end of the buffer. */
  method CopyToken(norm: array<byte>, start: nat, token: cstring) returns (ok: bool, next: nat)
    requires norm.Length == FS_PATH_MAX && start < FS_PATH_MAX
    modifies norm
    ensures ok <==> start + |token| < FS_PATH_MAX
    ensures ok ==> next == start + |token| && norm[..next] == old(norm[..start]) + token
  {
    next := start;
    for j := 0 to |token|
      invariant next == start + j < FS_PATH_MAX
      invariant norm[..next] == old(norm[..start]) + token[..j]
    {
      if next + 1 >= FS_PATH_MAX {
        return false, next;
      }
      norm[next] := token[j];
      next := next + 1;
      assert norm[..next] == norm[..next - 1] + [token[j]];
      assert token[..j + 1] == token[..j] + [token[j]];
    }
    assert token[..|token|] == token;
    return true, next;
  }

  /** The push half of the loop: a slash unless at the root, then the token. */
  method PushComponent(norm: array<byte>, len: nat, token: cstring, ghost stack: seq<cstring>) returns (ok: bool, next: nat)
    requires norm.Length == FS_PATH_MAX && Holds(norm, len, stack) && StackNames(stack) && StackName(token)
    modifies norm
    ensures ok <==> |Joined(stack + [token])| < FS_PATH_MAX
    ensures ok ==> Holds(norm, next, stack + [token])
  {
    JoinedAppend(stack, token);
    ghost var joined := Joined(stack);
    next := len;
    if len > 1 {
      if stack == [] {
        assert false;
      }
      if len + 1 >= FS_PATH_MAX {
        return false, next;
      }
      norm[next] := SLASH;
      next := next + 1;
    } else {
      if stack != [] {
        LastOff(stack);
      }
      assert norm[..1] == [SLASH] == joined + [SLASH];
    }
    assert norm[..next] == joined + [SLASH];
    ok, next := CopyToken(norm, next, token);
    if !ok {
      return;
    }
    norm[next] := NUL;
    assert norm[..next] == joined + [SLASH] + token;
  }

  // ----- user_path_resolve -----

  /** `abs`: the input, or the working directory, a slash and the input, cut to the buffer. */
  method BuildAbsolute(input: cstring, cwd: cstring) returns (abs: cstring)
    requires |cwd| < FS_PATH_MAX
    ensures abs == AbsolutePath(input, cwd)
  {
    if |input| > 0 && input[0] == SLASH {
      abs := TakeString(input, FS_PATH_MAX - 1);
    } else {
      abs := TakeString(cwd, FS_PATH_MAX - 1);
      assert abs == cwd;
      if abs != [SLASH] {
        abs := TakeString(abs + [SLASH], FS_PATH_MAX - 1);
      }
      abs := TakeString(abs + input, FS_PATH_MAX - 1);
      var sep := if cwd == [SLASH] then [] else [SLASH];
      assert cwd + [] == cwd;
      assert Take(Take(cwd + sep, FS_PATH_MAX - 1) + input, FS_PATH_MAX - 1) == Take(cwd + sep + input, FS_PATH_MAX - 1);
    }
  }

  /** One token of the loop: the stack it makes fits the buffer because the path did. */
  lemma TokenFits(stack: seq<cstring>, c: cstring, start: nat)
    requires |Joined(stack)| + 1 <= start
    ensures |Joined(Apply(stack, c))| <= start + |c|
  {
    JoinedAppend(stack, c);
    if stack != [] {
      LastOff(stack);
    }
  }

  /** What the token loop sees at a position that is not a slash. */
  lemma TokenAt(abs: cstring, i: nat)
    requires i < |abs| && abs[i] != SLASH
    ensures var end := ComponentEnd(abs, i);
      && i < end && 0 !in abs[i..end] && ComponentName(abs[i..end])
      && ComponentsFrom(abs, i) == [abs[i..end]] + ComponentsFrom(abs, SkipSlashes(abs, end))
  {
    var end := ComponentEnd(abs, i);
    ComponentsStep(abs, i);
    ComponentsStep(abs, end);
    ComponentsStep(abs, SkipSlashes(abs, end));
    SkipTwice(abs, end);
  }

  lemma {:induction false} SkipTwice(path: cstring, pos: nat)
    requires pos <= |path|
    ensures SkipSlashes(path, SkipSlashes(path, pos)) == SkipSlashes(path, pos)
    decreases |path| - pos
  {
    if pos < |path| && path[pos] == SLASH {
      SkipTwice(path, pos + 1);
    }
  }

  /** One more character of a token. */
  lemma TakeNext(path: cstring, i: nat, next: nat, n: nat)
    requires i <= next < |path|
    ensures Take(path[i..next + 1], n) ==
      if |Take(path[i..next], n)| < n then Take(path[i..next], n) + [path[next]] else Take(path[i..next], n)
  {
    assert path[i..next + 1] == path[i..next] + [path[next]];
  }

  lemma EndNext(path: cstring, pos: nat)
    requires pos <= |path|
    ensures ComponentEnd(path, pos) == if pos < |path| && path[pos] != SLASH then ComponentEnd(path, pos + 1) else pos
  {
  }

  /** The inner loop: one token, cut to a node name. */
  method ReadToken(abs: cstring, i: nat) returns (token: cstring, next: nat)
    requires i <= |abs|
    ensures next == ComponentEnd(abs, i) && 0 !in abs[i..next] && token == Cut(abs[i..next])
  {
    hide Take, ComponentEnd;
    token := [];
    next := i;
    Chars(abs, i, i);
    assert abs[i..next] == [];
    while next < |abs| && abs[next] != SLASH
      invariant i <= next <= |abs| && ComponentEnd(abs, i) == ComponentEnd(abs, next)
      invariant token == Take(abs[i..next], FS_NAME_MAX - 1)
    {
      EndNext(abs, next);
      TakeNext(abs, i, next, FS_NAME_MAX - 1);
      if |token| < FS_NAME_MAX - 1 {
        token := token + [abs[next]];
      }
      next := next + 1;
    }
    EndNext(abs, next);
    Chars(abs, i, next);
  }

  /** What the loop does with a token. */
  method ApplyToken(norm: array<byte>, len: nat, token: cstring, ghost stack: seq<cstring>) returns (ok: bool, next: nat)
    requires norm.Length == FS_PATH_MAX && Holds(norm, len, stack) && StackNames(stack)
    requires token != DOT_NAME && token != DOTDOT_NAME ==> StackName(token)
    modifies norm
    ensures |Joined(Apply(stack, token))| < FS_PATH_MAX ==> ok
    ensures ok ==> Holds(norm, next, Apply(stack, token))
  {
    hide Holds, StackNames, StackName, Joined;
    if token == DOT_NAME {
      return true, len;
    }
    if token == DOTDOT_NAME {
      next := PopComponent(norm, len, stack);
      return true, next;
    }
    ok, next := PushComponent(norm, len, token, stack);
  }

  /** The loop over the tokens of `abs`, building the result in `norm`; it never overflows. */
  method NormalizeInto(abs: cstring, norm: array<byte>) returns (ok: bool, len: nat)
    requires Absolute(abs) && |abs| < FS_PATH_MAX && norm.Length == FS_PATH_MAX
    modifies norm
    ensures ok && Holds(norm, len, Evaluate([], Components(abs)))
  {
    norm[0], norm[1] := SLASH, NUL;
    len := 1;
    assert norm[..1] == [SLASH];
    ghost var stack: seq<cstring> := [];
    assert Holds(norm, len, stack);
    var i := SkipRun(abs, 0);
    assert i > 0;
    SkipTwice(abs, 0);
    ComponentsStep(abs, 0);
    ComponentsStep(abs, i);
    ghost var final := Evaluate([], Components(abs));
    EmptyJoin();
    ok := true;
    while i < |abs|
      invariant ok && i <= |abs| && (i < |abs| ==> abs[i] != SLASH)
      invariant Holds(norm, len, stack) && StackNames(stack)
      invariant Evaluate(stack, ComponentsFrom(abs, i)) == final
      invariant |Joined(stack)| + 1 <= i || i == |abs|
      decreases |abs| - i
    {
      TokenAt(abs, i);
      var token, end := ReadToken(abs, i);
      ghost var c: cstring := abs[i..end];
      CutFits(c);
      TokenFits(stack, token, i);
      UnfoldEvaluate(stack, c, ComponentsFrom(abs, SkipSlashes(abs, end)));
      ApplyKeepsNames(stack, c);
      CutIsStackName(c);
      ok, len := ApplyToken(norm, len, token, stack);
      stack := Apply(stack, token);
      i := SkipRun(abs, end);
    }
    EvaluateNothing(abs, stack);
  }

  lemma CutFits(c: cstring)
    ensures |Cut(c)| <= |c|
  {
  }

  lemma EmptyJoin()
    ensures Joined([]) == [] && StackNames([])
  {
  }

  lemma EvaluateNothing(abs: cstring, stack: seq<cstring>)
    ensures Evaluate(stack, ComponentsFrom(abs, |abs|)) == stack
  {
  }

  lemma UnfoldEvaluate(stack: seq<cstring>, c: cstring, rest: seq<cstring>)
    ensures Evaluate(stack, [c] + rest) == Evaluate(Apply(stack, Cut(c)), rest)
  {
    assert ([c] + rest)[1..] == rest;
  }

  lemma CutIsStackName(c: cstring)
    requires ComponentName(c)
    ensures Cut(c) != DOT_NAME && Cut(c) != DOTDOT_NAME ==> StackName(Cut(c))
  {
  }

  /**
   `user_path_resolve`: the normalised absolute path, cut to the caller's buffer;
   it fails only for an empty buffer or when the working directory is unknown.
   */
  method UserPathResolve(input: cstring, cwd: Option<cstring>, outSize: nat) returns (ok: bool, out: cstring)
    requires cwd.Some? ==> Absolute(cwd.value) && |cwd.value| < FS_PATH_MAX
    ensures ok <==> outSize > 0 && (Absolute(input) || cwd.Some?)
    ensures ok ==>
      out == TakeString(Normalized(AbsolutePath(input, if cwd.Some? then cwd.value else [SLASH])), outSize - 1)
    ensures ok && outSize >= FS_PATH_MAX ==> out == Normalized(AbsolutePath(input, if cwd.Some? then cwd.value else [SLASH]))
  {
    hide AbsolutePath, Evaluate, Components;
    out := [];
    if outSize == 0 {
      return false, out;
    }
    if !(|input| > 0 && input[0] == SLASH) && cwd.None? {
      return false, out;
    }
    var dir := if cwd.Some? then cwd.value else [SLASH];
    var abs := BuildAbsolute(input, dir);
    AbsoluteIsAbsolute(input, dir);
    var norm := new byte[FS_PATH_MAX](_ => 0);
    var len;
    ok, len := NormalizeInto(abs, norm);
    var text := norm[..len];
    out := TakeString(text, outSize - 1);
  }

  lemma AbsoluteIsAbsolute(input: cstring, cwd: cstring)
    requires Absolute(input) || Absolute(cwd)
    ensures Absolute(AbsolutePath(input, cwd)) && |AbsolutePath(input, cwd)| < FS_PATH_MAX
  {
  }
}
