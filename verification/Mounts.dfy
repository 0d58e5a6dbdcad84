/** Mount points: how fs.c matches a path against them, and what that means for its components. */
module Mounts {
  import opened CTypes
  import opened FsPath

  /** `vfs_match_mount`. */
  predicate Matches(mount: cstring, path: cstring) {
    mount == [SLASH] || (mount <= path && (|path| == |mount| || path[|mount|] == SLASH))
  }

  /** A mount point other than the root: absolute, names separated by single slashes. */
  ghost predicate MountPoint(mount: cstring) {
    mount == [SLASH] || exists cs: seq<cstring> {:trigger Joined(cs)} ::
      mount == Joined(cs) && cs != [] && forall c :: c in cs ==> ComponentName(c)
  }

  /** The path inside the mounted file system. */
  function Subpath(mount: cstring, path: cstring): (sub: cstring)
    requires Matches(mount, path) && Absolute(path)
  {
    if mount == [SLASH] then path
    else if |path| == |mount| then [SLASH]
    else Chars(path, |mount|, |path|); path[|mount|..]
  }

  /** Prefixing the mount's components to the rest gives the components of the whole path. */
  lemma SubpathComponents(mount: cstring, path: cstring)
    requires MountPoint(mount) && Matches(mount, path) && Absolute(path)
    ensures Absolute(Subpath(mount, path))
    ensures Components(path) == Components(mount) + Components(Subpath(mount, path))
  {
    ComponentsOfPrinted([]);
    assert Printed([]) == [SLASH];
    if mount != [SLASH] {
      var cs: seq<cstring> :| mount == Joined(cs) && cs != [] && forall c :: c in cs ==> ComponentName(c);
      var rest: cstring := path[|mount|..];
      assert path == mount + rest;
      JoinedThen(cs, rest);
      ComponentsOfJoined(cs);
      if rest == [] {
        assert Components(rest) == [];
      }
    }
  }

  lemma {:induction false} JoinedThen(cs: seq<cstring>, rest: cstring)
    requires (forall c :: c in cs ==> ComponentName(c)) && (rest == [] || rest[0] == SLASH)
    ensures Components(Joined(cs) + rest) == cs + Components(rest)
  {
    hide Components, ComponentName, Joined;
    JoinedUnfold(cs);
    if cs == [] {
      assert Joined(cs) + rest == rest;
    } else {
      var below := Joined(cs[1..]);
      var tail: cstring := below + rest;
      JoinedThen(cs[1..], rest);
      StartsWithSlash(cs[1..]);
      NameThen(cs[0], tail);
      var whole: cstring := cs[0] + tail;
      LeadingSlash(whole);
      Regroup([SLASH], cs[0], below, rest);
      Regroup([cs[0]], cs[1..], [], Components(rest));
      assert cs == [cs[0]] + cs[1..] + [];
      assert [] + Components(rest) == Components(rest);
    }
  }

  lemma Regroup<T>(a: seq<T>, b: seq<T>, c: seq<T>, d: seq<T>)
    ensures a + b + c + d == a + (b + (c + d))
  {
  }

  lemma StartsWithSlash(cs: seq<cstring>)
    ensures Joined(cs) == [] || Joined(cs)[0] == SLASH
  {
  }

  /** The longest matching mount path decides, the first of equals. */
  predicate BestMount(mounts: seq<Option<cstring>>, path: cstring, r: Option<nat>) {
    match r
    case None => forall i :: 0 <= i < |mounts| && mounts[i].Some? ==> !Matches(mounts[i].value, path)
    case Some(m) =>
      && m < |mounts| && mounts[m].Some? && Matches(mounts[m].value, path)
      && forall i :: 0 <= i < |mounts| && i != m && mounts[i].Some? && Matches(mounts[i].value, path) ==>
           if i < m then |mounts[i].value| < |mounts[m].value| else |mounts[i].value| <= |mounts[m].value|
  }

  const SLASH_TMP: cstring := [47, 116, 109, 112]

  /** Two slashes in a row begin before position `n`. */
  predicate Doubled(path: cstring, n: nat) {
    exists i :: 0 <= i < n && DoubleAt(path, i)
  }

  predicate DoubleAt(path: cstring, i: nat) {
    i + 1 < |path| && path[i] == SLASH && path[i + 1] == SLASH
  }

  /**
   Routing compares characters, not components: a path reaches a mount exactly if
   its components start with the mount's and no slash is doubled in that part.
   */
  lemma MatchesIff(cs: seq<cstring>, path: cstring)
    requires cs != [] && (forall c :: c in cs ==> ComponentName(c)) && Absolute(path)
    ensures Matches(Joined(cs), path) <==> cs <= Components(path) && !Doubled(path, |Joined(cs)|)
  {
    hide Components, Joined, Doubled;
    JoinedHasSingles(cs);
    if Matches(Joined(cs), path) {
      var rest: cstring := path[|Joined(cs)|..];
      assert path == Joined(cs) + rest;
      JoinedThen(cs, rest);
      SinglesReach(Joined(cs), path);
    }
    if cs <= Components(path) && !Doubled(path, |Joined(cs)|) {
      JoinedReaches(cs, path);
    }
  }

  lemma SinglesReach(mount: cstring, path: cstring)
    requires mount <= path && mount != [] && mount[|mount| - 1] != SLASH
    requires forall i: nat :: i < |mount| ==> !DoubleAt(mount, i)
    ensures !Doubled(path, |mount|)
  {
    forall i | 0 <= i < |mount| ensures !DoubleAt(path, i) {
      assert !DoubleAt(mount, i);
    }
  }

  lemma {:induction false} JoinedHasSingles(cs: seq<cstring>)
    requires forall c :: c in cs ==> ComponentName(c)
    ensures forall i: nat :: i < |Joined(cs)| ==> !DoubleAt(Joined(cs), i)
    ensures cs != [] ==> Joined(cs) != [] && Joined(cs)[|Joined(cs)| - 1] != SLASH
  {
    hide Joined;
    JoinedUnfold(cs);
    if cs != [] {
      JoinedHasSingles(cs[1..]);
      var c, below := cs[0], Joined(cs[1..]);
      assert c in cs;
      forall i: nat | i < |Joined(cs)| ensures !DoubleAt(Joined(cs), i) {
        if i > |c| {
          assert !DoubleAt(below, i - 1 - |c|);
        }
      }
      JoinedUnfold(cs[1..]);
    }
  }

  lemma {:induction false} JoinedReaches(cs: seq<cstring>, path: cstring)
    requires (forall c :: c in cs ==> ComponentName(c)) && (path == [] || Absolute(path))
    requires cs <= Components(path) && !Doubled(path, |Joined(cs)|)
    ensures Joined(cs) <= path && (|path| == |Joined(cs)| || path[|Joined(cs)|] == SLASH)
    decreases |cs|
  {
    hide ComponentsFrom, Joined, Doubled, SkipSlashes;
    JoinedUnfold(cs);
    if cs != [] {
      FirstComponent(cs, path);
      var end := 1 + |cs[0]|;
      var tail: cstring := path[end..];
      LaterDoubles(path, end, |Joined(cs[1..])|);
      JoinedReaches(cs[1..], tail);
    }
  }

  lemma LaterDoubles(path: cstring, end: nat, n: nat)
    requires end <= |path| && !Doubled(path, end + n) && 0 !in path[end..]
    ensures !Doubled(path[end..], n)
  {
    forall i | 0 <= i < n ensures !DoubleAt(path[end..], i) {
      assert !DoubleAt(path, end + i);
    }
  }

  /** With a single slash in front, the first component follows it, and the rest of the path has the others. */
  lemma FirstComponent(cs: seq<cstring>, path: cstring)
    requires cs != [] && cs <= Components(path) && (path == [] || Absolute(path)) && !Doubled(path, |Joined(cs)|)
    ensures var end := 1 + |cs[0]|;
      && end <= |path| && path[..end] == [SLASH] + cs[0] && 0 !in path[end..]
      && cs[1..] <= Components(path[end..]) && (end == |path| || path[end] == SLASH)
  {
    hide ComponentsFrom, Joined;
    JoinedUnfold(cs);
    ComponentsStep(path, 0);
    assert !DoubleAt(path, 0);
    var end := ComponentEnd(path, 1);
    Chars(path, end, |path|);
    var tail: cstring := path[end..];
    ComponentsOfSuffix(path, end, tail, end);
  }

  /** So a doubled leading slash hides the mount: `//tmp` has the components of `/tmp` and is not inside it. */
  lemma DoubleSlashMissesMount(rest: cstring)
    ensures !Matches(SLASH_TMP, [SLASH, SLASH] + rest)
    ensures Components([SLASH, SLASH] + rest) == Components([SLASH] + rest)
  {
    var path: cstring := [SLASH, SLASH] + rest;
    assert path[1] == SLASH && SLASH_TMP[1] == 116;
    LeadingSlash([SLASH] + rest);
    assert [SLASH] + ([SLASH] + rest) == path;
  }
}
