/** The shell's command history: its ring, its file format and the round trip (utils.c). */
module History {
  import opened CTypes

  const CMDLINE_MAX := 64

  // ----- the file format -----

  function EscapeChar(c: byte): seq<byte> {
    if c == NEWLINE then [BACKSLASH, LETTER_N] else if c == BACKSLASH then [BACKSLASH, BACKSLASH] else [c]
  }

  function Escape(s: seq<byte>): seq<byte> {
    if s == [] then [] else EscapeChar(s[0]) + Escape(s[1..])
  }

  /** One entry as a line of the file. */
  function Line(s: seq<byte>): seq<byte> {
    Escape(s) + [NEWLINE]
  }

  function Encode(entries: seq<cstring>): seq<byte> {
    if entries == [] then [] else Line(entries[0]) + Encode(entries[1..])
  }

  /** The longest suffix whose encoding fits `cap` bytes starts at `k`. */
  ghost predicate FitsFrom(entries: seq<cstring>, cap: nat, k: nat) {
    k <= |entries| && |Encode(entries[k..])| <= cap && forall j :: 0 <= j < k ==> |Encode(entries[j..])| > cap
  }

  // ----- the decoder -----

  /** The decoder's state: entries so far, the line being read, and a pending backslash. */
  datatype Decoder = Decoder(entries: seq<cstring>, line: seq<byte>, escaped: bool)

  /** `history_push` on the list of entries, oldest first. */
  function Push(entries: seq<cstring>, max: nat, line: cstring): seq<cstring>
    requires max > 0
  {
    if line == [] then entries
    else
      var kept := if |entries| < max then entries else entries[1..];
      kept + [CutLine(line)]
  }

  function CutLine(line: cstring): cstring {
    Take(line, CMDLINE_MAX - 1)
  }

  function AddChar(line: seq<byte>, c: byte): seq<byte> {
    if |line| < CMDLINE_MAX - 1 then line + [c] else line
  }

  /** One character of the file. */
  function Feed(d: Decoder, max: nat, c: byte): Decoder
    requires max > 0
  {
    if c == RETURN then d
    else if d.escaped then d.(line := AddChar(d.line, if c == LETTER_N then NEWLINE else c), escaped := false)
    else if c == BACKSLASH then d.(escaped := true)
    else if c == NEWLINE then Decoder(Push(d.entries, max, CString(d.line)), [], false)
    else d.(line := AddChar(d.line, c))
  }

  function FeedAll(d: Decoder, max: nat, s: seq<byte>): Decoder
    requires max > 0
    decreases |s|
  {
    if s == [] then d else FeedAll(Feed(d, max, s[0]), max, s[1..])
  }

  /** What happens at the end of the file. */
  function Finish(d: Decoder, max: nat): seq<cstring>
    requires max > 0
  {
    var line := if d.escaped then AddChar(d.line, BACKSLASH) else d.line;
    if line == [] then d.entries else Push(d.entries, max, CString(line))
  }

  function Decode(s: seq<byte>, max: nat): seq<cstring>
    requires max > 0
  {
    Finish(FeedAll(Decoder([], [], false), max, s), max)
  }

  // ----- the round trip -----

  /** An entry as `history_push` stores it. */
  predicate Stored(e: cstring) {
    0 < |e| < CMDLINE_MAX
  }

  predicate AllStored(entries: seq<cstring>) {
    forall i :: 0 <= i < |entries| ==> Stored(entries[i])
  }

  /** The entry without its carriage returns. */
  function Strip(s: cstring): (r: cstring)
    ensures |r| <= |s|
    ensures r == s <==> RETURN !in s
    ensures |r| == |s| <==> RETURN !in s
  {
    if s == [] then []
    else
      var rest: cstring := s[1..];
      if s[0] == RETURN then Strip(rest) else [s[0]] + Strip(rest)
  }

  /** What a reload makes of the entries: carriage returns are lost, and empty lines with them. */
  function Reloaded(entries: seq<cstring>): seq<cstring> {
    if entries == [] then []
    else (if Strip(entries[0]) == [] then [] else [Strip(entries[0])]) + Reloaded(entries[1..])
  }

  lemma {:induction false} FeedConcat(d: Decoder, max: nat, s: seq<byte>, t: seq<byte>)
    requires max > 0
    ensures FeedAll(d, max, s + t) == FeedAll(FeedAll(d, max, s), max, t)
    decreases |s|
  {
    hide Feed;
    if s == [] {
      assert s + t == t;
    } else {
      FeedConcat(Feed(d, max, s[0]), max, s[1..], t);
      assert (s + t)[1..] == s[1..] + t;
    }
  }

  lemma FeedEscaped(d: Decoder, max: nat, c: byte)
    requires max > 0 && !d.escaped && |d.line| < CMDLINE_MAX - 1 && c != NUL
    ensures FeedAll(d, max, EscapeChar(c)) == if c == RETURN then d else d.(line := d.line + [c])
  {
    var e := EscapeChar(c);
    assert FeedAll(d, max, e) == FeedAll(Feed(d, max, e[0]), max, e[1..]);
    if |e| == 2 {
      assert e[1..][1..] == [];
    }
  }

  /** Decoding an escaped line appends its characters, but for carriage returns. */
  lemma {:induction false} FeedEscape(d: Decoder, max: nat, s: cstring)
    requires max > 0 && !d.escaped && |d.line| + |s| < CMDLINE_MAX
    ensures FeedAll(d, max, Escape(s)) == d.(line := d.line + Strip(s))
    decreases |s|
  {
    hide Feed, FeedAll, EscapeChar;
    if s == [] {
      FeedNothing(d, max);
      assert d.line + [] == d.line;
    } else {
      var rest: cstring := s[1..];
      FeedConcat(d, max, EscapeChar(s[0]), Escape(rest));
      FeedEscaped(d, max, s[0]);
      if s[0] == RETURN {
        FeedEscape(d, max, rest);
      } else {
        var line := d.line + [s[0]];
        FeedEscape(d.(line := line), max, rest);
        var tail := Strip(rest);
        assert Strip(s) == [s[0]] + tail;
        assert line + tail == d.line + ([s[0]] + tail);
      }
    }
  }

  lemma CStringOfString(s: cstring)
    ensures CString(s) == s
  {
    CStringOfPadded(s, 0);
    assert s + Zeros(0) == s;
  }

  lemma FeedLine(d: Decoder, max: nat, s: cstring)
    requires max > 0 && !d.escaped && d.line == [] && |s| < CMDLINE_MAX && |d.entries| < max
    ensures FeedAll(d, max, Line(s)) == Decoder(d.entries + (if Strip(s) == [] then [] else [Strip(s)]), [], false)
  {
    FeedConcat(d, max, Escape(s), [NEWLINE]);
    FeedEscape(d, max, s);
    CStringOfString(Strip(s));
    assert [] + Strip(s) == Strip(s);
    assert d.entries + [] == d.entries;
    var e := d.(line := Strip(s));
    assert FeedAll(e, max, [NEWLINE]) == FeedAll(Feed(e, max, NEWLINE), max, [NEWLINE][1..]);
  }

  lemma {:induction false} FeedEncoded(d: Decoder, max: nat, entries: seq<cstring>)
    requires max > 0 && !d.escaped && d.line == [] && AllStored(entries) && |d.entries| + |entries| <= max
    ensures FeedAll(d, max, Encode(entries)) == Decoder(d.entries + Reloaded(entries), [], false)
    decreases |entries|
  {
    hide FeedAll, Line, Strip, Reloaded;
    if entries == [] {
      FeedNothing(d, max);
      ReloadedStep(entries);
      assert d.entries + [] == d.entries;
    } else {
      var rest := entries[1..];
      FeedConcat(d, max, Line(entries[0]), Encode(rest));
      FeedLine(d, max, entries[0]);
      ReloadedStep(entries);
      var head := if Strip(entries[0]) == [] then [] else [Strip(entries[0])];
      var next := d.entries + head;
      FeedEncoded(Decoder(next, [], false), max, rest);
      assert next + Reloaded(rest) == d.entries + (head + Reloaded(rest));
    }
  }

  lemma ReloadedStep(entries: seq<cstring>)
    ensures entries == [] ==> Reloaded(entries) == []
    ensures entries != [] ==>
      Reloaded(entries) == (if Strip(entries[0]) == [] then [] else [Strip(entries[0])]) + Reloaded(entries[1..])
  {
  }

  lemma FeedNothing(d: Decoder, max: nat)
    requires max > 0
    ensures FeedAll(d, max, []) == d
  {
  }

  /** Reloading an encoded history gives it back without carriage returns. */
  lemma DecodeEncode(entries: seq<cstring>, max: nat)
    requires max > 0 && AllStored(entries) && |entries| <= max
    ensures Decode(Encode(entries), max) == Reloaded(entries)
  {
    hide FeedAll;
    FeedEncoded(Decoder([], [], false), max, entries);
    assert [] + Reloaded(entries) == Reloaded(entries);
  }

  predicate NoReturns(entries: seq<cstring>) {
    forall i :: 0 <= i < |entries| ==> RETURN !in entries[i]
  }

  function TotalLength(entries: seq<cstring>): nat {
    if entries == [] then 0 else |entries[0]| + TotalLength(entries[1..])
  }

  lemma {:induction false} ReloadedIsSame(entries: seq<cstring>)
    requires AllStored(entries)
    ensures TotalLength(Reloaded(entries)) <= TotalLength(entries)
    ensures NoReturns(entries) ==> Reloaded(entries) == entries
    ensures !NoReturns(entries) ==> TotalLength(Reloaded(entries)) < TotalLength(entries)
    decreases |entries|
  {
    if entries != [] {
      var rest := entries[1..];
      ReloadedIsSame(rest);
      var kept := Strip(entries[0]);
      if kept != [] {
        assert ([kept] + Reloaded(rest))[1..] == Reloaded(rest);
      } else {
        assert [] + Reloaded(rest) == Reloaded(rest);
      }
      if !NoReturns(entries) && RETURN !in entries[0] {
        var i :| 0 <= i < |entries| && RETURN in entries[i];
        assert rest[i - 1] == entries[i];
      }
    }
  }

  /** The round trip holds exactly when no entry contains a carriage return. */
  lemma RoundTrip(entries: seq<cstring>, max: nat)
    requires max > 0 && AllStored(entries) && |entries| <= max
    ensures Decode(Encode(entries), max) == entries <==> NoReturns(entries)
  {
    DecodeEncode(entries, max);
    ReloadedIsSame(entries);
  }

  // ----- the longest suffix -----

  lemma {:induction false} EncodeGrows(entries: seq<cstring>, j: nat, k: nat)
    requires j < k <= |entries|
    ensures |Encode(entries[j..])| > |Encode(entries[k..])|
    decreases k - j
  {
    assert entries[j..][1..] == entries[j + 1..];
    if j + 1 < k {
      EncodeGrows(entries, j + 1, k);
    }
  }

  /** There is one longest suffix that fits. */
  lemma OneFit(entries: seq<cstring>, cap: nat, j: nat, k: nat)
    requires FitsFrom(entries, cap, j) && FitsFrom(entries, cap, k)
    ensures j == k
  {
  }

  // ----- histories that a shell can have -----

  /** The shell enters a line, or loads a history file with some text. */
  datatype HistoryOp = Enter(line: cstring) | LoadText(text: seq<byte>)

  function After(entries: seq<cstring>, max: nat, op: HistoryOp): seq<cstring>
    requires max > 0
  {
    match op
    case Enter(line) => Push(entries, max, line)
    case LoadText(text) => Decode(text, max)
  }

  /** The history after `ops`, from an empty one. */
  function HistoryOf(ops: seq<HistoryOp>, max: nat): seq<cstring>
    requires max > 0
    decreases |ops|
  {
    if ops == [] then [] else After(HistoryOf(ops[..|ops| - 1], max), max, ops[|ops| - 1])
  }

  /** The command loop ends a line at a carriage return, so no line contains one. */
  predicate EnteredOk(ops: seq<HistoryOp>) {
    forall i :: 0 <= i < |ops| && ops[i].Enter? ==> RETURN !in ops[i].line
  }

  predicate Sound(entries: seq<cstring>, max: nat) {
    AllStored(entries) && NoReturns(entries) && |entries| <= max
  }

  lemma PushKeepsSound(entries: seq<cstring>, max: nat, line: cstring)
    requires max > 0 && Sound(entries, max) && RETURN !in line
    ensures Sound(Push(entries, max, line), max)
  {
  }

  lemma {:induction false} PrefixClean(s: seq<byte>)
    requires RETURN !in s
    ensures RETURN !in CString(s)
  {
    if s != [] && s[0] != NUL {
      PrefixClean(s[1..]);
    }
  }

  /** The decoder drops every carriage return it meets. */
  lemma {:induction false} FeedKeepsSound(d: Decoder, max: nat, s: seq<byte>)
    requires max > 0 && Sound(d.entries, max) && RETURN !in d.line
    ensures Sound(FeedAll(d, max, s).entries, max) && RETURN !in FeedAll(d, max, s).line
    decreases |s|
  {
    hide Sound, Push;
    if s != [] {
      PrefixClean(d.line);
      PushKeepsSound(d.entries, max, CString(d.line));
      FeedKeepsSound(Feed(d, max, s[0]), max, s[1..]);
    }
  }

  lemma DecodeIsSound(s: seq<byte>, max: nat)
    requires max > 0
    ensures Sound(Decode(s, max), max)
  {
    hide Push, FeedAll;
    var start := Decoder([], [], false);
    FeedKeepsSound(start, max, s);
    var d := FeedAll(start, max, s);
    var line := if d.escaped then AddChar(d.line, BACKSLASH) else d.line;
    PrefixClean(line);
    PushKeepsSound(d.entries, max, CString(line));
  }

  lemma {:induction false} HistoryIsSound(ops: seq<HistoryOp>, max: nat)
    requires max > 0 && EnteredOk(ops)
    ensures Sound(HistoryOf(ops, max), max)
    decreases |ops|
  {
    hide Sound, Push, Decode;
    if ops == [] {
      assert Sound([], max) by { SoundNothing(max); }
    } else {
      var init := ops[..|ops| - 1];
      HistoryIsSound(init, max);
      match ops[|ops| - 1]
      case Enter(line) => PushKeepsSound(HistoryOf(init, max), max, line);
      case LoadText(text) => DecodeIsSound(text, max);
    }
  }

  lemma SoundNothing(max: nat)
    ensures Sound([], max)
  {
  }

  /** Whatever the shell entered and loaded, its history survives being written and loaded. */
  lemma ReachableRoundTrip(ops: seq<HistoryOp>, max: nat)
    requires max > 0 && EnteredOk(ops)
    ensures var entries := HistoryOf(ops, max);
      AllStored(entries) && |entries| <= max && Decode(Encode(entries), max) == entries
  {
    hide Encode, Decode, HistoryOf;
    HistoryIsSound(ops, max);
    RoundTrip(HistoryOf(ops, max), max);
  }

  // ----- what a history holds -----

  /** The last `max` of `lines`. */
  function Newest(lines: seq<cstring>, max: nat): seq<cstring> {
    if |lines| <= max then lines else lines[|lines| - max..]
  }

  /** The nonempty lines, each cut to the 63 characters that a slot holds. */
  function Kept(lines: seq<cstring>): (r: seq<cstring>)
    ensures |r| <= |lines|
  {
    if lines == [] then []
    else
      var rest, line := Kept(lines[..|lines| - 1]), lines[|lines| - 1];
      if line == [] then rest else rest + [if |line| < 64 then line else line[..63]]
  }

  function Entered(lines: seq<cstring>): (ops: seq<HistoryOp>)
    ensures |ops| == |lines|
  {
    seq(|lines|, i requires 0 <= i < |lines| => Enter(lines[i]))
  }

  lemma NewestPush(kept: seq<cstring>, max: nat, line: cstring)
    requires max > 0
    ensures Push(Newest(kept, max), max, line) ==
      if line == [] then Newest(kept, max) else Newest(kept + [if |line| < 64 then line else line[..63]], max)
  {
    if line != [] {
      var all := kept + [CutLine(line)];
      if |kept| >= max {
        assert kept[|kept| - max..][1..] + [CutLine(line)] == all[|all| - max..];
      }
    }
  }

  lemma EnteredInit(lines: seq<cstring>, max: nat)
    requires lines != [] && max > 0
    ensures var init := lines[..|lines| - 1];
      HistoryOf(Entered(lines), max) == Push(HistoryOf(Entered(init), max), max, lines[|lines| - 1])
  {
    assert Entered(lines)[..|lines| - 1] == Entered(lines[..|lines| - 1]);
  }

  /** After any lines the history is the last of those that were not empty, in order. */
  lemma {:induction false} HistoryIsNewest(lines: seq<cstring>, max: nat)
    requires max > 0
    ensures HistoryOf(Entered(lines), max) == Newest(Kept(lines), max)
    decreases |lines|
  {
    hide Push, Newest, Entered, HistoryOf;
    if lines == [] {
      NothingEntered(max);
    } else {
      var init := lines[..|lines| - 1];
      HistoryIsNewest(init, max);
      EnteredInit(lines, max);
      NewestPush(Kept(init), max, lines[|lines| - 1]);
    }
  }

  lemma NothingEntered(max: nat)
    requires max > 0
    ensures HistoryOf(Entered([]), max) == [] == Newest([], max)
  {
  }

  /** How often `c` occurs. */
  function Count(s: seq<byte>, c: byte): nat {
    if s == [] then 0 else (if s[0] == c then 1 else 0) + Count(s[1..], c)
  }

  lemma {:induction false} CountConcat(s: seq<byte>, t: seq<byte>, c: byte)
    ensures Count(s + t, c) == Count(s, c) + Count(t, c)
  {
    if s == [] {
      assert s + t == t;
    } else {
      CountConcat(s[1..], t, c);
      assert (s + t)[1..] == s[1..] + t;
    }
  }

  lemma {:induction false} EscapedHasNoNewline(s: seq<byte>)
    ensures Count(Escape(s), NEWLINE) == 0
  {
    if s != [] {
      EscapedHasNoNewline(s[1..]);
      CountConcat(EscapeChar(s[0]), Escape(s[1..]), NEWLINE);
      assert EscapeChar(s[0])[1..] == [] || EscapeChar(s[0])[1..][1..] == [];
    }
  }

  /** The file has one line for each entry, whatever characters the entries have. */
  lemma {:induction false} OneLineEach(entries: seq<cstring>)
    ensures Count(Encode(entries), NEWLINE) == |entries|
    ensures entries != [] ==> Encode(entries) != [] && Encode(entries)[|Encode(entries)| - 1] == NEWLINE
  {
    if entries != [] {
      OneLineEach(entries[1..]);
      EscapedHasNoNewline(entries[0]);
      CountConcat(Escape(entries[0]), [NEWLINE], NEWLINE);
      CountConcat(Line(entries[0]), Encode(entries[1..]), NEWLINE);
      assert [NEWLINE][1..] == [];
    }
  }
}
