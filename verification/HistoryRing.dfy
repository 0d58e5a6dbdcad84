/** The ring of command lines, and the serializer and loader as loops over it. */
module HistoryRing {
  import opened CTypes
  import opened History

  // ----- encodings of parts -----

  lemma {:induction false} EscapeConcat(s: seq<byte>, t: seq<byte>)
    ensures Escape(s + t) == Escape(s) + Escape(t)
    decreases |s|
  {
    hide EscapeChar;
    if s == [] {
      assert s + t == t;
    } else {
      EscapeConcat(s[1..], t);
      assert (s + t)[1..] == s[1..] + t;
    }
  }

  lemma EscapeNext(s: seq<byte>, j: nat)
    requires j < |s|
    ensures Escape(s[..j + 1]) == Escape(s[..j]) + EscapeChar(s[j])
    ensures |Escape(s[..j])| + |EscapeChar(s[j])| <= |Escape(s)|
  {
    assert s[..j + 1] == s[..j] + [s[j]];
    EscapeConcat(s[..j], [s[j]]);
    assert Escape([s[j]]) == EscapeChar(s[j]) + Escape([s[j]][1..]);
    assert s == s[..j + 1] + s[j + 1..];
    EscapeConcat(s[..j + 1], s[j + 1..]);
  }

  lemma EscapeEnds(s: seq<byte>)
    ensures Escape([]) == [] && Line(s) == Escape(s) + [NEWLINE]
  {
  }

  lemma EscapeShorter(s: seq<byte>, j: nat)
    requires j <= |s|
    ensures j < |s| ==> |Escape(s[..j])| < |Escape(s)|
  {
    if j < |s| {
      EscapeNext(s, j);
    }
  }

  lemma {:induction false} EncodeConcat(a: seq<cstring>, b: seq<cstring>)
    ensures Encode(a + b) == Encode(a) + Encode(b)
    decreases |a|
  {
    hide Line;
    if a == [] {
      assert a + b == b;
    } else {
      EncodeConcat(a[1..], b);
      assert (a + b)[1..] == a[1..] + b;
    }
  }

  lemma EncodeNext(entries: seq<cstring>, k: nat, i: nat)
    requires k <= i < |entries|
    ensures Encode(entries[k..i + 1]) == Encode(entries[k..i]) + Line(entries[i])
    ensures |Encode(entries[k..i])| + |Line(entries[i])| <= |Encode(entries[k..])|
  {
    hide Line;
    assert entries[k..i + 1] == entries[k..i] + [entries[i]];
    EncodeConcat(entries[k..i], [entries[i]]);
    EncodeOne(entries[i]);
    assert entries[k..] == entries[k..i + 1] + entries[i + 1..];
    EncodeConcat(entries[k..i + 1], entries[i + 1..]);
  }

  lemma EncodeNothing()
    ensures Encode([]) == []
  {
  }

  lemma EncodeOne(e: cstring)
    ensures Encode([e]) == Line(e)
  {
    assert Encode([e]) == Line(e) + Encode([e][1..]);
  }

  lemma EncodeFrom(entries: seq<cstring>, i: nat)
    requires i < |entries|
    ensures |Encode(entries[i..])| == |Line(entries[i])| + |Encode(entries[i + 1..])|
  {
    assert entries[i..][1..] == entries[i + 1..];
  }

  // ----- streams -----

  /** What a sequence of reads delivers: everything up to the first empty one. */
  function Stream(chunks: seq<seq<byte>>): seq<byte> {
    if chunks == [] || chunks[0] == [] then [] else chunks[0] + Stream(chunks[1..])
  }

  /** The suffix before the first that does not fit is the longest that does. */
  lemma StartsHere(entries: seq<cstring>, cap: nat, k: nat)
    requires k <= |entries| && |Encode(entries[k..])| <= cap
    requires k > 0 ==> |Encode(entries[k - 1..])| > cap
    ensures FitsFrom(entries, cap, k)
  {
    hide Encode;
    forall j | 0 <= j < k ensures |Encode(entries[j..])| > cap {
      if j < k - 1 {
        EncodeGrows(entries, j, k - 1);
      }
    }
  }

  // ----- the ring as a list -----

  function Wrap(i: nat, max: nat): nat {
    if i < max then i else i - max
  }

  /** The entries, oldest first. */
  function InOrder(lines: seq<cstring>, head: nat, count: nat): (e: seq<cstring>)
    requires head < |lines| && count <= |lines|
    ensures |e| == count
  {
    seq(count, i requires 0 <= i < count => lines[Wrap(head + i, |lines|)])
  }

  /** Where `history_push` puts a line, and what the ring holds then. */
  lemma PushInOrder(lines: seq<cstring>, head: nat, count: nat, line: cstring)
    requires head < |lines| && count <= |lines| && line != []
    ensures var max, e := |lines|, InOrder(lines, head, count);
      if count < max then InOrder(lines[Wrap(head + count, max) := CutLine(line)], head, count + 1) == Push(e, max, line)
      else InOrder(lines[head := CutLine(line)], if head + 1 == max then 0 else head + 1, count) == Push(e, max, line)
  {
    hide CutLine;
    if count < |lines| {
      PushNotFull(lines, head, count, CutLine(line));
    } else {
      PushFull(lines, head, CutLine(line));
    }
  }

  lemma InOrderAt(lines: seq<cstring>, head: nat, count: nat, i: nat)
    requires head < |lines| && count <= |lines| && i < count
    ensures InOrder(lines, head, count)[i] == lines[Wrap(head + i, |lines|)]
  {
  }

  lemma PushNotFull(lines: seq<cstring>, head: nat, count: nat, cut: cstring)
    requires head < |lines| && count < |lines|
    ensures InOrder(lines[Wrap(head + count, |lines|) := cut], head, count + 1) == InOrder(lines, head, count) + [cut]
  {
    hide InOrder;
    var next := lines[Wrap(head + count, |lines|) := cut];
    InOrderAt(next, head, count + 1, count);
    forall i: nat | i < count ensures InOrder(next, head, count + 1)[i] == InOrder(lines, head, count)[i] {
      InOrderAt(next, head, count + 1, i);
      InOrderAt(lines, head, count, i);
    }
  }

  lemma PushFull(lines: seq<cstring>, head: nat, cut: cstring)
    requires head < |lines|
    ensures InOrder(lines[head := cut], if head + 1 == |lines| then 0 else head + 1, |lines|)
      == InOrder(lines, head, |lines|)[1..] + [cut]
  {
    hide InOrder;
    var max, next, h := |lines|, lines[head := cut], if head + 1 == |lines| then 0 else head + 1;
    InOrderAt(next, h, max, max - 1);
    forall i: nat | i < max - 1 ensures InOrder(next, h, max)[i] == InOrder(lines, head, max)[1..][i] {
      InOrderAt(next, h, max, i);
      InOrderAt(lines, head, max, i + 1);
    }
  }

  lemma PushStored(e: seq<cstring>, max: nat, line: cstring)
    requires max > 0 && AllStored(e)
    ensures AllStored(Push(e, max, line))
  {
  }

  /**
   Writing the history out and loading it back: the entries are the longest suffix
   that fits, exactly when that suffix has no carriage return.
   */
  lemma SaveThenLoad(entries: seq<cstring>, max: nat, cap: nat, k: nat, chunks: seq<seq<byte>>)
    requires max > 0 && AllStored(entries) && |entries| <= max && FitsFrom(entries, cap, k)
    requires Stream(chunks) == Encode(entries[k..])
    ensures Decode(Stream(chunks), max) == entries[k..] <==> NoReturns(entries[k..])
  {
    RoundTrip(entries[k..], max);
  }

  class Ring {
    var lines: seq<cstring>
    var head: nat
    var count: nat

    ghost predicate Valid()
      reads this
    {
      && 0 < |lines| && head < |lines| && count <= |lines| && AllStored(Entries())
    }

    ghost function Entries(): (e: seq<cstring>)
      requires head < |lines| && count <= |lines|
      reads this
    {
      InOrder(lines, head, count)
    }

    constructor (max: nat)
      requires max > 0
      ensures Valid() && Entries() == [] && |lines| == max
    {
      lines := seq(max, _ => []);
      head, count := 0, 0;
    }

    /** The copy loops of `history_push` and `history_get`. */
    method CopyCut(line: cstring, max: nat) returns (out: cstring)
      ensures out == Take(line, max)
    {
      out := [];
      var i := 0;
      while i < max && i < |line|
        invariant i <= |line| && i <= max && out == line[..i]
      {
        assert line[..i + 1] == line[..i] + [line[i]];
        out := out + [line[i]];
        i := i + 1;
      }
    }

    /** `history_push`. */
    method PushLine(line: cstring)
      requires Valid()
      modifies this
      ensures Valid() && |lines| == |old(lines)|
      ensures Entries() == Push(old(Entries()), |lines|, line)
    {
      if line == [] {
        return;
      }
      PushInOrder(lines, head, count, line);
      PushStored(Entries(), |lines|, line);
      WrapIndex(head + count, |lines|);
      WrapIndex(head + 1, |lines|);
      var max := |lines|;
      var at;
      if count < max {
        at := (head + count) % max;
        count := count + 1;
      } else {
        at := head;
        head := (head + 1) % max;
      }
      var stored := CopyCut(line, CMDLINE_MAX - 1);
      lines := lines[at := stored];
    }

    /** `history_get`: the entry, cut to the caller's buffer. */
    method Get(pos: int, outMax: int) returns (r: Option<cstring>)
      requires Valid()
      ensures r.Some? <==> outMax > 0 && 0 <= pos < |Entries()|
      ensures r.Some? ==> r.value == Take(Entries()[pos], outMax - 1)
    {
      if outMax <= 0 || pos < 0 || pos >= count {
        return None;
      }
      WrapIndex(head + pos, |lines|);
      var line := lines[(head + pos) % |lines|];
      InOrderAt(lines, head, count, pos);
      var out := CopyCut(line, outMax - 1);
      return Some(out);
    }

    /** `history_encoded_line_len`. */
    method EncodedLineLen(s: cstring) returns (n: nat)
      ensures n == |Line(s)|
    {
      n := 1;
      var i := 0;
      assert s[..0] == [];
      while i < |s|
        invariant i <= |s| && n == 1 + |Escape(s[..i])|
      {
        EscapeNext(s, i);
        n := n + if s[i] == NEWLINE || s[i] == BACKSLASH then 2 else 1;
        i := i + 1;
      }
      assert s[..|s|] == s;
    }

    /** The first loop of `history_serialize`: where the longest fitting suffix starts. */
    method SuffixStart(cap: nat) returns (start: nat)
      requires Valid()
      ensures FitsFrom(Entries(), cap, start)
    {
      hide InOrder;
      ghost var e := Entries();
      start := count;
      var total := 0;
      assert e[count..] == [];
      assert |Encode(e[count..])| == 0;
      while start > 0
        invariant start <= count && total == |Encode(e[start..])| <= cap
      {
        WrapIndex(head + start - 1, |lines|);
        var line := lines[(head + start - 1) % |lines|];
        InOrderAt(lines, head, count, start - 1);
        EncodeFrom(e, start - 1);
        var need := EncodedLineLen(line);
        if total + need > cap {
          StartsHere(e, cap, start);
          return;
        }
        total := total + need;
        start := start - 1;
      }
      StartsHere(e, cap, start);
    }

    /** One character of the second loop. */
    method WriteChar(c: byte, out: array<byte>, pos: nat) returns (next: nat)
      requires pos + |EscapeChar(c)| <= out.Length
      modifies out
      ensures next == pos + |EscapeChar(c)| && out[..next] == old(out[..pos]) + EscapeChar(c)
    {
      next := pos;
      if c == NEWLINE || c == BACKSLASH {
        if next + 2 > out.Length {
          assert false;
        }
        out[next] := BACKSLASH;
        out[next + 1] := if c == NEWLINE then LETTER_N else BACKSLASH;
        next := next + 2;
      } else {
        if next + 1 > out.Length {
          assert false;
        }
        out[next] := c;
        next := next + 1;
      }
    }

    /** One line of the second loop; its tests for lack of room never succeed. */
    method WriteLine(s: cstring, out: array<byte>, pos: nat) returns (next: nat)
      requires pos + |Line(s)| <= out.Length
      modifies out
      ensures next == pos + |Line(s)| && out[..next] == old(out[..pos]) + Line(s)
    {
      hide EscapeChar, Escape, Line;
      EscapeEnds(s);
      ghost var before := out[..pos];
      next := pos;
      var i := 0;
      assert s[..0] == [] && out[..next] == before + Escape([]);
      EscapeShorter(s, 0);
      while i < |s| && next < out.Length
        invariant i <= |s| && next == pos + |Escape(s[..i])| <= out.Length && out[..next] == before + Escape(s[..i])
        invariant i < |s| ==> |Escape(s[..i])| < |Escape(s)|
        decreases |s| - i
      {
        EscapeNext(s, i);
        assert before + Escape(s[..i]) + EscapeChar(s[i]) == before + Escape(s[..i + 1]);
        next := WriteChar(s[i], out, next);
        i := i + 1;
        EscapeShorter(s, i);
      }
      assert s[..i] == s;
      if next + 1 > out.Length {
        assert false;
      }
      ghost var done := out[..next];
      assert done == before + Escape(s);
      out[next] := NEWLINE;
      next := next + 1;
      assert out[..next] == done + [NEWLINE];
      assert before + Escape(s) + [NEWLINE] == before + Line(s);
    }

    /** `history_serialize`: the encoding of the longest suffix that fits the buffer. */
    method Serialize(out: array<byte>) returns (pos: nat, ghost start: nat)
      requires Valid()
      modifies out
      ensures out.Length > 0 ==> FitsFrom(Entries(), out.Length, start)
      ensures start <= |Entries()| && pos == |Encode(Entries()[start..])| <= out.Length && out[..pos] == Encode(Entries()[start..])
    {
      hide InOrder, Encode, Line, AllStored;
      ghost var e := Entries();
      if out.Length == 0 {
        EncodeNothing();
        assert e[count..] == [];
        return 0, count;
      }
      var first := SuffixStart(out.Length);
      start := first;
      pos := 0;
      assert first <= |e| && |Encode(e[first..])| <= out.Length;
      EncodeNothing();
      assert e[first..first] == [] && out[..0] == [];
      for i := first to count
        invariant pos == |Encode(e[first..i])| && pos <= out.Length && out[..pos] == Encode(e[first..i])
      {
        EncodeNext(e, first, i);
        WrapIndex(head + i, |lines|);
        var line := lines[(head + i) % |lines|];
        InOrderAt(lines, head, count, i);
        pos := WriteLine(line, out, pos);
      }
      assert e[first..count] == e[first..];
    }

    /** `history_load` for a file whose reads return `chunks`. */
    method Load(chunks: seq<seq<byte>>)
      requires Valid()
      modifies this
      ensures Valid() && |lines| == |old(lines)|
      ensures Entries() == Decode(Stream(chunks), |lines|)
    {
      head, count := 0, 0;
      var max := |lines|;
      ghost var start := Decoder([], [], false);
      assert Entries() == [];
      var line: seq<byte> := [];
      var escaped := false;
      var k := 0;
      ghost var whole := Stream(chunks);
      assert chunks[0..] == chunks;
      while k < |chunks|
        invariant k <= |chunks| && Valid() && |lines| == max && |line| < CMDLINE_MAX
        invariant FeedAll(Decoder(Entries(), line, escaped), max, Stream(chunks[k..])) == FeedAll(start, max, whole)
      {
        var buf := chunks[k];
        if buf == [] {
          break;
        }
        assert chunks[k..][1..] == chunks[k + 1..];
        ghost var rest := Stream(chunks[k + 1..]);
        FeedConcat(Decoder(Entries(), line, escaped), max, buf, rest);
        ghost var after := FeedAll(Decoder(Entries(), line, escaped), max, buf);
        assert buf[0..] == buf;
        for i := 0 to |buf|
          invariant Valid() && |lines| == max && |line| < CMDLINE_MAX
          invariant FeedAll(Decoder(Entries(), line, escaped), max, buf[i..]) == after
        {
          assert buf[i..][1..] == buf[i + 1..];
          line, escaped := Character(buf[i], line, escaped);
        }
        FeedNothing(after, max);
        assert buf[|buf|..] == [];
        FeedNothing(Decoder(Entries(), line, escaped), max);
        k := k + 1;
      }
      FeedNothing(Decoder(Entries(), line, escaped), max);
      assert k == |chunks| ==> chunks[k..] == [];
      if escaped && |line| < CMDLINE_MAX - 1 {
        line := line + [BACKSLASH];
      }
      if |line| > 0 {
        PushLine(CString(line));
      }
    }

    /** The body of the character loop. */
    method Character(ch: byte, line: seq<byte>, escaped: bool) returns (nextLine: seq<byte>, nextEscaped: bool)
      requires Valid() && |line| < CMDLINE_MAX
      modifies this
      ensures Valid() && |lines| == |old(lines)| && |nextLine| < CMDLINE_MAX
      ensures Decoder(Entries(), nextLine, nextEscaped) == Feed(Decoder(old(Entries()), line, escaped), |lines|, ch)
    {
      var c := ch;
      nextLine, nextEscaped := line, escaped;
      if c == RETURN {
        return;
      }
      if nextEscaped {
        if c == LETTER_N {
          c := NEWLINE;
        }
        nextEscaped := false;
      } else if c == BACKSLASH {
        nextEscaped := true;
        return;
      } else if c == NEWLINE {
        PushLine(CString(nextLine));
        nextLine := [];
        return;
      }
      if |nextLine| < CMDLINE_MAX - 1 {
        nextLine := nextLine + [c];
      }
    }
  }
}
