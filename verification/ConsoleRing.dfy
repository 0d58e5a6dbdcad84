/** The console input ring buffer of syscall_console.c. */
module Console {
  import opened CTypes

  class Ring {
    const buf: array<byte>
    var head: nat
    var tail: nat
    var count: nat

    ghost predicate Valid()
      reads this
    {
      && 0 < buf.Length && head < buf.Length && tail < buf.Length && count <= buf.Length
      && tail == if head + count < buf.Length then head + count else head + count - buf.Length
    }

    ghost function Capacity(): nat {
      buf.Length
    }

    /** The queued characters, oldest first. */
    ghost function Contents(): (s: seq<byte>)
      requires Valid()
      reads this, buf
      ensures |s| == count
    {
      seq(count, i requires 0 <= i < count && Valid() reads this, buf =>
        buf[if head + i < buf.Length then head + i else head + i - buf.Length])
    }

    constructor (capacity: nat)
      requires capacity > 0
      ensures Valid() && Contents() == [] && Capacity() == capacity && fresh(buf)
    {
      buf := new byte[capacity](_ => 0);
      head, tail, count := 0, 0, 0;
    }

    /** `input_pop`. */
    method Pop() returns (c: Option<byte>)
      requires Valid()
      modifies this
      ensures Valid()
      ensures old(Contents()) == [] ==> c == None && Contents() == []
      ensures old(Contents()) != [] ==> c == Some(old(Contents())[0]) && Contents() == old(Contents())[1..]
    {
      if count == 0 {
        return None;
      }
      c := Some(buf[head]);
      WrapIndex(head + 1, buf.Length);
      head := (head + 1) % buf.Length;
      count := count - 1;
    }

    /** One turn of the loop in `poll_console_input`. */
    method Push(c: byte)
      requires Valid() && |Contents()| < Capacity()
      modifies this, buf
      ensures Valid() && Contents() == old(Contents()) + [c]
    {
      buf[tail] := c;
      WrapIndex(tail + 1, buf.Length);
      tail := (tail + 1) % buf.Length;
      count := count + 1;
    }

    /** The loop of `poll_console_input`: takes characters while there are any and there is room. */
    method Fill(available: seq<byte>)
      requires Valid()
      modifies this, buf
      ensures Valid()
      ensures var room := Capacity() - |old(Contents())|;
        Contents() == old(Contents()) + available[..if room <= |available| then room else |available|]
    {
      var i := 0;
      ghost var before := Contents();
      assert before + available[..0] == before;
      while count < buf.Length && i < |available|
        invariant Valid() && i <= |available|
        invariant Contents() == before + available[..i]
      {
        Push(available[i]);
        assert available[..i + 1] == available[..i] + [available[i]];
        i := i + 1;
      }
    }
  }
}
