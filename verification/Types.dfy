/** C scalar types and strings shared by the modules. */
module CTypes {
  /** `uint8_t` / `char`. */
  type byte = x: int | 0 <= x < 0x100
  /** `uint32_t`. */
  type word = x: int | 0 <= x < 0x1_0000_0000

  /** A C string: the bytes before the terminating NUL. */
  type cstring = s: seq<byte> | 0 !in s

  datatype Option<+T> = None | Some(value: T)

  const NUL: byte := 0
  const NEWLINE: byte := 10
  const RETURN: byte := 13
  const SPACE: byte := 32
  const DOT: byte := 46
  const SLASH: byte := 47
  const ZERO: byte := 48
  const COLON: byte := 58
  const BACKSLASH: byte := 92
  const LETTER_N: byte := 110

  /** The character at `i`, with the terminating NUL just past the end. */
  function At(s: cstring, i: nat): (c: byte)
    requires i <= |s|
    ensures c == NUL <==> i == |s|
  {
    if i < |s| then s[i] else NUL
  }

  /** At most the first `n` elements. */
  function Take(s: seq<byte>, n: nat): (r: seq<byte>)
    ensures |r| == if |s| <= n then |s| else n
    ensures r <= s
  {
    if |s| <= n then s else s[..n]
  }

  function Zeros(n: nat): (z: seq<byte>)
    ensures |z| == n
    ensures forall i :: 0 <= i < n ==> z[i] == 0
  {
    seq(n, _ => 0)
  }

  /** The C string at the start of a buffer. */
  function CString(b: seq<byte>): (s: cstring)
    ensures |s| <= |b|
  {
    if b == [] || b[0] == NUL then [] else [b[0]] + CString(b[1..])
  }

  lemma {:induction false} CStringOfPadded(s: cstring, n: nat)
    ensures CString(s + Zeros(n)) == s
  {
    if s == [] {
      assert n > 0 ==> (s + Zeros(n))[0] == 0;
    } else {
      var rest: cstring := s[1..];
      CStringOfPadded(rest, n);
      assert (s + Zeros(n))[1..] == rest + Zeros(n);
    }
  }

  /** The bit of `flags` at a power of two. */
  function Bit(flags: nat, mask: nat): bool
    requires mask > 0
  {
    flags / mask % 2 == 1
  }

  /** An index of a ring buffer, one lap at most past its end. */
  lemma WrapIndex(a: nat, n: nat)
    requires 0 < n && a < 2 * n
    ensures a % n == if a < n then a else a - n
  {
    if a >= n {
      assert a % n == (a - n) % n;
    }
  }

  // ----- little-endian words -----

  function StoreWord(w: word): (b: seq<byte>)
    ensures |b| == 4
  {
    [w % 0x100, w / 0x100 % 0x100, w / 0x1_0000 % 0x100, w / 0x100_0000]
  }

  function LoadWord(b: seq<byte>): word
    requires |b| == 4
  {
    b[0] as int + 0x100 * b[1] as int + 0x1_0000 * b[2] as int + 0x100_0000 * b[3] as int
  }

  lemma LoadStoredWord(w: word)
    ensures LoadWord(StoreWord(w)) == w
  {
    var a, b, c := w / 0x100, w / 0x1_0000, w / 0x100_0000;
    assert w == 0x100 * a + w % 0x100 && a == 0x100 * b + a % 0x100 && b == 0x100 * c + b % 0x100;
  }
}
