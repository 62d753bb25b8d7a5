/** Bytes and the fixed-width integers that the binary formats store in them. */
module Bytes {

  type byte = x: int | 0 <= x < 0x100
  type word = x: int | 0 <= x < 0x1_0000_0000

  const U64 := 0x1_0000_0000_0000_0000

  /** The byte at `at` as an integer. */
  function At(s: seq<byte>, at: nat): int
    requires at < |s|
  {
    s[at]
  }

  /** The little-endian 16-bit integer at `at`. */
  function Le16(s: seq<byte>, at: nat): (n: nat)
    requires at + 2 <= |s|
    ensures n < 0x1_0000
  {
    At(s, at) + 0x100 * At(s, at + 1)
  }

  /** The little-endian 32-bit integer at `at`. */
  function Le32(s: seq<byte>, at: nat): word
    requires at + 4 <= |s|
  {
    At(s, at) + 0x100 * At(s, at + 1) + 0x1_0000 * At(s, at + 2) + 0x100_0000 * At(s, at + 3)
  }

  lemma {:induction false} WordBytes(w: word)
    ensures w == w % 0x100 + 0x100 * (w / 0x100 % 0x100) + 0x1_0000 * (w / 0x1_0000 % 0x100) + 0x100_0000 * (w / 0x100_0000)
    ensures w / 0x100_0000 < 0x100
  {
    var (a, b) := (w / 0x100, w / 0x1_0000);
    assert w == 0x100 * a + w % 0x100;
    assert a == 0x100 * b + a % 0x100 by { assert a / 0x100 == b; }
    assert b == 0x100 * (w / 0x100_0000) + b % 0x100 by { assert b / 0x100 == w / 0x100_0000; }
  }

  /** The four little-endian bytes of a word. */
  function ToLe32(w: word): (s: seq<byte>)
    ensures |s| == 4 && Le32(s, 0) == w
  {
    WordBytes(w);
    [w % 0x100, w / 0x100 % 0x100, w / 0x1_0000 % 0x100, w / 0x100_0000]
  }

  /** The 32-bit integer at `at` in the byte order of the file. */
  function U32At(s: seq<byte>, at: nat, big: bool): word
    requires at + 4 <= |s|
  {
    if big then At(s, at + 3) + 0x100 * At(s, at + 2) + 0x1_0000 * At(s, at + 1) + 0x100_0000 * At(s, at)
    else Le32(s, at)
  }

  /** The 64-bit integer at `at` in the byte order of the file. */
  function U64At(s: seq<byte>, at: nat, big: bool): (n: nat)
    requires at + 8 <= |s|
    ensures n < U64
  {
    if big then 0x1_0000_0000 * U32At(s, at, true) + U32At(s, at + 4, true)
    else U32At(s, at, false) + 0x1_0000_0000 * U32At(s, at + 4, false)
  }

  /** A word determines its bytes. */
  lemma {:induction false} Le32Injective(s: seq<byte>, t: seq<byte>, at: nat)
    requires at + 4 <= |s| && at + 4 <= |t|
    requires Le32(s, at) == Le32(t, at)
    ensures s[at] == t[at] && s[at + 1] == t[at + 1] && s[at + 2] == t[at + 2] && s[at + 3] == t[at + 3]
  {
    var (a0, a1, a2, a3) := (At(s, at), At(s, at + 1), At(s, at + 2), At(s, at + 3));
    var (b0, b1, b2, b3) := (At(t, at), At(t, at + 1), At(t, at + 2), At(t, at + 3));
    assert a0 - b0 == 0x100 * ((b1 - a1) + 0x100 * (b2 - a2) + 0x1_0000 * (b3 - a3));
    assert a0 == b0;
    assert a1 - b1 == 0x100 * ((b2 - a2) + 0x100 * (b3 - a3));
  }

  // ---------------------------------------------------------------- writing, and finding what was written

  /** The four bytes of a word in the byte order of the file. */
  function PutU32(w: word, big: bool): (r: seq<byte>)
    ensures |r| == 4
  {
    if big then [w / 0x100_0000, w / 0x1_0000 % 0x100, w / 0x100 % 0x100, w % 0x100]
    else ToLe32(w)
  }

  function PutU64(n: nat, big: bool): (r: seq<byte>)
    requires n < U64
    ensures |r| == 8
  {
    var (high, low) := (n / 0x1_0000_0000, n % 0x1_0000_0000);
    if big then PutU32(high, big) + PutU32(low, big) else PutU32(low, big) + PutU32(high, big)
  }

  /** The two little-endian bytes of a 16-bit integer. */
  function ToLe16(n: nat): (r: seq<byte>)
    requires n < 0x1_0000
    ensures |r| == 2 && Le16(r, 0) == n
  {
    [n % 0x100, n / 0x100]
  }

  /** The bytes `x` stand at `at`. */
  predicate HasAt(s: seq<byte>, at: nat, x: seq<byte>) {
    at + |x| <= |s| && s[at..at + |x|] == x
  }

  lemma {:induction false} HasParts(s: seq<byte>, at: nat, a: seq<byte>, b: seq<byte>)
    requires HasAt(s, at, a + b)
    ensures HasAt(s, at, a) && HasAt(s, at + |a|, b)
  {
    var x := a + b;
    assert s[at..at + |x|][..|a|] == s[at..at + |a|] && x[..|a|] == a;
    assert s[at..at + |x|][|a|..] == s[at + |a|..at + |a| + |b|] && x[|a|..] == b;
  }

  lemma {:induction false} ReadsU32(s: seq<byte>, at: nat, w: word, big: bool)
    requires HasAt(s, at, PutU32(w, big))
    ensures U32At(s, at, big) == w
  {
    var x := PutU32(w, big);
    assert s[at..at + 4] == x;
    assert s[at] == x[0] && s[at + 1] == x[1] && s[at + 2] == x[2] && s[at + 3] == x[3];
    WordBytes(w);
  }

  lemma {:induction false} ReadsU64(s: seq<byte>, at: nat, n: nat, big: bool)
    requires n < U64 && HasAt(s, at, PutU64(n, big))
    ensures U64At(s, at, big) == n
  {
    hide U32At, PutU32;
    var (high, low) := (n / 0x1_0000_0000, n % 0x1_0000_0000);
    if big {
      HasParts(s, at, PutU32(high, big), PutU32(low, big));
      ReadsU32(s, at, high, big);
      ReadsU32(s, at + 4, low, big);
    } else {
      HasParts(s, at, PutU32(low, big), PutU32(high, big));
      ReadsU32(s, at, low, big);
      ReadsU32(s, at + 4, high, big);
    }
  }
}
