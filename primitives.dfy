/** The byte-level building blocks of Balloon hashing: bytes, unsigned 32-bit
    words, the SHA-256 digest seen only through its interface, and the
    little-endian encoding of 32-bit words (Rust's `to_le_bytes` and
    `from_le_bytes`). */
module Primitives {

  /** An unsigned 8-bit integer (Rust `u8`). */
  newtype byte = x: int | 0 <= x < 256

  /** An unsigned 32-bit integer (Rust `u32`). */
  type u32 = x: int | 0 <= x < 0x1_0000_0000

  /** Number of bytes in a SHA-256 digest. */
  const DigestSize: nat := 32

  /** A hash function on byte strings, given as the table of its values:
      H[m] is the digest of message m. A `Sha256` hasher that receives
      several `update` calls and is then finalised is modelled as the entry
      for the concatenation of everything it was fed. */
  type Hasher = imap<seq<byte>, seq<byte>>

  /** What the model takes from SHA-256 (FIPS 180-4): it is defined on every
      message and every digest is 32 bytes long. Nothing else about it is
      used. */
  ghost predicate IsSha256(H: Hasher)
  {
    forall m :: m in H && |H[m]| == DigestSize
  }

  /** `x.to_le_bytes()` for a `u32`: least significant byte first. */
  function ToLe32(x: u32): (b: seq<byte>)
    ensures |b| == 4
  {
    var x1 := x / 0x100;
    var x2 := x1 / 0x100;
    var x3 := x2 / 0x100;
    [(x % 0x100) as byte, (x1 % 0x100) as byte, (x2 % 0x100) as byte, x3 as byte]
  }

  /** `u32::from_le_bytes(b)` for a 4-byte array. */
  function FromLe32(b: seq<byte>): (x: u32)
    requires |b| == 4
  {
    b[0] as int + 0x100 * (b[1] as int + 0x100 * (b[2] as int + 0x100 * b[3] as int))
  }

  /** A definition of the remainder of x divided by m: take m away until
      less than m is left. `RemIsMod` equates it with `%`, which Rust
      computes on unsigned operands. */
  function Rem(x: nat, m: nat): (r: nat)
    requires m >= 1
    ensures r < m
    decreases x
  {
    if x < m then x else Rem(x - m, m)
  }

  /** Rem agrees with the Euclidean remainder, which on non-negative
      operands is the remainder Rust computes. */
  lemma {:induction false} RemIsMod(x: nat, m: nat)
    requires m >= 1
    ensures Rem(x, m) == x % m
    decreases x
  {
    if x >= m {
      RemIsMod(x - m, m);
      var q, r := (x - m) / m, (x - m) % m;
      assert x == (q + 1) * m + r;
      ModUnique(x, m, q + 1, r);
    }
  }

  /** The remainder is the only r in 0 .. m - 1 with x == q * m + r. */
  lemma ModUnique(x: int, m: int, q: int, r: int)
    requires m >= 1 && x == q * m + r && 0 <= r < m
    ensures x % m == r
  {
    var q', r' := x / m, x % m;
    assert (q - q') * m == r' - r;
    MultipleIsZeroOrLarge(q - q', m);
  }

  /** A multiple of m is 0 or at least m away from 0. */
  lemma MultipleIsZeroOrLarge(a: int, m: int)
    requires m >= 1
    ensures a == 0 || a * m >= m || a * m <= -m
  {
    if a >= 1 {
      assert a * m == (a - 1) * m + m;
    } else if a <= -1 {
      assert a * m == (a + 1) * m - m;
    }
  }

  /** Quotient and remainder by 256 are unique. */
  lemma DivMod256(x: int, q: int, r: int)
    requires x == 0x100 * q + r && 0 <= r < 0x100
    ensures x / 0x100 == q && x % 0x100 == r
  {
  }

  /** Decoding undoes encoding. */
  lemma FromLe32ToLe32(x: u32)
    ensures FromLe32(ToLe32(x)) == x
  {
    var x1 := x / 0x100;
    var x2 := x1 / 0x100;
    var x3 := x2 / 0x100;
    assert x2 == x2 % 0x100 + 0x100 * x3;
    assert x1 == x1 % 0x100 + 0x100 * x2;
    assert x == x % 0x100 + 0x100 * x1;
  }

  /** Encoding undoes decoding: every 4-byte string is the encoding of
      exactly one word. */
  lemma ToLe32FromLe32(b: seq<byte>)
    requires |b| == 4
    ensures ToLe32(FromLe32(b)) == b
  {
    var x := FromLe32(b);
    var x2 := b[2] as int + 0x100 * b[3] as int;
    var x1 := b[1] as int + 0x100 * x2;
    DivMod256(x, x1, b[0] as int);
    DivMod256(x1, x2, b[1] as int);
    DivMod256(x2, b[3] as int, b[2] as int);
    var e := ToLe32(x);
    assert e[0] == b[0] && e[1] == b[1] && e[2] == b[2] && e[3] == b[3];
  }

  /** The encoding is injective, so distinct words never share an encoding. */
  lemma ToLe32Injective(x: u32, y: u32)
    requires ToLe32(x) == ToLe32(y)
    ensures x == y
  {
    FromLe32ToLe32(x);
    FromLe32ToLe32(y);
  }
}
