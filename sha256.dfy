/**
 * SHA-256 (FIPS 180-4) over the UTF-8 encoding of a string, as `hashlib`
 * computes `sha256(text.encode("utf-8")).digest()`. Words are 32-bit
 * bit-vectors, so additions wrap modulo 2^32 as the standard requires.
 */
module Sha256 {
  newtype Byte = x: int | 0 <= x < 256

  type Word = bv32

  // ------------------------------------------------------------------ UTF-8

  /** The UTF-8 encoding of one Unicode scalar value (one to four bytes). */
  function Utf8Char(c: char): (r: seq<Byte>)
    ensures 1 <= |r| <= 4
    ensures (c as int) < 0x80 <==> |r| == 1
    ensures (c as int) < 0x80 ==> r[0] as int == c as int
  {
    var n := c as int;
    if n < 0x80 then [n as Byte]
    else if n < 0x800 then [(0xC0 + n / 0x40) as Byte, (0x80 + n % 0x40) as Byte]
    else if n < 0x1_0000 then
      [(0xE0 + n / 0x1000) as Byte, (0x80 + (n / 0x40) % 0x40) as Byte, (0x80 + n % 0x40) as Byte]
    else
      [(0xF0 + n / 0x4_0000) as Byte, (0x80 + (n / 0x1000) % 0x40) as Byte,
       (0x80 + (n / 0x40) % 0x40) as Byte, (0x80 + n % 0x40) as Byte]
  }

  /** `s.encode("utf-8")`. */
  function Utf8(s: string): (r: seq<Byte>)
    ensures |r| >= |s|
  {
    if s == [] then [] else Utf8Char(s[0]) + Utf8(s[1..])
  }

  /** Encoding distributes over concatenation. */
  lemma {:induction false} Utf8Append(a: string, b: string)
    ensures Utf8(a + b) == Utf8(a) + Utf8(b)
  {
    if a == [] {
      assert a + b == b;
    } else {
      assert (a + b)[0] == a[0] && (a + b)[1..] == a[1..] + b;
      Utf8Append(a[1..], b);
    }
  }

  /** An ASCII string encodes to its own character codes, one byte each. */
  lemma {:induction false} Utf8Ascii(s: string)
    requires forall k :: 0 <= k < |s| ==> (s[k] as int) < 0x80
    ensures |Utf8(s)| == |s|
    ensures forall k :: 0 <= k < |s| ==> Utf8(s)[k] as int == s[k] as int
  {
    if s != [] {
      Utf8Ascii(s[1..]);
    }
  }

  // ------------------------------------------------------------ constants

  /** The first 32 bits of the fractional parts of the cube roots of the first 64 primes. */
  function K(t: nat): Word
    requires t < 64
  {
    [
    0x428a2f98, 0x71374491, 0xb5c0fbcf, 0xe9b5dba5, 0x3956c25b, 0x59f111f1, 0x923f82a4, 0xab1c5ed5,
    0xd807aa98, 0x12835b01, 0x243185be, 0x550c7dc3, 0x72be5d74, 0x80deb1fe, 0x9bdc06a7, 0xc19bf174,
    0xe49b69c1, 0xefbe4786, 0x0fc19dc6, 0x240ca1cc, 0x2de92c6f, 0x4a7484aa, 0x5cb0a9dc, 0x76f988da,
    0x983e5152, 0xa831c66d, 0xb00327c8, 0xbf597fc7, 0xc6e00bf3, 0xd5a79147, 0x06ca6351, 0x14292967,
    0x27b70a85, 0x2e1b2138, 0x4d2c6dfc, 0x53380d13, 0x650a7354, 0x766a0abb, 0x81c2c92e, 0x92722c85,
    0xa2bfe8a1, 0xa81a664b, 0xc24b8b70, 0xc76c51a3, 0xd192e819, 0xd6990624, 0xf40e3585, 0x106aa070,
    0x19a4c116, 0x1e376c08, 0x2748774c, 0x34b0bcb5, 0x391c0cb3, 0x4ed8aa4a, 0x5b9cca4f, 0x682e6ff3,
    0x748f82ee, 0x78a5636f, 0x84c87814, 0x8cc70208, 0x90befffa, 0xa4506ceb, 0xbef9a3f7, 0xc67178f2][t]
  }

  /** The first 32 bits of the fractional parts of the square roots of the first 8 primes. */
  function InitialWord(i: nat): Word
    requires i < 8
  {
    [0x6a09e667, 0xbb67ae85, 0x3c6ef372, 0xa54ff53a, 0x510e527f, 0x9b05688c, 0x1f83d9ab, 0x5be0cd19][i]
  }

  /** The initial hash value H(0). */
  function InitialHash(): (h: seq<Word>)
    ensures |h| == 8
  {
    seq(8, i requires 0 <= i < 8 => InitialWord(i))
  }

  // -------------------------------------------------------------- padding

  /** `n` modulo 256^k as `k` big-endian bytes. */
  function BigEndian(n: nat, k: nat): (r: seq<Byte>)
    ensures |r| == k
  {
    if k == 0 then [] else BigEndian(n / 256, k - 1) + [(n % 256) as Byte]
  }

  /** The number of zero bytes after the 0x80 byte: the least that brings the length to 56 modulo 64. */
  function ZeroCount(n: nat): (z: nat)
    ensures z < 64 && (n + 1 + z + 8) % 64 == 0
  {
    var r := (n + 8) % 64;
    assert n + 8 == 64 * ((n + 8) / 64) + r;
    assert n + 1 + (63 - r) + 8 == 64 * ((n + 8) / 64 + 1);
    63 - r
  }

  /** A 1 bit, zeros up to 56 bytes modulo 64, then the bit length modulo 2^64 in 8 bytes. */
  function Pad(msg: seq<Byte>): (p: seq<Byte>)
    ensures |p| % 64 == 0 && |msg| < |p|
    ensures p[..|msg|] == msg
  {
    var tail := [0x80 as Byte] + seq(ZeroCount(|msg|), _ => 0 as Byte)
                + BigEndian((8 * |msg|) % 0x1_0000_0000_0000_0000, 8);
    assert |tail| == 1 + ZeroCount(|msg|) + 8;
    assert (msg + tail)[..|msg|] == msg;
    msg + tail
  }

  // ---------------------------------------------------- word operations

  function Shr(x: Word, n: nat): Word
    requires n < 32
  {
    x >> n
  }

  function Rotr(x: Word, n: nat): Word
    requires n < 32
  {
    x.RotateRight(n)
  }

  function Ch(x: Word, y: Word, z: Word): Word { (x & y) ^ (!x & z) }

  function Maj(x: Word, y: Word, z: Word): Word { (x & y) ^ (x & z) ^ (y & z) }

  function BigSigma0(x: Word): Word { Rotr(x, 2) ^ Rotr(x, 13) ^ Rotr(x, 22) }

  function BigSigma1(x: Word): Word { Rotr(x, 6) ^ Rotr(x, 11) ^ Rotr(x, 25) }

  function SmallSigma0(x: Word): Word { Rotr(x, 7) ^ Rotr(x, 18) ^ Shr(x, 3) }

  function SmallSigma1(x: Word): Word { Rotr(x, 17) ^ Rotr(x, 19) ^ Shr(x, 10) }

  /** The big-endian word made of bytes `i` to `i + 3`. */
  function WordAt(bs: seq<Byte>, i: nat): Word
    requires i + 4 <= |bs|
  {
    (bs[i] as int * 0x100_0000 + bs[i + 1] as int * 0x1_0000 + bs[i + 2] as int * 0x100 + bs[i + 3] as int) as bv32
  }

  /** The four big-endian bytes of a word. */
  function WordBytes(w: Word): (r: seq<Byte>)
    ensures |r| == 4
  {
    var n := w as int;
    [(n / 0x100_0000) as Byte, ((n / 0x1_0000) % 0x100) as Byte, ((n / 0x100) % 0x100) as Byte, (n % 0x100) as Byte]
  }

  // ---------------------------------------------------------- compression

  /** The message schedule extended from `w` up to 64 words. */
  function Extend(w: seq<Word>): (r: seq<Word>)
    requires 16 <= |w| <= 64
    ensures |r| == 64
    decreases 64 - |w|
  {
    if |w| == 64 then w
    else
      var t := |w|;
      Extend(w + [SmallSigma1(w[t - 2]) + w[t - 7] + SmallSigma0(w[t - 15]) + w[t - 16]])
  }

  /** The 64-word message schedule of one 64-byte block starting at byte `i`. */
  function Schedule(p: seq<Byte>, i: nat): (w: seq<Word>)
    requires i + 64 <= |p|
    ensures |w| == 64
  {
    Extend(seq(16, j requires 0 <= j < 16 => WordAt(p, i + 4 * j)))
  }

  /** One round on the working variables a..h. */
  function Round(s: seq<Word>, kt: Word, wt: Word): (r: seq<Word>)
    requires |s| == 8
    ensures |r| == 8
  {
    var t1 := s[7] + BigSigma1(s[4]) + Ch(s[4], s[5], s[6]) + kt + wt;
    var t2 := BigSigma0(s[0]) + Maj(s[0], s[1], s[2]);
    [t1 + t2, s[0], s[1], s[2], s[3] + t1, s[4], s[5], s[6]]
  }

  /** The working variables after rounds 0 to `t - 1`. */
  function Rounds(s: seq<Word>, w: seq<Word>, t: nat): (r: seq<Word>)
    requires |s| == 8 && |w| == 64 && t <= 64
    ensures |r| == 8
  {
    if t == 0 then s else Round(Rounds(s, w, t - 1), K(t - 1), w[t - 1])
  }

  /** The intermediate hash after the block starting at byte `i`. */
  function Compress(h: seq<Word>, p: seq<Byte>, i: nat): (r: seq<Word>)
    requires |h| == 8 && i + 64 <= |p|
    ensures |r| == 8
  {
    var w := Schedule(p, i);
    AddWords(h, Rounds(h, w, |w|))
  }

  /** Word-wise sum modulo 2^32. */
  function AddWords(a: seq<Word>, b: seq<Word>): (r: seq<Word>)
    requires |a| == |b|
    ensures |r| == |a|
  {
    seq(|a|, j requires 0 <= j < |a| => a[j] + b[j])
  }

  /** The hash after all blocks of `p` from block `b` on. */
  function Blocks(h: seq<Word>, p: seq<Byte>, b: nat): (r: seq<Word>)
    requires |h| == 8 && |p| % 64 == 0 && 64 * b <= |p|
    ensures |r| == 8
    decreases |p| - 64 * b, 1
  {
    if 64 * b == |p| then h else CompressNext(h, p, b)
  }

  /** Compress block `b`, then go on with the blocks after it. */
  function CompressNext(h: seq<Word>, p: seq<Byte>, b: nat): (r: seq<Word>)
    requires |h| == 8 && |p| % 64 == 0 && 64 * b < |p|
    ensures |r| == 8
    decreases |p| - 64 * b, 0
  {
    Blocks(Compress(h, p, 64 * b), p, b + 1)
  }

  /** The concatenated big-endian bytes of the words. */
  function WordsBytes(ws: seq<Word>): (r: seq<Byte>)
    ensures |r| == 4 * |ws|
    decreases |ws|, 1
  {
    if ws == [] then [] else WordsBytesFrom(ws)
  }

  /** The bytes of the first word, then those of the rest. */
  function WordsBytesFrom(ws: seq<Word>): (r: seq<Byte>)
    requires ws != []
    ensures |r| == 4 * |ws|
    decreases |ws|, 0
  {
    WordBytes(ws[0]) + WordsBytes(ws[1..])
  }

  /** `hashlib.sha256(msg).digest()`: 32 bytes. */
  function Digest(msg: seq<Byte>): (d: seq<Byte>)
    ensures |d| == 32
  {
    WordsBytes(Blocks(InitialHash(), Pad(msg), 0))
  }
}
