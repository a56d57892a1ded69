/**
 * Counter-block arithmetic of AES in counter mode (NIST SP 800-38A,
 * section 6.5, and the standard incrementing function of its Appendix B.1).
 *
 * The player decrypts every fetched chunk independently: the counter block
 * for a chunk that starts at byte offset `start` is the session IV, read as
 * a big-endian unsigned integer, plus the block index `floor(start / 16)`,
 * modulo 2^(8 * |IV|).
 */
module CtrCounter {

  newtype byte = x: int | 0 <= x < 256

  /** Size in bytes of one AES block. */
  const BLOCK_SIZE: nat := 16

  function Pow256(n: nat): (r: nat)
    ensures r >= 1
  {
    if n == 0 then 1 else 256 * Pow256(n - 1)
  }

  /** The value of `s` read as a big-endian unsigned integer. */
  function BigEndian(s: seq<byte>): nat
  {
    if s == [] then 0 else BigEndian(s[..|s| - 1]) * 256 + s[|s| - 1] as nat
  }

  /** The `len` low-order bytes of `v`, most significant first. */
  function Encode(v: nat, len: nat): (r: seq<byte>)
    ensures |r| == len
  {
    if len == 0 then [] else Encode(v / 256, len - 1) + [(v % 256) as byte]
  }

  /** The counter block for block number `blockIndex` of a stream keyed with `iv`. */
  function CounterBlock(iv: seq<byte>, blockIndex: nat): (r: seq<byte>)
    ensures |r| == |iv|
  {
    Encode(BigEndian(iv) + blockIndex, |iv|)
  }

  /** Index of the cipher block that holds byte `offset` of the object. */
  function BlockIndex(offset: nat): nat
  {
    offset / BLOCK_SIZE
  }

  /** The counter block used for a chunk whose first byte is at `start`. */
  function ChunkCounter(iv: seq<byte>, start: nat): (r: seq<byte>)
    ensures |r| == |iv|
  {
    CounterBlock(iv, BlockIndex(start))
  }

  // ---------------------------------------------------------------------
  // Arithmetic helpers

  lemma {:induction false} DivModUnique(x: int, q: int, r: int, m: int)
    requires m > 0 && 0 <= r < m && x == q * m + r
    ensures x / m == q && x % m == r
  {
    var q', r' := x / m, x % m;
    assert x == q' * m + r';
    if q' > q {
      assert (q' - q) * m == r - r';
      MulAtLeast(q' - q, m);
    } else if q' < q {
      assert (q - q') * m == r' - r;
      MulAtLeast(q - q', m);
    }
  }

  lemma {:induction false} MulAtLeast(k: int, m: int)
    requires k >= 1 && m > 0
    ensures k * m >= m
  {
    assert k * m == (k - 1) * m + m;
    assert (k - 1) * m >= 0;
  }

  lemma {:induction false} DivDiv(v: nat, n: nat)
    ensures (v / 256) / Pow256(n) == v / Pow256(n + 1)
    ensures (v / 256) % Pow256(n) * 256 + v % 256 == v % Pow256(n + 1)
  {
    var p := Pow256(n);
    var a, b := v / 256, v % 256;
    var c, d := a / p, a % p;
    assert v == a * 256 + b;
    assert a == c * p + d;
    assert v == c * (256 * p) + (d * 256 + b) by {
      assert a * 256 == c * p * 256 + d * 256;
    }
    assert d * 256 + b < 256 * p by {
      assert d <= p - 1;
      assert d * 256 <= (p - 1) * 256;
    }
    DivModUnique(v, c, d * 256 + b, 256 * p);
  }

  // ---------------------------------------------------------------------
  // Big-endian value and its encoding

  /** A sequence of `n` bytes holds a value below 2^(8n). */
  lemma {:induction false} BigEndianBound(s: seq<byte>)
    ensures BigEndian(s) < Pow256(|s|)
  {
    if s != [] {
      var p := s[..|s| - 1];
      BigEndianBound(p);
      assert BigEndian(p) <= Pow256(|p|) - 1;
      assert BigEndian(p) * 256 <= (Pow256(|p|) - 1) * 256;
    }
  }

  /** Concatenation shifts the high part by the length of the low part. */
  lemma {:induction false} BigEndianAppend(a: seq<byte>, b: seq<byte>)
    ensures BigEndian(a + b) == BigEndian(a) * Pow256(|b|) + BigEndian(b)
  {
    if b != [] {
      var b' := b[..|b| - 1];
      assert (a + b)[..|a + b| - 1] == a + b';
      BigEndianAppend(a, b');
      Shift(BigEndian(a), Pow256(|b'|), BigEndian(b'), b[|b| - 1] as nat);
    } else {
      assert a + b == a;
    }
  }

  /** `(h * w + l) * 256 + x` regrouped as `h * (256 * w) + (l * 256 + x)`. */
  lemma Shift(h: nat, w: nat, l: nat, x: nat)
    ensures (h * w + l) * 256 + x == h * (256 * w) + (l * 256 + x)
  {
  }

  /** Reducing before adding does not change the remainder. */
  lemma {:induction false} ModAddMod(x: nat, b: nat, p: nat)
    requires p > 0
    ensures (x % p + b) % p == (x + b) % p
  {
    var q := x / p;
    assert x + b == q * p + (x % p + b);
    var r := (x % p + b) % p;
    var q2 := (x % p + b) / p;
    assert x % p + b == q2 * p + r;
    assert x + b == (q + q2) * p + r;
    DivModUnique(x + b, q + q2, r, p);
  }

  /** Encoding keeps exactly the value modulo 2^(8 * len). */
  lemma {:induction false} BigEndianOfEncode(v: nat, len: nat)
    ensures BigEndian(Encode(v, len)) == v % Pow256(len)
  {
    if len > 0 {
      var e := Encode(v, len);
      assert e[..len - 1] == Encode(v / 256, len - 1);
      BigEndianOfEncode(v / 256, len - 1);
      DivDiv(v, len - 1);
    }
  }

  /** Encoding the value of a byte sequence at its own length gives it back. */
  lemma {:induction false} EncodeOfBigEndian(s: seq<byte>)
    ensures Encode(BigEndian(s), |s|) == s
  {
    if s != [] {
      var p := s[..|s| - 1];
      var x := s[|s| - 1] as nat;
      DivModUnique(BigEndian(s), BigEndian(p), x, 256);
      EncodeOfBigEndian(p);
      assert s == p + [s[|s| - 1]];
    }
  }

  /** Two byte sequences of one length are equal when their values are. */
  lemma {:induction false} BigEndianInjective(a: seq<byte>, b: seq<byte>)
    requires |a| == |b| && BigEndian(a) == BigEndian(b)
    ensures a == b
  {
    EncodeOfBigEndian(a);
    EncodeOfBigEndian(b);
  }

  /** Encoding depends on the value only modulo 2^(8 * len). */
  lemma {:induction false} EncodeMod(v: nat, w: nat, len: nat)
    requires v % Pow256(len) == w % Pow256(len)
    ensures Encode(v, len) == Encode(w, len)
  {
    BigEndianOfEncode(v, len);
    BigEndianOfEncode(w, len);
    BigEndianInjective(Encode(v, len), Encode(w, len));
  }

  /** Replacing the byte at `i` changes the value by the difference times its weight. */
  lemma {:induction false} BigEndianUpdate(s: seq<byte>, i: nat, v: byte)
    requires i < |s|
    ensures BigEndian(s[i := v]) == BigEndian(s) + (v as int - s[i] as int) * Pow256(|s| - 1 - i)
  {
    var n := |s|;
    var t := s[i := v];
    if i == n - 1 {
      assert t[..n - 1] == s[..n - 1];
    } else {
      assert t[..n - 1] == s[..n - 1][i := v];
      BigEndianUpdate(s[..n - 1], i, v);
      var d := v as int - s[i] as int;
      calc {
        BigEndian(t);
        BigEndian(t[..n - 1]) * 256 + t[n - 1] as nat;
        (BigEndian(s[..n - 1]) + d * Pow256(n - 2 - i)) * 256 + s[n - 1] as nat;
        BigEndian(s) + d * (Pow256(n - 2 - i) * 256);
        BigEndian(s) + d * Pow256(n - 1 - i);
      }
    }
  }

  // ---------------------------------------------------------------------
  // The derivation as the player performs it

  /**
   * Copies the IV and adds `blockIndex` to it byte by byte from the last
   * (least significant) byte towards the first, propagating the carry; the
   * loop stops early once no carry remains. `carry & 0xff` of the player is
   * `carry % 256` for the non-negative integers a block index can be.
   */
  method DeriveCounterFromIv(ivBuf: seq<byte>, blockIndex: nat) returns (counter: seq<byte>)
    ensures |counter| == |ivBuf|
    ensures BigEndian(counter) == (BigEndian(ivBuf) + blockIndex) % Pow256(|ivBuf|)
    ensures counter == CounterBlock(ivBuf, blockIndex)
    ensures blockIndex == 0 ==> counter == ivBuf
  {
    var iv := new byte[|ivBuf|](k requires 0 <= k < |ivBuf| => ivBuf[k]);
    assert iv[..] == ivBuf;
    var carry: nat := blockIndex;
    var i: int := iv.Length - 1;
    while i >= 0 && carry > 0
      invariant -1 <= i < iv.Length
      invariant BigEndian(iv[..]) + carry * Pow256(iv.Length - 1 - i) == BigEndian(ivBuf) + blockIndex
      invariant blockIndex == 0 ==> carry == 0 && iv[..] == ivBuf
      decreases i
    {
      var sum := iv[i] as int + carry % 256;
      CarryStep(iv[..], i, carry, BigEndian(ivBuf) + blockIndex);
      iv[i] := (sum % 256) as byte;
      carry := carry / 256 + sum / 256;
      i := i - 1;
    }
    counter := iv[..];
    CarryDone(ivBuf, blockIndex, counter, carry, iv.Length - 1 - i);
  }

  /** One iteration of the carry loop keeps `value + carry * weight` unchanged. */
  lemma {:induction false} CarryStep(s: seq<byte>, i: nat, carry: nat, total: nat)
    requires i < |s|
    requires BigEndian(s) + carry * Pow256(|s| - 1 - i) == total
    ensures var sum := s[i] as int + carry % 256;
            BigEndian(s[i := (sum % 256) as byte]) + (carry / 256 + sum / 256) * Pow256(|s| - i) == total
  {
    var sum := s[i] as int + carry % 256;
    var k := |s| - 1 - i;
    var w := Pow256(k);
    BigEndianUpdate(s, i, (sum % 256) as byte);
    var carry' := carry / 256 + sum / 256;
    assert sum % 256 - s[i] as int + carry' * 256 == carry;
    assert Pow256(k + 1) == 256 * w;
    Regroup(sum % 256 - s[i] as int, carry', carry, w);
  }

  /** Weights regrouped: a digit change `d` plus the outgoing carry, one place up, is the incoming carry. */
  lemma Regroup(d: int, carryOut: int, carryIn: int, w: int)
    requires d + carryOut * 256 == carryIn
    ensures d * w + carryOut * (256 * w) == carryIn * w
  {
    assert carryOut * (256 * w) == (carryOut * 256) * w;
    assert d * w + (carryOut * 256) * w == (d + carryOut * 256) * w;
  }

  /** When the carry loop stops, the copy holds the sum modulo 2^(8 * len). */
  lemma {:induction false} CarryDone(iv: seq<byte>, blockIndex: nat, counter: seq<byte>, carry: nat, k: nat)
    requires |counter| == |iv| && k <= |iv|
    requires carry == 0 || k == |iv|
    requires BigEndian(counter) + carry * Pow256(k) == BigEndian(iv) + blockIndex
    ensures BigEndian(counter) == (BigEndian(iv) + blockIndex) % Pow256(|iv|)
    ensures counter == CounterBlock(iv, blockIndex)
  {
    var n := |iv|;
    BigEndianBound(counter);
    if carry == 0 {
      DivModUnique(BigEndian(iv) + blockIndex, 0, BigEndian(counter), Pow256(n));
    } else {
      DivModUnique(BigEndian(iv) + blockIndex, carry, BigEndian(counter), Pow256(n));
    }
    BigEndianOfEncode(BigEndian(iv) + blockIndex, n);
    BigEndianInjective(counter, CounterBlock(iv, blockIndex));
  }

  // ---------------------------------------------------------------------
  // Properties of the counter block

  /** The counter's value is IV + blockIndex modulo 2^(8 * |IV|). */
  lemma {:induction false} CounterBlockValue(iv: seq<byte>, blockIndex: nat)
    ensures BigEndian(CounterBlock(iv, blockIndex)) == (BigEndian(iv) + blockIndex) % Pow256(|iv|)
  {
    BigEndianOfEncode(BigEndian(iv) + blockIndex, |iv|);
  }

  /** Block 0 uses the IV itself. */
  lemma {:induction false} CounterBlockZero(iv: seq<byte>)
    ensures CounterBlock(iv, 0) == iv
  {
    EncodeOfBigEndian(iv);
  }

  /** Advancing by `a` blocks and then by `b` is advancing by `a + b`. */
  lemma {:induction false} CounterBlockAdditive(iv: seq<byte>, a: nat, b: nat)
    ensures CounterBlock(CounterBlock(iv, a), b) == CounterBlock(iv, a + b)
  {
    var n := |iv|;
    var x := BigEndian(iv) + a;
    var p := Pow256(n);
    var c := CounterBlock(iv, a);
    assert c == Encode(x, n);
    BigEndianOfEncode(x, n);
    assert CounterBlock(c, b) == Encode(x % p + b, n);
    ModAddMod(x, b, p);
    EncodeMod(x % p + b, x + b, n);
  }

  /** A carry out of the last byte increments the byte before it by exactly one. */
  lemma {:induction false} CounterBlockCarry(p: seq<byte>, x: byte)
    requires x < 255
    ensures CounterBlock(p + [x, 255], 1) == p + [x + 1, 0]
  {
    var s := p + [x, 255];
    var t := p + [x + 1, 0];
    BigEndianAppend(p, [x, 255]);
    BigEndianAppend(p, [x + 1, 0]);
    assert [x, 255][..1] == [x] && [x][..0] == [];
    assert [x + 1, 0][..1] == [x + 1] && [x + 1][..0] == [];
    assert BigEndian([x]) == x as nat;
    assert BigEndian([x + 1]) == x as nat + 1;
    assert BigEndian([x, 255]) == x as nat * 256 + 255;
    assert BigEndian([x + 1, 0]) == (x as nat + 1) * 256;
    assert BigEndian(t) == BigEndian(s) + 1;
    BigEndianBound(t);
    CounterBlockValue(s, 1);
    DivModUnique(BigEndian(s) + 1, 0, BigEndian(t), Pow256(|s|));
    BigEndianInjective(CounterBlock(s, 1), t);
  }

  /** All-ones plus one wraps to all zeros: the counter never grows beyond the IV's length. */
  lemma {:induction false} CounterBlockWraps(n: nat)
    ensures CounterBlock(seq(n, _ => 255 as byte), 1) == seq(n, _ => 0 as byte)
  {
    var ones := seq(n, _ => 255 as byte);
    AllOnesValue(n);
    CounterBlockValue(ones, 1);
    DivModUnique(Pow256(n), 1, 0, Pow256(n));
    AllZerosValue(n);
    BigEndianInjective(CounterBlock(ones, 1), seq(n, _ => 0 as byte));
  }

  lemma {:induction false} AllOnesValue(n: nat)
    ensures BigEndian(seq(n, _ => 255 as byte)) == Pow256(n) - 1
  {
    if n > 0 {
      assert seq(n, _ => 255 as byte)[..n - 1] == seq(n - 1, _ => 255 as byte);
      AllOnesValue(n - 1);
    }
  }

  lemma {:induction false} AllZerosValue(n: nat)
    ensures BigEndian(seq(n, _ => 0 as byte)) == 0
  {
    if n > 0 {
      assert seq(n, _ => 0 as byte)[..n - 1] == seq(n - 1, _ => 0 as byte);
      AllZerosValue(n - 1);
    }
  }

  /**
   * Keystream continuity: for block-aligned chunk starts, the counter of a
   * later chunk is the earlier chunk's counter advanced by the number of
   * blocks between them, so independently decrypted chunks use one
   * continuous counter sequence.
   */
  lemma {:induction false} ChunkCountersContinue(iv: seq<byte>, s1: nat, s2: nat)
    requires s1 % BLOCK_SIZE == 0 && s1 <= s2
    ensures ChunkCounter(iv, s2) == CounterBlock(ChunkCounter(iv, s1), (s2 - s1) / BLOCK_SIZE)
  {
    DivModUnique(s2, s1 / BLOCK_SIZE + (s2 - s1) / BLOCK_SIZE, (s2 - s1) % BLOCK_SIZE, BLOCK_SIZE);
    CounterBlockAdditive(iv, s1 / BLOCK_SIZE, (s2 - s1) / BLOCK_SIZE);
  }

  // ---------------------------------------------------------------------
  // The 64-bit counter declared to the decrypt call

  /**
   * The counter block that a 64-bit counter (the low 8 bytes of a 16-byte
   * block count, the high 8 bytes stay fixed) gives for block `blockIndex`.
   */
  function Counter64Block(iv: seq<byte>, blockIndex: nat): (r: seq<byte>)
    requires |iv| == 16
    ensures |r| == 16 && r[..8] == iv[..8]
  {
    iv[..8] + Encode(BigEndian(iv[8..]) + blockIndex, 8)
  }

  /**
   * The derivation carries over all 16 bytes, while the decrypt call is told
   * that only the low 64 bits count. For a block index below 2^64 the two
   * counter blocks agree exactly when adding the index does not carry out of
   * the low 8 bytes.
   */
  lemma {:induction false} CounterBlockMatches64BitCounter(iv: seq<byte>, blockIndex: nat)
    requires |iv| == 16 && blockIndex < Pow256(8)
    ensures CounterBlock(iv, blockIndex) == Counter64Block(iv, blockIndex)
            <==> BigEndian(iv[8..]) + blockIndex < Pow256(8)
  {
    var c := CounterBlock(iv, blockIndex);
    var e := Encode(BigEndian(iv[8..]) + blockIndex, 8);
    CounterHalves(iv, 8, blockIndex);
    assert c == c[..8] + c[8..];
    assert Counter64Block(iv, blockIndex) == iv[..8] + e;
    if c == Counter64Block(iv, blockIndex) {
      assert c[..8] == (iv[..8] + e)[..8] == iv[..8];
    }
  }

  /**
   * Incrementing a derived counter block once more with the 64-bit
   * increment continues the full-width count exactly when the low half
   * does not carry.
   */
  lemma Counter64Continues(iv: seq<byte>, n: nat, j: nat)
    requires |iv| == 16 && j < Pow256(8) && BigEndian(iv[8..]) + n < Pow256(8)
    ensures Counter64Block(CounterBlock(iv, n), j) == CounterBlock(CounterBlock(iv, n), j)
            <==> BigEndian(iv[8..]) + n + j < Pow256(8)
  {
    var c := CounterBlock(iv, n);
    var l := BigEndian(iv[8..]);
    CounterHalves(iv, 8, n);
    BigEndianOfEncode(l + n, 8);
    DivModUnique(l + n, 0, l + n, Pow256(8));
    assert BigEndian(c[8..]) == l + n;
    CounterBlockMatches64BitCounter(c, j);
  }

  /**
   * The halves of a full-width counter block of `2 * n` bytes: the low `n`
   * bytes are the `8n`-bit sum, and the high `n` bytes are the IV's exactly
   * when that sum does not carry.
   */
  lemma {:induction false} CounterHalves(iv: seq<byte>, n: nat, blockIndex: nat)
    requires |iv| == 2 * n && blockIndex < Pow256(n)
    ensures var c := CounterBlock(iv, blockIndex);
            && c[n..] == Encode(BigEndian(iv[n..]) + blockIndex, n)
            && (c[..n] == iv[..n] <==> BigEndian(iv[n..]) + blockIndex < Pow256(n))
  {
    var c := CounterBlock(iv, blockIndex);
    var l := BigEndian(iv[n..]);
    var e := Encode(l + blockIndex, n);
    CounterDigits(iv, n, blockIndex);
    BigEndianOfEncode(l + blockIndex, n);
    BigEndianInjective(c[n..], e);
    if l + blockIndex < Pow256(n) {
      BigEndianInjective(c[..n], iv[..n]);
    }
  }

  /** The values of the counter block's halves: the low one is the sum modulo 2^(8n), the high one is unchanged exactly without carry. */
  lemma {:induction false} CounterDigits(iv: seq<byte>, n: nat, blockIndex: nat)
    requires |iv| == 2 * n && blockIndex < Pow256(n)
    ensures var c := CounterBlock(iv, blockIndex);
            var h, l := BigEndian(iv[..n]), BigEndian(iv[n..]);
            && BigEndian(c[n..]) == (l + blockIndex) % Pow256(n)
            && (BigEndian(c[..n]) == h <==> l + blockIndex < Pow256(n))
  {
    var P := Pow256(n);
    var h, l := BigEndian(iv[..n]), BigEndian(iv[n..]);
    var c := CounterBlock(iv, blockIndex);
    SplitHalves(iv, n);
    CounterBlockValue(iv, blockIndex);
    var v := BigEndian(c);
    assert v == (h * P + l + blockIndex) % (P * P);
    if n == 0 {
      assert v == 0 && blockIndex == 0;
      assert c[..n] == [] && c[n..] == [];
    } else {
      assert P > 1 by {
        assert P == 256 * Pow256(n - 1);
      }
      TwoDigitSum(h, l, blockIndex, P, v);
      HalvesAsDigits(c, n);
    }
  }

  /** The halves of a `2 * n`-byte value are its two digits in base 2^(8n). */
  lemma {:induction false} HalvesAsDigits(c: seq<byte>, n: nat)
    requires |c| == 2 * n
    ensures BigEndian(c) % Pow256(n) == BigEndian(c[n..])
    ensures BigEndian(c) / Pow256(n) == BigEndian(c[..n])
  {
    SplitHalves(c, n);
    DivModUnique(BigEndian(c), BigEndian(c[..n]), BigEndian(c[n..]), Pow256(n));
  }

  /** A `2 * n`-byte value is its high `n` bytes times 2^(8n) plus its low `n` bytes. */
  lemma {:induction false} SplitHalves(s: seq<byte>, n: nat)
    requires |s| == 2 * n
    ensures s == s[..n] + s[n..]
    ensures BigEndian(s) == BigEndian(s[..n]) * Pow256(n) + BigEndian(s[n..])
    ensures BigEndian(s[..n]) < Pow256(n) && BigEndian(s[n..]) < Pow256(n)
    ensures Pow256(2 * n) == Pow256(n) * Pow256(n)
  {
    assert s == s[..n] + s[n..];
    BigEndianAppend(s[..n], s[n..]);
    BigEndianBound(s[..n]);
    BigEndianBound(s[n..]);
    PowAdd(n, n);
  }

  /**
   * Adding `b` to the two-digit number `h`,`l` in base `p` and reducing
   * modulo `p * p`: the low digit is `(l + b) % p`, and the high digit is
   * still `h` exactly when `l + b` does not reach `p`.
   */
  lemma {:induction false} TwoDigitSum(h: nat, l: nat, b: nat, p: nat, v: nat)
    requires 1 < p && h < p && l < p && b < p
    requires v == (h * p + l + b) % (p * p)
    ensures v % p == (l + b) % p && (v / p == h <==> l + b < p)
  {
    var low := (l + b) % p;
    CarryIsBit(l, b, p);
    if l + b < p {
      assert h * p + l + b == h * p + low;
      TwoDigitNoCarry(h, low, p);
    } else if h + 1 < p {
      assert h * p + l + b == (h + 1) * p + low by {
        assert (h + 1) * p == h * p + p;
      }
      TwoDigitNoCarry(h + 1, low, p);
    } else {
      TwoDigitWrap(h, low, p);
      assert h * p + l + b == h * p + p + low;
    }
  }

  /** A two-digit number in base `p` is below `p * p`; its digits are its quotient and remainder by `p`. */
  lemma {:induction false} TwoDigitNoCarry(h: nat, low: nat, p: nat)
    requires 1 < p && h < p && low < p
    ensures (h * p + low) % (p * p) == h * p + low
    ensures (h * p + low) % p == low && (h * p + low) / p == h
  {
    MulBelow(h, p);
    DivModUnique(h * p + low, 0, h * p + low, p * p);
    DivModUnique(h * p + low, h, low, p);
  }

  /** With the top digit `p - 1`, a carry into it wraps the number round to its low digit. */
  lemma {:induction false} TwoDigitWrap(h: nat, low: nat, p: nat)
    requires 1 < p && h + 1 == p && low < p
    ensures (h * p + p + low) % (p * p) == low
    ensures low % p == low && low / p == 0 && h != 0
  {
    assert h * p + p == p * p by {
      assert h * p + p == (h + 1) * p;
    }
    MulAtLeast(p, p);
    DivModUnique(h * p + p + low, 1, low, p * p);
    DivModUnique(low, 0, low, p);
  }

  lemma {:induction false} CarryIsBit(l: nat, b: nat, p: nat)
    requires 1 < p && l < p && b < p
    ensures (l + b) / p == 0 || (l + b) / p == 1
    ensures l + b == (l + b) / p * p + (l + b) % p
    ensures (l + b) / p == 0 <==> l + b < p
  {
    if l + b < p {
      DivModUnique(l + b, 0, l + b, p);
    } else {
      DivModUnique(l + b, 1, l + b - p, p);
    }
  }

  lemma {:induction false} MulBelow(d: nat, p: nat)
    requires d < p
    ensures d * p + p <= p * p
  {
    assert d * p + p == (d + 1) * p;
    assert (d + 1) * p <= p * p;
  }

  lemma {:induction false} PowAdd(a: nat, b: nat)
    ensures Pow256(a + b) == Pow256(a) * Pow256(b)
  {
    if b > 0 {
      PowAdd(a, b - 1);
      assert Pow256(a + b) == 256 * Pow256(a + b - 1);
      assert Pow256(a) * Pow256(b) == Pow256(a) * (256 * Pow256(b - 1));
    }
  }
}
