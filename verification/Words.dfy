/** Machine words as natural numbers.

    Powers of two, the bitwise `and` the C code uses for masks, 32-bit wrap-around, and
    little-endian byte strings. Facts about division and remainder are proved here, on plain
    numbers, so that the proofs about states only ever quote them. */
module Words {

  type Byte = b: int | 0 <= b < 256

  const WORD := 0x1_0000_0000  // 2^32

  function Pow2(k: nat): (p: nat)
    ensures p >= 1
  {
    if k == 0 then 1 else 2 * Pow2(k - 1)
  }

  /** `x & y` on unbounded naturals, bit by bit. */
  function BitAnd(x: nat, y: nat): nat
    decreases x
  {
    if x == 0 || y == 0 then 0
    else (if x % 2 == 1 && y % 2 == 1 then 1 else 0) + 2 * BitAnd(x / 2, y / 2)
  }

  /** The value of `x` as a 32-bit unsigned word. */
  function Wrap32(x: int): (w: nat)
    ensures w < WORD
  {
    x % WORD
  }

  /** The value of the 32-bit word `x` read as a signed int. */
  function Signed32(x: nat): int
    requires x < WORD
  {
    if x < 0x8000_0000 then x else x - WORD
  }

  /** Masking with a power of two less one is the remainder by that power. */
  lemma {:induction false} MaskIsMod(x: nat, k: nat)
    ensures BitAnd(x, Pow2(k) - 1) == x % Pow2(k)
    decreases k
  {
    var s := Pow2(k);
    if k == 0 {
    } else if x == 0 {
      ModUnique(0, s, 0, 0);
    } else {
      var h := Pow2(k - 1);
      MaskIsMod(x / 2, k - 1);
      HalveMask(x, s - 1, h - 1);
      HalveMod(x, h, s);
    }
  }

  lemma HalveMask(x: nat, y: nat, z: nat)
    requires x > 0 && y == 2 * z + 1
    ensures BitAnd(x, y) == x % 2 + 2 * BitAnd(x / 2, z)
  {
  }

  lemma HalveMod(x: nat, h: nat, s: nat)
    requires h > 0 && s == 2 * h
    ensures x % s == x % 2 + 2 * ((x / 2) % h)
  {
    var q, r := (x / 2) / h, (x / 2) % h;
    MulAssociate(2, h, q);
    ModUnique(x, s, q, 2 * r + x % 2);
  }

  /** The only multiple of `s` strictly between `-s` and `s` is zero. */
  lemma SmallMultiple(s: int, d: int)
    requires s > 0 && -s < s * d < s
    ensures d == 0
  {
  }

  lemma MulDistribute(s: int, a: int, b: int)
    ensures s * (a - b) == s * a - s * b
  {
  }

  /** A quotient and a remainder in range determine `x % s`. */
  lemma ModUnique(x: int, s: int, q: int, r: int)
    requires s > 0 && 0 <= r < s && x == s * q + r
    ensures x % s == r && x / s == q
  {
    var q', r' := x / s, x % s;
    MulDistribute(s, q, q');
    SmallMultiple(s, q - q');
  }

  lemma ModAddMultiple(x: int, s: int, k: int)
    requires s > 0
    ensures (x + s * k) % s == x % s
  {
    assert s * (x / s + k) == s * (x / s) + s * k;
    ModUnique(x + s * k, s, x / s + k, x % s);
  }

  /** Two positions less than `s` apart share a cell only if they are equal. */
  lemma ModInjective(a: int, b: int, s: int)
    requires s > 0 && a % s == b % s && -s < a - b < s
    ensures a == b
  {
    MulDistribute(s, a / s, b / s);
    SmallMultiple(s, a / s - b / s);
  }

  lemma ModSub(q: int, p: int, s: int)
    requires s > 0
    ensures (q % s - p) % s == (q - p) % s
  {
    assert q == s * (q / s) + q % s;
    ModAddMultiple(q % s - p, s, q / s);
  }

  /** A power of two up to 2^32 divides 2^32, so wrapping first does not move a masked index. */
  lemma WrapThenMask(x: nat, k: nat)
    requires k <= 32
    ensures BitAnd(Wrap32(x), Pow2(k) - 1) == x % Pow2(k)
  {
    MaskIsMod(Wrap32(x), k);
    Pow2Add(k, 32 - k);
    Pow2Of32();
    DivisorOfWord(x, Pow2(k), Pow2(32 - k));
  }

  lemma Pow2Of30()
    ensures Pow2(30) == 0x4000_0000
  {
    assert Pow2(8) == 256;
    assert Pow2(16) == 65536;
    assert Pow2(24) == 0x100_0000;
  }

  lemma Pow2Of32()
    ensures Pow2(32) == WORD
  {
    Pow2Of30();
  }

  /** `x & ~7` clears the remainder by eight of a 32-bit word. */
  lemma MaskLowBits(x: nat, mask: nat)
    requires x < WORD && mask == WORD - 8
    ensures BitAnd(x, mask) == x - x % 8
  {
    Pow2Of29();
    var m := Pow2(29) - 1;
    HalveEvenMask(x, mask, 4 * m);
    HalveEvenMask(x / 2, 4 * m, 2 * m);
    HalveEvenMask(x / 4, 2 * m, m);
    MaskIsMod(x / 8, 29);
    QuotientsOfWord(x, Pow2(29));
  }

  lemma QuotientsOfWord(x: nat, p: nat)
    requires x < WORD && p == WORD / 8
    ensures x / 2 / 2 == x / 4 && x / 4 / 2 == x / 8 && (x / 8) % p == x / 8
  {
  }

  lemma HalveEvenMask(x: nat, y: nat, z: nat)
    requires y == 2 * z
    ensures BitAnd(x, y) == 2 * BitAnd(x / 2, z)
  {
  }

  lemma Pow2Of29()
    ensures Pow2(29) == WORD / 8
  {
    Pow2Of30();
  }

  lemma DivisorOfWord(x: int, s: int, t: int)
    requires s > 0 && s * t == WORD
    ensures Wrap32(x) % s == x % s
  {
    var q := x / WORD;
    assert x == WORD * q + Wrap32(x);
    MulAssociate(s, t, q);
    ModAddMultiple(Wrap32(x), s, t * q);
  }

  lemma MulAssociate(a: int, b: int, c: int)
    ensures (a * b) * c == a * (b * c)
  {
  }

  lemma {:induction false} Pow2Add(a: nat, b: nat)
    ensures Pow2(a + b) == Pow2(a) * Pow2(b)
  {
    if a > 0 {
      Pow2Add(a - 1, b);
    }
  }

  lemma {:induction false} Pow2Monotone(a: nat, b: nat)
    requires a <= b
    ensures Pow2(a) <= Pow2(b)
  {
    if a < b {
      Pow2Monotone(a, b - 1);
    }
  }

  /** `n` as `k` bytes, least significant first. */
  function LittleEndian(n: nat, k: nat): (s: seq<Byte>)
    ensures |s| == k
  {
    if k == 0 then [] else [n % 256] + LittleEndian(n / 256, k - 1)
  }

  function FromLittleEndian(s: seq<Byte>): nat {
    if s == [] then 0 else s[0] + 256 * FromLittleEndian(s[1..])
  }

  function Pow256(k: nat): nat {
    if k == 0 then 1 else 256 * Pow256(k - 1)
  }

  lemma {:induction false} LittleEndianRoundTrip(n: nat, k: nat)
    requires n < Pow256(k)
    ensures FromLittleEndian(LittleEndian(n, k)) == n
  {
    if k > 0 {
      LittleEndianRoundTrip(n / 256, k - 1);
      assert LittleEndian(n, k)[1..] == LittleEndian(n / 256, k - 1);
    }
  }

  lemma {:induction false} LittleEndianZero(k: nat)
    ensures LittleEndian(0, k) == seq(k, i => 0)
  {
    if k > 0 {
      LittleEndianZero(k - 1);
    }
  }
}
