/** Bytes and machine words as rows of bits, least significant bit first, with the bitwise
    operators of C, and the bit addresses of a packet. */
module MadBits {

  type Byte = s: seq<bool> | |s| == 8 witness [false, false, false, false, false, false, false, false]
  type Word = s: seq<bool> | |s| == 32 witness seq(32, i => false)
  type Long = s: seq<bool> | |s| == 64 witness seq(64, i => false)

  // ----- bytes

  /** (1 << k) - 1 */
  function Mask(k: nat): Byte {
    seq(8, i => i < k)
  }

  function And(a: Byte, b: Byte): Byte {
    seq(8, i requires 0 <= i < 8 => a[i] && b[i])
  }

  function Or(a: Byte, b: Byte): Byte {
    seq(8, i requires 0 <= i < 8 => a[i] || b[i])
  }

  function Not(a: Byte): Byte {
    seq(8, i requires 0 <= i < 8 => !a[i])
  }

  function Shl(a: Byte, k: nat): Byte {
    seq(8, i requires 0 <= i < 8 => k <= i && a[i - k])
  }

  function Shr(a: Byte, k: nat): Byte {
    seq(8, i requires 0 <= i < 8 => i + k < 8 && a[i + k])
  }

  // ----- words

  /** Bit `i` of a number stored in `w`; the number has no bits beyond the word. */
  predicate BitOf(w: seq<bool>, i: int) {
    0 <= i < |w| && w[i]
  }

  function WordShr(w: Word, k: nat): Word {
    seq(32, i requires 0 <= i < 32 => BitOf(w, i + k))
  }

  function WordShl(w: Word, k: nat): Word {
    seq(32, i requires 0 <= i < 32 => BitOf(w, i - k))
  }

  function WordOr(a: Word, b: Word): Word {
    seq(32, i requires 0 <= i < 32 => a[i] || b[i])
  }

  /** Conversion to a byte keeps the low bits. */
  function LowByte(w: Word): Byte {
    seq(8, i requires 0 <= i < 8 => w[i])
  }

  /** A byte used where an integer is wanted. */
  function Widen(b: Byte): Word {
    seq(32, i requires 0 <= i < 32 => i < 8 && b[i])
  }

  function Zero(): Word { seq(32, i => false) }

  // ----- numbers

  function Pow2(k: nat): (r: nat)
    ensures r > 0
  {
    if k == 0 then 1 else 2 * Pow2(k - 1)
  }

  function ToNat(bs: seq<bool>): nat {
    if bs == [] then 0 else (if bs[0] then 1 else 0) + 2 * ToNat(bs[1..])
  }

  function FromNat(n: nat, width: nat): (bs: seq<bool>)
    ensures |bs| == width
    decreases width
  {
    if width == 0 then [] else [n % 2 == 1] + FromNat(n / 2, width - 1)
  }

  lemma {:induction false} ToNatBound(bs: seq<bool>)
    ensures ToNat(bs) < Pow2(|bs|)
  {
    if bs != [] { ToNatBound(bs[1..]); }
  }

  /** A number cut to `k` bits is its remainder modulo 2 to the `k`. */
  lemma {:induction false} CutIsMod(bs: seq<bool>, k: nat)
    requires k <= |bs|
    ensures ToNat(bs[..k]) == ToNat(bs) % Pow2(k)
  {
    if k == 0 {
    } else {
      var b := if bs[0] then 1 else 0;
      CutIsMod(bs[1..], k - 1);
      assert bs[..k][1..] == bs[1..][..k - 1];
      var q, m := ToNat(bs[1..]), Pow2(k - 1);
      DoubleMod(q, m, b);
    }
  }

  lemma DoubleMod(q: nat, m: nat, b: nat)
    requires m > 0 && b < 2
    ensures (b + 2 * q) % (2 * m) == b + 2 * (q % m)
  {
    var d, r := q / m, q % m;
    assert q == m * d + r;
    assert b + 2 * q == (2 * m) * d + (b + 2 * r);
    RemainderIs(b + 2 * q, 2 * m, d, b + 2 * r);
  }

  lemma RemainderIs(x: nat, m: nat, d: nat, r: nat)
    requires m > 0 && x == m * d + r && r < m
    ensures x % m == r
  {
    QuotientIs(m, d, r, x / m, x % m);
  }

  lemma QuotientIs(m: nat, d: nat, r: nat, d': nat, r': nat)
    requires m * d + r == m * d' + r' && r < m && r' < m
    ensures d == d' && r == r'
  {
    if d < d' { MulStep(m, d, d'); }
    if d' < d { MulStep(m, d', d); }
  }

  lemma {:induction false} MulStep(m: nat, d: nat, d': nat)
    requires d < d'
    ensures m * d + m <= m * d'
    decreases d'
  {
    assert m * d' == m * (d' - 1) + m;
    if d + 1 < d' { MulStep(m, d, d' - 1); }
  }

  lemma {:induction false} NatRoundTrip(n: nat, width: nat)
    requires n < Pow2(width)
    ensures ToNat(FromNat(n, width)) == n
  {
    if width > 0 { NatRoundTrip(n / 2, width - 1); }
  }

  // ----- addresses

  /** 3 ^ idx: the byte order within each group of four is reversed. */
  function Flip(idx: nat): nat {
    4 * (idx / 4) + (3 - idx % 4)
  }

  lemma FlipFlip(idx: nat)
    ensures Flip(Flip(idx)) == idx
    ensures forall n: nat :: n % 4 == 0 && idx < n ==> Flip(idx) < n
  {
    var q, r := idx / 4, idx % 4;
    assert Flip(idx) == 4 * q + (3 - r);
    assert Flip(idx) / 4 == q && Flip(idx) % 4 == 3 - r;
  }

  /** A packet: a whole number of 32-bit words. */
  type Packet = p: seq<Byte> | |p| % 4 == 0

  /** The bit at address `a`: bit a % 8 of byte a / 8, counted in flipped order. */
  predicate Bit(p: Packet, a: nat)
    requires a < 8 * |p|
  {
    FlipFlip(a / 8);
    p[Flip(a / 8)][a % 8]
  }

  /** Two packets of one size are equal if they agree at every address. */
  lemma SameBits(p: Packet, q: Packet)
    requires |p| == |q|
    requires forall a :: 0 <= a < 8 * |p| ==> Bit(p, a) == Bit(q, a)
    ensures p == q
  {
    forall j | 0 <= j < |p|
      ensures p[j] == q[j]
    {
      FlipFlip(j);
      forall t | 0 <= t < 8
        ensures p[j][t] == q[j][t]
      {
        var a := 8 * Flip(j) + t;
        assert a / 8 == Flip(j) && a % 8 == t;
        assert Bit(p, a) == Bit(q, a);
      }
    }
  }

  /** The packet in which address `a` holds `f(a)`. */
  function Build(n: nat, f: nat -> bool): (p: Packet)
    requires n % 4 == 0
    ensures |p| == n
  {
    seq(n, j requires 0 <= j < n => seq(8, t requires 0 <= t < 8 => f(8 * Flip(j) + t)))
  }

  lemma BuildBit(n: nat, f: nat -> bool, a: nat)
    requires n % 4 == 0 && a < 8 * n
    ensures Bit(Build(n, f), a) == f(a)
  {
    FlipFlip(a / 8);
  }

  // ----- the two ways to number the bits of a packet

  /** Bit `m` of the packet read as a string of bits, most significant bit of the first
      byte first. */
  predicate MsbBit(p: Packet, m: nat)
    requires m < 8 * |p|
  {
    p[m / 8][7 - m % 8]
  }

  /** The 32-bit number in network order at word `k`. */
  function BigEndianWord(p: Packet, k: nat): Word
    requires 4 * k + 3 < |p|
  {
    p[4 * k + 3][..] + p[4 * k + 2][..] + p[4 * k + 1][..] + p[4 * k][..]
  }

  /** Addresses count the bits of network-order words from the least significant one. */
  lemma WordBit(p: Packet, k: nat, t: nat)
    requires 4 * k + 3 < |p| && t < 32
    ensures Bit(p, 32 * k + t) == BigEndianWord(p, k)[t]
  {
    var a := 32 * k + t;
    assert a / 8 == 4 * k + t / 8 && a % 8 == t % 8;
    assert Flip(a / 8) == 4 * k + (3 - t / 8);
  }

  lemma MsbAddress(p: Packet, k: nat, t: nat)
    requires 4 * k + 3 < |p| && t < 32
    ensures Bit(p, 32 * k + t) == MsbBit(p, 32 * k + (31 - t))
  {
    var a, m := 32 * k + t, 32 * k + (31 - t);
    assert a / 8 == 4 * k + t / 8 && a % 8 == t % 8;
    assert m / 8 == 4 * k + (3 - t / 8) && 7 - m % 8 == t % 8;
    assert Flip(a / 8) == 4 * k + (3 - t / 8);
  }
}
