/** What the field codec promises: exact reading, round trip, frame, and any number of
    writes in any order. */
module MadCodec {
  import opened MadBits
  import opened MadFields

  // ----- reading is exact

  /** The bits of a field as a number, least significant bit at the lowest address. */
  function FieldValue(p: Packet, f: nat, len: nat): Word
    requires f + len <= 8 * |p|
  {
    seq(32, j requires 0 <= j < 32 => j < len && Bit(p, f + j))
  }

  lemma RoomCovers(f: nat, len: nat, n: nat)
    requires Room(f, len, n) && len <= 32
    ensures f + len <= 8 * n
  {
    if !OneByte(f, len) { Shape(f, len); } else { assert f == 8 * (f / 8) + f % 8; }
  }

  lemma GetIsField(p: Packet, f: nat, len: nat)
    requires Room(f, len, |p|) && len <= 32 && f + len <= 8 * |p| && (WellFormed(f, len) || len == 32)
    ensures Get(p, f, len) == FieldValue(p, f, len)
  {
    forall j | 0 <= j < 32
      ensures Get(p, f, len)[j] == FieldValue(p, f, len)[j]
    {
      if !OneByte(f, len) {
        Shape(f, len);
        if Wide(f, len) <= j < Wide(f, len) + Post(f, len) {
          assert f + len == 8 * ((f + len) / 8) + Post(f, len);
        }
      }
    }
  }

  function Filled(n: nat, b: bool): (p: Packet)
    requires n % 4 == 0
    ensures |p| == n && forall a :: 0 <= a < 8 * n ==> Bit(p, a) == b
  {
    var p := seq(n, j => seq(8, t => b));
    assert forall a :: 0 <= a < 8 * n ==> Bit(p, a) == b by {
      forall a | 0 <= a < 8 * n ensures Bit(p, a) == b { FlipFlip(a / 8); }
    }
    p
  }

  /** Reading returns the field on every packet if and only if the field is well formed or
      32 bits long. An unaligned field of 32 bits is read right although the code counts
      40 bits, because the surplus is shifted out. */
  lemma GetExact(f: nat, len: nat, n: nat)
    requires n % 4 == 0 && Room(f, len, n) && len <= 32 && f + len <= 8 * n
    ensures (forall p: Packet :: |p| == n ==> Get(p, f, len) == FieldValue(p, f, len))
            <==> WellFormed(f, len) || len == 32
  {
    if WellFormed(f, len) || len == 32 {
      forall p: Packet | |p| == n ensures Get(p, f, len) == FieldValue(p, f, len) { GetIsField(p, f, len); }
    } else {
      Shape(f, len);
      var p := Filled(n, true);
      assert len < Wide(f, len);
      assert Get(p, f, len)[len] && !FieldValue(p, f, len)[len];
    }
  }

  // ----- round trip

  /** The low `len` bits of a word. */
  function Cut(v: Word, len: nat): Word {
    seq(32, j requires 0 <= j < 32 => j < len && v[j])
  }

  /** A field reads back as what was written, cut to its length. */
  lemma RoundTrip(p: Packet, f: nat, len: nat, v: Word)
    requires Room(f, len, |p|) && (WellFormed(f, len) || len == 32)
    ensures Get(Put(p, f, len, v), f, len) == Cut(v, len)
  {
    RoomCovers(f, len, |p|);
    var q := Put(p, f, len, v);
    GetIsField(q, f, len);
    forall j | 0 <= j < 32 && j < len ensures Bit(q, f + j) == v[j] { WrittenBit(p, f, len, v, j); }
  }

  lemma WrittenBit(p: Packet, f: nat, len: nat, v: Word, j: nat)
    requires Room(f, len, |p|) && j < len <= 32 && f + j < 8 * |p|
    ensures Bit(Put(p, f, len, v), f + j) == v[j]
  {
    PutBit(p, f, len, v, f + j);
    if !OneByte(f, len) { Shape(f, len); }
  }

  /** Reading returns what was written, on every packet and for every value, if and only if
      the field is well formed or 32 bits long: any other field returns bits of the value
      that are beyond its length. */
  lemma RoundTripExact(f: nat, len: nat, n: nat)
    requires n % 4 == 0 && Room(f, len, n) && len <= 32
    ensures (forall p: Packet, v: Word :: |p| == n ==> Get(Put(p, f, len, v), f, len) == Cut(v, len))
            <==> WellFormed(f, len) || len == 32
  {
    if WellFormed(f, len) || len == 32 {
      forall p: Packet, v: Word | |p| == n
        ensures Get(Put(p, f, len, v), f, len) == Cut(v, len)
      {
        RoundTrip(p, f, len, v);
      }
    } else {
      var p, ones := Filled(n, false), seq(32, i => true);
      Shape(f, len);
      PutBit(p, f, len, ones, f + len);
      assert Get(Put(p, f, len, ones), f, len)[len] && !Cut(ones, len)[len];
    }
  }

  /** In numbers: the value read is the value written modulo 2 to the length. */
  lemma RoundTripNumber(p: Packet, f: nat, len: nat, v: Word)
    requires Room(f, len, |p|) && (WellFormed(f, len) || len == 32)
    ensures ToNat(Get(Put(p, f, len, v), f, len)) == ToNat(v) % Pow2(len)
  {
    if WellFormed(f, len) && !OneByte(f, len) { Shape(f, len); }
    RoundTrip(p, f, len, v);
    CutNumber(v, len);
  }

  lemma {:induction false} ZerosAreNothing(bs: seq<bool>, k: nat)
    requires k <= |bs| && forall i :: k <= i < |bs| ==> !bs[i]
    ensures ToNat(bs) == ToNat(bs[..k])
    decreases |bs|
  {
    if bs == [] {
      assert bs[..k] == bs;
    } else if k == 0 {
      ZerosAreNothing(bs[1..], 0);
      assert bs[1..][..0] == bs[..0];
    } else {
      ZerosAreNothing(bs[1..], k - 1);
      assert bs[..k][1..] == bs[1..][..k - 1];
    }
  }

  lemma CutNumber(v: Word, len: nat)
    requires len <= 32
    ensures ToNat(Cut(v, len)) == ToNat(v) % Pow2(len)
  {
    ZerosAreNothing(Cut(v, len), len);
    assert Cut(v, len)[..len] == v[..len];
    CutIsMod(v, len);
  }

  /** A number that fits in `k` bits has no bits from `k` on. */
  lemma {:induction false} HighBitsZero(bs: seq<bool>, k: nat, i: nat)
    requires ToNat(bs) < Pow2(k) && k <= i < |bs|
    ensures !bs[i]
    decreases |bs|
  {
    if k == 0 {
      AllZero(bs, i);
    } else {
      HighBitsZero(bs[1..], k - 1, i - 1);
    }
  }

  lemma {:induction false} AllZero(bs: seq<bool>, i: nat)
    requires ToNat(bs) == 0 && i < |bs|
    ensures !bs[i]
  {
    if i > 0 { AllZero(bs[1..], i - 1); }
  }

  // ----- frame

  /** The value has no bits that would spill into the rest of the last byte. */
  predicate Clean(f: nat, len: nat, v: Word) {
    OneByte(f, len) || Post(f, len) == 0 || forall i :: len <= i < len + 8 - Post(f, len) ==> !BitOf(v, i)
  }

  lemma InRangeIsClean(f: nat, len: nat, v: Word)
    requires len <= 32 && ToNat(v) < Pow2(len)
    ensures Clean(f, len, v)
  {
    forall i | len <= i < 32 ensures !v[i] { HighBitsZero(v, len, i); }
  }

  /** Writing leaves every bit outside of the field alone. */
  ghost predicate Frames(p: Packet, f: nat, len: nat, v: Word) {
    forall a :: 0 <= a < 8 * |p| && !(f <= a < f + len) ==> Bit(Put(p, f, len, v), a) == Bit(p, a)
  }

  lemma PutFrame(p: Packet, f: nat, len: nat, v: Word)
    requires WellFormed(f, len) && Clean(f, len, v)
    ensures Frames(p, f, len, v)
  {
    forall a | 0 <= a < 8 * |p| && !(f <= a < f + len)
      ensures Bit(Put(p, f, len, v), a) == Bit(p, a)
    {
      PutBit(p, f, len, v, a);
      if !OneByte(f, len) { Shape(f, len); }
    }
  }

  /** For a well-formed field, the bits outside stay as they are, whatever the packet, if
      and only if no bit of the value spills. */
  lemma FrameExact(f: nat, len: nat, v: Word, n: nat)
    requires n % 4 == 0 && Room(f, len, n) && WellFormed(f, len)
    ensures (forall p: Packet :: |p| == n ==> Frames(p, f, len, v)) <==> Clean(f, len, v)
  {
    if Clean(f, len, v) {
      forall p: Packet | |p| == n ensures Frames(p, f, len, v) { PutFrame(p, f, len, v); }
    } else {
      Shape(f, len);
      var i :| len <= i < len + 8 - Post(f, len) && BitOf(v, i);
      var p := Filled(n, false);
      PutBit(p, f, len, v, f + i);
      assert Bit(Put(p, f, len, v), f + i) != Bit(p, f + i);
    }
  }

  /** Values in range leave the rest of every packet alone if and only if the field is well
      formed: otherwise the code writes over bits that follow the field. */
  lemma FrameNeedsShape(f: nat, len: nat, n: nat)
    requires n % 4 == 0 && Room(f, len, n) && len <= 32
    ensures (forall p: Packet, v: Word :: |p| == n && ToNat(v) < Pow2(len) ==> Frames(p, f, len, v))
            <==> WellFormed(f, len)
  {
    if WellFormed(f, len) {
      forall p: Packet, v: Word | |p| == n && ToNat(v) < Pow2(len)
        ensures Frames(p, f, len, v)
      {
        InRangeIsClean(f, len, v);
        PutFrame(p, f, len, v);
      }
    } else {
      Shape(f, len);
      var p := Filled(n, true);
      ZeroIsZero(32);
      PutBit(p, f, len, Zero(), f + len);
      assert Bit(Put(p, f, len, Zero()), f + len) != Bit(p, f + len);
      assert !Frames(p, f, len, Zero());
    }
  }

  function OnlyBit(k: nat): Word { seq(32, i => i == k) }

  /** The status field of direct-route packets, 15 bits at bit 48, spills: bit 15 of a value
      gets into the direction bit that follows. */
  lemma StatusSpills() returns (p: Packet)
    ensures WellFormed(48, 15) && Room(48, 15, 256) && !Clean(48, 15, OnlyBit(15))
    ensures |p| == 256 && !Frames(p, 48, 15, OnlyBit(15))
  {
    assert BitOf(OnlyBit(15), 15);
    FrameExact(48, 15, OnlyBit(15), 256);
    p :| |p| == 256 && !Frames(p, 48, 15, OnlyBit(15));
  }

  /** The header builder writes the direction bit next, which repairs this. */
  lemma DirectionRepairs(p: Packet, v: Word, d: Word)
    requires |p| % 4 == 0 && |p| >= 256
    ensures Put(Put(p, 48, 15, v), 63, 1, d) == Put(Put(p, 48, 15, Cut(v, 15)), 63, 1, d)
  {
    var q, q' := Put(p, 48, 15, v), Put(p, 48, 15, Cut(v, 15));
    forall a | 0 <= a < 8 * |p|
      ensures Bit(Put(q, 63, 1, d), a) == Bit(Put(q', 63, 1, d), a)
    {
      PutBit(q, 63, 1, d, a);
      PutBit(q', 63, 1, d, a);
      PutBit(p, 48, 15, v, a);
      PutBit(p, 48, 15, Cut(v, 15), a);
    }
    SameBits(Put(q, 63, 1, d), Put(q', 63, 1, d));
  }

  /** A field of 16 bits at bit 4 is not well formed: some packet is not read right, some
      value does not read back, and some value in range changes other bits. */
  lemma IllFormedField()
    ensures Room(4, 16, 256) && !WellFormed(4, 16)
    ensures exists p: Packet :: |p| == 256 && Get(p, 4, 16) != FieldValue(p, 4, 16)
    ensures exists p: Packet, v: Word :: |p| == 256 && Get(Put(p, 4, 16, v), 4, 16) != Cut(v, 16)
    ensures exists p: Packet, v: Word :: |p| == 256 && ToNat(v) < Pow2(16) && !Frames(p, 4, 16, v)
  {
    GetExact(4, 16, 256);
    RoundTripExact(4, 16, 256);
    FrameNeedsShape(4, 16, 256);
  }

  lemma {:induction false} ZeroIsZero(n: nat)
    ensures ToNat(seq(n, i => false)) == 0
  {
    if n > 0 {
      ZeroIsZero(n - 1);
      assert seq(n, i => false)[1..] == seq(n - 1, i => false);
    }
  }

  // ----- fields numbered from the most significant bit

  /** BITSOFFS: the address of a field given by its place in the bit string. */
  function BitsOffs(o: nat, w: nat): int {
    32 * (o / 32) + (32 - o % 32 - w)
  }

  /** The field at `o`, `w` bits wide, lies in one 32-bit word of the packet. */
  predicate InWord(p: Packet, base: nat, o: nat, w: nat) {
    && base % 4 == 0 && 0 < w && o % 32 + w <= 32
    && 8 * base + o + w <= 8 * base + 32 * (o / 32) + 32 <= 8 * |p|
  }

  lemma BitInWord(p: Packet, base: nat, o: nat, w: nat, i: nat)
    requires InWord(p, base, o, w) && i < w && 8 * base + BitsOffs(o, w) + w <= 8 * |p|
    ensures var b := Bit(p, 8 * base + BitsOffs(o, w) + i);
            && b == MsbBit(p, 8 * base + o + (w - 1 - i))
            && b == BigEndianWord(p, base / 4 + o / 32)[32 - o % 32 - w + i]
  {
    var k, t := base / 4 + o / 32, 32 - o % 32 - w + i;
    assert 8 * base == 32 * (base / 4);
    assert 8 * base + BitsOffs(o, w) + i == 32 * k + t;
    WordBit(p, k, t);
    MsbAddress(p, k, t);
    assert 32 * k + (31 - t) == 8 * base + o + (w - 1 - i);
  }

  lemma ViewBit(p: Packet, base: nat, o: nat, w: nat, i: nat)
    requires InWord(p, base, o, w) && i < 32
    requires Room(8 * base + BitsOffs(o, w), w, |p|) && WellFormed(8 * base + BitsOffs(o, w), w)
    ensures var r := Get(p, 8 * base + BitsOffs(o, w), w);
            && (i < w ==> r[i] == MsbBit(p, 8 * base + o + (w - 1 - i)))
            && r[i] == Cut(WordShr(BigEndianWord(p, base / 4 + o / 32), 32 - o % 32 - w), w)[i]
  {
    GetBitIs(p, 8 * base + BitsOffs(o, w), w, i);
    CutShr(BigEndianWord(p, base / 4 + o / 32), 32 - o % 32 - w, w, i);
    if i < w { BitInWord(p, base, o, w, i); }
  }

  lemma GetBitIs(p: Packet, f: nat, w: nat, i: nat)
    requires Room(f, w, |p|) && WellFormed(f, w) && w <= 32 && i < 32
    ensures f + w <= 8 * |p| && Get(p, f, w)[i] == (i < w && Bit(p, f + i))
  {
    RoomCovers(f, w, |p|);
    GetIsField(p, f, w);
  }

  lemma CutShr(v: Word, k: nat, w: nat, i: nat)
    requires k + w <= 32 && i < 32
    ensures Cut(WordShr(v, k), w)[i] == (i < w && v[k + i])
  {
    assert WordShr(v, k)[i] == BitOf(v, i + k);
    assert i < w ==> BitOf(v, i + k) == v[k + i];
  }

  /** A field inside one 32-bit word, at word-aligned base, read through BITSOFFS: its bits
      are the piece of the packet's bit string from `o` on, most significant bit first, and
      the value is the network-order word shifted down and cut. */
  lemma BitStringView(p: Packet, base: nat, o: nat, w: nat)
    requires InWord(p, base, o, w)
    requires Room(8 * base + BitsOffs(o, w), w, |p|) && WellFormed(8 * base + BitsOffs(o, w), w)
    ensures var r := Get(p, 8 * base + BitsOffs(o, w), w);
            && (forall i :: 0 <= i < w ==> r[i] == MsbBit(p, 8 * base + o + (w - 1 - i)))
            && r == Cut(WordShr(BigEndianWord(p, base / 4 + o / 32), 32 - o % 32 - w), w)
  {
    var r := Get(p, 8 * base + BitsOffs(o, w), w);
    var cut := Cut(WordShr(BigEndianWord(p, base / 4 + o / 32), 32 - o % 32 - w), w);
    forall i | 0 <= i < 32
      ensures r[i] == cut[i] && (i < w ==> r[i] == MsbBit(p, 8 * base + o + (w - 1 - i)))
    {
      ViewBit(p, base, o, w, i);
    }
  }

  // ----- 64-bit fields

  /** The byte at position `k` of a 64-bit number in network order. */
  function LongByte(v: Long, k: nat): Byte
    requires k < 8
  {
    v[8 * (7 - k)..8 * (7 - k) + 8]
  }

  function LongOver(p: Packet, at: nat, v: Long, j: nat): Byte
    requires j < |p|
  {
    if at <= j < at + 8 then LongByte(v, j - at) else p[j]
  }

  function PutLong(p: Packet, at: nat, v: Long): (q: Packet)
    requires at + 8 <= |p|
    ensures |q| == |p|
  {
    seq(|p|, j requires 0 <= j < |p| => LongOver(p, at, v, j))
  }

  /** _get_field64: the last byte holds the least significant bits. */
  function GetLong(p: Packet, at: nat): Long
    requires at + 8 <= |p|
  {
    seq(64, i requires 0 <= i < 64 => p[at + (7 - i / 8)][i % 8])
  }

  /** _set_field64 copies the eight bytes. */
  method SetField64(p: array<Byte>, base: nat, offs: nat, val: Long)
    requires p.Length % 4 == 0 && base + offs / 8 + 8 <= p.Length
    modifies p
    ensures p[..] == PutLong(old(p[..]), base + offs / 8, val)
  {
    var at := base + offs / 8;
    var k := 0;
    while k < 8
      invariant 0 <= k <= 8
      invariant forall j :: 0 <= j < p.Length ==> p[j] == if at <= j < at + k then LongByte(val, j - at) else old(p[j])
    {
      p[at + k] := LongByte(val, k);
      k := k + 1;
    }
  }

  lemma LongRoundTrip(p: Packet, at: nat, v: Long)
    requires at + 8 <= |p|
    ensures GetLong(PutLong(p, at, v), at) == v
  {
    var q := PutLong(p, at, v);
    forall i | 0 <= i < 64
      ensures GetLong(q, at)[i] == v[i]
    {
      var k := 7 - i / 8;
      assert GetLong(q, at)[i] == q[at + k][i % 8] == LongByte(v, k)[i % 8];
      assert LongByte(v, k)[i % 8] == v[8 * (7 - k) + i % 8];
    }
  }

  // ----- writes in sequence

  datatype Write = Short(f: nat, len: nat, v: Word) | Double(f: nat, w: Long)

  function Size(w: Write): nat {
    if w.Short? then w.len else 64
  }

  predicate Covers(w: Write, a: nat) {
    w.f <= a < w.f + Size(w)
  }

  /** The bit a write puts at an address it covers; a 64-bit number has its upper word
      first. */
  predicate Target(w: Write, a: nat)
    requires Covers(w, a)
  {
    if w.Short? then BitOf(w.v, a - w.f)
    else w.w[if a - w.f < 32 then a - w.f + 32 else a - w.f - 32]
  }

  predicate WriteOk(w: Write, n: nat) {
    if w.Short? then WellFormed(w.f, w.len) && Room(w.f, w.len, n) && Clean(w.f, w.len, w.v)
    else w.f % 32 == 0 && w.f + 64 <= 8 * n
  }

  function Apply(p: Packet, w: Write): (q: Packet)
    requires WriteOk(w, |p|)
    ensures |q| == |p|
  {
    if w.Short? then Put(p, w.f, w.len, w.v) else PutLong(p, w.f / 8, w.w)
  }

  lemma DoubleInside(p: Packet, f: nat, v: Long, i: nat)
    requires f % 32 == 0 && f + 64 <= 8 * |p| && i < 64
    ensures Bit(PutLong(p, f / 8, v), if i < 32 then f + 32 + i else f + i - 32) == v[i]
  {
    LongRoundTrip(p, f / 8, v);
    LongAddress(PutLong(p, f / 8, v), f, i);
  }

  lemma DoubleOutside(p: Packet, f: nat, v: Long, a: nat)
    requires f % 32 == 0 && f + 64 <= 8 * |p| && a < 8 * |p| && !(f <= a < f + 64)
    ensures Bit(PutLong(p, f / 8, v), a) == Bit(p, a)
  {
    FlipFlip(a / 8);
    FlipOutside(f, a);
  }

  lemma FlipOutside(f: nat, a: nat)
    requires f % 32 == 0 && !(f <= a < f + 64)
    ensures !(f / 8 <= Flip(a / 8) < f / 8 + 8)
  {
    var k, q, r := f / 32, a / 32, a % 32;
    assert f == 32 * k && f / 8 == 4 * k && a == 32 * q + r;
    assert !(k <= q < k + 2);
    assert a / 8 == 4 * q + r / 8;
    assert Flip(a / 8) == 4 * q + (3 - r / 8);
  }

  lemma ApplyBit(p: Packet, w: Write, a: nat)
    requires WriteOk(w, |p|) && a < 8 * |p|
    ensures Bit(Apply(p, w), a) == if Covers(w, a) then Target(w, a) else Bit(p, a)
  {
    if w.Double? {
      if Covers(w, a) {
        DoubleInside(p, w.f, w.w, if a - w.f < 32 then a - w.f + 32 else a - w.f - 32);
      } else {
        DoubleOutside(p, w.f, w.w, a);
      }
    } else {
      ShortBit(p, w.f, w.len, w.v, a);
    }
  }

  lemma ShortBit(p: Packet, f: nat, len: nat, v: Word, a: nat)
    requires WellFormed(f, len) && Clean(f, len, v) && a < 8 * |p|
    ensures Bit(Put(p, f, len, v), a) == if f <= a < f + len then BitOf(v, a - f) else Bit(p, a)
  {
    PutBit(p, f, len, v, a);
    PutFrame(p, f, len, v);
    if !OneByte(f, len) { Shape(f, len); }
  }

  ghost predicate AllOk(ws: seq<Write>, n: nat) {
    forall i :: 0 <= i < |ws| ==> WriteOk(ws[i], n)
  }

  function ApplyAll(p: Packet, ws: seq<Write>): (q: Packet)
    requires AllOk(ws, |p|)
    ensures |q| == |p|
    decreases |ws|
  {
    if ws == [] then p else Apply(ApplyAll(p, ws[..|ws| - 1]), ws[|ws| - 1])
  }

  /** The last write that covers an address decides it. */
  function Final(p: Packet, ws: seq<Write>, a: nat): bool
    requires a < 8 * |p|
    decreases |ws|
  {
    if ws == [] then Bit(p, a)
    else if Covers(ws[|ws| - 1], a) then Target(ws[|ws| - 1], a)
    else Final(p, ws[..|ws| - 1], a)
  }

  lemma {:induction false} ApplyAllBit(p: Packet, ws: seq<Write>, a: nat)
    requires AllOk(ws, |p|) && a < 8 * |p|
    ensures Bit(ApplyAll(p, ws), a) == Final(p, ws, a)
    decreases |ws|
  {
    if ws != [] {
      ApplyAllBit(p, ws[..|ws| - 1], a);
      ApplyBit(ApplyAll(p, ws[..|ws| - 1]), ws[|ws| - 1], a);
    }
  }

  predicate Disjoint(w: Write, u: Write) {
    w.f + Size(w) <= u.f || u.f + Size(u) <= w.f
  }

  lemma {:induction false} FinalOfLast(p: Packet, ws: seq<Write>, k: nat, a: nat)
    requires k < |ws| && a < 8 * |p| && Covers(ws[k], a)
    requires forall j :: k < j < |ws| ==> !Covers(ws[j], a)
    ensures Final(p, ws, a) == Target(ws[k], a)
    decreases |ws|
  {
    if k < |ws| - 1 { FinalOfLast(p, ws[..|ws| - 1], k, a); }
  }

  lemma {:induction false} FinalUntouched(p: Packet, ws: seq<Write>, a: nat)
    requires a < 8 * |p| && forall j :: 0 <= j < |ws| ==> !Covers(ws[j], a)
    ensures Final(p, ws, a) == Bit(p, a)
    decreases |ws|
  {
    if ws != [] { FinalUntouched(p, ws[..|ws| - 1], a); }
  }

  lemma CoveredBits(p: Packet, ws: seq<Write>, k: nat, a: nat)
    requires AllOk(ws, |p|) && k < |ws| && forall j :: k < j < |ws| ==> Disjoint(ws[k], ws[j])
    requires Covers(ws[k], a) && a < 8 * |p|
    ensures Bit(ApplyAll(p, ws), a) == Target(ws[k], a)
  {
    ApplyAllBit(p, ws, a);
    FinalOfLast(p, ws, k, a);
  }

  /** Every write reads back, if no later write overlaps it. */
  lemma ReadsBack(p: Packet, ws: seq<Write>, k: nat)
    requires AllOk(ws, |p|) && k < |ws| && forall j :: k < j < |ws| ==> Disjoint(ws[k], ws[j])
    ensures ws[k].Short? ==> Get(ApplyAll(p, ws), ws[k].f, ws[k].len) == Cut(ws[k].v, ws[k].len)
    ensures ws[k].Double? ==> GetLong(ApplyAll(p, ws), ws[k].f / 8) == ws[k].w
  {
    var q, w := ApplyAll(p, ws), ws[k];
    assert WriteOk(w, |p|);
    if w.Short? { RoomCovers(w.f, w.len, |p|); }
    forall a | 0 <= a < 8 * |p| && Covers(w, a)
      ensures Bit(q, a) == Target(w, a)
    {
      CoveredBits(p, ws, k, a);
    }
    if w.Short? { ShortFromBits(q, w.f, w.len, w.v); } else { LongFromBits(q, w.f, w.w); }
  }

  lemma ShortFromBits(q: Packet, f: nat, len: nat, v: Word)
    requires Room(f, len, |q|) && WellFormed(f, len) && f + len <= 8 * |q|
    requires forall a :: 0 <= a < 8 * |q| && Covers(Short(f, len, v), a) ==> Bit(q, a) == Target(Short(f, len, v), a)
    ensures Get(q, f, len) == Cut(v, len)
  {
    GetIsField(q, f, len);
    forall j | 0 <= j < 32
      ensures FieldValue(q, f, len)[j] == Cut(v, len)[j]
    {
      if j < len { assert Covers(Short(f, len, v), f + j); }
    }
  }

  lemma LongFromBits(q: Packet, f: nat, w: Long)
    requires f % 32 == 0 && f + 64 <= 8 * |q|
    requires forall a :: 0 <= a < 8 * |q| && Covers(Double(f, w), a) ==> Bit(q, a) == Target(Double(f, w), a)
    ensures GetLong(q, f / 8) == w
  {
    forall i | 0 <= i < 64
      ensures GetLong(q, f / 8)[i] == w[i]
    {
      var a := if i < 32 then f + 32 + i else f + i - 32;
      assert Covers(Double(f, w), a);
      LongAddress(q, f, i);
    }
  }

  /** Where bit `i` of a 64-bit number is found. */
  lemma LongAddress(q: Packet, f: nat, i: nat)
    requires f % 32 == 0 && f + 64 <= 8 * |q| && i < 64
    ensures GetLong(q, f / 8)[i] == Bit(q, if i < 32 then f + 32 + i else f + i - 32)
  {
    var k, q', r := f / 32, i / 8, i % 8;
    assert f == 32 * k && i == 8 * q' + r && f / 8 == 4 * k;
    if i < 32 {
      ByteInWord(k + 1, q', r);
    } else {
      ByteInWord(k, q' - 4, r);
    }
  }

  lemma ByteInWord(k: nat, q: nat, r: nat)
    requires q < 4 && r < 8
    ensures (32 * k + 8 * q + r) / 8 == 4 * k + q && (32 * k + 8 * q + r) % 8 == r
    ensures Flip(4 * k + q) == 4 * k + (3 - q)
  {
    assert (4 * k + q) / 4 == k && (4 * k + q) % 4 == q;
  }

  ghost predicate PairwiseDisjoint(ws: seq<Write>) {
    forall i, j :: 0 <= i < j < |ws| ==> Disjoint(ws[i], ws[j])
  }

  /** Writes to pairwise disjoint fields give the same packet in any order. */
  lemma OrderDoesNotMatter(p: Packet, ws: seq<Write>, us: seq<Write>)
    requires AllOk(ws, |p|) && AllOk(us, |p|) && multiset(ws) == multiset(us)
    requires PairwiseDisjoint(ws) && PairwiseDisjoint(us)
    ensures ApplyAll(p, ws) == ApplyAll(p, us)
  {
    forall a | 0 <= a < 8 * |p|
      ensures Bit(ApplyAll(p, ws), a) == Bit(ApplyAll(p, us), a)
    {
      ApplyAllBit(p, ws, a);
      ApplyAllBit(p, us, a);
      if k :| 0 <= k < |ws| && Covers(ws[k], a) {
        assert ws[k] in multiset(us);
        var l :| 0 <= l < |us| && us[l] == ws[k];
        FinalOfLast(p, ws, k, a);
        FinalOfLast(p, us, l, a);
      } else {
        forall l | 0 <= l < |us|
          ensures !Covers(us[l], a)
        {
          assert us[l] in multiset(ws);
        }
        FinalUntouched(p, ws, a);
        FinalUntouched(p, us, a);
      }
    }
    SameBits(ApplyAll(p, ws), ApplyAll(p, us));
  }
}
