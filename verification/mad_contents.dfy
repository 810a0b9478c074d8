/** What a built packet holds behind its header: the keys, the component mask and the
    payload; and what of a request is still there in its response. */
module MadContents {
  import opened MadBits
  import opened MadFields
  import opened MadCodec
  import opened MadHeader

  /** The payload does not touch the bytes from `lo` up to `hi`. */
  predicate DataApart(rpc: Rpc, data: seq<Byte>, lo: nat, hi: nat) {
    data == [] || hi <= rpc.dataOffs || rpc.dataOffs + |data| <= lo
  }

  // ----- where the fields are

  /** A field inside word `k`, bit by bit. */
  lemma WordField(p: Packet, k: nat, t: nat, w: nat, i: nat)
    requires 4 * k + 3 < |p| && t + w <= 32 && i < 32
    requires Room(32 * k + t, w, |p|) && WellFormed(32 * k + t, w)
    ensures Get(p, 32 * k + t, w)[i] == (i < w && BigEndianWord(p, k)[t + i])
  {
    GetBitIs(p, 32 * k + t, w, i);
    if i < w { WordBit(p, k, t + i); }
  }

  /** Two bytes in network order, as a number. */
  function Pair(hi: Byte, lo: Byte): Word {
    seq(32, i requires 0 <= i < 32 => if i < 8 then lo[i] else i < 16 && hi[i - 8])
  }

  lemma BasePlace(p: Packet, i: nat)
    requires |p| >= MAD_SIZE && i < 32
    ensures Get(p, 24, 8)[i] == Widen(p[0])[i]
  {
    WordField(p, 0, 24, 8, i);
  }

  lemma VersionPlace(p: Packet, i: nat)
    requires |p| >= MAD_SIZE && i < 32
    ensures Get(p, 8, 8)[i] == Widen(p[2])[i]
  {
    WordField(p, 0, 8, 8, i);
  }

  lemma ClassPlace(p: Packet, i: nat)
    requires |p| >= MAD_SIZE && i < 32
    ensures ClassOf(p)[i] == Widen(p[1])[i]
  {
    WordField(p, 0, 16, 8, i);
  }

  lemma MethodPlace(p: Packet, i: nat)
    requires |p| >= MAD_SIZE && i < 32
    ensures MethodOf(p)[i] == (i < 7 && p[3][i])
  {
    WordField(p, 0, 0, 7, i);
  }

  lemma ResponseBitPlace(p: Packet)
    requires |p| >= MAD_SIZE
    ensures IsResponse(p) == p[3][7]
  {
    WordField(p, 0, 7, 1, 0);
  }

  lemma PairPlaces(p: Packet, i: nat)
    requires |p| >= MAD_SIZE && i < 32
    ensures StatusOf(p)[i] == Pair(p[4], p[5])[i] && AttrIdOf(p)[i] == Pair(p[16], p[17])[i]
  {
    WordField(p, 1, 16, 16, i);
    WordField(p, 4, 16, 16, i);
  }

  lemma WordPlaces(p: Packet, i: nat)
    requires |p| >= MAD_SIZE && i < 32
    ensures AttrModOf(p)[i] == BigEndianWord(p, 5)[i] && OuiOf(p)[i] == (i < 24 && BigEndianWord(p, 9)[i])
  {
    WordField(p, 5, 0, 32, i);
    WordField(p, 9, 0, 24, i);
  }

  lemma TridPlace(p: Packet)
    requires |p| >= MAD_SIZE
    ensures TridOf(p) == BigEndianWord(p, 3) + BigEndianWord(p, 2)
  {
    var trid := BigEndianWord(p, 3) + BigEndianWord(p, 2);
    forall i | 0 <= i < 64
      ensures TridOf(p)[i] == trid[i]
    {
      LongAddress(p, 64, i);
      if i < 32 { WordBit(p, 3, i); } else { WordBit(p, 2, i - 32); }
    }
  }

  /** The common MAD header in bytes, as section 13.4.2 of the InfiniBand specification has
      it: base version, class, class version, response bit and method, status, transaction
      ID, attribute and modifier, all in network order. */
  lemma HeaderPlaces(p: Packet)
    requires |p| >= MAD_SIZE
    ensures Get(p, 24, 8) == Widen(p[0]) && ClassOf(p) == Widen(p[1]) && Get(p, 8, 8) == Widen(p[2])
    ensures MethodOf(p) == Cut(Widen(p[3]), 7) && IsResponse(p) == p[3][7]
    ensures StatusOf(p) == Pair(p[4], p[5]) && AttrIdOf(p) == Pair(p[16], p[17])
    ensures TridOf(p) == BigEndianWord(p, 3) + BigEndianWord(p, 2)
    ensures AttrModOf(p) == BigEndianWord(p, 5) && OuiOf(p) == Cut(BigEndianWord(p, 9), 24)
  {
    TridPlace(p);
    ResponseBitPlace(p);
    forall i | 0 <= i < 32
      ensures Get(p, 24, 8)[i] == Widen(p[0])[i] && Get(p, 8, 8)[i] == Widen(p[2])[i]
      ensures ClassOf(p)[i] == Widen(p[1])[i] && MethodOf(p)[i] == (i < 7 && p[3][i])
    {
      BasePlace(p, i);
      VersionPlace(p, i);
      ClassPlace(p, i);
      MethodPlace(p, i);
    }
    forall i | 0 <= i < 32
      ensures StatusOf(p)[i] == Pair(p[4], p[5])[i] && AttrIdOf(p)[i] == Pair(p[16], p[17])[i]
    {
      PairPlaces(p, i);
    }
    forall i | 0 <= i < 32
      ensures AttrModOf(p)[i] == BigEndianWord(p, 5)[i] && OuiOf(p)[i] == (i < 24 && BigEndianWord(p, 9)[i])
    {
      WordPlaces(p, i);
    }
  }

  // ----- where the writes are

  /** The position of the first class-specific write, and of the payload. */
  const CLASS_AT := 10

  function DataAt(rpc: Rpc): nat { CLASS_AT + |ClassWrites(rpc)| }

  lemma WriteAt(rpc: Rpc, data: seq<Byte>, next: Long, j: nat)
    requires j < |Writes(rpc, data, next)|
    ensures var w := Writes(rpc, data, next)[j];
            && (j < CLASS_AT ==> w == CommonWrites(rpc, next)[j])
            && (CLASS_AT <= j < DataAt(rpc) ==> w == ClassWrites(rpc)[j - CLASS_AT])
            && (DataAt(rpc) <= j < DataAt(rpc) + |data| ==>
                  var i := j - DataAt(rpc); w == ByteWrite(rpc.dataOffs + i, data[i]))
            && (DataAt(rpc) + |data| <= j ==> VendorRange2(Class(rpc.mgtclass)) && w == Short(288, 24, rpc.oui))
  {
  }

  /** A payload byte outside of some whole words is written outside of their bits. */
  lemma FlipApart(i: nat, lo: nat, hi: nat)
    requires lo % 4 == 0 && hi % 4 == 0 && !(lo <= i < hi)
    ensures 8 * Flip(i) + 8 <= 8 * lo || 8 * hi <= 8 * Flip(i)
  {
    var q, r := i / 4, i % 4;
    assert i == 4 * q + r && Flip(i) == 4 * q + (3 - r);
    assert lo == 4 * (lo / 4) && hi == 4 * (hi / 4);
  }

  lemma DataWriteApart(rpc: Rpc, data: seq<Byte>, next: Long, j: nat, f: nat, v: Long)
    requires DataAt(rpc) <= j < DataAt(rpc) + |data| && j < |Writes(rpc, data, next)|
    requires f % 32 == 0 && DataApart(rpc, data, f / 8, f / 8 + 8)
    ensures Disjoint(Double(f, v), Writes(rpc, data, next)[j])
  {
    WriteAt(rpc, data, next, j);
    assert f == 32 * (f / 32) && f / 8 == 4 * (f / 32);
    FlipApart(rpc.dataOffs + (j - DataAt(rpc)), f / 8, f / 8 + 8);
  }

  // ----- keys and mask

  lemma KeyIsLast(rpc: Rpc, data: seq<Byte>, next: Long, j: nat)
    requires Class(rpc.mgtclass) != CLASS_CC && DataApart(rpc, data, 24, 32) && 9 < j < |Writes(rpc, data, next)|
    ensures Disjoint(Double(192, rpc.mkey), Writes(rpc, data, next)[j])
  {
    WriteAt(rpc, data, next, j);
    if DataAt(rpc) <= j < DataAt(rpc) + |data| { DataWriteApart(rpc, data, next, j, 192, rpc.mkey); }
  }

  /** The M_Key, unless the congestion control key is in its place. */
  lemma EncodedKey(p: Packet, rpc: Rpc, data: seq<Byte>, next: Long)
    requires |p| >= MAD_SIZE && DataFits(rpc, data, |p|) && DataApart(rpc, data, 24, 32)
    requires Class(rpc.mgtclass) != CLASS_CC
    ensures AllOk(Writes(rpc, data, next), |p|)
    ensures GetLong(ApplyAll(p, Writes(rpc, data, next)), 24) == rpc.mkey
  {
    var ws, w := Writes(rpc, data, next), Double(192, rpc.mkey);
    WritesOk(rpc, data, next, |p|);
    KeyAt(rpc, data, next);
    forall j | 9 < j < |ws| ensures Disjoint(w, ws[j]) { KeyIsLast(rpc, data, next, j); }
    DoubleReads(p, ws, 9, w);
  }

  lemma KeyAt(rpc: Rpc, data: seq<Byte>, next: Long)
    ensures |Writes(rpc, data, next)| > 9 && Writes(rpc, data, next)[9] == Double(192, rpc.mkey)
  {
  }

  lemma DoubleReads(p: Packet, ws: seq<Write>, k: nat, w: Write)
    requires AllOk(ws, |p|) && k < |ws| && ws[k] == w && w.Double? && w.f / 8 + 8 <= |p|
    requires forall j :: k < j < |ws| ==> Disjoint(w, ws[j])
    ensures GetLong(ApplyAll(p, ws), w.f / 8) == w.w
  {
    ReadsBack(p, ws, k);
  }

  lemma ClassIsLast(rpc: Rpc, data: seq<Byte>, next: Long, w: Write, j: nat)
    requires ClassWrites(rpc) == [w] && w.Double? && w.f % 32 == 0 && CLASS_AT < j < |Writes(rpc, data, next)|
    requires DataApart(rpc, data, w.f / 8, w.f / 8 + 8) && !VendorRange2(Class(rpc.mgtclass))
    ensures Disjoint(w, Writes(rpc, data, next)[j])
  {
    WriteAt(rpc, data, next, j);
    DataWriteApart(rpc, data, next, j, w.f, w.w);
  }

  /** The write that belongs to the class reads back. */
  lemma EncodedClassWrite(p: Packet, rpc: Rpc, data: seq<Byte>, next: Long, w: Write)
    requires |p| >= MAD_SIZE && DataFits(rpc, data, |p|) && ClassWrites(rpc) == [w] && WriteOk(w, |p|) && w.Double?
    requires DataApart(rpc, data, w.f / 8, w.f / 8 + 8) && !VendorRange2(Class(rpc.mgtclass))
    ensures AllOk(Writes(rpc, data, next), |p|)
    ensures GetLong(ApplyAll(p, Writes(rpc, data, next)), w.f / 8) == w.w
  {
    var ws := Writes(rpc, data, next);
    WritesOk(rpc, data, next, |p|);
    WriteAt(rpc, data, next, CLASS_AT);
    forall j | CLASS_AT < j < |ws| ensures Disjoint(w, ws[j]) { ClassIsLast(rpc, data, next, w, j); }
    DoubleReads(p, ws, CLASS_AT, w);
  }

  lemma ClassWritesAre(rpc: Rpc)
    ensures Class(rpc.mgtclass) == CLASS_SA ==> ClassWrites(rpc) == [Double(384, rpc.mask)]
    ensures Class(rpc.mgtclass) == CLASS_CC ==> ClassWrites(rpc) == [Double(192, rpc.cckey)]
  {
  }

  /** The component mask of subnet administration. */
  lemma EncodedMask(p: Packet, rpc: Rpc, data: seq<Byte>, next: Long)
    requires |p| >= MAD_SIZE && DataFits(rpc, data, |p|) && DataApart(rpc, data, 48, 56)
    requires Class(rpc.mgtclass) == CLASS_SA
    ensures AllOk(Writes(rpc, data, next), |p|)
    ensures GetLong(ApplyAll(p, Writes(rpc, data, next)), 48) == rpc.mask
  {
    ClassWritesAre(rpc);
    EncodedClassWrite(p, rpc, data, next, Double(384, rpc.mask));
  }

  /** The key of congestion control. */
  lemma EncodedCcKey(p: Packet, rpc: Rpc, data: seq<Byte>, next: Long)
    requires |p| >= MAD_SIZE && DataFits(rpc, data, |p|) && DataApart(rpc, data, 24, 32)
    requires Class(rpc.mgtclass) == CLASS_CC
    ensures AllOk(Writes(rpc, data, next), |p|)
    ensures GetLong(ApplyAll(p, Writes(rpc, data, next)), 24) == rpc.cckey
  {
    ClassWritesAre(rpc);
    EncodedClassWrite(p, rpc, data, next, Double(192, rpc.cckey));
  }

  // ----- payload

  /** The organisation of vendor packets is in these bytes. */
  predicate InOui(rpc: Rpc, i: nat) {
    VendorRange2(Class(rpc.mgtclass)) && 37 <= i < 40
  }

  lemma BytesApart(i: nat, j: nat)
    requires i != j
    ensures 8 * Flip(i) + 8 <= 8 * Flip(j) || 8 * Flip(j) + 8 <= 8 * Flip(i)
  {
    FlipFlip(i);
    FlipFlip(j);
    EightApart(Flip(i), Flip(j));
  }

  lemma EightApart(a: nat, b: nat)
    requires a != b
    ensures 8 * a + 8 <= 8 * b || 8 * b + 8 <= 8 * a
  {
  }

  /** The write that stands for copying a byte to place `i`. */
  function ByteWrite(i: nat, b: Byte): Write {
    Short(8 * Flip(i), 8, Widen(b))
  }

  lemma ByteWritesApart(i: nat, b: Byte, j: nat, c: Byte)
    requires i != j
    ensures Disjoint(ByteWrite(i, b), ByteWrite(j, c))
  {
    BytesApart(i, j);
  }

  lemma OuiApart(i: nat)
    requires !(37 <= i < 40)
    ensures 8 * Flip(i) + 8 <= 288 || 312 <= 8 * Flip(i)
  {
    var q, r := i / 4, i % 4;
    assert i == 4 * q + r && Flip(i) == 4 * q + (3 - r);
  }

  lemma ByteBeforeOui(i: nat, b: Byte, oui: Word)
    requires !(37 <= i < 40)
    ensures Disjoint(ByteWrite(i, b), Short(288, 24, oui))
  {
    OuiApart(i);
  }

  /** In a sequence of writes made of three parts, a write of the second part that no later
      one of that part and none of the third overlaps. */
  lemma LaterPartsApart(pre: seq<Write>, ds: seq<Write>, post: seq<Write>, k: nat)
    requires k < |ds| && (forall i :: k < i < |ds| ==> Disjoint(ds[k], ds[i]))
    requires forall i :: 0 <= i < |post| ==> Disjoint(ds[k], post[i])
    ensures var ws := pre + ds + post;
            ws[|pre| + k] == ds[k] && forall j :: |pre| + k < j < |ws| ==> Disjoint(ds[k], ws[j])
  {
  }

  lemma PayloadApart(rpc: Rpc, data: seq<Byte>, k: nat)
    requires k < |data| && !InOui(rpc, rpc.dataOffs + k)
    ensures var ds, post := DataWrites(rpc.dataOffs, data), OuiWrites(rpc);
            && ds[k] == ByteWrite(rpc.dataOffs + k, data[k])
            && (forall i :: k < i < |ds| ==> Disjoint(ds[k], ds[i]))
            && forall i :: 0 <= i < |post| ==> Disjoint(ds[k], post[i])
  {
    var ds := DataWrites(rpc.dataOffs, data);
    forall i | k < i < |ds|
      ensures Disjoint(ds[k], ds[i])
    {
      ByteWritesApart(rpc.dataOffs + k, data[k], rpc.dataOffs + i, data[i]);
    }
    if VendorRange2(Class(rpc.mgtclass)) { ByteBeforeOui(rpc.dataOffs + k, data[k], rpc.oui); }
  }

  lemma PayloadStays(rpc: Rpc, data: seq<Byte>, next: Long, k: nat)
    requires k < |data| && !InOui(rpc, rpc.dataOffs + k)
    ensures var ws, at := Writes(rpc, data, next), DataAt(rpc) + k;
            && at < |ws| && ws[at] == ByteWrite(rpc.dataOffs + k, data[k])
            && forall j :: at < j < |ws| ==> Disjoint(ws[at], ws[j])
  {
    PayloadApart(rpc, data, k);
    LaterPartsApart(CommonWrites(rpc, next) + ClassWrites(rpc), DataWrites(rpc.dataOffs, data), OuiWrites(rpc), k);
  }

  /** A byte that is written and not written again. */
  lemma ByteReads(p: Packet, ws: seq<Write>, k: nat, i: nat, b: Byte)
    requires AllOk(ws, |p|) && k < |ws| && ws[k] == ByteWrite(i, b) && i < |p|
    requires forall j :: k < j < |ws| ==> Disjoint(ws[k], ws[j])
    ensures ApplyAll(p, ws)[i] == b
  {
    FlipFlip(i);
    forall t | 0 <= t < 8
      ensures ApplyAll(p, ws)[i][t] == b[t]
    {
      var a := 8 * Flip(i) + t;
      assert a / 8 == Flip(i) && a % 8 == t;
      CoveredBits(p, ws, k, a);
    }
  }

  /** Every byte of the payload is where it was meant to be, whatever else is written,
      except that the organisation of a vendor packet comes over it. */
  lemma PayloadReads(p: Packet, rpc: Rpc, data: seq<Byte>, next: Long, k: nat)
    requires |p| >= MAD_SIZE && DataFits(rpc, data, |p|) && k < |data| && !InOui(rpc, rpc.dataOffs + k)
    ensures AllOk(Writes(rpc, data, next), |p|)
    ensures ApplyAll(p, Writes(rpc, data, next))[rpc.dataOffs + k] == data[k]
  {
    WritesOk(rpc, data, next, |p|);
    PayloadStays(rpc, data, next, k);
    ByteReads(p, Writes(rpc, data, next), DataAt(rpc) + k, rpc.dataOffs + k, data[k]);
  }

  // ----- what a response keeps

  /** The bytes that are written in front of the payload: all but two reserved pairs. */
  predicate InHeader(i: nat) {
    i < 6 || 8 <= i < 18 || 20 <= i < 32
  }

  predicate InMask(rpc: Rpc, i: nat) {
    Class(rpc.mgtclass) == CLASS_SA && 48 <= i < 56
  }

  /** The write leaves byte `i` alone. */
  predicate Misses(w: Write, i: nat) {
    8 * Flip(i) + 8 <= w.f || w.f + Size(w) <= 8 * Flip(i)
  }

  lemma CommonMisses(rpc: Rpc, next: Long, j: nat, i: nat)
    requires j < CLASS_AT && !InHeader(i)
    ensures Misses(CommonWrites(rpc, next)[j], i)
  {
    var q, r := i / 4, i % 4;
    assert i == 4 * q + r && Flip(i) == 4 * q + (3 - r);
  }

  lemma ClassMisses(rpc: Rpc, j: nat, i: nat)
    requires j < |ClassWrites(rpc)| && !InHeader(i) && !InMask(rpc, i)
    ensures Misses(ClassWrites(rpc)[j], i)
  {
    ClassWritesAre(rpc);
    if Class(rpc.mgtclass) == CLASS_SA { FlipApart(i, 48, 56); } else { FlipApart(i, 24, 32); }
  }

  lemma OuiMisses(rpc: Rpc, i: nat)
    requires VendorRange2(Class(rpc.mgtclass)) && !InOui(rpc, i)
    ensures Misses(Short(288, 24, rpc.oui), i)
  {
    OuiApart(i);
  }

  lemma WriteMisses(rpc: Rpc, next: Long, j: nat, i: nat)
    requires j < |Writes(rpc, [], next)| && !InHeader(i) && !InMask(rpc, i) && !InOui(rpc, i)
    ensures Misses(Writes(rpc, [], next)[j], i)
  {
    WriteAt(rpc, [], next, j);
    if j < CLASS_AT {
      CommonMisses(rpc, next, j, i);
    } else if j < DataAt(rpc) {
      ClassMisses(rpc, j - CLASS_AT, i);
    } else {
      OuiMisses(rpc, i);
    }
  }

  lemma ByteStays(p: Packet, ws: seq<Write>, i: nat)
    requires AllOk(ws, |p|) && i < |p| && forall j :: 0 <= j < |ws| ==> Misses(ws[j], i)
    ensures ApplyAll(p, ws)[i] == p[i]
  {
    FlipFlip(i);
    forall t | 0 <= t < 8
      ensures ApplyAll(p, ws)[i][t] == p[i][t]
    {
      var a := 8 * Flip(i) + t;
      assert a / 8 == Flip(i) && a % 8 == t;
      ApplyAllBit(p, ws, a);
      assert forall j :: 0 <= j < |ws| ==> Misses(ws[j], i);
      FinalUntouched(p, ws, a);
    }
  }

  /** A packet that is built without payload keeps all bytes but those of its fields. */
  lemma OthersStay(p: Packet, rpc: Rpc, next: Long, i: nat)
    requires |p| >= MAD_SIZE && DataFits(rpc, [], |p|) && i < |p|
    requires !InHeader(i) && !InMask(rpc, i) && !InOui(rpc, i)
    ensures AllOk(Writes(rpc, [], next), |p|)
    ensures ApplyAll(p, Writes(rpc, [], next))[i] == p[i]
  {
    var ws := Writes(rpc, [], next);
    WritesOk(rpc, [], next, |p|);
    forall j | 0 <= j < |ws| ensures Misses(ws[j], i) { WriteMisses(rpc, next, j, i); }
    ByteStays(p, ws, i);
  }

  /** A response carries the payload of its request: behind the header every byte is that of
      the request, except for the component mask of subnet administration, which is cleared.
      The M_Key is cleared too, or replaced by the congestion control key. */
  lemma ResponseCarries(p: Packet, rstatus: Word, stray: Long, next: Long, i: nat)
    requires |p| >= MAD_SIZE && 32 <= i < |p|
    ensures var q, class_ := Response(p, rstatus, stray, next), ToNat(ClassOf(p));
            && (!(class_ == CLASS_SA && 48 <= i < 56) && !(VendorRange2(class_) && 37 <= i < 40) ==> q[i] == p[i])
            && (class_ == CLASS_SA ==> GetLong(q, 48) == ZeroLong())
            && GetLong(q, 24) == if class_ == CLASS_CC then stray else ZeroLong()
  {
    var rpc := ResponseRpc(p, rstatus, stray);
    ShortCut(p, 16, 8);
    if !InMask(rpc, i) && !InOui(rpc, i) { OthersStay(p, rpc, next, i); }
    if Class(rpc.mgtclass) == CLASS_SA { EncodedMask(p, rpc, [], next); }
    if Class(rpc.mgtclass) == CLASS_CC { EncodedCcKey(p, rpc, [], next); } else { EncodedKey(p, rpc, [], next); }
  }
}
