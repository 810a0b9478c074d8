/** Building a MAD header, and building the response to a request in place. Only packets
    that are routed by LID. */
module MadHeader {
  import opened MadBits
  import opened MadFields
  import opened MadCodec

  function One(): Word { seq(32, i => i == 0) }
  function Two(): Word { seq(32, i => i == 1) }
  function Three(): Word { seq(32, i => i < 2) }
  function ZeroLong(): Long { seq(64, i => false) }

  function MethodGet(): Word { One() }
  function MethodSet(): Word { Two() }
  function MethodSend(): Word { Three() }

  const CLASS_SA := 0x3
  const CLASS_CC := 0x21
  const CLASS_DIRECT := 0x81
  const MAD_SIZE := 256

  /** The parameters of a packet. `cckey` counts for the congestion control class only. */
  datatype Rpc = Rpc(mgtclass: Word, method_: Word, attrId: Word, attrMod: Word, rstatus: Word, oui: Word,
                     trid: Long, mkey: Long, mask: Long, cckey: Long, dataOffs: nat)

  /** mgtclass & 0xff */
  function Class(c: Word): nat { ToNat(Cut(c, 8)) }

  predicate VendorRange2(c: nat) { 0x30 <= c <= 0x4f }

  predicate IsZero(t: Long) { forall i :: 0 <= i < 64 ==> !t[i] }

  /** The transaction ID that goes into the packet: a new one if the caller has none. */
  function Trid(rpc: Rpc, next: Long): Long {
    if IsZero(rpc.trid) then next else rpc.trid
  }

  // ----- a packet as a sequence of writes

  function VersionOf(class_: nat): Word {
    if class_ == CLASS_SA || class_ == CLASS_CC then Two() else One()
  }

  function FirstWord(rpc: Rpc): seq<Write> {
    [ Short(0, 7, rpc.method_), Short(7, 1, if rpc.method_[7] then One() else Zero()),
      Short(8, 8, VersionOf(Class(rpc.mgtclass))),
      Short(16, 8, Cut(rpc.mgtclass, 8)), Short(24, 8, One()) ]
  }

  function NextWords(rpc: Rpc, trid: Long): seq<Write> {
    [ Short(48, 16, rpc.rstatus), Double(64, trid), Short(144, 16, rpc.attrId), Short(160, 32, rpc.attrMod),
      Double(192, rpc.mkey) ]
  }

  function CommonWrites(rpc: Rpc, next: Long): seq<Write> {
    FirstWord(rpc) + NextWords(rpc, Trid(rpc, next))
  }

  function ClassWrites(rpc: Rpc): seq<Write> {
    (if Class(rpc.mgtclass) == CLASS_SA then [Double(384, rpc.mask)] else [])
    + (if Class(rpc.mgtclass) == CLASS_CC then [Double(192, rpc.cckey)] else [])
  }

  /** Copying a byte into place is the same as writing eight bits. */
  function DataWrites(offs: nat, data: seq<Byte>): seq<Write> {
    seq(|data|, k requires 0 <= k < |data| => Short(8 * Flip(offs + k), 8, Widen(data[k])))
  }

  function OuiWrites(rpc: Rpc): seq<Write> {
    if VendorRange2(Class(rpc.mgtclass)) then [Short(288, 24, rpc.oui)] else []
  }

  function Writes(rpc: Rpc, data: seq<Byte>, next: Long): seq<Write> {
    CommonWrites(rpc, next) + ClassWrites(rpc) + DataWrites(rpc.dataOffs, data) + OuiWrites(rpc)
  }

  predicate DataFits(rpc: Rpc, data: seq<Byte>, n: nat) {
    rpc.dataOffs + |data| <= n
  }

  lemma WritesOk(rpc: Rpc, data: seq<Byte>, next: Long, n: nat)
    requires n % 4 == 0 && n >= MAD_SIZE && DataFits(rpc, data, n)
    ensures AllOk(Writes(rpc, data, next), n)
    ensures AllOk(CommonWrites(rpc, next), n) && AllOk(ClassWrites(rpc), n)
    ensures AllOk(DataWrites(rpc.dataOffs, data), n) && AllOk(OuiWrites(rpc), n)
  {
    DataOk(rpc.dataOffs, data, n);
    CommonOk(rpc, next, n);
    var a, b, c, d := CommonWrites(rpc, next), ClassWrites(rpc), DataWrites(rpc.dataOffs, data), OuiWrites(rpc);
    JoinOk(a, b, n);
    JoinOk(a + b, c, n);
    JoinOk(a + b + c, d, n);
  }

  lemma DataOk(offs: nat, data: seq<Byte>, n: nat)
    requires n % 4 == 0 && offs + |data| <= n
    ensures AllOk(DataWrites(offs, data), n)
  {
    var ds := DataWrites(offs, data);
    forall k | 0 <= k < |ds|
      ensures WriteOk(ds[k], n)
    {
      assert ds[k] == Short(8 * Flip(offs + k), 8, Widen(data[k]));
      DataByteOk(offs + k, data[k], n);
    }
  }

  lemma DataByteOk(j: nat, b: Byte, n: nat)
    requires n % 4 == 0 && j < n
    ensures WriteOk(Short(8 * Flip(j), 8, Widen(b)), n)
  {
    FlipFlip(j);
    ByteIsOk(Flip(j), Widen(b), n);
  }

  lemma ByteIsOk(idx: nat, v: Word, n: nat)
    requires idx < n
    ensures WriteOk(Short(8 * idx, 8, v), n)
  {
    assert (8 * idx) % 8 == 0 && (8 * idx + 8) % 8 == 0;
  }

  lemma CommonOk(rpc: Rpc, next: Long, n: nat)
    requires n >= MAD_SIZE
    ensures AllOk(CommonWrites(rpc, next), n)
  {
  }

  lemma JoinOk(ws: seq<Write>, us: seq<Write>, n: nat)
    requires AllOk(ws, n) && AllOk(us, n)
    ensures AllOk(ws + us, n)
  {
  }

  // ----- building a packet in place

  /** One assignment to a field, as mad_encode_field dispatches it. */
  method Store(buf: array<Byte>, w: Write)
    requires buf.Length % 4 == 0 && WriteOk(w, buf.Length)
    modifies buf
    ensures buf[..] == Apply(old(buf[..]), w)
  {
    match w
    case Short(f, len, v) => SetField(buf, 0, f, len, v);
    case Double(f, v) => SetField64(buf, 0, f, v);
  }

  /** The packet `p` after the writes `done`. */
  ghost predicate Stage(now: Packet, p: Packet, done: seq<Write>) {
    AllOk(done, |p|) && now == ApplyAll(p, done)
  }

  lemma NextStage(mid: Packet, now: Packet, p: Packet, done: seq<Write>, w: Write)
    requires Stage(mid, p, done) && WriteOk(w, |p|) && now == Apply(mid, w)
    ensures Stage(now, p, done + [w])
  {
    var next := done + [w];
    assert next[..|next| - 1] == done;
    JoinOk(done, [w], |p|);
  }

  /** The same, with a record of what has been written to `p` so far. */
  method Emit(buf: array<Byte>, w: Write, ghost p: Packet, ghost done: seq<Write>) returns (ghost next: seq<Write>)
    requires buf.Length % 4 == 0 && WriteOk(w, buf.Length) && Stage(buf[..], p, done)
    modifies buf
    ensures next == done + [w] && Stage(buf[..], p, next)
  {
    ghost var mid := buf[..];
    Store(buf, w);
    NextStage(mid, buf[..], p, done, w);
    next := done + [w];
  }

  /** memcpy of the payload. */
  method CopyIn(buf: array<Byte>, offs: nat, data: seq<Byte>, ghost p: Packet, ghost done: seq<Write>)
    returns (ghost next: seq<Write>)
    requires buf.Length % 4 == 0 && offs + |data| <= buf.Length && Stage(buf[..], p, done)
    modifies buf
    ensures next == done + DataWrites(offs, data) && Stage(buf[..], p, next)
  {
    next := done;
    var k := 0;
    while k < |data|
      invariant 0 <= k <= |data| && next == done + DataWrites(offs, data)[..k]
      invariant Stage(buf[..], p, next)
    {
      ghost var w := CopyOne(buf, offs + k, data[k], p, next);
      DataNext(offs, data, k);
      next := next + [w];
      k := k + 1;
    }
    assert DataWrites(offs, data)[..k] == DataWrites(offs, data);
  }

  lemma DataNext(offs: nat, data: seq<Byte>, k: nat)
    requires k < |data|
    ensures var ds := DataWrites(offs, data); ds[..k + 1] == ds[..k] + [Short(8 * Flip(offs + k), 8, Widen(data[k]))]
  {
  }

  method CopyOne(buf: array<Byte>, j: nat, b: Byte, ghost p: Packet, ghost done: seq<Write>) returns (ghost w: Write)
    requires buf.Length % 4 == 0 && j < buf.Length && Stage(buf[..], p, done)
    modifies buf
    ensures w == Short(8 * Flip(j), 8, Widen(b)) && Stage(buf[..], p, done + [w])
  {
    ghost var mid := buf[..];
    w := Short(8 * Flip(j), 8, Widen(b));
    FlipFlip(j);
    ByteIsOk(Flip(j), Widen(b), buf.Length);
    buf[j] := b;
    CopyByte(mid, buf[..], j, b);
    NextStage(mid, buf[..], p, done, w);
  }

  lemma CopyBit(p: Packet, q: Packet, j: nat, b: Byte, a: nat)
    requires j < |p| && q == p[j := b] && WriteOk(Short(8 * Flip(j), 8, Widen(b)), |p|) && a < 8 * |p|
    ensures Bit(q, a) == Bit(Apply(p, Short(8 * Flip(j), 8, Widen(b))), a)
  {
    var w := Short(8 * Flip(j), 8, Widen(b));
    FlipFlip(j);
    StoreBit(p, q, Flip(j), b, a);
    ApplyBit(p, w, a);
    assert a / 8 == Flip(j) <==> Covers(w, a);
  }

  lemma CopyByte(p: Packet, q: Packet, j: nat, b: Byte)
    requires j < |p| && q == p[j := b] && WriteOk(Short(8 * Flip(j), 8, Widen(b)), |p|)
    ensures q == Apply(p, Short(8 * Flip(j), 8, Widen(b)))
  {
    FlipFlip(j);
    var w := Short(8 * Flip(j), 8, Widen(b));
    forall a | 0 <= a < 8 * |p|
      ensures Bit(q, a) == Bit(Apply(p, w), a)
    {
      CopyBit(p, q, j, b, a);
    }
    SameBits(q, Apply(p, w));
  }

  /** mad_encode for a LID-routed packet; returns the transaction ID used. */
  method Encode(buf: array<Byte>, rpc: Rpc, data: seq<Byte>, next: Long) returns (trid: Long)
    requires buf.Length % 4 == 0 && buf.Length >= MAD_SIZE && DataFits(rpc, data, buf.Length)
    requires Class(rpc.mgtclass) != CLASS_DIRECT
    modifies buf
    ensures AllOk(Writes(rpc, data, next), buf.Length)
    ensures buf[..] == ApplyAll(old(buf[..]), Writes(rpc, data, next)) && trid == Trid(rpc, next)
  {
    WritesOk(rpc, data, next, buf.Length);
    ghost var p, ws := buf[..], [];
    trid := if IsZero(rpc.trid) then next else rpc.trid;
    ws := EncodeFirst(buf, rpc, p);
    ws := EncodeNext(buf, rpc, trid, p, ws);
    ws := EncodeClass(buf, rpc, p, ws);
    ws := CopyIn(buf, rpc.dataOffs, data, p, ws);
    if VendorRange2(Class(rpc.mgtclass)) {
      ws := Emit(buf, Short(288, 24, rpc.oui), p, ws);
    }
    assert ws == Writes(rpc, data, next);
  }

  method EncodeMethod(buf: array<Byte>, rpc: Rpc, ghost p: Packet) returns (ghost ws: seq<Write>)
    requires buf.Length % 4 == 0 && buf.Length >= MAD_SIZE && buf[..] == p
    modifies buf
    ensures ws == FirstWord(rpc)[..2] && Stage(buf[..], p, ws)
  {
    ws := [];
    ws := Emit(buf, Short(0, 7, rpc.method_), p, ws);
    ws := Emit(buf, Short(7, 1, if rpc.method_[7] then One() else Zero()), p, ws);
  }

  method EncodeFirst(buf: array<Byte>, rpc: Rpc, ghost p: Packet) returns (ghost ws: seq<Write>)
    requires buf.Length % 4 == 0 && buf.Length >= MAD_SIZE && buf[..] == p
    modifies buf
    ensures ws == FirstWord(rpc) && Stage(buf[..], p, ws)
  {
    var class_ := Class(rpc.mgtclass);
    ws := EncodeMethod(buf, rpc, p);
    ws := Emit(buf, Short(8, 8, if class_ == CLASS_SA || class_ == CLASS_CC then Two() else One()), p, ws);
    ws := Emit(buf, Short(16, 8, Cut(rpc.mgtclass, 8)), p, ws);
    ws := Emit(buf, Short(24, 8, One()), p, ws);
  }

  method EncodeNext(buf: array<Byte>, rpc: Rpc, trid: Long, ghost p: Packet, ghost done: seq<Write>)
    returns (ghost ws: seq<Write>)
    requires buf.Length % 4 == 0 && buf.Length >= MAD_SIZE && Stage(buf[..], p, done)
    modifies buf
    ensures ws == done + NextWords(rpc, trid) && Stage(buf[..], p, ws)
  {
    ws := Emit(buf, Short(48, 16, rpc.rstatus), p, done);
    ws := Emit(buf, Double(64, trid), p, ws);
    ws := Emit(buf, Short(144, 16, rpc.attrId), p, ws);
    ws := Emit(buf, Short(160, 32, rpc.attrMod), p, ws);
    ws := Emit(buf, Double(192, rpc.mkey), p, ws);
  }

  method EncodeClass(buf: array<Byte>, rpc: Rpc, ghost p: Packet, ghost done: seq<Write>) returns (ghost ws: seq<Write>)
    requires buf.Length % 4 == 0 && buf.Length >= MAD_SIZE && Stage(buf[..], p, done)
    modifies buf
    ensures ws == done + ClassWrites(rpc) && Stage(buf[..], p, ws)
  {
    ws := done;
    if Class(rpc.mgtclass) == CLASS_SA {
      ws := Emit(buf, Double(384, rpc.mask), p, ws);
    }
    if Class(rpc.mgtclass) == CLASS_CC {
      ws := Emit(buf, Double(192, rpc.cckey), p, ws);
    }
  }

  // ----- what the header says

  function MethodOf(p: Packet): Word requires |p| >= MAD_SIZE { Get(p, 0, 7) }
  function IsResponse(p: Packet): bool requires |p| >= MAD_SIZE { Get(p, 7, 1)[0] }
  function ClassOf(p: Packet): Word requires |p| >= MAD_SIZE { Get(p, 16, 8) }
  function AttrIdOf(p: Packet): Word requires |p| >= MAD_SIZE { Get(p, 144, 16) }
  function AttrModOf(p: Packet): Word requires |p| >= MAD_SIZE { Get(p, 160, 32) }
  function TridOf(p: Packet): Long requires |p| >= MAD_SIZE { GetLong(p, 8) }
  function StatusOf(p: Packet): Word requires |p| >= MAD_SIZE { Get(p, 48, 16) }
  function OuiOf(p: Packet): Word requires |p| >= MAD_SIZE { Get(p, 288, 24) }

  /** The payload does not reach into the first 24 bytes. */
  predicate DataBeyondHeader(rpc: Rpc, data: seq<Byte>) {
    data == [] || rpc.dataOffs >= 24
  }

  /** After the common part, nothing is written below bit 192. */
  lemma LaterWritesAreHigh(rpc: Rpc, data: seq<Byte>, next: Long, j: nat)
    requires DataBeyondHeader(rpc, data) && 9 < j < |Writes(rpc, data, next)|
    ensures Writes(rpc, data, next)[j].f >= 192
  {
    var a, b, c := CommonWrites(rpc, next), ClassWrites(rpc), DataWrites(rpc.dataOffs, data);
    if |a + b| <= j < |a + b + c| {
      var i := rpc.dataOffs + (j - |a + b|);
      assert Writes(rpc, data, next)[j].f == 8 * Flip(i);
      assert i / 4 >= 6;
    }
  }

  /** No write touches the bits of an earlier header field. */
  lemma HeaderApart(rpc: Rpc, data: seq<Byte>, next: Long, k: nat, j: nat)
    requires DataBeyondHeader(rpc, data) && k < 9 && k < j < |Writes(rpc, data, next)|
    ensures Disjoint(CommonWrites(rpc, next)[k], Writes(rpc, data, next)[j])
  {
    if j <= 9 {
      assert Writes(rpc, data, next)[j] == CommonWrites(rpc, next)[j];
      CommonApart(rpc, next, k, j);
    } else {
      LaterWritesAreHigh(rpc, data, next, j);
      CommonIsLow(rpc, next, k);
    }
  }

  lemma CommonApart(rpc: Rpc, next: Long, k: nat, j: nat)
    requires k < j < 10
    ensures Disjoint(CommonWrites(rpc, next)[k], CommonWrites(rpc, next)[j])
  {
  }

  lemma CommonIsLow(rpc: Rpc, next: Long, k: nat)
    requires k < 9
    ensures var w := CommonWrites(rpc, next)[k]; w.f + Size(w) <= 192
  {
  }

  lemma HeaderRead(p: Packet, rpc: Rpc, data: seq<Byte>, next: Long, k: nat, w: Write)
    requires |p| >= MAD_SIZE && DataFits(rpc, data, |p|) && DataBeyondHeader(rpc, data)
    requires k < 9 && w == CommonWrites(rpc, next)[k]
    ensures AllOk(Writes(rpc, data, next), |p|) && WriteOk(w, |p|)
    ensures w.Short? ==> Get(ApplyAll(p, Writes(rpc, data, next)), w.f, w.len) == Cut(w.v, w.len)
    ensures w.Double? ==> GetLong(ApplyAll(p, Writes(rpc, data, next)), w.f / 8) == w.w
  {
    var ws := Writes(rpc, data, next);
    WritesOk(rpc, data, next, |p|);
    assert ws[k] == w;
    forall j | k < j < |ws| ensures Disjoint(w, ws[j]) { HeaderApart(rpc, data, next, k, j); }
    ReadsBack(p, ws, k);
  }

  lemma CutCut(v: Word, m: nat, n: nat)
    requires m <= n
    ensures Cut(Cut(v, m), n) == Cut(v, m) && Cut(Cut(v, n), m) == Cut(v, m)
  {
  }

  /** The parameters that go into the first word. */
  lemma EncodedFirst(p: Packet, rpc: Rpc, data: seq<Byte>, next: Long)
    requires |p| >= MAD_SIZE && DataFits(rpc, data, |p|) && DataBeyondHeader(rpc, data)
    ensures AllOk(Writes(rpc, data, next), |p|)
    ensures var q := ApplyAll(p, Writes(rpc, data, next));
            MethodOf(q) == Cut(rpc.method_, 7) && IsResponse(q) == rpc.method_[7] && ClassOf(q) == Cut(rpc.mgtclass, 8)
  {
    EncodedMethod(p, rpc, data, next);
    EncodedResponseBit(p, rpc, data, next);
    EncodedClass(p, rpc, data, next);
  }

  lemma EncodedMethod(p: Packet, rpc: Rpc, data: seq<Byte>, next: Long)
    requires |p| >= MAD_SIZE && DataFits(rpc, data, |p|) && DataBeyondHeader(rpc, data)
    ensures AllOk(Writes(rpc, data, next), |p|)
    ensures MethodOf(ApplyAll(p, Writes(rpc, data, next))) == Cut(rpc.method_, 7)
  {
    HeaderRead(p, rpc, data, next, 0, Short(0, 7, rpc.method_));
  }

  lemma EncodedResponseBit(p: Packet, rpc: Rpc, data: seq<Byte>, next: Long)
    requires |p| >= MAD_SIZE && DataFits(rpc, data, |p|) && DataBeyondHeader(rpc, data)
    ensures AllOk(Writes(rpc, data, next), |p|)
    ensures IsResponse(ApplyAll(p, Writes(rpc, data, next))) == rpc.method_[7]
  {
    HeaderRead(p, rpc, data, next, 1, Short(7, 1, if rpc.method_[7] then One() else Zero()));
  }

  lemma EncodedClass(p: Packet, rpc: Rpc, data: seq<Byte>, next: Long)
    requires |p| >= MAD_SIZE && DataFits(rpc, data, |p|) && DataBeyondHeader(rpc, data)
    ensures AllOk(Writes(rpc, data, next), |p|)
    ensures ClassOf(ApplyAll(p, Writes(rpc, data, next))) == Cut(rpc.mgtclass, 8)
  {
    HeaderRead(p, rpc, data, next, 3, Short(16, 8, Cut(rpc.mgtclass, 8)));
    CutCut(rpc.mgtclass, 8, 8);
  }

  lemma EncodedStatus(p: Packet, rpc: Rpc, data: seq<Byte>, next: Long)
    requires |p| >= MAD_SIZE && DataFits(rpc, data, |p|) && DataBeyondHeader(rpc, data)
    ensures AllOk(Writes(rpc, data, next), |p|)
    ensures Get(ApplyAll(p, Writes(rpc, data, next)), 48, 16) == Cut(rpc.rstatus, 16)
  {
    HeaderRead(p, rpc, data, next, 5, Short(48, 16, rpc.rstatus));
  }

  lemma EncodedBase(p: Packet, rpc: Rpc, data: seq<Byte>, next: Long)
    requires |p| >= MAD_SIZE && DataFits(rpc, data, |p|) && DataBeyondHeader(rpc, data)
    ensures AllOk(Writes(rpc, data, next), |p|)
    ensures ToNat(Get(ApplyAll(p, Writes(rpc, data, next)), 24, 8)) == 1
  {
    HeaderRead(p, rpc, data, next, 4, Short(24, 8, One()));
    OneIsOne();
  }

  lemma EncodedClassVersion(p: Packet, rpc: Rpc, data: seq<Byte>, next: Long)
    requires |p| >= MAD_SIZE && DataFits(rpc, data, |p|) && DataBeyondHeader(rpc, data)
    ensures AllOk(Writes(rpc, data, next), |p|)
    ensures ToNat(Get(ApplyAll(p, Writes(rpc, data, next)), 8, 8)) ==
            if Class(rpc.mgtclass) == CLASS_SA || Class(rpc.mgtclass) == CLASS_CC then 2 else 1
  {
    HeaderRead(p, rpc, data, next, 2, Short(8, 8, VersionOf(Class(rpc.mgtclass))));
    VersionIs(Class(rpc.mgtclass));
  }

  lemma VersionIs(class_: nat)
    ensures ToNat(Cut(VersionOf(class_), 8)) == if class_ == CLASS_SA || class_ == CLASS_CC then 2 else 1
  {
    OneIsOne();
    TwoIsTwo();
  }

  /** The versions and the status. */
  lemma EncodedVersions(p: Packet, rpc: Rpc, data: seq<Byte>, next: Long)
    requires |p| >= MAD_SIZE && DataFits(rpc, data, |p|) && DataBeyondHeader(rpc, data)
    ensures AllOk(Writes(rpc, data, next), |p|)
    ensures var q := ApplyAll(p, Writes(rpc, data, next));
            && ToNat(Get(q, 24, 8)) == 1 && Get(q, 48, 16) == Cut(rpc.rstatus, 16)
            && ToNat(Get(q, 8, 8)) ==
               if Class(rpc.mgtclass) == CLASS_SA || Class(rpc.mgtclass) == CLASS_CC then 2 else 1
  {
    EncodedStatus(p, rpc, data, next);
    EncodedBase(p, rpc, data, next);
    EncodedClassVersion(p, rpc, data, next);
  }

  lemma OneIsOne()
    ensures ToNat(Cut(One(), 8)) == 1
  {
    ZerosAreNothing(Cut(One(), 8), 1);
    assert Cut(One(), 8)[..1] == [true] && [true][1..] == [];
  }

  lemma TwoIsTwo()
    ensures ToNat(Cut(Two(), 8)) == 2
  {
    ZerosAreNothing(Cut(Two(), 8), 2);
    assert Cut(Two(), 8)[..2] == [false, true] && [false, true][1..] == [true] && [true][1..] == [];
  }

  lemma EncodedTrid(p: Packet, rpc: Rpc, data: seq<Byte>, next: Long)
    requires |p| >= MAD_SIZE && DataFits(rpc, data, |p|) && DataBeyondHeader(rpc, data)
    ensures AllOk(Writes(rpc, data, next), |p|)
    ensures TridOf(ApplyAll(p, Writes(rpc, data, next))) == Trid(rpc, next)
  {
    HeaderRead(p, rpc, data, next, 6, Double(64, Trid(rpc, next)));
  }

  lemma EncodedAttr(p: Packet, rpc: Rpc, data: seq<Byte>, next: Long)
    requires |p| >= MAD_SIZE && DataFits(rpc, data, |p|) && DataBeyondHeader(rpc, data)
    ensures AllOk(Writes(rpc, data, next), |p|)
    ensures AttrIdOf(ApplyAll(p, Writes(rpc, data, next))) == Cut(rpc.attrId, 16)
  {
    HeaderRead(p, rpc, data, next, 7, Short(144, 16, rpc.attrId));
  }

  lemma EncodedMod(p: Packet, rpc: Rpc, data: seq<Byte>, next: Long)
    requires |p| >= MAD_SIZE && DataFits(rpc, data, |p|) && DataBeyondHeader(rpc, data)
    ensures AllOk(Writes(rpc, data, next), |p|)
    ensures AttrModOf(ApplyAll(p, Writes(rpc, data, next))) == rpc.attrMod
  {
    HeaderRead(p, rpc, data, next, 8, Short(160, 32, rpc.attrMod));
    assert Cut(rpc.attrMod, 32) == rpc.attrMod;
  }

  /** The parameters that go into the following words. */
  lemma EncodedNext(p: Packet, rpc: Rpc, data: seq<Byte>, next: Long)
    requires |p| >= MAD_SIZE && DataFits(rpc, data, |p|) && DataBeyondHeader(rpc, data)
    ensures AllOk(Writes(rpc, data, next), |p|)
    ensures var q := ApplyAll(p, Writes(rpc, data, next));
            AttrIdOf(q) == Cut(rpc.attrId, 16) && AttrModOf(q) == rpc.attrMod && TridOf(q) == Trid(rpc, next)
  {
    EncodedTrid(p, rpc, data, next);
    EncodedAttr(p, rpc, data, next);
    EncodedMod(p, rpc, data, next);
  }

  /** The organisation of a vendor packet is written last. */
  lemma EncodedOui(p: Packet, rpc: Rpc, data: seq<Byte>, next: Long)
    requires |p| >= MAD_SIZE && DataFits(rpc, data, |p|) && VendorRange2(Class(rpc.mgtclass))
    ensures AllOk(Writes(rpc, data, next), |p|)
    ensures Get(ApplyAll(p, Writes(rpc, data, next)), 288, 24) == Cut(rpc.oui, 24)
  {
    var ws := Writes(rpc, data, next);
    WritesOk(rpc, data, next, |p|);
    assert ws[|ws| - 1] == Short(288, 24, rpc.oui);
    ReadsBack(p, ws, |ws| - 1);
  }

  // ----- responding

  /** The method of the response: Set becomes Get, and the response bit is set unless the
      method is Send. */
  function ResponseMethod(m: Word): Word {
    Marked(if m == MethodSet() then MethodGet() else m)
  }

  function Marked(m: Word): Word {
    if m != MethodSend() then m[7 := true] else m
  }

  /** The parameters mad_respond_via gathers from the request; `stray` is what lies behind
      the structure where the congestion control key is looked for. */
  function ResponseRpc(p: Packet, rstatus: Word, stray: Long): Rpc
    requires |p| >= MAD_SIZE
  {
    Rpc(ClassOf(p), ResponseMethod(MethodOf(p)), AttrIdOf(p), AttrModOf(p), rstatus,
        if VendorRange2(ToNat(ClassOf(p))) then Get(p, 288, 24) else Zero(),
        TridOf(p), ZeroLong(), ZeroLong(), stray, 0)
  }

  method Gather(buf: array<Byte>, rstatus: Word, stray: Long) returns (rpc: Rpc)
    requires buf.Length % 4 == 0 && buf.Length >= MAD_SIZE
    ensures rpc == ResponseRpc(buf[..], rstatus, stray)
  {
    var mgtclass := GatherClass(buf);
    var m := GatherMethod(buf);
    var attrId, attrMod := GatherAttr(buf);
    var oui := GatherOui(buf, mgtclass);
    var trid := GetLong(buf[..], 8);
    rpc := Rpc(mgtclass, m, attrId, attrMod, rstatus, oui, trid, ZeroLong(), ZeroLong(), stray, 0);
  }

  method GatherClass(buf: array<Byte>) returns (c: Word)
    requires buf.Length % 4 == 0 && buf.Length >= MAD_SIZE
    ensures c == ClassOf(buf[..])
  {
    c := GetField(buf, 0, 16, 8);
  }

  method GatherAttr(buf: array<Byte>) returns (id: Word, mod: Word)
    requires buf.Length % 4 == 0 && buf.Length >= MAD_SIZE
    ensures id == AttrIdOf(buf[..]) && mod == AttrModOf(buf[..])
  {
    id := GetField(buf, 0, 144, 16);
    mod := GetField(buf, 0, 160, 32);
  }

  method GatherOui(buf: array<Byte>, mgtclass: Word) returns (oui: Word)
    requires buf.Length % 4 == 0 && buf.Length >= MAD_SIZE
    ensures oui == if VendorRange2(ToNat(mgtclass)) then Get(buf[..], 288, 24) else Zero()
  {
    oui := Zero();
    if VendorRange2(ToNat(mgtclass)) {
      oui := GetField(buf, 0, 288, 24);
    }
  }

  method GatherMethod(buf: array<Byte>) returns (m: Word)
    requires buf.Length % 4 == 0 && buf.Length >= MAD_SIZE
    ensures m == ResponseMethod(MethodOf(buf[..]))
  {
    m := GetField(buf, 0, 0, 7);
    if m == MethodSet() {
      m := MethodGet();
    }
    if m != MethodSend() {
      m := m[7 := true];
    }
  }

  /** The header part of mad_respond_via, on a LID-routed request. */
  method Respond(buf: array<Byte>, rstatus: Word, stray: Long, next: Long)
    requires buf.Length % 4 == 0 && buf.Length >= MAD_SIZE
    requires Class(ClassOf(buf[..])) != CLASS_DIRECT
    modifies buf
    ensures buf[..] == Response(old(buf[..]), rstatus, stray, next)
  {
    var rpc := Gather(buf, rstatus, stray);
    var _ := Encode(buf, rpc, [], next);
  }

  /** The response to any request with a transaction ID. */
  function Response(p: Packet, rstatus: Word, stray: Long, next: Long): Packet
    requires |p| >= MAD_SIZE
  {
    WritesOk(ResponseRpc(p, rstatus, stray), [], next, |p|);
    ApplyAll(p, Writes(ResponseRpc(p, rstatus, stray), [], next))
  }

  lemma ShortCut(p: Packet, f: nat, len: nat)
    requires Room(f, len, |p|) && WellFormed(f, len)
    ensures Cut(Get(p, f, len), len) == Get(p, f, len)
  {
    RoomCovers(f, len, |p|);
    GetIsField(p, f, len);
  }

  /** A response by LID is paired with its request: the same class, attribute and modifier, the
      response method, the status it was given, for vendor packets the same organisation, and
      the same transaction ID unless that is zero, in which case the response has a new one. */
  lemma ResponsePairs(p: Packet, rstatus: Word, stray: Long, next: Long)
    requires |p| >= MAD_SIZE
    ensures var q := Response(p, rstatus, stray, next);
            && ClassOf(q) == ClassOf(p) && AttrIdOf(q) == AttrIdOf(p) && AttrModOf(q) == AttrModOf(p)
            && TridOf(q) == (if IsZero(TridOf(p)) then next else TridOf(p))
            && MethodOf(q) == Cut(ResponseMethod(MethodOf(p)), 7)
            && IsResponse(q) == ResponseMethod(MethodOf(p))[7]
            && StatusOf(q) == Cut(rstatus, 16)
            && (VendorRange2(ToNat(ClassOf(p))) ==> OuiOf(q) == OuiOf(p))
  {
    EncodedFirst(p, ResponseRpc(p, rstatus, stray), [], next);
    EncodedNext(p, ResponseRpc(p, rstatus, stray), [], next);
    ShortCut(p, 16, 8);
    ShortCut(p, 144, 16);
    ResponseStatus(p, rstatus, stray, next);
    if VendorRange2(ToNat(ClassOf(p))) { ResponseOui(p, rstatus, stray, next); }
  }

  lemma ResponseStatus(p: Packet, rstatus: Word, stray: Long, next: Long)
    requires |p| >= MAD_SIZE
    ensures StatusOf(Response(p, rstatus, stray, next)) == Cut(rstatus, 16)
  {
    EncodedStatus(p, ResponseRpc(p, rstatus, stray), [], next);
  }

  lemma ResponseOui(p: Packet, rstatus: Word, stray: Long, next: Long)
    requires |p| >= MAD_SIZE && VendorRange2(ToNat(ClassOf(p)))
    ensures OuiOf(Response(p, rstatus, stray, next)) == OuiOf(p)
  {
    ShortCut(p, 16, 8);
    ShortCut(p, 288, 24);
    EncodedOui(p, ResponseRpc(p, rstatus, stray), [], next);
  }

  /** From parameters to response: whatever LID-routed request is encoded, the response to
      it answers Get and Set with a Get response, keeps every other method, and marks
      itself as a response unless the method is Send. */
  lemma RequestResponse(p: Packet, rpc: Rpc, data: seq<Byte>, next: Long, rstatus: Word, stray: Long, next': Long)
    requires |p| >= MAD_SIZE && DataFits(rpc, data, |p|) && DataBeyondHeader(rpc, data)
    requires !IsZero(rpc.trid) && Class(rpc.mgtclass) != CLASS_DIRECT
    ensures AllOk(Writes(rpc, data, next), |p|)
    ensures var q := Response(ApplyAll(p, Writes(rpc, data, next)), rstatus, stray, next');
            var m := Cut(rpc.method_, 7);
            && ClassOf(q) == Cut(rpc.mgtclass, 8) && AttrIdOf(q) == Cut(rpc.attrId, 16)
            && AttrModOf(q) == rpc.attrMod && TridOf(q) == rpc.trid
            && MethodOf(q) == (if m == MethodSet() then MethodGet() else m)
            && IsResponse(q) == (m != MethodSend()) && StatusOf(q) == Cut(rstatus, 16)
  {
    EncodedFirst(p, rpc, data, next);
    EncodedNext(p, rpc, data, next);
    ResponsePairs(ApplyAll(p, Writes(rpc, data, next)), rstatus, stray, next');
    CutCut(rpc.method_, 7, 7);
    ResponseMethodIs(Cut(rpc.method_, 7));
  }

  lemma ResponseMethodIs(m: Word)
    requires Cut(m, 7) == m
    ensures Cut(ResponseMethod(m), 7) == if m == MethodSet() then MethodGet() else m
    ensures ResponseMethod(m)[7] == (m != MethodSend())
  {
    assert One()[0] && !Two()[0] && Two()[1] && !One()[1] && Three()[0] && Three()[1];
    var m1 := if m == MethodSet() then MethodGet() else m;
    assert !m1[7] by { assert Cut(m1, 7)[7] == m1[7]; }
    assert Cut(m1[7 := true], 7) == Cut(m1, 7) == m1;
  }
}
