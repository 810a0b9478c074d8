/** Adding up the port counters of a node: saturating sums, and their way back into a
    packet. */
module PerfCounters {
  import opened MadBits
  import opened MadFields
  import opened MadCodec
  import opened MadHeader

  // ----- one saturating addition

  function Min(a: nat, b: nat): nat { if a <= b then a else b }

  /** The aggregate functions, in arithmetic modulo `m`: a sum that wraps around or exceeds
      the cap becomes the cap. Despite the wrap-around this is the smaller of the exact sum
      and the cap. */
  function Saturate(dest: nat, val: nat, cap: nat, m: nat): (r: nat)
    requires dest <= cap < m && val < m
    ensures r == Min(cap, dest + val)
  {
    var s := (dest + val) % m;
    assert s == if dest + val < m then dest + val else dest + val - m by {
      if dest + val >= m {
        RemainderIs(dest + val, m, 1, dest + val - m);
      } else {
        RemainderIs(dest + val, m, 0, dest + val);
      }
    }
    if s < dest || s > cap then cap else s
  }

  /** For a counter of the full width only the wrap-around is tested. */
  function SaturateFull(dest: nat, val: nat, m: nat): (r: nat)
    requires dest < m && val < m
    ensures r == Min(m - 1, dest + val)
  {
    var s := (dest + val) % m;
    assert s == if dest + val < m then dest + val else dest + val - m by {
      if dest + val >= m {
        RemainderIs(dest + val, m, 1, dest + val - m);
      } else {
        RemainderIs(dest + val, m, 0, dest + val);
      }
    }
    if s < dest then m - 1 else s
  }

  // ----- the table of counters

  /** First bit address and length of each counter, in the order they are aggregated. */
  datatype Row = Row(f: nat, len: nat)

  const ROWS: seq<Row> :=
    [ Row(48, 16), Row(40, 8), Row(32, 8), Row(80, 16), Row(64, 16), Row(112, 16), Row(96, 16),
      Row(152, 8), Row(144, 8), Row(132, 4), Row(128, 4), Row(160, 16), Row(160, 16),
      Row(192, 32), Row(224, 32), Row(256, 32), Row(288, 32), Row(320, 32) ]

  const N := 18
  const QP1_DROPPED := 11
  const VL15_DROPPED := 12

  /** The rows are those of the specification, in the order of aggregation, each with its bit
      number and its width; QP1Dropped is listed by its address, which is the one
      VL15Dropped has. The data and packet counters are whole words. The selection fields that
      the output writes are those at bits 8 and 16 of the specification. */
  lemma RowAddresses()
    ensures |ROWS| == N
    ensures ROWS[0] == Row(BitsOffs(32, 16), 16) && ROWS[1] == Row(BitsOffs(48, 8), 8)
    ensures ROWS[2] == Row(BitsOffs(56, 8), 8) && ROWS[3] == Row(BitsOffs(64, 16), 16)
    ensures ROWS[4] == Row(BitsOffs(80, 16), 16) && ROWS[5] == Row(BitsOffs(96, 16), 16)
    ensures ROWS[6] == Row(BitsOffs(112, 16), 16) && ROWS[7] == Row(BitsOffs(128, 8), 8)
    ensures ROWS[8] == Row(BitsOffs(136, 8), 8) && ROWS[9] == Row(BitsOffs(152, 4), 4)
    ensures ROWS[10] == Row(BitsOffs(156, 4), 4) && ROWS[12] == Row(BitsOffs(176, 16), 16)
    ensures ROWS[QP1_DROPPED] == ROWS[VL15_DROPPED]
    ensures forall i :: 13 <= i < N ==> ROWS[i] == Row(BitsOffs(192 + 32 * (i - 13), 32), 32)
    ensures BitsOffs(8, 8) == 16 && BitsOffs(16, 16) == 0
  {
  }

  lemma RowShape(i: nat)
    requires i < N
    ensures |ROWS| == N && ROWS[i].len <= 32 && WellFormed(ROWS[i].f, ROWS[i].len)
            && Room(ROWS[i].f, ROWS[i].len, MAD_SIZE)
  {
  }

  function Cap(i: nat): nat
    requires i < N
  {
    RowShape(i);
    Pow2(ROWS[i].len) - 1
  }

  /** What a packet says of a counter. */
  function Reading(p: Packet, i: nat): (r: nat)
    requires |p| >= MAD_SIZE && i < N
    ensures r <= Cap(i)
  {
    RowShape(i);
    RoomGrows(ROWS[i].f, ROWS[i].len, MAD_SIZE, |p|);
    ReadingBound(p, i);
    ToNat(Get(p, ROWS[i].f, ROWS[i].len))
  }

  lemma RoomGrows(f: nat, len: nat, n: nat, n': nat)
    requires Room(f, len, n) && n <= n'
    ensures Room(f, len, n')
  {
  }

  lemma ReadingBound(p: Packet, i: nat)
    requires |p| >= MAD_SIZE && i < N && Room(ROWS[i].f, ROWS[i].len, |p|)
    ensures ToNat(Get(p, ROWS[i].f, ROWS[i].len)) <= Cap(i)
  {
    var f, len := ROWS[i].f, ROWS[i].len;
    RowShape(i);
    ShortCut(p, f, len);
    var v := Get(p, f, len);
    ZerosAreNothing(v, len);
    ToNatBound(v[..len]);
  }

  // ----- sums over ports

  function Total<T>(xs: seq<T>, f: T -> nat): nat {
    if xs == [] then 0 else Total(xs[..|xs| - 1], f) + f(xs[|xs| - 1])
  }

  lemma {:induction false} TotalRemove<T>(xs: seq<T>, f: T -> nat, k: nat)
    requires k < |xs|
    ensures Total(xs, f) == Total(xs[..k] + xs[k + 1..], f) + f(xs[k])
    decreases |xs|
  {
    var rest := xs[..k] + xs[k + 1..];
    if k == |xs| - 1 {
      assert rest == xs[..|xs| - 1];
    } else {
      var init := xs[..|xs| - 1];
      TotalRemove(init, f, k);
      assert rest[..|rest| - 1] == init[..k] + init[k + 1..];
    }
  }

  lemma {:induction false} TotalIgnoresOrder<T>(xs: seq<T>, ys: seq<T>, f: T -> nat)
    requires multiset(xs) == multiset(ys)
    ensures Total(xs, f) == Total(ys, f)
    decreases |xs|
  {
    if xs == [] {
      assert |multiset(ys)| == 0;
    } else {
      var k := FindLast(xs, ys);
      TotalRemove(ys, f, k);
      TotalIgnoresOrder(xs[..|xs| - 1], ys[..k] + ys[k + 1..], f);
    }
  }

  /** In a reordering of `ps`, the place of its last element; without it, the rest is a
      reordering of the rest. */
  lemma FindLast<T>(ps: seq<T>, qs: seq<T>) returns (k: nat)
    requires ps != [] && multiset(ps) == multiset(qs)
    ensures k < |qs| && qs[k] == ps[|ps| - 1] && multiset(ps[..|ps| - 1]) == multiset(qs[..k] + qs[k + 1..])
  {
    var last := ps[|ps| - 1];
    assert last in multiset(qs);
    k :| 0 <= k < |qs| && qs[k] == last;
    TakeOut(ps, |ps| - 1);
    assert ps[..|ps| - 1] + ps[|ps|..] == ps[..|ps| - 1];
    TakeOut(qs, k);
    Cancel(multiset(ps[..|ps| - 1]), multiset(qs[..k] + qs[k + 1..]), last);
  }

  lemma TakeOut<T>(s: seq<T>, k: nat)
    requires k < |s|
    ensures multiset(s) == multiset(s[..k] + s[k + 1..]) + multiset{s[k]}
  {
    assert s == s[..k] + [s[k]] + s[k + 1..];
  }

  lemma Cancel<T>(a: multiset<T>, b: multiset<T>, x: T)
    requires a + multiset{x} == b + multiset{x}
    ensures a == b
  {
    assert a == a + multiset{x} - multiset{x};
  }

  ghost predicate Packets(ps: seq<Packet>) {
    forall k :: 0 <= k < |ps| ==> |ps[k]| >= MAD_SIZE
  }

  function Reader(i: nat): Packet -> nat
    requires i < N
  {
    (p: Packet) => if |p| >= MAD_SIZE then Reading(p, i) else 0
  }

  /** The exact sum of a counter over the ports. */
  function Sum(ps: seq<Packet>, i: nat): nat
    requires i < N
  {
    Total(ps, Reader(i))
  }

  lemma SumNext(ps: seq<Packet>, p: Packet, i: nat)
    requires |p| >= MAD_SIZE && i < N
    ensures Sum(ps + [p], i) == Sum(ps, i) + Reading(p, i)
  {
    assert (ps + [p])[..|ps|] == ps;
  }

  /** The counters kept while the ports are queried one after another. */
  class Aggregator {
    var counts: seq<nat>

    ghost predicate Holds(ps: seq<Packet>)
      reads this
      requires Packets(ps)
    {
      |counts| == N && forall i :: 0 <= i < N ==> counts[i] == Min(Cap(i), Sum(ps, i))
    }

    constructor ()
      ensures Holds([])
    {
      counts := seq(N, i => 0);
    }

    /** aggregate_perfcounters: decode each counter and add it. */
    method AddPort(pc: array<Byte>, ghost ps: seq<Packet>)
      requires pc.Length % 4 == 0 && pc.Length >= MAD_SIZE && Packets(ps) && Holds(ps)
      modifies this
      ensures Packets(ps + [pc[..]]) && Holds(ps + [pc[..]])
    {
      ghost var next: seq<Packet> := ps + [pc[..]];
      var i := 0;
      while i < N
        invariant 0 <= i <= N && |counts| == N
        invariant forall j :: 0 <= j < N ==> counts[j] == Min(Cap(j), Sum(if j < i then next else ps, j))
      {
        SumNext(ps, pc[..], i);
        var val := Decode(pc, i);
        var d := Accumulate(counts[i], val, i);
        counts := counts[i := d];
        i := i + 1;
      }
    }
  }

  method Decode(pc: array<Byte>, i: nat) returns (val: nat)
    requires pc.Length % 4 == 0 && pc.Length >= MAD_SIZE && i < N
    ensures val == Reading(pc[..], i)
  {
    RowShape(i);
    RoomGrows(ROWS[i].f, ROWS[i].len, MAD_SIZE, pc.Length);
    var w := GetField(pc, 0, ROWS[i].f, ROWS[i].len);
    val := ToNat(w);
  }

  /** The aggregate function for the width of the counter. */
  method Accumulate(dest: nat, val: nat, i: nat) returns (d: nat)
    requires i < N && dest <= Cap(i) && val <= Cap(i)
    ensures d == Min(Cap(i), dest + val)
  {
    RowShape(i);
    Powers();
    if ROWS[i].len == 32 {
      d := SaturateFull(dest, val, 0x1_0000_0000);
    } else {
      var cap := if ROWS[i].len == 4 then 0xf else if ROWS[i].len == 8 then 0xff else 0xffff;
      d := Saturate(dest, val, cap, 0x1_0000_0000);
    }
  }

  lemma Powers()
    ensures Pow2(4) == 0x10 && Pow2(8) == 0x100 && Pow2(16) == 0x1_0000 && Pow2(32) == 0x1_0000_0000
  {
    assert Pow2(12) == 16 * Pow2(8);
    assert Pow2(16) == 16 * Pow2(12);
    assert Pow2(20) == 16 * Pow2(16);
    assert Pow2(24) == 16 * Pow2(20);
    assert Pow2(28) == 16 * Pow2(24);
    assert Pow2(32) == 16 * Pow2(28);
  }

  /** Whatever the order of the ports, each aggregated counter is the exact sum, capped. */
  lemma AggregateIgnoresOrder(ps: seq<Packet>, qs: seq<Packet>, i: nat)
    requires Packets(ps) && Packets(qs) && multiset(ps) == multiset(qs) && i < N
    ensures Min(Cap(i), Sum(ps, i)) == Min(Cap(i), Sum(qs, i))
  {
    TotalIgnoresOrder(ps, qs, Reader(i));
  }

  // ----- writing the sums back into a packet

  /** 0xff, the port number that stands for all ports. */
  function AllPorts(): Word { seq(32, i => i < 8) }

  /** The writes of output_aggregate_perfcounters: all ports, the counter selection, and the
      counters. */
  function Output(select: Word, counts: seq<nat>): (ws: seq<Write>)
    requires |counts| == N
    ensures |ws| == N + 2
  {
    [Short(16, 8, AllPorts()), Short(0, 16, select)]
    + seq(N, i requires 0 <= i < N => Short(ROWS[i].f, ROWS[i].len, FromNat(counts[i], 32)))
  }

  lemma OutputOk(select: Word, counts: seq<nat>, n: nat)
    requires |counts| == N && n >= MAD_SIZE && forall i :: 0 <= i < N ==> counts[i] <= Cap(i)
    ensures AllOk(Output(select, counts), n)
  {
    var ws := Output(select, counts);
    SelectOk(select, n);
    forall k | 2 <= k < |ws|
      ensures WriteOk(ws[k], n)
    {
      CounterOk(k - 2, counts[k - 2], n);
    }
  }

  lemma SelectOk(select: Word, n: nat)
    requires n >= MAD_SIZE
    ensures WriteOk(Short(16, 8, AllPorts()), n) && WriteOk(Short(0, 16, select), n)
  {
  }

  lemma CounterOk(i: nat, c: nat, n: nat)
    requires i < N && c <= Cap(i) && n >= MAD_SIZE
    ensures WriteOk(Short(ROWS[i].f, ROWS[i].len, FromNat(c, 32)), n)
    ensures ToNat(Cut(FromNat(c, 32), ROWS[i].len)) == c
  {
    var len := ROWS[i].len;
    RowShape(i);
    RoomGrows(ROWS[i].f, len, MAD_SIZE, n);
    PowGrows(len, 32);
    NatRoundTrip(c, 32);
    InRangeIsClean(ROWS[i].f, len, FromNat(c, 32));
    CutNumber(FromNat(c, 32), len);
    RemainderIs(c, Pow2(len), 0, c);
  }

  lemma {:induction false} PowGrows(j: nat, k: nat)
    requires j <= k
    ensures Pow2(j) <= Pow2(k)
    decreases k
  {
    if j < k { PowGrows(j, k - 1); }
  }

  /** output_aggregate_perfcounters, up to the printing. */
  method WriteCounts(pc: array<Byte>, select: Word, counts: seq<nat>)
    requires pc.Length % 4 == 0 && pc.Length >= MAD_SIZE
    requires |counts| == N && forall i :: 0 <= i < N ==> counts[i] <= Cap(i)
    modifies pc
    ensures AllOk(Output(select, counts), pc.Length)
    ensures pc[..] == ApplyAll(old(pc[..]), Output(select, counts))
  {
    OutputOk(select, counts, pc.Length);
    EmitAll(pc, Output(select, counts));
  }

  method EmitAll(pc: array<Byte>, ws: seq<Write>)
    requires pc.Length % 4 == 0 && AllOk(ws, pc.Length)
    modifies pc
    ensures pc[..] == ApplyAll(old(pc[..]), ws)
  {
    ghost var p, done := pc[..], [];
    var i := 0;
    while i < |ws|
      invariant 0 <= i <= |ws| && done == ws[..i] && Stage(pc[..], p, done)
    {
      done := Emit(pc, ws[i], p, done);
      i := i + 1;
    }
    assert ws[..|ws|] == ws;
  }

  predicate Apart(i: nat, j: nat)
    requires i < N && j < N
  {
    ROWS[i].f + ROWS[i].len <= ROWS[j].f || ROWS[j].f + ROWS[j].len <= ROWS[i].f
  }

  /** No two counters share a bit, except for the two that share all of them. */
  lemma RowsApart(i: nat, j: nat)
    requires i < j < N && !(i == QP1_DROPPED && j == VL15_DROPPED)
    ensures Apart(i, j)
  {
  }

  /** A counter that no later one overlaps decodes to what was written. */
  lemma CounterReads(p: Packet, select: Word, counts: seq<nat>, k: nat)
    requires |p| >= MAD_SIZE && |counts| == N && k < N && k != QP1_DROPPED
    requires forall j :: 0 <= j < N ==> counts[j] <= Cap(j)
    ensures AllOk(Output(select, counts), |p|)
    ensures Reading(ApplyAll(p, Output(select, counts)), k) == counts[k]
  {
    CounterBits(p, select, counts, k);
    CounterOk(k, counts[k], |p|);
  }

  lemma CounterBits(p: Packet, select: Word, counts: seq<nat>, k: nat)
    requires |p| >= MAD_SIZE && |counts| == N && k < N && k != QP1_DROPPED
    requires forall j :: 0 <= j < N ==> counts[j] <= Cap(j)
    ensures AllOk(Output(select, counts), |p|) && Room(ROWS[k].f, ROWS[k].len, |p|)
    ensures Get(ApplyAll(p, Output(select, counts)), ROWS[k].f, ROWS[k].len) == Cut(FromNat(counts[k], 32), ROWS[k].len)
  {
    OutputOk(select, counts, |p|);
    CounterOk(k, counts[k], |p|);
    LaterApart(select, counts, k);
    ReadsBack(p, Output(select, counts), k + 2);
  }

  lemma LaterApart(select: Word, counts: seq<nat>, k: nat)
    requires |counts| == N && k < N && k != QP1_DROPPED
    ensures var ws := Output(select, counts);
            && ws[k + 2] == Short(ROWS[k].f, ROWS[k].len, FromNat(counts[k], 32))
            && forall j :: k + 2 < j < |ws| ==> Disjoint(ws[k + 2], ws[j])
  {
    var ws := Output(select, counts);
    forall j | k + 2 < j < |ws| ensures Disjoint(ws[k + 2], ws[j]) { OutputApart(select, counts, k, j - 2); }
  }

  lemma OutputApart(select: Word, counts: seq<nat>, i: nat, j: nat)
    requires |counts| == N && i < j < N && i != QP1_DROPPED
    ensures Disjoint(Output(select, counts)[i + 2], Output(select, counts)[j + 2])
  {
    RowsApart(i, j);
  }

  /** After the aggregated counters are written to a packet, in the order of the program,
      every counter decodes to its aggregate. This includes QP1Dropped, which is then
      overwritten through VL15Dropped: both were read from the same bits, so both have the
      same sum. */
  lemma OutputReadsBack(p: Packet, select: Word, ps: seq<Packet>, counts: seq<nat>, i: nat)
    requires |p| >= MAD_SIZE && Packets(ps) && |counts| == N && i < N
    requires forall j :: 0 <= j < N ==> counts[j] == Min(Cap(j), Sum(ps, j))
    ensures AllOk(Output(select, counts), |p|)
    ensures Reading(ApplyAll(p, Output(select, counts)), i) == counts[i]
  {
    if i == QP1_DROPPED {
      SameSums(ps);
      CounterReads(p, select, counts, VL15_DROPPED);
      RowAddresses();
    } else {
      CounterReads(p, select, counts, i);
    }
  }

  /** The output is marked as that of all ports, with the given selection of counters. */
  lemma OutputSelects(p: Packet, select: Word, counts: seq<nat>)
    requires |p| >= MAD_SIZE && |counts| == N && forall j :: 0 <= j < N ==> counts[j] <= Cap(j)
    ensures AllOk(Output(select, counts), |p|)
    ensures var q := ApplyAll(p, Output(select, counts));
            ToNat(Get(q, 16, 8)) == 0xff && Get(q, 0, 16) == Cut(select, 16)
  {
    SelectReads(p, select, counts, 0);
    SelectReads(p, select, counts, 1);
    AllPortsIs();
  }

  lemma SelectReads(p: Packet, select: Word, counts: seq<nat>, k: nat)
    requires |p| >= MAD_SIZE && |counts| == N && k < 2 && forall j :: 0 <= j < N ==> counts[j] <= Cap(j)
    ensures AllOk(Output(select, counts), |p|)
    ensures var q := ApplyAll(p, Output(select, counts));
            && (k == 0 ==> Get(q, 16, 8) == Cut(AllPorts(), 8)) && (k == 1 ==> Get(q, 0, 16) == Cut(select, 16))
  {
    var ws := Output(select, counts);
    OutputOk(select, counts, |p|);
    forall j | k < j < |ws| ensures Disjoint(ws[k], ws[j]) { SelectApart(select, counts, j); }
    ReadsBack(p, ws, k);
  }

  lemma SelectApart(select: Word, counts: seq<nat>, j: nat)
    requires |counts| == N && 0 < j < N + 2
    ensures var ws := Output(select, counts); Disjoint(ws[0], ws[j]) && (1 < j ==> Disjoint(ws[1], ws[j]))
  {
    if j > 1 {
      RowsFollow(j - 2);
      assert Output(select, counts)[j] == Short(ROWS[j - 2].f, ROWS[j - 2].len, FromNat(counts[j - 2], 32));
    }
  }

  lemma RowsFollow(i: nat)
    requires i < N
    ensures ROWS[i].f >= 32
  {
  }

  lemma AllPortsIs()
    ensures ToNat(Cut(AllPorts(), 8)) == 0xff
  {
    var ones := seq(8, i => true);
    ZerosAreNothing(Cut(AllPorts(), 8), 8);
    assert Cut(AllPorts(), 8)[..8] == ones;
    AllOnes(8);
    Powers();
  }

  lemma {:induction false} AllOnes(n: nat)
    ensures ToNat(seq(n, i => true)) == Pow2(n) - 1
  {
    if n > 0 {
      AllOnes(n - 1);
      assert seq(n, i => true)[1..] == seq(n - 1, i => true);
    }
  }

  lemma SameSums(ps: seq<Packet>)
    ensures Sum(ps, QP1_DROPPED) == Sum(ps, VL15_DROPPED) && Cap(QP1_DROPPED) == Cap(VL15_DROPPED)
  {
    RowAddresses();
    forall p: Packet ensures Reader(QP1_DROPPED)(p) == Reader(VL15_DROPPED)(p) { SameReading(p); }
    TotalSame(ps, Reader(QP1_DROPPED), Reader(VL15_DROPPED));
  }

  lemma SameReading(p: Packet)
    ensures Reader(QP1_DROPPED)(p) == Reader(VL15_DROPPED)(p)
  {
  }

  lemma {:induction false} TotalSame<T(!new)>(xs: seq<T>, f: T -> nat, g: T -> nat)
    requires forall x: T :: f(x) == g(x)
    ensures Total(xs, f) == Total(xs, g)
  {
    if xs != [] { TotalSame(xs[..|xs| - 1], f, g); }
  }
}
