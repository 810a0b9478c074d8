/** The integer binary logarithm: the branchless form, the de Bruijn form and the
    compile-time form, for 32 and 64 bits, in machine arithmetic. */
module Ilog {

  /** `r` is the number of bits of `v`: 2^(r-1) <= v < 2^r, or zero for zero. The powers are
      taken in twice the width, where they do not overflow. */
  predicate IsLog32(v: bv32, r: bv32) {
    || (v == 0 && r == 0)
    || (1 <= r <= 32 && ((1 as bv64) << (r - 1)) <= (v as bv64) && (v as bv64) < ((1 as bv64) << r))
  }

  predicate IsLog64(v: bv64, r: bv64) {
    || (v == 0 && r == 0)
    || (1 <= r <= 64 && ((1 as bv128) << (r - 1)) <= (v as bv128) && (v as bv128) < ((1 as bv128) << r))
  }

  /** There is at most one such number, so forms that all have the property agree. */
  lemma LogUnique32(v: bv32, r: bv32, s: bv32)
    requires IsLog32(v, r) && IsLog32(v, s)
    ensures r == s
  {
  }

  lemma LogUnique64(v: bv64, r: bv64, s: bv64)
    requires IsLog64(v, r) && IsLog64(v, s)
    ensures r == s
  {
  }

  lemma PositiveLog32(v: bv32, r: bv32)
    requires IsLog32(v, r)
    ensures (v > 0 <==> r > 0) && r <= 32
  {
  }

  lemma PositiveLog64(v: bv64, r: bv64)
    requires IsLog64(v, r)
    ensures (v > 0 <==> r > 0) && r <= 64
  {
  }

  // ----- branchless

  method Branchless32(v0: bv32) returns (ret: bv32)
    ensures IsLog32(v0, ret)
  {
    var v := v0;
    ret := if v > 0 then 1 else 0;
    var m: bv32 := (if v > 0xFFFF then 1 else 0) << 4;
    v := v >> m;
    ret := ret | m;
    m := (if v > 0xFF then 1 else 0) << 3;
    v := v >> m;
    ret := ret | m;
    m := (if v > 0xF then 1 else 0) << 2;
    v := v >> m;
    ret := ret | m;
    m := (if v > 3 then 1 else 0) << 1;
    v := v >> m;
    ret := ret | m;
    ret := ret + if v > 1 then 1 else 0;
  }

  /** The 64-bit number is cut to 32 bits once its upper half is out of the way. */
  method Branchless64(v0: bv64) returns (ret: bv32)
    ensures IsLog64(v0, ret as bv64)
  {
    ret := if v0 > 0 then 1 else 0;
    var v, m := CutHalf(v0);
    ghost var r;
    ret, r := FourSteps(v, ret | m, m);
    JoinLog(v0, v, m, r);
  }

  /** `v` is the upper half of `v0` if there is one, and else the lower half. */
  predicate Half(v0: bv64, v: bv32, m: bv32) {
    if v0 > 0xFFFFFFFF then m == 32 && v as bv64 == v0 >> 32 else m == 0 && v as bv64 == v0
  }

  method CutHalf(v0: bv64) returns (v: bv32, m: bv32)
    ensures Half(v0, v, m) && (v > 0 <==> v0 > 0) && (m == 0 || (m == 32 && v > 0))
  {
    m := (if v0 > 0xFFFFFFFF then 1 else 0) << 5;
    v := ((v0 >> m) & 0xFFFFFFFF) as bv32;
  }

  /** The logarithm of a number from that of its half. */
  lemma JoinLog(v0: bv64, v: bv32, m: bv32, r: bv32)
    requires Half(v0, v, m) && IsLog32(v, r)
    ensures IsLog64(v0, (m + r) as bv64)
  {
    if m == 0 { LowLog(v0, v, r); } else { HighLog(v0, v, r); }
  }

  lemma LowLog(v0: bv64, v: bv32, r: bv32)
    requires v as bv64 == v0 && IsLog32(v, r)
    ensures IsLog64(v0, (0 + r) as bv64)
  {
  }

  lemma HighLog(v0: bv64, v: bv32, r: bv32)
    requires v as bv64 == v0 >> 32 && v > 0 && IsLog32(v, r)
    ensures IsLog64(v0, (32 + r) as bv64)
  {
  }

  /** The steps after the first; `start` holds what that one has found. */
  method FourSteps(v0: bv32, start: bv32, ghost m0: bv32) returns (ret: bv32, ghost r: bv32)
    requires (m0 == 0 || (m0 == 32 && v0 > 0)) && start == (if v0 > 0 then 1 else 0) | m0
    ensures IsLog32(v0, r) && ret == m0 + r
  {
    var v := v0;
    ret := start;
    var m: bv32 := (if v > 0xFFFF then 1 else 0) << 4;
    v := v >> m;
    ret := ret | m;
    m := (if v > 0xFF then 1 else 0) << 3;
    v := v >> m;
    ret := ret | m;
    m := (if v > 0xF then 1 else 0) << 2;
    v := v >> m;
    ret := ret | m;
    m := (if v > 3 then 1 else 0) << 1;
    v := v >> m;
    ret := ret | m;
    ret := ret + if v > 1 then 1 else 0;
    r := ret - m0;
  }

  // ----- de Bruijn

  /** DEBRUIJN_IDX32. */
  function Index32(i: bv32): bv32 {
    if i == 0 then 0 else if i == 1 then 1 else if i == 2 then 28 else if i == 3 then 2 else
    if i == 4 then 29 else if i == 5 then 14 else if i == 6 then 24 else if i == 7 then 3 else
    if i == 8 then 30 else if i == 9 then 22 else if i == 10 then 20 else if i == 11 then 15 else
    if i == 12 then 25 else if i == 13 then 17 else if i == 14 then 4 else if i == 15 then 8 else
    if i == 16 then 31 else if i == 17 then 27 else if i == 18 then 13 else if i == 19 then 23 else
    if i == 20 then 21 else if i == 21 then 19 else if i == 22 then 16 else if i == 23 then 7 else
    if i == 24 then 26 else if i == 25 then 12 else if i == 26 then 18 else if i == 27 then 6 else
    if i == 28 then 11 else if i == 29 then 5 else if i == 30 then 10 else 9
  }

  /** Entry `i` of a row of eight, by the lowest three bits of `i`. */
  function Pick(i: bv64, a: bv64, b: bv64, c: bv64, d: bv64, e: bv64, f: bv64, g: bv64, h: bv64): bv64 {
    if i & 4 == 0 then (if i & 2 == 0 then (if i & 1 == 0 then a else b) else (if i & 1 == 0 then c else d))
    else (if i & 2 == 0 then (if i & 1 == 0 then e else f) else (if i & 1 == 0 then g else h))
  }

  /** DEBRUIJN_IDX64, in rows of eight. */
  function Index64(i: bv64): bv64 {
    Pick(i >> 3,
         Pick(i, 0, 1, 2, 7, 3, 13, 8, 19),
         Pick(i, 4, 25, 14, 28, 9, 34, 20, 40),
         Pick(i, 5, 17, 26, 38, 15, 46, 29, 48),
         Pick(i, 10, 31, 35, 54, 21, 50, 41, 57),
         Pick(i, 63, 6, 12, 18, 24, 27, 33, 39),
         Pick(i, 16, 37, 45, 47, 30, 53, 49, 56),
         Pick(i, 62, 11, 23, 32, 36, 44, 52, 55),
         Pick(i, 61, 22, 43, 51, 60, 42, 59, 58))
  }

  /** Every bit below the highest one set is set. */
  function Smear32(v: bv32): bv32 {
    var a := v | (v >> 1);
    var b := a | (a >> 2);
    var c := b | (b >> 4);
    var d := c | (c >> 8);
    d | (d >> 16)
  }

  function Smear64(v: bv64): bv64 {
    var a := v | (v >> 1);
    var b := a | (a >> 2);
    var c := b | (b >> 4);
    var d := c | (c >> 8);
    var e := d | (d >> 16);
    e | (e >> 32)
  }

  /** `s` is `v` with all lower bits set: all its bits are set, and it has as many as `v`. */
  predicate Filled32(v: bv32, s: bv32) {
    s & (s + 1) == 0 && v <= s && (s >> 1 < v || s == 0)
  }

  predicate Filled64(v: bv64, s: bv64) {
    s & (s + 1) == 0 && v <= s && (s >> 1 < v || s == 0)
  }

  lemma SmearFills32(v: bv32)
    ensures Filled32(v, Smear32(v))
  {
  }

  lemma SmearIsFull64(v: bv64)
    ensures Smear64(v) & (Smear64(v) + 1) == 0
  {
  }

  lemma SmearGrows64(v: bv64)
    ensures v <= Smear64(v)
  {
  }

  lemma SmearKeepsTop64(v: bv64)
    ensures Smear64(v) >> 1 < v || Smear64(v) == 0
  {
  }

  lemma SmearFills64(v: bv64)
    ensures Filled64(v, Smear64(v))
  {
    SmearIsFull64(v);
    SmearGrows64(v);
    SmearKeepsTop64(v);
  }

  lemma FilledIsPower32(v: bv32, s: bv32, r: bv32)
    requires IsLog32(v, r) && Filled32(v, s)
    ensures (s >> 1) + 1 == (1 as bv32) << (if r > 0 then r - 1 else 0)
  {
  }

  lemma FilledIsPower64(v: bv64, s: bv64, r: bv64)
    requires IsLog64(v, r) && Filled64(v, s)
    ensures (s >> 1) + 1 == (1 as bv64) << (if r > 0 then r - 1 else 0)
  {
  }

  /** The multiplier is a de Bruijn sequence: the top bits of its shifts are all different,
      and the table names the shift. */
  lemma Lookup32(k: bv32)
    requires k < 32
    ensures Index32(((((1 as bv32) << k) * 0x77CB531) >> 27) & 0x1F) == k
  {
  }

  lemma TimesPower64(k: bv64)
    requires k < 64
    ensures ((1 as bv64) << k) * 0x218A392CD3D5DBF == (0x218A392CD3D5DBF as bv64) << k
  {
  }

  lemma ShiftLookup64(k: bv64)
    requires k < 64
    ensures Index64((((0x218A392CD3D5DBF as bv64) << k) >> 58) & 0x3F) == k
  {
  }

  lemma Lookup64(x: bv64, k: bv64)
    requires k < 64 && x == (1 as bv64) << k
    ensures Index64(((x * 0x218A392CD3D5DBF) >> 58) & 0x3F) == k
  {
    TimesPower64(k);
    ShiftLookup64(k);
  }

  /** The multiplication and table lookup find the exponent of a power of two. */
  method IndexOfPower32(x: bv32, ghost k: bv32) returns (i: bv32)
    requires k < 32 && x == (1 as bv32) << k
    ensures i == k
  {
    Lookup32(k);
    i := Index32(((x * 0x77CB531) >> 27) & 0x1F);
  }

  method IndexOfPower64(x: bv64, ghost k: bv64) returns (i: bv64)
    requires k < 64 && x == (1 as bv64) << k
    ensures i == k
  {
    Lookup64(x, k);
    i := Index64(((x * 0x218A392CD3D5DBF) >> 58) & 0x3F);
  }

  method FillBelow32(v0: bv32) returns (v: bv32)
    ensures Filled32(v0, v)
  {
    v := v0;
    v := v | (v >> 1);
    v := v | (v >> 2);
    v := v | (v >> 4);
    v := v | (v >> 8);
    v := v | (v >> 16);
    SmearFills32(v0);
  }

  method FillBelow64(v0: bv64) returns (v: bv64)
    ensures Filled64(v0, v)
  {
    v := v0;
    v := v | (v >> 1);
    v := v | (v >> 2);
    v := v | (v >> 4);
    v := v | (v >> 8);
    v := v | (v >> 16);
    v := v | (v >> 32);
    SmearFills64(v0);
  }

  /** The power of two at the highest bit set, or one. */
  method TopPower32(v0: bv32, ghost r: bv32) returns (x: bv32)
    requires IsLog32(v0, r)
    ensures x == (1 as bv32) << (if r > 0 then r - 1 else 0)
  {
    var v := FillBelow32(v0);
    FilledIsPower32(v0, v, r);
    x := (v >> 1) + 1;
  }

  method TopPower64(v0: bv64, ghost r: bv64) returns (x: bv64)
    requires IsLog64(v0, r)
    ensures x == (1 as bv64) << (if r > 0 then r - 1 else 0)
  {
    var v := FillBelow64(v0);
    FilledIsPower64(v0, v, r);
    x := (v >> 1) + 1;
  }

  /** What is left to add for a number: the exponent of its highest power of two. */
  method TopIndex32(v: bv32, ghost r: bv32) returns (i: bv32)
    requires IsLog32(v, r)
    ensures i == if r > 0 then r - 1 else 0
  {
    PositiveLog32(v, r);
    var x := TopPower32(v, r);
    i := IndexOfPower32(x, if r > 0 then r - 1 else 0);
  }

  method TopIndex64(v: bv64, ghost r: bv64) returns (i: bv64)
    requires IsLog64(v, r)
    ensures i == if r > 0 then r - 1 else 0
  {
    PositiveLog64(v, r);
    var x := TopPower64(v, r);
    i := IndexOfPower64(x, if r > 0 then r - 1 else 0);
  }

  method DeBruijn32(v: bv32) returns (ret: bv32)
    ensures IsLog32(v, ret)
  {
    ghost var r := SomeLog32(v);
    PositiveLog32(v, r);
    ret := if v > 0 then 1 else 0;
    var i := TopIndex32(v, r);
    ret := ret + i;
    assert ret == r;
  }

  method DeBruijn64(v: bv64) returns (ret: bv64)
    ensures IsLog64(v, ret)
  {
    ghost var r := SomeLog64(v);
    PositiveLog64(v, r);
    ret := if v > 0 then 1 else 0;
    var i := TopIndex64(v, r);
    ret := ret + i;
    assert ret == r;
  }

  lemma AddHalf(nonzero: bv32, m: bv32, i: bv32, k: bv32)
    requires (m == 0 || m == 32) && k <= 32 && nonzero == (if k > 0 then 1 else 0) && i == (if k > 0 then k - 1 else 0)
    ensures (nonzero | m) + i == m + k
  {
    if m == 0 {
      if k == 0 {} else {}
    } else {
      if k == 0 {} else {}
    }
  }

  /** The form for machines without 64-bit words: the upper half if there is one, and the
      32-bit form. */
  method DeBruijnHalves(v0: bv64) returns (ret: bv32)
    ensures IsLog64(v0, ret as bv64)
  {
    ret := if v0 > 0 then 1 else 0;
    var v, m := CutHalf(v0);
    ghost var k := SomeLog32(v);
    PositiveLog32(v, k);
    var i := TopIndex32(v, k);
    AddHalf(ret, m, i, k);
    ret := (ret | m) + i;
    JoinLog(v0, v, m, k);
  }

  // ----- compile-time macros

  function Static0(v: bv32): bv32 { if v != 0 then 1 else 0 }
  function Static1(v: bv32): bv32 { if v & 0x2 != 0 then 2 else Static0(v) }
  function Static2(v: bv32): bv32 { if v & 0xC != 0 then 2 + Static1(v >> 2) else Static1(v) }
  function Static3(v: bv32): bv32 { if v & 0xF0 != 0 then 4 + Static2(v >> 4) else Static2(v) }
  function Static4(v: bv32): bv32 { if v & 0xFF00 != 0 then 8 + Static3(v >> 8) else Static3(v) }
  function Static5(v: bv32): bv32 { if v & 0xFFFF0000 != 0 then 16 + Static4(v >> 16) else Static4(v) }

  function Static6(v: bv64): bv64 {
    if v & 0xFFFFFFFF00000000 != 0 then 32 + (Static5((v >> 32) as bv32) as bv64) else Static5(v as bv32) as bv64
  }

  lemma Static3IsLog(v: bv32)
    requires v < 0x100
    ensures IsLog32(v, Static3(v))
  {
  }

  lemma Static4IsLog(v: bv32)
    requires v < 0x10000
    ensures IsLog32(v, Static4(v))
  {
    Static3IsLog(if v & 0xFF00 != 0 then v >> 8 else v);
  }

  lemma Static5IsLog(v: bv32)
    ensures IsLog32(v, Static5(v))
  {
    Static4IsLog(if v & 0xFFFF0000 != 0 then v >> 16 else v);
  }

  lemma Static6IsLog(v: bv64)
    ensures IsLog64(v, Static6(v))
  {
    Static5IsLog(if v & 0xFFFFFFFF00000000 != 0 then (v >> 32) as bv32 else v as bv32);
  }

  /** So every form that has the property computes what the macros do. */
  lemma Agree32(v: bv32, r: bv32)
    ensures IsLog32(v, r) <==> r == Static5(v)
  {
    Static5IsLog(v);
    if IsLog32(v, r) { LogUnique32(v, r, Static5(v)); }
  }

  lemma Agree64(v: bv64, r: bv64)
    ensures IsLog64(v, r) <==> r == Static6(v)
  {
    Static6IsLog(v);
    if IsLog64(v, r) { LogUnique64(v, r, Static6(v)); }
  }

  /** A number with the property always exists; the macros give it. */
  lemma SomeLog32(v: bv32) returns (r: bv32)
    ensures IsLog32(v, r)
  {
    Static5IsLog(v);
    r := Static5(v);
  }

  lemma SomeLog64(v: bv64) returns (r: bv64)
    ensures IsLog64(v, r)
  {
    Static6IsLog(v);
    r := Static6(v);
  }
}
