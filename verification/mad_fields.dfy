/** Reading and writing bit fields of a packet in place. A field is given by its first bit
    address `f` (eight times the base offset plus the bit offset) and its length. */
module MadFields {
  import opened MadBits

  // ----- the shape of a field

  /** Bits of the field in its first byte, if that byte is only partly used from above. */
  function Pre(f: nat): nat { (8 - f % 8) % 8 }

  /** Bits of the field in its last byte, if that byte is only partly used from below. */
  function Post(f: nat, len: nat): nat { (f + len) % 8 }

  /** The field takes the single-byte branch. */
  predicate OneByte(f: nat, len: nat) { len / 8 == 0 && f % 8 + len < 8 }

  /** Bits handled before the last byte. */
  function Wide(f: nat, len: nat): nat { Pre(f) + 8 * (len / 8) }

  /** The partly used bytes and the whole bytes add up to the length of the field. */
  predicate WellFormed(f: nat, len: nat) {
    len <= 32 && (len < 8 || Pre(f) + Post(f, len) < 8)
  }

  /** The bytes the code touches lie in a packet of `n` bytes. */
  predicate Room(f: nat, len: nat, n: nat) {
    if OneByte(f, len) then f / 8 < n
    else f + Wide(f, len) + (if Post(f, len) > 0 then 8 else 0) <= 8 * n
  }

  lemma Shape(f: nat, len: nat)
    requires !OneByte(f, len)
    ensures (f + Wide(f, len)) % 8 == 0
    ensures Pre(f) > 0 ==> f % 8 == 8 - Pre(f)
    ensures WellFormed(f, len) ==> Wide(f, len) + Post(f, len) == len
    ensures len <= 32 && !WellFormed(f, len) ==> Wide(f, len) + Post(f, len) == len + 8
  {
    var q, r, s, t := f / 8, f % 8, len / 8, len % 8;
    assert f == 8 * q + r && len == 8 * s + t;
    assert f + len == 8 * (q + s) + (r + t);
    assert Post(f, len) == if r + t < 8 then r + t else r + t - 8;
    assert Pre(f) == if r == 0 then 0 else 8 - r;
  }

  // ----- writing

  /** The bit at address `a` after `v` is written to the field. Beyond the field, the upper
      bits of its last byte are or-ed with the bits of `v` that do not fit. */
  predicate SetBit(p: Packet, f: nat, len: nat, v: Word, a: nat)
    requires a < 8 * |p|
  {
    if OneByte(f, len) then (if f <= a < f + len then BitOf(v, a - f) else Bit(p, a))
    else if f <= a < f + Wide(f, len) then BitOf(v, a - f)
    else if Post(f, len) > 0 && f + Wide(f, len) <= a < f + Wide(f, len) + 8 then
      BitOf(v, a - f) || (f + Wide(f, len) + Post(f, len) <= a && Bit(p, a))
    else Bit(p, a)
  }

  function Put(p: Packet, f: nat, len: nat, v: Word): (q: Packet)
    ensures |q| == |p|
  {
    Build(|p|, (a: nat) => a < 8 * |p| && SetBit(p, f, len, v, a))
  }

  lemma PutBit(p: Packet, f: nat, len: nat, v: Word, a: nat)
    requires a < 8 * |p|
    ensures Bit(Put(p, f, len, v), a) == SetBit(p, f, len, v, a)
  {
    BuildBit(|p|, (a: nat) => a < 8 * |p| && SetBit(p, f, len, v, a), a);
  }

  /** Storing one byte changes the eight addresses of that byte. */
  lemma StoreBit(p: Packet, q: Packet, idx: nat, b: Byte, a: nat)
    requires |p| == |q| && idx < |p| && Flip(idx) < |p| && q == p[Flip(idx) := b] && a < 8 * |p|
    ensures Bit(q, a) == if a / 8 == idx then b[a % 8] else Bit(p, a)
  {
    FlipFlip(a / 8);
    FlipFlip(idx);
  }

  method StoreByte(p: array<Byte>, idx: nat, b: Byte)
    requires p.Length % 4 == 0 && idx < p.Length
    modifies p
    ensures forall a :: 0 <= a < 8 * p.Length ==>
              Bit(p[..], a) == if a / 8 == idx then b[a % 8] else Bit(old(p[..]), a)
  {
    FlipFlip(idx);
    ghost var was := p[..];
    p[Flip(idx)] := b;
    forall a | 0 <= a < 8 * p.Length
      ensures Bit(p[..], a) == if a / 8 == idx then b[a % 8] else Bit(was, a)
    {
      StoreBit(was, p[..], idx, b, a);
    }
  }

  method LoadByte(p: array<Byte>, idx: nat) returns (b: Byte)
    requires p.Length % 4 == 0 && idx < p.Length
    ensures forall t :: 0 <= t < 8 ==> b[t] == Bit(p[..], 8 * idx + t)
  {
    FlipFlip(idx);
    b := p[Flip(idx)];
    forall t | 0 <= t < 8
      ensures b[t] == Bit(p[..], 8 * idx + t)
    {
      assert (8 * idx + t) / 8 == idx && (8 * idx + t) % 8 == t;
    }
  }

  /** `q` is `p` with the first `w` bits of `v` written from address `f` on. */
  ghost predicate Written(p: Packet, q: Packet, f: nat, w: nat, v: Word) {
    && |q| == |p|
    && forall a :: 0 <= a < 8 * |p| ==> Bit(q, a) == if f <= a < f + w then BitOf(v, a - f) else Bit(p, a)
  }

  method SetField(p: array<Byte>, base: nat, offs: nat, len: nat, val: Word)
    requires p.Length % 4 == 0 && len <= 32 && Room(8 * base + offs, len, p.Length)
    modifies p
    ensures p[..] == Put(old(p[..]), 8 * base + offs, len, val)
  {
    ghost var f := 8 * base + offs;
    ghost var was := p[..];
    var prebits := (8 - offs % 8) % 8;
    var postbits := (offs + len) % 8;
    var bytelen := len / 8;
    var idx := base + offs / 8;
    Locate(base, offs, len);

    if bytelen == 0 && offs % 8 + len < 8 {
      OneByteBranch(p, idx, offs % 8, len, val);
      PutNarrow(was, p[..], f, len, val);
      return;
    }

    Shape(f, len);
    SetSpan(p, idx, prebits, bytelen, postbits, val, f, len);
  }

  /** The general branch: partly used first byte, whole bytes, partly used last byte. */
  method SetSpan(p: array<Byte>, first: nat, pre: nat, bytes: nat, post: nat, val: Word, ghost f: nat, ghost len: nat)
    requires p.Length % 4 == 0 && pre < 8 && post < 8 && !OneByte(f, len)
    requires pre + 8 * bytes == Wide(f, len) && post == Post(f, len)
    requires f == 8 * first + (if pre > 0 then 8 - pre else 0)
    requires f + pre + 8 * bytes + (if post > 0 then 8 else 0) <= 8 * p.Length
    modifies p
    ensures p[..] == Put(old(p[..]), f, len, val)
  {
    ghost var was := p[..];
    var idx, v := first, val;
    if pre > 0 {
      PreBits(p, idx, pre, v);
      v := WordShr(v, pre);
      idx := idx + 1;
    }
    v := WriteBytes(p, idx, bytes, v, was, f, pre, val);
    idx := idx + bytes;
    ghost var mid := p[..];
    if post > 0 {
      PostBits(p, idx, post, v);
    }
    PutWide(was, mid, p[..], f, len, val, idx, v);
  }

  /** The byte loop. */
  method WriteBytes(p: array<Byte>, first: nat, bytes: nat, v0: Word, ghost was: Packet, ghost f: nat,
                    ghost pre: nat, ghost val: Word)
    returns (v: Word)
    requires p.Length % 4 == 0 && 8 * first == f + pre && first + bytes <= p.Length
    requires Written(was, p[..], f, pre, val) && v0 == WordShr(val, pre)
    modifies p
    ensures Written(was, p[..], f, pre + 8 * bytes, val) && v == WordShr(val, pre + 8 * bytes)
  {
    v := v0;
    var idx, k := first, 0;
    while k < bytes
      invariant 0 <= k <= bytes && idx == first + k
      invariant v == WordShr(val, pre + 8 * k)
      invariant Written(was, p[..], f, pre + 8 * k, val)
    {
      ghost var mid := p[..];
      StoreByte(p, idx, LowByte(v));
      WrittenByte(was, mid, p[..], f, pre + 8 * k, val, idx, v);
      ShrShr(val, pre + 8 * k);
      v := WordShr(v, 8);
      idx := idx + 1;
      k := k + 1;
    }
  }

  lemma ShrShr(w: Word, k: nat)
    ensures WordShr(WordShr(w, k), 8) == WordShr(w, k + 8)
  {
    forall i | 0 <= i < 32
      ensures WordShr(WordShr(w, k), 8)[i] == WordShr(w, k + 8)[i]
    {
      assert WordShr(WordShr(w, k), 8)[i] == BitOf(WordShr(w, k), i + 8);
      if i + 8 < 32 { assert WordShr(w, k)[i + 8] == BitOf(w, (i + 8) + k); }
      assert WordShr(w, k + 8)[i] == BitOf(w, i + (k + 8));
    }
  }

  /** Where a field starts, in bytes and bits. */
  lemma Locate(base: nat, offs: nat, len: nat)
    ensures var f := 8 * base + offs;
            && f / 8 == base + offs / 8 && f % 8 == offs % 8
            && (f + len) / 8 == base + (offs + len) / 8 && (f + len) % 8 == (offs + len) % 8
            && f == 8 * (f / 8) + (if Pre(f) > 0 then 8 - Pre(f) else 0)
  {
  }

  lemma PutNarrow(was: Packet, now: Packet, f: nat, len: nat, val: Word)
    requires OneByte(f, len) && |now| == |was|
    requires forall a :: 0 <= a < 8 * |was| ==>
               Bit(now, a) == if f <= a < f + len then BitOf(val, a - f) else Bit(was, a)
    ensures now == Put(was, f, len, val)
  {
    forall a | 0 <= a < 8 * |was| ensures Bit(now, a) == Bit(Put(was, f, len, val), a) { PutBit(was, f, len, val, a); }
    SameBits(now, Put(was, f, len, val));
  }

  lemma PutWide(was: Packet, mid: Packet, now: Packet, f: nat, len: nat, val: Word, idx: nat, v: Word)
    requires !OneByte(f, len) && |now| == |was| && 8 * idx == f + Wide(f, len) && v == WordShr(val, Wide(f, len))
    requires Written(was, mid, f, Wide(f, len), val)
    requires Post(f, len) == 0 ==> now == mid
    requires Post(f, len) > 0 ==> forall a :: 0 <= a < 8 * |was| ==>
               Bit(now, a) == if a / 8 == idx then v[a % 8] || (Post(f, len) <= a % 8 && Bit(mid, a)) else Bit(mid, a)
    ensures now == Put(was, f, len, val)
  {
    forall a | 0 <= a < 8 * |was|
      ensures Bit(now, a) == Bit(Put(was, f, len, val), a)
    {
      PutBit(was, f, len, val, a);
      assert a / 8 == idx <==> f + Wide(f, len) <= a < f + Wide(f, len) + 8;
      if a / 8 == idx { assert a % 8 == a - 8 * idx; }
    }
    SameBits(now, Put(was, f, len, val));
  }

  lemma WrittenByte(was: Packet, mid: Packet, now: Packet, f: nat, w: nat, val: Word, idx: nat, v: Word)
    requires Written(was, mid, f, w, val) && |now| == |was| && 8 * idx == f + w && idx < |was| && v == WordShr(val, w)
    requires forall a :: 0 <= a < 8 * |was| ==> Bit(now, a) == if a / 8 == idx then LowByte(v)[a % 8] else Bit(mid, a)
    ensures Written(was, now, f, w + 8, val)
  {
    forall a | 0 <= a < 8 * |was|
      ensures Bit(now, a) == if f <= a < f + (w + 8) then BitOf(val, a - f) else Bit(was, a)
    {
      assert a / 8 == idx <==> f + w <= a < f + w + 8;
      if a / 8 == idx { assert a % 8 == a - (f + w); }
    }
  }

  method OneByteBranch(p: array<Byte>, idx: nat, sh: nat, len: nat, val: Word)
    requires p.Length % 4 == 0 && idx < p.Length && sh + len < 8
    modifies p
    ensures forall a :: 0 <= a < 8 * p.Length ==>
              Bit(p[..], a) == if 8 * idx + sh <= a < 8 * idx + sh + len then BitOf(val, a - (8 * idx + sh))
                               else Bit(old(p[..]), a)
  {
    var b := LoadByte(p, idx);
    var c := And(b, Not(Shl(Mask(len), sh)));
    var d := Or(c, Shl(And(LowByte(val), Mask(len)), sh));
    StoreByte(p, idx, d);
    assert forall t :: 0 <= t < 8 ==> d[t] == if sh <= t < sh + len then val[t - sh] else b[t];
    assert forall a :: 0 <= a < 8 * p.Length && a / 8 == idx ==> a == 8 * idx + a % 8;
  }

  /** The low bits of the value go to the top of the first byte. */
  method PreBits(p: array<Byte>, idx: nat, pre: nat, val: Word)
    requires p.Length % 4 == 0 && idx < p.Length && 0 < pre < 8
    modifies p
    ensures Written(old(p[..]), p[..], 8 * idx + 8 - pre, pre, val)
  {
    var b := LoadByte(p, idx);
    var c := And(b, Mask(8 - pre));
    var d := Or(c, Shl(And(LowByte(val), Mask(pre)), 8 - pre));
    StoreByte(p, idx, d);
    assert forall t :: 0 <= t < 8 ==> d[t] == if 8 - pre <= t then val[t - (8 - pre)] else b[t];
    assert forall a :: 0 <= a < 8 * p.Length && a / 8 == idx ==> a == 8 * idx + a % 8;
  }

  /** What is left of the value goes to the bottom of the last byte, unmasked. */
  method PostBits(p: array<Byte>, idx: nat, post: nat, v: Word)
    requires p.Length % 4 == 0 && idx < p.Length && 0 < post < 8
    modifies p
    ensures forall a :: 0 <= a < 8 * p.Length ==>
              Bit(p[..], a) == if a / 8 == idx then v[a % 8] || (post <= a % 8 && Bit(old(p[..]), a))
                               else Bit(old(p[..]), a)
  {
    var b := LoadByte(p, idx);
    var c := And(b, Not(Mask(post)));
    var d := Or(c, LowByte(v));
    StoreByte(p, idx, d);
    assert forall t :: 0 <= t < 8 ==> d[t] == (v[t] || (post <= t && b[t]));
    assert forall a :: 0 <= a < 8 * p.Length && a / 8 == idx ==> a == 8 * idx + a % 8;
  }

  // ----- reading

  /** Bit `j` of the value the code reads. */
  predicate GetBit(p: Packet, f: nat, len: nat, j: nat)
    requires Room(f, len, |p|) && j < 32
  {
    if OneByte(f, len) then j < len && Bit(p, f + j)
    else
      Shape(f, len);
      if j < Wide(f, len) then Bit(p, f + j)
      else j < Wide(f, len) + Post(f, len) && Bit(p, 8 * ((f + len) / 8) + (j - Wide(f, len)))
  }

  function Get(p: Packet, f: nat, len: nat): Word
    requires Room(f, len, |p|)
  {
    seq(32, j requires 0 <= j < 32 => GetBit(p, f, len, j))
  }

  /** Reading, as the code does it: the partly used last byte, then the whole bytes from the
      last to the first, then the partly used first byte. */
  method GetField(p: array<Byte>, base: nat, offs: nat, len: nat) returns (r: Word)
    requires p.Length % 4 == 0 && len <= 32 && Room(8 * base + offs, len, p.Length)
    ensures r == Get(p[..], 8 * base + offs, len)
  {
    ghost var f := 8 * base + offs;
    var prebits := (8 - offs % 8) % 8;
    var postbits := (offs + len) % 8;
    var bytelen := len / 8;
    var idx := base + offs / 8;
    Locate(base, offs, len);

    if bytelen == 0 && offs % 8 + len < 8 {
      r := GetOneByte(p, idx, offs % 8, len, f);
      return;
    }
    Shape(f, len);
    if postbits > 0 { LastByte(f, len); }
    r := GetSpan(p, idx, prebits, bytelen, postbits, base + (offs + len) / 8, f);
    GetWide(p[..], f, len, r);
  }

  lemma GetWide(p: Packet, f: nat, len: nat, r: Word)
    requires !OneByte(f, len) && len <= 32 && Room(f, len, |p|)
    requires Post(f, len) > 0 ==> (f + len) / 8 < |p|
    requires forall j :: 0 <= j < 32 ==>
               r[j] == if j < Wide(f, len) then Bit(p, f + j)
                       else j < Wide(f, len) + Post(f, len) && Bit(p, 8 * ((f + len) / 8) + (j - Wide(f, len)))
    ensures r == Get(p, f, len)
  {
  }

  method GetOneByte(p: array<Byte>, idx: nat, sh: nat, len: nat, ghost f: nat) returns (r: Word)
    requires p.Length % 4 == 0 && idx < p.Length && sh + len < 8 && f == 8 * idx + sh && OneByte(f, len)
    requires Room(f, len, p.Length)
    ensures r == Get(p[..], f, len)
  {
    var b := LoadByte(p, idx);
    r := Widen(And(Shr(b, sh), Mask(len)));
    forall j | 0 <= j < 32
      ensures r[j] == GetBit(p[..], f, len, j)
    {
      if j < len { assert b[j + sh] == Bit(p[..], 8 * idx + (j + sh)); }
    }
  }

  method GetSpan(p: array<Byte>, first: nat, pre: nat, bytes: nat, post: nat, last: nat, ghost f: nat) returns (r: Word)
    requires p.Length % 4 == 0 && pre < 8 && post < 8
    requires f == 8 * first + (if pre > 0 then 8 - pre else 0)
    requires f + pre + 8 * bytes + (if post > 0 then 8 else 0) <= 8 * p.Length
    requires post > 0 ==> last < p.Length
    ensures forall j :: 0 <= j < 32 ==>
              r[j] == if j < pre + 8 * bytes then Bit(p[..], f + j)
                      else j < pre + 8 * bytes + post && Bit(p[..], 8 * last + (j - (pre + 8 * bytes)))
  {
    var idx, v, val := first, Zero(), Zero();
    if pre > 0 {
      var b := LoadByte(p, idx);
      v := Widen(Shr(b, 8 - pre));
      idx := idx + 1;
      assert forall j :: 0 <= j < 32 ==> v[j] == (j < pre && Bit(p[..], f + j));
    }
    if post > 0 {
      var b := LoadByte(p, last);
      val := Widen(And(b, Mask(post)));
    }
    val := ReadBytes(p, idx, bytes, post, last, val);
    r := WordOr(WordShl(val, pre), v);
    Combined(p[..], f, pre, bytes, post, last, val, v);
  }

  lemma Combined(p: Packet, f: nat, pre: nat, bytes: nat, post: nat, last: nat, val: Word, v: Word)
    requires pre < 8 && post < 8 && f + pre + 8 * bytes <= 8 * |p| && (post > 0 ==> last < |p|)
    requires forall j :: 0 <= j < 32 ==> v[j] == (j < pre && Bit(p, f + j))
    requires forall j :: 0 <= j < 32 ==>
               val[j] == if j < 8 * bytes then Bit(p, f + pre + j)
                         else j < 8 * bytes + post && Bit(p, 8 * last + (j - 8 * bytes))
    ensures var r := WordOr(WordShl(val, pre), v);
            forall j :: 0 <= j < 32 ==>
              r[j] == if j < pre + 8 * bytes then Bit(p, f + j)
                      else j < pre + 8 * bytes + post && Bit(p, 8 * last + (j - (pre + 8 * bytes)))
  {
    var r := WordOr(WordShl(val, pre), v);
    forall j | 0 <= j < 32
      ensures r[j] == if j < pre + 8 * bytes then Bit(p, f + j)
                      else j < pre + 8 * bytes + post && Bit(p, 8 * last + (j - (pre + 8 * bytes)))
    {
      assert r[j] == (BitOf(val, j - pre) || v[j]);
      if pre <= j { assert r[j] == val[j - pre]; }
    }
  }

  /** The byte loop, from the last whole byte to the first. */
  method ReadBytes(p: array<Byte>, first: nat, bytes: nat, post: nat, last: nat, top: Word) returns (val: Word)
    requires p.Length % 4 == 0 && first + bytes <= p.Length && (post > 0 ==> last < p.Length) && post < 8
    requires forall j :: 0 <= j < 32 ==> top[j] == (j < post && Bit(p[..], 8 * last + j))
    ensures forall j :: 0 <= j < 32 ==>
              val[j] == if j < 8 * bytes then Bit(p[..], 8 * first + j)
                        else j < 8 * bytes + post && Bit(p[..], 8 * last + (j - 8 * bytes))
  {
    val := top;
    var k := bytes;
    var idx := first + bytes;
    while k > 0
      invariant 0 <= k <= bytes && idx == first + k
      invariant forall j :: 0 <= j < 32 ==>
                  val[j] == if j < 8 * (bytes - k) then Bit(p[..], 8 * idx + j)
                            else j < 8 * (bytes - k) + post && Bit(p[..], 8 * last + (j - 8 * (bytes - k)))
    {
      ghost var above := val;
      idx := idx - 1;
      k := k - 1;
      var b := LoadByte(p, idx);
      val := WordOr(WordShl(val, 8), Widen(b));
      forall j | 0 <= j < 32
        ensures val[j] == if j < 8 * (bytes - k) then Bit(p[..], 8 * idx + j)
                          else j < 8 * (bytes - k) + post && Bit(p[..], 8 * last + (j - 8 * (bytes - k)))
      {
        if j < 8 { assert val[j] == b[j]; } else { assert val[j] == above[j - 8]; }
      }
    }
  }

  /** The partly used last byte lies inside the room. */
  lemma LastByte(f: nat, len: nat)
    requires !OneByte(f, len) && len <= 32 && Post(f, len) > 0
    ensures 8 * ((f + len) / 8) <= f + Wide(f, len)
  {
    Shape(f, len);
    assert f + len == 8 * ((f + len) / 8) + Post(f, len);
  }
}
