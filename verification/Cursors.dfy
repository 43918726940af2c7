/** The bounds-checked byte cursor every DWARF reader is built on. */
module Cursors {
  import opened Results
  import opened Bits
  import opened Leb128

  /** The integer stored in little-endian order. */
  function Le(bs: seq<Byte>): (r: nat)
    ensures r < Pow2(8 * |bs|)
  {
    if bs == [] then 0
    else
      assert Pow2(8 * |bs|) == 256 * Pow2(8 * |bs[1..]|) by { Pow2Small(); Pow2Sum(8 * |bs[1..]|, 8); }
      bs[0] + 256 * Le(bs[1..])
  }

  function EncodeLe(v: nat, n: nat): (bs: seq<Byte>)
    ensures |bs| == n
    decreases n
  {
    if n == 0 then [] else [v % 256] + EncodeLe(v / 256, n - 1)
  }

  lemma {:induction false} LeRoundTrip(v: nat, n: nat)
    requires v < Pow2(8 * n)
    ensures Le(EncodeLe(v, n)) == v
    decreases n
  {
    if n > 0 {
      Pow2Small();
      Pow2Sum(8 * (n - 1), 8);
      LeRoundTrip(v / 256, n - 1);
      assert EncodeLe(v, n)[1..] == EncodeLe(v / 256, n - 1);
    }
  }

  function Zeros(n: nat): (r: seq<Byte>)
    ensures |r| == n && forall i :: 0 <= i < n ==> r[i] == 0
  {
    seq(n, _ => 0)
  }

  /** And the other way round: a string read as an integer, with zeros above it. */
  lemma {:induction false} EncodeOfLe(bs: seq<Byte>, n: nat)
    requires |bs| <= n
    ensures EncodeLe(Le(bs), n) == bs + Zeros(n - |bs|)
    decreases n
  {
    if bs == [] {
      EncodeZero(n);
    } else {
      var l := Le(bs[1..]);
      assert (bs[0] + 256 * l) % 256 == bs[0] && (bs[0] + 256 * l) / 256 == l;
      EncodeOfLe(bs[1..], n - 1);
      assert bs == [bs[0]] + bs[1..];
    }
  }

  lemma {:induction false} EncodeZero(n: nat)
    ensures EncodeLe(0, n) == Zeros(n)
  {
    if n > 0 { EncodeZero(n - 1); }
  }

  // ---------- byte strings embedded in data ----------

  /** The bytes `bs` stand at position `pos`. */
  predicate At(data: seq<Byte>, pos: nat, bs: seq<Byte>)
  {
    pos + |bs| <= |data| && data[pos..pos + |bs|] == bs
  }

  lemma AtSplit(data: seq<Byte>, pos: nat, a: seq<Byte>, b: seq<Byte>)
    requires At(data, pos, a + b)
    ensures At(data, pos, a) && At(data, pos + |a|, b)
  {
    assert a == (a + b)[..|a|] && b == (a + b)[|a|..];
    SubSlice(data, pos, a + b, 0, |a|);
    SubSlice(data, pos, a + b, |a|, |a + b|);
  }

  lemma ByteAt(data: seq<Byte>, pos: nat, b: Byte, rest: seq<Byte>)
    requires At(data, pos, [b] + rest)
    ensures pos < |data| && data[pos] == b && At(data, pos + 1, rest)
  {
    AtSplit(data, pos, [b], rest);
    assert data[pos..pos + 1][0] == b;
  }

  lemma UlebAt(data: seq<Byte>, pos: nat, v: U64)
    requires At(data, pos, EncodeUleb(v))
    ensures Uleb(data, pos) == Ok((v, pos + |EncodeUleb(v)|))
  {
    EncodeUlebClosed(v);
    DecodeClosed(data, pos, EncodeUleb(v));
    WrapSmall(v);
  }

  lemma SlebAt(data: seq<Byte>, pos: nat, v: I64)
    requires At(data, pos, EncodeSleb(v))
    ensures Sleb(data, pos) == Ok((v, pos + |EncodeSleb(v)|))
  {
    EncodeSlebClosed(v);
    DecodeClosed(data, pos, EncodeSleb(v));
    Signed64Inverse(v);
    WrapIdempotent(v);
  }

  lemma FixedAt(data: seq<Byte>, pos: nat, v: nat, n: nat)
    requires v < Pow2(8 * n) && At(data, pos, EncodeLe(v, n))
    ensures Fixed(data, pos, n) == Ok((v, pos + n))
  {
    LeRoundTrip(v, n);
  }

  // ---------- reads, as functions of the bytes and the position ----------

  function Fixed(data: seq<Byte>, pos: nat, n: nat): (r: Result<(nat, nat)>)
    ensures r.Ok? ==> r.value.1 == pos + n <= |data| && r.value.0 < Pow2(8 * n)
  {
    if pos + n > |data| then Err(Truncated) else Ok((Le(data[pos..pos + n]), pos + n))
  }

  function Skip(data: seq<Byte>, pos: nat, n: nat): (r: Result<nat>)
    ensures r.Ok? ==> r.value == pos + n <= |data|
  {
    if pos + n > |data| then Err(Truncated) else Ok(pos + n)
  }

  /** Where the NUL-terminated string at `pos` ends. */
  function StringEnd(data: seq<Byte>, pos: nat): (r: Result<nat>)
    ensures r.Ok? ==> pos <= r.value < |data| && data[r.value] == 0
    ensures r.Ok? ==> forall i :: pos <= i < r.value ==> data[i] != 0
    decreases |data| - pos
  {
    if pos >= |data| then Err(UnterminatedString)
    else if data[pos] == 0 then Ok(pos)
    else StringEnd(data, pos + 1)
  }

  // ---------- attribute forms ----------

  const FORM_ADDR := 0x01
  const FORM_BLOCK2 := 0x03
  const FORM_BLOCK4 := 0x04
  const FORM_DATA2 := 0x05
  const FORM_DATA4 := 0x06
  const FORM_DATA8 := 0x07
  const FORM_STRING := 0x08
  const FORM_BLOCK := 0x09
  const FORM_BLOCK1 := 0x0a
  const FORM_DATA1 := 0x0b
  const FORM_FLAG := 0x0c
  const FORM_SDATA := 0x0d
  const FORM_STRP := 0x0e
  const FORM_UDATA := 0x0f
  const FORM_REF_ADDR := 0x10
  const FORM_REF1 := 0x11
  const FORM_REF2 := 0x12
  const FORM_REF4 := 0x13
  const FORM_REF8 := 0x14
  const FORM_REF_UDATA := 0x15
  const FORM_INDIRECT := 0x16
  const FORM_SEC_OFFSET := 0x17
  const FORM_EXPRLOC := 0x18
  const FORM_FLAG_PRESENT := 0x19
  const FORM_REF_SIG8 := 0x20

  /** Size of the forms that the cursor knows and whose size does not depend on the data. */
  function FixedFormSize(form: nat): (r: Option<nat>)
  {
    if form == FORM_FLAG_PRESENT then Some(0)
    else if form == FORM_DATA1 || form == FORM_REF1 || form == FORM_FLAG then Some(1)
    else if form == FORM_DATA2 || form == FORM_REF2 then Some(2)
    else if form == FORM_DATA4 || form == FORM_REF4 || form == FORM_REF_ADDR || form == FORM_SEC_OFFSET
        || form == FORM_STRP then Some(4)
    else if form == FORM_DATA8 || form == FORM_ADDR then Some(8)
    else None
  }

  /** Width of the length field in front of a sized block. */
  function BlockLengthSize(form: nat): (r: Option<nat>)
  {
    if form == FORM_BLOCK1 then Some(1)
    else if form == FORM_BLOCK2 then Some(2)
    else if form == FORM_BLOCK4 then Some(4)
    else None
  }

  predicate IsTerminatedString(bs: seq<Byte>)
  {
    |bs| > 0 && bs[|bs| - 1] == 0 && forall i :: 0 <= i < |bs| - 1 ==> bs[i] != 0
  }

  /** The forms of section 7.5.4 that the cursor does not know. */
  predicate IsForgotten(form: nat) { form == FORM_REF8 || form == FORM_REF_SIG8 }

  /** A block of n bytes behind its length in w bytes. */
  predicate IsBlock(bs: seq<Byte>, w: nat) { |bs| >= w && |bs| == w + Le(bs[..w]) }

  /** The bytes of one attribute value of the given form, by the form's number in section 7.5.4 of DWARF 4. */
  predicate IsDirectPayload(form: nat, bs: seq<Byte>)
  {
    if form == 0x19 then |bs| == 0                                          // flag_present
    else if form in {0x0b, 0x0c, 0x11} then |bs| == 1                       // data1, flag, ref1
    else if form in {0x05, 0x12} then |bs| == 2                             // data2, ref2
    else if form in {0x06, 0x0e, 0x10, 0x13, 0x17} then |bs| == 4           // data4, strp, ref_addr, ref4, sec_offset
    else if form in {0x01, 0x07, 0x14, 0x20} then |bs| == 8                 // addr, data8, ref8, ref_sig8
    else if form in {0x0d, 0x0f, 0x15} then Closed(bs)                      // sdata, udata, ref_udata
    else if form == 0x0a then IsBlock(bs, 1)                                // block1
    else if form == 0x03 then IsBlock(bs, 2)                                // block2
    else if form == 0x04 then IsBlock(bs, 4)                                // block4
    else if form in {0x09, 0x18} then                                       // block, exprloc
      Uleb(bs, 0).Ok? && |bs| == Uleb(bs, 0).value.1 + Uleb(bs, 0).value.0
    else form == 0x08 && IsTerminatedString(bs)                             // string
  }

  /** An indirect value names its own form first. */
  predicate IsPayload(form: nat, bs: seq<Byte>)
    decreases |bs|
  {
    if form == FORM_INDIRECT then
      Uleb(bs, 0).Ok? && IsPayload(Uleb(bs, 0).value.0, bs[Uleb(bs, 0).value.1..])
    else IsDirectPayload(form, bs)
  }

  /** The form that a value has behind its indirections. */
  function ReachedForm(form: nat, bs: seq<Byte>): nat
    decreases |bs|
  {
    if form == FORM_INDIRECT && Uleb(bs, 0).Ok? then ReachedForm(Uleb(bs, 0).value.0, bs[Uleb(bs, 0).value.1..])
    else form
  }

  /** The cursor can skip the value. */
  predicate Skippable(form: nat, bs: seq<Byte>) { !IsForgotten(ReachedForm(form, bs)) }

  /** The position after an attribute value of the given form. */
  function DirectEnd(data: seq<Byte>, pos: nat, form: nat): (r: Result<nat>)
    ensures r.Ok? ==> pos <= r.value && (pos <= |data| ==> r.value <= |data|)
  {
    if FixedFormSize(form).Some? then InBounds(data, pos + FixedFormSize(form).value)
    else if form == FORM_SDATA then
      var v :- Sleb(data, pos);
      Ok(v.1)
    else if form == FORM_UDATA || form == FORM_REF_UDATA then
      var v :- Uleb(data, pos);
      Ok(v.1)
    else if BlockLengthSize(form).Some? then
      var v :- Fixed(data, pos, BlockLengthSize(form).value);
      InBounds(data, v.1 + v.0)
    else if form == FORM_BLOCK || form == FORM_EXPRLOC then
      var v :- Uleb(data, pos);
      InBounds(data, v.1 + v.0)
    else if form == FORM_STRING then
      var e := StringEnd(data, pos);
      if e.Ok? then Ok(e.value + 1) else Err(Undefined)
    else Err(UnknownForm)
  }

  function FormEnd(data: seq<Byte>, pos: nat, form: nat): (r: Result<nat>)
    ensures r.Ok? ==> pos <= r.value && (pos <= |data| ==> r.value <= |data|)
    decreases |data| - pos
  {
    if form == FORM_INDIRECT then
      var v :- Uleb(data, pos);
      FormEnd(data, v.1, v.0)
    else DirectEnd(data, pos, form)
  }

  /** The source moves past the end of the section unchecked here; the model stops instead. */
  function InBounds(data: seq<Byte>, pos: nat): (r: Result<nat>)
  {
    if pos <= |data| then Ok(pos) else Err(Undefined)
  }

  lemma SkipDirectPayload(data: seq<Byte>, pos: nat, form: nat, bs: seq<Byte>)
    requires IsDirectPayload(form, bs)
    requires pos + |bs| <= |data| && data[pos..pos + |bs|] == bs
    ensures DirectEnd(data, pos, form) == if IsForgotten(form) then Err(UnknownForm) else Ok(pos + |bs|)
  {
    if IsForgotten(form) || FixedFormSize(form).Some? {
    } else if form == FORM_SDATA || form == FORM_UDATA || form == FORM_REF_UDATA {
      DecodeClosed(data, pos, bs);
    } else if BlockLengthSize(form).Some? {
      var w := BlockLengthSize(form).value;
      SubSlice(data, pos, bs, 0, w);
      assert data[pos..pos + w] == bs[..w];
    } else if form == FORM_BLOCK || form == FORM_EXPRLOC {
      UlebEmbedded(data, pos, bs);
    } else {
      StringAt(data, pos, bs);
    }
  }

  /** A form that section 7.5.4 does not have is refused. */
  lemma OtherFormsRefused(data: seq<Byte>, pos: nat, form: nat)
    requires form !in {0x01, 0x03, 0x04, 0x05, 0x06, 0x07, 0x08, 0x09, 0x0a, 0x0b, 0x0c, 0x0d, 0x0e, 0x0f, 0x10, 0x11,
                       0x12, 0x13, 0x14, 0x15, 0x16, 0x17, 0x18, 0x19, 0x20}
    ensures FormEnd(data, pos, form) == Err(UnknownForm)
  {
    hide Uleb, Sleb;
  }

  /** Skipping a well-formed attribute value lands exactly after it, unless the form it reaches is one that the cursor
      does not know: then it fails. */
  lemma {:induction false} SkipPayload(data: seq<Byte>, pos: nat, form: nat, bs: seq<Byte>)
    requires IsPayload(form, bs)
    requires pos + |bs| <= |data| && data[pos..pos + |bs|] == bs
    ensures FormEnd(data, pos, form) == if Skippable(form, bs) then Ok(pos + |bs|) else Err(UnknownForm)
    decreases |bs|
  {
    hide Uleb, DirectEnd;
    if form == FORM_INDIRECT {
      UlebEmbedded(data, pos, bs);
      var (f, w) := Uleb(bs, 0).value;
      SubSlice(data, pos, bs, w, |bs|);
      SkipPayload(data, pos + w, f, bs[w..]);
    } else {
      SkipDirectPayload(data, pos, form, bs);
    }
  }

  lemma SliceSnoc(data: seq<Byte>, lo: nat, hi: nat)
    requires lo <= hi < |data|
    ensures data[lo..hi + 1] == data[lo..hi] + [data[hi]]
  {}

  lemma SubSlice(data: seq<Byte>, pos: nat, bs: seq<Byte>, lo: nat, hi: nat)
    requires pos + |bs| <= |data| && data[pos..pos + |bs|] == bs
    requires lo <= hi <= |bs|
    ensures data[pos + lo..pos + hi] == bs[lo..hi]
  {
    forall i | 0 <= i < hi - lo
      ensures data[pos + lo..pos + hi][i] == bs[lo..hi][i]
    {
      assert data[pos..pos + |bs|][lo + i] == data[pos + lo + i];
    }
  }

  lemma StringAt(data: seq<Byte>, pos: nat, bs: seq<Byte>)
    requires IsTerminatedString(bs)
    requires pos + |bs| <= |data| && data[pos..pos + |bs|] == bs
    ensures StringEnd(data, pos) == Ok(pos + |bs| - 1)
    decreases |bs|
  {
    assert data[pos] == bs[0];
    if |bs| > 1 {
      SubSlice(data, pos, bs, 1, |bs|);
      StringAt(data, pos + 1, bs[1..]);
    }
  }

  // ---------- the cursor itself ----------

  class Cursor {
    const data: seq<Byte>
    var pos: nat

    ghost predicate Valid()
      reads this
    {
      pos <= |data|
    }

    constructor (data: seq<Byte>, pos: nat)
      requires pos <= |data|
      ensures Valid() && this.data == data && this.pos == pos
    {
      this.data := data;
      this.pos := pos;
    }

    method Advance(n: nat) returns (r: Result<nat>)
      requires Valid()
      modifies this`pos
      ensures Valid() && r == Skip(data, old(pos), n)
      ensures pos == if r.Ok? then r.value else old(pos)
    {
      if n > |data| - pos { return Err(Truncated); }
      pos := pos + n;
      r := Ok(pos);
    }

    method FixedInt(n: nat) returns (r: Result<nat>)
      requires Valid()
      modifies this`pos
      ensures Valid()
      ensures var f := Fixed(data, old(pos), n);
              if f.Ok? then r == Ok(f.value.0) && pos == f.value.1 else r == Err(f.error) && pos == old(pos)
    {
      if n > |data| - pos { return Err(Truncated); }
      r := Ok(Le(data[pos..pos + n]));
      pos := pos + n;
    }

    /** The shift-and-or loop.  It reads at most ten bytes; the tenth contributes its lowest bit only. */
    method LebLoop() returns (r: Result<(U64, nat, Byte)>)
      requires Valid()
      modifies this`pos
      ensures Valid() && old(pos) <= pos
      ensures var n := Size(data, old(pos), 10);
              if n.Ok? then
                && pos == old(pos) + n.value
                && r == Ok((Wrap64(Magnitude(data[old(pos)..pos])), 7 * n.value, data[pos - 1]))
              else r == Err(n.error)
    {
      hide Wrap64, Magnitude, SignedMagnitude;
      MagnitudeOfNone();
      var res: U64, shift: nat, byte: Byte := 0, 0, 0;
      ghost var start, seen: seq<Byte> := pos, [];
      while true
        invariant Valid() && pos == start + |seen| && shift == 7 * |seen| && |seen| <= 10
        invariant seen == data[start..pos] && forall i :: start <= i < pos ==> data[i] >= 128
        invariant res == Wrap64(Magnitude(seen))
        decreases 10 - |seen|
      {
        SizeOfRun(data, start, |seen|, 10);
        if shift >= 64 { return Err(BadLeb128); }
        if pos >= |data| { return Err(Truncated); }
        byte := data[pos];
        SliceSnoc(data, start, pos);
        pos := pos + 1;
        var more;
        res, more := OrDigit(res, byte, shift, seen);
        shift, seen := shift + 7, seen + [byte];
        if !more { return Ok((res, shift, byte)); }
      }
    }

    /** Masks a byte, shifts it into place and tests its top bit. */
    static method OrDigit(res: U64, byte: Byte, shift: nat, ghost seen: seq<Byte>) returns (r: U64, more: bool)
      requires |seen| <= 9 && shift == 7 * |seen| && res == Wrap64(Magnitude(seen))
      ensures r == Wrap64(Magnitude(seen + [byte])) && more == (byte >= 128)
    {
      OrStep(seen, byte, res);
      TopBit(byte);
      r := Or(res, Shifted(And(byte, 0x7f), shift));
      more := And(byte, 0x80) != 0;
    }

    method Uleb128() returns (r: Result<U64>)
      requires Valid()
      modifies this`pos
      ensures Valid() && old(pos) <= pos
      ensures var u := Uleb(data, old(pos));
              if u.Ok? then r == Ok(u.value.0) && pos == u.value.1 else r == Err(u.error)
    {
      var loop := LebLoop();
      if loop.Err? { return Err(loop.error); }
      r := Ok(loop.value.0);
    }

    method Sleb128() returns (r: Result<I64>)
      requires Valid()
      modifies this`pos
      ensures Valid() && old(pos) <= pos
      ensures var s := Sleb(data, old(pos));
              if s.Ok? then r == Ok(s.value.0) && pos == s.value.1 else r == Err(s.error)
    {
      hide And, Or, Shifted, Magnitude, SignedMagnitude;
      var loop := LebLoop();
      if loop.Err? { return Err(loop.error); }
      var (res, shift, byte) := loop.value;
      SignStep(data[old(pos)..pos], res);
      if shift < 64 && And(byte, 0x40) != 0 {
        res := Or(res, Shifted(TWO64 - 1, shift));
      }
      r := Ok(Signed64(res));
    }

    method SkipForm(form: nat) returns (r: Result<nat>)
      requires Valid()
      modifies this`pos
      ensures Valid()
      ensures var s := FormEnd(data, old(pos), form);
              if s.Ok? then r == s && pos == s.value else r == Err(s.error)
      decreases |data| - pos
    {
      if FixedFormSize(form).Some? {
        r := MoveTo(pos + FixedFormSize(form).value);
      } else if form == FORM_SDATA {
        var v := Sleb128();
        r := if v.Ok? then Ok(pos) else Err(v.error);
      } else if form == FORM_UDATA || form == FORM_REF_UDATA {
        var v := Uleb128();
        r := if v.Ok? then Ok(pos) else Err(v.error);
      } else if BlockLengthSize(form).Some? {
        var v := FixedInt(BlockLengthSize(form).value);
        if v.Err? { return Err(v.error); }
        r := MoveTo(pos + v.value);
      } else if form == FORM_BLOCK || form == FORM_EXPRLOC {
        var v := Uleb128();
        if v.Err? { return Err(v.error); }
        r := MoveTo(pos + v.value);
      } else if form == FORM_STRING {
        while pos < |data| && data[pos] != 0
          invariant pos <= |data|
          invariant StringEnd(data, old(pos)) == StringEnd(data, pos)
        {
          pos := pos + 1;
        }
        r := MoveTo(pos + 1);
      } else if form == FORM_INDIRECT {
        var v := Uleb128();
        if v.Err? { return Err(v.error); }
        r := SkipForm(v.value);
      } else {
        r := Err(UnknownForm);
      }
    }

    method MoveTo(p: nat) returns (r: Result<nat>)
      requires Valid()
      modifies this`pos
      ensures Valid() && r == InBounds(data, p)
      ensures pos == if r.Ok? then p else old(pos)
    {
      if p > |data| { return Err(Undefined); }
      pos := p;
      r := Ok(p);
    }
  }

  // ---------- steps of the shift-and-or loop ----------

  /** A 64-bit left shift by less than 64. */
  function Shifted(x: U64, shift: nat): (r: U64) { Wrap64(x * Pow2(shift)) }

  lemma TopBit(b: Byte)
    ensures And(b, 0x80) == 0 <==> b < 128
  {
    assert Pow2(7) == 0x80 by { Pow2Small(); }
    TestBit(b, 7, 0x80, 0, b);
  }

  lemma LowBits(b: Byte)
    ensures And(b, 0x7f) == b % 128
  {
    assert Pow2(7) == 128 by { Pow2Small(); }
    AndMask(b, 7);
  }

  lemma SignBit(b: Byte)
    ensures And(b, 0x40) != 0 <==> b % 128 >= 64
  {
    assert Pow2(6) == 0x40 by { Pow2Small(); }
    TestBit(b, 6, 0x40, b / 128, b % 128);
  }

  /** Shifting a value into place multiplies it, up to the bits that fall off the top. */
  lemma ShiftedForm(x: U64, k: nat)
    requires k <= 64
    ensures Shifted(x, k) == (x % Pow2(64 - k)) * Pow2(k)
  {
    Pow2Sum(64 - k, k);
    Pow2Large();
    TruncatedProduct(x, Pow2(64 - k), Pow2(k), TWO64);
  }

  lemma TruncatedProduct(x: nat, a: int, b: int, m: int)
    requires a > 0 && b > 0 && a * b == m
    ensures (x * b) % m == (x % a) * b
  {
    var q, r := x / a, x % a;
    Factor(a, q, r, b);
    assert x * b == m * q + r * b;
    LessProduct(r, a, b);
    RemainderUnique(x * b, m, q, r * b);
  }

  lemma Factor(a: int, q: int, r: int, b: int)
    ensures (a * q + r) * b == (a * b) * q + r * b
  {
    assert (a * q) * b == (a * b) * q;
  }

  lemma LessProduct(r: int, a: int, b: int)
    requires 0 <= r < a && b > 0
    ensures 0 <= r * b < a * b && r * b + b <= a * b
  {
    NonNegativeProduct(a - r - 1, b);
    NonNegativeProduct(r, b);
    assert (a - r - 1) * b == a * b - r * b - b;
  }

  lemma MagnitudeOfNone()
    ensures Wrap64(Magnitude([])) == 0
  {}

  lemma NothingLost(bs: seq<Byte>, res: U64)
    requires |bs| <= 9 && res == Wrap64(Magnitude(bs))
    ensures res == Magnitude(bs) < Pow2(7 * |bs|)
  {
    hide Magnitude, Pow2;
    MagnitudeBound(bs);
    Pow2Monotone(7 * |bs|, 63);
    Pow2Large();
  }

  /** One iteration: or-ing the shifted digit in extends the magnitude by one byte. */
  lemma OrStep(bs: seq<Byte>, b: Byte, res: U64)
    requires |bs| <= 9 && res == Wrap64(Magnitude(bs))
    ensures Or(res, Shifted(And(b, 0x7f), 7 * |bs|)) == Wrap64(Magnitude(bs + [b]))
  {
    hide And, Or, Magnitude, Pow2;
    var k, d := 7 * |bs|, b % 128;
    var p, c := Pow2(k), d % Pow2(64 - k);
    NothingLost(bs, res);
    assert And(b, 0x7f) == d by { LowBits(b); }
    assert Shifted(d, k) == c * p by { ShiftedForm(d, k); }
    assert Or(res, c * p) == res + c * p by { OrShifted(res, c, k); }
    assert res + c * p == Wrap64(res + d * p) by {
      NonNegativeProduct(d, p);
      AddBelow(res, d * p, c * p, k, c);
    }
    assert Magnitude(bs + [b]) == res + d * p by { MagnitudeSnoc(bs, b); }
  }

  /** Adding a number below 2^k to a truncated multiple of 2^k does not wrap. */
  lemma AddBelow(low: nat, whole: nat, kept: nat, k: nat, c: nat)
    requires k <= 63 && low < Pow2(k) && c < Pow2(64 - k)
    requires kept == c * Pow2(k) == Wrap64(whole)
    ensures low + kept == Wrap64(low + whole)
  {
    assert low + kept < TWO64 by {
      hide *;
      Pow2Sum(64 - k, k);
      Pow2Large();
      LessProduct(c, Pow2(64 - k), Pow2(k));
    }
    hide Pow2;
    ModOfSum(low + kept, whole / TWO64, TWO64);
  }

  /** The final sign extension turns the magnitude into the signed magnitude. */
  lemma SignStep(bs: seq<Byte>, res: U64)
    requires 0 < |bs| <= 10 && res == Wrap64(Magnitude(bs))
    ensures var shift := 7 * |bs|;
            if shift < 64 && And(bs[|bs| - 1], 0x40) != 0
            then SignedAgrees(Or(res, Shifted(TWO64 - 1, shift)), bs)
            else SignedAgrees(res, bs)
  {
    SignBit(bs[|bs| - 1]);
    if bs[|bs| - 1] % 128 < 64 {
      WrapIdempotent(Magnitude(bs));
    } else if 7 * |bs| < 64 {
      ExtendShort(bs, res);
    } else {
      ExtendLong(bs, res);
    }
  }

  lemma ExtendShort(bs: seq<Byte>, res: U64)
    requires 0 < |bs| < 10 && res == Wrap64(Magnitude(bs)) && bs[|bs| - 1] % 128 >= 64
    ensures SignedAgrees(Or(res, Shifted(TWO64 - 1, 7 * |bs|)), bs)
  {
    var shift, m := 7 * |bs|, Magnitude(bs);
    var p := Pow2(shift);
    assert res == m < p <= TWO63 by {
      MagnitudeBound(bs);
      Pow2Monotone(shift, 63);
      Pow2Large();
    }
    OnesAbove(res, shift);
    ExtendedAgrees(bs, m, p);
  }

  lemma ExtendLong(bs: seq<Byte>, res: U64)
    requires |bs| == 10 && res == Wrap64(Magnitude(bs)) && bs[|bs| - 1] % 128 >= 64
    ensures SignedAgrees(res, bs)
  {
    var m := Magnitude(bs);
    assert SignedMagnitude(bs) == m + -64 * TWO64 by { Bound70(); }
    WrapIdempotent(m);
    Signed64Shift(m, -64);
  }

  lemma ExtendedAgrees(bs: seq<Byte>, m: nat, p: int)
    requires m < p <= TWO63 && SignedMagnitude(bs) == m - p
    ensures SignedAgrees(m + TWO64 - p, bs)
  {
    Signed64Shift(m - p, 1);
  }

  ghost predicate SignedAgrees(x: int, bs: seq<Byte>)
  {
    0 <= x < TWO64 && Signed64(x) == Signed64(SignedMagnitude(bs))
  }

  lemma OnesAbove(res: nat, shift: nat)
    requires shift < 64 && res < Pow2(shift)
    ensures Shifted(TWO64 - 1, shift) == TWO64 - Pow2(shift)
    ensures Or(res, TWO64 - Pow2(shift)) == res + TWO64 - Pow2(shift)
  {
    hide Or, Shifted;
    var a, b := Pow2(64 - shift), Pow2(shift);
    Pow2Large();
    Pow2Sum(64 - shift, shift);
    ShiftedForm(TWO64 - 1, shift);
    Ones(a, b);
    OrShifted(res, a - 1, shift);
  }

  lemma Ones(a: int, b: int)
    requires a > 0 && b > 0
    ensures (a * b - 1) % a == a - 1 && (a - 1) * b == a * b - b
  {
    assert a * b - 1 == a * (b - 1) + (a - 1);
    RemainderUnique(a * b - 1, a, b - 1, a - 1);
  }
}
