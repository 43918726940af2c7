/** Variable-length integers: what a byte string denotes, and the encoders of section 7.6 of DWARF 4. */
module Leb128 {
  import opened Results
  import opened Bits

  // ---------- what a LEB128 byte string denotes ----------

  /** The base-128 number written by the low seven bits of the bytes, least significant first. */
  function Magnitude(bs: seq<Byte>): (r: nat)
  {
    if bs == [] then 0 else bs[0] % 128 + 128 * Magnitude(bs[1..])
  }

  /** The signed reading: bit 6 of the last byte carries weight minus one. */
  function SignedMagnitude(bs: seq<Byte>): (r: int)
  {
    if bs != [] && bs[|bs| - 1] % 128 >= 64 then Magnitude(bs) - Pow2(7 * |bs|) else Magnitude(bs)
  }

  /** How many bytes the number at `pos` takes, when at most `budget` are allowed. */
  function Size(data: seq<Byte>, pos: nat, budget: nat): (r: Result<nat>)
    ensures r.Ok? ==> 0 < r.value <= budget && pos + r.value <= |data|
    decreases budget
  {
    if budget == 0 then Err(BadLeb128)
    else if pos >= |data| then Err(Truncated)
    else if data[pos] < 128 then Ok(1)
    else
      var n :- Size(data, pos + 1, budget - 1);
      Ok(n + 1)
  }

  /** The unsigned and signed 64-bit readings of the number at `pos`, with the position after it. */
  function Uleb(data: seq<Byte>, pos: nat): (r: Result<(U64, nat)>)
    ensures r.Ok? ==> pos < r.value.1 <= |data|
  {
    var n :- Size(data, pos, 10);
    Ok((Wrap64(Magnitude(data[pos..pos + n])), pos + n))
  }

  function Sleb(data: seq<Byte>, pos: nat): (r: Result<(I64, nat)>)
    ensures r.Ok? ==> pos < r.value.1 <= |data|
  {
    var n :- Size(data, pos, 10);
    Ok((Signed64(SignedMagnitude(data[pos..pos + n])), pos + n))
  }

  /** A decoded number never takes more than ten bytes: continuation bytes, then one closing byte. */
  lemma {:induction false} SizeShape(data: seq<Byte>, pos: nat, budget: nat)
    requires Size(data, pos, budget).Ok?
    ensures var n := Size(data, pos, budget).value;
            && n <= budget
            && data[pos + n - 1] < 128
            && forall i :: pos <= i < pos + n - 1 ==> data[i] >= 128
    decreases budget
  {
    if data[pos] >= 128 { SizeShape(data, pos + 1, budget - 1); }
  }

  /** A byte string that is one well-formed number: it ends where its first closing byte is. */
  predicate Closed(bs: seq<Byte>)
  {
    && 0 < |bs| <= 10
    && bs[|bs| - 1] < 128
    && forall i :: 0 <= i < |bs| - 1 ==> bs[i] >= 128
  }

  /** Decoding finds a closed string wherever it is embedded, and nothing after it matters. */
  lemma {:induction false} SizeOfClosed(data: seq<Byte>, pos: nat, len: nat, budget: nat)
    requires 0 < len <= budget && pos + len <= |data|
    requires data[pos + len - 1] < 128
    requires forall i :: pos <= i < pos + len - 1 ==> data[i] >= 128
    ensures Size(data, pos, budget) == Ok(len)
    decreases len
  {
    if len > 1 { SizeOfClosed(data, pos + 1, len - 1, budget - 1); }
  }

  function Prefixed(n: nat, r: Result<nat>): Result<nat>
  {
    match r
    case Ok(k) => Ok(n + k)
    case Err(e) => Err(e)
  }

  /** A run of continuation bytes can be counted first. */
  lemma {:induction false} SizeOfRun(data: seq<Byte>, pos: nat, n: nat, budget: nat)
    requires n <= budget && pos + n <= |data|
    requires forall i :: pos <= i < pos + n ==> data[i] >= 128
    ensures Size(data, pos, budget) == Prefixed(n, Size(data, pos + n, budget - n))
    decreases n
  {
    if n > 0 { SizeOfRun(data, pos + 1, n - 1, budget - 1); }
  }

  /** A number decodes the same way wherever its bytes are embedded. */
  lemma UlebEmbedded(data: seq<Byte>, pos: nat, bs: seq<Byte>)
    requires pos + |bs| <= |data| && data[pos..pos + |bs|] == bs
    requires Uleb(bs, 0).Ok?
    ensures Uleb(data, pos) == Ok((Uleb(bs, 0).value.0, pos + Uleb(bs, 0).value.1))
  {
    var n := Size(bs, 0, 10).value;
    SizeShape(bs, 0, 10);
    assert bs[0..n] == bs[..n];
    assert Closed(bs[..n]);
    assert data[pos..pos + n] == data[pos..pos + |bs|][..n];
    DecodeClosed(data, pos, bs[..n]);
  }

  lemma DecodeClosed(data: seq<Byte>, pos: nat, bs: seq<Byte>)
    requires Closed(bs) && pos + |bs| <= |data| && data[pos..pos + |bs|] == bs
    ensures Uleb(data, pos) == Ok((Wrap64(Magnitude(bs)), pos + |bs|))
    ensures Sleb(data, pos) == Ok((Signed64(SignedMagnitude(bs)), pos + |bs|))
  {
    forall i | 0 <= i < |bs|
      ensures data[pos + i] == bs[i]
    {
      assert data[pos..pos + |bs|][i] == data[pos + i];
    }
    forall i | pos <= i < pos + |bs| - 1
      ensures data[i] >= 128
    {
      assert data[pos + (i - pos)] == bs[i - pos];
    }
    SizeOfClosed(data, pos, |bs|, 10);
  }

  // ---------- arithmetic of magnitudes ----------

  lemma {:induction false} MagnitudeSnoc(bs: seq<Byte>, b: Byte)
    ensures Magnitude(bs + [b]) == Magnitude(bs) + (b % 128) * Pow2(7 * |bs|)
  {
    if bs == [] {
      assert Magnitude([b]) == b % 128 + 128 * Magnitude([b][1..]);
    } else {
      assert (bs + [b])[1..] == bs[1..] + [b];
      MagnitudeSnoc(bs[1..], b);
      var k := 7 * (|bs| - 1);
      Pow2Small();
      Pow2Sum(k, 7);
      assert 128 * ((b % 128) * Pow2(k)) == (b % 128) * Pow2(7 * |bs|);
    }
  }

  lemma {:induction false} MagnitudeBound(bs: seq<Byte>)
    ensures Magnitude(bs) < Pow2(7 * |bs|)
  {
    if bs != [] {
      MagnitudeBound(bs[1..]);
      Pow2Small();
      Pow2Sum(7 * (|bs| - 1), 7);
    }
  }

  // ---------- the standard's encoders and the round trips ----------

  function EncodeUleb(v: nat): (bs: seq<Byte>)
    ensures |bs| > 0
  {
    if v < 128 then [v] else [v % 128 + 128] + EncodeUleb(v / 128)
  }

  function EncodeSleb(v: int): (bs: seq<Byte>)
    ensures |bs| > 0
    decreases if v < 0 then -v else v
  {
    if -64 <= v < 64 then [v % 128] else [v % 128 + 128] + EncodeSleb(v / 128)
  }

  lemma {:induction false} EncodeUlebShape(v: nat, n: nat)
    requires n > 0 && v < Pow2(7 * n)
    ensures var bs := EncodeUleb(v);
            && |bs| <= n && bs[|bs| - 1] < 128
            && (forall i :: 0 <= i < |bs| - 1 ==> bs[i] >= 128)
            && Magnitude(bs) == v
    decreases n
  {
    Pow2Small();
    var bs := EncodeUleb(v);
    if v < 128 {
      assert bs == [v];
      assert Magnitude(bs[1..]) == 0;
    } else {
      if n == 1 { assert false; }
      Pow2Sum(7 * (n - 1), 7);
      EncodeUlebShape(v / 128, n - 1);
      assert bs[1..] == EncodeUleb(v / 128);
      assert bs[|bs| - 1] == bs[1..][|bs| - 2];
    }
  }

  lemma EncodeUlebClosed(v: U64)
    ensures Closed(EncodeUleb(v)) && Magnitude(EncodeUleb(v)) == v
  {
    Bound70();
    EncodeUlebShape(v, 10);
  }

  lemma MiddleSlice(pre: seq<Byte>, bs: seq<Byte>, post: seq<Byte>)
    ensures (pre + bs + post)[|pre|..|pre| + |bs|] == bs
  {}

  /** Every unsigned 64-bit value survives encoding and decoding, whatever surrounds it. */
  lemma UlebRoundTrip(pre: seq<Byte>, v: U64, post: seq<Byte>)
    ensures |EncodeUleb(v)| <= 10
    ensures Uleb(pre + EncodeUleb(v) + post, |pre|) == Ok((v, |pre| + |EncodeUleb(v)|))
  {
    hide EncodeUleb, Magnitude, Size, Closed, Pow2;
    EncodeUlebClosed(v);
    MiddleSlice(pre, EncodeUleb(v), post);
    DecodeClosed(pre + EncodeUleb(v) + post, |pre|, EncodeUleb(v));
    WrapSmall(v);
  }

  lemma Bound70()
    ensures Pow2(7 * 10) == 64 * TWO64
    ensures Pow2(7 * 10 - 1) == 64 * TWO63
  {
    Pow2Small();
    Pow2Large();
    Pow2Sum(64, 6);
    Pow2Sum(63, 6);
  }

  lemma SignedMagnitudeCons(b: Byte, bs: seq<Byte>)
    requires bs != []
    ensures SignedMagnitude([b] + bs) == b % 128 + 128 * SignedMagnitude(bs)
  {
    var all := [b] + bs;
    assert all[1..] == bs && all[|all| - 1] == bs[|bs| - 1];
    Pow2Small();
    Pow2Sum(7 * |bs|, 7);
  }

  lemma SignedMagnitudeOne(b: Byte)
    ensures SignedMagnitude([b]) == if b % 128 < 64 then b % 128 else b % 128 - 128
  {
    Pow2Small();
    assert Magnitude([b][1..]) == 0;
  }

  lemma SlebBound(v: int, n: nat)
    requires n > 0 && -Pow2(7 * n - 1) <= v < Pow2(7 * n - 1) && !(-64 <= v < 64)
    ensures n > 1 && -Pow2(7 * (n - 1) - 1) <= v / 128 < Pow2(7 * (n - 1) - 1)
  {
    Pow2Small();
    if n == 1 { assert false; }
    Pow2Sum(7 * (n - 1) - 1, 7);
  }

  lemma {:induction false} EncodeSlebShape(v: int, n: nat)
    requires n > 0 && -Pow2(7 * n - 1) <= v < Pow2(7 * n - 1)
    ensures var bs := EncodeSleb(v);
            && |bs| <= n && bs[|bs| - 1] < 128
            && (forall i :: 0 <= i < |bs| - 1 ==> bs[i] >= 128)
            && SignedMagnitude(bs) == v
    decreases n
  {
    hide Pow2, SignedMagnitude;
    if -64 <= v < 64 {
      SignedMagnitudeOne(v % 128);
    } else {
      SlebBound(v, n);
      EncodeSlebShape(v / 128, n - 1);
      SignedMagnitudeCons(v % 128 + 128, EncodeSleb(v / 128));
    }
  }

  lemma EncodeSlebClosed(v: I64)
    ensures Closed(EncodeSleb(v)) && SignedMagnitude(EncodeSleb(v)) == v
  {
    Bound70();
    EncodeSlebShape(v, 10);
  }

  /** Every signed 64-bit value survives encoding and decoding, whatever surrounds it. */
  lemma SlebRoundTrip(pre: seq<Byte>, v: I64, post: seq<Byte>)
    ensures |EncodeSleb(v)| <= 10
    ensures Sleb(pre + EncodeSleb(v) + post, |pre|) == Ok((v, |pre| + |EncodeSleb(v)|))
  {
    EncodeSlebClosed(v);
    MiddleSlice(pre, EncodeSleb(v), post);
    DecodeClosed(pre + EncodeSleb(v) + post, |pre|, EncodeSleb(v));
    Signed64Inverse(v);
    WrapIdempotent(v);
  }
}
