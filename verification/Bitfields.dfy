/** Copying bits between byte buffers, and reading bit-field members with it. */
module Bitfields {
  import opened Results
  import opened Bits
  import opened Cursors

  /** Bit number k of a byte string, counting from the low bit of the first byte. */
  function BitOf(bs: seq<Byte>, k: nat): nat
    requires k < 8 * |bs|
  {
    Bit(bs[k / 8], k % 8)
  }

  // ---------- one bit of a byte ----------

  /** x & ~2^j, then | 2^j if v is set. */
  function Assigned(x: nat, j: nat, v: bool): nat
  {
    var cleared := x - And(x, Pow2(j));
    if v then Or(cleared, Pow2(j)) else cleared
  }

  lemma {:induction false} BitCleared(x: nat, j: nat, k: nat)
    ensures Bit(x - And(x, Pow2(j)), k) == if k == j then 0 else Bit(x, k)
    decreases j
  {
    hide And, Pow2;
    if j == 0 {
      AndOne(x);
      assert x - And(x, Pow2(0)) == 2 * (x / 2);
      if k > 0 { assert (x - And(x, Pow2(0))) / 2 == x / 2; }
    } else {
      AndStep(x, j);
      var y := x / 2 - And(x / 2, Pow2(j - 1));
      assert x - And(x, Pow2(j)) == 2 * y + x % 2;
      if k > 0 {
        assert (x - And(x, Pow2(j))) / 2 == y;
        BitCleared(x / 2, j - 1, k - 1);
      }
    }
  }

  lemma AndOne(x: nat)
    ensures And(x, Pow2(0)) == x % 2
  {
    assert And(x, 1) == x % 2;
  }

  lemma AndStep(x: nat, j: nat)
    requires j > 0
    ensures And(x, Pow2(j)) == 2 * And(x / 2, Pow2(j - 1))
  {
    assert Pow2(j) / 2 == Pow2(j - 1) && Pow2(j) % 2 == 0;
  }

  /** Assigning a bit of a byte changes that bit alone, and the result is a byte. */
  lemma AssignedBit(x: Byte, j: nat, v: bool, k: nat)
    requires j < 8
    ensures Assigned(x, j, v) < 256
    ensures Bit(Assigned(x, j, v), k) == if k == j then (if v then 1 else 0) else Bit(x, k)
  {
    hide And, Or, Bit;
    var cleared := x - And(x, Pow2(j));
    BitCleared(x, j, k);
    assert Pow2(8) == 256 by { Pow2Small(); }
    assert Pow2(j) < 256 by { Pow2Monotone(j, 7); Pow2Small(); }
    if v {
      BitOr(cleared, Pow2(j), k);
      BitPow2(j, k);
      OrXorBound(cleared, Pow2(j), 8);
    }
  }

  /** Testing a source bit with a mask. */
  lemma MaskTests(x: nat, j: nat)
    ensures And(x, Pow2(j)) != 0 <==> Bit(x, j) == 1
  {
    AndPow2(x, j);
  }

  // ---------- memcpy_bits ----------

  /** What copying n bits makes of bit k of the destination. */
  function Copied(dest: seq<Byte>, d: nat, src: seq<Byte>, s: nat, n: nat, k: nat): nat
    requires k < 8 * |dest| && s + n <= 8 * |src|
  {
    if d <= k < d + n then BitOf(src, s + (k - d)) else BitOf(dest, k)
  }

  /** Sets destination bits [d, d + n) to source bits [s, s + n), and no others. */
  method CopyBits(dest: array<Byte>, d: U32, src: seq<Byte>, s: U32, n: U32)
    requires d + n <= 8 * dest.Length && s + n <= 8 * |src| && d + n < TWO32 && s + n < TWO32
    modifies dest
    ensures forall k: nat :: k < 8 * dest.Length ==> BitOf(dest[..], k) == Copied(old(dest[..]), d, src, s, n, k)
  {
    hide Bit, And, Or, Pow2, BitOf, Assigned;
    ghost var was := dest[..];
    var left, at, from := n, d, s;
    while left > 0
      invariant 0 <= left <= n && at == d + (n - left) && from == s + (n - left)
      invariant forall k: nat :: k < 8 * dest.Length ==> BitOf(dest[..], k) == Copied(was, d, src, s, n - left, k)
    {
      ghost var before := dest[..];
      ghost var v := BitOf(src, from) == 1;
      AssignStep(before[at / 8], at % 8, src, from);
      var mask := Pow2(at % 8);
      dest[at / 8] := dest[at / 8] - And(dest[at / 8], mask);
      if And(src[from / 8], Pow2(from % 8)) != 0 {
        dest[at / 8] := Or(dest[at / 8], mask);
      }
      assert dest[..] == before[at / 8 := Assigned(before[at / 8], at % 8, v)]
          by { AssignedCases(before[at / 8], at % 8, v); }
      forall k: nat | k < 8 * dest.Length
        ensures BitOf(dest[..], k) == Copied(was, d, src, s, n - left + 1, k)
      {
        BitAssigned(before, at, v, k);
        BitIsBinary(src, from);
      }
      left, at, from := left - 1, at + 1, from + 1;
    }
  }

  lemma AssignedCases(x: Byte, j: nat, v: bool)
    ensures Assigned(x, j, v) == if v then Or(x - And(x, Pow2(j)), Pow2(j)) else x - And(x, Pow2(j))
  {}

  lemma BitIsBinary(bs: seq<Byte>, k: nat)
    requires k < 8 * |bs|
    ensures BitOf(bs, k) == 0 || BitOf(bs, k) == 1
  {}

  /** The masks of one step do what assigning the bit does, within a byte. */
  lemma AssignStep(x: Byte, j: nat, src: seq<Byte>, from: nat)
    requires j < 8 && from < 8 * |src|
    ensures And(src[from / 8], Pow2(from % 8)) != 0 <==> BitOf(src, from) == 1
    ensures And(x, Pow2(j)) <= x && Or(x - And(x, Pow2(j)), Pow2(j)) < 256
  {
    hide And, Or, Bit;
    MaskTests(src[from / 8], from % 8);
    AssignedBit(x, j, true, j);
  }

  /** Assigning one bit of a byte string. */
  lemma BitAssigned(bs: seq<Byte>, at: nat, v: bool, k: nat)
    requires at < 8 * |bs| && k < 8 * |bs|
    ensures Assigned(bs[at / 8], at % 8, v) < 256
    ensures BitOf(bs[at / 8 := Assigned(bs[at / 8], at % 8, v)], k) == if k == at then (if v then 1 else 0)
              else BitOf(bs, k)
  {
    hide Bit, Assigned;
    AssignedBit(bs[at / 8], at % 8, v, k % 8);
    if k / 8 == at / 8 && k % 8 == at % 8 { assert k == at; }
  }

  // ---------- bits and little-endian integers ----------

  /** The bits of a byte string are the bits of the integer it stores. */
  lemma {:induction false} LeBits(bs: seq<Byte>, k: nat)
    ensures Bit(Le(bs), k) == if k < 8 * |bs| then BitOf(bs, k) else 0
    decreases |bs|
  {
    if bs == [] {
      BitZero(k);
    } else {
      var low, high := bs[0], Le(bs[1..]);
      assert Le(bs) == low + 256 * high;
      if k < 8 {
        LowByte(low, high, k);
      } else {
        HighBits(low, high, k - 8);
        LeBits(bs[1..], k - 8);
        if k < 8 * |bs| {
          assert k / 8 == (k - 8) / 8 + 1 && k % 8 == (k - 8) % 8;
          assert bs[k / 8] == bs[1..][(k - 8) / 8];
        }
      }
    }
  }

  lemma LowByte(low: Byte, high: nat, k: nat)
    requires k < 8
    ensures Bit(low + 256 * high, k) == Bit(low, k)
  {
    hide Bit;
    ModularBits(low, high, 8, k);
    Pow2Small();
  }

  lemma HighBits(low: Byte, high: nat, k: nat)
    ensures Bit(low + 256 * high, k + 8) == Bit(high, k)
  {
    hide Bit;
    Pow2Small();
    ShiftedBits(low, high, 8, k);
  }

  lemma Division(x: nat, d: int)
    requires d > 0
    ensures x / d >= 0 && 0 <= x % d < d && x == x % d + d * (x / d)
  {}

  /** floor(x / 2^s) mod 2^n */
  function Extracted(x: nat, s: nat, n: nat): (r: nat)
    ensures r < Pow2(n)
  {
    Division(x, Pow2(s));
    Division(x / Pow2(s), Pow2(n));
    x / Pow2(s) % Pow2(n)
  }

  lemma ExtractedBits(x: nat, s: nat, n: nat, k: nat)
    ensures Bit(Extracted(x, s, n), k) == if k < n then Bit(x, k + s) else 0
  {
    hide Bit, Pow2;
    Division(x, Pow2(s));
    Division(x / Pow2(s), Pow2(n));
    PartsBits(x, s, n, k, x / Pow2(s), x % Pow2(s), x / Pow2(s) / Pow2(n), x / Pow2(s) % Pow2(n));
  }

  lemma PartsBits(x: nat, s: nat, n: nat, k: nat, q: nat, low: nat, high: nat, r: nat)
    requires low < Pow2(s) && x == low + Pow2(s) * q && r < Pow2(n) && q == r + Pow2(n) * high
    ensures Bit(r, k) == if k < n then Bit(x, k + s) else 0
  {
    hide Bit, Pow2;
    ShiftedBits(low, q, s, k);
    if k < n { ModularBits(r, high, n, k); } else { BitAbove(r, n, k); }
  }

  lemma {:induction false} BitAbove(x: nat, n: nat, k: nat)
    requires x < Pow2(n) && n <= k
    ensures Bit(x, k) == 0
    decreases n
  {
    if n == 0 { BitZero(k); } else { BitAbove(x / 2, n - 1, k - 1); }
  }

  // ---------- bit-field members ----------

  /** The attributes of a member that say where its bits are. */
  datatype MemberBits = MemberBits(bitSize: nat, byteSize: Option<nat>, bitOffset: Option<nat>,
      dataBitOffset: Option<nat>)

  datatype Info = Info(bitSize: nat, storage: nat, bitOffset: Byte)

  /** get_bitfield_information: the offset is kept in eight bits. */
  function BitfieldInfo(m: MemberBits, classSize: nat): Option<Info>
  {
    if m.bitOffset.None? && m.dataBitOffset.None? then None
    else
      var storage := if m.byteSize.Some? then m.byteSize.value else classSize;
      var offset :=
        if m.dataBitOffset.Some? then m.dataBitOffset.value % 8
        else (storage * 8 - m.bitOffset.value - m.bitSize) % 256;
      Some(Info(m.bitSize, storage, offset))
  }

  /** fixup_bitfield: the member's bits, moved to the bottom of fresh storage, are the field of the stored integer. */
  method FixupBitfield(data: seq<Byte>, info: Info) returns (fixed: array<Byte>)
    requires info.bitSize <= 8 * info.storage && info.bitOffset + info.bitSize <= 8 * |data|
    requires info.bitOffset + info.bitSize < TWO32
    ensures fresh(fixed) && fixed.Length == info.storage
    ensures Le(fixed[..]) == Extracted(Le(data), info.bitOffset, info.bitSize)
  {
    hide BitOf, Bit, Le, Extracted;
    fixed := new Byte[info.storage](_ => 0);
    ghost var zeros := fixed[..];
    CopyBits(fixed, 0, data, info.bitOffset, info.bitSize);
    forall k: nat
      ensures Bit(Le(fixed[..]), k) == Bit(Extracted(Le(data), info.bitOffset, info.bitSize), k)
    {
      LeBits(fixed[..], k);
      LeBits(data, k + info.bitOffset);
      ExtractedBits(Le(data), info.bitOffset, info.bitSize, k);
      if k < 8 * info.storage { BitOfZeros(zeros, k); }
    }
    Pow2Monotone(info.bitSize, 8 * info.storage);
    BitsDetermine(Le(fixed[..]), Extracted(Le(data), info.bitOffset, info.bitSize), 8 * info.storage);
  }

  lemma BitOfZeros(bs: seq<Byte>, k: nat)
    requires k < 8 * |bs| && forall i :: 0 <= i < |bs| ==> bs[i] == 0
    ensures BitOf(bs, k) == 0
  {
    BitZero(k % 8);
  }

  /** An offset counted from the top of the storage unit, as DW_AT_bit_offset is, survives the eight bits exactly when
      there are fewer than 256 bits below the field. */
  lemma OffsetFromTop(m: MemberBits, classSize: nat)
    requires m.bitOffset.Some? && m.dataBitOffset.None?
    requires var storage := if m.byteSize.Some? then m.byteSize.value else classSize;
             m.bitOffset.value + m.bitSize <= 8 * storage
    ensures var info := BitfieldInfo(m, classSize).value;
            info.bitOffset == 8 * info.storage - m.bitOffset.value - m.bitSize
            <==> 8 * info.storage - m.bitOffset.value - m.bitSize < 256
  {}

  /** The top bit of a forty-byte unit: the code looks at bit 63 instead, and finds it where only bit 63 is set. */
  lemma WideUnitMisread()
    ensures var m := MemberBits(1, Some(40), Some(0), None);
            var info := BitfieldInfo(m, 40).value;
            && 8 * info.storage - m.bitOffset.value - m.bitSize == 319 && info.bitOffset == 63
            && Bit(Extracted(Pow2(63), 63, 1), 0) == 1 && Bit(Extracted(Pow2(63), 319, 1), 0) == 0
  {
    hide Bit, Extracted, Pow2;
    ExtractedBits(Pow2(63), 63, 1, 0);
    ExtractedBits(Pow2(63), 319, 1, 0);
    BitPow2(63, 63);
    BitPow2(63, 319);
  }

  // ---------- members of an object ----------

  /** Taking bytes out of an object shifts its bits. */
  lemma SliceBits(whole: seq<Byte>, at: nat, n: nat, k: nat)
    requires at + n <= |whole| && k < 8 * n
    ensures Bit(Le(whole[at..at + n]), k) == Bit(Le(whole), 8 * at + k)
  {
    hide Bit, Le;
    LeBits(whole[at..at + n], k);
    LeBits(whole, 8 * at + k);
    assert (8 * at + k) / 8 == at + k / 8 && (8 * at + k) % 8 == k % 8;
  }

  /** Bits of a slice are bits of the object. */
  lemma ExtractedFromSlice(whole: seq<Byte>, at: nat, n: nat, s: nat, size: nat)
    requires at + n <= |whole| && s + size <= 8 * n
    ensures Extracted(Le(whole[at..at + n]), s, size) == Extracted(Le(whole), 8 * at + s, size)
  {
    hide Bit, Le, Extracted;
    var a, b := Extracted(Le(whole[at..at + n]), s, size), Extracted(Le(whole), 8 * at + s, size);
    forall k: nat | k < size
      ensures Bit(a, k) == Bit(b, k)
    {
      ExtractedBits(Le(whole[at..at + n]), s, size, k);
      ExtractedBits(Le(whole), 8 * at + s, size, k);
      SliceBits(whole, at, n, s + k);
    }
    BitsDetermine(a, b, size);
  }

  /** The bits that a member's own bytes hold reach to its end. */
  predicate MemberInBounds(m: MemberBits, typeSize: nat)
  {
    match BitfieldInfo(m, typeSize)
    case None => true
    case Some(info) => info.bitSize <= 8 * info.storage && info.bitOffset + info.bitSize <= 8 * typeSize
  }

  /** read_member: as many bytes as the member's type has, from the byte the member starts in, and its bits out of them.
      Where that reads past those bytes, or past the whole, the model stops. */
  method ReadMember(whole: seq<Byte>, m: MemberBits, location: Option<nat>, typeSize: nat)
      returns (r: Result<seq<Byte>>)
    requires location.Some? || m.dataBitOffset.Some?
    requires m.bitSize + 256 < TWO32
    ensures var at := if location.Some? then location.value else m.dataBitOffset.value / 8;
            r.Ok? <==> at + typeSize <= |whole| && MemberInBounds(m, typeSize)
    ensures r.Ok? && BitfieldInfo(m, typeSize).None? ==>
              r.value == whole[location.value..location.value + typeSize]
    ensures r.Ok? && BitfieldInfo(m, typeSize).Some? ==>
              var at := if location.Some? then location.value else m.dataBitOffset.value / 8;
              var (offset, n) := (BitfieldInfo(m, typeSize).value.bitOffset, BitfieldInfo(m, typeSize).value.storage);
              |r.value| == n && Le(r.value) == Extracted(Le(whole), 8 * at + offset, m.bitSize)
    ensures r.Ok? && location.None? ==> Le(r.value) == Extracted(Le(whole), m.dataBitOffset.value, m.bitSize)
  {
    hide Le, Extracted;
    var at := if location.Some? then location.value else m.dataBitOffset.value / 8;
    if at + typeSize > |whole| { return Err(Undefined); }
    var data := whole[at..at + typeSize];
    var info := BitfieldInfo(m, typeSize);
    if info.None? { return Ok(data); }
    if !MemberInBounds(m, typeSize) { return Err(Undefined); }
    var fixed := FixupBitfield(data, info.value);
    ExtractedFromSlice(whole, at, typeSize, info.value.bitOffset, info.value.bitSize);
    if location.None? { assert 8 * at + info.value.bitOffset == m.dataBitOffset.value; }
    r := Ok(fixed[..]);
  }

  /** A member placed by DW_AT_data_bit_offset is in bounds exactly when it ends inside a unit of its type that starts
      at its own first byte.  A packed 32-bit field at bit 4 does not. */
  lemma PackedInBoundsIff(m: MemberBits, typeSize: nat)
    requires m.dataBitOffset.Some? && m.byteSize.None?
    ensures MemberInBounds(m, typeSize) <==> m.dataBitOffset.value % 8 + m.bitSize <= 8 * typeSize
    ensures !MemberInBounds(MemberBits(32, None, None, Some(4)), 4)
  {}
}
