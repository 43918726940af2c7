/** A called function's side of a call: from the types of its parameters alone it knows where each of them is. */
module Parameters {
  import opened Results
  import opened Bits
  import opened Cursors
  import opened Memory
  import opened HomogeneousAggregates
  import opened Aapcs

  // ---------- where parameters are, by their types ----------

  /** What a parameter's type says; `hfa` is there for a homogeneous aggregate. */
  datatype Param = Param(size: nat, reference: bool, hfa: Option<Hfa>, alignment: nat)

  function TypeOf(a: Arg): Param { Param(a.size, a.reference, a.hfa, a.alignment) }

  function TypesOf(args: seq<Arg>): (ts: seq<Param>)
    ensures |ts| == |args| && forall i :: 0 <= i < |args| ==> ts[i] == TypeOf(args[i])
  {
    seq(|args|, i requires 0 <= i < |args| => TypeOf(args[i]))
  }

  /** A reference is the address of what it refers to. */
  function OwnBytes(t: Param): nat { if t.reference then 8 else t.size }

  /** A parameter that is larger than sixteen bytes and not a homogeneous aggregate is behind a pointer. */
  predicate Behind(t: Param) { t.hfa.None? && OwnBytes(t) > 16 }

  /** How many eight-byte words hold n bytes. */
  function Eightbytes(n: nat): nat { if n == 0 then 0 else if n <= 8 then 1 else 1 + Eightbytes(n - 8) }

  function WordsNeeded(t: Param): nat
  {
    if t.hfa.Some? then 0 else if Behind(t) then 1 else Eightbytes(OwnBytes(t))
  }

  function VectorsNeeded(t: Param): nat { if t.hfa.Some? then |t.hfa.value.offsets| else 0 }

  /** The general registers that the parameters before number i are in: each takes what it needs if that is left. */
  function XTaken(ts: seq<Param>, i: nat): (k: nat)
    requires i <= |ts|
    ensures k <= 8
  {
    if i == 0 then 0
    else
      var k := XTaken(ts, i - 1) + WordsNeeded(ts[i - 1]);
      if k <= 8 then k else XTaken(ts, i - 1)
  }

  function VTaken(ts: seq<Param>, i: nat): (k: nat)
    requires i <= |ts|
    ensures k <= 8
  {
    if i == 0 then 0
    else
      var k := VTaken(ts, i - 1) + VectorsNeeded(ts[i - 1]);
      if k <= 8 then k else VTaken(ts, i - 1)
  }

  /** Too few registers of its kind are left. */
  predicate OnStack(ts: seq<Param>, i: nat)
    requires i < |ts|
  {
    if ts[i].hfa.Some? then VTaken(ts, i) + VectorsNeeded(ts[i]) > 8 else XTaken(ts, i) + WordsNeeded(ts[i]) > 8
  }

  function StackBytes(t: Param): nat { if Behind(t) then 8 else OwnBytes(t) }

  /** A type's alignment, but at most sixteen. */
  function StackAlignment(t: Param): Alignment
  {
    if t.alignment >= 16 then 16 else if t.alignment >= 8 then 8 else if t.alignment >= 4 then 4
    else if t.alignment >= 2 then 2 else 1
  }

  /** The end of the stack area of the parameters before number i, and where parameter i is in it, if it is there. */
  function StackEnd(ts: seq<Param>, i: nat): nat
    requires i <= |ts|
    decreases i, 0
  {
    if i == 0 then 0
    else if OnStack(ts, i - 1) then StackOffset(ts, i - 1) + StackBytes(ts[i - 1])
    else StackEnd(ts, i - 1)
  }

  function StackOffset(ts: seq<Param>, i: nat): nat
    requires i < |ts|
    decreases i, 1
  {
    Align(StackEnd(ts, i), StackAlignment(ts[i]))
  }

  function Bytes(m: Memory.Bytes, at: nat, n: nat): Option<seq<Byte>>
  {
    if Covered(m, at, n) then Some(Loaded(m, at, n)) else None
  }

  function LoadedWord(m: Memory.Bytes, at: nat): Option<nat>
  {
    if Covered(m, at, 8) then Some(Le(Loaded(m, at, 8))) else None
  }

  /** The bytes of parameter i, found in the registers and in memory from the stack pointer up by the types alone. */
  function Receive(ts: seq<Param>, i: nat, x: seq<U64>, v: seq<seq<Byte>>, m: Memory.Bytes, sp: nat): Option<seq<Byte>>
    requires i < |ts| && |x| == 31 && |v| == 32 && VectorsWide(v)
    requires ts[i].hfa.Some? ==> Spaced(ts[i].hfa.value, ts[i].size)
  {
    var t := ts[i];
    if t.hfa.Some? then
      if OnStack(ts, i) then Bytes(m, sp + StackOffset(ts, i), t.size)
      else Some(Gathered(t.hfa.value, v[VTaken(ts, i)..], VectorsNeeded(t), t.size))
    else if Behind(t) then
      var pointer := if OnStack(ts, i) then LoadedWord(m, sp + StackOffset(ts, i)) else Some(x[XTaken(ts, i)]);
      if pointer.Some? then Bytes(m, pointer.value, t.size) else None
    else if OnStack(ts, i) then Bytes(m, sp + StackOffset(ts, i), OwnBytes(t))
    else Some(FromWords(x[XTaken(ts, i)..XTaken(ts, i) + WordsNeeded(t)], OwnBytes(t)))
  }

  /** The first n bytes of register words, lowest first. */
  function FromWords(words: seq<U64>, n: nat): seq<Byte>
    requires Eightbytes(n) == |words|
  {
    if n <= 8 then EncodeLe(if n == 0 then 0 else words[0], n) else EncodeLe(words[0], 8) + FromWords(words[1..], n - 8)
  }

  // ---------- the debugger puts them there ----------

  /** The place of a parameter in the terms of the caller. */
  function Expected(ts: seq<Param>, i: nat): Place
    requires i < |ts|
  {
    var t := ts[i];
    if t.hfa.Some? then if OnStack(ts, i) then Stacked else Floats(VTaken(ts, i), VectorsNeeded(t))
    else if Behind(t) then if OnStack(ts, i) then PointerStacked else Pointer(XTaken(ts, i))
    else if OnStack(ts, i) then Stacked else Integers(XTaken(ts, i), WordsNeeded(t))
  }

  lemma {:induction false} EightbytesIs(n: nat)
    ensures Eightbytes(n) == (n + 7) / 8
  {
    if n > 8 { EightbytesIs(n - 8); }
  }

  /** An argument is where the sizes of the arguments up to it say: a homogeneous aggregate in one vector register for
      each element, any other behind a pointer exactly when it is larger than sixteen bytes, and otherwise in as few
      general registers as hold it; the first registers are the first ones not taken before; and on the stack exactly
      when too few are left. */
  lemma {:induction false} PlaceBySizes(args: seq<Arg>, i: nat)
    requires i <= |args|
    ensures var ts := TypesOf(args);
            && Used(args[..i]) == Counters(XTaken(ts, i), VTaken(ts, i))
            && (i < |args| ==> Aapcs.PlaceOf(args, i) == Expected(ts, i))
  {
    hide XTaken, VTaken, Choose, After, Expected, OnStack;
    if i > 0 {
      PlaceBySizes(args, i - 1);
      UsedNext(args, i - 1);
      ChosenBySizes(TypesOf(args), i - 1, args[i - 1]);
    } else {
      NoneTaken(TypesOf(args));
    }
    if i < |args| { ChosenBySizes(TypesOf(args), i, args[i]); }
  }

  lemma NoneTaken(ts: seq<Param>)
    ensures XTaken(ts, 0) == VTaken(ts, 0) == 0
  {}

  lemma ChosenBySizes(ts: seq<Param>, i: nat, a: Arg)
    requires i < |ts| && ts[i] == TypeOf(a)
    ensures var (u, v) := (Counters(XTaken(ts, i), VTaken(ts, i)), Counters(XTaken(ts, i + 1), VTaken(ts, i + 1)));
            Choose(a, u) == Expected(ts, i) && After(u, Choose(a, u)) == v
  {
    EightbytesIs(PassedSize(a));
    TakenNext(ts, i);
    hide XTaken, VTaken, Eightbytes;
  }

  lemma TakenNext(ts: seq<Param>, i: nat)
    requires i < |ts|
    ensures XTaken(ts, i + 1) == var k := XTaken(ts, i) + WordsNeeded(ts[i]); if k <= 8 then k else XTaken(ts, i)
    ensures VTaken(ts, i + 1) == var k := VTaken(ts, i) + VectorsNeeded(ts[i]); if k <= 8 then k else VTaken(ts, i)
  {}

  // ---------- and the called function finds them ----------

  lemma {:induction false} EncodePrefix(w: nat, n: nat, i: nat)
    requires i < n <= 8
    ensures EncodeLe(w, n)[i] == EncodeLe(w, 8)[i]
  {
    EncodeByte(w, n, i);
    EncodeByte(w, 8, i);
  }

  lemma {:induction false} EncodeByte(w: nat, n: nat, i: nat)
    requires i < n
    ensures EncodeLe(w, n)[i] == EncodeLe(w, i + 1)[i]
    decreases i
  {
    if i > 0 { EncodeByte(w / 256, n - 1, i - 1); }
  }

  lemma {:induction false} FromWordsIsUnpack(words: seq<U64>, n: nat)
    requires Eightbytes(n) == |words|
    ensures n <= 8 * |words| && FromWords(words, n) == Unpack(words, n)
    decreases n
  {
    EightbytesIs(n);
    hide EncodeLe;
    var bs := FromWords(words, n);
    if n > 8 { FromWordsIsUnpack(words[1..], n - 8); }
    forall i | 0 <= i < n
      ensures bs[i] == Unpack(words, n)[i]
    {
      if n <= 8 {
        EncodePrefix(words[0], n, i);
      } else if i >= 8 {
        assert bs[i] == FromWords(words[1..], n - 8)[i - 8];
        assert words[1..][(i - 8) / 8] == words[i / 8];
      }
    }
  }

  lemma {:induction false} ItemsPrefix(args: seq<Arg>, slots: seq<U64>, i: nat)
    requires |args| == |slots| && i <= |args| && AllWellFormed(args)
    ensures Items(args[..i], slots[..i]) <= Items(args, slots)
    decreases |args| - i
  {
    if i == |args| {
      assert args[..i] == args && slots[..i] == slots;
    } else {
      ItemsPrefix(args, slots, i + 1);
      assert slots[..i + 1] == slots[..i] + [slots[i]];
      ItemsNext(args, slots[..i], i, slots[i]);
    }
  }

  /** The caller's layout of the stack is the one the types give. */
  lemma {:induction false} StackBySizes(args: seq<Arg>, slots: seq<U64>, i: nat)
    requires |args| == |slots| && i <= |args| && AllWellFormed(args)
    ensures Top(Items(args[..i], slots[..i])) == StackEnd(TypesOf(args), i)
  {
    if i > 0 {
      StackBySizes(args, slots, i - 1);
      StackNext(args, slots, i - 1);
    }
  }

  lemma StackNext(args: seq<Arg>, slots: seq<U64>, n: nat)
    requires |args| == |slots| && n < |args| && AllWellFormed(args)
    requires Top(Items(args[..n], slots[..n])) == StackEnd(TypesOf(args), n)
    ensures Top(Items(args[..n + 1], slots[..n + 1])) == StackEnd(TypesOf(args), n + 1)
  {
    hide Top, ItemOf, Items, XTaken, VTaken, IsPow2;
    var ts, p := TypesOf(args), Aapcs.PlaceOf(args, n);
    EachWellFormed(args, n);
    PlaceBySizes(args, n);
    assert slots[..n + 1] == slots[..n] + [slots[n]];
    ItemsNext(args, slots[..n], n, slots[n]);
    var item := ItemOf(args[n], p, slots[n]);
    assert item.Some? <==> OnStack(ts, n) by { StackedHasItem(args[n], p, slots[n]); }
    if item.Some? {
      ItemBySizes(args[n], p, slots[n]);
      TopOfOneMore(Items(args[..n], slots[..n]), item.value);
    } else {
      assert Items(args[..n], slots[..n]) + [] == Items(args[..n], slots[..n]);
    }
  }

  lemma StackedHasItem(a: Arg, p: Place, slot: U64)
    requires WellFormed(a)
    ensures ItemOf(a, p, slot).Some? <==> p.Stacked? || p.PointerStacked?
  {}

  lemma TopOfOneMore(items: seq<StackValue>, item: StackValue)
    ensures Top(items + [item]) == Align(Top(items), item.alignment) + |item.bytes|
  {
    assert (items + [item])[..|items|] == items;
  }

  lemma ItemBySizes(a: Arg, p: Place, slot: U64)
    requires WellFormed(a) && (p.Stacked? || p.PointerStacked?)
    requires p.PointerStacked? <==> Behind(TypeOf(a))
    ensures var item := ItemOf(a, p, slot);
            && item.Some? && item.value.alignment == StackAlignment(TypeOf(a))
            && |item.value.bytes| == StackBytes(TypeOf(a))
  {
    hide IsPow2;
    ClampedAlignment(a.alignment);
  }

  /** Where an argument on the stack starts. */
  lemma StartBySizes(args: seq<Arg>, slots: seq<U64>, i: nat)
    requires |args| == |slots| && i < |args| && AllWellFormed(args) && OnStack(TypesOf(args), i)
    ensures StackIndex(args, slots, i) < |Items(args, slots)|
    ensures Start(Items(args, slots), StackIndex(args, slots, i)) == StackOffset(TypesOf(args), i)
  {
    hide ItemOf, Items, StackEnd;
    PlaceBySizes(args, i);
    ItemsPrefix(args, slots, i);
    StackBySizes(args, slots, i);
    assert WellFormed(args[i]) by { EachWellFormed(args, i); }
    ItemBySizes(args[i], Aapcs.PlaceOf(args, i), slots[i]);
    ItemAtIndex(args, slots, i);
    var items, k := Items(args, slots), StackIndex(args, slots, i);
    assert items[..k] == Items(args[..i], slots[..i]);
  }

  lemma EachWellFormed(args: seq<Arg>, i: nat)
    requires i < |args| && AllWellFormed(args)
    ensures WellFormed(args[i])
  {}

  /** What the types find is what the place holds. */
  lemma ReceiveIsFound(ts: seq<Param>, i: nat, x: seq<U64>, v: seq<seq<Byte>>, m: Memory.Bytes, sp: nat, at: nat)
    requires i < |ts| && |x| == 31 && |v| == 32 && VectorsWide(v)
    requires ts[i].hfa.Some? ==> Spaced(ts[i].hfa.value, ts[i].size) && !ts[i].reference
    requires OnStack(ts, i) ==> at == sp + StackOffset(ts, i)
    ensures Receive(ts, i, x, v, m, sp) == Found(Expected(ts, i), ts[i].hfa, OwnBytes(ts[i]), x, v, m, at)
  {
    hide Gathered, Spaced, Covered, Loaded, EncodeLe, Le, StackEnd, XTaken, VTaken;
    var t := ts[i];
    if t.hfa.None? && !Behind(t) && !OnStack(ts, i) {
      EightbytesIs(OwnBytes(t));
      FromWordsIsUnpack(x[XTaken(ts, i)..XTaken(ts, i) + WordsNeeded(t)], OwnBytes(t));
    }
  }

  /** The bytes a parameter is to have: the value, or the address of what a reference refers to, a copy if it was
      nowhere. */
  function Owed(a: Arg, copy: U64): seq<Byte>
  {
    match (a.reference, a.address)
    case (false, _) => a.value
    case (true, Some(address)) => EncodeLe(address, 8)
    case (true, None) => EncodeLe(copy, 8)
  }

  /** The called function finds every argument by the types of its parameters, an aggregate from vector registers
      exactly when what lies between its elements is zero. */
  lemma CalleeFinds(t: Target, args: seq<Arg>, slots: seq<U64>, i: nat)
    requires |slots| == |args| && i < |args| && AllWellFormed(args) && |t.x| == 31 && |t.v| == 32 && VectorsWide(t.v)
    requires PutSoFar(args, slots, |args|, t.x, t.v, t.blocks) && (forall b :: b in t.blocks ==> Holds(t.task.bytes, b))
    requires var items := Items(args, slots);
             forall k :: 0 <= k < |items| ==> Holds(t.task.bytes, Block(t.sp + Start(items, k), items[k].bytes))
    requires args[i].hfa.Some? ==> Spaced(args[i].hfa.value, |args[i].value|)
    ensures var (ts, a) := (TypesOf(args), args[i]);
            && (a.hfa.Some? ==> a.size == |a.value|)
            && (Receive(ts, i, t.x, t.v, t.task.bytes, t.sp) == Some(Owed(a, slots[i])) <==>
                (a.hfa.Some? && !OnStack(ts, i) ==> GapsZero(a.hfa.value, a.value)))
            && (a.reference && a.address.None? ==> Bytes(t.task.bytes, slots[i], |a.value|) == Some(a.value))
  {
    hide Holds, Items, Start, Choose, Covered, Loaded, EncodeLe, Le, Gathered, Spaced, GapsZero, PutSoFar, IsPow2;
    hide XTaken, VTaken, StackEnd, StackOffset, Receive, Found, Used;
    ArgumentFound(t, args, slots, i);
    PlaceBySizes(args, i);
    EachWellFormed(args, i);
    var ts := TypesOf(args);
    var at := 0;
    if OnStack(ts, i) {
      StartBySizes(args, slots, i);
      at := t.sp + StackOffset(ts, i);
    }
    ReceiveIsFound(ts, i, t.x, t.v, t.task.bytes, t.sp, at);
  }

  // ---------- results ----------

  /** A result is where the only argument of its type would be, section 6.9 of AAPCS64; but one that would be behind a
      pointer is at the address given in x8. */
  lemma ReturnedAsArgument(hfa: Option<Hfa>, value: seq<Byte>, x: seq<U64>, v: seq<seq<Byte>>, m: Memory.Bytes,
                           slot: U64, alignment: nat)
    requires |x| == 31 && |v| == 32 && VectorsWide(v) && (hfa.Some? ==> Spaced(hfa.value, |value|))
    requires hfa.Some? ==> Covers(hfa.value, |value|)
    ensures var ts := [Param(|value|, false, hfa, alignment)];
            Returned(hfa, value, x, v, m, slot) <==>
              Receive(ts, 0, if Behind(ts[0]) then x[0 := slot] else x, v, m, 0) == Some(value)
  {
    hide Gathered, EncodeLe, Le, Words, Covers, ElementsIn, Unpack, FromWords, Holds, Bytes;
    var t := Param(|value|, false, hfa, alignment);
    EightbytesIs(|value|);
    if hfa.Some? {
      assert v[0..] == v;
      GatheredElements(hfa.value, v, |hfa.value.offsets|, |value|);
      if ElementsIn(hfa.value, |hfa.value.offsets|, v, value) {
        ElementsDetermine(hfa.value, v, Gathered(hfa.value, v, |hfa.value.offsets|, |value|), value);
      }
    } else if !Behind(t) {
      var n := WordsIn(|value|);
      assert x[0..n] == x[..n];
      FromWordsIsUnpack(x[..n], |value|);
    } else {
      HoldsIff(m, slot, value);
    }
  }

  lemma HoldsIff(m: Memory.Bytes, at: nat, value: seq<Byte>)
    ensures Holds(m, Block(at, value)) <==> Bytes(m, at, |value|) == Some(value)
  {
    hide Loaded;
    if Bytes(m, at, |value|) == Some(value) {
      LoadedHolds(m, at, value);
    } else if Holds(m, Block(at, value)) {
      HeldIsLoaded(m, Block(at, value));
    }
  }

  lemma LoadedHolds(m: Memory.Bytes, at: nat, value: seq<Byte>)
    requires Covered(m, at, |value|) && Loaded(m, at, |value|) == value
    ensures Holds(m, Block(at, value))
  {
    forall a | at <= a < at + |value|
      ensures m[a] == value[a - at]
    {
      assert Loaded(m, at, |value|)[a - at] == m[a];
    }
  }

  // ---------- where AAPCS64 would have them ----------

  /** The words and the vector registers that the parameters before number i need. */
  function XSum(ts: seq<Param>, i: nat): nat
    requires i <= |ts|
  {
    if i == 0 then 0 else XSum(ts, i - 1) + WordsNeeded(ts[i - 1])
  }

  function VSum(ts: seq<Param>, i: nat): nat
    requires i <= |ts|
  {
    if i == 0 then 0 else VSum(ts, i - 1) + VectorsNeeded(ts[i - 1])
  }

  /** Section 6.8.2 of AAPCS64, stage C: once a parameter has not fitted, no later one of its kind gets a register.  So
      parameter i has registers exactly when all up to it need eight together. */
  predicate AskedOnStack(ts: seq<Param>, i: nat)
    requires i < |ts|
  {
    var (need, sum) := if ts[i].hfa.Some? then (VectorsNeeded(ts[i]), VSum(ts, i))
                       else (WordsNeeded(ts[i]), XSum(ts, i));
    need > 0 && sum + need > 8
  }

  function Asked(ts: seq<Param>, i: nat): Place
    requires i < |ts|
  {
    var t := ts[i];
    if t.hfa.Some? then if AskedOnStack(ts, i) then Stacked else Floats(VSum(ts, i), VectorsNeeded(t))
    else if Behind(t) then if AskedOnStack(ts, i) then PointerStacked else Pointer(XSum(ts, i))
    else if AskedOnStack(ts, i) then Stacked else Integers(XSum(ts, i), WordsNeeded(t))
  }

  /** The same place: what needs no register is nowhere. */
  predicate SamePlace(p: Place, q: Place)
  {
    || p == q
    || (p.Integers? && q.Integers? && p.count == 0 && q.count == 0)
    || (p.Floats? && q.Floats? && p.count == 0 && q.count == 0)
  }

  /** A parameter gets registers behind one of its kind that has got none. */
  predicate Overtakes(ts: seq<Param>, j: nat, i: nat)
    requires j < |ts| && i < |ts|
  {
    && j < i && ts[j].hfa.Some? == ts[i].hfa.Some? && OnStack(ts, j) && !OnStack(ts, i)
    && (if ts[i].hfa.Some? then VectorsNeeded(ts[i]) else WordsNeeded(ts[i])) > 0
  }

  lemma {:induction false} SumsGrow(ts: seq<Param>, j: nat, i: nat)
    requires j <= i <= |ts|
    ensures XSum(ts, j) <= XSum(ts, i) && VSum(ts, j) <= VSum(ts, i)
    decreases i
  {
    if j < i { SumsGrow(ts, j, i - 1); }
  }

  /** What has been taken is at most what was needed, and that if nothing was on the stack. */
  lemma {:induction false} TakenOfSum(ts: seq<Param>, i: nat)
    requires i <= |ts|
    ensures XTaken(ts, i) <= XSum(ts, i) && VTaken(ts, i) <= VSum(ts, i)
    ensures (forall j :: 0 <= j < i && ts[j].hfa.None? ==> !OnStack(ts, j)) ==> XTaken(ts, i) == XSum(ts, i)
    ensures (forall j :: 0 <= j < i && ts[j].hfa.Some? ==> !OnStack(ts, j)) ==> VTaken(ts, i) == VSum(ts, i)
  {
    if i > 0 { TakenOfSum(ts, i - 1); }
  }

  /** The places of a parameter differ exactly when it overtakes another. */
  lemma AskedUnlessOvertaking(ts: seq<Param>, i: nat)
    requires i < |ts|
    ensures SamePlace(Expected(ts, i), Asked(ts, i)) <==> forall j :: 0 <= j < |ts| ==> !Overtakes(ts, j, i)
  {
    hide XTaken, VTaken, XSum, VSum, Behind, Eightbytes, OnStack;
    if j :| 0 <= j < i && ts[j].hfa.Some? == ts[i].hfa.Some? && OnStack(ts, j) {
      SpilledBefore(ts, j, i);
      assert Overtakes(ts, j, i) <==> !SamePlace(Expected(ts, i), Asked(ts, i)) by { FitsAlone(ts, i); }
    } else {
      NoneSpilled(ts, i);
    }
  }

  lemma SpilledBefore(ts: seq<Param>, j: nat, i: nat)
    requires j < i < |ts| && ts[j].hfa.Some? == ts[i].hfa.Some? && OnStack(ts, j)
    ensures if ts[i].hfa.Some? then VSum(ts, i) > 8 else XSum(ts, i) > 8
  {
    hide XTaken, VTaken, XSum, VSum, WordsNeeded, VectorsNeeded;
    TakenOfSum(ts, j);
    SumNext(ts, j);
    SumsGrow(ts, j + 1, i);
  }

  lemma FitsAlone(ts: seq<Param>, i: nat)
    requires i < |ts|
    ensures (if ts[i].hfa.Some? then VectorsNeeded(ts[i]) else WordsNeeded(ts[i])) == 0 ==> !OnStack(ts, i)
  {
    hide XTaken, VTaken, WordsNeeded, VectorsNeeded;
  }

  lemma NoneSpilled(ts: seq<Param>, i: nat)
    requires i < |ts| && forall j :: 0 <= j < i && ts[j].hfa.Some? == ts[i].hfa.Some? ==> !OnStack(ts, j)
    ensures SamePlace(Expected(ts, i), Asked(ts, i))
  {
    hide XTaken, VTaken, XSum, VSum, Behind, Eightbytes;
    TakenOfSum(ts, i);
  }

  lemma SumNext(ts: seq<Param>, j: nat)
    requires j < |ts|
    ensures XSum(ts, j + 1) == XSum(ts, j) + WordsNeeded(ts[j]) && VSum(ts, j + 1) == VSum(ts, j) + VectorsNeeded(ts[j])
  {}

  /** Every argument is where AAPCS64 asks exactly when none gets registers behind one of its kind on the stack. */
  lemma PlacesAskedIff(args: seq<Arg>)
    ensures var ts := TypesOf(args);
            (forall i :: 0 <= i < |args| ==> SamePlace(Aapcs.PlaceOf(args, i), Asked(ts, i))) <==>
              forall j, i :: 0 <= j < |ts| && 0 <= i < |ts| ==> !Overtakes(ts, j, i)
  {
    hide SamePlace, Overtakes, Asked, Expected, Aapcs.PlaceOf;
    var ts := TypesOf(args);
    forall i | 0 <= i < |args|
      ensures SamePlace(Aapcs.PlaceOf(args, i), Asked(ts, i)) <==> forall j :: 0 <= j < |ts| ==> !Overtakes(ts, j, i)
    {
      PlaceBySizes(args, i);
      AskedUnlessOvertaking(ts, i);
    }
    forall j, i | 0 <= j < |ts| && 0 <= i < |ts| && Overtakes(ts, j, i)
      ensures !SamePlace(Aapcs.PlaceOf(args, i), Asked(ts, i))
    {
      PlaceBySizes(args, i);
      AskedUnlessOvertaking(ts, i);
    }
  }

  /** After seven words an aggregate of two does not fit, and a ninth argument takes the register it left. */
  lemma WordOvertakes(ts: seq<Param>)
    requires |ts| == 9 && ts[7] == Param(16, false, None, 8)
    requires forall i :: 0 <= i < 9 && i != 7 ==> ts[i] == Param(8, false, None, 8)
    ensures Overtakes(ts, 7, 8) && Expected(ts, 8) == Integers(7, 1) && Asked(ts, 8) == Stacked
  {
    assert Eightbytes(8) == 1 && Eightbytes(16) == 2;
    SevenWords(ts, 7);
    hide Eightbytes;
    assert XTaken(ts, 8) == 7 && XSum(ts, 8) == 9;
  }

  lemma {:induction false} SevenWords(ts: seq<Param>, n: nat)
    requires n <= 7 && |ts| == 9 && forall i :: 0 <= i < 7 ==> ts[i] == Param(8, false, None, 8)
    ensures XTaken(ts, n) == n && XSum(ts, n) == n
  {
    if n > 0 { SevenWords(ts, n - 1); }
  }
}
