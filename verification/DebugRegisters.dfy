/** The sixteen breakpoint and sixteen watchpoint register pairs of an ARM64 thread. */
module DebugRegisters {
  import opened Results
  import opened Bits

  const SLOTS := 16

  /** Value and control registers, and the single-step bit; bit 0 of a control register arms its pair. */
  datatype DebugState = DebugState(bvr: seq<U64>, bcr: seq<U64>, wvr: seq<U64>, wcr: seq<U64>, singleStep: bool) {
    predicate Valid() { |bvr| == |bcr| == |wvr| == |wcr| == SLOTS }
  }

  datatype Mode = WriteMode | ReadWriteMode | ExecuteMode

  /** Slots 0 to 15 are breakpoint pairs, 16 to 31 watchpoint pairs. */
  predicate Armed(d: DebugState, slot: nat)
    requires |d.bcr| == |d.wcr| == SLOTS && slot < 2 * SLOTS
  {
    (if slot < SLOTS then d.bcr[slot] else d.wcr[slot - SLOTS]) % 2 == 1
  }

  /** address % size == 0, for the sizes there are. */
  predicate AlignedTo(address: U64, size: nat)
  {
    (size == 2 ==> address % 2 == 0) && (size == 4 ==> address % 4 == 0) && (size == 8 ==> address % 8 == 0)
  }

  predicate ValidRequest(mode: Mode, address: U64, size: nat)
  {
    && (size == 1 || size == 2 || size == 4 || size == 8)
    && if mode.ExecuteMode? then address % 4 == 0 else AlignedTo(address, size)
  }

  /** A request is valid exactly when its size is one of four and its address a multiple of it, or of four. */
  lemma ValidRequestIff(mode: Mode, address: U64, size: nat)
    ensures ValidRequest(mode, address, size) <==>
              size in {1, 2, 4, 8} && address % (if mode.ExecuteMode? then 4 else size) == 0
  {}

  /** The test of an address against size - 1 is the test for a multiple, for the powers of two. */
  lemma MaskIsMultiple(address: U64, k: nat)
    ensures And(address, Pow2(k) - 1) == 0 <==> address % Pow2(k) == 0
  {
    AndMask(address, k);
  }

  // ---------- encodings ----------

  /** The byte-select mask: one bit for each watched byte of the aligned doubleword. */
  function ByteSelect(address: U64, size: nat): (m: nat)
  {
    NonNegativeProduct(Pow2(size) - 1, Pow2(address % 8));
    (Pow2(size) - 1) * Pow2(address % 8)
  }

  function ControlValue(mode: Mode, address: U64, size: nat): (c: nat)
  {
    match mode
    case ExecuteMode => Or(Or(1, 2 * 2), 15 * 32)
    case WriteMode => Or(Or(Or(1, 2 * 2), 2 * 8), ByteSelect(address, size) * 32)
    case ReadWriteMode => Or(Or(Or(1, 2 * 2), 3 * 8), ByteSelect(address, size) * 32)
  }

  function ValueFor(mode: Mode, address: U64): (v: U64)
  {
    if mode.ExecuteMode? then address else address - And(address, 7)
  }

  /** Whether a watchpoint pair watches the byte at `a`. */
  predicate Watches(value: nat, control: nat, a: nat)
  {
    value <= a < value + 8 && Bit(control, 5 + (a - value)) == 1
  }

  lemma {:induction false} BitOfOnes(n: nat, k: nat)
    ensures Bit(Pow2(n) - 1, k) == if k < n then 1 else 0
    decreases n
  {
    if n == 0 {
      BitZero(k);
    } else {
      assert (Pow2(n) - 1) / 2 == Pow2(n - 1) - 1 && (Pow2(n) - 1) % 2 == 1;
      if k > 0 { BitOfOnes(n - 1, k - 1); }
    }
  }

  /** Bit k of the byte-select mask is set exactly for the watched bytes. */
  lemma ByteSelectBit(address: U64, size: nat, k: nat)
    ensures Bit(ByteSelect(address, size), k) == if address % 8 <= k < address % 8 + size then 1 else 0
  {
    hide Bit, Pow2;
    var s, ones := address % 8, Pow2(size) - 1;
    assert ByteSelect(address, size) == 0 + Pow2(s) * ones;
    if k < s {
      ModularBits(0, ones, s, k);
      BitZero(k);
    } else {
      ShiftedBits(0, ones, s, k - s);
      BitOfOnes(size, k - s);
    }
  }

  lemma OrFields(low: nat, x: nat)
    requires low < 32
    ensures Or(low, x * 32) == low + x * 32
  {
    assert Pow2(5) == 32 by { Pow2Small(); }
    OrShifted(low, x, 5);
  }

  lemma FixedFields()
    ensures Or(1, 2 * 2) == 5 && Or(5, 2 * 8) == 21 && Or(5, 3 * 8) == 29
  {
    assert Pow2(2) == 4 && Pow2(3) == 8 by { Pow2Small(); }
    OrShifted(1, 1, 2);
    OrShifted(5, 2, 3);
    OrShifted(5, 3, 3);
  }

  lemma ExecuteControl(address: U64, size: nat)
    ensures ControlValue(ExecuteMode, address, size) == 0x1e5
  {
    hide Or;
    FixedFields();
    OrFields(5, 15);
  }

  function WatchFields(mode: Mode): nat { if mode.WriteMode? then 21 else 29 }

  lemma WatchControl(mode: Mode, address: U64, size: nat)
    requires !mode.ExecuteMode?
    ensures ControlValue(mode, address, size) == WatchFields(mode) + ByteSelect(address, size) * 32
  {
    hide Or, ByteSelect;
    FixedFields();
    OrFields(WatchFields(mode), ByteSelect(address, size));
  }

  lemma ControlOdd(mode: Mode, address: U64, size: nat)
    ensures ControlValue(mode, address, size) % 2 == 1
  {
    if mode.ExecuteMode? {
      hide ControlValue;
      ExecuteControl(address, size);
    } else {
      hide *;
      WatchControl(mode, address, size);
      FieldsOdd(mode, ByteSelect(address, size));
    }
  }

  lemma FieldsOdd(mode: Mode, x: nat)
    ensures (WatchFields(mode) + x * 32) % 2 == 1
  {
    var half := (if mode.WriteMode? then 10 else 14) + x * 16;
    assert WatchFields(mode) + x * 32 == 2 * half + 1;
  }

  lemma WatchValue(mode: Mode, address: U64)
    requires !mode.ExecuteMode?
    ensures ValueFor(mode, address) == address - address % 8
  {
    hide And;
    assert Pow2(3) == 8 by { Pow2Small(); }
    AndMask(address, 3);
  }

  /** The encoded value and mask of a watchpoint denote exactly the requested bytes. */
  lemma WatchedExactly(mode: Mode, address: U64, size: nat, a: nat)
    requires !mode.ExecuteMode? && ValidRequest(mode, address, size)
    ensures Watches(ValueFor(mode, address), ControlValue(mode, address, size), a) <==> address <= a < address + size
  {
    hide *;
    WatchValue(mode, address);
    var v, c := address - address % 8, ControlValue(mode, address, size);
    if v <= a < v + 8 {
      ControlBit(mode, address, size, a - v);
      assert Watches(v, c, a) <==> Bit(c, 5 + (a - v)) == 1 by { WatchesIff(v, c, a); }
    } else {
      assert !Watches(v, c, a) by { WatchesIff(v, c, a); }
      WithinDoubleword(mode, address, size);
    }
  }

  lemma WatchesIff(value: nat, control: nat, a: nat)
    ensures Watches(value, control, a) <==> value <= a < value + 8 && Bit(control, 5 + (a - value)) == 1
  {}

  /** A valid request does not cross a doubleword. */
  lemma WithinDoubleword(mode: Mode, address: U64, size: nat)
    requires !mode.ExecuteMode? && ValidRequest(mode, address, size)
    ensures address % 8 + size <= 8
  {}

  lemma ControlBit(mode: Mode, address: U64, size: nat, k: nat)
    requires !mode.ExecuteMode? && k < 8
    ensures Bit(ControlValue(mode, address, size), 5 + k) == 1
        <==> address % 8 <= k < address % 8 + size
  {
    hide ControlValue, ByteSelect;
    WatchControl(mode, address, size);
    assert Pow2(5) == 32 by { Pow2Small(); }
    ShiftedBits(WatchFields(mode), ByteSelect(address, size), 5, k);
    ByteSelectBit(address, size, k);
  }

  datatype Access = Load | Store

  /** The pair is enabled, and for code at user level only. */
  predicate ForUserCode(control: nat) { Bit(control, 0) == 1 && Bit(control, 1) == 0 && Bit(control, 2) == 1 }

  /** A watchpoint pair stops an access to the byte at `a`: bit 3 of its control register is for loads, bit 4 for
      stores. */
  predicate Catches(value: nat, control: nat, access: Access, a: nat)
  {
    && ForUserCode(control) && Bit(control, match access case Load => 3 case Store => 4) == 1
    && Watches(value, control, a)
  }

  /** A breakpoint pair stops the instruction at `pc`, all four bytes of it. */
  predicate Breaks(value: nat, control: nat, pc: nat)
  {
    ForUserCode(control) && value == pc && forall k :: 5 <= k < 9 ==> Bit(control, k) == 1
  }

  lemma {:induction false} BitsOfFields()
    ensures Bit(21, 0) == 1 && Bit(21, 1) == 0 && Bit(21, 2) == 1 && Bit(21, 3) == 0 && Bit(21, 4) == 1
    ensures Bit(29, 0) == 1 && Bit(29, 1) == 0 && Bit(29, 2) == 1 && Bit(29, 3) == 1 && Bit(29, 4) == 1
  {
    assert Bit(10, 0) == 0 && Bit(5, 0) == 1 && Bit(2, 0) == 0 && Bit(1, 0) == 1;
    assert Bit(14, 0) == 0 && Bit(7, 0) == 1 && Bit(3, 0) == 1;
    assert Bit(21, 1) == Bit(10, 0) && Bit(29, 1) == Bit(14, 0);
    assert Bit(10, 1) == Bit(5, 0) && Bit(21, 2) == Bit(10, 1) && Bit(14, 1) == Bit(7, 0) && Bit(29, 2) == Bit(14, 1);
    assert Bit(5, 1) == Bit(2, 0) && Bit(10, 2) == Bit(5, 1) && Bit(21, 3) == Bit(10, 2);
    assert Bit(7, 1) == Bit(3, 0) && Bit(14, 2) == Bit(7, 1) && Bit(29, 3) == Bit(14, 2);
    assert Bit(2, 1) == Bit(1, 0) && Bit(5, 2) == Bit(2, 1) && Bit(10, 3) == Bit(5, 2) && Bit(21, 4) == Bit(10, 3);
    assert Bit(3, 1) == Bit(1, 0) && Bit(7, 2) == Bit(3, 1) && Bit(14, 3) == Bit(7, 2) && Bit(29, 4) == Bit(14, 3);
  }

  lemma WatchBits(mode: Mode, address: U64, size: nat, k: nat)
    requires !mode.ExecuteMode? && k < 5
    ensures Bit(ControlValue(mode, address, size), k) == Bit(WatchFields(mode), k)
  {
    hide ControlValue, ByteSelect, WatchFields, Bit;
    WatchControl(mode, address, size);
    assert Pow2(5) == 32 by { Pow2Small(); }
    ModularBits(WatchFields(mode), ByteSelect(address, size), 5, k);
  }

  /** A watchpoint's pair stops exactly the stores to the requested bytes, and loads of them if it is for both. */
  lemma CaughtExactly(mode: Mode, address: U64, size: nat, access: Access, a: nat)
    requires !mode.ExecuteMode? && ValidRequest(mode, address, size)
    ensures Catches(ValueFor(mode, address), ControlValue(mode, address, size), access, a) <==>
              address <= a < address + size && (access.Store? || mode.ReadWriteMode?)
  {
    hide ControlValue, ValueFor, ValidRequest, Watches, Bit;
    WatchedExactly(mode, address, size, a);
    BitsOfFields();
    WatchBits(mode, address, size, 0);
    WatchBits(mode, address, size, 1);
    WatchBits(mode, address, size, 2);
    WatchBits(mode, address, size, 3);
    WatchBits(mode, address, size, 4);
  }

  lemma {:induction false} AllOnes(x: nat, n: nat, k: nat)
    requires x == Pow2(n) - 1 && k < n
    ensures Bit(x, k) == 1
  {
    BitOfOnes(n, k);
  }

  /** A breakpoint's pair stops exactly the instruction at its address. */
  lemma BrokenExactly(address: U64, size: nat, pc: nat)
    ensures Breaks(ValueFor(ExecuteMode, address), ControlValue(ExecuteMode, address, size), pc) <==> pc == address
  {
    hide ControlValue, Bit;
    ExecuteControl(address, size);
    assert Pow2(4) == 16 && Pow2(5) == 32 by { Pow2Small(); }
    ModularBits(5, 15, 5, 0);
    ModularBits(5, 15, 5, 1);
    ModularBits(5, 15, 5, 2);
    BitsOfFive();
    forall k | 5 <= k < 9
      ensures Bit(0x1e5, k) == 1
    {
      ShiftedBits(5, 15, 5, k - 5);
      AllOnes(15, 4, k - 5);
    }
  }

  lemma BitsOfFive()
    ensures Bit(5, 0) == 1 && Bit(5, 1) == 0 && Bit(5, 2) == 1
  {
    assert Bit(2, 0) == 0 && Bit(1, 0) == 1 && Bit(5, 1) == Bit(2, 0);
    assert Bit(2, 1) == Bit(1, 0) && Bit(5, 2) == Bit(2, 1);
  }

  // ---------- allocation ----------

  /** The lowest slot whose enable bit is clear. */
  function FirstFree(control: seq<U64>): (r: Option<nat>)
    ensures r.Some? ==> r.value < |control| && control[r.value] % 2 == 0
    ensures r.Some? ==> forall i :: 0 <= i < r.value ==> control[i] % 2 == 1
    ensures r.None? ==> forall i :: 0 <= i < |control| ==> control[i] % 2 == 1
    decreases |control|
  {
    if control == [] then None
    else if control[0] % 2 == 0 then Some(0)
    else
      var rest := FirstFree(control[1..]);
      if rest.None? then (assert forall i :: 1 <= i < |control| ==> control[i] == control[1..][i - 1]; None)
      else (assert forall i :: 1 <= i < |control| ==> control[i] == control[1..][i - 1]; Some(rest.value + 1))
  }

  function Controls(d: DebugState, mode: Mode): seq<U64>
  {
    if mode.ExecuteMode? then d.bcr else d.wcr
  }

  lemma FreeNotArmed(d: DebugState, mode: Mode)
    requires d.Valid() && FirstFree(Controls(d, mode)).Some?
    ensures FirstFree(Controls(d, mode)).value < SLOTS
    ensures !Armed(d, SlotNumber(mode, FirstFree(Controls(d, mode)).value))
  {
    hide FirstFree;
  }

  /** The registers with a stoppoint put in pair `i` of its kind. */
  function Placed(d: DebugState, mode: Mode, address: U64, size: nat, i: nat): (r: DebugState)
    requires d.Valid() && i < SLOTS && ControlValue(mode, address, size) < TWO64
    ensures r.Valid() && r.singleStep == d.singleStep
  {
    var v, c := ValueFor(mode, address), ControlValue(mode, address, size);
    if mode.ExecuteMode? then d.(bvr := d.bvr[i := v], bcr := d.bcr[i := c])
    else d.(wvr := d.wvr[i := v], wcr := d.wcr[i := c])
  }

  lemma ControlFits(mode: Mode, address: U64, size: nat)
    requires ValidRequest(mode, address, size)
    ensures ControlValue(mode, address, size) < TWO64
  {
    hide ControlValue, Or;
    if mode.ExecuteMode? { ExecuteControl(address, size); return; }
    WatchControl(mode, address, size);
    Pow2Small();
    var s := address % 8;
    assert 1 <= Pow2(s) <= 128 by { Pow2Monotone(0, s); Pow2Monotone(s, 7); }
    assert 0 <= Pow2(size) - 1 <= 255 by { Pow2Monotone(0, size); Pow2Monotone(size, 8); }
    assert ByteSelect(address, size) <= 255 * 128 by { ProductBound(Pow2(size) - 1, 255, Pow2(s), 128); }
  }

  lemma ProductBound(a: nat, b: nat, c: nat, d: nat)
    requires a <= b && c <= d
    ensures a * c <= b * d
  {
    assert a * c <= b * c;
    assert b * c <= b * d;
  }

  function SlotNumber(mode: Mode, i: nat): nat { if mode.ExecuteMode? then i else i + SLOTS }

  /** The registers with a slot disarmed. */
  function Cleared(d: DebugState, slot: nat): (r: DebugState)
    requires d.Valid() && slot < 2 * SLOTS
    ensures r.Valid() && r.singleStep == d.singleStep
  {
    if slot < SLOTS then d.(bcr := d.bcr[slot := 0]) else d.(wcr := d.wcr[slot - SLOTS := 0])
  }

  /** Placing and clearing touch the enable bit of one slot only. */
  lemma PlacedArms(d: DebugState, mode: Mode, address: U64, size: nat, i: nat, slot: nat)
    requires d.Valid() && i < SLOTS && slot < 2 * SLOTS && ControlValue(mode, address, size) < TWO64
    ensures Armed(Placed(d, mode, address, size, i), slot) <==> slot == SlotNumber(mode, i) || Armed(d, slot)
  {
    ControlOdd(mode, address, size);
  }

  lemma ClearedDisarms(d: DebugState, slot: nat, other: nat)
    requires d.Valid() && slot < 2 * SLOTS && other < 2 * SLOTS
    ensures Armed(Cleared(d, slot), other) <==> other != slot && Armed(d, other)
  {}

  /** Disarming a hardware breakpoint and arming it again: what single-stepping over it does. */
  function Rearmed(d: DebugState, slot: nat, address: U64): (r: DebugState)
    requires d.Valid() && slot < SLOTS
    ensures r.Valid()
  {
    var cleared := Cleared(d, slot);
    assert cleared.bcr[slot] % 2 == 0;
    assert ControlValue(ExecuteMode, address, 4) == 0x1e5 by { ExecuteControl(address, 4); }
    Placed(cleared, ExecuteMode, address, 4, FirstFree(cleared.bcr).value)
  }

  /** What a single step does to the registers, given the pair of the hardware site it steps over. */
  function StepDebug(d: DebugState, slot: Option<nat>, pc: U64): (r: DebugState)
    ensures d.Valid() ==> r.Valid()
  {
    if d.Valid() && slot.Some? && slot.value < SLOTS then Rearmed(d, slot.value, pc) else d
  }

  /** The registers while a thread steps off the site that holds breakpoint pair `slot`, if one does. */
  function Disarmed(d: DebugState, slot: Option<nat>): DebugState
  {
    if d.Valid() && slot.Some? && slot.value < SLOTS then Cleared(d, slot.value) else d
  }

  /** The pair a hardware site in pair `slot` holds after a step over it. */
  function StepSlot(d: DebugState, slot: nat): nat
  {
    if d.Valid() && slot < SLOTS && FirstFree(Cleared(d, slot).bcr).Some? then FirstFree(Cleared(d, slot).bcr).value
        else slot
  }

  /** The registers come back unchanged exactly when every lower breakpoint slot is taken. */
  lemma RearmedSameIff(d: DebugState, slot: nat, address: U64)
    requires d.Valid() && slot < SLOTS
    requires d.bvr[slot] == address && d.bcr[slot] == ControlValue(ExecuteMode, address, 4)
    ensures Rearmed(d, slot, address) == d <==> forall i :: 0 <= i < slot ==> d.bcr[i] % 2 == 1
  {
    hide ControlValue;
    ControlOdd(ExecuteMode, address, 4);
    var cleared := Cleared(d, slot);
    assert cleared.bcr[slot] == 0;
    var i := FirstFree(cleared.bcr).value;
    if i < slot {
      assert d.bcr[i] % 2 == 0 && Rearmed(d, slot, address).bcr[i] % 2 == 1;
    } else {
      assert i <= slot by { assert cleared.bcr[slot] == 0; }
      assert cleared.bcr[slot := d.bcr[slot]] == d.bcr && d.bvr[slot := address] == d.bvr;
      assert forall j :: 0 <= j < slot ==> d.bcr[j] == cleared.bcr[j];
    }
  }

  /** What a call into the process does to the registers: arm the hardware site at the return address if it is
      there and disarmed, step over the hardware site at the function if there is one, disarm what was armed. */
  function CallDebug(d: DebugState, arming: bool, ret: U64, atFunc: Option<nat>, func: U64): DebugState
  {
    var i := FirstFree(d.bcr);
    if !arming then StepDebug(d, atFunc, func)
    else if !d.Valid() || i.None? then d
    else
      assert ControlValue(ExecuteMode, ret, 4) == 0x1e5 by { ExecuteControl(ret, 4); }
      var armed := Placed(d, ExecuteMode, ret, 4, i.value);
      Cleared(StepDebug(armed, if func == ret then Some(i.value) else atFunc, func), i.value)
  }

  /** A hardware site holds this pair. */
  predicate Holding(d: DebugState, slot: nat, address: U64)
  {
    d.Valid() && slot < SLOTS && d.bvr[slot] == address && d.bcr[slot] == ControlValue(ExecuteMode, address, 4)
  }

  lemma FreshlyPlaced(d: DebugState, address: U64, i: nat)
    requires d.Valid() && i < SLOTS && ControlValue(ExecuteMode, address, 4) < TWO64
    ensures Holding(Placed(d, ExecuteMode, address, 4, i), i, address)
  {
    hide ControlValue;
  }

  /** A call leaves the registers unchanged exactly when the hardware site at the function, if any, has no free
      pair below its own, and the pair lent to the return site, if any, held that very address, disarmed. */
  lemma CallDebugSameIff(d: DebugState, arming: bool, ret: U64, atFunc: Option<nat>, func: U64)
    requires d.Valid() && (atFunc.Some? ==> Holding(d, atFunc.value, func))
    requires arming ==> FirstFree(d.bcr).Some? && (func == ret ==> atFunc.None?)
    ensures CallDebug(d, arming, ret, atFunc, func) == d <==>
              && (atFunc.Some? ==> forall k :: 0 <= k < atFunc.value ==>
                    d.bcr[k] % 2 == 1 || (arming && k == FirstFree(d.bcr).value))
              && (arming ==> d.bvr[FirstFree(d.bcr).value] == ret && d.bcr[FirstFree(d.bcr).value] == 0)
  {
    hide ControlValue;
    if !arming {
      if atFunc.Some? { RearmedSameIff(d, atFunc.value, func); }
    } else {
      var i := FirstFree(d.bcr).value;
      ExecuteControl(ret, 4);
      var armed := Placed(d, ExecuteMode, ret, 4, i);
      FreshlyPlaced(d, ret, i);
      var lent := if func == ret then Some(i) else atFunc;
      if lent.None? {
        LentAndReturned(d, armed, i, ret);
      } else {
        ControlOdd(ExecuteMode, func, 4);
        ControlOdd(ExecuteMode, ret, 4);
        RearmedSameIff(armed, lent.value, func);
        if Rearmed(armed, lent.value, func) == armed {
          LentAndReturned(d, armed, i, ret);
        } else {
          RearmedElsewhere(armed, lent.value, func);
          assert Cleared(Rearmed(armed, lent.value, func), i).bcr[lent.value] == 0;
        }
      }
    }
  }

  lemma LentAndReturned(d: DebugState, armed: DebugState, i: nat, ret: U64)
    requires d.Valid() && i < SLOTS && ControlValue(ExecuteMode, ret, 4) < TWO64
    requires armed == Placed(d, ExecuteMode, ret, 4, i)
    ensures Cleared(armed, i) == d <==> d.bvr[i] == ret && d.bcr[i] == 0
  {
    hide ControlValue;
    assert Cleared(armed, i).bcr == d.bcr[i := 0] && Cleared(armed, i).bvr == d.bvr[i := ret];
    assert d.bcr[i := 0][i] == 0 && d.bvr[i := ret][i] == ret;
    if d.bvr[i] == ret && d.bcr[i] == 0 { assert d.bcr[i := 0] == d.bcr && d.bvr[i := ret] == d.bvr; }
  }

  /** When rearming changes the registers, the old pair is left disarmed. */
  lemma RearmedElsewhere(d: DebugState, slot: nat, address: U64)
    requires Holding(d, slot, address) && Rearmed(d, slot, address) != d
    ensures Rearmed(d, slot, address).bcr[slot] == 0
  {
    hide ControlValue;
    RearmedSameIff(d, slot, address);
    var cleared := Cleared(d, slot);
    assert cleared.bcr[slot] == 0;
    var k :| 0 <= k < slot && d.bcr[k] % 2 == 0;
    assert cleared.bcr[k] % 2 == 0;
    assert FirstFree(cleared.bcr).value <= k;
  }

  // ---------- registers that do change ----------

  /** Two hardware breakpoints are enabled and the first is disabled again: a step off the second, alone or in a call,
      moves it from pair 1 to pair 0. */
  lemma SecondMovesDown(d: DebugState, a: U64, b: U64, ret: U64)
    requires d.Valid() && forall i :: 0 <= i < SLOTS ==> d.bcr[i] % 2 == 0
    ensures ControlValue(ExecuteMode, a, 4) < TWO64 && ControlValue(ExecuteMode, b, 4) < TWO64
    ensures var one := Placed(d, ExecuteMode, a, 4, 0);
            var two := Placed(one, ExecuteMode, b, 4, 1);
            var left := Cleared(two, 0);
            && FirstFree(d.bcr) == Some(0) && FirstFree(one.bcr) == Some(1) && Holding(left, 1, b)
            && StepSlot(left, 1) == 0 && StepDebug(left, Some(1), b) != left
            && CallDebug(left, false, ret, Some(1), b) != left
  {
    hide ControlValue;
    ExecuteControl(a, 4);
    ExecuteControl(b, 4);
    var one := Placed(d, ExecuteMode, a, 4, 0);
    var two := Placed(one, ExecuteMode, b, 4, 1);
    var left := Cleared(two, 0);
    assert d.bcr[0] % 2 == 0 && one.bcr[0] % 2 == 1 && one.bcr[1] == d.bcr[1];
    assert left.bcr[0] == 0 && left.bcr[1] == ControlValue(ExecuteMode, b, 4) && left.bvr[1] == b;
    assert Cleared(left, 1).bcr[0] == 0;
    RearmedSameIff(left, 1, b);
  }

  /** A call that returns to an idle hardware site leaves that address in the pair it borrowed. */
  lemma BorrowedPairKeepsAddress(d: DebugState, ret: U64, func: U64)
    requires d.Valid() && (forall i :: 0 <= i < SLOTS ==> d.bcr[i] == 0 && d.bvr[i] == 0) && ret != 0
    ensures CallDebug(d, true, ret, None, func) != d
  {
    assert d.bcr[0] % 2 == 0;
    assert FirstFree(d.bcr) == Some(0);
    CallDebugSameIff(d, true, ret, None, func);
  }
}
