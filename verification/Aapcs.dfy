/** Where the arguments of a called function go: registers, blocks of the program's own memory, and the stack. */
module Aapcs {
  import opened Results
  import opened Bits
  import opened Cursors
  import opened Memory
  import opened HomogeneousAggregates

  const ARGUMENT_REGISTERS := 8

  // ---------- register words ----------

  /** Eight bytes of a value, or what is left of it. */
  function Chunk(value: seq<Byte>, k: nat): (r: seq<Byte>)
    requires 8 * k < |value|
    ensures 0 < |r| <= 8
  {
    if 8 * k + 8 <= |value| then value[8 * k..8 * k + 8] else value[8 * k..]
  }

  function WordsIn(n: nat): nat { (n + 7) / 8 }

  /** A value cut into register words, the last one padded with zeros. */
  function Words(value: seq<Byte>): (r: seq<nat>)
    ensures |r| == WordsIn(|value|)
  {
    seq(WordsIn(|value|), k requires 0 <= k < WordsIn(|value|) => Le(Chunk(value, k)))
  }

  /** The first n bytes of register words laid out in memory order. */
  function Unpack(words: seq<nat>, n: nat): (r: seq<Byte>)
    requires n <= 8 * |words|
    ensures |r| == n
  {
    seq(n, i requires 0 <= i < n => EncodeLe(words[i / 8], 8)[i % 8])
  }

  /** Values survive the way through registers. */
  lemma WordsRoundTrip(value: seq<Byte>)
    ensures Unpack(Words(value), |value|) == value
  {
    hide EncodeLe, Le, Words;
    forall i | 0 <= i < |value|
      ensures Unpack(Words(value), |value|)[i] == value[i]
    {
      WordByte(value, i, i / 8, i % 8);
    }
  }

  /** Byte j of word k. */
  lemma WordByte(value: seq<Byte>, i: nat, k: nat, j: nat)
    requires i < |value| && i == 8 * k + j && j < 8
    ensures k < WordsIn(|value|) && EncodeLe(Words(value)[k], 8)[j] == value[i]
  {
    hide EncodeLe, Le;
    var c := Chunk(value, k);
    assert j < |c| && c[j] == value[i];
    EncodeOfLe(c, 8);
  }

  lemma WordFits(value: seq<Byte>, k: nat)
    requires 8 * k < |value|
    ensures Le(Chunk(value, k)) < TWO64
  {
    var c := Chunk(value, k);
    Pow2Monotone(8 * |c|, 64);
    Pow2Large();
  }

  // ---------- alignment ----------

  predicate IsAlignment(m: nat) { m == 1 || m == 2 || m == 4 || m == 8 || m == 16 }

  type Alignment = m: nat | m == 1 || m == 2 || m == 4 || m == 8 || m == 16 witness 1

  predicate IsPow2(n: nat) { exists k: nat :: k <= n && n == Pow2(k) }

  /** std::max(1, std::min(alignment, 16)) */
  function Clamp(n: nat): nat { if n == 0 then 1 else if n > 16 then 16 else n }

  lemma ClampedAlignment(n: nat)
    requires n == 0 || IsPow2(n)
    ensures IsAlignment(Clamp(n))
  {
    if 0 < n <= 16 {
      var k: nat :| n == Pow2(k);
      Pow2Small();
      if k > 4 { Pow2Monotone(5, k); }
    }
  }

  /** x % m, for the alignments there are. */
  function Remainder(x: nat, m: Alignment): (r: nat)
    ensures r < m && r <= x
  {
    if m == 1 then 0 else if m == 2 then x % 2 else if m == 4 then x % 4 else if m == 8 then x % 8 else x % 16
  }

  predicate Multiple(x: nat, m: Alignment) { Remainder(x, m) == 0 }

  /** The least multiple of m at or above x. */
  function Align(x: nat, m: Alignment): (r: nat)
    ensures x <= r < x + m && Multiple(r, m)
  {
    x + m - 1 - Remainder(x + m - 1, m)
  }

  /** (x + m - 1) & ~(m - 1) in 64 bits */
  function AlignUp(x: U64, m: Alignment): U64
  {
    Wrap64(x + m - 1) - And(Wrap64(x + m - 1), m - 1)
  }

  /** x & ~15 */
  function AlignDown(x: U64): (r: U64) { x - And(x, 15) }

  lemma AndLow(x: nat, m: Alignment)
    ensures And(x, m - 1) == Remainder(x, m)
  {
    hide And;
    Pow2Small();
    AndMask(x, if m == 1 then 0 else if m == 2 then 1 else if m == 4 then 2 else if m == 8 then 3 else 4);
  }

  lemma AlignUpIsAlign(x: U64, m: Alignment)
    requires x + 15 < TWO64
    ensures AlignUp(x, m) == Align(x, m)
  {
    hide And, Remainder;
    AndLow(x + m - 1, m);
  }

  lemma AlignDownIs(x: U64)
    ensures AlignDown(x) % 16 == 0 && x - 16 < AlignDown(x) <= x
  {
    hide And;
    AndLow(x, 16);
  }

  /** Aligning commutes with a shift by a multiple of sixteen: why both passes agree. */
  lemma AlignShift(base: nat, x: nat, m: Alignment)
    requires base % 16 == 0
    ensures Align(base + x, m) == base + Align(x, m)
  {
    RemainderShift(base, x + m - 1, m);
  }

  lemma RemainderShift(base: nat, x: nat, m: Alignment)
    requires base % 16 == 0
    ensures Remainder(base + x, m) == Remainder(x, m)
  {
    var q := base / 16;
    if m == 2 { ModOfSum(x, q * 8, 2); }
    else if m == 4 { ModOfSum(x, q * 4, 4); }
    else if m == 8 { ModOfSum(x, q * 2, 8); }
    else if m == 16 { ModOfSum(x, q, 16); }
  }

  // ---------- stack layout ----------

  datatype StackValue = StackValue(bytes: seq<Byte>, alignment: Alignment)

  /** The end of the values laid out from offset zero, each aligned. */
  function Top(items: seq<StackValue>): nat
  {
    if items == [] then 0
    else Align(Top(items[..|items| - 1]), items[|items| - 1].alignment) + |items[|items| - 1].bytes|
  }

  /** The offset of value k. */
  function Start(items: seq<StackValue>, k: nat): nat
    requires k < |items|
  {
    Align(Top(items[..k]), items[k].alignment)
  }

  lemma TopNext(items: seq<StackValue>, k: nat)
    requires k < |items|
    ensures Top(items[..k + 1]) == Start(items, k) + |items[k].bytes|
    ensures Top(items[..k]) <= Start(items, k)
  {
    assert items[..k + 1][..k] == items[..k];
  }

  lemma {:induction false} TopGrows(items: seq<StackValue>, j: nat, k: nat)
    requires j <= k <= |items|
    ensures Top(items[..j]) <= Top(items[..k])
    decreases k
  {
    if j < k {
      TopNext(items, k - 1);
      TopGrows(items, j, k - 1);
    }
  }

  lemma StartAligned(items: seq<StackValue>, k: nat)
    requires k < |items|
    ensures Multiple(Start(items, k), items[k].alignment)
  {}

  /** From a 16-aligned base, every value is aligned, lies below the end, and lies before the later ones. */
  lemma StackLayout(items: seq<StackValue>, base: nat, j: nat, k: nat)
    requires base % 16 == 0 && j <= k < |items|
    ensures Multiple(base + Start(items, j), items[j].alignment)
    ensures Start(items, j) + |items[j].bytes| <= Top(items)
    ensures j < k ==> Start(items, j) + |items[j].bytes| <= Start(items, k)
  {
    hide Align, Remainder;
    RemainderShift(base, Start(items, j), items[j].alignment);
    assert Multiple(Start(items, j), items[j].alignment) by { StartAligned(items, j); }
    TopNext(items, j);
    TopGrows(items, j + 1, |items|);
    assert items[..|items|] == items;
    if j < k {
      TopGrows(items, j + 1, k);
      TopNext(items, k);
    }
  }

  // ---------- placement ----------

  /** An argument as the conversion of the call's text leaves it, with what its type says. */
  datatype Arg = Arg(value: seq<Byte>, size: nat, reference: bool, address: Option<U64>, hfa: Option<Hfa>,
      alignment: nat)

  /** The value has its type's size; the type is one that can be. */
  predicate WellFormed(a: Arg)
  {
    && (!a.reference ==> |a.value| == a.size)
    && (a.reference ==> a.hfa.None?)
    && (a.alignment == 0 || IsPow2(a.alignment))
    && (a.hfa.Some? ==>
          && (a.hfa.value.elementSize == 4 || a.hfa.value.elementSize == 8) && |a.hfa.value.offsets| <= MAX_MEMBERS
          && forall i :: 0 <= i < |a.hfa.value.offsets| ==>
              a.hfa.value.offsets[i] + a.hfa.value.elementSize <= |a.value|)
  }

  predicate AllWellFormed(args: seq<Arg>) { forall i :: 0 <= i < |args| ==> WellFormed(args[i]) }

  /** References are passed as the eight bytes of an address. */
  function PassedSize(a: Arg): nat { if a.reference then 8 else a.size }

  function Passed(a: Arg, slot: U64): seq<Byte>
  {
    if a.reference then EncodeLe(if a.address.Some? then a.address.value else slot, 8) else a.value
  }

  datatype Place =
    | Floats(first: nat, count: nat)     // v registers
    | Integers(first: nat, count: nat)   // x registers
    | Pointer(reg: nat)                  // the address of a copy, in an x register
    | Stacked                            // the value, on the stack
    | PointerStacked                     // the address of a copy, on the stack

  /** How many argument registers are taken. */
  datatype Counters = Counters(integer: nat, floating: nat)

  function Choose(a: Arg, u: Counters): Place
  {
    if a.hfa.Some? && u.floating + |a.hfa.value.offsets| <= ARGUMENT_REGISTERS
        then Floats(u.floating, |a.hfa.value.offsets|)
    else if a.hfa.None? && PassedSize(a) <= 16 && u.integer + WordsIn(PassedSize(a)) <= ARGUMENT_REGISTERS then
      Integers(u.integer, WordsIn(PassedSize(a)))
    else if a.hfa.None? && PassedSize(a) > 16 then
      if u.integer < ARGUMENT_REGISTERS then Pointer(u.integer) else PointerStacked
    else Stacked
  }

  function After(u: Counters, p: Place): Counters
  {
    match p
    case Floats(first, count) => u.(floating := first + count)
    case Integers(first, count) => u.(integer := first + count)
    case Pointer(reg) => u.(integer := reg + 1)
    case _ => u
  }

  /** The registers taken by arguments placed one after the other. */
  function Used(args: seq<Arg>): (u: Counters)
    ensures u.integer <= ARGUMENT_REGISTERS && u.floating <= ARGUMENT_REGISTERS
  {
    if args == [] then Counters(0, 0)
    else
      var u := Used(args[..|args| - 1]);
      After(u, Choose(args[|args| - 1], u))
  }

  function PlaceOf(args: seq<Arg>, i: nat): Place
    requires i < |args|
  {
    Choose(args[i], Used(args[..i]))
  }

  predicate UsesX(p: Place, k: nat)
  {
    match p
    case Integers(first, count) => first <= k < first + count
    case Pointer(reg) => k == reg
    case _ => false
  }

  predicate UsesV(p: Place, k: nat)
  {
    match p
    case Floats(first, count) => first <= k < first + count
    case _ => false
  }

  lemma UsedNext(args: seq<Arg>, i: nat)
    requires i < |args|
    ensures Used(args[..i + 1]) == After(Used(args[..i]), PlaceOf(args, i))
  {
    assert args[..i + 1][..i] == args[..i];
  }

  lemma {:induction false} UsedGrows(args: seq<Arg>, i: nat, j: nat)
    requires i <= j <= |args|
    ensures Used(args[..i]).integer <= Used(args[..j]).integer
    ensures Used(args[..i]).floating <= Used(args[..j]).floating
    decreases j
  {
    if i < j {
      UsedNext(args, j - 1);
      UsedGrows(args, i, j - 1);
    }
  }

  /** No register is given to two arguments, and only argument registers are given. */
  lemma NoSharedRegister(args: seq<Arg>, i: nat, j: nat, k: nat)
    requires i < |args| && j < |args|
    ensures UsesX(PlaceOf(args, i), k) ==> k < ARGUMENT_REGISTERS && (UsesX(PlaceOf(args, j), k) ==> i == j)
    ensures UsesV(PlaceOf(args, i), k) ==> k < ARGUMENT_REGISTERS && (UsesV(PlaceOf(args, j), k) ==> i == j)
  {
    UsedNext(args, i);
    UsedNext(args, j);
    if i < j { UsedGrows(args, i + 1, j); }
    if j < i { UsedGrows(args, j + 1, i); }
  }

  /** A copy in the program's memory goes with the argument. */
  predicate NeedsSlot(a: Arg, p: Place)
  {
    (a.reference && a.address.None?) || p.Pointer? || p.PointerStacked?
  }

  function ItemOf(a: Arg, p: Place, slot: U64): (r: Option<StackValue>)
    requires a.alignment == 0 || IsPow2(a.alignment)
  {
    ClampedAlignment(a.alignment);
    match p
    case Stacked => Some(StackValue(Passed(a, slot), Clamp(a.alignment)))
    case PointerStacked => Some(StackValue(EncodeLe(slot, 8), Clamp(a.alignment)))
    case _ => None
  }

  /** The values for the stack, in order. */
  function Items(args: seq<Arg>, slots: seq<U64>): seq<StackValue>
    requires |args| == |slots| && AllWellFormed(args)
  {
    if args == [] then []
    else
      var n := |args| - 1;
      var item := ItemOf(args[n], PlaceOf(args, n), slots[n]);
      Items(args[..n], slots[..n]) + if item.Some? then [item.value] else []
  }

  /** The argument's register part is in place. */
  predicate InRegisters(a: Arg, p: Place, slot: U64, x: seq<U64>, v: seq<seq<Byte>>)
  {
    match p
    case Floats(first, count) =>
      && a.hfa.Some? && |a.hfa.value.offsets| == count && first + count <= |v|
      && forall i :: 0 <= i < count ==> v[first + i] == Element(a, i)
    case Integers(first, count) =>
      first + count <= |x| && x[first..first + count] == Words(Passed(a, slot))
    case Pointer(reg) => reg < |x| && x[reg] == slot
    case _ => true
  }

  /** Element i of a homogeneous aggregate, widened to a vector register. */
  function Element(a: Arg, i: nat): seq<Byte>
  {
    if a.hfa.Some? && i < |a.hfa.value.offsets| && a.hfa.value.offsets[i] + a.hfa.value.elementSize <= |a.value|
       && a.hfa.value.elementSize <= 16
    then a.value[a.hfa.value.offsets[i]..a.hfa.value.offsets[i] + a.hfa.value.elementSize] +
        Zeros(16 - a.hfa.value.elementSize)
    else []
  }

  // ---------- the called program's side ----------

  /** A copy the debugger keeps in the program's memory. */
  datatype Block = Block(at: nat, data: seq<Byte>)

  predicate Apart(at: nat, n: nat, b: Block)
  {
    n == 0 || |b.data| == 0 || at + n <= b.at || b.at + |b.data| <= at
  }

  predicate Holds(m: Bytes, b: Block)
  {
    forall a :: b.at <= a < b.at + |b.data| ==> a in m && m[a] == b.data[a - b.at]
  }

  lemma StoreHolds(m: Bytes, at: nat, data: seq<Byte>)
    requires Covered(m, at, |data|)
    ensures Holds(Stored(m, at, data), Block(at, data))
  {}

  lemma StoreKeeps(m: Bytes, at: nat, data: seq<Byte>, b: Block)
    requires Apart(at, |data|, b) && Holds(m, b)
    ensures Holds(Stored(m, at, data), b)
  {}

  /** Memory `now` has all of `m`, unchanged. */
  predicate Extends(m: Bytes, now: Bytes)
  {
    forall a :: a in m ==> a in now && now[a] == m[a]
  }

  /** Nothing is mapped at [at, at + n). */
  predicate Fresh(m: Bytes, at: nat, n: nat)
  {
    forall a :: at <= a < at + n ==> a !in m
  }

  lemma ExtensionKeeps(m: Bytes, now: Bytes, b: Block)
    requires Extends(m, now) && Holds(m, b)
    ensures Holds(now, b)
  {}

  /** What is held is mapped, so fresh memory is apart from it. */
  lemma FreshApart(m: Bytes, at: nat, n: nat, b: Block)
    requires Fresh(m, at, n) && Holds(m, b)
    ensures Apart(at, n, b)
  {
    var a := if at < b.at then b.at else at;
    var mapped := a in m;
  }

  /** Vector registers have sixteen bytes. */
  predicate VectorsWide(v: seq<seq<Byte>>) { forall i :: 0 <= i < |v| ==> |v[i]| == 16 }

  /** The target of a call: its memory, the thread's registers, and the copies made for the call so far. */
  class Target {
    const task: Task
    const stackFloor: nat          // the thread's stack is mapped from here to the stack pointer
    var x: seq<U64>
    var v: seq<seq<Byte>>
    var sp: U64
    var blocks: seq<Block>

    constructor (task: Task, stackFloor: nat, x: seq<U64>, v: seq<seq<Byte>>, sp: U64)
      requires task.Valid() && |x| == 31 && |v| == 32 && VectorsWide(v)
      requires forall a :: stackFloor <= a < sp ==> a in task.bytes
      ensures Valid() && this.task == task && this.x == x && this.v == v && this.sp == sp && blocks == []
    {
      this.task, this.stackFloor, this.x, this.v, this.sp, blocks := task, stackFloor, x, v, sp, [];
    }

    ghost predicate StackMapped(m: Bytes)
      reads this`sp
    {
      forall a :: stackFloor <= a < sp ==> a in m
    }

    ghost predicate Valid()
      reads this, task
    {
      && task.Valid() && |x| == 31 && |v| == 32 && VectorsWide(v) && StackMapped(task.bytes)
      && (forall b :: b in blocks ==> Holds(task.bytes, b) && OffStack(b.at, |b.data|))
    }

    predicate OffStack(at: nat, n: nat)
      reads this`sp
    {
      n == 0 || sp <= stackFloor || at + n <= stackFloor || sp <= at
    }
  }

  /** Fresh memory is off the stack, which is mapped. */
  lemma FreshOffStack(t: Target, m: Bytes, at: nat, n: nat)
    requires t.StackMapped(m) && Fresh(m, at, n)
    ensures t.OffStack(at, n)
  {
    var a := if at < t.stackFloor then t.stackFloor else at;
    var mapped := a in m;
  }

  /** The addresses of [at, at + n). */
  function Span(at: nat, n: nat): (r: set<nat>)
    ensures forall a :: a in r <==> at <= a < at + n
  {
    if n == 0 then {} else Span(at, n - 1) + {at + n - 1}
  }

  /** There is no room for n fresh bytes. */
  predicate Full(m: Bytes, n: nat)
  {
    forall a: nat :: a + n <= USER_LIMIT ==> !Fresh(m, a, n)
  }

  /** The addresses that m lacks are zero in `now` and may be read and written; all others are as they were. */
  predicate Zeroed(m: Bytes, prot: Protections, now: Bytes, prot': Protections)
  {
    && (forall a :: a in now && a !in m ==> now[a] == 0)
    && (forall a :: a in prot' ==> prot'[a] == if a in prot then prot[a] else Protection(true, true, false))
  }

  /** inferior_malloc: mach_vm_allocate maps fresh, zeroed pages somewhere and changes nothing else. */
  method Malloc(t: Target, n: nat) returns (ok: bool, slot: U64)
    requires t.task.Valid()
    modifies t.task`bytes, t.task`prot
    ensures t.task.Valid() && Extends(old(t.task.bytes), t.task.bytes)
    ensures ok ==> Fresh(old(t.task.bytes), slot, n) && Covered(t.task.bytes, slot, n)
    ensures Zeroed(old(t.task.bytes), old(t.task.prot), t.task.bytes, t.task.prot)
    ensures !ok ==> t.task.bytes == old(t.task.bytes) && (t.task.fallible || Full(t.task.bytes, n))
  {
    var pages: nat := *;
    ok, slot := *, *;
    if !(ok && n <= pages && slot + pages <= USER_LIMIT && Fresh(t.task.bytes, slot, pages)) {
      if t.task.fallible || Full(t.task.bytes, n) { return false, slot; }
      slot :| slot + n <= USER_LIMIT && Fresh(t.task.bytes, slot, n);
      ok, pages := true, n;
    }
    var added := Span(slot, pages);
    t.task.bytes := map a | a in t.task.bytes.Keys + added :: if a in t.task.bytes then t.task.bytes[a] else 0;
    t.task.prot :=
      map a | a in t.task.prot.Keys + added :: if a in t.task.prot then t.task.prot[a]
          else Protection(true, true, false);
  }

  /** inferior_malloc, then write_memory. */
  method Copy(t: Target, data: seq<Byte>) returns (ok: bool, slot: U64)
    requires t.Valid()
    modifies t.task`bytes, t.task`prot, t`blocks
    ensures ok ==>
              && t.Valid() && t.blocks == old(t.blocks) + [Block(slot, data)]
              && Extends(old(t.task.bytes), t.task.bytes)
    ensures !ok ==> t.task.fallible || Full(t.task.bytes, |data|)
  {
    hide Holds, Apart, Stored, Covered, Extends, Fresh, Full, Zeroed;
    ok, slot := Malloc(t, |data|);
    if !ok { return; }
    ghost var m := t.task.bytes;
    var w;
    ghost var stored;
    w, stored := WriteMemory(t.task, slot, data);
    if w != Written {
      CoveredAt(m, slot, |data|, stored);
      return false, slot;
    }
    assert data[..stored] == data;
    StoreHolds(m, slot, data);
    FreshOffStack(t, old(t.task.bytes), slot, |data|);
    forall b | b in t.blocks
      ensures Holds(t.task.bytes, b)
    {
      ExtensionKeeps(old(t.task.bytes), m, b);
      FreshApart(old(t.task.bytes), slot, |data|, b);
      StoreKeeps(m, slot, data, b);
    }
    StoreInFresh(old(t.task.bytes), m, slot, data);
    StillMapped(t, old(t.task.bytes), t.task.bytes);
    t.blocks := t.blocks + [Block(slot, data)];
  }

  lemma CoveredAt(m: Bytes, at: nat, n: nat, k: nat)
    requires Covered(m, at, n)
    ensures k < n ==> at + k in m
  {}

  lemma StoreInFresh(m: Bytes, grown: Bytes, at: nat, data: seq<Byte>)
    requires Extends(m, grown) && Fresh(m, at, |data|)
    ensures Extends(m, Stored(grown, at, data))
  {}

  lemma StillMapped(t: Target, m: Bytes, now: Bytes)
    requires t.StackMapped(m) && Extends(m, now)
    ensures t.StackMapped(now)
  {}

  // ---------- setup_arguments ----------

  /** Everything about argument registers that the place does not claim stays as it was. */
  twostate predicate OthersKept(t: Target, p: Place)
    reads t`x, t`v
  {
    && |t.x| == |old(t.x)| && |t.v| == |old(t.v)|
    && (forall k :: 0 <= k < |t.x| && !UsesX(p, k) ==> t.x[k] == old(t.x)[k])
    && (forall k :: 0 <= k < |t.v| && !UsesV(p, k) ==> t.v[k] == old(t.v)[k])
  }

  /** The elements of a homogeneous aggregate go to successive vector registers. */
  method PutFloats(t: Target, a: Arg, first: nat)
    requires |t.v| == 32 && VectorsWide(t.v) && WellFormed(a) && a.hfa.Some?
               && first + |a.hfa.value.offsets| <= ARGUMENT_REGISTERS
    modifies t`v
    ensures |t.v| == 32 && VectorsWide(t.v) && OthersKept(t, Floats(first, |a.hfa.value.offsets|))
    ensures InRegisters(a, Floats(first, |a.hfa.value.offsets|), 0, t.x, t.v)
  {
    var hfa := a.hfa.value;
    var i := 0;
    while i < |hfa.offsets|
      invariant i <= |hfa.offsets| && |t.v| == 32 && VectorsWide(t.v)
      invariant forall k :: 0 <= k < i ==> t.v[first + k] == Element(a, k)
      invariant forall k :: 0 <= k < 32 && !(first <= k < first + i) ==> t.v[k] == old(t.v)[k]
    {
      var at := hfa.offsets[i];
      t.v := t.v[first + i := a.value[at..at + hfa.elementSize] + Zeros(16 - hfa.elementSize)];
      i := i + 1;
    }
  }

  /** A small value goes to successive general registers, word by word. */
  method PutWords(t: Target, value: seq<Byte>, first: nat)
    requires |t.x| == 31 && first + WordsIn(|value|) <= ARGUMENT_REGISTERS
    modifies t`x
    ensures |t.x| == 31 && OthersKept(t, Integers(first, WordsIn(|value|)))
    ensures t.x[first..first + WordsIn(|value|)] == Words(value)
  {
    var words := WordsIn(|value|);
    var j, k := 0, 0;
    while j < |value|
      invariant j == 8 * k && k <= words && |t.x| == 31 && (j < |value| ==> k < words)
      invariant forall i :: 0 <= i < k ==> t.x[first + i] == Words(value)[i]
      invariant forall i :: 0 <= i < 31 && !(first <= i < first + k) ==> t.x[i] == old(t.x)[i]
      decreases |value| + 8 - j
    {
      WordFits(value, k);
      t.x := t.x[first + k := Le(Chunk(value, k))];
      j, k := j + 8, k + 1;
    }
    assert k == words;
    assert forall i :: 0 <= i < words ==> t.x[first..first + words][i] == Words(value)[i];
  }

  /** One argument: copied if it must be, then put where it belongs. */
  method PutArgument(t: Target, a: Arg, u: Counters)
      returns (ok: bool, item: Option<StackValue>, u': Counters, slot: U64)
    requires t.Valid() && WellFormed(a)
    requires u.integer <= ARGUMENT_REGISTERS && u.floating <= ARGUMENT_REGISTERS
    modifies t.task`bytes, t.task`prot, t`x, t`v, t`blocks
    ensures ok ==>
              && t.Valid() && u' == After(u, Choose(a, u)) && item == ItemOf(a, Choose(a, u), slot)
              && InRegisters(a, Choose(a, u), slot, t.x, t.v) && OthersKept(t, Choose(a, u))
              && Extends(old(t.task.bytes), t.task.bytes)
              && t.blocks == if NeedsSlot(a, Choose(a, u)) then old(t.blocks) + [Block(slot, a.value)]
                  else old(t.blocks)
    ensures !ok ==> NeedsSlot(a, Choose(a, u)) && (t.task.fallible || Full(t.task.bytes, |a.value|))
  {
    hide Full, Holds, Words, Element, IsPow2, EncodeLe, Extends;
    Unchanged(t.task.bytes);
    ok, item, u', slot := true, None, u, 0;
    ClampedAlignment(a.alignment);
    var value, size := a.value, a.size;
    if a.reference {
      var address := a.address;
      if address.None? {
        ok, slot := Copy(t, value);
        if !ok { return; }
        address := Some(slot);
      }
      value, size := EncodeLe(address.value, 8), 8;
    }
    var fp := a.hfa.Some?;
    if fp && u.floating + |a.hfa.value.offsets| <= ARGUMENT_REGISTERS {
      PutFloats(t, a, u.floating);
      u' := u.(floating := u.floating + |a.hfa.value.offsets|);
    } else if !fp && size <= 16 && u.integer + (size + 7) / 8 <= ARGUMENT_REGISTERS {
      PutWords(t, value, u.integer);
      u' := u.(integer := u.integer + (size + 7) / 8);
    } else {
      if !fp && size > 16 {
        ok, slot := Copy(t, value);
        if !ok { return; }
        value := EncodeLe(slot, 8);
        if u.integer < ARGUMENT_REGISTERS {
          t.x := t.x[u.integer := slot];
          u' := u.(integer := u.integer + 1);
          return;
        }
      }
      item := Some(StackValue(value, Clamp(a.alignment)));
    }
  }

  lemma Unchanged(m: Bytes)
    ensures Extends(m, m)
  {}

  lemma ExtendsOn(a: Bytes, b: Bytes, c: Bytes)
    requires Extends(a, b) && Extends(b, c)
    ensures Extends(a, c)
  {}

  lemma KeptInRegisters(a: Arg, p: Place, slot: U64, x: seq<U64>, v: seq<seq<Byte>>, x': seq<U64>, v': seq<seq<Byte>>)
    requires InRegisters(a, p, slot, x, v) && |x'| == |x| && |v'| == |v|
    requires forall k :: 0 <= k < |x| && UsesX(p, k) ==> x'[k] == x[k]
    requires forall k :: 0 <= k < |v| && UsesV(p, k) ==> v'[k] == v[k]
    ensures InRegisters(a, p, slot, x', v')
  {
    hide Words, Element;
    if p.Integers? { assert x'[p.first..p.first + p.count] == x[p.first..p.first + p.count]; }
  }

  /** The arguments before the n-th are in place. */
  ghost predicate PutSoFar(args: seq<Arg>, slots: seq<U64>, n: nat, x: seq<U64>, v: seq<seq<Byte>>, blocks: seq<Block>)
    requires n <= |args| && |slots| == n
  {
    forall i :: 0 <= i < n ==>
      && InRegisters(args[i], PlaceOf(args, i), slots[i], x, v)
      && (NeedsSlot(args[i], PlaceOf(args, i)) ==> Block(slots[i], args[i].value) in blocks)
  }

  /** One more argument leaves the earlier ones in place. */
  lemma PutNext(args: seq<Arg>, slots: seq<U64>, n: nat, x: seq<U64>, v: seq<seq<Byte>>, blocks: seq<Block>,
                slot: U64, x': seq<U64>, v': seq<seq<Byte>>, blocks': seq<Block>)
    requires n < |args| && |slots| == n && PutSoFar(args, slots, n, x, v, blocks)
    requires |x'| == |x| && |v'| == |v| && blocks <= blocks'
    requires forall k :: 0 <= k < |x| && !UsesX(PlaceOf(args, n), k) ==> x'[k] == x[k]
    requires forall k :: 0 <= k < |v| && !UsesV(PlaceOf(args, n), k) ==> v'[k] == v[k]
    requires InRegisters(args[n], PlaceOf(args, n), slot, x', v')
    requires NeedsSlot(args[n], PlaceOf(args, n)) ==> Block(slot, args[n].value) in blocks'
    ensures PutSoFar(args, slots + [slot], n + 1, x', v', blocks')
  {
    hide InRegisters, PlaceOf, UsesX, UsesV, NeedsSlot;
    forall i | 0 <= i < n
      ensures InRegisters(args[i], PlaceOf(args, i), slots[i], x', v')
    {
      forall k: nat
        ensures UsesX(PlaceOf(args, i), k) ==> !UsesX(PlaceOf(args, n), k)
        ensures UsesV(PlaceOf(args, i), k) ==> !UsesV(PlaceOf(args, n), k)
      {
        NoSharedRegister(args, i, n, k);
      }
      KeptInRegisters(args[i], PlaceOf(args, i), slots[i], x, v, x', v');
    }
  }

  lemma ItemsNext(args: seq<Arg>, slots: seq<U64>, n: nat, slot: U64)
    requires n < |args| && |slots| == n && AllWellFormed(args)
    ensures var item := ItemOf(args[n], PlaceOf(args, n), slot);
            Items(args[..n + 1], slots + [slot]) == Items(args[..n], slots) + if item.Some? then [item.value] else []
  {
    assert args[..n + 1][..n] == args[..n] && (slots + [slot])[..n] == slots;
    assert PlaceOf(args[..n + 1], n) == PlaceOf(args, n);
  }

  /** The first pass: how much room the stack values take. */
  method MeasureStack(items: seq<StackValue>) returns (count: U64)
    ensures Top(items) + 15 < TWO64 ==> count == Top(items)
  {
    hide Align, AlignUp;
    count := 0;
    var k := 0;
    while k < |items|
      invariant k <= |items|
      invariant Top(items) + 15 < TWO64 ==> count == Top(items[..k])
    {
      TopNext(items, k);
      TopGrows(items, k, |items|);
      TopGrows(items, k + 1, |items|);
      assert items[..|items|] == items;
      if Top(items) + 15 < TWO64 { AlignUpIsAlign(count, items[k].alignment); }
      count := AlignUp(count, items[k].alignment);
      count := Wrap64(count + |items[k].bytes|);
      k := k + 1;
    }
    assert items[..k] == items;
  }

  /** The values fit between the stack's floor and the stack pointer. */
  predicate Room(items: seq<StackValue>, floor: nat, sp: U64)
  {
    floor + Top(items) + 15 <= sp && sp + 15 < TWO64
  }

  /** The second pass: writes the values, each at the next aligned address. */
  method WriteStack(t: Target, items: seq<StackValue>, base: U64) returns (ok: bool)
    requires t.Valid()
    modifies t.task`bytes, t.task`prot
    ensures t.task.Valid()
    ensures ok && base % 16 == 0 && t.stackFloor <= base && base + Top(items) <= t.sp && t.sp + 15 < TWO64 ==>
              && t.Valid() && ChangedWithin(old(t.task.bytes), t.task.bytes, base, base + Top(items))
              && forall k :: 0 <= k < |items| ==> Holds(t.task.bytes, Block(base + Start(items, k), items[k].bytes))
    ensures !ok && base % 16 == 0 && t.stackFloor <= base && base + Top(items) <= t.sp && t.sp + 15 < TWO64 ==>
              t.task.fallible
  {
    hide Align, AlignUp, Holds, Stored, Covered, Top, ChangedWithin;
    NothingChanged(t.task.bytes, base, base + Top(items));
    ghost var fits := base % 16 == 0 && t.stackFloor <= base && base + Top(items) <= t.sp && t.sp + 15 < TWO64;
    var at: U64 := base;
    var k := 0;
    assert Top(items[..0]) == 0 by { TopOfNone(items); }
    while k < |items|
      invariant k <= |items| && t.task.Valid()
      invariant fits ==> t.Valid() && at == base + Top(items[..k])
      invariant fits ==> ChangedWithin(old(t.task.bytes), t.task.bytes, base, base + Top(items))
      invariant fits ==> forall j :: 0 <= j < k ==> Holds(t.task.bytes, Block(base + Start(items, j), items[j].bytes))
    {
      TopNext(items, k);
      TopGrows(items, k, |items|);
      TopGrows(items, k + 1, |items|);
      assert items[..|items|] == items;
      if fits {
        AlignUpIsAlign(at, items[k].alignment);
        AlignShift(base, Top(items[..k]), items[k].alignment);
      }
      at := AlignUp(at, items[k].alignment);
      ghost var m := t.task.bytes;
      var w;
      ghost var stored;
      w, stored := WriteMemory(t.task, at, items[k].bytes);
      if w != Written {
        if fits && stored < |items[k].bytes| { StackAt(t, m, at + stored); }
        return false;
      }
      assert items[k].bytes[..stored] == items[k].bytes;
      if fits {
        ChangedMore(old(t.task.bytes), m, at, items[k].bytes, base, base + Top(items));
        BlocksKept(t, m, at, items[k].bytes);
        ValuesKept(items, base, k, m);
      }
      at := Wrap64(at + |items[k].bytes|);
      k := k + 1;
    }
    ok := true;
  }

  lemma StackAt(t: Target, m: Bytes, a: nat)
    requires t.StackMapped(m) && t.stackFloor <= a < t.sp
    ensures a in m
  {}

  /** A store on the stack leaves the copies alone. */
  lemma BlocksKept(t: Target, m: Bytes, at: nat, data: seq<Byte>)
    requires forall b :: b in t.blocks ==> Holds(m, b) && t.OffStack(b.at, |b.data|)
    requires t.stackFloor <= at && at + |data| <= t.sp
    ensures forall b :: b in t.blocks ==> Holds(Stored(m, at, data), b)
  {
    hide Holds, Stored;
    forall b | b in t.blocks
      ensures Holds(Stored(m, at, data), b)
    {
      assert Apart(at, |data|, b);
      StoreKeeps(m, at, data, b);
    }
  }

  /** Storing value k leaves the earlier values alone. */
  lemma ValuesKept(items: seq<StackValue>, base: nat, k: nat, m: Bytes)
    requires base % 16 == 0 && k < |items| && Covered(m, base + Start(items, k), |items[k].bytes|)
    requires forall j :: 0 <= j < k ==> Holds(m, Block(base + Start(items, j), items[j].bytes))
    ensures var after := Stored(m, base + Start(items, k), items[k].bytes);
            forall j :: 0 <= j <= k ==> Holds(after, Block(base + Start(items, j), items[j].bytes))
  {
    hide Holds, Stored, Covered, Start, Multiple;
    var at := base + Start(items, k);
    forall j | 0 <= j <= k
      ensures Holds(Stored(m, at, items[k].bytes), Block(base + Start(items, j), items[j].bytes))
    {
      if j == k {
        StoreHolds(m, at, items[k].bytes);
      } else {
        StackLayout(items, base, j, k);
        StoreKeeps(m, at, items[k].bytes, Block(base + Start(items, j), items[j].bytes));
      }
    }
  }

  /** The same addresses are mapped, and only bytes in [low, high) may differ. */
  predicate ChangedWithin(m: Bytes, now: Bytes, low: nat, high: nat)
  {
    m.Keys == now.Keys && forall a :: a in m && !(low <= a < high) ==> now[a] == m[a]
  }

  lemma NothingChanged(m: Bytes, low: nat, high: nat)
    ensures ChangedWithin(m, m, low, high)
  {}

  lemma ChangedMore(m: Bytes, before: Bytes, at: nat, data: seq<Byte>, low: nat, high: nat)
    requires ChangedWithin(m, before, low, high) && low <= at && at + |data| <= high
    ensures ChangedWithin(m, Stored(before, at, data), low, high)
  {}

  lemma TopOfNone(items: seq<StackValue>)
    ensures Top(items[..0]) == 0
  {}

  /** Argument n needs a copy, and there is no room for it or the kernel is fallible. */
  predicate CopyFailed(task: Task, args: seq<Arg>, n: nat)
    reads task`bytes
  {
    n < |args| && NeedsSlot(args[n], PlaceOf(args, n)) && (task.fallible || Full(task.bytes, |args[n].value|))
  }

  /** The loop over the arguments: registers and copies are in place, the stack values are collected. */
  method PutArguments(t: Target, args: seq<Arg>) returns (ok: bool, items: seq<StackValue>, ghost slots: seq<U64>)
    requires t.Valid() && AllWellFormed(args)
    modifies t.task`bytes, t.task`prot, t`x, t`v, t`blocks
    ensures ok ==>
              && t.Valid() && |slots| == |args| && items == Items(args, slots)
              && PutSoFar(args, slots, |args|, t.x, t.v, t.blocks)
                  && OnlyUsed(args, |args|, old(t.x), old(t.v), t.x, t.v)
              && Extends(old(t.task.bytes), t.task.bytes)
    ensures !ok ==> |slots| < |args| && CopyFailed(t.task, args, |slots|)
  {
    hide Extends, OnlyUsed, Full;
    hide Holds, Choose, InRegisters, Items, ItemOf, PutSoFar, UsesX, UsesV, NeedsSlot, Used, After, WellFormed;
    ok, items, slots := true, [], [];
    var u, i := Counters(0, 0), 0;
    StartEmpty(args, t);
    Unchanged(t.task.bytes);
    while i < |args|
      invariant i <= |args| && |slots| == i && t.Valid() && u == Used(args[..i]) && t.sp == old(t.sp)
      invariant items == Items(args[..i], slots)
      invariant PutSoFar(args, slots, i, t.x, t.v, t.blocks) && OnlyUsed(args, i, old(t.x), old(t.v), t.x, t.v)
      invariant Extends(old(t.task.bytes), t.task.bytes)
    {
      ghost var x, v, blocks, m := t.x, t.v, t.blocks, t.task.bytes;
      UsedNext(args, i);
      var item, slot;
      ok, item, u, slot := PutArgument(t, args[i], u);
      if !ok { return; }
      PutNext(args, slots, i, x, v, blocks, slot, t.x, t.v, t.blocks);
      ItemsNext(args, slots, i, slot);
      OnlyUsedNext(args, i, old(t.x), old(t.v), x, v, t.x, t.v);
      ExtendsOn(old(t.task.bytes), m, t.task.bytes);
      slots := slots + [slot];
      if item.Some? { items := items + [item.value]; }
      i := i + 1;
    }
    assert args[..i] == args;
  }

  /** setup_arguments.  Every argument ends up in the place its kind and the registers left call for; the stack values
      start at the new, aligned stack pointer.  Registers not given out, and memory outside the new stack values,
      stay. */
  method SetupArguments(t: Target, args: seq<Arg>, ret: Option<U64>) returns (ok: bool, ghost slots: seq<U64>)
    requires t.Valid() && AllWellFormed(args)
    modifies t.task`bytes, t.task`prot, t`x, t`v, t`blocks, t`sp
    ensures ok ==> |slots| == |args| && PutSoFar(args, slots, |args|, t.x, t.v, t.blocks)
    ensures ok ==>
              && |t.x| == 31 && t.x[8] == (if ret.Some? then ret.value else old(t.x)[8])
              && OnlyUsed(args, |args|, old(t.x)[8 := t.x[8]], old(t.v), t.x, t.v)
              && (forall k :: 9 <= k < 31 ==> t.x[k] == old(t.x)[k])
              && (forall k :: 8 <= k < 32 ==> t.v[k] == old(t.v)[k])
    ensures ok && Room(Items(args, slots), t.stackFloor, old(t.sp)) ==>
              var items := Items(args, slots);
              && t.sp % 16 == 0 && t.stackFloor <= t.sp && t.sp + Top(items) <= old(t.sp)
              && (forall b :: b in t.blocks ==> Holds(t.task.bytes, b))
              && (forall k :: 0 <= k < |items| ==> Holds(t.task.bytes, Block(t.sp + Start(items, k), items[k].bytes)))
              && forall a :: a in old(t.task.bytes) && !(t.sp <= a < t.sp + Top(items)) ==>
                   a in t.task.bytes && t.task.bytes[a] == old(t.task.bytes)[a]
    ensures !ok && |slots| != |args| ==> CopyFailed(t.task, args, |slots|)
    ensures !ok && |slots| == |args| && Room(Items(args, slots), t.stackFloor, old(t.sp)) ==> t.task.fallible
  {
    hide CopyFailed, Holds, Items, Top, Start, PutSoFar, AlignDown, WellFormed, OnlyUsed;
    if ret.Some? { t.x := t.x[8 := ret.value]; }
    ghost var x, v := t.x, t.v;
    var items;
    ok, items, slots := PutArguments(t, args);
    if !ok { return; }
    OtherRegistersKept(args, x, v, t.x, t.v);
    assert x == old(t.x)[8 := x[8]];
    var count := MeasureStack(items);
    var base := AlignDown(Wrap64(t.sp - count));
    if Room(items, t.stackFloor, t.sp) { AlignDownIs(t.sp - count); }
    ok := WriteStack(t, items, base);
    t.sp := base;
  }

  lemma StartEmpty(args: seq<Arg>, t: Target)
    ensures Items(args[..0], []) == [] && PutSoFar(args, [], 0, t.x, t.v, t.blocks) && Used(args[..0]) == Counters(0, 0)
    ensures OnlyUsed(args, 0, t.x, t.v, t.x, t.v)
  {}

  /** Of the registers, only those given to the first n arguments have changed. */
  predicate OnlyUsed(args: seq<Arg>, n: nat, x: seq<U64>, v: seq<seq<Byte>>, x': seq<U64>, v': seq<seq<Byte>>)
    requires n <= |args|
  {
    && |x'| == |x| && |v'| == |v|
    && (forall k :: 0 <= k < |x| && (forall i :: 0 <= i < n ==> !UsesX(PlaceOf(args, i), k)) ==> x'[k] == x[k])
    && (forall k :: 0 <= k < |v| && (forall i :: 0 <= i < n ==> !UsesV(PlaceOf(args, i), k)) ==> v'[k] == v[k])
  }

  lemma OnlyUsedNext(args: seq<Arg>, n: nat, x: seq<U64>, v: seq<seq<Byte>>, x': seq<U64>, v': seq<seq<Byte>>,
                     x'': seq<U64>, v'': seq<seq<Byte>>)
    requires n < |args| && OnlyUsed(args, n, x, v, x', v') && |x''| == |x| && |v''| == |v|
    requires forall k :: 0 <= k < |x| && !UsesX(PlaceOf(args, n), k) ==> x''[k] == x'[k]
    requires forall k :: 0 <= k < |v| && !UsesV(PlaceOf(args, n), k) ==> v''[k] == v'[k]
    ensures OnlyUsed(args, n + 1, x, v, x'', v'')
  {
    hide PlaceOf, UsesX, UsesV;
  }

  /** Registers that are not for arguments keep their values. */
  lemma OtherRegistersKept(args: seq<Arg>, x: seq<U64>, v: seq<seq<Byte>>, x': seq<U64>, v': seq<seq<Byte>>)
    requires OnlyUsed(args, |args|, x, v, x', v')
    ensures forall k :: ARGUMENT_REGISTERS <= k < |x| ==> x'[k] == x[k]
    ensures forall k :: ARGUMENT_REGISTERS <= k < |v| ==> v'[k] == v[k]
  {
    hide PlaceOf, UsesX, UsesV;
    forall i, k: nat | 0 <= i < |args| && ARGUMENT_REGISTERS <= k
      ensures !UsesX(PlaceOf(args, i), k) && !UsesV(PlaceOf(args, i), k)
    {
      NoSharedRegister(args, i, i, k);
    }
  }

  // ---------- reading back ----------

  /** Which stack value is argument i's. */
  function StackIndex(args: seq<Arg>, slots: seq<U64>, i: nat): nat
    requires |args| == |slots| && i < |args| && AllWellFormed(args)
  {
    |Items(args[..i], slots[..i])|
  }

  lemma {:induction false} ItemAtIndex(args: seq<Arg>, slots: seq<U64>, i: nat)
    requires |args| == |slots| && i < |args| && AllWellFormed(args)
    requires ItemOf(args[i], PlaceOf(args, i), slots[i]).Some?
    ensures StackIndex(args, slots, i) < |Items(args, slots)|
    ensures Items(args, slots)[StackIndex(args, slots, i)] == ItemOf(args[i], PlaceOf(args, i), slots[i]).value
    decreases |args|
  {
    hide ItemOf;
    var n := |args| - 1;
    var item := ItemOf(args[n], PlaceOf(args, n), slots[n]);
    assert Items(args, slots) == Items(args[..n], slots[..n]) + if item.Some? then [item.value] else [];
    if i < n {
      assert args[..n][..i] == args[..i] && slots[..n][..i] == slots[..i];
      ItemAtIndex(args[..n], slots[..n], i);
    }
  }

  /** Bytes put over part of a value. */
  function Spliced(bytes: seq<Byte>, at: nat, part: seq<Byte>): (r: seq<Byte>)
    requires at + |part| <= |bytes|
    ensures |r| == |bytes|
  {
    bytes[..at] + part + bytes[at + |part|..]
  }

  /** The first n elements of the value are in the registers. */
  predicate ElementsIn(hfa: Hfa, n: nat, v: seq<seq<Byte>>, value: seq<Byte>)
    requires n <= |hfa.offsets| <= |v| && VectorsWide(v) && Spaced(hfa, |value|)
  {
    forall i :: 0 <= i < n ==> ElementIs(hfa, i, v, value)
  }

  predicate ElementIs(hfa: Hfa, i: nat, v: seq<seq<Byte>>, value: seq<Byte>)
    requires i < |hfa.offsets| <= |v| && VectorsWide(v) && Spaced(hfa, |value|)
  {
    v[i][..hfa.elementSize] == value[hfa.offsets[i]..hfa.offsets[i] + hfa.elementSize]
  }

  /** Every byte of the value belongs to an element. */
  predicate Covers(hfa: Hfa, size: nat)
  {
    forall k :: 0 <= k < size ==> InElement(hfa, k)
  }

  predicate InElement(hfa: Hfa, k: nat)
  {
    exists i :: 0 <= i < |hfa.offsets| && hfa.offsets[i] <= k < hfa.offsets[i] + hfa.elementSize
  }

  /** The bytes that belong to no element are zero. */
  predicate GapsZero(hfa: Hfa, value: seq<Byte>)
  {
    forall k :: 0 <= k < |value| && !InElement(hfa, k) ==> value[k] == 0
  }

  /** The elements of a homogeneous aggregate taken from successive vector registers, over zeros. */
  function Gathered(hfa: Hfa, v: seq<seq<Byte>>, n: nat, size: nat): (r: seq<Byte>)
    requires n <= |hfa.offsets| <= |v| && VectorsWide(v) && Spaced(hfa, size)
    ensures |r| == size
  {
    if n == 0 then Zeros(size)
    else Spliced(Gathered(hfa, v, n - 1, size), hfa.offsets[n - 1], v[n - 1][..hfa.elementSize])
  }

  lemma SplicedElsewhere(bytes: seq<Byte>, at: nat, part: seq<Byte>, other: nat, n: nat)
    requires at + |part| <= |bytes| && other + n <= |bytes| && (other + n <= at || at + |part| <= other)
    ensures Spliced(bytes, at, part)[other..other + n] == bytes[other..other + n]
  {}

  /** Splicing element n in leaves the others, which do not overlap it. */
  lemma ElementSpliced(hfa: Hfa, v: seq<seq<Byte>>, n: nat, before: seq<Byte>, j: nat)
    requires j <= n < |hfa.offsets| <= |v| && VectorsWide(v) && Spaced(hfa, |before|)
    requires j < n ==> ElementIs(hfa, j, v, before)
    ensures hfa.offsets[n] + hfa.elementSize <= |before|
    ensures ElementIs(hfa, j, v, Spliced(before, hfa.offsets[n], v[n][..hfa.elementSize]))
  {
    if j < n { SplicedElsewhere(before, hfa.offsets[n], v[n][..hfa.elementSize], hfa.offsets[j], hfa.elementSize); }
  }

  /** What is gathered has every element. */
  lemma {:induction false} GatheredElements(hfa: Hfa, v: seq<seq<Byte>>, n: nat, size: nat)
    requires n <= |hfa.offsets| <= |v| && VectorsWide(v) && Spaced(hfa, size)
    ensures ElementsIn(hfa, n, v, Gathered(hfa, v, n, size))
  {
    hide Spliced, ElementIs, Spaced;
    if n > 0 {
      GatheredElements(hfa, v, n - 1, size);
      forall j | 0 <= j < n
        ensures ElementIs(hfa, j, v, Gathered(hfa, v, n, size))
      {
        ElementSpliced(hfa, v, n - 1, Gathered(hfa, v, n - 1, size), j);
      }
    }
  }

  /** And it has zeros between them. */
  lemma {:induction false} GatheredGap(hfa: Hfa, v: seq<seq<Byte>>, n: nat, size: nat, k: nat)
    requires n <= |hfa.offsets| <= |v| && VectorsWide(v) && Spaced(hfa, size) && k < size && !InElement(hfa, k)
    ensures Gathered(hfa, v, n, size)[k] == 0
    decreases n
  {
    if n > 0 {
      GatheredGap(hfa, v, n - 1, size, k);
      assert !(hfa.offsets[n - 1] <= k < hfa.offsets[n - 1] + hfa.elementSize);
    }
  }

  /** Gathering gives a value back exactly when the bytes that belong to no element are zero. */
  lemma GatheredIff(hfa: Hfa, v: seq<seq<Byte>>, value: seq<Byte>)
    requires |hfa.offsets| <= |v| && VectorsWide(v) && Spaced(hfa, |value|)
    requires ElementsIn(hfa, |hfa.offsets|, v, value)
    ensures Gathered(hfa, v, |hfa.offsets|, |value|) == value <==> GapsZero(hfa, value)
  {
    hide Gathered, Spaced;
    var got := Gathered(hfa, v, |hfa.offsets|, |value|);
    GatheredElements(hfa, v, |hfa.offsets|, |value|);
    forall k | 0 <= k < |value|
      ensures if InElement(hfa, k) then got[k] == value[k] else got[k] == 0
    {
      if InElement(hfa, k) {
        SameInElement(hfa, v, got, value, k);
      } else {
        GatheredGap(hfa, v, |hfa.offsets|, |value|, k);
      }
    }
  }

  /** Registers that hold the elements of two values make them agree inside the elements. */
  lemma SameInElement(hfa: Hfa, v: seq<seq<Byte>>, a: seq<Byte>, b: seq<Byte>, k: nat)
    requires |a| == |b| && |hfa.offsets| <= |v| && VectorsWide(v) && Spaced(hfa, |a|) && k < |a| && InElement(hfa, k)
    requires ElementsIn(hfa, |hfa.offsets|, v, a) && ElementsIn(hfa, |hfa.offsets|, v, b)
    ensures a[k] == b[k]
  {
    hide ElementIs, Spaced, VectorsWide;
    var i :| 0 <= i < |hfa.offsets| && hfa.offsets[i] <= k < hfa.offsets[i] + hfa.elementSize;
    assert ElementIs(hfa, i, v, a) && ElementIs(hfa, i, v, b);
    ElementByte(hfa, i, v, a, k);
    ElementByte(hfa, i, v, b, k);
  }

  lemma ElementByte(hfa: Hfa, i: nat, v: seq<seq<Byte>>, a: seq<Byte>, k: nat)
    requires i < |hfa.offsets| <= |v| && VectorsWide(v) && Spaced(hfa, |a|) && ElementIs(hfa, i, v, a)
    requires hfa.offsets[i] <= k < hfa.offsets[i] + hfa.elementSize
    ensures k < |a| && k - hfa.offsets[i] < |v[i]| && a[k] == v[i][k - hfa.offsets[i]]
  {
    var at := hfa.offsets[i];
    assert at + hfa.elementSize <= |a| && |v[i]| == 16;
    assert a[at..at + hfa.elementSize][k - at] == v[i][..hfa.elementSize][k - at];
  }

  /** The n bytes of an argument as the called function finds them. */
  function Found(p: Place, hfa: Option<Hfa>, n: nat, x: seq<U64>, v: seq<seq<Byte>>, m: Bytes,
      at: nat): Option<seq<Byte>>
    requires VectorsWide(v)
  {
    match p
    case Integers(first, count) =>
      if first + count <= |x| && n <= 8 * count then Some(Unpack(x[first..first + count], n)) else None
    case Pointer(reg) => if reg < |x| && Covered(m, x[reg], n) then Some(Loaded(m, x[reg], n)) else None
    case Stacked => if Covered(m, at, n) then Some(Loaded(m, at, n)) else None
    case PointerStacked =>
      if Covered(m, at, 8) && Covered(m, Le(Loaded(m, at, 8)), n) then Some(Loaded(m, Le(Loaded(m, at, 8)), n))
          else None
    case Floats(first, count) =>
      if hfa.Some? && |hfa.value.offsets| == count && first + count <= |v| && Spaced(hfa.value, n)
      then Some(Gathered(hfa.value, v[first..], count, n)) else None
  }

  lemma HeldIsLoaded(m: Bytes, b: Block)
    requires Holds(m, b)
    ensures Covered(m, b.at, |b.data|) && Loaded(m, b.at, |b.data|) == b.data
  {}

  // ---------- where stacked pointers lie ----------

  /** The value starts at a multiple of eight. */
  predicate OnEight(items: seq<StackValue>, k: nat, base: nat)
  {
    k < |items| && (base + Start(items, k)) % 8 == 0
  }

  lemma OnEightOffset(items: seq<StackValue>, k: nat, base: nat)
    requires k < |items| && base % 16 == 0
    ensures OnEight(items, k, base) <==> Start(items, k) % 8 == 0
    ensures items[k].alignment >= 8 ==> OnEight(items, k, base)
  {
    hide Top, Align;
    ModOfSum(Start(items, k), base / 16 * 2, 8);
    assert base == base / 16 * 2 * 8;
    if items[k].alignment >= 8 { EightAligned(items, k); }
  }

  lemma EightAligned(items: seq<StackValue>, k: nat)
    requires k < |items| && items[k].alignment >= 8
    ensures Start(items, k) % 8 == 0
  {
    hide Top, Align;
    StartAligned(items, k);
    var at := Start(items, k);
    if items[k].alignment == 16 { ModOfSum(0, at / 16 * 2, 8); }
  }

  /** Values of one alignment start at a multiple of eight whatever comes before them exactly when it is eight or
      more. */
  lemma AlwaysOnEightIff(c: Alignment)
    ensures c >= 8 <==>
              forall items: seq<StackValue>, k: nat, base: nat ::
                k < |items| && items[k].alignment == c && base % 16 == 0 ==> OnEight(items, k, base)
  {
    if c >= 8 {
      forall items: seq<StackValue>, k: nat, base: nat | k < |items| && items[k].alignment == c && base % 16 == 0
        ensures OnEight(items, k, base)
      {
        OnEightOffset(items, k, base);
      }
    } else {
      hide OnEight;
      var items := BelowEight(c);
      assert !OnEight(items, 1, 0);
    }
  }

  lemma BelowEight(c: Alignment) returns (items: seq<StackValue>)
    requires c < 8
    ensures |items| == 2 && items[1].alignment == c && !OnEight(items, 1, 0)
  {
    hide Top, Start, OnEight;
    items := [StackValue([0], 1), StackValue(Zeros(8), c)];
    AfterOneByte(items);
    OnEightOffset(items, 1, 0);
  }

  lemma AfterOneByte(items: seq<StackValue>)
    requires |items| == 2 && |items[0].bytes| == 1 && items[0].alignment == 1
    ensures Start(items, 0) == 0 && Start(items, 1) == items[1].alignment
  {
    TopNext(items, 0);
    assert Top(items[..0]) == 0;
  }

  /** A pointer to a copy on the stack has its pointee's alignment: it lies on a multiple of eight whatever comes before
      when the pointee asks for eight, and otherwise exactly when its offset happens to be one. */
  lemma StackedPointerOnEight(args: seq<Arg>, slots: seq<U64>, i: nat, base: nat)
    requires |args| == |slots| && i < |args| && AllWellFormed(args) && base % 16 == 0
    requires PlaceOf(args, i).PointerStacked?
    ensures var (items, k) := (Items(args, slots), StackIndex(args, slots, i));
            && k < |items| && items[k].alignment == Clamp(args[i].alignment) && items[k].bytes == EncodeLe(slots[i], 8)
            && (Clamp(args[i].alignment) >= 8 ==> OnEight(items, k, base))
            && (OnEight(items, k, base) <==> Start(items, k) % 8 == 0)
  {
    hide Items, EncodeLe, OnEight, Start, IsPow2;
    ItemAtIndex(args, slots, i);
    OnEightOffset(Items(args, slots), StackIndex(args, slots, i), base);
  }

  function Word(value: seq<Byte>): Arg { Arg(value, |value|, false, None, None, 8) }

  /** The first n eight-byte arguments take the first n registers and no stack. */
  lemma {:induction false} WordsTakeRegisters(args: seq<Arg>, slots: seq<U64>, n: nat)
    requires n <= ARGUMENT_REGISTERS && n <= |args| == |slots| && AllWellFormed(args)
    requires forall i :: 0 <= i < n ==> |args[i].value| == 8 && args[i] == Word(args[i].value)
    ensures Used(args[..n]) == Counters(n, 0) && Items(args[..n], slots[..n]) == []
  {
    if n > 0 {
      WordsTakeRegisters(args, slots, n - 1);
      UsedNext(args, n - 1);
      assert slots[..n] == slots[..n - 1] + [slots[n - 1]];
      ItemsNext(args, slots[..n - 1], n - 1, slots[n - 1]);
    }
  }

  /** Eight words, one byte, and a twenty-byte struct of bytes. */
  predicate WordsByteStruct(args: seq<Arg>)
  {
    && |args| == 10 && (forall i :: 0 <= i < 8 ==> |args[i].value| == 8 && args[i] == Word(args[i].value))
    && args[8] == Arg([7], 1, false, None, None, 1) && args[9] == Arg(Zeros(20), 20, false, None, None, 1)
  }

  lemma WordsByteStructWellFormed(args: seq<Arg>)
    requires WordsByteStruct(args)
    ensures AllWellFormed(args)
  {
    assert Pow2(0) == 1 && Pow2(3) == 8 by { Pow2Small(); }
    assert IsPow2(1) && IsPow2(8);
    hide IsPow2;
  }

  lemma ByteAndStructPlaces(args: seq<Arg>)
    requires WordsByteStruct(args) && Used(args[..8]) == Counters(8, 0)
    ensures PlaceOf(args, 8) == Stacked && PlaceOf(args, 9) == PointerStacked
  {
    hide Used;
    UsedNext(args, 8);
  }

  lemma TwoItems(args: seq<Arg>, slots: seq<U64>)
    requires |args| == |slots| == 10 && AllWellFormed(args) && Items(args[..8], slots[..8]) == []
    requires PlaceOf(args, 8) == Stacked && PlaceOf(args, 9) == PointerStacked
    ensures StackIndex(args, slots, 9) == 1
    ensures Items(args, slots) ==
              [ItemOf(args[8], Stacked, slots[8]).value, ItemOf(args[9], PointerStacked, slots[9]).value]
  {
    hide Items, ItemOf, PlaceOf, WellFormed;
    assert slots[..9] == slots[..8] + [slots[8]] && slots == slots[..9] + [slots[9]];
    ItemsNext(args, slots[..8], 8, slots[8]);
    ItemsNext(args, slots[..9], 9, slots[9]);
    assert args[..10] == args;
    SomeItems(args, slots);
  }

  lemma SomeItems(args: seq<Arg>, slots: seq<U64>)
    requires |args| == |slots| == 10 && AllWellFormed(args)
    ensures ItemOf(args[8], Stacked, slots[8]).Some? && ItemOf(args[9], PointerStacked, slots[9]).Some?
  {}

  /** The pointer to the struct's copy starts at offset one. */
  lemma PointerAtOffsetOne(args: seq<Arg>, slots: seq<U64>, base: nat)
    requires WordsByteStruct(args) && |slots| == 10 && base % 16 == 0
    ensures AllWellFormed(args) && PlaceOf(args, 8) == Stacked && PlaceOf(args, 9) == PointerStacked
    ensures StackIndex(args, slots, 9) == 1 < |Items(args, slots)| && Start(Items(args, slots), 1) == 1
    ensures !OnEight(Items(args, slots), 1, base)
  {
    hide *;
    WordsByteStructWellFormed(args);
    SizesOfByteStruct(args);
    WordsTakeRegisters(args, slots, 8);
    ByteAndStructPlaces(args);
    TwoItems(args, slots);
    ItemsOfByteStruct(args, slots);
    PointerAfterByte(Items(args, slots), base);
  }

  lemma SizesOfByteStruct(args: seq<Arg>)
    requires WordsByteStruct(args)
    ensures |args| == 10 && 8 <= ARGUMENT_REGISTERS
    ensures forall i :: 0 <= i < 8 ==> |args[i].value| == 8 && args[i] == Word(args[i].value)
  {
    hide Word;
  }

  lemma ItemsOfByteStruct(args: seq<Arg>, slots: seq<U64>)
    requires WordsByteStruct(args) && |slots| == 10 && AllWellFormed(args)
    ensures ItemOf(args[8], Stacked, slots[8]).value == StackValue([7], 1)
    ensures ItemOf(args[9], PointerStacked, slots[9]).value.alignment == 1
  {}

  lemma PointerAfterByte(items: seq<StackValue>, base: nat)
    requires |items| == 2 && items[0] == StackValue([7], 1) && items[1].alignment == 1 && base % 16 == 0
    ensures Start(items, 1) == 1 && !OnEight(items, 1, base)
  {
    hide Start, OnEight;
    AfterOneByte(items);
    OnEightOffset(items, 1, base);
  }

  /** After setup_arguments every argument's bytes can be found in the place the layout gives it: references as an
      address, large values behind a pointer, and vectors exactly when what lies between their elements is zero. */
  lemma ArgumentFound(t: Target, args: seq<Arg>, slots: seq<U64>, i: nat)
    requires |slots| == |args| && i < |args| && AllWellFormed(args) && VectorsWide(t.v)
    requires PutSoFar(args, slots, |args|, t.x, t.v, t.blocks) && (forall b :: b in t.blocks ==> Holds(t.task.bytes, b))
    requires var items := Items(args, slots);
             forall k :: 0 <= k < |items| ==> Holds(t.task.bytes, Block(t.sp + Start(items, k), items[k].bytes))
    requires args[i].hfa.Some? ==> Spaced(args[i].hfa.value, |args[i].value|)
    ensures var (a, p) := (args[i], PlaceOf(args, i));
            && (p.Stacked? || p.PointerStacked? ==> StackIndex(args, slots, i) < |Items(args, slots)|)
            && var at := if !p.Stacked? && !p.PointerStacked? then 0
                         else t.sp + Start(Items(args, slots), StackIndex(args, slots, i));
            Found(p, a.hfa, PassedSize(a), t.x, t.v, t.task.bytes, at) == Some(Passed(a, slots[i])) <==>
              (p.Floats? && a.hfa.Some? ==> GapsZero(a.hfa.value, a.value))
    ensures args[i].reference && args[i].address.None? ==>
              && Covered(t.task.bytes, slots[i], |args[i].value|)
              && Loaded(t.task.bytes, slots[i], |args[i].value|) == args[i].value
  {
    hide Holds, Items, Start, Choose, Covered, Loaded, EncodeLe, Le, Unpack, Words, Gathered, Element, Spaced,
        GapsZero;
    var a, p, slot, m := args[i], PlaceOf(args, i), slots[i], t.task.bytes;
    assert |Passed(a, slot)| == PassedSize(a);
    if NeedsSlot(a, p) { HeldIsLoaded(m, Block(slot, a.value)); }
    if p.Floats? { FloatsFound(a, p, t.x, t.v); }
    if p.Integers? {
      WordsRoundTrip(Passed(a, slot));
    }
    if p.Stacked? || p.PointerStacked? {
      ItemAtIndex(args, slots, i);
      var k := StackIndex(args, slots, i);
      HeldIsLoaded(m, Block(t.sp + Start(Items(args, slots), k), Items(args, slots)[k].bytes));
    }
    if p.PointerStacked? {
      Pow2Large();
      LeRoundTrip(slot, 8);
    }
    if p.Pointer? || p.PointerStacked? { LargeIsValue(args, i); }
  }

  lemma FloatsFound(a: Arg, p: Place, x: seq<U64>, v: seq<seq<Byte>>)
    requires WellFormed(a) && VectorsWide(v) && p.Floats? && InRegisters(a, p, 0, x, v)
               && Spaced(a.hfa.value, |a.value|)
    ensures Gathered(a.hfa.value, v[p.first..], p.count, |a.value|) == a.value <==> GapsZero(a.hfa.value, a.value)
  {
    hide Gathered, GapsZero, Spaced, IsPow2;
    var hfa, w := a.hfa.value, v[p.first..];
    forall i | 0 <= i < p.count
      ensures ElementIs(hfa, i, w, a.value)
    {
      assert w[i] == v[p.first + i] == Element(a, i);
    }
    assert ElementsIn(hfa, p.count, w, a.value);
    GatheredIff(hfa, w, a.value);
  }

  lemma LargeIsValue(args: seq<Arg>, i: nat)
    requires i < |args| && (PlaceOf(args, i).Pointer? || PlaceOf(args, i).PointerStacked?)
    ensures !args[i].reference
  {}

  // ---------- return values ----------

  /** Gathers a homogeneous aggregate from successive vector registers. */
  method GatherFloats(t: Target, hfa: Hfa, size: nat) returns (bytes: seq<Byte>)
    requires t.Valid() && Spaced(hfa, size)
    ensures bytes == Gathered(hfa, t.v, |hfa.offsets|, size)
  {
    bytes := Zeros(size);
    var i := 0;
    while i < |hfa.offsets|
      invariant i <= |hfa.offsets| && bytes == Gathered(hfa, t.v, i, size)
    {
      bytes := Spliced(bytes, hfa.offsets[i], t.v[i][..hfa.elementSize]);
      i := i + 1;
    }
  }

  /** Registers that hold the elements of a value determine the value, if the elements cover it. */
  lemma ElementsDetermine(hfa: Hfa, v: seq<seq<Byte>>, a: seq<Byte>, b: seq<Byte>)
    requires |a| == |b| && |hfa.offsets| <= |v| && VectorsWide(v) && Spaced(hfa, |a|) && Covers(hfa, |a|)
    requires ElementsIn(hfa, |hfa.offsets|, v, a) && ElementsIn(hfa, |hfa.offsets|, v, b)
    ensures a == b
  {
    forall k | 0 <= k < |a|
      ensures a[k] == b[k]
    {
      SameInElement(hfa, v, a, b, k);
    }
  }

  /** The value is where AAPCS64 returns a value of its type; what lies above it in a register does not matter. */
  predicate Returned(hfa: Option<Hfa>, value: seq<Byte>, x: seq<U64>, v: seq<seq<Byte>>, m: Bytes, slot: U64)
    requires |x| == 31 && |v| == 32 && VectorsWide(v) && (hfa.Some? ==> Spaced(hfa.value, |value|))
  {
    if hfa.Some? then ElementsIn(hfa.value, |hfa.value.offsets|, v, value) && Covers(hfa.value, |value|)
    else if |value| > 16 then Holds(m, Block(slot, value))
    else Unpack(x[..WordsIn(|value|)], |value|) == value
  }

  /** read_return_value: whatever value was returned, those are the bytes read, and the slot holds them. */
  method ReadReturnValue(t: Target, hfa: Option<Hfa>, size: nat, slot: U64) returns (ok: bool, bytes: seq<Byte>)
    requires t.Valid() && (hfa.Some? ==> Spaced(hfa.value, size))
    modifies t.task`bytes, t.task`prot
    ensures |bytes| == size || !ok
    ensures ok ==> forall value: seq<Byte> ::
              |value| == size && Returned(hfa, value, t.x, t.v, old(t.task.bytes), slot) ==> bytes == value
    ensures ok ==> Holds(t.task.bytes, Block(slot, bytes))
    ensures !ok ==> t.task.fallible || !Covered(old(t.task.bytes), slot, size)
  {
    hide Holds, Words, EncodeLe, Stored, Covered, Loaded, Spliced, ElementsIn, Covers;
    ok := true;
    if hfa.Some? {
      bytes := GatherFloats(t, hfa.value, size);
      GatheredElements(hfa.value, t.v, |hfa.value.offsets|, size);
      forall value: seq<Byte> | |value| == size && Returned(hfa, value, t.x, t.v, t.task.bytes, slot)
        ensures bytes == value
      {
        ElementsDetermine(hfa.value, t.v, bytes, value);
      }
    } else if size > 16 {
      ok, bytes := t.task.Read(slot, size);
      if !ok { return; }
      forall value: seq<Byte> | |value| == size && Returned(hfa, value, t.x, t.v, t.task.bytes, slot)
        ensures bytes == value
      {
        HeldIsLoaded(t.task.bytes, Block(slot, value));
      }
    } else {
      var x0, x1 := t.x[0], t.x[1];
      bytes := EncodeLe(x0, 8)[..if size < 8 then size else 8];
      if size > 8 { bytes := bytes + EncodeLe(x1, 8)[..size - 8]; }
      forall value: seq<Byte> | |value| == size && Returned(hfa, value, t.x, t.v, t.task.bytes, slot)
        ensures bytes == value
      {
        TwoWords(value, t.x, bytes);
      }
    }
    assert |bytes| == size;
    ghost var m := t.task.bytes;
    var w;
    ghost var stored;
    w, stored := WriteMemory(t.task, slot, bytes);
    if w != Written {
      if Covered(m, slot, size) { CoveredAt(m, slot, size, stored); }
      return false, bytes;
    }
    assert bytes[..stored] == bytes;
    StoreHolds(m, slot, bytes);
  }

  /** Small values come back from x0 and x1. */
  lemma TwoWords(value: seq<Byte>, x: seq<U64>, bytes: seq<Byte>)
    requires |value| <= 16 && |x| >= 2 && |bytes| == |value| && Unpack(x[..WordsIn(|value|)], |value|) == value
    requires forall i :: 0 <= i < |bytes| ==> bytes[i] == if i < 8 then EncodeLe(x[0], 8)[i]
               else EncodeLe(x[1], 8)[i - 8]
    ensures bytes == value
  {
    hide EncodeLe;
    var words := x[..WordsIn(|value|)];
    forall i | 0 <= i < |value|
      ensures bytes[i] == value[i]
    {
      assert value[i] == EncodeLe(words[i / 8], 8)[i % 8];
    }
  }
}
