/** Which types AAPCS64 passes in vector registers: homogeneous floating-point aggregates. */
module HomogeneousAggregates {
  import opened Results

  const MAX_DEPTH := 16
  const MAX_MEMBERS := 4

  datatype Type =
    | Builtin(floating: bool)                        // a debugger-made type; its floats have eight bytes
    | Base(float: bool, size: nat)
    | Alias(target: Type)                            // typedef, const, volatile
    | Array(element: Type, count: nat)               // all dimensions together
    | Struct(size: nat, nonTrivial: bool, children: seq<Child>)
    | Other(size: nat)                               // pointers, references, unions, enumerations, ...

  datatype Child =
    | Member(offset: nat, bitField: bool, of: Type)   // has DW_AT_data_member_location
    | Inheritance
    | Skipped                                           // anything else

  function SizeOf(t: Type): nat
  {
    match t
    case Builtin(_) => 8
    case Base(_, size) => size
    case Alias(target) => SizeOf(target)
    case Array(element, count) => SizeOf(element) * count
    case Struct(size, _, _) => size
    case Other(size) => size
  }

  /** type::strip_cv_typedef */
  function Strip(t: Type): (r: Type)
    ensures !r.Alias? && (r == t || r < t)
  {
    if t.Alias? then Strip(t.target) else t
  }

  // ---------- flattening ----------

  /** A scalar at its offset; anything that is not a plain float is an odd leaf. */
  datatype Leaf = Leaf(offset: nat, size: nat, float: bool)

  /** The scalars of a type laid out at `base`, in order.  What the rules never look into is one odd leaf. */
  function Leaves(t: Type, base: nat): seq<Leaf>
    decreases t, 1, 0
  {
    match t
    case Builtin(floating) => [Leaf(base, 8, floating)]
    case Base(float, size) => [Leaf(base, size, float)]
    case Alias(target) => Leaves(target, base)
    case Array(element, count) => ElementLeaves(element, base, count)
    case Struct(_, nonTrivial, children) =>
      if nonTrivial then [Leaf(base, 0, false)] else ChildLeaves(t, base, |children|)
    case Other(_) => [Leaf(base, 0, false)]
  }

  /** Where element i lies. */
  function PlaceOf(element: Type, base: nat, i: nat): nat { base + i * SizeOf(element) }

  /** The scalars of the first n elements. */
  function ElementLeaves(element: Type, base: nat, n: nat): seq<Leaf>
    decreases element, 2, n
  {
    if n == 0 then [] else ElementLeaves(element, base, n - 1) + Leaves(element, PlaceOf(element, base, n - 1))
  }

  /** The scalars of the first n children. */
  function ChildLeaves(t: Type, base: nat, n: nat): seq<Leaf>
    requires t.Struct? && n <= |t.children|
    decreases t, 0, n
  {
    if n == 0 then [] else ChildLeaves(t, base, n - 1) + LeavesOfChild(t, base, n - 1)
  }

  function LeavesOfChild(t: Type, base: nat, i: nat): seq<Leaf>
    requires t.Struct? && i < |t.children|
    decreases t, 0, i
  {
    match t.children[i]
    case Member(offset, bitField, of) => if bitField then [Leaf(base + offset, 0, false)] else Leaves(of, base + offset)
    case Inheritance => [Leaf(base, 0, false)]
    case Skipped => []
  }

  predicate Plain(leaf: Leaf) { leaf.float && (leaf.size == 4 || leaf.size == 8) }

  /** All leaves are floats of one size, four or eight bytes. */
  predicate Uniform(leaves: seq<Leaf>)
  {
    && (forall i :: 0 <= i < |leaves| ==> Plain(leaves[i]))
    && (forall i :: 0 <= i < |leaves| ==> leaves[i].size == leaves[0].size)
  }

  function OffsetsOf(leaves: seq<Leaf>): (r: seq<nat>)
    ensures |r| == |leaves|
  {
    seq(|leaves|, i requires 0 <= i < |leaves| => leaves[i].offset)
  }

  /** A type the recursion gets through: nested at most `levels` deep. */
  predicate Nested(t: Type, levels: int)
    decreases t
  {
    && levels >= 0
    && match t
       case Alias(target) => Nested(target, levels)
       case Array(element, count) => count > 0 ==> Nested(element, levels - 1)
       case Struct(_, _, children) =>
         forall c :: c in children && c.Member? && !c.bitField ==> Nested(c.of, levels - 1)
       case _ => true
  }

  /** No array without elements, no struct without data, however deep. */
  predicate NoEmpty(t: Type)
  {
    match t
    case Alias(target) => NoEmpty(target)
    case Array(element, count) => count > 0 && NoEmpty(element)
    case Struct(size, _, children) =>
      && size > 0
      && (forall c :: c in children && c.Member? ==> NoEmpty(c.of))
      && (exists c :: c in children && (c.Member? || c.Inheritance?))
    case _ => true
  }

  /** The type has scalars. */
  predicate Filled(t: Type)
  {
    match t
    case Alias(target) => Filled(target)
    case Array(element, count) => count > 0 && Filled(element)
    case Struct(_, nonTrivial, children) => nonTrivial || exists c :: c in children && ChildFilled(c)
    case _ => true
  }

  predicate ChildFilled(c: Child)
  {
    c.Inheritance? || (c.Member? && (c.bitField || Filled(c.of)))
  }

  predicate FilledBefore(t: Type, n: nat)
    requires t.Struct? && n <= |t.children|
  {
    exists i :: 0 <= i < n && ChildFilled(t.children[i])
  }

  /** What the recursion asks of aggregates beyond their scalars: sizes and few elements for arrays, and that no
      struct is left before the first scalar is found.  `any` says whether one has been found. */
  predicate Sound(t: Type, any: bool)
    decreases t, 1, 0
  {
    match t
    case Alias(target) => Sound(target, any)
    case Array(element, count) =>
      && SizeOf(element) > 0 && count <= MAX_MEMBERS
      && (count > 0 ==> Sound(element, any))
      && (count > 1 ==> Sound(element, any || Filled(element)))
    case Struct(_, nonTrivial, children) =>
      nonTrivial || (ChildrenSound(t, any, |children|) && (any || Filled(t)))
    case _ => true
  }

  predicate ChildrenSound(t: Type, any: bool, n: nat)
    requires t.Struct? && n <= |t.children|
    decreases t, 0, n
  {
    n == 0 ||
    (ChildrenSound(t, any, n - 1) &&
     match t.children[n - 1]
     case Member(_, bitField, of) => bitField || Sound(of, any || FilledBefore(t, n - 1))
     case _ => true)
  }

  lemma {:induction false} FilledIff(t: Type, base: nat)
    ensures Leaves(t, base) != [] <==> Filled(t)
    decreases t, 1
  {
    match t {
      case Alias(target) => FilledIff(target, base);
      case Array(element, count) => ElementsFilled(element, base, count);
      case Struct(_, nonTrivial, children) =>
        if !nonTrivial {
          ChildrenFilled(t, base, |children|);
          assert Filled(t) <==> FilledBefore(t, |children|);
        }
      case _ =>
    }
  }

  lemma {:induction false} ElementsFilled(element: Type, base: nat, n: nat)
    ensures ElementLeaves(element, base, n) != [] <==> n > 0 && Filled(element)
    ensures Filled(element) ==> |ElementLeaves(element, base, n)| >= n
    decreases element, 2, n
  {
    hide PlaceOf, SizeOf;
    if n > 0 {
      ElementsFilled(element, base, n - 1);
      FilledIff(element, PlaceOf(element, base, n - 1));
    }
  }

  lemma {:induction false} ChildrenFilled(t: Type, base: nat, n: nat)
    requires t.Struct? && n <= |t.children|
    ensures ChildLeaves(t, base, n) != [] <==> FilledBefore(t, n)
    decreases t, 0, n
  {
    if n > 0 {
      ChildrenFilled(t, base, n - 1);
      var c := t.children[n - 1];
      if c.Member? && !c.bitField { FilledIff(c.of, base + c.offset); }
      assert LeavesOfChild(t, base, n - 1) != [] <==> ChildFilled(c);
      assert FilledBefore(t, n) <==> FilledBefore(t, n - 1) || ChildFilled(c);
    }
  }

  lemma {:induction false} NoEmptyFilled(t: Type)
    requires NoEmpty(t)
    ensures Filled(t)
  {
    match t {
      case Alias(target) => NoEmptyFilled(target);
      case Array(element, _) => NoEmptyFilled(element);
      case Struct(_, nonTrivial, children) =>
        var c :| c in children && (c.Member? || c.Inheritance?);
        if c.Member? { NoEmptyFilled(c.of); }
        assert ChildFilled(c);
      case _ =>
    }
  }

  // ---------- the recursive collector ----------

  datatype Hfa = Hfa(elementSize: nat, offsets: seq<nat>)

  /** The aggregate under construction, shared by all levels of the recursion. */
  class Accumulator {
    var elementSize: nat
    var offsets: seq<nat>

    constructor ()
      ensures elementSize == 0 && offsets == []
    {
      elementSize, offsets := 0, [];
    }

    ghost predicate Valid()
      reads this
    {
      (elementSize == 0) == (offsets == [])
    }

    /** The leaves can join what is there. */
    predicate Takes(leaves: seq<Leaf>)
      reads this
    {
      && Uniform(leaves) && |offsets| + |leaves| <= MAX_MEMBERS
      && (elementSize != 0 && leaves != [] ==> leaves[0].size == elementSize)
    }

    /** These leaves have joined what there was. */
    twostate predicate Took(leaves: seq<Leaf>)
      reads this
    {
      && offsets == old(offsets) + OffsetsOf(leaves)
      && elementSize == if leaves == [] then old(elementSize) else leaves[0].size
    }

    /** A float joins, unless there are others of another size or too many. */
    method Push(size: nat, base: nat) returns (ok: bool)
      requires Valid() && (size == 4 || size == 8) && |offsets| <= MAX_MEMBERS
      modifies this
      ensures ok == old(Takes([Leaf(base, size, true)]))
      ensures ok ==> Valid() && Took([Leaf(base, size, true)])
    {
      if elementSize != 0 && elementSize != size { return false; }
      elementSize := size;
      offsets := offsets + [base];
      ok := |offsets| <= MAX_MEMBERS;
    }
  }

  /** Leaves join one after the other. */
  twostate lemma TakesMore(hfa: Accumulator, new first: seq<Leaf>, new rest: seq<Leaf>)
    requires old(hfa.Valid()) && hfa.Took(first) && old(hfa.Takes(first))
    ensures hfa.Takes(rest) <==> old(hfa.Takes(first + rest))
  {
    var all := first + rest;
    if hfa.Takes(rest) {
      assert forall i :: 0 <= i < |all| ==> all[i] == if i < |first| then first[i] else rest[i - |first|];
      assert Uniform(all);
    }
    if old(hfa.Takes(all)) {
      assert forall i :: 0 <= i < |rest| ==> rest[i] == all[|first| + i];
      assert first != [] ==> all[0] == first[0];
      assert Uniform(rest);
    }
  }

  /** What is refused at first stays refused. */
  twostate lemma PrefixTaken(hfa: Accumulator, new first: seq<Leaf>, new rest: seq<Leaf>)
    requires old(hfa.Takes(first + rest))
    ensures old(hfa.Takes(first))
  {
    var all := first + rest;
    assert forall i :: 0 <= i < |first| ==> first[i] == all[i];
  }

  /** Joining after joining. */
  twostate lemma TookMore(hfa: Accumulator, new es: nat, new offs: seq<nat>, new first: seq<Leaf>, new rest: seq<Leaf>)
    requires old(hfa.Takes(first + rest))
    requires offs == old(hfa.offsets) + OffsetsOf(first)
               && es == (if first == [] then old(hfa.elementSize) else first[0].size)
    requires hfa.offsets == offs + OffsetsOf(rest) && hfa.elementSize == (if rest == [] then es else rest[0].size)
    ensures hfa.Took(first + rest)
  {
    var all := first + rest;
    assert OffsetsOf(all) == OffsetsOf(first) + OffsetsOf(rest);
    if first != [] && rest != [] { assert all[|first|].size == all[0].size; }
  }

  lemma OddLeaf(hfa: Accumulator, rest: seq<Leaf>)
    requires |rest| == 1 && !Plain(rest[0])
    ensures !hfa.Takes(rest)
  {}

  lemma NothingToTake(hfa: Accumulator)
    requires |hfa.offsets| <= MAX_MEMBERS
    ensures hfa.Takes([])
  {}

  twostate lemma ElementsTaken(hfa: Accumulator, new element: Type, new base: nat, new k: nat, new n: nat)
    requires k <= n && old(hfa.Takes(ElementLeaves(element, base, n)))
    ensures old(hfa.Takes(ElementLeaves(element, base, k)))
    decreases n
  {
    hide PlaceOf, SizeOf;
    if k < n {
      PrefixTaken(hfa, ElementLeaves(element, base, n - 1), Leaves(element, PlaceOf(element, base, n - 1)));
      ElementsTaken(hfa, element, base, k, n - 1);
    }
  }

  twostate lemma ChildrenTaken(hfa: Accumulator, new t: Type, new base: nat, new k: nat, new n: nat)
    requires t.Struct? && k <= n <= |t.children| && old(hfa.Takes(ChildLeaves(t, base, n)))
    ensures old(hfa.Takes(ChildLeaves(t, base, k)))
    decreases n
  {
    if k < n {
      PrefixTaken(hfa, ChildLeaves(t, base, n - 1), LeavesOfChild(t, base, n - 1));
      ChildrenTaken(hfa, t, base, k, n - 1);
    }
  }

  /** A type without empty aggregates but without size has a scalar that is no float. */
  lemma {:induction false} SizelessIsOdd(t: Type, base: nat)
    requires NoEmpty(t) && SizeOf(t) == 0
    ensures !Uniform(Leaves(t, base))
    decreases t
  {
    hide PlaceOf;
    match t {
      case Alias(target) => SizelessIsOdd(target, base);
      case Array(element, count) =>
        assert SizeOf(element) == 0 by { ZeroProduct(SizeOf(element), count); }
        var last := Leaves(element, PlaceOf(element, base, count - 1));
        SizelessIsOdd(element, PlaceOf(element, base, count - 1));
        NotUniformAfter(ElementLeaves(element, base, count - 1), last);
      case Base(_, _) => assert !Plain(Leaves(t, base)[0]);
      case Other(_) => assert !Plain(Leaves(t, base)[0]);
      case Builtin(_) =>
      case Struct(_, _, _) =>
    }
  }

  lemma ZeroProduct(x: nat, n: nat)
    requires n > 0 && x * n == 0
    ensures x == 0
  {}

  lemma NotUniformAfter(first: seq<Leaf>, rest: seq<Leaf>)
    requires !Uniform(rest)
    ensures !Uniform(first + rest)
  {
    var all := first + rest;
    assert forall i :: 0 <= i < |rest| ==> rest[i] == all[|first| + i];
    if Uniform(all) { assert forall i :: 0 <= i < |rest| ==> Plain(rest[i]) && rest[i].size == all[0].size; }
  }

  /** collect: adds the scalars of a type to the aggregate, or refuses.  It succeeds exactly when the type is sound,
      is not nested too deep and all its scalars can join. */
  method Collect(t: Type, base: nat, hfa: Accumulator, depth: nat) returns (ok: bool)
    requires hfa.Valid() && |hfa.offsets| <= MAX_MEMBERS
    modifies hfa
    ensures ok == old(Sound(t, hfa.offsets != []) && Nested(t, MAX_DEPTH - depth) && hfa.Takes(Leaves(t, base)))
    ensures ok ==> hfa.Valid() && |hfa.offsets| <= MAX_MEMBERS && hfa.Took(Leaves(t, base))
    decreases t, 1
  {
    if depth > MAX_DEPTH { return false; }
    var value := Strip(t);
    StripKeeps(t, base, MAX_DEPTH - depth);
    match value {
      case Builtin(floating) =>
        if !floating {
          OddLeaf(hfa, Leaves(value, base));
          return false;
        }
        ok := hfa.Push(8, base);
      case Base(float, size) =>
        if !float || (size != 4 && size != 8) {
          OddLeaf(hfa, Leaves(value, base));
          return false;
        }
        ok := hfa.Push(size, base);
      case Array(element, count) =>
        ok := CollectElements(value, base, hfa, depth);
      case Struct(_, nonTrivial, children) =>
        if nonTrivial {
          OddLeaf(hfa, Leaves(value, base));
          return false;
        }
        ok := CollectChildren(value, base, hfa, depth);
      case Other(_) =>
        OddLeaf(hfa, Leaves(value, base));
        ok := false;
    }
  }

  lemma {:induction false} StripKeeps(t: Type, base: nat, levels: int)
    ensures Leaves(Strip(t), base) == Leaves(t, base)
    ensures levels >= 0 ==> Nested(Strip(t), levels) == Nested(t, levels)
    ensures forall any :: Sound(Strip(t), any) == Sound(t, any)
  {
    if t.Alias? { StripKeeps(t.target, base, levels); }
  }

  method CollectElements(t: Type, base: nat, hfa: Accumulator, depth: nat) returns (ok: bool)
    requires hfa.Valid() && |hfa.offsets| <= MAX_MEMBERS && t.Array? && depth <= MAX_DEPTH
    modifies hfa
    ensures ok == old(Sound(t, hfa.offsets != []) && Nested(t, MAX_DEPTH - depth) && hfa.Takes(Leaves(t, base)))
    ensures ok ==> hfa.Valid() && |hfa.offsets| <= MAX_MEMBERS && hfa.Took(Leaves(t, base))
    decreases t, 0
  {
    hide Uniform, Sound;
    NothingToTake(hfa);
    var element, size := t.element, SizeOf(t.element);
    ghost var any := hfa.offsets != [];
    SoundArray(t, any);
    if size == 0 || t.count > MAX_MEMBERS { return false; }
    var i := 0;
    while i < t.count
      invariant i <= t.count && hfa.Valid() && |hfa.offsets| <= MAX_MEMBERS
      invariant old(hfa.Takes(ElementLeaves(element, base, i))) && hfa.Took(ElementLeaves(element, base, i))
      invariant i > 0 ==> Nested(element, MAX_DEPTH - depth - 1) && Sound(element, any)
      invariant i > 1 ==> Sound(element, any || Filled(element))
    {
      ghost var first, rest := ElementLeaves(element, base, i), Leaves(element, PlaceOf(element, base, i));
      TakesMore(hfa, first, rest);
      if old(hfa.Takes(ElementLeaves(element, base, t.count))) { ElementsTaken(hfa, element, base, i + 1, t.count); }
      ElementsFilled(element, base, i);
      ghost var es, offs := hfa.elementSize, hfa.offsets;
      ok := Collect(element, base + i * size, hfa, depth + 1);
      if !ok { return; }
      TookMore(hfa, es, offs, first, rest);
      i := i + 1;
    }
    ok := true;
  }

  lemma SoundArray(t: Type, any: bool)
    requires t.Array?
    ensures Sound(t, any) <==>
              && SizeOf(t.element) > 0 && t.count <= MAX_MEMBERS
              && (t.count > 0 ==> Sound(t.element, any))
              && (t.count > 1 ==> Sound(t.element, any || Filled(t.element)))
  {}

  method CollectChildren(t: Type, base: nat, hfa: Accumulator, depth: nat) returns (ok: bool)
    requires hfa.Valid() && |hfa.offsets| <= MAX_MEMBERS && t.Struct? && !t.nonTrivial && depth <= MAX_DEPTH
    modifies hfa
    ensures ok == old(Sound(t, hfa.offsets != []) && Nested(t, MAX_DEPTH - depth) && hfa.Takes(Leaves(t, base)))
    ensures ok ==> hfa.Valid() && |hfa.offsets| <= MAX_MEMBERS && hfa.Took(Leaves(t, base))
    decreases t, 0
  {
    hide Uniform, Sound, ChildrenSound, Filled, FilledBefore;
    NothingToTake(hfa);
    ghost var any := hfa.offsets != [];
    SoundStruct(t, any);
    NestedStruct(t, MAX_DEPTH - depth);
    var i := 0;
    while i < |t.children|
      invariant i <= |t.children| && hfa.Valid() && |hfa.offsets| <= MAX_MEMBERS
      invariant old(hfa.Takes(ChildLeaves(t, base, i))) && hfa.Took(ChildLeaves(t, base, i))
      invariant ChildrenSound(t, any, i) && ChildrenNested(t, MAX_DEPTH - depth, i)
    {
      ghost var first, rest := ChildLeaves(t, base, i), LeavesOfChild(t, base, i);
      TakesMore(hfa, first, rest);
      if old(hfa.Takes(ChildLeaves(t, base, |t.children|))) { ChildrenTaken(hfa, t, base, i + 1, |t.children|); }
      ChildrenFilled(t, base, i);
      NextChild(t, any, MAX_DEPTH - depth, i);
      ghost var es, offs := hfa.elementSize, hfa.offsets;
      var child := t.children[i];
      if child.Inheritance? || (child.Member? && child.bitField) {
        OddLeaf(hfa, rest);
        return false;
      }
      if child.Member? {
        ok := Collect(child.of, base + child.offset, hfa, depth + 1);
        if !ok { return; }
      }
      TookMore(hfa, es, offs, first, rest);
      i := i + 1;
    }
    ChildrenFilled(t, base, i);
    ok := hfa.offsets != [] && |hfa.offsets| <= MAX_MEMBERS;
  }

  predicate ChildrenNested(t: Type, levels: int, n: nat)
    requires t.Struct? && n <= |t.children|
  {
    forall i :: 0 <= i < n && t.children[i].Member? && !t.children[i].bitField ==> Nested(t.children[i].of, levels - 1)
  }

  lemma NestedStruct(t: Type, levels: nat)
    requires t.Struct?
    ensures Nested(t, levels) <==> ChildrenNested(t, levels, |t.children|)
  {
    if ChildrenNested(t, levels, |t.children|) {
      forall c | c in t.children && c.Member? && !c.bitField
        ensures Nested(c.of, levels - 1)
      {
        var i :| 0 <= i < |t.children| && t.children[i] == c;
      }
    }
  }

  lemma SoundStruct(t: Type, any: bool)
    requires t.Struct? && !t.nonTrivial
    ensures Sound(t, any) <==> ChildrenSound(t, any, |t.children|) && (any || FilledBefore(t, |t.children|))
    ensures forall n :: 0 <= n <= |t.children| && !ChildrenSound(t, any, n) ==> !ChildrenSound(t, any, |t.children|)
    ensures ChildrenSound(t, any, 0)
  {
    assert Filled(t) <==> FilledBefore(t, |t.children|);
    forall n | 0 <= n <= |t.children| && !ChildrenSound(t, any, n)
      ensures !ChildrenSound(t, any, |t.children|)
    {
      UnsoundStays(t, any, n, |t.children|);
    }
  }

  lemma {:induction false} UnsoundStays(t: Type, any: bool, k: nat, n: nat)
    requires t.Struct? && k <= n <= |t.children| && !ChildrenSound(t, any, k)
    ensures !ChildrenSound(t, any, n)
    decreases n
  {
    if k < n { UnsoundStays(t, any, k, n - 1); }
  }

  /** Child i, taken with what came before it. */
  lemma NextChild(t: Type, any: bool, levels: int, i: nat)
    requires t.Struct? && i < |t.children| && ChildrenSound(t, any, i) && ChildrenNested(t, levels, i)
    ensures var c := t.children[i];
            var fine := !c.Member? || c.bitField;
            && (ChildrenSound(t, any, i + 1) <==> fine || Sound(c.of, any || FilledBefore(t, i)))
            && (ChildrenNested(t, levels, i + 1) <==> fine || Nested(c.of, levels - 1))
            && (!fine && !Nested(c.of, levels - 1) ==> !ChildrenNested(t, levels, |t.children|))
  {}

  // ---------- where the scalars of a laid-out type lie ----------

  /** The members lie inside their struct and do not overlap, however deep. */
  predicate LaidOut(t: Type)
  {
    match t
    case Alias(target) => LaidOut(target)
    case Array(element, _) => LaidOut(element)
    case Struct(size, _, children) =>
      && (forall c :: c in children && c.Member? ==> LaidOut(c.of) && c.offset + SizeOf(c.of) <= size)
      && MembersApart(children)
    case _ => true
  }

  predicate MembersApart(children: seq<Child>)
  {
    forall i, j :: 0 <= i < j < |children| && children[i].Member? && children[j].Member? ==>
      || children[i].offset + SizeOf(children[i].of) <= children[j].offset
      || children[j].offset + SizeOf(children[j].of) <= children[i].offset
  }

  predicate Within(leaf: Leaf, low: nat, high: nat) { low <= leaf.offset && leaf.offset + leaf.size <= high }

  predicate AllWithin(leaves: seq<Leaf>, low: nat, high: nat)
  {
    forall i :: 0 <= i < |leaves| ==> Within(leaves[i], low, high)
  }

  predicate Separate(a: Leaf, b: Leaf) { a.offset + a.size <= b.offset || b.offset + b.size <= a.offset }

  predicate AllSeparate(leaves: seq<Leaf>)
  {
    forall i, j :: 0 <= i < j < |leaves| ==> Separate(leaves[i], leaves[j])
  }

  lemma Concatenated(first: seq<Leaf>, rest: seq<Leaf>, low: nat, high: nat)
    requires AllWithin(first, low, high) && AllWithin(rest, low, high) && AllSeparate(first) && AllSeparate(rest)
    requires forall i, j :: 0 <= i < |first| && 0 <= j < |rest| ==> Separate(first[i], rest[j])
    ensures AllWithin(first + rest, low, high) && AllSeparate(first + rest)
  {
    var all := first + rest;
    assert forall i :: 0 <= i < |first| ==> all[i] == first[i];
    assert forall i :: |first| <= i < |all| ==> all[i] == rest[i - |first|];
  }

  /** The scalars of a laid-out type lie inside it and do not overlap. */
  lemma {:induction false} LeavesPlaced(t: Type, base: nat)
    requires LaidOut(t)
    ensures AllWithin(Leaves(t, base), base, base + SizeOf(t)) && AllSeparate(Leaves(t, base))
    decreases t, 1, 0
  {
    match t {
      case Alias(target) => LeavesPlaced(target, base);
      case Array(element, count) => ElementsPlaced(element, base, count);
      case Struct(size, nonTrivial, children) => if !nonTrivial { ChildrenPlaced(t, base, |children|); }
      case _ =>
    }
  }

  lemma {:induction false} ElementsPlaced(element: Type, base: nat, n: nat)
    requires LaidOut(element)
    ensures AllWithin(ElementLeaves(element, base, n), base, base + SizeOf(element) * n)
    ensures AllSeparate(ElementLeaves(element, base, n))
    decreases element, 2, n
  {
    hide LaidOut, AllWithin, AllSeparate, SizeOf;
    if n == 0 {
      NoLeaves(base, base + SizeOf(element) * n);
    } else {
      var first, at := ElementLeaves(element, base, n - 1), PlaceOf(element, base, n - 1);
      var rest := Leaves(element, at);
      ElementsPlaced(element, base, n - 1);
      LeavesPlaced(element, at);
      ProductNext(SizeOf(element), n);
      FollowedBy(first, rest, base, at, base + SizeOf(element) * n);
    }
  }

  lemma ProductNext(size: nat, n: nat)
    requires n > 0
    ensures size * n == size * (n - 1) + size && (n - 1) * size == size * (n - 1)
  {}

  lemma NoLeaves(low: nat, high: nat)
    ensures AllWithin([], low, high) && AllSeparate([])
  {}

  /** Scalars below a point and scalars above it. */
  lemma FollowedBy(first: seq<Leaf>, rest: seq<Leaf>, low: nat, at: nat, high: nat)
    requires low <= at <= high
    requires AllWithin(first, low, at) && AllWithin(rest, at, high) && AllSeparate(first) && AllSeparate(rest)
    ensures AllWithin(first + rest, low, high) && AllSeparate(first + rest)
  {
    assert forall i :: 0 <= i < |first| ==> Within(first[i], low, at);
    assert forall j :: 0 <= j < |rest| ==> Within(rest[j], at, high);
    Concatenated(first, rest, low, high);
  }

  /** Where the scalars of child i lie. */
  function ChildLow(t: Type, base: nat, i: nat): nat
    requires t.Struct? && i < |t.children|
  {
    if t.children[i].Member? then base + t.children[i].offset else base
  }

  function ChildHigh(t: Type, base: nat, i: nat): nat
    requires t.Struct? && i < |t.children|
  {
    if t.children[i].Member? then base + t.children[i].offset + SizeOf(t.children[i].of) else base
  }

  lemma ChildPlaced(t: Type, base: nat, i: nat)
    requires t.Struct? && i < |t.children| && LaidOut(t)
    ensures AllWithin(LeavesOfChild(t, base, i), ChildLow(t, base, i), ChildHigh(t, base, i))
    ensures AllSeparate(LeavesOfChild(t, base, i)) && ChildHigh(t, base, i) <= base + SizeOf(t)
    decreases t, 0, i
  {
    var c := t.children[i];
    assert c in t.children;
    if c.Member? && !c.bitField { LeavesPlaced(c.of, base + c.offset); }
  }

  /** A scalar of the first n children is one child's. */
  lemma {:induction false} OfSomeChild(t: Type, base: nat, n: nat, k: nat) returns (i: nat)
    requires t.Struct? && n <= |t.children| && LaidOut(t) && k < |ChildLeaves(t, base, n)|
    ensures i < n && Within(ChildLeaves(t, base, n)[k], ChildLow(t, base, i), ChildHigh(t, base, i))
    decreases t, 0, n, 0
  {
    var first, rest := ChildLeaves(t, base, n - 1), LeavesOfChild(t, base, n - 1);
    if k < |first| {
      i := OfSomeChild(t, base, n - 1, k);
    } else {
      i := n - 1;
      ChildPlaced(t, base, n - 1);
      assert ChildLeaves(t, base, n)[k] == rest[k - |first|];
    }
  }

  lemma {:induction false} ChildrenPlaced(t: Type, base: nat, n: nat)
    requires t.Struct? && n <= |t.children| && LaidOut(t)
    ensures AllWithin(ChildLeaves(t, base, n), base, base + SizeOf(t)) && AllSeparate(ChildLeaves(t, base, n))
    decreases t, 0, n, 1
  {
    if n > 0 {
      var first, rest := ChildLeaves(t, base, n - 1), LeavesOfChild(t, base, n - 1);
      ChildrenPlaced(t, base, n - 1);
      ChildPlaced(t, base, n - 1);
      forall k, j | 0 <= k < |first| && 0 <= j < |rest|
        ensures Separate(first[k], rest[j])
      {
        var i := OfSomeChild(t, base, n - 1, k);
        assert Within(rest[j], ChildLow(t, base, n - 1), ChildHigh(t, base, n - 1));
        assert t.children[i].Member? && t.children[n - 1].Member? ==> MembersApart(t.children);
      }
      assert forall j :: 0 <= j < |rest| ==> Within(rest[j], base, base + SizeOf(t));
      Concatenated(first, rest, base, base + SizeOf(t));
    }
  }

  // ---------- which scalars there are, and in which order ----------

  /** The scalar that a path of element and member numbers leads to, in a type laid out at `base`: element i of an array
      lies i sizes behind the first, a member at its offset. */
  function ScalarAt(t: Type, base: nat, path: seq<nat>): Option<Leaf>
    decreases t
  {
    match t
    case Builtin(floating) => if path == [] then Some(Leaf(base, 8, floating)) else None
    case Base(float, size) => if path == [] then Some(Leaf(base, size, float)) else None
    case Alias(target) => ScalarAt(target, base, path)
    case Array(element, count) =>
      if path != [] && path[0] < count then ScalarAt(element, base + SizeOf(element) * path[0], path[1..]) else None
    case Struct(_, nonTrivial, children) =>
      if nonTrivial then if path == [] then Some(Leaf(base, 0, false)) else None
      else if path == [] || path[0] >= |children| then None
      else (match children[path[0]]
            case Member(offset, bitField, of) =>
              if !bitField then ScalarAt(of, base + offset, path[1..])
              else if |path| == 1 then Some(Leaf(base + offset, 0, false)) else None
            case Inheritance => if |path| == 1 then Some(Leaf(base, 0, false)) else None
            case Skipped => None)
    case Other(_) => if path == [] then Some(Leaf(base, 0, false)) else None
  }

  lemma {:induction false} LeafOfPath(t: Type, base: nat, path: seq<nat>)
    requires ScalarAt(t, base, path).Some?
    ensures ScalarAt(t, base, path).value in Leaves(t, base)
    decreases t
  {
    hide SizeOf, PlaceOf;
    match t {
      case Alias(target) => LeafOfPath(target, base, path);
      case Array(element, count) =>
        LeafOfPath(element, base + SizeOf(element) * path[0], path[1..]);
        PlaceIs(element, base, path[0]);
        ElementLeavesIn(element, base, path[0], count);
      case Struct(_, nonTrivial, children) =>
        if !nonTrivial {
          var c := children[path[0]];
          if c.Member? && !c.bitField { LeafOfPath(c.of, base + c.offset, path[1..]); }
          ChildLeavesIn(t, base, path[0], |children|);
        }
      case _ =>
    }
  }

  lemma PlaceIs(element: Type, base: nat, i: nat)
    ensures PlaceOf(element, base, i) == base + SizeOf(element) * i
  {
    hide SizeOf;
  }

  lemma {:induction false} ElementLeavesIn(element: Type, base: nat, i: nat, n: nat)
    requires i < n
    ensures forall leaf :: leaf in Leaves(element, PlaceOf(element, base, i)) ==>
              leaf in ElementLeaves(element, base, n)
    decreases n
  {
    hide PlaceOf, Leaves;
    if i < n - 1 { ElementLeavesIn(element, base, i, n - 1); }
  }

  lemma {:induction false} ChildLeavesIn(t: Type, base: nat, i: nat, n: nat)
    requires t.Struct? && i < n <= |t.children|
    ensures forall leaf :: leaf in LeavesOfChild(t, base, i) ==> leaf in ChildLeaves(t, base, n)
    decreases n
  {
    hide LeavesOfChild;
    if i < n - 1 { ChildLeavesIn(t, base, i, n - 1); }
  }

  lemma {:induction false} PathOfLeaf(t: Type, base: nat, leaf: Leaf) returns (path: seq<nat>)
    requires leaf in Leaves(t, base)
    ensures ScalarAt(t, base, path) == Some(leaf)
    decreases t, 1, 0
  {
    path := [];
    match t {
      case Alias(target) => path := PathOfLeaf(target, base, leaf);
      case Array(element, count) => path := PathOfElement(element, base, count, leaf);
      case Struct(_, nonTrivial, children) =>
        if !nonTrivial {
          var i := ChildOfLeaf(t, base, |children|, leaf);
          var c := children[i];
          var rest: seq<nat> := [];
          if c.Member? && !c.bitField { rest := PathOfLeaf(c.of, base + c.offset, leaf); }
          path := [i] + rest;
          assert path[1..] == rest;
        }
      case _ =>
    }
  }

  lemma {:induction false} PathOfElement(element: Type, base: nat, n: nat, leaf: Leaf) returns (path: seq<nat>)
    requires leaf in ElementLeaves(element, base, n)
    ensures path != [] && path[0] < n
    ensures ScalarAt(element, base + SizeOf(element) * path[0], path[1..]) == Some(leaf)
    decreases element, 2, n
  {
    hide ScalarAt, Leaves, SizeOf, PlaceOf;
    if leaf in ElementLeaves(element, base, n - 1) {
      path := PathOfElement(element, base, n - 1, leaf);
    } else {
      var rest := PathOfLeaf(element, PlaceOf(element, base, n - 1), leaf);
      PlaceIs(element, base, n - 1);
      path := [n - 1] + rest;
      assert path[1..] == rest;
    }
  }

  lemma {:induction false} ChildOfLeaf(t: Type, base: nat, n: nat, leaf: Leaf) returns (i: nat)
    requires t.Struct? && n <= |t.children| && leaf in ChildLeaves(t, base, n)
    ensures i < n && leaf in LeavesOfChild(t, base, i)
    decreases n
  {
    hide LeavesOfChild;
    if leaf in ChildLeaves(t, base, n - 1) { i := ChildOfLeaf(t, base, n - 1, leaf); } else { i := n - 1; }
  }

  /** Some path in the type leads to the scalar. */
  ghost predicate IsScalar(t: Type, base: nat, leaf: Leaf) { exists path :: ScalarAt(t, base, path) == Some(leaf) }

  /** The leaves are the scalars that paths lead to. */
  lemma LeavesAre(t: Type, base: nat, leaf: Leaf)
    ensures leaf in Leaves(t, base) <==> IsScalar(t, base, leaf)
  {
    hide Leaves, ScalarAt;
    if leaf in Leaves(t, base) {
      var path := PathOfLeaf(t, base, leaf);
    } else if path :| ScalarAt(t, base, path) == Some(leaf) {
      LeafOfPath(t, base, path);
    }
  }

  /** The scalars of an array of scalars lie one directly behind the other. */
  lemma {:induction false} ArrayOfScalars(element: Type, base: nat, n: nat, i: nat)
    requires (element.Builtin? || element.Base?) && i < n
    ensures var leaves := Leaves(Array(element, n), base);
            && |leaves| == n && leaves[0].offset == base
            && (i > 0 ==> leaves[i].offset == leaves[i - 1].offset + leaves[i - 1].size)
    decreases n
  {
    ScalarsBefore(element, base, n);
  }

  lemma {:induction false} ScalarsBefore(element: Type, base: nat, n: nat)
    requires element.Builtin? || element.Base?
    ensures |ElementLeaves(element, base, n)| == n
    ensures forall i :: 0 <= i < n ==>
              && ElementLeaves(element, base, n)[i].size == SizeOf(element)
              && ElementLeaves(element, base, n)[i].offset == PlaceOf(element, base, i)
    decreases n
  {
    if n > 0 { ScalarsBefore(element, base, n - 1); }
  }

  /** Members follow one another, however deep. */
  predicate InOrder(t: Type)
  {
    match t
    case Alias(target) => InOrder(target)
    case Array(element, _) => InOrder(element)
    case Struct(size, _, children) =>
      && (forall c :: c in children && c.Member? ==> InOrder(c.of) && c.offset + SizeOf(c.of) <= size)
      && MembersFollow(children)
    case _ => true
  }

  predicate MembersFollow(children: seq<Child>)
  {
    forall i, j :: 0 <= i < j < |children| && children[i].Member? && children[j].Member? ==>
      children[i].offset + SizeOf(children[i].of) <= children[j].offset
  }

  lemma {:induction false} OrderedIsLaidOut(t: Type)
    requires InOrder(t)
    ensures LaidOut(t)
  {
    match t {
      case Alias(target) => OrderedIsLaidOut(target);
      case Array(element, _) => OrderedIsLaidOut(element);
      case Struct(_, _, children) =>
        forall c | c in children && c.Member?
          ensures LaidOut(c.of)
        {
          OrderedIsLaidOut(c.of);
        }
      case _ =>
    }
  }

  /** Floats follow one another. */
  predicate Ascending(leaves: seq<Leaf>)
  {
    forall i, j :: 0 <= i < j < |leaves| && Plain(leaves[i]) && Plain(leaves[j]) ==>
      leaves[i].offset + leaves[i].size <= leaves[j].offset
  }

  lemma AscendingBoth(first: seq<Leaf>, rest: seq<Leaf>)
    requires Ascending(first) && Ascending(rest)
    requires forall i, j :: 0 <= i < |first| && 0 <= j < |rest| && Plain(first[i]) && Plain(rest[j]) ==>
               first[i].offset + first[i].size <= rest[j].offset
    ensures Ascending(first + rest)
  {
    hide Plain;
    var all := first + rest;
    assert forall i :: 0 <= i < |first| ==> all[i] == first[i];
    assert forall i :: |first| <= i < |all| ==> all[i] == rest[i - |first|];
  }

  /** The floats of a type whose members follow one another do so too. */
  lemma {:induction false} LeavesAscend(t: Type, base: nat)
    requires InOrder(t)
    ensures Ascending(Leaves(t, base))
    decreases t, 1, 0
  {
    match t {
      case Alias(target) => LeavesAscend(target, base);
      case Array(element, count) => ElementsAscend(element, base, count);
      case Struct(_, nonTrivial, children) => if !nonTrivial { ChildrenAscend(t, base, |children|); }
      case _ =>
    }
  }

  lemma {:induction false} ElementsAscend(element: Type, base: nat, n: nat)
    requires InOrder(element)
    ensures Ascending(ElementLeaves(element, base, n))
    decreases element, 2, n
  {
    hide InOrder, LaidOut, Leaves, SizeOf, AllSeparate, Plain;
    if n > 0 {
      var first, at := ElementLeaves(element, base, n - 1), PlaceOf(element, base, n - 1);
      var rest := Leaves(element, at);
      OrderedIsLaidOut(element);
      ElementsPlaced(element, base, n - 1);
      LeavesPlaced(element, at);
      ProductNext(SizeOf(element), n);
      assert forall i :: 0 <= i < |first| ==> Within(first[i], base, at);
      assert forall j :: 0 <= j < |rest| ==> Within(rest[j], at, at + SizeOf(element));
      ElementsAscend(element, base, n - 1);
      LeavesAscend(element, at);
      AscendingBoth(first, rest);
    }
  }

  lemma {:induction false} ChildrenAscend(t: Type, base: nat, n: nat)
    requires t.Struct? && n <= |t.children| && InOrder(t)
    ensures Ascending(ChildLeaves(t, base, n))
    decreases t, 0, n
  {
    if n > 0 {
      var first, rest := ChildLeaves(t, base, n - 1), LeavesOfChild(t, base, n - 1);
      OrderedIsLaidOut(t);
      ChildrenAscend(t, base, n - 1);
      ChildAscends(t, base, n - 1);
      ChildPlaced(t, base, n - 1);
      forall k, j | 0 <= k < |first| && 0 <= j < |rest| && Plain(first[k]) && Plain(rest[j])
        ensures first[k].offset + first[k].size <= rest[j].offset
      {
        var i := OfSomeChild(t, base, n - 1, k);
        assert Within(rest[j], ChildLow(t, base, n - 1), ChildHigh(t, base, n - 1));
        assert t.children[i].Member? && t.children[n - 1].Member?;
        assert MembersFollow(t.children);
      }
      AscendingBoth(first, rest);
    }
  }

  lemma ChildAscends(t: Type, base: nat, i: nat)
    requires t.Struct? && i < |t.children| && InOrder(t)
    ensures Ascending(LeavesOfChild(t, base, i))
    decreases t, 0, i
  {
    var c := t.children[i];
    assert c in t.children;
    if c.Member? && !c.bitField { LeavesAscend(c.of, base + c.offset); }
  }

  /** The elements of a homogeneous aggregate whose members follow one another are its floats in address order. */
  predicate InAddressOrder(hfa: Hfa)
  {
    forall i, j :: 0 <= i < j < |hfa.offsets| ==> hfa.offsets[i] + hfa.elementSize <= hfa.offsets[j]
  }

  lemma UniformAscends(t: Type, hfa: Hfa)
    requires InOrder(t) && Uniform(Leaves(t, 0)) && hfa.offsets == OffsetsOf(Leaves(t, 0))
    requires hfa.offsets != [] ==> hfa.elementSize == Leaves(t, 0)[0].size
    ensures InAddressOrder(hfa)
    ensures forall at: nat :: at in hfa.offsets <==> IsScalar(t, 0, Leaf(at, hfa.elementSize, true))
  {
    hide InOrder, Leaves, ScalarAt, IsScalar;
    LeavesAscend(t, 0);
    forall at: nat
      ensures at in hfa.offsets <==> IsScalar(t, 0, Leaf(at, hfa.elementSize, true))
    {
      LeavesAre(t, 0, Leaf(at, hfa.elementSize, true));
      OffsetsAre(Leaves(t, 0), at, hfa.elementSize);
    }
  }

  lemma OffsetsAre(leaves: seq<Leaf>, at: nat, size: nat)
    requires Uniform(leaves) && (leaves != [] ==> size == leaves[0].size)
    ensures at in OffsetsOf(leaves) <==> Leaf(at, size, true) in leaves
  {
    if at in OffsetsOf(leaves) {
      var i :| 0 <= i < |leaves| && OffsetsOf(leaves)[i] == at;
      assert leaves[i] == Leaf(at, size, true);
    }
    if k :| 0 <= k < |leaves| && leaves[k] == Leaf(at, size, true) { assert OffsetsOf(leaves)[k] == at; }
  }

  // ---------- classification ----------

  /** How many arrays and structs lie around the innermost scalar. */
  function Depth(t: Type): nat
    decreases t, 1, 0
  {
    match t
    case Alias(target) => Depth(target)
    case Array(element, count) => if count == 0 then 0 else 1 + Depth(element)
    case Struct(_, _, children) => DeepestChild(t, |children|)
    case _ => 0
  }

  /** The depth of the deepest of the first n members, and one. */
  function DeepestChild(t: Type, n: nat): nat
    requires t.Struct? && n <= |t.children|
    decreases t, 0, n
  {
    if n == 0 then 0
    else
      var (before, c) := (DeepestChild(t, n - 1), t.children[n - 1]);
      if c.Member? && !c.bitField && before < 1 + Depth(c.of) then 1 + Depth(c.of) else before
  }

  lemma {:induction false} NestedIff(t: Type, levels: nat)
    ensures Nested(t, levels) <==> Depth(t) <= levels
    decreases t, 1, 0
  {
    match t {
      case Alias(target) => NestedIff(target, levels);
      case Array(element, count) => if levels > 0 { NestedIff(element, levels - 1); }
      case Struct(_, _, children) =>
        NestedStruct(t, levels);
        ChildrenNestedIff(t, levels, |children|);
      case _ =>
    }
  }

  lemma {:induction false} ChildrenNestedIff(t: Type, levels: nat, n: nat)
    requires t.Struct? && n <= |t.children|
    ensures ChildrenNested(t, levels, n) <==> DeepestChild(t, n) <= levels
    decreases t, 0, n
  {
    if n > 0 {
      ChildrenNestedIff(t, levels, n - 1);
      var c := t.children[n - 1];
      if c.Member? && !c.bitField && levels > 0 { NestedIff(c.of, levels - 1); }
    }
  }

  /** The elements lie inside the value and do not overlap. */
  predicate Spaced(hfa: Hfa, size: nat)
  {
    && hfa.elementSize <= 16 && |hfa.offsets| <= MAX_MEMBERS
    && (forall i :: 0 <= i < |hfa.offsets| ==> hfa.offsets[i] + hfa.elementSize <= size)
    && forall i, j :: 0 <= i < j < |hfa.offsets| ==>
         hfa.offsets[i] + hfa.elementSize <= hfa.offsets[j] || hfa.offsets[j] + hfa.elementSize <= hfa.offsets[i]
  }

  /** What is classified of a laid-out type lies inside it and does not overlap. */
  lemma UniformSpaced(t: Type, hfa: Hfa)
    requires LaidOut(t) && Uniform(Leaves(t, 0)) && |Leaves(t, 0)| <= MAX_MEMBERS
    requires hfa.offsets == OffsetsOf(Leaves(t, 0)) && (hfa.offsets == [] ==> hfa.elementSize == 0)
    requires hfa.offsets != [] ==> hfa.elementSize == Leaves(t, 0)[0].size
    ensures Spaced(hfa, SizeOf(t))
  {
    hide LaidOut, Leaves, SizeOf;
    LeavesPlaced(t, 0);
    var leaves := Leaves(t, 0);
    assert forall i :: 0 <= i < |leaves| ==> Plain(leaves[i]) && Within(leaves[i], 0, SizeOf(t));
    assert forall i, j :: 0 <= i < j < |leaves| ==> Separate(leaves[i], leaves[j]);
  }

  /** classify_arm64_hfa: the sound types, nested at most sixteen deep, whose scalars are at most four floats of one
      size are homogeneous, with the scalars' offsets in order. */
  method Classify(t: Type) returns (r: Option<Hfa>)
    ensures r.Some? <==>
              (Sound(t, false) && Depth(t) <= MAX_DEPTH && Uniform(Leaves(t, 0)) && |Leaves(t, 0)| <= MAX_MEMBERS)
    ensures r.Some? ==> r.value.offsets == OffsetsOf(Leaves(t, 0))
    ensures r.Some? && r.value.offsets != [] ==> r.value.elementSize == Leaves(t, 0)[0].size
    ensures r.Some? && LaidOut(t) ==> Spaced(r.value, SizeOf(t))
    ensures r.Some? && InOrder(t) ==>
              && InAddressOrder(r.value)
              && forall at: nat :: at in r.value.offsets <==> IsScalar(t, 0, Leaf(at, r.value.elementSize, true))
  {
    hide IsScalar;
    NestedIff(t, MAX_DEPTH);
    var hfa := new Accumulator();
    assert hfa.Takes(Leaves(t, 0)) == (Uniform(Leaves(t, 0)) && |Leaves(t, 0)| <= MAX_MEMBERS);
    var ok := Collect(t, 0, hfa, 0);
    r := if ok then Some(Hfa(hfa.elementSize, hfa.offsets)) else None;
    if ok && LaidOut(t) { UniformSpaced(t, r.value); }
    if ok && InOrder(t) { UniformAscends(t, r.value); }
  }

  /** Types without empty aggregates that flatten to at most four floats of one size are sound: for them the
      classification says nothing but that, and there is at least one float. */
  lemma {:induction false} NoEmptySound(t: Type, base: nat, any: bool)
    requires NoEmpty(t) && Uniform(Leaves(t, base)) && |Leaves(t, base)| <= MAX_MEMBERS
    ensures Sound(t, any) && Leaves(t, base) != []
    decreases t, 1
  {
    hide PlaceOf, Uniform;
    NoEmptyFilled(t);
    FilledIff(t, base);
    match t {
      case Alias(target) => NoEmptySound(target, base, any);
      case Array(element, count) =>
        if SizeOf(element) == 0 { SizelessIsOdd(t, base); }
        NoEmptyFilled(element);
        ElementsFilled(element, base, count);
        var first, last := ElementLeaves(element, base, count - 1), Leaves(element, PlaceOf(element, base, count - 1));
        if !Uniform(last) { NotUniformAfter(first, last); }
        NoEmptySound(element, PlaceOf(element, base, count - 1), any);
        NoEmptySound(element, PlaceOf(element, base, count - 1), true);
      case Struct(_, nonTrivial, children) =>
        if !nonTrivial { NoEmptyChildrenSound(t, base, any, |children|); }
      case _ =>
    }
  }

  lemma {:induction false} NoEmptyChildrenSound(t: Type, base: nat, any: bool, n: nat)
    requires t.Struct? && n <= |t.children| && NoEmpty(t)
    requires Uniform(ChildLeaves(t, base, n)) && |ChildLeaves(t, base, n)| <= MAX_MEMBERS
    ensures ChildrenSound(t, any, n)
    decreases t, 0, n
  {
    hide Uniform, FilledBefore;
    if n > 0 {
      var first, last := ChildLeaves(t, base, n - 1), LeavesOfChild(t, base, n - 1);
      if !Uniform(last) { NotUniformAfter(first, last); }
      UniformPrefix(first, last);
      NoEmptyChildrenSound(t, base, any, n - 1);
      var c := t.children[n - 1];
      if c.Member? && !c.bitField { NoEmptySound(c.of, base + c.offset, any || FilledBefore(t, n - 1)); }
    }
  }

  lemma UniformPrefix(first: seq<Leaf>, rest: seq<Leaf>)
    requires Uniform(first + rest)
    ensures Uniform(first)
  {
    var all := first + rest;
    assert forall i :: 0 <= i < |first| ==> first[i] == all[i];
  }

  lemma MemberLeaves(t: Type, base: nat, i: nat, offset: nat, of: Type)
    requires t.Struct? && i < |t.children| && t.children[i] == Member(offset, false, of)
    ensures LeavesOfChild(t, base, i) == Leaves(of, base + offset)
  {}

  lemma TwoChildren(t: Type, base: nat)
    requires t.Struct? && !t.nonTrivial && |t.children| == 2
    ensures Leaves(t, base) == LeavesOfChild(t, base, 0) + LeavesOfChild(t, base, 1)
  {
    hide LeavesOfChild;
    assert ChildLeaves(t, base, 1) == ChildLeaves(t, base, 0) + LeavesOfChild(t, base, 0);
    assert ChildLeaves(t, base, 2) == ChildLeaves(t, base, 1) + LeavesOfChild(t, base, 1);
  }

  /** Where the recursion and flattening part: an empty array has no scalar and is accepted; a struct that starts
      with an empty struct has one float and is refused. */
  lemma EmptyAggregatesDiffer(base: nat)
    ensures var floats := Array(Base(true, 4), 0);
            Sound(floats, false) && Nested(floats, MAX_DEPTH) && Leaves(floats, base) == []
    ensures var empty := Struct(1, false, []);
            var wrapped := Struct(8, false, [Member(0, false, empty), Member(4, false, Base(true, 4))]);
            Leaves(wrapped, base) == [Leaf(base + 4, 4, true)] && Nested(wrapped, MAX_DEPTH) && !Sound(wrapped, false)
  {
    var empty, float := Struct(1, false, []), Base(true, 4);
    var wrapped := Struct(8, false, [Member(0, false, empty), Member(4, false, float)]);
    MemberLeaves(wrapped, base, 0, 0, empty);
    MemberLeaves(wrapped, base, 1, 4, float);
    TwoChildren(wrapped, base);
    assert Leaves(empty, base + 0) == [] && Leaves(float, base + 4) == [Leaf(base + 4, 4, true)];
    assert !Sound(empty, false);
    assert !ChildrenSound(wrapped, false, 1);
  }
}
