/** Debugging information entries: reading one, stepping to its next sibling, walking a whole tree. */
module DieTree {
  import opened Results
  import opened Bits
  import opened Leb128
  import opened Cursors

  datatype AttrSpec = AttrSpec(attr: nat, form: nat)
  datatype Abbrev = Abbrev(tag: nat, hasChildren: bool, specs: seq<AttrSpec>)
  type AbbrevTable = map<nat, Abbrev>

  /** A parsed entry.  The null entry that ends a list of siblings knows only where it ends. */
  datatype Die =
    | NullDie(next: nat)
    | Entry(pos: nat, code: nat, abbrev: Abbrev, attrLocs: seq<nat>, next: nat)

  // ---------- reading one entry ----------

  function AttrLocations(data: seq<Byte>, specs: seq<AttrSpec>, pos: nat): (r: Result<(seq<nat>, nat)>)
    ensures r.Ok? ==> pos <= r.value.1 && (pos <= |data| ==> r.value.1 <= |data|)
    ensures r.Ok? ==> |r.value.0| == |specs|
    decreases |specs|
  {
    if specs == [] then Ok(([], pos))
    else
      var next :- FormEnd(data, pos, specs[0].form);
      var rest :- AttrLocations(data, specs[1..], next);
      Ok(([pos] + rest.0, rest.1))
  }

  function ParseDie(data: seq<Byte>, table: AbbrevTable, pos: nat): (r: Result<Die>)
    ensures r.Ok? ==> pos < r.value.next <= |data|
  {
    var code :- Uleb(data, pos);
    if code.0 == 0 then Ok(NullDie(code.1))
    else if code.0 !in table then Err(MissingKey)
    else
      var locs :- AttrLocations(data, table[code.0].specs, code.1);
      Ok(Entry(pos, code.0, table[code.0], locs.0, locs.1))
  }

  // ---------- the sibling iterator ----------

  /** One step of the iterator.  An entry with children is left by walking its children to their null. */
  function Advance(data: seq<Byte>, table: AbbrevTable, d: Die): (r: Result<Die>)
    ensures r.Ok? && d.Entry? ==> d.next < r.value.next <= |data|
    decreases |data| - d.next, 1
  {
    if d.NullDie? then Ok(d)
    else if !d.abbrev.hasChildren then ParseDie(data, table, d.next)
    else
      var first :- ParseDie(data, table, d.next);
      var last :- SkipToNull(data, table, first);
      ParseDie(data, table, last.next)
  }

  function SkipToNull(data: seq<Byte>, table: AbbrevTable, d: Die): (r: Result<Die>)
    ensures r.Ok? ==> r.value.NullDie? && d.next <= r.value.next
    decreases |data| - d.next, 2
  {
    if d.NullDie? then Ok(d)
    else
      var next :- Advance(data, table, d);
      SkipToNull(data, table, next)
  }

  /** The entries a range-for over the iterator visits, from `d` on. */
  function Siblings(data: seq<Byte>, table: AbbrevTable, d: Die): (r: Result<seq<Die>>)
    ensures r.Ok? && d.next <= |data| ==> forall e :: e in r.value ==> e.Entry? && d.next <= e.next <= |data|
    decreases |data| - d.next
  {
    if d.NullDie? then Ok([])
    else
      var next :- Advance(data, table, d);
      var rest :- Siblings(data, table, next);
      Ok([d] + rest)
  }

  function Children(data: seq<Byte>, table: AbbrevTable, d: Die): (r: Result<seq<Die>>)
    ensures r.Ok? && d.Entry? ==> forall e :: e in r.value ==> e.Entry? && d.next < e.next <= |data|
  {
    if d.NullDie? || !d.abbrev.hasChildren then Ok([])
    else
      var first :- ParseDie(data, table, d.next);
      Siblings(data, table, first)
  }

  /** The order in which the recursive index walk visits an entry and its descendants. */
  function Walk(data: seq<Byte>, table: AbbrevTable, d: Die): (r: Result<seq<Die>>)
    requires d.Entry?
    decreases |data| - d.next, 0, 1
  {
    var children :- Children(data, table, d);
    var below :- WalkAll(data, table, d.next, children);
    Ok([d] + below)
  }

  function WalkAll(data: seq<Byte>, table: AbbrevTable, above: nat, ds: seq<Die>): (r: Result<seq<Die>>)
    requires forall e :: e in ds ==> e.Entry? && above < e.next <= |data|
    decreases |data| - above, 0, 0, |ds|
  {
    if ds == [] then Ok([])
    else
      var first :- Walk(data, table, ds[0]);
      var rest :- WalkAll(data, table, above, ds[1..]);
      Ok(first + rest)
  }

  // ---------- the loops of the source, proved against these functions ----------

  method AdvanceIterator(data: seq<Byte>, table: AbbrevTable, d: Die) returns (r: Result<Die>)
    ensures r == Advance(data, table, d)
    decreases |data| - d.next
  {
    if d.NullDie? { return Ok(d); }
    if !d.abbrev.hasChildren { return ParseDie(data, table, d.next); }
    var sub := ParseDie(data, table, d.next);
    if sub.Err? { return sub; }
    while sub.value.Entry?
      invariant sub.Ok? && d.next < sub.value.next <= |data|
      invariant SkipToNull(data, table, ParseDie(data, table, d.next).value) == SkipToNull(data, table, sub.value)
      decreases |data| - sub.value.next
    {
      var next := AdvanceIterator(data, table, sub.value);
      if next.Err? { return next; }
      sub := next;
    }
    r := ParseDie(data, table, sub.value.next);
  }

  method CollectChildren(data: seq<Byte>, table: AbbrevTable, d: Die) returns (r: Result<seq<Die>>)
    requires d.Entry?
    ensures r == Children(data, table, d)
  {
    if !d.abbrev.hasChildren { return Ok([]); }
    var it := ParseDie(data, table, d.next);
    if it.Err? { return Err(it.error); }
    var found: seq<Die> := [];
    PrependNone(Siblings(data, table, it.value));
    while it.value.Entry?
      invariant it.Ok? && it.value.next <= |data|
      invariant Children(data, table, d) == Prepended(found, Siblings(data, table, it.value))
      decreases |data| - it.value.next
    {
      var next := AdvanceIterator(data, table, it.value);
      if next.Err? { return Err(next.error); }
      PrependOne(found, it.value, Siblings(data, table, next.value));
      found := found + [it.value];
      it := next;
    }
    assert found + [] == found;
    r := Ok(found);
  }

  function Prepended(front: seq<Die>, r: Result<seq<Die>>): Result<seq<Die>>
  {
    match r
    case Ok(rest) => Ok(front + rest)
    case Err(e) => Err(e)
  }

  lemma PrependNone(r: Result<seq<Die>>)
    ensures Prepended([], r) == r
  {
    if r.Ok? { assert [] + r.value == r.value; }
  }

  lemma PrependOne(front: seq<Die>, d: Die, r: Result<seq<Die>>)
    ensures Prepended(front, Prepended([d], r)) == Prepended(front + [d], r)
  {
    if r.Ok? { assert front + ([d] + r.value) == (front + [d]) + r.value; }
  }

  // ---------- trees and their serialisation (sections 2.3 and 7.5.3 of DWARF 4) ----------

  /** An entry: its abbreviation code, whether that code announces children, the raw bytes of its
      attribute values, and its children. */
  datatype Tree = Tree(code: nat, hasChildren: bool, attrs: seq<seq<Byte>>, children: seq<Tree>)

  /** The tree uses the abbreviation table correctly, at every level. */
  ghost predicate WellFormed(table: AbbrevTable, t: Tree)
    decreases t, 0
  {
    && 0 < t.code < TWO64 && t.code in table && t.hasChildren == table[t.code].hasChildren
    && PayloadsMatch(table[t.code].specs, t.attrs)
    && (t.children != [] ==> t.hasChildren)
    && ForestWellFormed(table, t.children)
  }

  ghost predicate ForestWellFormed(table: AbbrevTable, ts: seq<Tree>)
    decreases ts, 1
  {
    ts == [] || (WellFormed(table, ts[0]) && ForestWellFormed(table, ts[1..]))
  }

  ghost predicate PayloadsMatch(specs: seq<AttrSpec>, attrs: seq<seq<Byte>>)
  {
    |specs| == |attrs| && forall i :: 0 <= i < |specs| ==> IsPayload(specs[i].form, attrs[i])
  }

  /** The cursor can skip every attribute of the entry. */
  ghost predicate AttrsSkippable(specs: seq<AttrSpec>, attrs: seq<seq<Byte>>)
    requires |specs| == |attrs|
  {
    forall i :: 0 <= i < |specs| ==> Skippable(specs[i].form, attrs[i])
  }

  /** No entry of the tree has an attribute that the cursor cannot skip. */
  ghost predicate Readable(table: AbbrevTable, t: Tree)
    requires WellFormed(table, t)
    decreases t, 0
  {
    AttrsSkippable(table[t.code].specs, t.attrs) && ForestReadable(table, t.children)
  }

  ghost predicate ForestReadable(table: AbbrevTable, ts: seq<Tree>)
    requires ForestWellFormed(table, ts)
    decreases ts, 1
  {
    ts == [] || (Readable(table, ts[0]) && ForestReadable(table, ts[1..]))
  }

  function Concat(parts: seq<seq<Byte>>): (r: seq<Byte>)
  {
    if parts == [] then [] else parts[0] + Concat(parts[1..])
  }

  /** Preorder, a null entry closing every list of children. */
  function Serialize(t: Tree): (r: seq<Byte>)
    decreases t, 0
  {
    if t.hasChildren then Header(t) + (SerializeForest(t.children) + [0]) else Header(t)
  }

  function Header(t: Tree): (r: seq<Byte>)
  {
    EncodeUleb(t.code) + Concat(t.attrs)
  }

  function SerializeForest(ts: seq<Tree>): (r: seq<Byte>)
    decreases ts, 1
  {
    if ts == [] then [] else Serialize(ts[0]) + SerializeForest(ts[1..])
  }

  // ---------- what reading a serialised tree must give ----------

  function PartLocations(parts: seq<seq<Byte>>, pos: nat): (r: seq<nat>)
    ensures |r| == |parts|
    decreases |parts|
  {
    if parts == [] then [] else [pos] + PartLocations(parts[1..], pos + |parts[0]|)
  }

  /** The entry of the tree that starts at `pos`. */
  function EntryAt(table: AbbrevTable, t: Tree, pos: nat): (d: Die)
    requires t.code in table
  {
    Entry(pos, t.code, table[t.code], PartLocations(t.attrs, pos + |EncodeUleb(t.code)|), pos + |Header(t)|)
  }

  /** The entries of a forest whose first byte is at `pos`: each starts where the previous tree ends. */
  ghost function EntriesAt(table: AbbrevTable, ts: seq<Tree>, pos: nat): (ds: seq<Die>)
    requires ForestWellFormed(table, ts)
    ensures |ds| == |ts|
    decreases |ts|
  {
    if ts == [] then []
    else
      assert WellFormed(table, ts[0]);
      [EntryAt(table, ts[0], pos)] + EntriesAt(table, ts[1..], pos + |Serialize(ts[0])|)
  }

  /** Every entry of the tree, parents before children, siblings in order. */
  ghost function PreorderAt(table: AbbrevTable, t: Tree, pos: nat): (ds: seq<Die>)
    requires WellFormed(table, t)
    decreases t, 0
  {
    [EntryAt(table, t, pos)] + ForestPreorderAt(table, t.children, pos + |Header(t)|)
  }

  ghost function ForestPreorderAt(table: AbbrevTable, ts: seq<Tree>, pos: nat): (ds: seq<Die>)
    requires ForestWellFormed(table, ts)
    decreases ts, 1
  {
    if ts == [] then []
    else PreorderAt(table, ts[0], pos) + ForestPreorderAt(table, ts[1..], pos + |Serialize(ts[0])|)
  }

  // ---------- proofs ----------

  lemma {:induction false} AttrLocationsAt(data: seq<Byte>, specs: seq<AttrSpec>, attrs: seq<seq<Byte>>, pos: nat)
    requires PayloadsMatch(specs, attrs) && At(data, pos, Concat(attrs))
    ensures AttrLocations(data, specs, pos) ==
              if AttrsSkippable(specs, attrs) then Ok((PartLocations(attrs, pos), pos + |Concat(attrs)|))
              else Err(UnknownForm)
    decreases |specs|
  {
    hide At, FormEnd, IsPayload, Skippable;
    if specs != [] {
      AtSplit(data, pos, attrs[0], Concat(attrs[1..]));
      SkipPayload(data, pos, specs[0].form, attrs[0]);
      AttrLocationsAt(data, specs[1..], attrs[1..], pos + |attrs[0]|);
      SkippableCons(specs, attrs);
    }
  }

  lemma SkippableCons(specs: seq<AttrSpec>, attrs: seq<seq<Byte>>)
    requires |specs| == |attrs| > 0
    ensures AttrsSkippable(specs, attrs) <==>
              (Skippable(specs[0].form, attrs[0]) && AttrsSkippable(specs[1..], attrs[1..]))
  {
    hide Skippable;
    assert forall i :: 1 <= i < |specs| ==> specs[i] == specs[1..][i - 1] && attrs[i] == attrs[1..][i - 1];
  }

  /** Reading an entry finds it exactly when its attributes can be skipped. */
  lemma ParseEntryAt(data: seq<Byte>, table: AbbrevTable, t: Tree, pos: nat)
    requires WellFormed(table, t) && At(data, pos, Header(t))
    ensures ParseDie(data, table, pos) ==
              if AttrsSkippable(table[t.code].specs, t.attrs) then Ok(EntryAt(table, t, pos)) else Err(UnknownForm)
  {
    hide At, Uleb, EncodeUleb, AttrLocations, Skippable;
    AtSplit(data, pos, EncodeUleb(t.code), Concat(t.attrs));
    UlebAt(data, pos, t.code);
    AttrLocationsAt(data, table[t.code].specs, t.attrs, pos + |EncodeUleb(t.code)|);
  }

  lemma ParseNullAt(data: seq<Byte>, table: AbbrevTable, pos: nat)
    requires At(data, pos, [0])
    ensures ParseDie(data, table, pos) == Ok(NullDie(pos + 1))
  {
    hide Uleb;
    assert EncodeUleb(0) == [0];
    UlebAt(data, pos, 0);
  }

  /** The header stands at the front of a serialised tree, its children's bytes behind it. */
  lemma SerializeSplit(data: seq<Byte>, t: Tree, pos: nat)
    requires At(data, pos, Serialize(t))
    ensures At(data, pos, Header(t))
    ensures t.hasChildren ==> At(data, pos + |Header(t)|, SerializeForest(t.children) + [0])
  {
    if t.hasChildren { AtSplit(data, pos, Header(t), SerializeForest(t.children) + [0]); }
  }

  lemma ForestSplit(data: seq<Byte>, ts: seq<Tree>, pos: nat)
    requires ts != [] && At(data, pos, SerializeForest(ts) + [0])
    ensures At(data, pos, Serialize(ts[0]))
    ensures At(data, pos + |Serialize(ts[0])|, SerializeForest(ts[1..]) + [0])
  {
    hide At, Serialize;
    var a, b := Serialize(ts[0]), SerializeForest(ts[1..]);
    assert SerializeForest(ts) == a + b;
    assert SerializeForest(ts) + [0] == a + (b + [0]);
    AtSplit(data, pos, a, b + [0]);
  }

  /** Stepping from any entry, whatever hangs below it, lands on whatever follows its whole subtree; it fails exactly
      when some entry below cannot be read. */
  lemma {:induction false} AdvancePastSubtree(data: seq<Byte>, table: AbbrevTable, t: Tree, pos: nat)
    requires WellFormed(table, t) && At(data, pos, Serialize(t))
    ensures Advance(data, table, EntryAt(table, t, pos)) ==
              if ForestReadable(table, t.children) then ParseDie(data, table, pos + |Serialize(t)|)
              else Err(UnknownForm)
    decreases t, 0
  {
    hide At, ParseDie, SkipToNull, Header;
    SerializeSplit(data, t, pos);
    if t.hasChildren {
      SkipForest(data, table, t.children, pos + |Header(t)|);
    }
  }

  function SkipFrom(data: seq<Byte>, table: AbbrevTable, first: Result<Die>): Result<Die>
  {
    if first.Ok? then SkipToNull(data, table, first.value) else first
  }

  lemma {:induction false} SkipForest(data: seq<Byte>, table: AbbrevTable, ts: seq<Tree>, pos: nat)
    requires ForestWellFormed(table, ts) && At(data, pos, SerializeForest(ts) + [0])
    ensures SkipFrom(data, table, ParseDie(data, table, pos)) ==
              if ForestReadable(table, ts) then Ok(NullDie(pos + |SerializeForest(ts)| + 1)) else Err(UnknownForm)
    decreases ts, 1
  {
    hide At, ParseDie, Advance, Header, Serialize, AttrsSkippable;
    if ts == [] {
      assert SerializeForest(ts) + [0] == [0];
      ParseNullAt(data, table, pos);
    } else {
      ForestSplit(data, ts, pos);
      SerializeSplit(data, ts[0], pos);
      ParseEntryAt(data, table, ts[0], pos);
      AdvancePastSubtree(data, table, ts[0], pos);
      SkipForest(data, table, ts[1..], pos + |Serialize(ts[0])|);
    }
  }

  function SiblingsFrom(data: seq<Byte>, table: AbbrevTable, first: Result<Die>): Result<seq<Die>>
  {
    if first.Ok? then Siblings(data, table, first.value) else Err(first.error)
  }

  /** Iterating from the first child visits exactly the direct children, in order; it fails exactly when some entry of
      the forest, however deep, cannot be read. */
  lemma {:induction false} SiblingsExact(data: seq<Byte>, table: AbbrevTable, ts: seq<Tree>, pos: nat)
    requires ForestWellFormed(table, ts) && At(data, pos, SerializeForest(ts) + [0])
    ensures SiblingsFrom(data, table, ParseDie(data, table, pos)) ==
              if ForestReadable(table, ts) then Ok(EntriesAt(table, ts, pos)) else Err(UnknownForm)
    decreases |ts|
  {
    hide At, ParseDie, Advance, Header, Serialize, AttrsSkippable;
    if ts == [] {
      assert SerializeForest(ts) + [0] == [0];
      ParseNullAt(data, table, pos);
    } else {
      ForestSplit(data, ts, pos);
      SerializeSplit(data, ts[0], pos);
      ParseEntryAt(data, table, ts[0], pos);
      AdvancePastSubtree(data, table, ts[0], pos);
      SiblingsExact(data, table, ts[1..], pos + |Serialize(ts[0])|);
    }
  }

  /** Reading an entry and listing its children gives exactly the tree's entry and its direct children: the entry when
      its attributes can be skipped, the children when every entry below can be read, and otherwise an error. */
  lemma ChildrenExact(data: seq<Byte>, table: AbbrevTable, t: Tree, pos: nat)
    requires WellFormed(table, t) && At(data, pos, Serialize(t))
    ensures ParseDie(data, table, pos) ==
              if AttrsSkippable(table[t.code].specs, t.attrs) then Ok(EntryAt(table, t, pos)) else Err(UnknownForm)
    ensures Children(data, table, EntryAt(table, t, pos)) ==
              if ForestReadable(table, t.children) then Ok(EntriesAt(table, t.children, pos + |Header(t)|))
              else Err(UnknownForm)
  {
    hide At, ParseDie, Header, Siblings, EntriesAt, AttrsSkippable;
    SerializeSplit(data, t, pos);
    ParseEntryAt(data, table, t, pos);
    if t.hasChildren { SiblingsExact(data, table, t.children, pos + |Header(t)|); }
  }

  /** The recursive walk visits every entry of the tree exactly once, in preorder, exactly when all below can be
      read. */
  lemma {:induction false} WalkVisitsPreorder(data: seq<Byte>, table: AbbrevTable, t: Tree, pos: nat)
    requires WellFormed(table, t) && At(data, pos, Serialize(t))
    ensures Walk(data, table, EntryAt(table, t, pos)) ==
              if ForestReadable(table, t.children) then Ok(PreorderAt(table, t, pos)) else Err(UnknownForm)
    decreases t, 0
  {
    hide At, ParseDie, Header, Children, AttrsSkippable;
    ChildrenExact(data, table, t, pos);
    SerializeSplit(data, t, pos);
    if t.hasChildren && ForestReadable(table, t.children) {
      WalkForest(data, table, t.children, pos + |Header(t)|, pos + |Header(t)|);
    }
  }

  lemma {:induction false} WalkForest(data: seq<Byte>, table: AbbrevTable, ts: seq<Tree>, pos: nat, above: nat)
    requires ForestWellFormed(table, ts) && ForestReadable(table, ts) && At(data, pos, SerializeForest(ts) + [0])
    requires forall e :: e in EntriesAt(table, ts, pos) ==> e.Entry? && above < e.next <= |data|
    ensures WalkAll(data, table, above, EntriesAt(table, ts, pos)) == Ok(ForestPreorderAt(table, ts, pos))
    decreases ts, 1
  {
    hide At, Serialize, Walk, EntryAt, WellFormed, AttrsSkippable;
    if ts != [] {
      ForestSplit(data, ts, pos);
      var rest := EntriesAt(table, ts[1..], pos + |Serialize(ts[0])|);
      assert EntriesAt(table, ts, pos)[1..] == rest;
      forall e | e in rest
        ensures e.Entry? && above < e.next <= |data|
      {
        assert e in EntriesAt(table, ts, pos);
      }
      WalkVisitsPreorder(data, table, ts[0], pos);
      WalkForest(data, table, ts[1..], pos + |Serialize(ts[0])|, above);
    }
  }

  // ---------- an entry that cannot be read ----------

  /** An entry with one eight-byte reference: legal, and refused. */
  lemma ReferenceRefused(eight: seq<Byte>)
    requires |eight| == 8
    ensures var table: AbbrevTable := map[1 := Abbrev(0x34, false, [AttrSpec(0x49, FORM_REF8)])];
            var t := Tree(1, false, [eight], []);
            && WellFormed(table, t) && Serialize(t) == [1] + eight && !Readable(table, t)
            && ParseDie([1] + eight, table, 0) == Err(UnknownForm)
  {
    var table: AbbrevTable := map[1 := Abbrev(0x34, false, [AttrSpec(0x49, FORM_REF8)])];
    var t := Tree(1, false, [eight], []);
    assert Concat([eight]) == eight + Concat([]) == eight;
    assert EncodeUleb(1) == [1];
    assert Serialize(t) == Header(t) == [1] + eight;
    assert IsPayload(FORM_REF8, eight) && !Skippable(FORM_REF8, eight);
    assert At([1] + eight, 0, Header(t));
    ParseEntryAt([1] + eight, table, t, 0);
  }
}
