/** The symbol index of a Mach-O file: sorting, sizing, and the lookup of the symbol around an address. */
module Symbols {
  import opened Results
  import opened Bits

  datatype Symbol = Symbol(name: nat, value: U64, size: U64)
  datatype Section = Section(addr: U64, size: U64)

  // ---------- sections ----------

  /** get_section_containing_address: the first section whose range holds the address. */
  function SectionHolding(sections: seq<Section>, a: U64): Option<Section>
  {
    if sections == [] then None
    else if sections[0].addr <= a < Wrap64(sections[0].addr + sections[0].size) then Some(sections[0])
    else SectionHolding(sections[1..], a)
  }

  /** Where a symbol at the address must end: with its section, or after one byte. */
  function SectionEnd(sections: seq<Section>, a: U64): U64
  {
    match SectionHolding(sections, a)
    case Some(s) => Wrap64(s.addr + s.size)
    case None => Wrap64(a + 1)
  }

  /** The section covers the address and ends within the address space. */
  predicate Inside(s: Section, a: U64) { s.addr <= a < s.addr + s.size < TWO64 }

  /** Section i is the first to cover the address. */
  predicate FirstInside(sections: seq<Section>, a: U64, i: nat)
  {
    i < |sections| && Inside(sections[i], a) && forall j :: 0 <= j < i ==> !Inside(sections[j], a)
  }

  lemma {:induction false} HoldingIs(sections: seq<Section>, a: U64)
    ensures SectionHolding(sections, a).None? <==> forall i :: 0 <= i < |sections| ==> !Inside(sections[i], a)
    ensures forall i: nat :: FirstInside(sections, a, i) ==> SectionHolding(sections, a) == Some(sections[i])
  {
    if sections != [] {
      HoldingIs(sections[1..], a);
      assert forall i :: 1 <= i < |sections| ==> sections[i] == sections[1..][i - 1];
      forall i: nat | FirstInside(sections, a, i)
        ensures SectionHolding(sections, a) == Some(sections[i])
      {
        if i > 0 { assert FirstInside(sections[1..], a, i - 1); }
      }
      assert SectionHolding(sections, a) ==
             if Inside(sections[0], a) then Some(sections[0]) else SectionHolding(sections[1..], a);
    }
  }

  /** A symbol must end with the first section that covers its start, or one behind its start if there is none. */
  lemma SectionEndIs(sections: seq<Section>, a: U64)
    ensures (forall i :: 0 <= i < |sections| ==> !Inside(sections[i], a)) ==>
              SectionEnd(sections, a) == if a < TWO64 - 1 then a + 1 else 0
    ensures forall i: nat :: FirstInside(sections, a, i) ==>
              SectionEnd(sections, a) == sections[i].addr + sections[i].size
  {
    hide SectionHolding;
    HoldingIs(sections, a);
  }

  // ---------- the linear scan ----------

  /** The greatest symbol start at or below the address, whatever the order of the symbols. */
  function GreatestStart(raw: seq<Symbol>, address: U64): (r: Option<U64>)
    ensures r.None? <==> forall s :: s in raw ==> s.value > address
    ensures r.Some? ==> r.value <= address && (exists s :: s in raw && s.value == r.value)
    ensures r.Some? ==> forall s :: s in raw && s.value <= address ==> s.value <= r.value
  {
    if raw == [] then None
    else
      var rest := GreatestStart(raw[1..], address);
      assert forall s :: s in raw <==> s == raw[0] || s in raw[1..];
      if raw[0].value <= address && (rest.None? || rest.value < raw[0].value) then Some(raw[0].value) else rest
  }

  /** The start of the symbol that contains the address: the greatest start at or below it, unless the section that
      holds that start has ended before the address. */
  function ScanFor(raw: seq<Symbol>, sections: seq<Section>, address: U64): Option<U64>
  {
    var g := GreatestStart(raw, address);
    if g.Some? && (address == g.value || address < SectionEnd(sections, g.value)) then g else None
  }

  lemma GreatestIs(raw: seq<Symbol>, address: U64, g: U64)
    requires g <= address && (exists s :: s in raw && s.value == g)
    requires forall s :: s in raw && s.value <= address ==> s.value <= g
    ensures GreatestStart(raw, address) == Some(g)
  {
    hide GreatestStart;
  }

  // ---------- sizing ----------

  predicate Sorted(t: seq<Symbol>)
  {
    forall i, j :: 0 <= i <= j < |t| ==> t[i].value <= t[j].value
  }

  function EndAt(t: seq<Symbol>, sections: seq<Section>, i: nat): U64
    requires i < |t|
  {
    var end := SectionEnd(sections, t[i].value);
    if i + 1 < |t| && t[i + 1].value > t[i].value && t[i + 1].value < end then t[i + 1].value else end
  }

  /** The table with every symbol sized. */
  function Sized(t: seq<Symbol>, sections: seq<Section>): (r: seq<Symbol>)
    ensures |r| == |t|
  {
    seq(|t|, i requires 0 <= i < |t| => t[i].(size := Wrap64(EndAt(t, sections, i) - t[i].value)))
  }

  lemma SizedAt(t: seq<Symbol>, sections: seq<Section>, i: nat)
    requires i < |t|
    ensures Sized(t, sections)[i] == t[i].(size := Wrap64(EndAt(t, sections, i) - t[i].value))
  {}

  method SizeSymbols(table: array<Symbol>, sections: seq<Section>)
    modifies table
    ensures table[..] == Sized(old(table[..]), sections)
  {
    hide SectionEnd, Sized;
    ghost var was := table[..];
    var i := 0;
    while i < table.Length
      invariant i <= table.Length
      invariant forall k :: 0 <= k < i ==> table[k] == Sized(was, sections)[k]
      invariant forall k :: i <= k < table.Length ==> table[k] == was[k]
    {
      SizedAt(was, sections, i);
      var s := table[i];
      var end := SectionEnd(sections, s.value);
      if i + 1 < table.Length && table[i + 1].value > s.value {
        if table[i + 1].value < end { end := table[i + 1].value; }
      }
      table[i] := s.(size := Wrap64(end - s.value));
      i := i + 1;
    }
  }

  // ---------- the ordered map ----------

  /** A map entry: keyed by its start alone. */
  datatype Entry = Entry(start: U64, end: U64, symbol: Symbol)

  predicate Ascending(es: seq<Entry>)
  {
    forall i, j :: 0 <= i < j < |es| ==> es[i].start < es[j].start
  }

  /** std::map with the comparator on starts: at most one entry per start, in order. */
  class SymbolMap {
    var entries: seq<Entry>

    ghost predicate Valid()
      reads this
    {
      Ascending(entries)
    }

    constructor ()
      ensures Valid() && entries == []
    {
      entries := [];
    }

    method LowerBound(address: U64) returns (i: nat)
      requires Valid()
      ensures i <= |entries|
      ensures forall k :: 0 <= k < i ==> entries[k].start < address
      ensures forall k :: i <= k < |entries| ==> address <= entries[k].start
    {
      i := 0;
      while i < |entries| && entries[i].start < address
        invariant i <= |entries|
        invariant forall k :: 0 <= k < i ==> entries[k].start < address
      {
        i := i + 1;
      }
    }

    /** emplace: an entry whose start is taken already is dropped. */
    method Emplace(e: Entry)
      requires Valid()
      modifies this
      ensures Valid()
      ensures forall x :: x in entries <==>
                (x in old(entries) || (x == e && forall y :: y in old(entries) ==> y.start != e.start))
    {
      var i := LowerBound(e.start);
      if i < |entries| && entries[i].start == e.start { return; }
      entries := entries[..i] + [e] + entries[i..];
    }

    /** get_symbol_containing_address */
    method Containing(address: U64) returns (r: Option<Symbol>)
      requires Valid()
      ensures forall raw, sections :: Indexes(raw, sections) ==>
                && (r.Some? <==> ScanFor(raw, sections, address).Some?)
                && (r.Some? ==> ScanFor(raw, sections, address) == Some(r.value.value) && FromRaw(raw, r.value))
    {
      hide ScanFor, Indexes, FromRaw;
      r := None;
      forall raw, sections | Indexes(raw, sections) && entries == []
        ensures ScanFor(raw, sections, address) == None
      {
        NothingToFind(raw, sections, address);
      }
      if entries != [] {
        var i := LowerBound(address);
        assert forall k :: i < k < |entries| ==> entries[i].start < entries[k].start;
        forall raw, sections | Indexes(raw, sections)
          ensures ScanFor(raw, sections, address) == Found(i, address)
          ensures forall e :: e in entries ==> e.symbol.value == e.start && FromRaw(raw, e.symbol)
        {
          ScanIsFound(raw, sections, address, i);
        }
        if i < |entries| && entries[i].start == address {
          r := Some(entries[i].symbol);
        } else if i > 0 && entries[i - 1].start < address && entries[i - 1].end > address {
          r := Some(entries[i - 1].symbol);
        }
      }
    }

    /** The start that the entries around position i give for the address. */
    ghost function Found(i: nat, address: U64): Option<U64>
      requires i <= |entries|
      reads this
    {
      if i < |entries| && entries[i].start == address then Some(address)
      else if i > 0 && entries[i - 1].end > address then Some(entries[i - 1].start)
      else None
    }

    lemma NothingToFind(raw: seq<Symbol>, sections: seq<Section>, address: U64)
      requires Indexes(raw, sections) && entries == []
      ensures ScanFor(raw, sections, address) == None
    {}

    /** The entry before the lower bound has the greatest start below the address; its end decides. */
    lemma ScanIsFound(raw: seq<Symbol>, sections: seq<Section>, address: U64, i: nat)
      requires Valid() && Indexes(raw, sections) && i <= |entries|
      requires forall k :: 0 <= k < i ==> entries[k].start < address
      requires forall k :: i <= k < |entries| ==> address <= entries[k].start && (k > i ==> address < entries[k].start)
      ensures ScanFor(raw, sections, address) == Found(i, address)
      ensures forall e :: e in entries ==> e.symbol.value == e.start && FromRaw(raw, e.symbol)
    {
      hide SectionEnd, GreatestStart, EndsWell, FromRaw;
      if i < |entries| && entries[i].start == address {
        StartIsRaw(raw, sections, entries[i]);
        GreatestIs(raw, address, address);
      } else if i > 0 {
        var e := entries[i - 1];
        StartIsRaw(raw, sections, e);
        forall s | s in raw && s.value <= address
          ensures s.value <= e.start
        {
          BelowBound(raw, sections, address, i, s);
        }
        GreatestIs(raw, address, e.start);
        EndDecides(raw, sections, address, e);
      } else {
        forall s | s in raw
          ensures s.value > address
        {
          if s.value <= address { BelowBound(raw, sections, address, i, s); }
        }
      }
    }

    /** A symbol at or below the address starts at or below the entry before the lower bound. */
    lemma BelowBound(raw: seq<Symbol>, sections: seq<Section>, address: U64, i: nat, s: Symbol)
      requires Valid() && Indexes(raw, sections) && i <= |entries| && s in raw && s.value <= address
      requires forall k :: i <= k < |entries| ==> address < entries[k].start
      ensures i > 0 && s.value <= entries[i - 1].start
    {
      hide SectionEnd, EndsWell, FromRaw;
      var f :| f in entries && f.start == s.value;
      var k :| 0 <= k < |entries| && entries[k] == f;
      assert k < i;
    }

    lemma StartIsRaw(raw: seq<Symbol>, sections: seq<Section>, e: Entry)
      requires Indexes(raw, sections) && e in entries
      ensures exists s :: s in raw && s.value == e.start
    {
      assert FromRaw(raw, e.symbol);
    }

    /** The map holds, for every start among the symbols, one symbol with that start, and ends it where it must. */
    ghost predicate Indexes(raw: seq<Symbol>, sections: seq<Section>)
      reads this
    {
      && (forall s :: s in raw ==> exists e :: e in entries && e.start == s.value)
      && (forall e :: e in entries ==>
            (e.symbol.value == e.start && FromRaw(raw, e.symbol) && EndsWell(raw, sections, e)))
    }
  }

  /** The symbol is one of the file's, sized. */
  predicate FromRaw(raw: seq<Symbol>, s: Symbol)
  {
    exists o :: o in raw && o.name == s.name && o.value == s.value
  }

  /** An entry ends with its section, or before that at a later symbol's start. */
  predicate EndsWell(raw: seq<Symbol>, sections: seq<Section>, e: Entry)
  {
    || e.end == SectionEnd(sections, e.start)
    || (e.start < e.end < SectionEnd(sections, e.start) && exists s :: s in raw && s.value == e.end)
  }

  /** With no symbol start between an entry's start and the address, the entry's end is as good as the section's. */
  lemma EndDecides(raw: seq<Symbol>, sections: seq<Section>, address: U64, e: Entry)
    requires EndsWell(raw, sections, e) && e.start < address
    requires forall s :: s in raw && s.value <= address ==> s.value <= e.start
    ensures e.end > address <==> address < SectionEnd(sections, e.start)
  {
    hide SectionEnd;
  }

  // ---------- building ----------

  /** build_symbol_maps: sized symbols in order, the first of each start kept. */
  method BuildMap(table: seq<Symbol>, ghost raw: seq<Symbol>, sections: seq<Section>) returns (m: SymbolMap)
    requires Sorted(raw) && table == Sized(raw, sections)
    ensures fresh(m) && m.Valid() && m.Indexes(raw, sections)
  {
    hide SectionEnd, Sized;
    m := new SymbolMap();
    var i := 0;
    while i < |table|
      invariant i <= |table| && m.Valid() && fresh(m)
      invariant forall k :: 0 <= k < i ==> exists e :: e in m.entries && e.start == raw[k].value
      invariant forall e :: e in m.entries ==>
                  e.symbol.value == e.start && FromRaw(raw, e.symbol) && EndsWell(raw, sections, e)
    {
      SizedAt(raw, sections, i);
      var s := table[i];
      var e := Entry(s.value, Wrap64(s.value + s.size), s);
      EndRestored(s.value, EndAt(raw, sections, i));
      SizedEndsWell(raw, sections, i, e);
      ghost var before := m.entries;
      m.Emplace(e);
      KeptStarts(before, m.entries, e);
      i := i + 1;
    }
  }

  lemma EndRestored(value: U64, end: U64)
    ensures Wrap64(value + Wrap64(end - value)) == end
  {}

  lemma SizedEndsWell(raw: seq<Symbol>, sections: seq<Section>, i: nat, e: Entry)
    requires i < |raw| && e.start == raw[i].value && e.end == EndAt(raw, sections, i)
    requires e.symbol.name == raw[i].name && e.symbol.value == raw[i].value
    ensures FromRaw(raw, e.symbol) && EndsWell(raw, sections, e)
  {
    hide SectionEnd;
    assert raw[i] in raw;
    if i + 1 < |raw| { assert raw[i + 1] in raw; }
  }

  /** Emplacing loses no start and adds the new one. */
  lemma KeptStarts(before: seq<Entry>, after: seq<Entry>, e: Entry)
    requires forall x :: x in after <==> x in before || (x == e && forall y :: y in before ==> y.start != e.start)
    ensures exists x :: x in after && x.start == e.start
  {
    if y :| y in before && y.start == e.start { assert y in after; } else { assert e in after; }
  }

  /** From the file's symbols to the index: sorted by start in some order, sized in place, mapped.  Any sort will do. */
  method IndexSymbols(symbols: seq<Symbol>, table: array<Symbol>, sections: seq<Section>) returns (m: SymbolMap)
    requires Sorted(table[..]) && multiset(table[..]) == multiset(symbols)
    modifies table
    ensures fresh(m) && m.Valid() && m.Indexes(symbols, sections)
  {
    ghost var sorted := table[..];
    SizeSymbols(table, sections);
    m := BuildMap(table[..], sorted, sections);
    SameSymbols(m, sorted, symbols, sections);
  }

  lemma SameSymbols(m: SymbolMap, a: seq<Symbol>, b: seq<Symbol>, sections: seq<Section>)
    requires multiset(a) == multiset(b) && m.Indexes(a, sections)
    ensures m.Indexes(b, sections)
  {
    hide SectionEnd;
    assert forall s :: s in a <==> s in b by {
      assert forall s :: s in a <==> s in multiset(a);
      assert forall s :: s in b <==> s in multiset(b);
    }
  }
}
