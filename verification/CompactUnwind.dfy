/** The compact unwind table: a two-level, paged index from code offsets to unwind encodings. */
module CompactUnwind {
  import opened Results
  import opened Bits
  import opened Cursors
  import opened Search

  const REGULAR := 2
  const COMPRESSED := 3

  /** A function's start and its unwind encoding. */
  datatype Entry = Entry(start: nat, encoding: nat)

  function StartOf(e: Entry): int { e.start }

  // ---------- the records ----------

  /** The little-endian field of n bytes at an offset. */
  function Field(bytes: seq<Byte>, offset: nat, n: nat): (r: nat)
    requires offset + n <= |bytes|
    ensures r < Pow2(8 * n)
  {
    Le(bytes[offset..offset + n])
  }

  predicate Fits(bytes: seq<Byte>, offset: nat, size: nat) { offset + size <= |bytes| }

  function Word(bytes: seq<Byte>, offset: nat): (r: Result<nat>)
    ensures r.Ok? ==> r.value < TWO32
  {
    if !Fits(bytes, offset, 4) then Err(Truncated)
    else
      assert Pow2(8 * 4) == TWO32 by { Pow2Large(); }
      Ok(Field(bytes, offset, 4))
  }

  datatype Header = Header(version: nat, commonOffset: nat, commonCount: nat, indexOffset: nat, indexCount: nat)

  function ReadHeader(bytes: seq<Byte>): Result<Header>
  {
    if !Fits(bytes, 0, 28) then Err(Truncated)
    else Ok(Header(Field(bytes, 0, 4), Field(bytes, 4, 4), Field(bytes, 8, 4), Field(bytes, 20, 4),
        Field(bytes, 24, 4)))
  }

  datatype Index = Index(functionOffset: nat, page: nat)

  function ReadIndex(bytes: seq<Byte>, h: Header, i: nat): Result<Index>
  {
    var at := h.indexOffset + i * 12;
    if !Fits(bytes, at, 12) then Err(Truncated) else Ok(Index(Field(bytes, at, 4), Field(bytes, at + 4, 4)))
  }

  datatype Page =
    | RegularPage(at: nat, entryOffset: nat, entryCount: nat)
    | CompressedPage(at: nat, entryOffset: nat, entryCount: nat, encodingsOffset: nat, encodingsCount: nat)

  function ReadPage(bytes: seq<Byte>, at: nat): Result<Page>
  {
    var kind :- Word(bytes, at);
    if kind == REGULAR then
      if !Fits(bytes, at, 8) then Err(Truncated)
      else Ok(RegularPage(at, Field(bytes, at + 4, 2), Field(bytes, at + 6, 2)))
    else if kind == COMPRESSED then
      if !Fits(bytes, at, 12) then Err(Truncated)
      else Ok(CompressedPage(at, Field(bytes, at + 4, 2), Field(bytes, at + 6, 2), Field(bytes, at + 8, 2),
          Field(bytes, at + 10, 2)))
    else Err(BadTable)
  }

  /** Entry j of a regular page: a pair of words. */
  function RegularEntry(bytes: seq<Byte>, p: Page, j: nat): Result<Entry>
  {
    var at := Wrap32(p.at + p.entryOffset) + j * 8;
    if !Fits(bytes, at, 8) then Err(Truncated) else Ok(Entry(Field(bytes, at, 4), Field(bytes, at + 4, 4)))
  }

  /** Entry j of a compressed page: 24 bits of distance from the page's first function, 8 bits of encoding number. */
  function PackedEntry(bytes: seq<Byte>, p: Page, j: nat): Result<nat>
  {
    Word(bytes, Wrap32(p.at + p.entryOffset + j * 4))
  }

  /** Encodings are numbered through the common ones first, then the page's own. */
  function NumberedEncoding(bytes: seq<Byte>, h: Header, p: Page, key: nat): Result<nat>
    requires p.CompressedPage?
  {
    if key < h.commonCount then Word(bytes, Wrap32(h.commonOffset + key * 4))
    else if key - h.commonCount >= p.encodingsCount then Err(BadTable)
    else Word(bytes, Wrap32(p.at + p.encodingsOffset + (key - h.commonCount) * 4))
  }

  function CompressedEntry(bytes: seq<Byte>, h: Header, index: Index, p: Page, j: nat): Result<Entry>
    requires p.CompressedPage?
  {
    var e :- PackedEntry(bytes, p, j);
    var encoding :- NumberedEncoding(bytes, h, p, e / 0x100_0000);
    Ok(Entry(Wrap32(index.functionOffset + e % 0x100_0000), encoding))
  }

  // ---------- the flat function list ----------

  function EntryAt(bytes: seq<Byte>, h: Header, index: Index, p: Page, j: nat): Result<Entry>
  {
    if p.RegularPage? then RegularEntry(bytes, p, j) else CompressedEntry(bytes, h, index, p, j)
  }

  /** The first n entries of a page. */
  function Entries(bytes: seq<Byte>, h: Header, index: Index, p: Page, n: nat): (r: Result<seq<Entry>>)
    ensures r.Ok? ==> |r.value| == n
    ensures r.Ok? ==> forall j :: 0 <= j < n ==> EntryAt(bytes, h, index, p, j) == Ok(r.value[j])
  {
    if n == 0 then Ok([])
    else
      var front :- Entries(bytes, h, index, p, n - 1);
      var last :- EntryAt(bytes, h, index, p, n - 1);
      Ok(front + [last])
  }

  /** All functions of the page an index entry points to; none if it points to no page. */
  function PageFunctions(bytes: seq<Byte>, h: Header, index: Index): Result<seq<Entry>>
  {
    if index.page == 0 then Ok([])
    else
      var p :- ReadPage(bytes, index.page);
      Entries(bytes, h, index, p, p.entryCount)
  }

  /** The functions of the first n pages, in table order. */
  function Functions(bytes: seq<Byte>, h: Header, n: nat): Result<seq<Entry>>
  {
    if n == 0 then Ok([])
    else
      var front :- Functions(bytes, h, n - 1);
      var index :- ReadIndex(bytes, h, n - 1);
      var page :- PageFunctions(bytes, h, index);
      Ok(front + page)
  }

  function PageCount(h: Header): nat { if h.indexCount == 0 then 0 else h.indexCount - 1 }

  predicate Ascending(es: seq<Entry>)
  {
    forall i, j :: 0 <= i <= j < |es| ==> es[i].start <= es[j].start
  }

  /** Page i is readable, starts at its index and stays in order and at or below the next index. */
  ghost predicate PageInOrder(bytes: seq<Byte>, h: Header, i: nat)
  {
    && ReadIndex(bytes, h, i).Ok? && ReadIndex(bytes, h, i + 1).Ok?
    && var here, next := ReadIndex(bytes, h, i).value, ReadIndex(bytes, h, i + 1).value;
    && here.functionOffset <= next.functionOffset
    && PageFunctions(bytes, h, here).Ok?
    && var es := PageFunctions(bytes, h, here).value;
    && Ascending(es)
    && (es != [] ==> es[0].start == here.functionOffset && es[|es| - 1].start <= next.functionOffset)
  }

  /** A table as a linker writes it. */
  ghost predicate InOrder(bytes: seq<Byte>, h: Header)
  {
    forall i :: 0 <= i < PageCount(h) ==> PageInOrder(bytes, h, i)
  }

  // ---------- searching the flat list ----------

  /** The last function that starts at or below x. */
  function AtOrBelow(es: seq<Entry>, x: int): Option<Entry>
  {
    var k := LastAtOrBelow(es, StartOf, x);
    if k.None? then None else Some(es[k.value])
  }

  /** In an ordered list a scan may stop at the first function above x. */
  lemma ScanStops(es: seq<Entry>, k: nat, x: int)
    requires Ascending(es) && k <= |es|
    requires forall i :: 0 <= i < k ==> es[i].start <= x
    requires k < |es| ==> es[k].start > x
    ensures AtOrBelow(es, x) == if k == 0 then None else Some(es[k - 1])
  {
    hide LastAtOrBelow;
    assert forall i :: k <= i < |es| ==> StartOf(es[i]) > x;
    if k > 0 {
      assert StartOf(es[k - 1]) <= x;
      LastUnique(es, StartOf, x, k - 1);
    }
  }

  /** What is found has the greatest start at or below x. */
  lemma GreatestStart(es: seq<Entry>, x: int, i: nat)
    requires Ascending(es) && i < |es| && es[i].start <= x
    ensures AtOrBelow(es, x).Some? && es[i].start <= AtOrBelow(es, x).value.start <= x
  {
    hide LastAtOrBelow;
    assert StartOf(es[i]) <= x;
    var k := LastAtOrBelow(es, StartOf, x);
    assert k.Some? && i <= k.value;
    assert StartOf(es[k.value]) <= x;
  }

  lemma {:induction false} FunctionsReadable(bytes: seq<Byte>, h: Header, n: nat)
    requires InOrder(bytes, h) && n <= PageCount(h)
    ensures Functions(bytes, h, n).Ok?
  {
    hide PageFunctions, ReadIndex;
    if n > 0 {
      FunctionsReadable(bytes, h, n - 1);
      assert PageInOrder(bytes, h, n - 1);
    }
  }

  function OffsetAt(bytes: seq<Byte>, h: Header, i: nat): nat
  {
    if ReadIndex(bytes, h, i).Ok? then ReadIndex(bytes, h, i).value.functionOffset else 0
  }

  lemma {:induction false} OffsetsAscend(bytes: seq<Byte>, h: Header, i: nat, j: nat)
    requires InOrder(bytes, h) && i <= j <= PageCount(h)
    ensures OffsetAt(bytes, h, i) <= OffsetAt(bytes, h, j)
    decreases j
  {
    hide PageFunctions, ReadIndex;
    if i < j {
      OffsetsAscend(bytes, h, i, j - 1);
      assert PageInOrder(bytes, h, j - 1);
    }
  }

  /** The flat list is in order, and its first n pages stay at or below index n. */
  lemma {:induction false} FunctionsInOrder(bytes: seq<Byte>, h: Header, n: nat)
    requires InOrder(bytes, h) && n <= PageCount(h)
    ensures Functions(bytes, h, n).Ok? && Ascending(Functions(bytes, h, n).value)
    ensures forall e :: e in Functions(bytes, h, n).value ==> e.start <= OffsetAt(bytes, h, n)
  {
    hide PageFunctions, ReadIndex;
    FunctionsReadable(bytes, h, n);
    if n > 0 {
      FunctionsInOrder(bytes, h, n - 1);
      assert PageInOrder(bytes, h, n - 1);
      OffsetsAscend(bytes, h, n - 1, n);
      var front, page := Functions(bytes, h, n - 1).value,
          PageFunctions(bytes, h, ReadIndex(bytes, h, n - 1).value).value;
      AppendInOrder(front, page, OffsetAt(bytes, h, n - 1), OffsetAt(bytes, h, n));
    }
  }

  lemma AppendInOrder(front: seq<Entry>, page: seq<Entry>, low: nat, high: nat)
    requires Ascending(front) && Ascending(page) && low <= high
    requires forall e :: e in front ==> e.start <= low
    requires page != [] ==> page[0].start == low && page[|page| - 1].start <= high
    ensures Ascending(front + page) && forall e :: e in front + page ==> e.start <= high
  {
    var all := front + page;
    assert forall i :: 0 <= i < |front| ==> all[i] == front[i] && front[i] in front;
    assert forall i :: |front| <= i < |all| ==> all[i] == page[i - |front|];
    assert forall i :: 0 <= i < |page| ==> low <= page[i].start <= high;
  }

  /** Pages from index i on hold nothing at or below an x below index i. */
  lemma {:induction false} LaterPagesAbove(bytes: seq<Byte>, h: Header, i: nat, n: nat, x: nat)
    requires InOrder(bytes, h) && i <= n <= PageCount(h) && x < OffsetAt(bytes, h, i)
    ensures Functions(bytes, h, i).Ok? && Functions(bytes, h, n).Ok?
    ensures AtOrBelow(Functions(bytes, h, n).value, x) == AtOrBelow(Functions(bytes, h, i).value, x)
    decreases n
  {
    hide PageFunctions, ReadIndex, LastAtOrBelow;
    FunctionsReadable(bytes, h, n);
    FunctionsReadable(bytes, h, i);
    if i < n {
      LaterPagesAbove(bytes, h, i, n - 1, x);
      OffsetsAscend(bytes, h, i, n - 1);
      assert PageInOrder(bytes, h, n - 1);
      var front, page := Functions(bytes, h, n - 1).value,
          PageFunctions(bytes, h, ReadIndex(bytes, h, n - 1).value).value;
      assert forall j :: 0 <= j < |page| ==> StartOf(page[j]) > x by {
        assert forall j :: 0 <= j < |page| ==> page[0].start <= page[j].start;
      }
      AboveIgnored(front, page, x);
    }
  }

  lemma AboveIgnored(front: seq<Entry>, page: seq<Entry>, x: int)
    requires forall j :: 0 <= j < |page| ==> StartOf(page[j]) > x
    ensures AtOrBelow(front + page, x) == AtOrBelow(front, x)
  {
    hide LastAtOrBelow;
    LastInFront(front, page, StartOf, x);
  }

  /** The flat search finds its answer in the page whose index range holds x. */
  lemma CoveringPageDecides(bytes: seq<Byte>, h: Header, i: nat, x: nat)
    requires InOrder(bytes, h) && i < PageCount(h)
    requires OffsetAt(bytes, h, i) <= x < OffsetAt(bytes, h, i + 1)
    requires HasFunctions(bytes, h, i)
    ensures Functions(bytes, h, PageCount(h)).Ok?
    ensures AtOrBelow(Functions(bytes, h, PageCount(h)).value, x)
         == AtOrBelow(PageFunctions(bytes, h, ReadIndex(bytes, h, i).value).value, x)
  {
    hide PageFunctions, ReadIndex, LastAtOrBelow;
    assert PageInOrder(bytes, h, i);
    LaterPagesAbove(bytes, h, i + 1, PageCount(h), x);
    FunctionsReadable(bytes, h, i);
    var front, page := Functions(bytes, h, i).value, PageFunctions(bytes, h, ReadIndex(bytes, h, i).value).value;
    assert Functions(bytes, h, i + 1).value == front + page;
    assert StartOf(page[0]) <= x;
    LastInTail(front, page, StartOf, x);
  }

  // ---------- the lookup ----------

  /** The scan of a regular page. */
  method ScanRegular(bytes: seq<Byte>, h: Header, index: Index, p: Page, relative: U64)
      returns (r: Result<Option<Entry>>)
    requires p.RegularPage?
    ensures var es := Entries(bytes, h, index, p, p.entryCount);
            es.Ok? && Ascending(es.value) ==> r == Ok(AtOrBelow(es.value, relative))
  {
    hide RegularEntry, AtOrBelow;
    ghost var es := Entries(bytes, h, index, p, p.entryCount);
    var found: Option<Entry> := None;
    var j := 0;
    while j < p.entryCount
      invariant j <= p.entryCount
      invariant es.Ok? ==> forall i :: 0 <= i < j ==> es.value[i].start <= relative
      invariant es.Ok? ==> found == if j == 0 then None else Some(es.value[j - 1])
    {
      var e := RegularEntry(bytes, p, j);
      assert es.Ok? ==> EntryAt(bytes, h, index, p, j) == Ok(es.value[j]);
      if e.Err? { return Err(e.error); }
      if relative < e.value.start { break; }
      found := Some(e.value);
      j := j + 1;
    }
    if es.Ok? && Ascending(es.value) { ScanStops(es.value, j, relative); }
    r := Ok(found);
  }

  /** The scan of a compressed page; encodings are looked up only for the entries passed. */
  method ScanCompressed(bytes: seq<Byte>, h: Header, index: Index, p: Page, relative: U64)
      returns (r: Result<Option<Entry>>)
    requires p.CompressedPage?
    ensures var es := Entries(bytes, h, index, p, p.entryCount);
            es.Ok? && Ascending(es.value) ==> r == Ok(AtOrBelow(es.value, relative))
  {
    hide PackedEntry, NumberedEncoding, AtOrBelow, And;
    ghost var es := Entries(bytes, h, index, p, p.entryCount);
    var found: Option<Entry> := None;
    var j := 0;
    while j < p.entryCount
      invariant j <= p.entryCount
      invariant es.Ok? ==> forall i :: 0 <= i < j ==> es.value[i].start <= relative
      invariant es.Ok? ==> found == if j == 0 then None else Some(es.value[j - 1])
    {
      assert es.Ok? ==> EntryAt(bytes, h, index, p, j) == Ok(es.value[j]);
      var e := PackedEntry(bytes, p, j);
      if e.Err? { return Err(e.error); }
      LowBits(e.value);
      var address := Wrap32(index.functionOffset + And(e.value, 0xff_ffff));
      if relative < address { break; }
      var encoding := NumberedEncoding(bytes, h, p, e.value / 0x100_0000);
      if encoding.Err? { return Err(encoding.error); }
      found := Some(Entry(address, encoding.value));
      j := j + 1;
    }
    if es.Ok? && Ascending(es.value) { ScanStops(es.value, j, relative); }
    r := Ok(found);
  }

  lemma LowBits(e: nat)
    ensures And(e, 0xff_ffff) == e % 0x100_0000
  {
    assert Pow2(24) == 0x100_0000 by {
      Pow2Large();
      Pow2Small();
      Pow2Sum(16, 8);
    }
    AndMask(e, 24);
  }

  /** An index range holds x and its page has functions. */
  ghost predicate Inhabited(bytes: seq<Byte>, h: Header, x: nat)
  {
    exists i :: 0 <= i < PageCount(h) && OffsetAt(bytes, h, i) <= x < OffsetAt(bytes, h, i + 1)
        && HasFunctions(bytes, h, i)
  }

  ghost predicate HasFunctions(bytes: seq<Byte>, h: Header, i: nat)
  {
    && ReadIndex(bytes, h, i).Ok? && PageFunctions(bytes, h, ReadIndex(bytes, h, i).value).Ok?
    && PageFunctions(bytes, h, ReadIndex(bytes, h, i).value).value != []
  }

  /** What the flat search over all functions of the table finds. */
  function FlatSearch(bytes: seq<Byte>, h: Header, x: nat): Option<Entry>
  {
    var all := Functions(bytes, h, PageCount(h));
    if all.Ok? then AtOrBelow(all.value, x) else None
  }

  /** The two-level lookup.  For tables in order it finds what the flat search finds wherever the page is not empty, and
      nothing elsewhere; so it agrees with the flat search exactly there and where no function starts at or below. */
  method Lookup(bytes: seq<Byte>, relative: U64) returns (r: Result<Option<Entry>>)
    ensures bytes == [] ==> r == Ok(None)
    ensures bytes != [] && ReadHeader(bytes).Err? ==> r == Err(Truncated)
    ensures bytes != [] && ReadHeader(bytes).Ok? && ReadHeader(bytes).value.version != 1 ==> r == Err(BadTable)
    ensures bytes != [] && ReadHeader(bytes).Ok? ==>
            var h := ReadHeader(bytes).value;
            h.version == 1 && InOrder(bytes, h) ==>
              && Functions(bytes, h, PageCount(h)).Ok?
              && r == Ok(if Inhabited(bytes, h, relative) then FlatSearch(bytes, h, relative) else None)
              && (r == Ok(FlatSearch(bytes, h, relative)) <==>
                  Inhabited(bytes, h, relative) || FlatSearch(bytes, h, relative).None?)
  {
    hide PageFunctions, ReadIndex, AtOrBelow, FlatSearch, Inhabited, Entries, ReadPage, InOrder;
    if bytes == [] { return Ok(None); }
    var header := ReadHeader(bytes);
    if header.Err? { return Err(header.error); }
    var h := header.value;
    if h.version != 1 { return Err(BadTable); }
    if InOrder(bytes, h) { FunctionsReadable(bytes, h, PageCount(h)); }
    var i := 0;
    while i + 1 < h.indexCount
      invariant i <= PageCount(h)
      invariant InOrder(bytes, h) ==> forall k :: 0 <= k < i ==>
                  !(OffsetAt(bytes, h, k) <= relative < OffsetAt(bytes, h, k + 1))
    {
      if InOrder(bytes, h) { IndexReadable(bytes, h, i); }
      var index := ReadIndex(bytes, h, i);
      if index.Err? { return Err(index.error); }
      var next := ReadIndex(bytes, h, i + 1);
      if next.Err? { return Err(next.error); }
      if relative < index.value.functionOffset || relative >= next.value.functionOffset {
        i := i + 1;
        continue;
      }
      if InOrder(bytes, h) { FoundRange(bytes, h, i, relative); }
      var page := index.value.page;
      if page == 0 { return Ok(None); }
      var p := ReadPage(bytes, page);
      if p.Err? { return Err(p.error); }
      if p.value.RegularPage? {
        r := ScanRegular(bytes, h, index.value, p.value, relative);
      } else {
        r := ScanCompressed(bytes, h, index.value, p.value, relative);
      }
      return;
    }
    if InOrder(bytes, h) { NoRange(bytes, h, relative); }
    r := Ok(None);
  }

  lemma IndexReadable(bytes: seq<Byte>, h: Header, i: nat)
    requires InOrder(bytes, h) && i < PageCount(h)
    ensures ReadIndex(bytes, h, i).Ok? && ReadIndex(bytes, h, i + 1).Ok?
    ensures OffsetAt(bytes, h, i) == ReadIndex(bytes, h, i).value.functionOffset
    ensures OffsetAt(bytes, h, i + 1) == ReadIndex(bytes, h, i + 1).value.functionOffset
  {
    hide PageFunctions, ReadIndex;
    assert PageInOrder(bytes, h, i);
  }

  /** In the one range that holds x, the page decides. */
  lemma FoundRange(bytes: seq<Byte>, h: Header, i: nat, x: nat)
    requires InOrder(bytes, h) && i < PageCount(h) && OffsetAt(bytes, h, i) <= x < OffsetAt(bytes, h, i + 1)
    ensures ReadIndex(bytes, h, i).Ok?
    ensures var index := ReadIndex(bytes, h, i).value;
            if index.page == 0 then !Inhabited(bytes, h, x)
            else
              && ReadPage(bytes, index.page).Ok?
              && var p := ReadPage(bytes, index.page).value;
              var es := Entries(bytes, h, index, p, p.entryCount);
              && es.Ok? && Ascending(es.value)
              && AtOrBelow(es.value, x) == if Inhabited(bytes, h, x) then FlatSearch(bytes, h, x) else None
  {
    hide ReadIndex, LastAtOrBelow, Entries, ReadPage, Functions;
    assert PageInOrder(bytes, h, i);
    FunctionsReadable(bytes, h, PageCount(h));
    var es := PageFunctions(bytes, h, ReadIndex(bytes, h, i).value).value;
    if es != [] {
      assert HasFunctions(bytes, h, i);
      assert Inhabited(bytes, h, x);
      CoveringPageDecides(bytes, h, i, x);
    } else {
      OnlyRange(bytes, h, i, x);
      assert !HasFunctions(bytes, h, i);
      assert !Inhabited(bytes, h, x);
      assert LastAtOrBelow(es, StartOf, x) == None;
    }
  }

  lemma OnlyRange(bytes: seq<Byte>, h: Header, i: nat, x: nat)
    requires InOrder(bytes, h) && i < PageCount(h) && OffsetAt(bytes, h, i) <= x < OffsetAt(bytes, h, i + 1)
    ensures forall k :: 0 <= k < PageCount(h) && OffsetAt(bytes, h, k) <= x < OffsetAt(bytes, h, k + 1) ==> k == i
  {
    hide OffsetAt, InOrder;
    forall k | 0 <= k < PageCount(h) && OffsetAt(bytes, h, k) <= x < OffsetAt(bytes, h, k + 1)
      ensures k == i
    {
      if k < i { OffsetsAscend(bytes, h, k + 1, i); }
      if i < k { OffsetsAscend(bytes, h, i + 1, k); }
    }
  }

  lemma NoRange(bytes: seq<Byte>, h: Header, x: nat)
    requires forall k :: 0 <= k < PageCount(h) ==> !(OffsetAt(bytes, h, k) <= x < OffsetAt(bytes, h, k + 1))
    ensures !Inhabited(bytes, h, x)
  {}
}
