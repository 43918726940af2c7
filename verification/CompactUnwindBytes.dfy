/** The records of a compact unwind table as compact_unwind_encoding.h lays them out: the partner of the readers. */
module CompactUnwindBytes {
  import opened Results
  import opened Bits
  import opened Cursors
  import opened CompactUnwind
  import opened Search

  predicate IsWord(v: nat) { v < TWO32 }
  predicate IsHalf(v: nat) { v < TWO16 }

  /** Consecutive 32-bit words. */
  function WordBytes(ws: seq<nat>): (bs: seq<Byte>)
    ensures |bs| == 4 * |ws|
  {
    if ws == [] then [] else EncodeLe(ws[0], 4) + WordBytes(ws[1..])
  }

  lemma FieldAt(bytes: seq<Byte>, pos: nat, v: nat, n: nat)
    requires v < Pow2(8 * n) && At(bytes, pos, EncodeLe(v, n))
    ensures pos + n <= |bytes| && Field(bytes, pos, n) == v
  {
    LeRoundTrip(v, n);
  }

  /** Word k of consecutive words is read back from its place. */
  lemma {:induction false} WordAt(bytes: seq<Byte>, pos: nat, ws: seq<nat>, k: nat)
    requires At(bytes, pos, WordBytes(ws)) && k < |ws| && IsWord(ws[k])
    ensures pos + 4 * k + 4 <= |bytes| && Field(bytes, pos + 4 * k, 4) == ws[k] && Word(bytes, pos + 4 * k) == Ok(ws[k])
    decreases |ws|
  {
    hide EncodeLe, Field, At;
    AtSplit(bytes, pos, EncodeLe(ws[0], 4), WordBytes(ws[1..]));
    if k == 0 {
      assert Pow2(8 * 4) == TWO32 by { Pow2Large(); }
      FieldAt(bytes, pos, ws[0], 4);
    } else {
      WordAt(bytes, pos + 4, ws[1..], k - 1);
      assert pos + 4 + 4 * (k - 1) == pos + 4 * k;
    }
  }

  lemma HalfAt(bytes: seq<Byte>, pos: nat, v: nat)
    requires IsHalf(v) && At(bytes, pos, EncodeLe(v, 2))
    ensures pos + 2 <= |bytes| && Field(bytes, pos, 2) == v
  {
    hide EncodeLe, Field;
    assert Pow2(8 * 2) == TWO16 by { Pow2Large(); }
    FieldAt(bytes, pos, v, 2);
  }

  // ---------- header and index ----------

  /** unwind_info_section_header, with the personality array the lookup does not use. */
  function HeaderWords(h: Header, personalityOffset: nat, personalityCount: nat): seq<nat>
  {
    [h.version, h.commonOffset, h.commonCount, personalityOffset, personalityCount, h.indexOffset, h.indexCount]
  }

  lemma HeaderRead(bytes: seq<Byte>, h: Header, personalityOffset: nat, personalityCount: nat)
    requires At(bytes, 0, WordBytes(HeaderWords(h, personalityOffset, personalityCount)))
    requires IsWord(h.version) && IsWord(h.commonOffset) && IsWord(h.commonCount) && IsWord(h.indexOffset)
               && IsWord(h.indexCount)
    ensures ReadHeader(bytes) == Ok(h)
  {
    hide WordBytes, Field, At, Word;
    var ws := HeaderWords(h, personalityOffset, personalityCount);
    assert |bytes| >= 28 by { AtFits(bytes, 0, WordBytes(ws)); }
    WordAt(bytes, 0, ws, 0);
    WordAt(bytes, 0, ws, 1);
    WordAt(bytes, 0, ws, 2);
    WordAt(bytes, 0, ws, 5);
    WordAt(bytes, 0, ws, 6);
  }

  lemma AtFits(bytes: seq<Byte>, pos: nat, bs: seq<Byte>)
    requires At(bytes, pos, bs)
    ensures pos + |bs| <= |bytes|
  {}

  /** unwind_info_section_header_index_entry records, three words each. */
  function IndexWords(indexes: seq<Index>, lsda: nat): (ws: seq<nat>)
    ensures |ws| == 3 * |indexes|
  {
    if indexes == [] then [] else [indexes[0].functionOffset, indexes[0].page, lsda] + IndexWords(indexes[1..], lsda)
  }

  lemma {:induction false} IndexWordsAt(indexes: seq<Index>, lsda: nat, i: nat)
    requires i < |indexes|
    ensures IndexWords(indexes, lsda)[3 * i] == indexes[i].functionOffset
    ensures IndexWords(indexes, lsda)[3 * i + 1] == indexes[i].page
    decreases |indexes|
  {
    if i > 0 {
      IndexWordsAt(indexes[1..], lsda, i - 1);
      assert 3 * i - 3 == 3 * (i - 1);
    }
  }

  lemma IndexRead(bytes: seq<Byte>, h: Header, indexes: seq<Index>, lsda: nat, i: nat)
    requires At(bytes, h.indexOffset, WordBytes(IndexWords(indexes, lsda))) && i < |indexes|
    requires IsWord(indexes[i].functionOffset) && IsWord(indexes[i].page)
    ensures ReadIndex(bytes, h, i) == Ok(indexes[i])
  {
    hide WordBytes, Field, At, Word, IndexWords;
    var ws := IndexWords(indexes, lsda);
    IndexWordsAt(indexes, lsda, i);
    AtFits(bytes, h.indexOffset, WordBytes(ws));
    WordAt(bytes, h.indexOffset, ws, 3 * i);
    WordAt(bytes, h.indexOffset, ws, 3 * i + 1);
    var at := h.indexOffset + i * 12;
    assert at == h.indexOffset + 4 * (3 * i) && at + 4 == h.indexOffset + 4 * (3 * i + 1);
  }

  // ---------- regular pages ----------

  function PairWords(es: seq<Entry>): (ws: seq<nat>)
    ensures |ws| == 2 * |es|
  {
    if es == [] then [] else [es[0].start, es[0].encoding] + PairWords(es[1..])
  }

  lemma {:induction false} PairWordsAt(es: seq<Entry>, j: nat)
    requires j < |es|
    ensures PairWords(es)[2 * j] == es[j].start && PairWords(es)[2 * j + 1] == es[j].encoding
    decreases |es|
  {
    if j > 0 {
      PairWordsAt(es[1..], j - 1);
      assert 2 * j - 2 == 2 * (j - 1);
    }
  }

  function RegularHeader(entryOffset: nat, count: nat): seq<Byte>
  {
    EncodeLe(REGULAR, 4) + (EncodeLe(entryOffset, 2) + EncodeLe(count, 2))
  }

  lemma KindAt(bytes: seq<Byte>, at: nat, kind: nat)
    requires IsWord(kind) && At(bytes, at, EncodeLe(kind, 4))
    ensures Word(bytes, at) == Ok(kind)
  {
    hide EncodeLe, Field;
    assert Pow2(8 * 4) == TWO32 by { Pow2Large(); }
    FieldAt(bytes, at, kind, 4);
  }

  lemma RegularHeaderRead(bytes: seq<Byte>, at: nat, entryOffset: nat, count: nat)
    requires At(bytes, at, RegularHeader(entryOffset, count)) && IsHalf(entryOffset) && IsHalf(count)
    ensures ReadPage(bytes, at) == Ok(RegularPage(at, entryOffset, count))
  {
    hide EncodeLe, Field, At, Word;
    AtSplit(bytes, at, EncodeLe(REGULAR, 4), EncodeLe(entryOffset, 2) + EncodeLe(count, 2));
    AtSplit(bytes, at + 4, EncodeLe(entryOffset, 2), EncodeLe(count, 2));
    KindAt(bytes, at, REGULAR);
    HalfAt(bytes, at + 4, entryOffset);
    HalfAt(bytes, at + 6, count);
  }

  lemma {:induction false} EntriesAre(bytes: seq<Byte>, h: Header, index: Index, p: Page, es: seq<Entry>, n: nat)
    requires n <= |es| && forall j :: 0 <= j < n ==> EntryAt(bytes, h, index, p, j) == Ok(es[j])
    ensures Entries(bytes, h, index, p, n) == Ok(es[..n])
  {
    hide EntryAt;
    if n > 0 {
      EntriesAre(bytes, h, index, p, es, n - 1);
      assert es[..n - 1] + [es[n - 1]] == es[..n];
    }
  }

  /** A regular page written with a list of functions is read back as that list. */
  lemma RegularPageRead(bytes: seq<Byte>, h: Header, index: Index, entryOffset: nat, es: seq<Entry>)
    requires index.page > 0 && index.page + entryOffset < TWO32 && IsHalf(entryOffset) && IsHalf(|es|)
    requires At(bytes, index.page, RegularHeader(entryOffset, |es|))
    requires At(bytes, index.page + entryOffset, WordBytes(PairWords(es)))
    requires forall j :: 0 <= j < |es| ==> IsWord(es[j].start) && IsWord(es[j].encoding)
    ensures PageFunctions(bytes, h, index) == Ok(es)
  {
    hide EncodeLe, Field, At, Word, WordBytes, PairWords, ReadPage, RegularHeader;
    RegularHeaderRead(bytes, index.page, entryOffset, |es|);
    var p := RegularPage(index.page, entryOffset, |es|);
    var base := index.page + entryOffset;
    forall j | 0 <= j < |es|
      ensures EntryAt(bytes, h, index, p, j) == Ok(es[j])
    {
      PairWordsAt(es, j);
      WordAt(bytes, base, PairWords(es), 2 * j);
      WordAt(bytes, base, PairWords(es), 2 * j + 1);
      assert base + j * 8 == base + 4 * (2 * j) && base + j * 8 + 4 == base + 4 * (2 * j + 1);
    }
    EntriesAre(bytes, h, index, p, es, |es|);
    assert es[..|es|] == es;
  }

  // ---------- compressed pages ----------

  /** A compressed entry: the distance from the page's first function and the number of its encoding. */
  datatype Packed = Packed(distance: nat, key: nat)

  function PackedWords(ps: seq<Packed>): seq<nat>
  {
    seq(|ps|, j requires 0 <= j < |ps| => ps[j].key * 0x100_0000 + ps[j].distance)
  }

  function CompressedHeader(entryOffset: nat, count: nat, encodingsOffset: nat, encodingsCount: nat): seq<Byte>
  {
    EncodeLe(COMPRESSED, 4) + (EncodeLe(entryOffset, 2) + (EncodeLe(count, 2) +
      (EncodeLe(encodingsOffset, 2) + EncodeLe(encodingsCount, 2))))
  }

  lemma CompressedHeaderRead(bytes: seq<Byte>, at: nat, entryOffset: nat, count: nat, encodingsOffset: nat,
      encodingsCount: nat)
    requires At(bytes, at, CompressedHeader(entryOffset, count, encodingsOffset, encodingsCount))
    requires IsHalf(entryOffset) && IsHalf(count) && IsHalf(encodingsOffset) && IsHalf(encodingsCount)
    ensures ReadPage(bytes, at) == Ok(CompressedPage(at, entryOffset, count, encodingsOffset, encodingsCount))
  {
    hide EncodeLe, Field, At, Word;
    var c, d := EncodeLe(encodingsOffset, 2), EncodeLe(encodingsCount, 2);
    AtSplit(bytes, at, EncodeLe(COMPRESSED, 4), EncodeLe(entryOffset, 2) + (EncodeLe(count, 2) + (c + d)));
    AtSplit(bytes, at + 4, EncodeLe(entryOffset, 2), EncodeLe(count, 2) + (c + d));
    AtSplit(bytes, at + 6, EncodeLe(count, 2), c + d);
    AtSplit(bytes, at + 8, c, d);
    KindAt(bytes, at, COMPRESSED);
    HalfAt(bytes, at + 4, entryOffset);
    HalfAt(bytes, at + 6, count);
    HalfAt(bytes, at + 8, encodingsOffset);
    HalfAt(bytes, at + 10, encodingsCount);
  }

  /** The functions a compressed page stands for: encodings numbered through the common ones, then the page's own. */
  function Unpacked(ps: seq<Packed>, first: nat, encodings: seq<nat>): seq<Entry>
    requires forall j :: 0 <= j < |ps| ==> ps[j].key < |encodings|
  {
    seq(|ps|, j requires 0 <= j < |ps| => Entry(first + ps[j].distance, encodings[ps[j].key]))
  }

  /** Numbered encodings are read from the common table or the page's own. */
  lemma EncodingRead(bytes: seq<Byte>, h: Header, p: Page, common: seq<nat>, own: seq<nat>, key: nat)
    requires p.CompressedPage? && |common| == h.commonCount && |own| == p.encodingsCount && key < |common| + |own|
    requires At(bytes, h.commonOffset, WordBytes(common)) && At(bytes, p.at + p.encodingsOffset, WordBytes(own))
    requires h.commonOffset + 4 * |common| < TWO32 && p.at + p.encodingsOffset + 4 * |own| < TWO32
    requires IsWord((common + own)[key])
    ensures NumberedEncoding(bytes, h, p, key) == Ok((common + own)[key])
  {
    hide At, Word, WordBytes, Wrap32, Field;
    if key < |common| {
      assert (common + own)[key] == common[key];
      WordAt(bytes, h.commonOffset, common, key);
      NoWrap(h.commonOffset + key * 4);
    } else {
      var k := key - |common|;
      assert (common + own)[key] == own[k];
      WordAt(bytes, p.at + p.encodingsOffset, own, k);
      NoWrap(p.at + p.encodingsOffset + k * 4);
    }
  }

  lemma NoWrap(x: nat)
    requires x < TWO32
    ensures Wrap32(x) == x
  {}

  /** A compressed page written with packed entries is read back as the functions it stands for. */
  lemma CompressedPageRead(bytes: seq<Byte>, h: Header, index: Index, entryOffset: nat, ps: seq<Packed>,
                           encodingsOffset: nat, common: seq<nat>, own: seq<nat>)
    requires index.page > 0 && IsHalf(entryOffset) && IsHalf(|ps|) && IsHalf(encodingsOffset) && IsHalf(|own|)
    requires |common| == h.commonCount && h.commonOffset + 4 * |common| < TWO32
    requires index.page + entryOffset + 4 * |ps| < TWO32 && index.page + encodingsOffset + 4 * |own| < TWO32
    requires At(bytes, index.page, CompressedHeader(entryOffset, |ps|, encodingsOffset, |own|))
    requires At(bytes, index.page + entryOffset, WordBytes(PackedWords(ps)))
    requires At(bytes, h.commonOffset, WordBytes(common)) && At(bytes, index.page + encodingsOffset, WordBytes(own))
    requires forall k :: 0 <= k < |common + own| ==> IsWord((common + own)[k])
    requires forall j :: 0 <= j < |ps| ==>
               ps[j].key < |common + own| && ps[j].key < 256 && ps[j].distance < 0x100_0000
               && index.functionOffset + ps[j].distance < TWO32
    ensures PageFunctions(bytes, h, index) == Ok(Unpacked(ps, index.functionOffset, common + own))
  {
    hide EncodeLe, Field, At, Word, WordBytes, ReadPage, CompressedHeader, NumberedEncoding, Wrap32;
    CompressedHeaderRead(bytes, index.page, entryOffset, |ps|, encodingsOffset, |own|);
    var p := CompressedPage(index.page, entryOffset, |ps|, encodingsOffset, |own|);
    var es := Unpacked(ps, index.functionOffset, common + own);
    var base := index.page + entryOffset;
    forall j | 0 <= j < |ps|
      ensures EntryAt(bytes, h, index, p, j) == Ok(es[j])
    {
      var e := ps[j].key * 0x100_0000 + ps[j].distance;
      assert PackedWords(ps)[j] == e && IsWord(e);
      assert e / 0x100_0000 == ps[j].key && e % 0x100_0000 == ps[j].distance;
      WordAt(bytes, base, PackedWords(ps), j);
      NoWrap(base + j * 4);
      NoWrap(index.functionOffset + ps[j].distance);
      EncodingRead(bytes, h, p, common, own, ps[j].key);
    }
    EntriesAre(bytes, h, index, p, es, |es|);
    assert es[..|es|] == es;
  }

  // ---------- whole tables ----------

  datatype PageSpec =
    | NoPage
    | Regular(entryOffset: nat, functions: seq<Entry>)
    | Compressed(entryOffset: nat, packed: seq<Packed>, encodingsOffset: nat, own: seq<nat>)

  /** A table as it is meant: the last index only ends the range of the one before it. */
  datatype Table = Table(header: Header, common: seq<nat>, indexes: seq<Index>, pages: seq<PageSpec>)

  /** The page's records stand where its index points, and its fields fit. */
  ghost predicate PageWritten(bytes: seq<Byte>, h: Header, common: seq<nat>, index: Index, page: PageSpec)
  {
    match page
    case NoPage => index.page == 0
    case Regular(entryOffset, es) =>
      && index.page > 0 && index.page + entryOffset < TWO32 && IsHalf(entryOffset) && IsHalf(|es|)
      && At(bytes, index.page, RegularHeader(entryOffset, |es|))
      && At(bytes, index.page + entryOffset, WordBytes(PairWords(es)))
      && forall j :: 0 <= j < |es| ==> IsWord(es[j].start) && IsWord(es[j].encoding)
    case Compressed(entryOffset, ps, encodingsOffset, own) =>
      && index.page > 0 && IsHalf(entryOffset) && IsHalf(|ps|) && IsHalf(encodingsOffset) && IsHalf(|own|)
      && index.page + entryOffset + 4 * |ps| < TWO32 && index.page + encodingsOffset + 4 * |own| < TWO32
      && At(bytes, index.page, CompressedHeader(entryOffset, |ps|, encodingsOffset, |own|))
      && At(bytes, index.page + entryOffset, WordBytes(PackedWords(ps)))
      && At(bytes, index.page + encodingsOffset, WordBytes(own))
      && (forall k :: 0 <= k < |common + own| ==> IsWord((common + own)[k]))
      && forall j :: 0 <= j < |ps| ==>
           && ps[j].key < |common + own| && ps[j].key < 256 && ps[j].distance < 0x100_0000
           && index.functionOffset + ps[j].distance < TWO32
  }

  ghost predicate Written(bytes: seq<Byte>, t: Table)
  {
    var h := t.header;
    && (exists po, pc :: At(bytes, 0, WordBytes(HeaderWords(h, po, pc))))
    && (exists lsda :: At(bytes, h.indexOffset, WordBytes(IndexWords(t.indexes, lsda))))
    && At(bytes, h.commonOffset, WordBytes(t.common)) && h.commonOffset + 4 * |t.common| < TWO32
    && IsWord(h.version) && IsWord(h.commonOffset) && IsWord(h.commonCount) && IsWord(h.indexOffset)
        && IsWord(h.indexCount)
    && |t.common| == h.commonCount && |t.indexes| == h.indexCount == |t.pages| + 1
    && (forall i :: 0 <= i < |t.indexes| ==> IsWord(t.indexes[i].functionOffset) && IsWord(t.indexes[i].page))
    && forall i :: 0 <= i < |t.pages| ==> PageWritten(bytes, h, t.common, t.indexes[i], t.pages[i])
  }

  /** The functions a page means. */
  ghost function Meant(page: PageSpec, index: Index, common: seq<nat>): seq<Entry>
    requires page.Compressed? ==> forall j :: 0 <= j < |page.packed| ==> page.packed[j].key < |common + page.own|
  {
    match page
    case NoPage => []
    case Regular(_, es) => es
    case Compressed(_, ps, _, own) => Unpacked(ps, index.functionOffset, common + own)
  }

  ghost predicate KeysInRange(t: Table)
  {
    && |t.indexes| >= |t.pages|
    && forall i :: 0 <= i < |t.pages| && t.pages[i].Compressed? ==>
         forall j :: 0 <= j < |t.pages[i].packed| ==> t.pages[i].packed[j].key < |t.common + t.pages[i].own|
  }

  /** The functions of the first n pages. */
  ghost function Listed(t: Table, n: nat): seq<Entry>
    requires KeysInRange(t) && n <= |t.pages|
  {
    if n == 0 then [] else Listed(t, n - 1) + Meant(t.pages[n - 1], t.indexes[n - 1], t.common)
  }

  lemma WrittenPageRead(bytes: seq<Byte>, t: Table, i: nat)
    requires Written(bytes, t) && i < |t.pages|
    ensures KeysInRange(t) && ReadIndex(bytes, t.header, i) == Ok(t.indexes[i])
    ensures ReadIndex(bytes, t.header, i + 1) == Ok(t.indexes[i + 1])
    ensures PageFunctions(bytes, t.header, t.indexes[i]) == Ok(Meant(t.pages[i], t.indexes[i], t.common))
  {
    hide At, WordBytes, IndexWords, HeaderWords, RegularHeader, CompressedHeader, PairWords, PackedWords, ReadIndex,
        Entries;
    var lsda :| At(bytes, t.header.indexOffset, WordBytes(IndexWords(t.indexes, lsda)));
    IndexRead(bytes, t.header, t.indexes, lsda, i);
    IndexRead(bytes, t.header, t.indexes, lsda, i + 1);
    assert forall k :: 0 <= k < |t.pages| ==> PageWritten(bytes, t.header, t.common, t.indexes[k], t.pages[k]);
    match t.pages[i] {
      case NoPage =>
      case Regular(entryOffset, es) => RegularPageRead(bytes, t.header, t.indexes[i], entryOffset, es);
      case Compressed(entryOffset, ps, encodingsOffset, own) =>
        CompressedPageRead(bytes, t.header, t.indexes[i], entryOffset, ps, encodingsOffset, t.common, own);
    }
  }

  lemma {:induction false} WrittenFunctionsRead(bytes: seq<Byte>, t: Table, n: nat)
    requires Written(bytes, t) && n <= |t.pages|
    ensures KeysInRange(t) && Functions(bytes, t.header, n) == Ok(Listed(t, n))
    decreases n
  {
    hide Written, PageFunctions, ReadIndex, Meant;
    if n > 0 {
      WrittenFunctionsRead(bytes, t, n - 1);
      WrittenPageRead(bytes, t, n - 1);
    } else {
      AllKeysInRange(bytes, t);
    }
  }

  lemma AllKeysInRange(bytes: seq<Byte>, t: Table)
    requires Written(bytes, t)
    ensures KeysInRange(t) && PageCount(t.header) == |t.pages|
  {
    hide At, WordBytes, IndexWords, HeaderWords;
    assert forall k :: 0 <= k < |t.pages| ==> PageWritten(bytes, t.header, t.common, t.indexes[k], t.pages[k]);
  }

  /** The pages are in order, each starting at its index and ending at or below the next. */
  ghost predicate Ordered(t: Table)
    requires KeysInRange(t)
  {
    && |t.indexes| == |t.pages| + 1
    && forall i :: 0 <= i < |t.pages| ==> PageOrdered(t, i)
  }

  ghost predicate PageOrdered(t: Table, i: nat)
    requires KeysInRange(t) && i < |t.pages| && i + 1 < |t.indexes|
  {
    var es, here, next := Meant(t.pages[i], t.indexes[i], t.common), t.indexes[i].functionOffset,
        t.indexes[i + 1].functionOffset;
    && here <= next && Ascending(es)
    && (es != [] ==> es[0].start == here && es[|es| - 1].start <= next)
  }

  /** A written table is read back: its header, its order and its function list. */
  lemma WrittenTableRead(bytes: seq<Byte>, t: Table)
    requires Written(bytes, t)
    ensures KeysInRange(t) && ReadHeader(bytes) == Ok(t.header) && PageCount(t.header) == |t.pages|
    ensures Functions(bytes, t.header, PageCount(t.header)) == Ok(Listed(t, |t.pages|))
    ensures Ordered(t) ==> InOrder(bytes, t.header)
  {
    hide At, WordBytes, IndexWords, HeaderWords, PageFunctions, ReadIndex, Meant, Listed, Functions;
    AllKeysInRange(bytes, t);
    assert ReadHeader(bytes) == Ok(t.header) by {
      var po, pc :| At(bytes, 0, WordBytes(HeaderWords(t.header, po, pc)));
      HeaderRead(bytes, t.header, po, pc);
    }
    WrittenFunctionsRead(bytes, t, |t.pages|);
    if Ordered(t) {
      forall i | 0 <= i < PageCount(t.header)
        ensures PageInOrder(bytes, t.header, i)
      {
        WrittenPageRead(bytes, t, i);
        assert PageOrdered(t, i);
      }
    }
  }

  /** The range of index i holds x and its page means some function. */
  ghost predicate MeansSome(t: Table, x: nat)
    requires KeysInRange(t) && |t.indexes| == |t.pages| + 1
  {
    exists i :: 0 <= i < |t.pages| && RangeMeansSome(t, i, x)
  }

  ghost predicate RangeMeansSome(t: Table, i: nat, x: nat)
    requires KeysInRange(t) && i < |t.pages| && i + 1 < |t.indexes|
  {
    && t.indexes[i].functionOffset <= x < t.indexes[i + 1].functionOffset
    && Meant(t.pages[i], t.indexes[i], t.common) != []
  }

  /** Index i and its page are read as they are meant. */
  ghost predicate RangeRead(bytes: seq<Byte>, t: Table, i: nat)
    requires KeysInRange(t) && i < |t.pages| && i + 1 < |t.indexes|
  {
    && OffsetAt(bytes, t.header, i) == t.indexes[i].functionOffset
    && OffsetAt(bytes, t.header, i + 1) == t.indexes[i + 1].functionOffset
    && (HasFunctions(bytes, t.header, i) <==> Meant(t.pages[i], t.indexes[i], t.common) != [])
  }

  lemma InhabitedIff(bytes: seq<Byte>, t: Table, x: nat)
    requires Written(bytes, t)
    ensures KeysInRange(t) && |t.indexes| == |t.pages| + 1
    ensures Inhabited(bytes, t.header, x) <==> MeansSome(t, x)
  {
    hide At, WordBytes, IndexWords, HeaderWords, PageFunctions, ReadIndex, Meant, Listed, Functions;
    AllKeysInRange(bytes, t);
    forall i | 0 <= i < |t.pages|
      ensures RangeRead(bytes, t, i)
    {
      WrittenPageRead(bytes, t, i);
    }
    if Inhabited(bytes, t.header, x) {
      var i :| 0 <= i < PageCount(t.header) && OffsetAt(bytes, t.header, i) <= x < OffsetAt(bytes, t.header, i + 1)
               && HasFunctions(bytes, t.header, i);
      assert RangeRead(bytes, t, i);
      assert RangeMeansSome(t, i, x);
    }
    if MeansSome(t, x) {
      var i :| 0 <= i < |t.pages| && RangeMeansSome(t, i, x);
      assert RangeRead(bytes, t, i);
      assert HasFunctions(bytes, t.header, i);
    }
  }

  /** Looking up an offset in a written table finds the last function listed at or below it, if its page means any. */
  method LookupWritten(bytes: seq<Byte>, relative: U64, ghost t: Table) returns (r: Result<Option<Entry>>)
    requires Written(bytes, t) && t.header.version == 1 && KeysInRange(t) && Ordered(t)
    ensures r == Ok(if MeansSome(t, relative) then AtOrBelow(Listed(t, |t.pages|), relative) else None)
  {
    hide Written, Ordered, InOrder, KeysInRange, Inhabited, MeansSome, Functions, Listed, AtOrBelow;
    WrittenTableRead(bytes, t);
    InhabitedIff(bytes, t, relative);
    assert bytes != [];
    r := Lookup(bytes, relative);
  }

  // ---------- a table with an empty page ----------

  /** One function at 0, and nothing from 16 on. */
  ghost function Sample(): Table
  {
    Table(Header(1, 0, 0, 28, 3), [], [Index(0, 64), Index(16, 0), Index(32, 0)],
          [Regular(8, [Entry(0, 0x0200_0000)]), NoPage])
  }

  ghost function SampleBytes(): seq<Byte>
  {
    var t := Sample();
    WordBytes(HeaderWords(t.header, 0, 0)) +
    (WordBytes(IndexWords(t.indexes, 0)) + (RegularHeader(8, 1) + WordBytes(PairWords(t.pages[0].functions))))
  }

  /** Offset 20 lies above a function and in an empty page: the flat search finds the function, the lookup nothing. */
  lemma EmptyPageAnswersNothing()
    ensures Written(SampleBytes(), Sample()) && KeysInRange(Sample()) && Ordered(Sample())
    ensures InOrder(SampleBytes(), Sample().header) && !Inhabited(SampleBytes(), Sample().header, 20)
    ensures FlatSearch(SampleBytes(), Sample().header, 20) == Some(Entry(0, 0x0200_0000))
  {
    var t, bytes := Sample(), SampleBytes();
    SampleWritten();
    WrittenTableRead(bytes, t);
    InhabitedIff(bytes, t, 20);
    SampleMeaning();
    hide Written, Functions, InOrder, Inhabited;
    assert Listed(t, 2) == [Entry(0, 0x0200_0000)];
    assert LastAtOrBelow(Listed(t, 2), StartOf, 20) == Some(0) by { LastUnique(Listed(t, 2), StartOf, 20, 0); }
  }

  lemma SampleMeaning()
    ensures var t := Sample();
            && KeysInRange(t) && Ordered(t) && !MeansSome(t, 20)
            && Listed(t, 2) == [Entry(0, 0x0200_0000)]
  {
    var t := Sample();
    assert Listed(t, 1) == [] + [Entry(0, 0x0200_0000)];
    assert Listed(t, 2) == Listed(t, 1) + [];
    assert PageOrdered(t, 0) && PageOrdered(t, 1);
  }

  lemma FourParts(a: seq<Byte>, b: seq<Byte>, c: seq<Byte>, d: seq<Byte>)
    ensures var all := a + (b + (c + d));
            At(all, 0, a) && At(all, |a|, b) && At(all, |a| + |b|, c) && At(all, |a| + |b| + |c|, d)
  {
    hide At;
    var tail := b + (c + d);
    TwoParts(c, d);
    TwoParts(b, c + d);
    TwoParts(a, tail);
    AtLater(b, c + d, 0, c);
    AtLater(b, c + d, |c|, d);
    AtLater(a, tail, 0, b);
    AtLater(a, tail, |b|, c);
    AtLater(a, tail, |b| + |c|, d);
  }

  lemma TwoParts(a: seq<Byte>, b: seq<Byte>)
    ensures At(a + b, 0, a) && At(a + b, |a|, b)
  {}

  lemma AtLater(front: seq<Byte>, data: seq<Byte>, pos: nat, bs: seq<Byte>)
    requires At(data, pos, bs)
    ensures At(front + data, |front| + pos, bs)
  {
    assert (front + data)[|front| + pos..|front| + pos + |bs|] == data[pos..pos + |bs|];
  }

  lemma SampleWritten()
    ensures Written(SampleBytes(), Sample())
  {
    hide At, WordBytes, HeaderWords, IndexWords, RegularHeader, PairWords;
    var t, bytes := Sample(), SampleBytes();
    FourParts(WordBytes(HeaderWords(t.header, 0, 0)), WordBytes(IndexWords(t.indexes, 0)), RegularHeader(8, 1),
              WordBytes(PairWords(t.pages[0].functions)));
    SampleSizes();
    EmptyAt(bytes);
    assert PageWritten(bytes, t.header, t.common, t.indexes[0], t.pages[0]);
    assert PageWritten(bytes, t.header, t.common, t.indexes[1], t.pages[1]);
  }

  lemma SampleSizes()
    ensures var t := Sample();
            && |WordBytes(HeaderWords(t.header, 0, 0))| == 28 && |WordBytes(IndexWords(t.indexes, 0))| == 36
            && |RegularHeader(8, 1)| == 8
  {}

  lemma EmptyAt(bytes: seq<Byte>)
    ensures At(bytes, 0, WordBytes([]))
  {}
}
