/** The line-table iterator as the source runs it, and the address lookup built on it. */
module LineTables {
  import opened Results
  import opened Bits
  import opened Search
  import opened Leb128
  import opened Cursors
  import opened LineProgram

  /** Decoded instruction `d` takes registers `r0` to `r1` and the current row from `c0` to `c1`;
      an error leaves both alone. */
  ghost predicate Executed(h: Header, d: Result<(Instr, nat)>, r0: Row, c0: Row, out: Result<bool>, r1: Row, c1: Row)
    requires h.Valid()
    requires d.Ok? && d.value.0.Special? ==> h.opcodeBase <= d.value.0.opcode
  {
    match d
    case Err(e) => out == Err(e) && r1 == r0 && c1 == c0
    case Ok((i, next)) =>
      && out == Ok(Emits(i))
      && if Emits(i) then c1 == Moved(h, i, r0) && r1 == AfterRow(h, c1)
         else c1 == c0 && r1 == Silent(h, i, r0)
  }

  class LineIterator {
    const h: Header
    const data: seq<Byte>
    var pos: nat
    var registers: Row
    var current: Row
    var done: bool  // the null position that compares equal to end()

    ghost predicate Valid()
      reads this
    {
      h.Valid() && pos <= |data| && !registers.endSequence
    }

    constructor (h: Header, data: seq<Byte>)
      requires h.Valid()
      ensures Valid() && this.h == h && this.data == data && pos == 0 && registers == Initial(h) && !done
    {
      this.h, this.data, pos, done := h, data, 0, false;
      registers, current := Initial(h), Initial(h);
    }

    /** The row is out: clear the per-row flags. */
    method ClearRowFlags()
      modifies this`registers
      ensures !old(registers.endSequence) ==> registers == AfterRow(h, old(registers))
    {
      registers := registers.(basicBlock := false, prologueEnd := false, epilogueBegin := false, discriminator := 0);
    }

    method ExecuteStandard(cur: Cursor, opcode: Byte) returns (r: Result<bool>)
      requires Valid() && cur.Valid() && cur.data == data && 0 < opcode < h.opcodeBase
      modifies this`registers, this`current, cur`pos
      ensures cur.Valid()
      ensures var d := DecodeStandard(data, opcode, old(cur.pos));
              && Executed(h, d, old(registers), old(current), r, registers, current)
              && (d.Ok? ==> cur.pos == d.value.1)
    {
      hide Uleb, Sleb, Fixed, Wrap64, Pow2;
      match opcode {
        case 1 =>
          current := registers;
          ClearRowFlags();
          return Ok(true);
        case 2 =>
          var n := cur.Uleb128();
          if n.Err? { return Err(n.error); }
          registers := registers.(address := Wrap64(registers.address + n.value));
        case 3 =>
          var d := cur.Sleb128();
          if d.Err? { return Err(d.error); }
          registers := registers.(line := Wrap64(registers.line + d.value));
        case 4 =>
          var f := cur.Uleb128();
          if f.Err? { return Err(f.error); }
          registers := registers.(file := f.value);
        case 5 =>
          var c := cur.Uleb128();
          if c.Err? { return Err(c.error); }
          registers := registers.(column := c.value);
        case 6 => registers := registers.(isStmt := !registers.isStmt);
        case 7 => registers := registers.(basicBlock := true);
        case 8 => registers := registers.(address := Wrap64(registers.address + (255 - h.opcodeBase) / h.lineRange));
        case 9 =>
          var n := cur.FixedInt(2);
          if n.Err? { return Err(n.error); }
          registers := registers.(address := Wrap64(registers.address + n.value));
        case 10 => registers := registers.(prologueEnd := true);
        case 11 => registers := registers.(epilogueBegin := true);
        case 12 =>
        case _ => return Err(UnexpectedOpcode);
      }
      r := Ok(false);
    }

    method ExecuteExtended(cur: Cursor, opcode: Byte) returns (r: Result<bool>)
      requires Valid() && cur.Valid() && cur.data == data
      modifies this`registers, this`current, cur`pos
      ensures cur.Valid()
      ensures var d := DecodeExtended(data, opcode, old(cur.pos));
              && Executed(h, d, old(registers), old(current), r, registers, current)
              && (d.Ok? ==> cur.pos == d.value.1)
    {
      hide Uleb, Fixed, StringEnd;
      match opcode {
        case 1 =>
          registers := registers.(endSequence := true);
          current := registers;
          registers := Initial(h);
          return Ok(true);
        case 2 =>
          var a := cur.FixedInt(8);
          if a.Err? { return Err(a.error); }
          assert Pow2(8 * 8) == TWO64 by { Pow2Large(); }
          registers := registers.(address := a.value);
        case 3 =>
          var skipped := SkipFileEntry(cur);
          if skipped.Err? { return Err(skipped.error); }
        case 4 =>
          var d := cur.Uleb128();
          if d.Err? { return Err(d.error); }
          registers := registers.(discriminator := d.value);
        case _ => return Err(UnexpectedOpcode);
      }
      r := Ok(false);
    }

    /** Name, directory index, time and length of a file entry. */
    static method SkipFileEntry(cur: Cursor) returns (r: Result<nat>)
      requires cur.Valid()
      modifies cur`pos
      ensures cur.Valid()
      ensures var d := DecodeExtended(cur.data, 3, old(cur.pos));
              if d.Ok? then r == Ok(cur.pos) && cur.pos == d.value.1 else r == Err(d.error)
    {
      hide Uleb;
      var name := StringEnd(cur.data, cur.pos);
      if name.Err? { return Err(name.error); }
      r := cur.Advance(name.value + 1 - cur.pos);
      var dir := cur.Uleb128();
      if dir.Err? { return Err(dir.error); }
      var time := cur.Uleb128();
      if time.Err? { return Err(time.error); }
      var size := cur.Uleb128();
      if size.Err? { return Err(size.error); }
      r := Ok(cur.pos);
    }

    method ExecuteSpecial(opcode: Byte)
      requires Valid() && h.opcodeBase <= opcode
      modifies this`registers, this`current
      ensures current == Moved(h, Special(opcode), old(registers)) && registers == AfterRow(h, current)
    {
      var adjusted := opcode - h.opcodeBase;
      registers := registers.(address := Wrap64(registers.address + adjusted / h.lineRange),
                              line := Wrap64(registers.line + (h.lineBase + adjusted % h.lineRange)));
      current := registers;
      ClearRowFlags();
    }

    method ExecuteInstruction() returns (r: Result<bool>)
      requires Valid()
      modifies this`pos, this`registers, this`current
      ensures Valid()
      ensures var d := Decode(h, data, old(pos));
              && Executed(h, d, old(registers), old(current), r, registers, current)
              && pos == if d.Ok? then d.value.1 else old(pos)
    {
      hide Uleb, Fixed, DecodeStandard, DecodeExtended, Moved, Silent, AfterRow;
      var cur := new Cursor(data, pos);
      SingleByte(data, pos);
      var op := cur.FixedInt(1);
      if op.Err? { return Err(op.error); }
      var opcode := op.value;
      if opcode > 0 && opcode < h.opcodeBase {
        r := ExecuteStandard(cur, opcode);
        if r.Err? { return; }
      } else if opcode == 0 {
        var length := cur.Uleb128();
        if length.Err? { return Err(length.error); }
        SingleByte(data, cur.pos);
        var ext := cur.FixedInt(1);
        if ext.Err? { return Err(ext.error); }
        r := ExecuteExtended(cur, ext.value);
        if r.Err? { return; }
      } else {
        ExecuteSpecial(opcode);
        r := Ok(true);
      }
      pos := cur.pos;
      EndCleared(h, Decode(h, data, old(pos)).value.0, old(registers), current);
    }

    /** operator++: to the next emitted row, or to the end. */
    method Increment() returns (r: Result<()>)
      requires Valid() && !done
      modifies this
      ensures Valid()
      ensures old(pos) == |data| ==> r == Ok(()) && done && pos == old(pos)
      ensures old(pos) < |data| ==>
                var n := NextRow(h, data, old(pos), old(registers));
                if n.Ok? then r == Ok(()) && !done && current == n.value.0 && registers == n.value.1 && pos == n.value.2
                else r == Err(n.error)
    {
      hide Decode, Moved, Silent, AfterRow;
      if pos == |data| {
        done := true;
        return Ok(());
      }
      var emitted := false;
      while !emitted
        invariant Valid() && !done
        invariant var n := NextRow(h, data, old(pos), old(registers));
                  if emitted then n == Ok((current, registers, pos))
                  else n == NextRow(h, data, pos, registers)
        decreases !emitted, |data| - pos
      {
        var step := ExecuteInstruction();
        if step.Err? { return Err(step.error); }
        emitted := step.value;
      }
      r := Ok(());
    }
  }

  /** Between instructions the end-of-sequence flag is off. */
  lemma EndCleared(h: Header, i: Instr, before: Row, row: Row)
    requires h.Valid() && !before.endSequence
    ensures !AfterRow(h, row).endSequence && (!Emits(i) ==> !Silent(h, i, before).endSequence)
  {}

  lemma SingleByte(data: seq<Byte>, pos: nat)
    ensures Fixed(data, pos, 1) == if pos < |data| then Ok((data[pos], pos + 1)) else Err(Truncated)
  {
    if pos < |data| {
      assert data[pos..pos + 1] == [data[pos]] && Le([data[pos]]) == data[pos] + 256 * Le([data[pos]][1..]);
    }
  }

  // ---------- whole-table iteration ----------

  function PrependRows(front: seq<Row>, r: Result<seq<Row>>): Result<seq<Row>>
  {
    match r
    case Ok(rest) => Ok(front + rest)
    case Err(e) => Err(e)
  }

  lemma PrependStep(front: seq<Row>, row: Row, r: Result<seq<Row>>)
    ensures PrependRows(front, PrependRows([row], r)) == PrependRows(front + [row], r)
  {
    if r.Ok? { assert front + ([row] + r.value) == (front + [row]) + r.value; }
  }

  /** for (auto it = begin(); it != end(); ++it): the rows seen. */
  method IterateRows(h: Header, data: seq<Byte>) returns (r: Result<seq<Row>>)
    requires h.Valid()
    ensures r == AllRows(h, data, 0, Initial(h))
  {
    hide NextRow;
    var it := new LineIterator(h, data);
    var step := it.Increment();
    if step.Err? { return Err(step.error); }
    var rows: seq<Row> := [];
    assert rows + [it.current] == [it.current];
    ghost var all := AllRows(h, data, 0, Initial(h));
    while !it.done
      invariant fresh(it) && it.Valid() && it.h == h && it.data == data
      invariant it.done ==> all == Ok(rows)
      invariant !it.done ==> all == PrependRows(rows + [it.current], AllRows(h, data, it.pos, it.registers))
      decreases !it.done, |data| - it.pos
    {
      rows := rows + [it.current];
      step := it.Increment();
      if step.Err? { return Err(step.error); }
      if !it.done { PrependStep(rows, it.current, AllRows(h, data, it.pos, it.registers)); }
      assert rows + [] == rows;
    }
    r := Ok(rows);
  }

  // ---------- lookup by address ----------

  /** The first row that covers the address up to its successor, unless it ends a sequence. */
  function FindRow(rows: seq<Row>, address: U64): (r: Option<Row>)
    decreases |rows|
  {
    if |rows| < 2 then None
    else if rows[0].address <= address < rows[1].address && !rows[0].endSequence then Some(rows[0])
    else FindRow(rows[1..], address)
  }

  /** The rows in front of the first fault in the program, and that fault. */
  function RowsToFault(h: Header, data: seq<Byte>, pos: nat, r: Row): (seq<Row>, Option<Error>)
    requires h.Valid()
    decreases |data| - pos
  {
    if pos >= |data| then ([], None)
    else match NextRow(h, data, pos, r)
      case Err(e) => ([], Some(e))
      case Ok(step) =>
        var rest := RowsToFault(h, data, step.2, step.1);
        ([step.0] + rest.0, rest.1)
  }

  lemma {:induction false} RowsWithoutFault(h: Header, data: seq<Byte>, pos: nat, r: Row)
    requires h.Valid()
    ensures var rows := AllRows(h, data, pos, r);
            if rows.Ok? then RowsToFault(h, data, pos, r) == (rows.value, None)
            else RowsToFault(h, data, pos, r).1 == Some(rows.error)
    decreases |data| - pos
  {
    hide NextRow;
    if pos < |data| && NextRow(h, data, pos, r).Ok? {
      var step := NextRow(h, data, pos, r).value;
      RowsWithoutFault(h, data, step.2, step.1);
    }
  }

  /** What a search over rows in front of a fault answers: a row found, else the fault. */
  function Answer(found: Option<Row>, fault: Option<Error>): Result<Option<Row>>
  {
    if found.None? && fault.Some? then Err(fault.value) else Ok(found)
  }

  /** get_entry_by_address finds what the search over all rows finds, and on a faulty program what the search over the
      rows in front of the fault finds, else it reports the fault. */
  method GetEntryByAddress(h: Header, data: seq<Byte>, address: U64) returns (r: Result<Option<Row>>)
    requires h.Valid()
    ensures var (rows, fault) := RowsToFault(h, data, 0, Initial(h)); r == Answer(FindRow(rows, address), fault)
    ensures AllRows(h, data, 0, Initial(h)).Ok? ==> r == Ok(FindRow(AllRows(h, data, 0, Initial(h)).value, address))
  {
    hide NextRow;
    RowsWithoutFault(h, data, 0, Initial(h));
    var it := new LineIterator(h, data);
    ghost var (rows, fault) := RowsToFault(h, data, 0, Initial(h));
    var step := it.Increment();
    if step.Err? { return Err(step.error); }
    if it.done { return Ok(None); }
    var prev := it.current;
    ghost var ahead := RowsToFault(h, data, it.pos, it.registers);
    step := it.Increment();
    if step.Err? { return Err(step.error); }
    while !it.done
      invariant fresh(it) && it.Valid() && it.h == h && it.data == data
      invariant it.done ==> fault.None? && FindRow(rows, address) == None
      invariant !it.done ==>
                  var ahead := RowsToFault(h, data, it.pos, it.registers);
                  fault == ahead.1 && FindRow(rows, address) == FindRow([prev, it.current] + ahead.0, address)
      decreases !it.done, |data| - it.pos
    {
      if prev.address <= address && it.current.address > address && !prev.endSequence { return Ok(Some(prev)); }
      ahead := RowsToFault(h, data, it.pos, it.registers);
      ghost var older, newer := prev, it.current;
      prev := it.current;
      step := it.Increment();
      assert ([older, newer] + ahead.0)[1..] == [newer] + ahead.0;
      if step.Err? { return Err(step.error); }
      if !it.done { assert [newer] + ahead.0 == [prev, it.current] + RowsToFault(h, data, it.pos, it.registers).0; }
    }
    r := Ok(None);
  }

  // ---------- what the lookup finds ----------

  /** A sequence of the table: rows in address order, exactly the last one marked as the end. */
  ghost predicate IsSequence(s: seq<Row>)
  {
    && s != [] && s[|s| - 1].endSequence
    && (forall i :: 0 <= i < |s| - 1 ==> !s[i].endSequence)
    && (forall i, j :: 0 <= i <= j < |s| ==> s[i].address <= s[j].address)
  }

  /** The sequence holds code at the address: its end row is the first address past it. */
  predicate Covers(s: seq<Row>, address: U64)
    requires s != []
  {
    s[0].address <= address < s[|s| - 1].address
  }

  function AddressOf(row: Row): int { row.address }

  /** The last row at or below the address. */
  function RowAt(s: seq<Row>, address: U64): (r: Row)
    requires s != [] && s[0].address <= address
  {
    assert AddressOf(s[0]) <= address;
    s[LastAtOrBelow(s, AddressOf, address).value]
  }

  function Flatten(ss: seq<seq<Row>>): (rows: seq<Row>)
  {
    if ss == [] then [] else ss[0] + Flatten(ss[1..])
  }

  ghost predicate AllSequences(ss: seq<seq<Row>>)
  {
    forall i :: 0 <= i < |ss| ==> IsSequence(ss[i])
  }

  /** Scanning a sequence that does not cover the address passes on to what follows it. */
  lemma {:induction false} FindPastSequence(s: seq<Row>, rest: seq<Row>, address: U64)
    requires IsSequence(s) && !Covers(s, address)
    ensures FindRow(s + rest, address) == FindRow(rest, address)
    decreases |s|
  {
    var all := s + rest;
    if |s| == 1 {
      if |all| >= 2 {
        assert all[0].endSequence && all[1..] == rest;
      } else {
        assert |rest| == 0;
      }
    } else {
      assert all[0] == s[0] && all[1] == s[1] && all[1..] == s[1..] + rest;
      var t := s[1..];
      assert IsSequence(t) by {
        assert t[|t| - 1] == s[|s| - 1];
        assert forall i :: 0 <= i < |t| ==> t[i] == s[i + 1];
      }
      assert !(s[0].address <= address < s[1].address) by {
        assert s[1].address <= s[|s| - 1].address;
      }
      FindPastSequence(t, rest, address);
    }
  }

  /** Scanning a sequence that covers the address stops at its last row at or below the address. */
  lemma {:induction false} FindInSequence(s: seq<Row>, rest: seq<Row>, address: U64)
    requires IsSequence(s) && Covers(s, address)
    ensures FindRow(s + rest, address) == Some(RowAt(s, address))
    decreases |s|
  {
    var all := s + rest;
    assert |s| >= 2;
    assert all[0] == s[0] && all[1] == s[1] && all[1..] == s[1..] + rest;
    if address < s[1].address {
      LastUnique(s, AddressOf, address, 0);
    } else {
      var t := s[1..];
      assert IsSequence(t) by {
        assert t[|t| - 1] == s[|s| - 1];
        assert forall i :: 0 <= i < |t| ==> t[i] == s[i + 1];
      }
      FindInSequence(t, rest, address);
      assert AddressOf(t[0]) <= address && s == [s[0]] + t;
      LastInTail([s[0]], t, AddressOf, address);
    }
  }

  /** The lookup by sequences. */
  function Lookup(ss: seq<seq<Row>>, address: U64): (r: Option<Row>)
    requires forall i :: 0 <= i < |ss| ==> ss[i] != []
    decreases |ss|
  {
    if ss == [] then None
    else if Covers(ss[0], address) then Some(RowAt(ss[0], address))
    else Lookup(ss[1..], address)
  }

  /** The pairwise scan over the whole table finds the covering sequence's last row at or below. */
  lemma {:induction false} FindRowIsLookup(ss: seq<seq<Row>>, address: U64)
    requires AllSequences(ss)
    ensures FindRow(Flatten(ss), address) == Lookup(ss, address)
    decreases |ss|
  {
    if ss != [] {
      if Covers(ss[0], address) {
        FindInSequence(ss[0], Flatten(ss[1..]), address);
      } else {
        FindPastSequence(ss[0], Flatten(ss[1..]), address);
        FindRowIsLookup(ss[1..], address);
      }
    }
  }

  ghost predicate Disjoint(ss: seq<seq<Row>>)
    requires AllSequences(ss)
  {
    forall i, j, a: U64 :: 0 <= i < j < |ss| && Covers(ss[i], a) ==> !Covers(ss[j], a)
  }

  /** Line lookup is exact: for every covering sequence the answer is its last row at or below the
      address, and there is no answer exactly when no sequence covers the address. */
  lemma LookupExact(ss: seq<seq<Row>>, address: U64)
    requires AllSequences(ss) && Disjoint(ss)
    ensures forall k :: 0 <= k < |ss| && Covers(ss[k], address) ==>
              FindRow(Flatten(ss), address) == Some(RowAt(ss[k], address))
    ensures FindRow(Flatten(ss), address) == None <==> forall k :: 0 <= k < |ss| ==> !Covers(ss[k], address)
  {
    FindRowIsLookup(ss, address);
    LookupCovering(ss, address);
  }

  lemma {:induction false} LookupCovering(ss: seq<seq<Row>>, address: U64)
    requires AllSequences(ss) && Disjoint(ss)
    ensures forall k :: 0 <= k < |ss| && Covers(ss[k], address) ==> Lookup(ss, address) == Some(RowAt(ss[k], address))
    ensures Lookup(ss, address) == None <==> forall k :: 0 <= k < |ss| ==> !Covers(ss[k], address)
    decreases |ss|
  {
    if ss != [] && !Covers(ss[0], address) {
      var t := ss[1..];
      assert forall i :: 0 <= i < |t| ==> t[i] == ss[i + 1];
      assert Disjoint(t);
      LookupCovering(t, address);
      forall k | 0 <= k < |ss| && Covers(ss[k], address)
        ensures Lookup(ss, address) == Some(RowAt(ss[k], address))
      {
        assert ss[k] == t[k - 1];
      }
      assert forall k :: 0 <= k < |t| ==> t[k] == ss[k + 1];
    }
  }
}
