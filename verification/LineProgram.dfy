/** The line-number program: instructions, their meaning, their bytes, and the iterator that runs them. */
module LineProgram {
  import opened Results
  import opened Bits
  import opened Leb128
  import opened Cursors

  datatype Header = Header(defaultIsStmt: bool, lineBase: int, lineRange: int, opcodeBase: int) {
    predicate Valid() { -128 <= lineBase < 128 && 0 < lineRange < 256 && 0 < opcodeBase < 256 }
  }

  /** The registers of the state machine; an emitted row is a copy of them. */
  datatype Row = Row(
    address: U64, file: U64, line: U64, column: U64, isStmt: bool, basicBlock: bool, endSequence: bool,
    prologueEnd: bool, epilogueBegin: bool, discriminator: U64)

  function Initial(h: Header): (r: Row)
  {
    Row(0, 1, 1, 0, h.defaultIsStmt, false, false, false, false, 0)
  }

  // ---------- instructions and their meaning ----------

  datatype Instr =
    | Copy | AdvancePc(amount: U64) | AdvanceLine(delta: I64) | SetFile(file: U64) | SetColumn(column: U64)
    | NegateStmt | SetBasicBlock | ConstAddPc | FixedAdvancePc(u16: U16) | SetPrologueEnd | SetEpilogueBegin
    | SetIsa | EndSequence | SetAddress(target: U64) | DefineFile | SetDiscriminator(value: U64)
    | Special(opcode: Byte)

  predicate Emits(i: Instr) { i.Copy? || i.EndSequence? || i.Special? }

  /** How far opcode `op` moves the address, and the line. */
  function AddressAdvance(h: Header, op: int): (r: nat)
    requires h.Valid() && h.opcodeBase <= op
  {
    (op - h.opcodeBase) / h.lineRange
  }

  function LineAdvance(h: Header, op: int): (r: int)
    requires h.Valid() && h.opcodeBase <= op
  {
    h.lineBase + (op - h.opcodeBase) % h.lineRange
  }

  /** The registers as a row-emitting instruction leaves them on emission. */
  function Moved(h: Header, i: Instr, r: Row): (row: Row)
    requires h.Valid() && Emits(i) && (i.Special? ==> h.opcodeBase <= i.opcode)
  {
    match i
    case Copy => r
    case EndSequence => r.(endSequence := true)
    case Special(op) =>
      r.(address := Wrap64(r.address + AddressAdvance(h, op)), line := Wrap64(r.line + LineAdvance(h, op)))
  }

  /** The registers once the row is out: everything after an end of sequence, else the per-row flags. */
  function AfterRow(h: Header, row: Row): (r: Row)
  {
    if row.endSequence then Initial(h)
    else row.(basicBlock := false, prologueEnd := false, epilogueBegin := false, discriminator := 0)
  }

  /** The registers after an instruction that emits nothing. */
  function Silent(h: Header, i: Instr, r: Row): (r': Row)
    requires h.Valid() && !Emits(i)
  {
    match i
    case AdvancePc(n) => r.(address := Wrap64(r.address + n))
    case AdvanceLine(d) => r.(line := Wrap64(r.line + d))
    case SetFile(f) => r.(file := f)
    case SetColumn(c) => r.(column := c)
    case NegateStmt => r.(isStmt := !r.isStmt)
    case SetBasicBlock => r.(basicBlock := true)
    case ConstAddPc =>
      r.(address := Wrap64(r.address + (255 - h.opcodeBase) / h.lineRange))
    case FixedAdvancePc(n) => r.(address := Wrap64(r.address + n))
    case SetPrologueEnd => r.(prologueEnd := true)
    case SetEpilogueBegin => r.(epilogueBegin := true)
    case SetAddress(a) => r.(address := a)
    case SetDiscriminator(d) => r.(discriminator := d)
    case _ => r
  }

  /** An instruction the header gives an opcode to. */
  predicate Available(h: Header, i: Instr)
  {
    match i
    case Special(op) => h.opcodeBase <= op
    case SetPrologueEnd => 10 < h.opcodeBase
    case SetEpilogueBegin => 11 < h.opcodeBase
    case SetIsa => false
    case DefineFile => false
    case EndSequence => true
    case SetAddress(_) => true
    case SetDiscriminator(_) => true
    case _ => 9 < h.opcodeBase
  }

  /** The rows a program emits from registers `r`. */
  ghost function Rows(h: Header, prog: seq<Instr>, r: Row): (rows: seq<Row>)
    requires h.Valid() && AllAvailable(h, prog)
    decreases |prog|
  {
    if prog == [] then []
    else if Emits(prog[0]) then
      assert Available(h, prog[0]);
      var row := Moved(h, prog[0], r);
      [row] + Rows(h, prog[1..], AfterRow(h, row))
    else Rows(h, prog[1..], Silent(h, prog[0], r))
  }

  // ---------- bytes ----------

  /** Reading the instruction at `pos`, operand by operand as the source does. */
  function Decode(h: Header, data: seq<Byte>, pos: nat): (r: Result<(Instr, nat)>)
    ensures r.Ok? ==> pos < r.value.1 <= |data|
    ensures r.Ok? && r.value.0.Special? ==> h.opcodeBase <= r.value.0.opcode
  {
    if pos >= |data| then Err(Truncated)
    else if 0 < data[pos] < h.opcodeBase then DecodeStandard(data, data[pos], pos + 1)
    else if data[pos] == 0 then
      var length :- Uleb(data, pos + 1);
      if length.1 >= |data| then Err(Truncated)
      else DecodeExtended(data, data[length.1], length.1 + 1)
    else Ok((Special(data[pos]), pos + 1))
  }

  function DecodeStandard(data: seq<Byte>, op: Byte, pos: nat): (r: Result<(Instr, nat)>)
    requires pos <= |data|
    ensures r.Ok? ==> pos <= r.value.1 <= |data| && !r.value.0.Special?
  {
    match op
    case 1 => Ok((Copy, pos))
    case 2 => var n :- Uleb(data, pos); Ok((AdvancePc(n.0), n.1))
    case 3 => var d :- Sleb(data, pos); Ok((AdvanceLine(d.0), d.1))
    case 4 => var f :- Uleb(data, pos); Ok((SetFile(f.0), f.1))
    case 5 => var c :- Uleb(data, pos); Ok((SetColumn(c.0), c.1))
    case 6 => Ok((NegateStmt, pos))
    case 7 => Ok((SetBasicBlock, pos))
    case 8 => Ok((ConstAddPc, pos))
    case 9 =>
      var n :- Fixed(data, pos, 2);
      assert Pow2(8 * 2) == TWO16 by { Pow2Large(); }
      Ok((FixedAdvancePc(n.0), n.1))
    case 10 => Ok((SetPrologueEnd, pos))
    case 11 => Ok((SetEpilogueBegin, pos))
    case 12 => Ok((SetIsa, pos))
    case _ => Err(UnexpectedOpcode)
  }

  function DecodeExtended(data: seq<Byte>, op: Byte, pos: nat): (r: Result<(Instr, nat)>)
    requires pos <= |data|
    ensures r.Ok? ==> pos <= r.value.1 <= |data| && !r.value.0.Special?
  {
    match op
    case 1 => Ok((EndSequence, pos))
    case 2 =>
      var a :- Fixed(data, pos, 8);
      assert Pow2(8 * 8) == TWO64 by { Pow2Large(); }
      Ok((SetAddress(a.0), a.1))
    case 3 =>
      var name :- StringEnd(data, pos);
      var dir :- Uleb(data, name + 1);
      var time :- Uleb(data, dir.1);
      var size :- Uleb(data, time.1);
      Ok((DefineFile, size.1))
    case 4 => var d :- Uleb(data, pos); Ok((SetDiscriminator(d.0), d.1))
    case _ => Err(UnexpectedOpcode)
  }

  /** The bytes of an instruction (sections 6.2.5.2 and 6.2.5.3 of DWARF 4). */
  function Assemble(i: Instr): (bs: seq<Byte>)
    ensures |bs| > 0
  {
    match i
    case Copy => [1]
    case AdvancePc(n) => [2] + EncodeUleb(n)
    case AdvanceLine(d) => [3] + EncodeSleb(d)
    case SetFile(f) => [4] + EncodeUleb(f)
    case SetColumn(c) => [5] + EncodeUleb(c)
    case NegateStmt => [6]
    case SetBasicBlock => [7]
    case ConstAddPc => [8]
    case FixedAdvancePc(n) => [9] + EncodeLe(n, 2)
    case SetPrologueEnd => [10]
    case SetEpilogueBegin => [11]
    case SetIsa => [12]
    case EndSequence => Extended([1])
    case SetAddress(a) => Extended([2] + EncodeLe(a, 8))
    case DefineFile => Extended([3])
    case SetDiscriminator(d) => Extended([4] + EncodeUleb(d))
    case Special(op) => [op]
  }

  function Extended(body: seq<Byte>): (bs: seq<Byte>)
  {
    [0] + EncodeUleb(|body|) + body
  }

  function AssembleAll(prog: seq<Instr>): (bs: seq<Byte>)
  {
    if prog == [] then [] else Assemble(prog[0]) + AssembleAll(prog[1..])
  }

  lemma DecodeExtendedAt(h: Header, data: seq<Byte>, pos: nat, op: Byte, operand: seq<Byte>)
    requires h.Valid() && |operand| <= 10
    requires At(data, pos, Extended([op] + operand))
    ensures var start := pos + |Extended([op] + operand)| - |operand|;
            At(data, start, operand) && Decode(h, data, pos) == DecodeExtended(data, op, start)
  {
    hide At, Uleb, EncodeUleb, DecodeExtended;
    var body := [op] + operand;
    assert Extended(body) == [0] + (EncodeUleb(|body|) + body);
    ByteAt(data, pos, 0, EncodeUleb(|body|) + body);
    AtSplit(data, pos + 1, EncodeUleb(|body|), body);
    UlebAt(data, pos + 1, |body|);
    ByteAt(data, pos + 1 + |EncodeUleb(|body|)|, op, operand);
  }

  lemma DecodeStandardAt(h: Header, data: seq<Byte>, pos: nat, op: Byte, operand: seq<Byte>)
    requires h.Valid() && 0 < op < h.opcodeBase && At(data, pos, [op] + operand)
    ensures At(data, pos + 1, operand) && pos < |data| && Decode(h, data, pos) == DecodeStandard(data, op, pos + 1)
  {
    hide DecodeStandard;
    ByteAt(data, pos, op, operand);
  }

  /** Decoding undoes assembling, for every instruction the header provides. */
  lemma DecodeAssembled(h: Header, data: seq<Byte>, pos: nat, i: Instr)
    requires h.Valid() && Available(h, i) && At(data, pos, Assemble(i))
    ensures Decode(h, data, pos) == Ok((i, pos + |Assemble(i)|))
  {
    hide At, Uleb, Sleb, Fixed, EncodeUleb, EncodeSleb, EncodeLe, Pow2, Decode;
    if i.AdvanceLine? {
      DecodeStandardAt(h, data, pos, 3, EncodeSleb(i.delta));
      SlebAt(data, pos + 1, i.delta);
    } else if i.AdvancePc? || i.SetFile? || i.SetColumn? {
      var op, v := if i.AdvancePc? then 2 else if i.SetFile? then 4 else 5,
                   if i.AdvancePc? then i.amount else if i.SetFile? then i.file else i.column;
      DecodeStandardAt(h, data, pos, op, EncodeUleb(v));
      UlebAt(data, pos + 1, v);
    } else if i.FixedAdvancePc? {
      DecodeStandardAt(h, data, pos, 9, EncodeLe(i.u16, 2));
      assert Pow2(8 * 2) == TWO16 by { Pow2Large(); }
      FixedAt(data, pos + 1, i.u16, 2);
    } else if i.EndSequence? {
      assert [1] + [] == [1];
      DecodeExtendedAt(h, data, pos, 1, []);
    } else if i.SetAddress? {
      DecodeExtendedAt(h, data, pos, 2, EncodeLe(i.target, 8));
      assert Pow2(8 * 8) == TWO64 by { Pow2Large(); }
      FixedAt(data, pos + |Assemble(i)| - 8, i.target, 8);
    } else if i.SetDiscriminator? {
      EncodeUlebClosed(i.value);
      DecodeExtendedAt(h, data, pos, 4, EncodeUleb(i.value));
      UlebAt(data, pos + |Assemble(i)| - |EncodeUleb(i.value)|, i.value);
    } else {
      DecodeOneByte(h, data, pos, i);
    }
  }

  /** DW_LNS_set_isa by section 6.2.5.2: it has one operand. */
  function StandardIsa(data: seq<Byte>, pos: nat): Result<(Instr, nat)>
  {
    var isa :- Uleb(data, pos);
    Ok((SetIsa, isa.1))
  }

  /** It is never read as the standard asks: the program goes on inside the operand. */
  lemma IsaOperandStays(data: seq<Byte>, pos: nat)
    requires pos <= |data|
    ensures DecodeStandard(data, 12, pos) == Ok((SetIsa, pos)) != StandardIsa(data, pos)
  {
    hide Size;
  }

  /** DW_LNE_define_file is read past its four operands. */
  lemma FileEntryRead(data: seq<Byte>, pos: nat, name: seq<Byte>, dir: U64, time: U64, size: U64)
    requires forall i :: 0 <= i < |name| ==> name[i] != 0
    requires At(data, pos, (name + [0]) + (EncodeUleb(dir) + (EncodeUleb(time) + EncodeUleb(size))))
    ensures pos <= |data|
    ensures DecodeExtended(data, 3, pos)
         == Ok((DefineFile, pos + |name| + 1 + |EncodeUleb(dir)| + |EncodeUleb(time)| + |EncodeUleb(size)|))
  {
    hide Uleb, EncodeUleb, At;
    var at, b, c, d := pos + |name| + 1, EncodeUleb(dir), EncodeUleb(time), EncodeUleb(size);
    AtSplit(data, pos, name + [0], b + (c + d));
    AtSplit(data, at, b, c + d);
    AtSplit(data, at + |b|, c, d);
    UlebAt(data, at, dir);
    UlebAt(data, at + |b|, time);
    UlebAt(data, at + |b| + |c|, size);
    NameEnds(data, pos, name);
  }

  lemma NameEnds(data: seq<Byte>, pos: nat, name: seq<Byte>)
    requires At(data, pos, name + [0]) && forall i :: 0 <= i < |name| ==> name[i] != 0
    ensures pos <= |data| && StringEnd(data, pos) == Ok(pos + |name|)
  {
    StringAt(data, pos, name + [0]);
  }

  lemma DecodeOneByte(h: Header, data: seq<Byte>, pos: nat, i: Instr)
    requires h.Valid() && Available(h, i) && |Assemble(i)| == 1 && At(data, pos, Assemble(i))
    requires !i.EndSequence? && !i.SetAddress? && !i.SetDiscriminator?
    requires !i.AdvanceLine? && !i.AdvancePc? && !i.SetFile? && !i.SetColumn? && !i.FixedAdvancePc?
    ensures Decode(h, data, pos) == Ok((i, pos + 1))
  {
    var b := Assemble(i)[0];
    assert Assemble(i) == [b] + [];
    ByteAt(data, pos, b, []);
  }

  // ---------- running a program from its bytes ----------

  /** operator++ away from the end: instructions up to and including the next one that emits. */
  function NextRow(h: Header, data: seq<Byte>, pos: nat, r: Row): (res: Result<(Row, Row, nat)>)
    requires h.Valid()
    ensures res.Ok? ==> pos < res.value.2 <= |data|
    decreases |data| - pos
  {
    var d :- Decode(h, data, pos);
    if Emits(d.0) then
      var row := Moved(h, d.0, r);
      Ok((row, AfterRow(h, row), d.1))
    else NextRow(h, data, d.1, Silent(h, d.0, r))
  }

  /** What repeated operator++ yields until the end of the data. */
  function AllRows(h: Header, data: seq<Byte>, pos: nat, r: Row): (res: Result<seq<Row>>)
    requires h.Valid()
    decreases |data| - pos
  {
    if pos >= |data| then Ok([])
    else
      var step :- NextRow(h, data, pos, r);
      var rest :- AllRows(h, data, step.2, step.1);
      Ok([step.0] + rest)
  }

  /** The iterator over assembled bytes yields exactly the rows the program means. */
  lemma {:induction false} AssembledRows(h: Header, data: seq<Byte>, pos: nat, prog: seq<Instr>, r: Row)
    requires h.Valid() && AllAvailable(h, prog)
    requires prog != [] ==> Emits(prog[|prog| - 1])
    requires At(data, pos, AssembleAll(prog)) && pos + |AssembleAll(prog)| == |data|
    ensures AllRows(h, data, pos, r) == Ok(Rows(h, prog, r))
    decreases |prog|
  {
    hide At, Decode, Assemble, Moved, Silent, AfterRow;
    if prog != [] {
      var i, tail := prog[0], prog[1..];
      AtSplit(data, pos, Assemble(i), AssembleAll(tail));
      DecodeAssembled(h, data, pos, i);
      var next := pos + |Assemble(i)|;
      if Emits(i) {
        AssembledRows(h, data, next, tail, AfterRow(h, Moved(h, i, r)));
      } else {
        AssembledRows(h, data, next, tail, Silent(h, i, r));
      }
    }
  }

  // ---------- from rows to a program (section 6.2.5.1 of DWARF 4) ----------

  /** The registers between rows: no per-row flag is set. */
  predicate Clean(r: Row)
  {
    !r.basicBlock && !r.endSequence && !r.prologueEnd && !r.epilogueBegin && r.discriminator == 0
  }

  /** The row can be written with the opcodes the header provides. */
  predicate Expressible(h: Header, row: Row)
  {
    9 < h.opcodeBase && (row.prologueEnd ==> 10 < h.opcodeBase) && (row.epilogueBegin ==> 11 < h.opcodeBase)
  }

  /** The special opcode for an advance, where one exists. */
  function SpecialFor(h: Header, addressDelta: nat, lineDelta: int): (r: Option<Byte>)
    requires h.Valid()
    ensures r.Some? ==> h.opcodeBase <= r.value
  {
    if h.lineBase <= lineDelta < h.lineBase + h.lineRange && addressDelta < 256 then
      var op := (lineDelta - h.lineBase) + h.lineRange * addressDelta + h.opcodeBase;
      if op <= 255 then Some(op) else None
    else None
  }

  function When(c: bool, i: Instr): (p: seq<Instr>) { if c then [i] else [] }

  /** Instructions that bring the registers to the row, short of address and line. */
  function Settings(r: Row, row: Row): (p: seq<Instr>)
  {
    Sources(r, row)
    + When(row.prologueEnd, SetPrologueEnd)
    + When(row.epilogueBegin, SetEpilogueBegin)
    + When(row.discriminator != 0, SetDiscriminator(row.discriminator))
    + When(row.address < r.address, SetAddress(row.address))
  }

  function Sources(r: Row, row: Row): (p: seq<Instr>)
  {
    When(r.file != row.file, SetFile(row.file))
    + When(r.column != row.column, SetColumn(row.column))
    + When(r.isStmt != row.isStmt, NegateStmt)
    + When(row.basicBlock, SetBasicBlock)
  }

  /** An address advance alone: in two bytes if they hold it. */
  function Advance(addressDelta: U64): Instr
  {
    if 128 <= addressDelta < TWO16 then FixedAdvancePc(addressDelta) else AdvancePc(addressDelta)
  }

  /** Instructions that move address and line and emit the row. */
  function Emission(h: Header, addressDelta: U64, lineDelta: I64, endSequence: bool): (p: seq<Instr>)
    requires h.Valid()
  {
    var constant := (255 - h.opcodeBase) / h.lineRange;
    if endSequence then [Advance(addressDelta), AdvanceLine(lineDelta), EndSequence]
    else if SpecialFor(h, addressDelta, lineDelta).Some? then
      [Special(SpecialFor(h, addressDelta, lineDelta).value)]
    else if constant <= addressDelta && SpecialFor(h, addressDelta - constant, lineDelta).Some? then
      [ConstAddPc, Special(SpecialFor(h, addressDelta - constant, lineDelta).value)]
    else [Advance(addressDelta), AdvanceLine(lineDelta), Copy]
  }

  function EncodeRow(h: Header, r: Row, row: Row): (p: seq<Instr>)
    requires h.Valid()
  {
    var delta := if row.address < r.address then 0 else row.address - r.address;
    Settings(r, row) + Emission(h, delta, Signed64(row.line - r.line), row.endSequence)
  }

  /** The registers a sequence starts with, by the table of section 6.2.2 of DWARF 4. */
  function SequenceStart(h: Header): Row
  {
    Row(address := 0, file := 1, line := 1, column := 0, isStmt := h.defaultIsStmt, basicBlock := false,
        endSequence := false, prologueEnd := false, epilogueBegin := false, discriminator := 0)
  }

  /** The registers behind a row: those of the row without the flags that are for one row, or a new sequence's. */
  function Following(h: Header, row: Row): Row
  {
    if row.endSequence then SequenceStart(h)
    else Row(address := row.address, file := row.file, line := row.line, column := row.column, isStmt := row.isStmt,
             basicBlock := false, endSequence := false, prologueEnd := false, epilogueBegin := false,
             discriminator := 0)
  }

  function EncodeRows(h: Header, r: Row, rows: seq<Row>): (p: seq<Instr>)
    requires h.Valid()
    decreases |rows|
  {
    if rows == [] then [] else EncodeRow(h, r, rows[0]) + EncodeRows(h, Following(h, rows[0]), rows[1..])
  }

  /** The iterator's registers are those. */
  lemma RegistersFollow(h: Header, row: Row)
    ensures Initial(h) == SequenceStart(h) && AfterRow(h, row) == Following(h, row)
  {}

  ghost predicate AllAvailable(h: Header, prog: seq<Instr>)
  {
    forall i :: i in prog ==> Available(h, i)
  }

  /** The registers after a run of instructions that emit nothing. */
  ghost function Settle(h: Header, p: seq<Instr>, r: Row): (r': Row)
    requires h.Valid() && forall i :: i in p ==> !Emits(i)
    decreases |p|
  {
    if p == [] then r else Settle(h, p[1..], Silent(h, p[0], r))
  }

  lemma {:induction false} SettleConcat(h: Header, p: seq<Instr>, q: seq<Instr>, r: Row)
    requires h.Valid() && forall i :: i in p || i in q ==> !Emits(i)
    ensures Settle(h, p + q, r) == Settle(h, q, Settle(h, p, r))
    decreases |p|
  {
    hide Silent;
    if p == [] {
      assert p + q == q;
    } else {
      assert (p + q)[1..] == p[1..] + q;
      SettleConcat(h, p[1..], q, Silent(h, p[0], r));
    }
  }

  lemma {:induction false} RowsAfterSilent(h: Header, p: seq<Instr>, q: seq<Instr>, r: Row)
    requires h.Valid() && (forall i :: i in p ==> !Emits(i)) && AllAvailable(h, p + q)
    ensures AllAvailable(h, q) && Rows(h, p + q, r) == Rows(h, q, Settle(h, p, r))
    decreases |p|
  {
    hide Silent, Moved, AfterRow, Available;
    assert forall i :: i in q ==> i in p + q;
    if p == [] {
      assert p + q == q;
    } else {
      assert (p + q)[0] == p[0] && (p + q)[1..] == p[1..] + q;
      assert p[0] in p;
      RowsAfterSilent(h, p[1..], q, Silent(h, p[0], r));
    }
  }

  /** One optional setting after a settled prefix. */
  lemma SettleWhen(h: Header, p: seq<Instr>, c: bool, i: Instr, r: Row)
    requires h.Valid() && !Emits(i) && forall j :: j in p ==> !Emits(j)
    requires AllAvailable(h, p) && (c ==> Available(h, i))
    ensures (forall j :: j in p + When(c, i) ==> !Emits(j)) && AllAvailable(h, p + When(c, i))
    ensures Settle(h, p + When(c, i), r) == if c then Silent(h, i, Settle(h, p, r)) else Settle(h, p, r)
  {
    hide Silent, Emits, Available;
    SettleConcat(h, p, When(c, i), r);
  }

  /** The settings bring every register but the line to the row; the address is at most the row's. */
  lemma SettingsMeaning(h: Header, r: Row, row: Row)
    requires h.Valid() && Clean(r) && Expressible(h, row)
    ensures (forall i :: i in Settings(r, row) ==> !Emits(i)) && AllAvailable(h, Settings(r, row))
    ensures Settle(h, Settings(r, row), r)
         == row.(address := if row.address < r.address then row.address else r.address,
                 line := r.line, endSequence := false)
  {
    hide When, Settle, AllAvailable, Sources;
    SourcesMeaning(h, r, row);
    var p4 := Sources(r, row);
    var p5 := p4 + When(row.prologueEnd, SetPrologueEnd);
    var p6 := p5 + When(row.epilogueBegin, SetEpilogueBegin);
    var p7 := p6 + When(row.discriminator != 0, SetDiscriminator(row.discriminator));
    SettleWhen(h, p4, row.prologueEnd, SetPrologueEnd, r);
    SettleWhen(h, p5, row.epilogueBegin, SetEpilogueBegin, r);
    SettleWhen(h, p6, row.discriminator != 0, SetDiscriminator(row.discriminator), r);
    SettleWhen(h, p7, row.address < r.address, SetAddress(row.address), r);
  }

  lemma SourcesMeaning(h: Header, r: Row, row: Row)
    requires h.Valid() && Clean(r) && Expressible(h, row)
    ensures (forall i :: i in Sources(r, row) ==> !Emits(i)) && AllAvailable(h, Sources(r, row))
    ensures Settle(h, Sources(r, row), r)
         == r.(file := row.file, column := row.column, isStmt := row.isStmt, basicBlock := row.basicBlock)
  {
    assert Settle(h, [], r) == r && AllAvailable(h, []);
    hide When, Settle, AllAvailable;
    var p1 := When(r.file != row.file, SetFile(row.file));
    var p2 := p1 + When(r.column != row.column, SetColumn(row.column));
    var p3 := p2 + When(r.isStmt != row.isStmt, NegateStmt);
    assert [] + p1 == p1;
    SettleWhen(h, [], r.file != row.file, SetFile(row.file), r);
    SettleWhen(h, p1, r.column != row.column, SetColumn(row.column), r);
    SettleWhen(h, p2, r.isStmt != row.isStmt, NegateStmt, r);
    SettleWhen(h, p3, row.basicBlock, SetBasicBlock, r);
  }

  /** A special opcode advances exactly by the deltas it was chosen for. */
  lemma SpecialMeaning(h: Header, addressDelta: nat, lineDelta: int)
    requires h.Valid() && SpecialFor(h, addressDelta, lineDelta).Some?
    ensures var op := SpecialFor(h, addressDelta, lineDelta).value;
            AddressAdvance(h, op) == addressDelta && LineAdvance(h, op) == lineDelta
  {
    var op := SpecialFor(h, addressDelta, lineDelta).value;
    RemainderUnique(op - h.opcodeBase, h.lineRange, addressDelta, lineDelta - h.lineBase);
  }

  /** The constant advance is that of opcode 255. */
  lemma ConstAddPcIsOpcode255(h: Header, r: Row)
    requires h.Valid()
    ensures Silent(h, ConstAddPc, r).address == Moved(h, Special(255), r).address
  {}

  /** Whatever the encoding chosen, the emission is silent moves and one instruction that emits the row. */
  lemma EmissionArrives(h: Header, r: Row, row: Row) returns (p: seq<Instr>, i: Instr)
    requires h.Valid() && r.address <= row.address
    requires r == row.(address := r.address, line := r.line, endSequence := false)
    ensures Emission(h, row.address - r.address, Signed64(row.line - r.line), row.endSequence) == p + [i]
    ensures Emits(i) && (forall j :: j in p ==> !Emits(j)) && |p| <= 2 && (i.Special? ==> h.opcodeBase <= i.opcode)
    ensures Moved(h, i, SettleShort(h, p, r)) == row
  {
    hide Wrap64, Signed64, SpecialFor, SettleShort, Moved;
    var delta, lines := row.address - r.address, Signed64(row.line - r.line);
    var constant := (255 - h.opcodeBase) / h.lineRange;
    if !row.endSequence && SpecialFor(h, delta, lines).Some? {
      p, i := [], Special(SpecialFor(h, delta, lines).value);
      SpecialArrives(h, r, row);
    } else if !row.endSequence && constant <= delta && SpecialFor(h, delta - constant, lines).Some? {
      p, i := [ConstAddPc], Special(SpecialFor(h, delta - constant, lines).value);
      ConstantArrives(h, r, row);
    } else {
      p, i := [Advance(delta), AdvanceLine(lines)], if row.endSequence then EndSequence else Copy;
      AdvancesArrive(h, r, row);
    }
  }

  /** A special opcode alone. */
  lemma SpecialArrives(h: Header, r: Row, row: Row)
    requires h.Valid() && r.address <= row.address && !row.endSequence
    requires r == row.(address := r.address, line := r.line, endSequence := false)
    requires SpecialFor(h, row.address - r.address, Signed64(row.line - r.line)).Some?
    ensures var op := SpecialFor(h, row.address - r.address, Signed64(row.line - r.line)).value;
            h.opcodeBase <= op && Moved(h, Special(op), SettleShort(h, [], r)) == row
  {
    hide Wrap64, Signed64, AddressAdvance, LineAdvance;
    LineArrives(r.line, row.line);
    WrapSmall(row.address);
    SpecialMeaning(h, row.address - r.address, Signed64(row.line - r.line));
  }

  /** The constant advance, and a special opcode for what is left. */
  lemma ConstantArrives(h: Header, r: Row, row: Row)
    requires h.Valid() && !row.endSequence && r.address + (255 - h.opcodeBase) / h.lineRange <= row.address
    requires r == row.(address := r.address, line := r.line, endSequence := false)
    requires SpecialFor(h, row.address - r.address - (255 - h.opcodeBase) / h.lineRange,
                 Signed64(row.line - r.line)).Some?
    ensures var op := SpecialFor(h, row.address - r.address - (255 - h.opcodeBase) / h.lineRange,
                          Signed64(row.line - r.line)).value;
            h.opcodeBase <= op && Moved(h, Special(op), SettleShort(h, [ConstAddPc], r)) == row
  {
    hide Wrap64, Signed64, SpecialFor, Moved;
    var next := r.(address := r.address + (255 - h.opcodeBase) / h.lineRange);
    WrapSmall(next.address);
    assert SettleShort(h, [ConstAddPc], r) == next == SettleShort(h, [], next);
    SpecialArrives(h, next, row);
  }

  /** An address advance, a line advance and the instruction that emits. */
  lemma AdvancesArrive(h: Header, r: Row, row: Row)
    requires h.Valid() && r.address <= row.address
    requires r == row.(address := r.address, line := r.line, endSequence := false)
    ensures var p := [Advance(row.address - r.address), AdvanceLine(Signed64(row.line - r.line))];
            Moved(h, if row.endSequence then EndSequence else Copy, SettleShort(h, p, r)) == row
  {
    hide Wrap64, Signed64;
    LineArrives(r.line, row.line);
    WrapSmall(row.address);
  }

  lemma EmissionMeaning(h: Header, r: Row, row: Row, rest: seq<Instr>)
    requires h.Valid() && r.address <= row.address
    requires r == row.(address := r.address, line := r.line, endSequence := false)
    requires AllAvailable(h, Emission(h, row.address - r.address, Signed64(row.line - r.line), row.endSequence) + rest)
    ensures AllAvailable(h, rest)
    ensures Rows(h, Emission(h, row.address - r.address, Signed64(row.line - r.line), row.endSequence) + rest, r)
         == [row] + Rows(h, rest, AfterRow(h, row))
  {
    hide Emission, Moved, Rows, SettleShort, AllAvailable;
    var p, i := EmissionArrives(h, r, row);
    EmitAfter(h, p, i, rest, r, row);
  }

  lemma LineArrives(a: U64, b: U64)
    ensures Wrap64(a + Signed64(b - a)) == b
  {}

  lemma EmitAfter(h: Header, p: seq<Instr>, i: Instr, rest: seq<Instr>, r: Row, row: Row)
    requires h.Valid() && Emits(i) && (forall j :: j in p ==> !Emits(j)) && |p| <= 2
    requires AllAvailable(h, p + [i] + rest) && (i.Special? ==> h.opcodeBase <= i.opcode)
    requires Moved(h, i, SettleShort(h, p, r)) == row
    ensures AllAvailable(h, rest)
    ensures Rows(h, p + [i] + rest, r) == [row] + Rows(h, rest, AfterRow(h, row))
  {
    hide Silent, Moved, AfterRow, Available, Emits;
    var tail := [i] + rest;
    assert p + [i] + rest == p + tail;
    RowsAfterSilent(h, p, tail, r);
    assert tail[1..] == rest && tail[0] == i;
    assert forall j :: j in rest ==> j in tail;
    if |p| == 1 {
      assert p[1..] == [];
    } else if |p| == 2 {
      assert p[1..] == [p[1]] && p[1..][1..] == [];
      assert Settle(h, p[1..], Silent(h, p[0], r)) == Silent(h, p[1], Silent(h, p[0], r));
    }
  }

  ghost function SettleShort(h: Header, p: seq<Instr>, r: Row): (r': Row)
    requires h.Valid() && (forall j :: j in p ==> !Emits(j)) && |p| <= 2
  {
    if |p| == 0 then r
    else if |p| == 1 then Silent(h, p[0], r)
    else Silent(h, p[1], Silent(h, p[0], r))
  }

  /** The instructions for one row move silently up to it and emit it last. */
  lemma RowMeaning(h: Header, r: Row, row: Row, rest: seq<Instr>)
    requires h.Valid() && Clean(r) && Expressible(h, row) && AllAvailable(h, rest)
    ensures AllAvailable(h, EncodeRow(h, r, row) + rest)
    ensures Rows(h, EncodeRow(h, r, row) + rest, r) == [row] + Rows(h, rest, AfterRow(h, row))
    ensures var e := EncodeRow(h, r, row);
            e != [] && Emits(e[|e| - 1])
  {
    hide Settings, Emission, Settle, Available, SpecialFor, Signed64, AfterRow, Rows;
    var delta := if row.address < r.address then 0 else row.address - r.address;
    var a, b := Settings(r, row), Emission(h, delta, Signed64(row.line - r.line), row.endSequence);
    assert EncodeRow(h, r, row) + rest == a + (b + rest);
    SettingsMeaning(h, r, row);
    EmissionShape(h, delta, Signed64(row.line - r.line), row.endSequence);
    RowsAfterSilent(h, a, b + rest, r);
    EmissionMeaning(h, Settle(h, a, r), row, rest);
  }

  /** The program for any list of rows means exactly those rows. */
  lemma {:induction false} EncodeRowsMeaning(h: Header, r: Row, rows: seq<Row>)
    requires h.Valid() && Clean(r) && forall row :: row in rows ==> Expressible(h, row)
    ensures AllAvailable(h, EncodeRows(h, r, rows))
    ensures Rows(h, EncodeRows(h, r, rows), r) == rows
    ensures rows != [] ==> EncodeRows(h, r, rows) != [] && Emits(EncodeRows(h, r, rows)[|EncodeRows(h, r, rows)| - 1])
    decreases |rows|
  {
    hide EncodeRow, Available, Expressible;
    if rows != [] {
      RegistersFollow(h, rows[0]);
      assert Clean(Following(h, rows[0])) && Expressible(h, rows[0]);
      hide AfterRow, Following;
      EncodeRowsMeaning(h, Following(h, rows[0]), rows[1..]);
      RowMeaning(h, r, rows[0], EncodeRows(h, Following(h, rows[0]), rows[1..]));
    }
  }

  lemma EmissionShape(h: Header, addressDelta: U64, lineDelta: I64, endSequence: bool)
    requires h.Valid() && 9 < h.opcodeBase
    ensures var e := Emission(h, addressDelta, lineDelta, endSequence);
            e != [] && Emits(e[|e| - 1]) && AllAvailable(h, e)
  {
    hide SpecialFor;
  }

  /** Round trip: any table of rows, encoded and iterated, comes back unchanged. */
  lemma LineTableRoundTrip(h: Header, rows: seq<Row>)
    requires h.Valid() && forall row :: row in rows ==> Expressible(h, row)
    ensures AllRows(h, AssembleAll(EncodeRows(h, SequenceStart(h), rows)), 0, Initial(h)) == Ok(rows)
  {
    var prog := EncodeRows(h, SequenceStart(h), rows);
    RegistersFollow(h, SequenceStart(h));
    EncodeRowsMeaning(h, SequenceStart(h), rows);
    AssembledRows(h, AssembleAll(prog), 0, prog, Initial(h));
  }
}
