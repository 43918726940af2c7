/** Composite location descriptions (section 2.6.1.2 of DWARF 4) and the stack operations of section 2.5.1.3. */
module Locations {
  import opened Results
  import opened Bits
  import opened Leb128
  import opened Cursors
  import opened Expressions
  import opened Operators

  // ---------- stack operations ----------

  /** dup, drop, over, swap and rot on a stack whose three top entries are a, b, c, the last on top. */
  lemma StackOperations(env: Env, data: seq<Byte>, pos: nat, m: Machine, below: seq<U64>, a: U64, b: U64, c: U64)
    requires pos <= |data| && m.stack == below + [a, b, c]
    ensures ExecuteStack(env, data, 0x12, pos, m) == Ok((m.(stack := below + [a, b, c, c]), pos))
    ensures ExecuteStack(env, data, 0x13, pos, m) == Ok((m.(stack := below + [a, b]), pos))
    ensures ExecuteStack(env, data, 0x14, pos, m) == Ok((m.(stack := below + [a, b, c, b]), pos))
    ensures ExecuteStack(env, data, 0x16, pos, m) == Ok((m.(stack := below + [a, c, b]), pos))
    ensures ExecuteStack(env, data, 0x17, pos, m) == Ok((m.(stack := below + [c, a, b]), pos))
  {
    hide ReadWord, Fixed;
    var n := |m.stack|;
    assert m.stack[n - 1] == c && m.stack[n - 2] == b && m.stack[n - 3] == a;
    assert m.stack[..n - 1] == below + [a, b] && m.stack[..n - 2] == below + [a] && m.stack[..n - 3] == below;
    assert below + [a, b, c] + [c] == below + [a, b, c, c] && below + [a, b, c] + [b] == below + [a, b, c, b];
    assert below + [a] + [c] + [b] == below + [a, c, b] && below + [c] + [a] + [b] == below + [c, a, b];
  }

  /** pick copies the entry that its operand's number of others lie above; so pick 0 is dup and pick 1 is over. */
  lemma PickReaches(env: Env, data: seq<Byte>, pos: nat, m: Machine, below: seq<U64>, x: U64, above: seq<U64>)
    requires |above| < 256 && At(data, pos, [|above|]) && m.stack == below + [x] + above
    ensures pos <= |data|
    ensures ExecuteStack(env, data, 0x15, pos, m) == Ok((m.(stack := below + [x] + above + [x]), pos + 1))
    ensures above == [] ==> ExecuteStack(env, data, 0x15, pos, m) == ExecuteStack(env, data, 0x12, pos + 1, m)
    ensures |above| == 1 ==> ExecuteStack(env, data, 0x15, pos, m) == ExecuteStack(env, data, 0x14, pos + 1, m)
  {
    hide Cursors.Le, ReadWord;
    assert data[pos..pos + 1] == [|above|];
    assert Cursors.Le([|above|]) == |above| by { SingleByte(|above|); }
    assert m.stack[|m.stack| - 1 - |above|] == x;
  }

  lemma SingleByte(i: Byte)
    ensures Cursors.Le([i]) == i
  {
    assert [i][1..] == [];
  }

  // ---------- composite locations ----------

  /** A register operation describes a register; in call frame information, where there is nothing to describe, it
      pushes the register's value. */
  lemma RegisterOperation(env: Env, data: seq<Byte>, pos: nat, m: Machine, reg: U64, short: bool)
    requires pos <= |data| && if short then reg < 32 else At(data, pos, EncodeUleb(reg))
    ensures var (op, next) := if short then (0x50 + reg, pos) else (0x90, pos + |EncodeUleb(reg)|);
            Execute(env, data, op, pos, m) ==
              if !env.inFrameInfo then Ok((m.(recent := Some(RegisterResult(reg))), next))
              else if reg in env.regs then Ok((m.(stack := m.stack + [env.regs[reg]]), next))
              else Err(MissingKey)
  {
    hide Uleb, EncodeUleb, ExecuteStack, ExecuteConstant;
    if !short {
      UlebAt(data, pos, reg);
      Opcodes();
    }
  }

  /** Where a piece of an object is: in a register (named by the opcode or by an operand), at a computed address, a
      computed value, or nowhere. */
  datatype Source =
    | LowRegister(low: U64)
    | InRegister(reg: U64)
    | AtAddress(address: Expr)
    | AsValue(value: Expr)
    | Absent

  /** How much of the object it is: whole bytes, or bits from an offset in the source. */
  datatype Extent = InBytes(bytes: U64) | InBits(bits: U64, offset: U64)

  datatype Part = Part(source: Source, extent: Extent)

  predicate Encoded(p: Part)
  {
    match p.source
    case LowRegister(low) => low < 32
    case AtAddress(e) => Encodable(e)
    case AsValue(e) => Encodable(e)
    case _ => true
  }

  predicate Describable(env: Env, p: Part)
  {
    && Encoded(p)
    && match p.source
       case LowRegister(_) => !env.inFrameInfo
       case InRegister(_) => !env.inFrameInfo
       case AtAddress(e) => Value(env, e).Ok?
       case AsValue(e) => Value(env, e).Ok?
       case Absent => true
  }

  function ExtentCode(e: Extent): seq<Byte>
  {
    match e
    case InBytes(bytes) => [0x93] + EncodeUleb(bytes)
    case InBits(bits, offset) => [0x9d] + (EncodeUleb(bits) + EncodeUleb(offset))
  }

  function PartCode(p: Part): seq<Byte>
    requires Encoded(p)
  {
    var piece := ExtentCode(p.extent);
    match p.source
    case LowRegister(low) => [0x50 + low] + piece
    case InRegister(reg) => ([0x90] + EncodeUleb(reg)) + piece
    case AtAddress(e) => Compile(e) + piece
    case AsValue(e) => Compile(e) + ([0x9f] + piece)
    case Absent => piece
  }

  function LocationOf(env: Env, s: Source): Location
    requires s.AtAddress? ==> Value(env, s.address).Ok?
    requires s.AsValue? ==> Value(env, s.value).Ok?
  {
    match s
    case LowRegister(low) => RegisterResult(low)
    case InRegister(reg) => RegisterResult(reg)
    case AtAddress(e) => AddressResult(Value(env, e).value)
    case AsValue(e) => LiteralResult(Value(env, e).value)
    case Absent => EmptyResult
  }

  function PieceWith(loc: Location, e: Extent): Piece
  {
    match e
    case InBytes(bytes) => Piece(loc, Wrap64(bytes * 8), 0)
    case InBits(bits, offset) => Piece(loc, bits, offset)
  }

  function PieceOf(env: Env, p: Part): Piece
    requires Describable(env, p)
  {
    PieceWith(LocationOf(env, p.source), p.extent)
  }

  /** Between two pieces nothing is pending. */
  predicate Settled(m: Machine) { m.stack == [] && m.recent.None? && m.isAddress }

  /** A piece takes the location described so far. */
  lemma PieceRuns(env: Env, data: seq<Byte>, pos: nat, m: Machine, e: Extent)
    requires At(data, pos, ExtentCode(e))
    ensures var next := pos + |ExtentCode(e)|;
            var (loc, m') := TakeLocation(m);
            && pos <= next <= |data|
            && Run(env, data, pos, m) == Run(env, data, next, m'.(pieces := m'.pieces + [PieceWith(loc, e)]))
  {
    hide Run, EncodeUleb, At, TakeLocation;
    match e {
      case InBytes(bytes) => BytePieceRuns(env, data, pos, m, bytes);
      case InBits(bits, offset) => BitPieceRuns(env, data, pos, m, bits, offset);
    }
  }

  lemma BytePieceRuns(env: Env, data: seq<Byte>, pos: nat, m: Machine, bytes: U64)
    requires At(data, pos, [0x93] + EncodeUleb(bytes))
    ensures var next := pos + 1 + |EncodeUleb(bytes)|;
            var (loc, m') := TakeLocation(m);
            && next <= |data|
            && Run(env, data, pos, m)
            == Run(env, data, next, m'.(pieces := m'.pieces + [Piece(loc, Wrap64(bytes * 8), 0)]))
  {
    hide Run, EncodeUleb, Uleb, At, ExecuteStack, ExecuteConstant, TakeLocation, BinaryOf, UnaryOf, Wrap64;
    Opcodes();
    ByteAt(data, pos, 0x93, EncodeUleb(bytes));
    UlebAt(data, pos + 1, bytes);
    RunOne(env, data, pos, m);
  }

  lemma BitPieceRuns(env: Env, data: seq<Byte>, pos: nat, m: Machine, bits: U64, offset: U64)
    requires At(data, pos, [0x9d] + (EncodeUleb(bits) + EncodeUleb(offset)))
    ensures var next := pos + 1 + |EncodeUleb(bits)| + |EncodeUleb(offset)|;
            var (loc, m') := TakeLocation(m);
            && next <= |data|
            && Run(env, data, pos, m) == Run(env, data, next, m'.(pieces := m'.pieces + [Piece(loc, bits, offset)]))
  {
    hide Run, EncodeUleb, Uleb, At, ExecuteStack, ExecuteConstant, TakeLocation, BinaryOf, UnaryOf, Wrap64;
    Opcodes();
    ByteAt(data, pos, 0x9d, EncodeUleb(bits) + EncodeUleb(offset));
    AtSplit(data, pos + 1, EncodeUleb(bits), EncodeUleb(offset));
    UlebAt(data, pos + 1, bits);
    UlebAt(data, pos + 1 + |EncodeUleb(bits)|, offset);
    RunOne(env, data, pos, m);
  }

  lemma Opcodes()
    ensures BinaryOf(0x93) == None && UnaryOf(0x93) == None && BinaryOf(0x90) == None && UnaryOf(0x90) == None
    ensures BinaryOf(0x9f) == None && UnaryOf(0x9f) == None && BinaryOf(0x9d) == None && UnaryOf(0x9d) == None
  {}

  lemma RegisterRuns(env: Env, data: seq<Byte>, pos: nat, m: Machine, reg: U64)
    requires At(data, pos, [0x90] + EncodeUleb(reg)) && !env.inFrameInfo
    ensures var next := pos + 1 + |EncodeUleb(reg)|;
            && pos <= next <= |data|
            && Run(env, data, pos, m) == Run(env, data, next, m.(recent := Some(RegisterResult(reg))))
  {
    hide Run, EncodeUleb, Uleb, At, ExecuteStack, ExecuteConstant, BinaryOf, UnaryOf;
    ByteAt(data, pos, 0x90, EncodeUleb(reg));
    UlebAt(data, pos + 1, reg);
    Opcodes();
    RunOne(env, data, pos, m);
  }

  lemma LowRegisterRuns(env: Env, data: seq<Byte>, pos: nat, m: Machine, low: U64, rest: seq<Byte>)
    requires low < 32 && At(data, pos, [0x50 + low] + rest) && !env.inFrameInfo
    ensures pos + 1 <= |data| && At(data, pos + 1, rest)
    ensures Run(env, data, pos, m) == Run(env, data, pos + 1, m.(recent := Some(RegisterResult(low))))
  {
    hide Run, At, ExecuteStack, ExecuteConstant, ExecuteOther, BinaryOf, UnaryOf;
    ByteAt(data, pos, 0x50 + low, rest);
    RunOne(env, data, pos, m);
  }

  lemma MarkRuns(env: Env, data: seq<Byte>, pos: nat, m: Machine, rest: seq<Byte>)
    requires At(data, pos, [0x9f] + rest)
    ensures pos + 1 <= |data| && At(data, pos + 1, rest)
    ensures Run(env, data, pos, m) == Run(env, data, pos + 1, m.(isAddress := false))
  {
    hide Run, At, ExecuteStack, ExecuteConstant, BinaryOf, UnaryOf;
    ByteAt(data, pos, 0x9f, rest);
    Opcodes();
    RunOne(env, data, pos, m);
  }

  lemma TreePartRuns(env: Env, data: seq<Byte>, pos: nat, p: Part, m: Machine)
    requires Describable(env, p) && At(data, pos, PartCode(p)) && Settled(m)
    requires p.source.AtAddress? || p.source.AsValue?
    ensures pos + |PartCode(p)| <= |data|
    ensures Run(env, data, pos, m) == Run(env, data, pos + |PartCode(p)|, m.(pieces := m.pieces + [PieceOf(env, p)]))
  {
    hide Run, Compile, At, Value, ExtentCode, PieceWith, TakeLocation;
    var e, piece := if p.source.AtAddress? then p.source.address else p.source.value, ExtentCode(p.extent);
    var pushed := Push(m, Value(env, e).value);
    var next := pos + |Compile(e)|;
    AtSplit(data, pos, Compile(e), if p.source.AtAddress? then piece else [0x9f] + piece);
    TreeRuns(env, data, pos, e, m);
    Popped(m, Value(env, e).value);
    if p.source.AtAddress? {
      PieceRuns(env, data, next, pushed, p.extent);
    } else {
      MarkRuns(env, data, next, pushed, piece);
      PieceRuns(env, data, next + 1, pushed.(isAddress := false), p.extent);
    }
  }

  /** The code of one part adds exactly its piece. */
  lemma PartRuns(env: Env, data: seq<Byte>, pos: nat, p: Part, m: Machine)
    requires Describable(env, p) && At(data, pos, PartCode(p)) && Settled(m)
    ensures pos + |PartCode(p)| <= |data|
    ensures Run(env, data, pos, m) == Run(env, data, pos + |PartCode(p)|, m.(pieces := m.pieces + [PieceOf(env, p)]))
  {
    hide Run, EncodeUleb, Compile, At, Value, ExtentCode, PieceWith;
    var piece := ExtentCode(p.extent);
    match p.source {
      case LowRegister(low) =>
        LowRegisterRuns(env, data, pos, m, low, piece);
        PieceRuns(env, data, pos + 1, m.(recent := Some(RegisterResult(low))), p.extent);
      case InRegister(reg) =>
        var code := [0x90] + EncodeUleb(reg);
        AtSplit(data, pos, code, piece);
        RegisterRuns(env, data, pos, m, reg);
        PieceRuns(env, data, pos + |code|, m.(recent := Some(RegisterResult(reg))), p.extent);
      case AtAddress(_) => TreePartRuns(env, data, pos, p, m);
      case AsValue(_) => TreePartRuns(env, data, pos, p, m);
      case Absent =>
        PieceRuns(env, data, pos, m, p.extent);
    }
  }

  lemma Popped(m: Machine, v: U64)
    requires Settled(m)
    ensures TakeLocation(Push(m, v)) == (AddressResult(v), m)
    ensures TakeLocation(Push(m, v).(isAddress := false)) == (LiteralResult(v), m)
  {
    assert (m.stack + [v])[..|m.stack|] == m.stack;
  }

  ghost predicate AllDescribable(env: Env, ps: seq<Part>)
  {
    forall i :: 0 <= i < |ps| ==> Describable(env, ps[i])
  }

  ghost function CodeOf(env: Env, ps: seq<Part>): seq<Byte>
    requires AllDescribable(env, ps)
  {
    if ps == [] then [] else PartCode(ps[0]) + CodeOf(env, ps[1..])
  }

  ghost function PiecesOf(env: Env, ps: seq<Part>): seq<Piece>
    requires AllDescribable(env, ps)
  {
    if ps == [] then [] else [PieceOf(env, ps[0])] + PiecesOf(env, ps[1..])
  }

  lemma {:induction false} PartsRun(env: Env, data: seq<Byte>, pos: nat, ps: seq<Part>, m: Machine)
    requires AllDescribable(env, ps) && At(data, pos, CodeOf(env, ps)) && Settled(m)
               && pos + |CodeOf(env, ps)| == |data|
    ensures Run(env, data, pos, m) == Ok(m.(pieces := m.pieces + PiecesOf(env, ps)))
    decreases |ps|
  {
    hide Run, PartCode, At, PieceOf;
    if ps == [] {
      RunEnds(env, data, m);
      assert m.pieces + [] == m.pieces;
    } else {
      var first := PartCode(ps[0]);
      AtSplit(data, pos, first, CodeOf(env, ps[1..]));
      PartRuns(env, data, pos, ps[0], m);
      var m' := m.(pieces := m.pieces + [PieceOf(env, ps[0])]);
      PartsRun(env, data, pos + |first|, ps[1..], m');
      assert m'.pieces + PiecesOf(env, ps[1..]) == m.pieces + PiecesOf(env, ps);
    }
  }

  /** A composite location description evaluates to exactly its pieces, in order. */
  lemma CompositeResult(env: Env, ps: seq<Part>)
    requires AllDescribable(env, ps) && ps != []
    ensures var run := Run(env, CodeOf(env, ps), 0, Start(env, false));
            run.Ok? && Finish(run.value) == Pieces(PiecesOf(env, ps))
  {
    hide Run, PartCode, PieceOf;
    var data := CodeOf(env, ps);
    assert At(data, 0, data);
    PartsRun(env, data, 0, ps, Start(env, false));
    assert [] + PiecesOf(env, ps) == PiecesOf(env, ps);
  }
}
