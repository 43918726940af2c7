/** DWARF expressions: the stack machine, and a compiler from expression trees to its byte code. */
module Expressions {
  import opened Results
  import opened Bits
  import opened Leb128
  import opened Cursors
  import opened Operators

  datatype Section = Section(start: nat, size: nat)

  /** What an evaluation can see: registers by DWARF number, the frame, memory, and the image. */
  datatype Env = Env(
    regs: map<nat, U64>, cfa: U64, frameBase: Option<U64>, mem: map<nat, Byte>,
    sections: seq<Section>, loadBias: U64, inFrameInfo: bool)

  datatype Location =
    | AddressResult(address: U64) | RegisterResult(number: U64) | DataResult(start: nat, length: U64)
    | LiteralResult(value: U64) | EmptyResult

  datatype Piece = Piece(location: Location, bitSize: U64, offset: U64)

  datatype Outcome = Simple(location: Location) | Pieces(pieces: seq<Piece>)

  /** The evaluator's variables.  The top of the stack is its last element. */
  datatype Machine = Machine(stack: seq<U64>, recent: Option<Location>, pieces: seq<Piece>, isAddress: bool)

  function ReadRegister(env: Env, reg: nat): (r: Result<U64>)
  {
    if reg in env.regs then Ok(env.regs[reg]) else Err(MissingKey)
  }

  /** File address to run-time address; outside every section the source gives 0. */
  function ToVirtual(env: Env, address: U64): (r: U64)
  {
    if exists s :: s in env.sections && s.start <= address < s.start + s.size
    then Wrap64(address + env.loadBias) else 0
  }

  // ---------- opcodes ----------

  function BinaryOpcode(op: BinaryOp): (b: Byte)
  {
    match op
    case BitAnd => 0x1a case Div => 0x1b case Minus => 0x1c case Mod => 0x1d case Mul => 0x1e
    case BitOr => 0x21 case Plus => 0x22 case Shl => 0x24 case Shr => 0x25 case Shra => 0x26
    case BitXor => 0x27 case Eq => 0x29 case Ge => 0x2a case Gt => 0x2b case Le => 0x2c
    case Lt => 0x2d case Ne => 0x2e
  }

  function BinaryOf(b: Byte): (r: Option<BinaryOp>)
    ensures r.Some? ==> BinaryOpcode(r.value) == b
    ensures r.None? ==> forall op :: BinaryOpcode(op) != b
  {
    match b
    case 0x1a => Some(BitAnd) case 0x1b => Some(Div) case 0x1c => Some(Minus) case 0x1d => Some(Mod)
    case 0x1e => Some(Mul) case 0x21 => Some(BitOr) case 0x22 => Some(Plus) case 0x24 => Some(Shl)
    case 0x25 => Some(Shr) case 0x26 => Some(Shra) case 0x27 => Some(BitXor) case 0x29 => Some(Eq)
    case 0x2a => Some(Ge) case 0x2b => Some(Gt) case 0x2c => Some(Le) case 0x2d => Some(Lt)
    case 0x2e => Some(Ne)
    case _ => None
  }

  function UnaryOpcode(op: UnaryOp): (b: Byte)
  {
    match op case Deref => 0x06 case Abs => 0x19 case Neg => 0x1f case Not => 0x20
  }

  function UnaryOf(b: Byte): (r: Option<UnaryOp>)
    ensures r.Some? ==> UnaryOpcode(r.value) == b
  {
    match b case 0x06 => Some(Deref) case 0x19 => Some(Abs) case 0x1f => Some(Neg) case 0x20 => Some(Not) case _ => None
  }

  /** Constants of fixed width: opcodes 0x08 to 0x0f, unsigned and signed in turn. */
  function ConstWidth(b: Byte): (n: nat)
  {
    if b < 0x0a then 1 else if b < 0x0c then 2 else if b < 0x0e then 4 else 8
  }

  function SignExtend(v: nat, width: nat): (r: int)
  {
    if v >= Pow2(8 * width) / 2 then v - Pow2(8 * width) else v
  }

  // ---------- one step ----------

  function Push(m: Machine, v: U64): Machine { m.(stack := m.stack + [v]) }

  function Top(m: Machine, depth: nat): (r: Result<U64>)
  {
    if depth < |m.stack| then Ok(m.stack[|m.stack| - 1 - depth]) else Err(Undefined)
  }

  /** The stack without its n top entries. */
  function Dropped(m: Machine, n: nat): (r: Machine)
    requires n <= |m.stack|
  {
    m.(stack := m.stack[..|m.stack| - n])
  }

  /** Takes the location described so far. */
  function TakeLocation(m: Machine): (r: (Location, Machine))
  {
    if m.stack == [] then
      (if m.recent.Some? then m.recent.value else EmptyResult, m.(recent := None))
    else if m.isAddress then (AddressResult(m.stack[|m.stack| - 1]), Dropped(m, 1))
    else (LiteralResult(m.stack[|m.stack| - 1]), Dropped(m, 1).(isAddress := true))
  }

  /** The instruction whose opcode `b` was read just before `pos`: the machine and position after it. */
  function Execute(env: Env, data: seq<Byte>, b: Byte, pos: nat, m: Machine): (r: Result<(Machine, nat)>)
    requires pos <= |data|
    ensures r.Ok? ==> pos <= r.value.1 <= |data|
  {
    if 0x30 <= b <= 0x4f then Ok((Push(m, b - 0x30), pos))
    else if 0x70 <= b <= 0x8f then
      var reg :- ReadRegister(env, b - 0x70);
      var offset :- Sleb(data, pos);
      Ok((Push(m, Wrap64(reg + offset.0)), offset.1))
    else if 0x50 <= b <= 0x6f then
      if env.inFrameInfo then
        var reg :- ReadRegister(env, b - 0x50);
        Ok((Push(m, reg), pos))
      else Ok((m.(recent := Some(RegisterResult(b - 0x50))), pos))
    else if BinaryOf(b).Some? then
      var rhs :- Top(m, 0);
      var lhs :- Top(m, 1);
      var v :- ApplyBinary(BinaryOf(b).value, lhs, rhs);
      Ok((Push(Dropped(m, 2), v), pos))
    else if UnaryOf(b).Some? then
      var a :- Top(m, 0);
      var v :- ApplyUnary(env.mem, UnaryOf(b).value, a);
      Ok((Push(Dropped(m, 1), v), pos))
    else if b <= 0x11 || b == 0x23 || b == 0x92 || b == 0x91 || b == 0x9c then ExecuteConstant(env, data, b, pos, m)
    else if 0x12 <= b <= 0x17 || b == 0x94 then ExecuteStack(env, data, b, pos, m)
    else ExecuteOther(env, data, b, pos, m)
  }

  function ExecuteConstant(env: Env, data: seq<Byte>, b: Byte, pos: nat, m: Machine): (r: Result<(Machine, nat)>)
    requires pos <= |data|
    ensures r.Ok? ==> pos <= r.value.1 <= |data|
  {
    if b == 0x03 then
      var a :- Fixed(data, pos, 8);
      assert Pow2(8 * 8) == TWO64 by { Pow2Large(); }
      Ok((Push(m, ToVirtual(env, a.0)), a.1))
    else if 0x08 <= b <= 0x0f then
      var v :- Fixed(data, pos, ConstWidth(b));
      Ok((Push(m, Wrap64(if b % 2 == 0 then v.0 else SignExtend(v.0, ConstWidth(b)))), v.1))
    else if b == 0x10 then
      var v :- Uleb(data, pos);
      Ok((Push(m, v.0), v.1))
    else if b == 0x11 then
      var v :- Sleb(data, pos);
      Ok((Push(m, Wrap64(v.0)), v.1))
    else if b == 0x23 then
      var k :- Uleb(data, pos);
      var a :- Top(m, 0);
      Ok((Push(Dropped(m, 1), Wrap64(a + k.0)), k.1))
    else if b == 0x92 then
      var n :- Uleb(data, pos);
      var reg :- ReadRegister(env, n.0);
      var offset :- Sleb(data, n.1);
      Ok((Push(m, Wrap64(reg + offset.0)), offset.1))
    else if b == 0x91 then
      var offset :- Sleb(data, pos);
      if env.frameBase.None? then Err(MissingKey)
      else Ok((Push(m, Wrap64(env.frameBase.value + offset.0)), offset.1))
    else if b == 0x9c then Ok((Push(m, env.cfa), pos))
    else Ok((m, pos))
  }

  function ExecuteStack(env: Env, data: seq<Byte>, b: Byte, pos: nat, m: Machine): (r: Result<(Machine, nat)>)
    requires pos <= |data|
    ensures r.Ok? ==> pos <= r.value.1 <= |data|
  {
    if b == 0x12 then
      var a :- Top(m, 0);
      Ok((Push(m, a), pos))
    else if b == 0x13 then
      var a :- Top(m, 0);
      Ok((Dropped(m, 1), pos))
    else if b == 0x14 then
      var a :- Top(m, 1);
      Ok((Push(m, a), pos))
    else if b == 0x15 then
      var i :- Fixed(data, pos, 1);
      var a :- Top(m, i.0);
      Ok((Push(m, a), i.1))
    else if b == 0x16 then
      var a :- Top(m, 0);
      var c :- Top(m, 1);
      Ok((Push(Push(Dropped(m, 2), a), c), pos))
    else if b == 0x17 then
      var a :- Top(m, 0);
      var c :- Top(m, 1);
      var d :- Top(m, 2);
      Ok((Push(Push(Push(Dropped(m, 3), a), d), c), pos))
    else
      var a :- Top(m, 0);
      var n :- Fixed(data, pos, 1);
      var v :- ReadWord(env.mem, a, n.0);
      Ok((Push(Dropped(m, 1), v), n.1))
  }

  /** A jump adds a signed 16-bit offset as an unsigned size, so only forward jumps stay in bounds. */
  function Jump(data: seq<Byte>, pos: nat): (r: Result<nat>)
    ensures r.Ok? ==> pos < r.value <= |data|
  {
    var v :- Fixed(data, pos, 2);
    var offset := SignExtend(v.0, 2);
    if offset < 0 then Err(Truncated) else Skip(data, v.1, offset)
  }

  function ExecuteOther(env: Env, data: seq<Byte>, b: Byte, pos: nat, m: Machine): (r: Result<(Machine, nat)>)
    requires pos <= |data|
    ensures r.Ok? ==> pos <= r.value.1 <= |data|
  {
    if b in {0x18, 0x95, 0x97, 0x98, 0x99, 0x9a, 0x9b} then Err(UnexpectedOpcode)
    else if b == 0x2f then
      var next :- Jump(data, pos);
      Ok((m, next))
    else if b == 0x28 then
      var a :- Top(m, 0);
      if a != 0 then
        var next :- Jump(data, pos);
        Ok((Dropped(m, 1), next))
      else Ok((Dropped(m, 1), pos))
    else if b == 0x90 then
      var n :- Uleb(data, pos);
      if env.inFrameInfo then
        var reg :- ReadRegister(env, n.0);
        Ok((Push(m, reg), n.1))
      else Ok((m.(recent := Some(RegisterResult(n.0))), n.1))
    else if b == 0x9e then
      var n :- Uleb(data, pos);
      Ok((m.(recent := Some(DataResult(n.1, n.0))), n.1))
    else if b == 0x9f then Ok((m.(isAddress := false), pos))
    else if b == 0x93 then
      var n :- Uleb(data, pos);
      var (loc, m') := TakeLocation(m);
      Ok((m'.(pieces := m'.pieces + [Piece(loc, Wrap64(n.0 * 8), 0)]), n.1))
    else if b == 0x9d then
      var n :- Uleb(data, pos);
      var offset :- Uleb(data, n.1);
      var (loc, m') := TakeLocation(m);
      Ok((m'.(pieces := m'.pieces + [Piece(loc, n.0, offset.0)]), offset.1))
    else Ok((m, pos))
  }

  // ---------- where the standard is not followed ----------

  /** The target of a jump by section 2.5.1.5 of DWARF 4: a signed two-byte offset from behind the operand, to anywhere
      in the expression. */
  function StandardJump(data: seq<Byte>, pos: nat): (r: Result<nat>)
    ensures r.Ok? ==> r.value <= |data|
  {
    var v :- Fixed(data, pos, 2);
    var target := v.1 + SignExtend(v.0, 2);
    if 0 <= target <= |data| then Ok(target) else Err(Truncated)
  }

  /** DW_OP_skip by that section. */
  function StandardSkip(data: seq<Byte>, pos: nat, m: Machine): Result<(Machine, nat)>
  {
    var next :- StandardJump(data, pos);
    Ok((m, next))
  }

  /** DW_OP_bra by that section: the operand is consumed whether or not the branch is taken. */
  function StandardBranch(data: seq<Byte>, pos: nat, m: Machine): Result<(Machine, nat)>
  {
    var a :- Top(m, 0);
    if a != 0 then
      var next :- StandardJump(data, pos);
      Ok((Dropped(m, 1), next))
    else
      var operand :- Fixed(data, pos, 2);
      Ok((Dropped(m, 1), operand.1))
  }

  /** DW_OP_implicit_value by section 2.6.1.1.4: evaluation goes on behind the value's bytes. */
  function StandardImplicitValue(data: seq<Byte>, pos: nat, m: Machine): Result<(Machine, nat)>
  {
    var n :- Uleb(data, pos);
    var next :- Skip(data, n.1, n.0);
    Ok((m.(recent := Some(DataResult(n.1, n.0))), next))
  }

  /** The operand at `pos` jumps back, to a place inside the expression. */
  predicate JumpsBack(data: seq<Byte>, pos: nat)
  {
    pos + 2 <= |data| && var offset := SignExtend(Cursors.Le(data[pos..pos + 2]), 2); offset < 0 <= pos + 2 + offset
  }

  lemma JumpAgreesIff(data: seq<Byte>, pos: nat)
    ensures Jump(data, pos) == StandardJump(data, pos) <==> !JumpsBack(data, pos)
  {
    hide Cursors.Le, SignExtend;
  }

  /** The evaluator follows the standard: on a skip exactly when it does not jump back; on a branch exactly when the
      stack is empty, or it is taken and does not jump back; on an implicit value exactly when its length is malformed
      or zero. */
  lemma FollowsStandardIff(env: Env, data: seq<Byte>, pos: nat, m: Machine)
    requires pos <= |data|
    ensures ExecuteOther(env, data, 0x2f, pos, m) == StandardSkip(data, pos, m) <==> !JumpsBack(data, pos)
    ensures ExecuteOther(env, data, 0x28, pos, m) == StandardBranch(data, pos, m) <==>
              (Top(m, 0).Err? || (Top(m, 0).value != 0 && !JumpsBack(data, pos)))
    ensures ExecuteOther(env, data, 0x9e, pos, m) == StandardImplicitValue(data, pos, m) <==>
              (Uleb(data, pos).Err? || Uleb(data, pos).value.0 == 0)
  {
    hide Uleb, Jump, StandardJump, JumpsBack;
    JumpAgreesIff(data, pos);
  }

  /** Two inputs where jumping back is legal and fails. */
  lemma BackwardJumpsFail(env: Env, m: Machine)
    requires m.stack == [1]
    ensures var branch := [0x31, 0x28, 0xfd, 0xff];
            && ExecuteOther(env, branch, 0x28, 2, m) == Err(Truncated)
            && StandardBranch(branch, 2, m) == Ok((m.(stack := []), 1))
    ensures var skip := [0x96, 0x2f, 0xfc, 0xff];
            ExecuteOther(env, skip, 0x2f, 2, m) == Err(Truncated) && StandardSkip(skip, 2, m) == Ok((m, 0))
  {
    hide Cursors.Le, Uleb;
    var branch, skip := [0x31, 0x28, 0xfd, 0xff], [0x96, 0x2f, 0xfc, 0xff];
    assert branch[2..4] == [0xfd, 0xff] && skip[2..4] == [0xfc, 0xff];
    TwoBytes(0xfd, 0xff);
    TwoBytes(0xfc, 0xff);
    assert SignExtend(0xfffd, 2) == -3 && SignExtend(0xfffc, 2) == -4;
    assert m.stack[..0] == [];
  }

  /** A branch that is not taken goes on inside its operand. */
  lemma UntakenBranchStays(env: Env, m: Machine)
    requires m.stack == [0]
    ensures var code := [0x28, 0x02, 0x00];
            && ExecuteOther(env, code, 0x28, 1, m) == Ok((m.(stack := []), 1))
            && StandardBranch(code, 1, m) == Ok((m.(stack := []), 3))
  {
    hide Cursors.Le, Uleb;
    assert m.stack[..0] == [];
  }

  /** An implicit value goes on inside its bytes. */
  lemma ImplicitValueStays(env: Env, m: Machine)
    ensures var code := [0x9e, 0x01, 0x2a];
            && ExecuteOther(env, code, 0x9e, 1, m) == Ok((m.(recent := Some(DataResult(2, 1))), 2))
            && StandardImplicitValue(code, 1, m) == Ok((m.(recent := Some(DataResult(2, 1))), 3))
  {
    hide Cursors.Le, Uleb;
    OneByteUleb([0x9e, 0x01, 0x2a], 1);
  }

  lemma TwoBytes(a: Byte, b: Byte)
    ensures Cursors.Le([a, b]) == a + 256 * b && Pow2(8 * 2) == 0x1_0000
  {
    assert [a, b][1..] == [b] && [b][1..] == [];
    Pow2Large();
  }

  lemma OneByteUleb(data: seq<Byte>, pos: nat)
    requires pos < |data| && data[pos] < 128
    ensures Uleb(data, pos) == Ok((data[pos], pos + 1))
  {
    assert Size(data, pos, 10) == Ok(1);
    assert data[pos..pos + 1] == [data[pos]];
    assert Magnitude([data[pos]]) == data[pos] % 128 + 128 * Magnitude([]);
    WrapSmall(data[pos]);
  }

  // ---------- whole evaluations ----------

  function Run(env: Env, data: seq<Byte>, pos: nat, m: Machine): (r: Result<Machine>)
    requires pos <= |data|
    decreases |data| - pos
  {
    if pos == |data| then Ok(m)
    else
      var step :- Execute(env, data, data[pos], pos + 1, m);
      Run(env, data, step.1, step.0)
  }

  function Start(env: Env, pushCfa: bool): Machine
  {
    Machine(if pushCfa then [env.cfa] else [], None, [], true)
  }

  function Finish(m: Machine): Outcome
  {
    if m.pieces != [] then Pieces(m.pieces) else Simple(TakeLocation(m).0)
  }

  /** An empty expression: the canonical frame address if the evaluation starts with it, and no location otherwise. */
  lemma EmptyExpression(env: Env)
    ensures Run(env, [], 0, Start(env, true)).Ok? && Run(env, [], 0, Start(env, false)).Ok?
    ensures Finish(Run(env, [], 0, Start(env, true)).value) == Simple(AddressResult(env.cfa))
    ensures Finish(Run(env, [], 0, Start(env, false)).value) == Simple(EmptyResult)
  {}

  /** Exactly seven operations are refused: address spaces, object addresses, thread storage and calls. */
  lemma RefusedOpcodes(env: Env, data: seq<Byte>, b: Byte, pos: nat, m: Machine)
    requires pos <= |data|
    ensures Unexpected(Execute(env, data, b, pos, m)) <==> b in {0x18, 0x95, 0x97, 0x98, 0x99, 0x9a, 0x9b}
  {
    hide ExecuteConstant, ExecuteStack, ExecuteOther, ApplyBinary, ApplyUnary, Sleb;
    OperandErrors(data);
    OperatorErrors(env.mem);
    ConstantErrors(env, data, b, pos, m);
    StackErrors(env, data, b, pos, m);
    OtherErrors(env, data, b, pos, m);
  }

  ghost predicate Unexpected<T>(r: Result<T>) { r.Err? && r.error == UnexpectedOpcode }

  lemma {:induction false} SizeErrors(data: seq<Byte>, pos: nat, budget: nat)
    ensures !Unexpected(Size(data, pos, budget))
    decreases budget
  {
    if budget > 0 { SizeErrors(data, pos + 1, budget - 1); }
  }

  lemma OperandErrors(data: seq<Byte>)
    ensures forall p: nat :: !Unexpected(Uleb(data, p)) && !Unexpected(Sleb(data, p))
    ensures forall p: nat, n: nat :: !Unexpected(Fixed(data, p, n))
  {
    hide Size;
    forall p: nat
      ensures !Unexpected(Uleb(data, p)) && !Unexpected(Sleb(data, p))
    {
      SizeErrors(data, p, 10);
    }
  }

  lemma OperatorErrors(mem: map<nat, Byte>)
    ensures forall op, a, b :: !Unexpected(ApplyBinary(op, a, b))
    ensures forall op, a :: !Unexpected(ApplyUnary(mem, op, a))
    ensures forall a: nat, n: nat :: !Unexpected(ReadWord(mem, a, n))
  {
    hide And, Or, Xor, Quotient, Pow2, Cursors.Le;
  }

  lemma ConstantErrors(env: Env, data: seq<Byte>, b: Byte, pos: nat, m: Machine)
    requires pos <= |data|
    ensures !Unexpected(ExecuteConstant(env, data, b, pos, m))
  {
    hide Uleb, Sleb, Fixed, ToVirtual;
    OperandErrors(data);
  }

  lemma StackErrors(env: Env, data: seq<Byte>, b: Byte, pos: nat, m: Machine)
    requires pos <= |data|
    ensures !Unexpected(ExecuteStack(env, data, b, pos, m))
  {
    hide Fixed, ReadWord;
    OperandErrors(data);
    OperatorErrors(env.mem);
  }

  lemma OtherErrors(env: Env, data: seq<Byte>, b: Byte, pos: nat, m: Machine)
    requires pos <= |data|
    ensures Unexpected(ExecuteOther(env, data, b, pos, m)) <==> b in {0x18, 0x95, 0x97, 0x98, 0x99, 0x9a, 0x9b}
  {
    hide Uleb, Fixed, SignExtend, TakeLocation;
    OperandErrors(data);
  }

  /** The evaluation loop.  Every iteration consumes a byte, so there are at most |data| of them. */
  method Eval(env: Env, data: seq<Byte>, pushCfa: bool) returns (r: Result<Outcome>, steps: nat)
    ensures var run := Run(env, data, 0, Start(env, pushCfa));
            r == if run.Ok? then Ok(Finish(run.value)) else Err(run.error)
    ensures steps <= |data|
  {
    hide Execute;
    var m, pos := Start(env, pushCfa), 0;
    steps := 0;
    while pos < |data|
      invariant steps <= pos <= |data|
      invariant Run(env, data, 0, Start(env, pushCfa)) == Run(env, data, pos, m)
    {
      var step := Execute(env, data, data[pos], pos + 1, m);
      steps := steps + 1;
      if step.Err? { return Err(step.error), steps; }
      m, pos := step.value.0, step.value.1;
    }
    r := Ok(Finish(m));
  }

  // ---------- expression trees ----------

  datatype Constant = U1 | S1 | U2 | S2 | U4 | S4 | U8 | S8

  datatype Expr =
    | Lit(n: nat)
    | Const(kind: Constant, value: int)
    | Constu(u: U64)
    | Consts(s: I64)
    | Breg(reg: nat, offset: I64)
    | Bregx(regx: U64, offsetx: I64)
    | FrameCfa
    | Fbreg(offsetf: I64)
    | Addr(address: U64)
    | Unary(uop: UnaryOp, arg: Expr)
    | DerefSize(size: Byte, word: Expr)
    | PlusConst(base: Expr, addend: U64)
    | Binary(bop: BinaryOp, lhs: Expr, rhs: Expr)

  function ConstOpcode(k: Constant): (b: Byte)
  {
    match k
    case U1 => 0x08 case S1 => 0x09 case U2 => 0x0a case S2 => 0x0b
    case U4 => 0x0c case S4 => 0x0d case U8 => 0x0e case S8 => 0x0f
  }

  function ConstBytes(k: Constant): nat
  {
    match k case U1 => 1 case S1 => 1 case U2 => 2 case S2 => 2 case U4 => 4 case S4 => 4 case U8 => 8 case S8 => 8
  }

  predicate IsSigned(k: Constant) { k == S1 || k == S2 || k == S4 || k == S8 }

  /** Operands are in the range of their opcode. */
  predicate Encodable(e: Expr)
  {
    match e
    case Lit(n) => n < 32
    case Const(k, v) =>
      var full := Pow2(8 * ConstBytes(k));
      if IsSigned(k) then -full <= 2 * v < full else 0 <= v < full
    case Breg(r, _) => r < 32
    case Unary(_, a) => Encodable(a)
    case DerefSize(_, a) => Encodable(a)
    case PlusConst(a, _) => Encodable(a)
    case Binary(_, a, b) => Encodable(a) && Encodable(b)
    case _ => true
  }

  /** What the tree evaluates to: arithmetic modulo 2^64. */
  function Value(env: Env, e: Expr): (r: Result<U64>)
  {
    match e
    case Lit(n) => Ok(Wrap64(n))
    case Const(_, v) => Ok(Wrap64(v))
    case Constu(u) => Ok(u)
    case Consts(s) => Ok(Wrap64(s))
    case Breg(r, offset) =>
      var reg :- ReadRegister(env, r);
      Ok(Wrap64(reg + offset))
    case Bregx(r, offset) =>
      var reg :- ReadRegister(env, r);
      Ok(Wrap64(reg + offset))
    case FrameCfa => Ok(env.cfa)
    case Fbreg(offset) => if env.frameBase.None? then Err(MissingKey) else Ok(Wrap64(env.frameBase.value + offset))
    case Addr(a) => Ok(ToVirtual(env, a))
    case Unary(op, a) =>
      var v :- Value(env, a);
      ApplyUnary(env.mem, op, v)
    case DerefSize(n, a) =>
      var v :- Value(env, a);
      ReadWord(env.mem, v, n)
    case PlusConst(a, k) =>
      var v :- Value(env, a);
      Ok(Wrap64(v + k))
    case Binary(op, a, b) =>
      var x :- Value(env, a);
      var y :- Value(env, b);
      ApplyBinary(op, x, y)
  }

  /** Postfix code (section 2.5.1 of DWARF 4). */
  function Compile(e: Expr): (bs: seq<Byte>)
    requires Encodable(e)
    ensures |bs| > 0
  {
    match e
    case Lit(n) => [0x30 + n]
    case Const(k, v) =>
      var n := ConstBytes(k);
      [ConstOpcode(k)] + EncodeLe(if v < 0 then v + Pow2(8 * n) else v, n)
    case Constu(u) => [0x10] + EncodeUleb(u)
    case Consts(s) => [0x11] + EncodeSleb(s)
    case Breg(r, offset) => [0x70 + r] + EncodeSleb(offset)
    case Bregx(r, offset) => [0x92] + (EncodeUleb(r) + EncodeSleb(offset))
    case FrameCfa => [0x9c]
    case Fbreg(offset) => [0x91] + EncodeSleb(offset)
    case Addr(a) => [0x03] + EncodeLe(a, 8)
    case Unary(op, a) => Compile(a) + [UnaryOpcode(op)]
    case DerefSize(n, a) => Compile(a) + [0x94, n]
    case PlusConst(a, k) => Compile(a) + ([0x23] + EncodeUleb(k))
    case Binary(op, a, b) => Compile(a) + (Compile(b) + [BinaryOpcode(op)])
  }

  // ---------- compiled trees run to their value ----------

  /** Running from `pos` amounts to pushing the value and running on from `next`; or to the error. */
  ghost predicate Yields(env: Env, data: seq<Byte>, pos: nat, m: Machine, v: Result<U64>, next: nat)
    requires pos <= |data| && next <= |data|
  {
    match v
    case Ok(x) => Run(env, data, pos, m) == Run(env, data, next, Push(m, x))
    case Err(e) => Run(env, data, pos, m) == Err(e)
  }

  lemma RunOne(env: Env, data: seq<Byte>, pos: nat, m: Machine)
    requires pos < |data|
    ensures var step := Execute(env, data, data[pos], pos + 1, m);
            Run(env, data, pos, m) == if step.Ok? then Run(env, data, step.value.1, step.value.0) else Err(step.error)
  {
    hide Execute;
  }

  lemma PopOne(m: Machine, x: U64)
    ensures Top(Push(m, x), 0) == Ok(x) && Dropped(Push(m, x), 1) == m
  {
    assert (m.stack + [x])[..|m.stack|] == m.stack;
  }

  lemma PopTwo(m: Machine, x: U64, y: U64)
    ensures var p := Push(Push(m, x), y); Top(p, 0) == Ok(y) && Top(p, 1) == Ok(x) && Dropped(p, 2) == m
  {
    assert (m.stack + [x] + [y])[..|m.stack|] == m.stack;
  }

  lemma ConstRuns(env: Env, data: seq<Byte>, pos: nat, e: Expr, m: Machine)
    requires e.Const? && Encodable(e) && At(data, pos, Compile(e))
    ensures Yields(env, data, pos, m, Value(env, e), pos + |Compile(e)|)
  {
    hide Run, At, Pow2, EncodeLe, Fixed;
    var op := ConstOpcode(e.kind);
    var n := ConstWidth(op);
    var full := Pow2(8 * n);
    var raw := if e.value < 0 then e.value + full else e.value;
    ByteAt(data, pos, op, EncodeLe(raw, n));
    FixedAt(data, pos + 1, raw, n);
    HalfPower(n);
    RunOne(env, data, pos, m);
    assert BinaryOf(op).None? && UnaryOf(op).None?;
    assert Execute(env, data, op, pos + 1, m) == ExecuteConstant(env, data, op, pos + 1, m);
  }

  lemma HalfPower(n: nat)
    requires n > 0
    ensures Pow2(8 * n) % 2 == 0
  {
    hide Pow2;
    DoublePower(8 * n - 1);
    TwiceIsEven(Pow2(8 * n - 1));
  }

  lemma DoublePower(k: nat)
    ensures Pow2(k + 1) == 2 * Pow2(k)
  {}

  lemma TwiceIsEven(h: nat)
    ensures (2 * h) % 2 == 0
  {}

  lemma LeafRuns(env: Env, data: seq<Byte>, pos: nat, e: Expr, m: Machine)
    requires e.Lit? || e.Constu? || e.Consts? || e.Breg? || e.Bregx? || e.FrameCfa? || e.Fbreg? || e.Addr?
    requires Encodable(e) && At(data, pos, Compile(e))
    ensures Yields(env, data, pos, m, Value(env, e), pos + |Compile(e)|)
  {
    hide Run, At, Uleb, Sleb, EncodeUleb, EncodeSleb, ExecuteStack, ExecuteOther, ApplyBinary, ApplyUnary;
    match e {
      case Breg(_, _) => RegisterLeafRuns(env, data, pos, e, m);
      case Bregx(_, _) => RegisterLeafRuns(env, data, pos, e, m);
      case FrameCfa => RegisterLeafRuns(env, data, pos, e, m);
      case Fbreg(_) => PlaceLeafRuns(env, data, pos, e, m);
      case Addr(_) => PlaceLeafRuns(env, data, pos, e, m);
      case _ => ConstantLeafRuns(env, data, pos, e, m);
    }
  }

  lemma ConstantLeafRuns(env: Env, data: seq<Byte>, pos: nat, e: Expr, m: Machine)
    requires e.Lit? || e.Constu? || e.Consts?
    requires Encodable(e) && At(data, pos, Compile(e))
    ensures Yields(env, data, pos, m, Value(env, e), pos + |Compile(e)|)
  {
    hide Run, At, Uleb, Sleb, EncodeUleb, EncodeSleb, ExecuteStack, ExecuteOther, ApplyBinary, ApplyUnary;
    match e {
      case Lit(n) =>
        assert [0x30 + n] + [] == [0x30 + n];
        ByteAt(data, pos, 0x30 + n, []);
      case Constu(u) =>
        ByteAt(data, pos, 0x10, EncodeUleb(u));
        UlebAt(data, pos + 1, u);
      case Consts(v) =>
        ByteAt(data, pos, 0x11, EncodeSleb(v));
        SlebAt(data, pos + 1, v);
    }
    RunOne(env, data, pos, m);
  }

  lemma RegisterLeafRuns(env: Env, data: seq<Byte>, pos: nat, e: Expr, m: Machine)
    requires e.Breg? || e.Bregx? || e.FrameCfa?
    requires Encodable(e) && At(data, pos, Compile(e))
    ensures Yields(env, data, pos, m, Value(env, e), pos + |Compile(e)|)
  {
    hide Run, At, Uleb, Sleb, EncodeUleb, EncodeSleb, ExecuteStack, ExecuteOther, ApplyBinary, ApplyUnary;
    match e {
      case Breg(r, offset) =>
        ByteAt(data, pos, 0x70 + r, EncodeSleb(offset));
        SlebAt(data, pos + 1, offset);
      case Bregx(r, offset) =>
        ByteAt(data, pos, 0x92, EncodeUleb(r) + EncodeSleb(offset));
        AtSplit(data, pos + 1, EncodeUleb(r), EncodeSleb(offset));
        UlebAt(data, pos + 1, r);
        SlebAt(data, pos + 1 + |EncodeUleb(r)|, offset);
      case FrameCfa =>
        assert [0x9c] + [] == [0x9c];
        ByteAt(data, pos, 0x9c, []);
    }
    RunOne(env, data, pos, m);
  }

  lemma PlaceLeafRuns(env: Env, data: seq<Byte>, pos: nat, e: Expr, m: Machine)
    requires e.Fbreg? || e.Addr?
    requires At(data, pos, Compile(e))
    ensures Yields(env, data, pos, m, Value(env, e), pos + |Compile(e)|)
  {
    hide Run, At, Sleb, EncodeSleb, EncodeLe, Fixed, ExecuteStack, ExecuteOther, ApplyBinary, ApplyUnary, ToVirtual;
    hide Pow2;
    if e.Fbreg? {
      ByteAt(data, pos, 0x91, EncodeSleb(e.offsetf));
      SlebAt(data, pos + 1, e.offsetf);
    } else {
      ByteAt(data, pos, 0x03, EncodeLe(e.address, 8));
      assert Pow2(8 * 8) == TWO64 by { Pow2Large(); }
      FixedAt(data, pos + 1, e.address, 8);
    }
    RunOne(env, data, pos, m);
  }

  /** The opcode after two computed operands applies its operator to them, in order. */
  lemma BinaryRuns(env: Env, data: seq<Byte>, pos: nat, op: BinaryOp, x: U64, y: U64, m: Machine)
    requires At(data, pos, [BinaryOpcode(op)])
    ensures Yields2(env, data, pos, Push(Push(m, x), y), m, ApplyBinary(op, x, y))
  {
    hide Run, At, ApplyBinary, Push, Top, Dropped;
    var b := BinaryOpcode(op);
    assert [b] + [] == [b];
    ByteAt(data, pos, b, []);
    assert BinaryOf(b) == Some(op);
    PopTwo(m, x, y);
    RunOne(env, data, pos, Push(Push(m, x), y));
  }

  lemma UnaryRuns(env: Env, data: seq<Byte>, pos: nat, op: UnaryOp, x: U64, m: Machine)
    requires At(data, pos, [UnaryOpcode(op)])
    ensures Yields2(env, data, pos, Push(m, x), m, ApplyUnary(env.mem, op, x))
  {
    hide Run, At, ApplyUnary, Push, Top, Dropped;
    var b := UnaryOpcode(op);
    assert [b] + [] == [b];
    ByteAt(data, pos, b, []);
    assert BinaryOf(b).None? && UnaryOf(b) == Some(op);
    PopOne(m, x);
    RunOne(env, data, pos, Push(m, x));
  }

  lemma DerefSizeRuns(env: Env, data: seq<Byte>, pos: nat, n: Byte, x: U64, m: Machine)
    requires At(data, pos, [0x94, n])
    ensures pos + 2 <= |data|
    ensures match ReadWord(env.mem, x, n)
            case Ok(v) => Run(env, data, pos, Push(m, x)) == Run(env, data, pos + 2, Push(m, v))
            case Err(e) => Run(env, data, pos, Push(m, x)) == Err(e)
  {
    hide Run, Push, Top, Dropped, ReadWord, Cursors.Le;
    assert data[pos..pos + 2] == [0x94, n];
    assert data[pos] == 0x94 && data[pos + 1..pos + 2] == [n];
    assert Cursors.Le([n]) == n by { OneByteLe(n); }
    PopOne(m, x);
    RunOne(env, data, pos, Push(m, x));
  }

  lemma OneByteLe(n: Byte)
    ensures Cursors.Le([n]) == n
  {
    assert [n][1..] == [];
  }

  lemma PlusConstRuns(env: Env, data: seq<Byte>, pos: nat, k: U64, x: U64, m: Machine)
    requires At(data, pos, [0x23] + EncodeUleb(k))
    ensures Run(env, data, pos, Push(m, x)) == Run(env, data, pos + |[0x23] + EncodeUleb(k)|, Push(m, Wrap64(x + k)))
  {
    hide Run, At, Push, Top, Dropped, Uleb, EncodeUleb;
    ByteAt(data, pos, 0x23, EncodeUleb(k));
    UlebAt(data, pos + 1, k);
    PopOne(m, x);
    RunOne(env, data, pos, Push(m, x));
  }

  /** From `before`, the one-byte operator leaves its value above `base`. */
  ghost predicate Yields2(env: Env, data: seq<Byte>, pos: nat, before: Machine, base: Machine, v: Result<U64>)
    requires pos < |data|
  {
    match v
    case Ok(x) => Run(env, data, pos, before) == Run(env, data, pos + 1, Push(base, x))
    case Err(e) => Run(env, data, pos, before) == Err(e)
  }

  /** Every tree's code pushes the tree's value, or fails as the tree does. */
  lemma {:induction false} TreeRuns(env: Env, data: seq<Byte>, pos: nat, e: Expr, m: Machine)
    requires Encodable(e) && At(data, pos, Compile(e))
    ensures Yields(env, data, pos, m, Value(env, e), pos + |Compile(e)|)
    decreases e
  {
    hide Run, At, Push, EncodeUleb, EncodeSleb, ApplyBinary, ApplyUnary, BinaryOpcode, UnaryOpcode, ReadWord;
    match e {
      case Const(_, _) => ConstRuns(env, data, pos, e, m);
      case Unary(op, a) =>
        var next := pos + |Compile(a)|;
        AtSplit(data, pos, Compile(a), [UnaryOpcode(op)]);
        TreeRuns(env, data, pos, a, m);
        if Value(env, a).Ok? { UnaryRuns(env, data, next, op, Value(env, a).value, m); }
      case DerefSize(n, a) =>
        AtSplit(data, pos, Compile(a), [0x94, n]);
        TreeRuns(env, data, pos, a, m);
        if Value(env, a).Ok? { DerefSizeRuns(env, data, pos + |Compile(a)|, n, Value(env, a).value, m); }
      case PlusConst(a, k) =>
        var next := pos + |Compile(a)|;
        AtSplit(data, pos, Compile(a), [0x23] + EncodeUleb(k));
        TreeRuns(env, data, pos, a, m);
        if Value(env, a).Ok? { PlusConstRuns(env, data, next, k, Value(env, a).value, m); }
      case Binary(op, a, b) =>
        var mid := pos + |Compile(a)|;
        AtSplit(data, pos, Compile(a), Compile(b) + [BinaryOpcode(op)]);
        AtSplit(data, mid, Compile(b), [BinaryOpcode(op)]);
        TreeRuns(env, data, pos, a, m);
        if Value(env, a).Ok? {
          var x := Value(env, a).value;
          TreeRuns(env, data, mid, b, Push(m, x));
          if Value(env, b).Ok? { BinaryRuns(env, data, mid + |Compile(b)|, op, x, Value(env, b).value, m); }
        }
      case _ => LeafRuns(env, data, pos, e, m);
    }
  }

  // ---------- what a tree denotes, by the laws of its operators ----------

  /** The tree's value by the standard: leaves are congruent to what they name modulo 2^64, operators follow their laws,
      and an operand that fails makes the whole fail. */
  ghost predicate Denotes(env: Env, e: Expr, r: Result<U64>)
  {
    match e
    case Lit(n) => r == Ok(n)
    case Const(_, v) => Sums(r, v)
    case Constu(u) => r == Ok(u)
    case Consts(s) => Sums(r, s)
    case Breg(n, offset) => if n in env.regs then Sums(r, env.regs[n] + offset) else r == Err(MissingKey)
    case Bregx(n, offset) => if n in env.regs then Sums(r, env.regs[n] + offset) else r == Err(MissingKey)
    case FrameCfa => r == Ok(env.cfa)
    case Fbreg(offset) => if env.frameBase.Some? then Sums(r, env.frameBase.value + offset) else r == Err(MissingKey)
    case Addr(a) => if InImage(env, a) then Sums(r, a + env.loadBias) else r == Ok(0)
    case Unary(op, a) => exists x: Result<U64> :: Denotes(env, a, x) && UnaryFrom(env.mem, op, x, r)
    case DerefSize(n, a) => exists x: Result<U64> :: Denotes(env, a, x) && WordFrom(env.mem, n, x, r)
    case PlusConst(a, k) => exists x: Result<U64> :: Denotes(env, a, x) && SumFrom(x, k, r)
    case Binary(op, a, b) =>
      exists x: Result<U64>, y: Result<U64> :: Denotes(env, a, x) && Denotes(env, b, y) && BinaryFrom(op, x, y, r)
  }

  ghost predicate UnaryFrom(mem: map<nat, Byte>, op: UnaryOp, x: Result<U64>, r: Result<U64>)
  {
    if x.Ok? then UnaryLaw(mem, op, x.value, r) else r == x
  }

  ghost predicate WordFrom(mem: map<nat, Byte>, n: Byte, x: Result<U64>, r: Result<U64>)
  {
    if x.Ok? then WordLaw(mem, x.value, n, r) else r == x
  }

  ghost predicate SumFrom(x: Result<U64>, k: U64, r: Result<U64>)
  {
    if x.Ok? then Sums(r, x.value + k) else r == x
  }

  /** The left operand is computed first. */
  ghost predicate BinaryFrom(op: BinaryOp, x: Result<U64>, y: Result<U64>, r: Result<U64>)
  {
    if x.Err? then r == x else if y.Err? then r == y else BinaryLaw(op, x.value, y.value, r)
  }

  predicate Sums(r: Result<U64>, x: int) { r.Ok? && Congruent(r.value, x) }

  predicate InImage(env: Env, a: U64) { exists i :: 0 <= i < |env.sections| && InSection(env.sections[i], a) }

  predicate InSection(s: Section, a: U64) { s.start <= a < s.start + s.size }

  lemma SumsOnce(x: int, r: Result<U64>)
    ensures Sums(r, x) <==> r == Ok(Wrap64(x))
  {
    if Sums(r, x) {
      WrapCongruent(x);
      CongruentOnce(r.value, Wrap64(x), 0, x);
    }
  }

  lemma UnaryFromIff(mem: map<nat, Byte>, op: UnaryOp, x: Result<U64>, r: Result<U64>)
    ensures UnaryFrom(mem, op, x, r) <==> r == if x.Ok? then ApplyUnary(mem, op, x.value) else x
  {
    hide UnaryLaw, ApplyUnary;
    if x.Ok? {
      UnaryObeys(mem, op, x.value);
      if UnaryLaw(mem, op, x.value, r) { UnaryOnce(mem, op, x.value, r, ApplyUnary(mem, op, x.value)); }
    }
  }

  lemma WordFromIff(mem: map<nat, Byte>, n: Byte, x: Result<U64>, r: Result<U64>)
    ensures WordFrom(mem, n, x, r) <==> r == if x.Ok? then ReadWord(mem, x.value, n) else x
  {
    hide WordLaw, ReadWord;
    if x.Ok? {
      WordObeys(mem, x.value, n);
      if WordLaw(mem, x.value, n, r) { WordOnce(mem, x.value, n, r, ReadWord(mem, x.value, n)); }
    }
  }

  lemma BinaryFromIff(op: BinaryOp, x: Result<U64>, y: Result<U64>, r: Result<U64>)
    ensures BinaryFrom(op, x, y, r) <==>
              r == if x.Err? then x else if y.Err? then y else ApplyBinary(op, x.value, y.value)
  {
    hide BinaryLaw, ApplyBinary;
    if x.Ok? && y.Ok? {
      BinaryObeys(op, x.value, y.value);
      if BinaryLaw(op, x.value, y.value, r) { BinaryOnce(op, x.value, y.value, r, ApplyBinary(op, x.value, y.value)); }
    }
  }

  /** A tree denotes one result: the one it evaluates to. */
  lemma {:induction false} DenotesIff(env: Env, e: Expr, r: Result<U64>)
    requires Encodable(e)
    ensures Denotes(env, e, r) <==> r == Value(env, e)
    decreases e, 0
  {
    hide Sums, UnaryFrom, WordFrom, SumFrom, BinaryFrom, ApplyBinary, ApplyUnary, ReadWord, Pow2, Wrap64;
    match e {
      case Unary(op, a) =>
        OperandDenotes(env, a);
        UnaryFromIff(env.mem, op, Value(env, a), r);
      case DerefSize(n, a) =>
        OperandDenotes(env, a);
        WordFromIff(env.mem, n, Value(env, a), r);
      case PlusConst(a, k) =>
        OperandDenotes(env, a);
        SumFromIff(Value(env, a), k, r);
      case Binary(op, a, b) =>
        OperandDenotes(env, a);
        OperandDenotes(env, b);
        BinaryFromIff(op, Value(env, a), Value(env, b), r);
      case _ => LeafDenotesIff(env, e, r);
    }
  }

  lemma SumFromIff(x: Result<U64>, k: U64, r: Result<U64>)
    ensures SumFrom(x, k, r) <==> r == if x.Ok? then Ok(Wrap64(x.value + k)) else x
  {
    hide Sums, Wrap64;
    if x.Ok? { SumsOnce(x.value + k, r); }
  }

  lemma {:induction false} OperandDenotes(env: Env, a: Expr)
    requires Encodable(a)
    ensures forall x :: Denotes(env, a, x) <==> x == Value(env, a)
    decreases a, 1
  {
    hide Denotes, Value;
    forall x
      ensures Denotes(env, a, x) <==> x == Value(env, a)
    {
      DenotesIff(env, a, x);
    }
  }

  lemma LeafDenotesIff(env: Env, e: Expr, r: Result<U64>)
    requires Encodable(e)
    requires !e.Unary? && !e.DerefSize? && !e.PlusConst? && !e.Binary?
    ensures Denotes(env, e, r) <==> r == Value(env, e)
  {
    hide Sums, Pow2, Wrap64;
    match e {
      case Lit(n) => WrapSmall(n);
      case Const(_, v) => SumsOnce(v, r);
      case Consts(v) => SumsOnce(v, r);
      case Breg(n, offset) => if n in env.regs { SumsOnce(env.regs[n] + offset, r); }
      case Bregx(n, offset) => if n in env.regs { SumsOnce(env.regs[n] + offset, r); }
      case Fbreg(offset) => if env.frameBase.Some? { SumsOnce(env.frameBase.value + offset, r); }
      case Addr(a) =>
        SumsOnce(a + env.loadBias, r);
        ImageIs(env, a);
      case _ =>
    }
  }

  lemma ImageIs(env: Env, a: U64)
    ensures ToVirtual(env, a) == if InImage(env, a) then Wrap64(a + env.loadBias) else 0
  {
    if InImage(env, a) {
      var i :| 0 <= i < |env.sections| && InSection(env.sections[i], a);
      assert env.sections[i] in env.sections;
    }
  }

  /** Every tree's code pushes exactly what the tree denotes above an untouched stack, or fails as the tree does. */
  lemma CompiledTreeRuns(env: Env, data: seq<Byte>, pos: nat, e: Expr, m: Machine, v: Result<U64>)
    requires Encodable(e) && At(data, pos, Compile(e)) && Denotes(env, e, v)
    ensures Yields(env, data, pos, m, v, pos + |Compile(e)|)
  {
    hide Run, At, Compile, Denotes, Value;
    DenotesIff(env, e, v);
    TreeRuns(env, data, pos, e, m);
  }

  /** Evaluating a compiled tree gives what the tree denotes as an address; with a stack_value opcode, as a literal. */
  lemma CompiledTreeResult(env: Env, e: Expr, pushCfa: bool, value: Result<U64>)
    requires Encodable(e) && Denotes(env, e, value)
    ensures var run := Run(env, Compile(e), 0, Start(env, pushCfa));
            match value
            case Ok(v) => run == Ok(Push(Start(env, pushCfa), v)) && Finish(run.value) == Simple(AddressResult(v))
            case Err(x) => run == Err(x)
    ensures var run := Run(env, Compile(e) + [0x9f], 0, Start(env, pushCfa));
            match value
            case Ok(v) => run.Ok? && Finish(run.value) == Simple(LiteralResult(v))
            case Err(x) => run == Err(x)
  {
    hide Compile, Denotes, Run, Execute, Push, Finish;
    var code, m := Compile(e), Start(env, pushCfa);
    var marked := code + [0x9f];
    assert At(code, 0, code);
    CompiledTreeRuns(env, code, 0, e, m, value);
    AtSplit(marked, 0, code, [0x9f]);
    CompiledTreeRuns(env, marked, 0, e, m, value);
    if value.Ok? {
      var v := value.value;
      RunEnds(env, code, Push(m, v));
      RunStackValue(env, marked, |code|, Push(m, v));
      FinishTop(m, v);
    }
  }

  lemma RunEnds(env: Env, data: seq<Byte>, m: Machine)
    ensures Run(env, data, |data|, m) == Ok(m)
  {}

  /** A final stack_value opcode only marks the result. */
  lemma RunStackValue(env: Env, data: seq<Byte>, pos: nat, m: Machine)
    requires pos + 1 == |data| && data[pos] == 0x9f
    ensures Run(env, data, pos, m) == Ok(m.(isAddress := false))
  {
    hide Run;
    RunOne(env, data, pos, m);
    RunEnds(env, data, m.(isAddress := false));
  }

  lemma FinishTop(m: Machine, v: U64)
    requires m.pieces == [] && m.recent.None? && m.isAddress
    ensures Finish(Push(m, v)) == Simple(AddressResult(v))
    ensures Finish(Push(m, v).(isAddress := false)) == Simple(LiteralResult(v))
  {}
}
