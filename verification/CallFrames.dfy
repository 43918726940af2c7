/** Call-frame information: the instruction interpreter that stops at the pc, and the table it avoids building. */
module CallFrames {
  import opened Results
  import opened Bits
  import opened Search
  import opened Leb128
  import opened Cursors

  /** Alignment factors and pointer encoding of a CIE, with the addresses encoded pointers can be
      relative to: that of the first instruction byte, the text section, .got.plt and the function. */
  datatype Env = Env(
    codeAlign: U64, dataAlign: I64, pointerEncoding: Byte,
    bytesAddress: U64, textStart: U64, pltStart: U64, functionStart: U64)

  datatype Rule =
    | UndefinedRule | SameRule | OffsetRule(offset: I64) | ValOffsetRule(offset: I64) | RegisterRule(reg: U32)
    | ExprRule(start: nat, length: U64) | ValExprRule(start: nat, length: U64)

  datatype CfaRule = CfaRegister(reg: U32, offset: I64) | CfaExpr(start: nat, length: U64)

  type RuleSet = map<U32, Rule>

  datatype Context = Context(
    location: U64, cfa: CfaRule, rules: RuleSet, cieRules: RuleSet, stack: seq<(RuleSet, CfaRule)>)

  datatype Instr =
    | Nop
    | SetLoc(target: U64)
    | AdvanceLoc(delta: U64)
    | DefCfa(rule: CfaRule)
    | DefCfaRegister(reg: U32)
    | DefCfaOffset(offset: I64)
    | SetRule(reg: U32, what: Rule)
    | Restore(reg: U32)
    | RememberState
    | RestoreState

  // ---------- meaning ----------

  /** std::unordered_map::emplace: the first rule of a register stays. */
  function Emplace(rules: RuleSet, reg: U32, rule: Rule): (r: RuleSet)
  {
    if reg in rules then rules else rules[reg := rule]
  }

  predicate MovesLocation(i: Instr) { i.SetLoc? || i.AdvanceLoc? }

  function Exec(i: Instr, c: Context): (r: Result<Context>)
  {
    match i
    case Nop => Ok(c)
    case SetLoc(a) => Ok(c.(location := a))
    case AdvanceLoc(d) => Ok(c.(location := Wrap64(c.location + d)))
    case DefCfa(rule) => Ok(c.(cfa := rule))
    case DefCfaRegister(reg) => if c.cfa.CfaRegister? then Ok(c.(cfa := c.cfa.(reg := reg))) else Err(BadVariant)
    case DefCfaOffset(o) => if c.cfa.CfaRegister? then Ok(c.(cfa := c.cfa.(offset := o))) else Err(BadVariant)
    case SetRule(reg, rule) => Ok(c.(rules := Emplace(c.rules, reg, rule)))
    case Restore(reg) =>
      if reg in c.cieRules then Ok(c.(rules := Emplace(c.rules, reg, c.cieRules[reg]))) else Err(MissingKey)
    case RememberState => Ok(c.(stack := c.stack + [(c.rules, c.cfa)]))
    case RestoreState =>
      if c.stack == [] then Err(Undefined)
      else
        var top := c.stack[|c.stack| - 1];
        Ok(c.(rules := top.0, cfa := top.1, stack := c.stack[..|c.stack| - 1]))
  }

  // ---------- bytes ----------

  function FixedSigned(data: seq<Byte>, pos: nat, n: nat): (r: Result<(int, nat)>)
    ensures r.Ok? ==> r.value.1 == pos + n <= |data|
  {
    var v :- Fixed(data, pos, n);
    Ok((if 2 * v.0 >= Pow2(8 * n) then v.0 - Pow2(8 * n) else v.0, v.1))
  }

  /** An encoded pointer: the low four bits choose the format, the next three the base. */
  function EncodedPointer(env: Env, data: seq<Byte>, pos: nat): (r: Result<(U64, nat)>)
    ensures r.Ok? ==> pos <= r.value.1 && (pos <= |data| ==> r.value.1 <= |data|)
  {
    var base :- PointerBase(env, pos);
    var v :- PointerValue(env.pointerEncoding % 16, data, pos);
    Ok((Wrap64(base + v.0), v.1))
  }

  function PointerBase(env: Env, pos: nat): (r: Result<int>)
  {
    match (env.pointerEncoding / 16) % 8
    case 0 => Ok(0)
    case 1 => Ok(env.bytesAddress + pos)
    case 2 => Ok(env.textStart)
    case 3 => Ok(env.pltStart)
    case 4 => Ok(env.functionStart)
    case _ => Err(BadPointerEncoding)
  }

  function PointerValue(format: int, data: seq<Byte>, pos: nat): (r: Result<(int, nat)>)
    ensures r.Ok? ==> pos <= r.value.1 && (pos <= |data| ==> r.value.1 <= |data|)
  {
    match format
    case 0 => var v :- Fixed(data, pos, 8); Ok((v.0, v.1))
    case 1 => var v :- Uleb(data, pos); Ok((v.0, v.1))
    case 2 => var v :- Fixed(data, pos, 2); Ok((v.0, v.1))
    case 3 => var v :- Fixed(data, pos, 4); Ok((v.0, v.1))
    case 4 => var v :- Fixed(data, pos, 8); Ok((v.0, v.1))
    case 9 => var v :- Sleb(data, pos); Ok((v.0, v.1))
    case 10 => FixedSigned(data, pos, 2)
    case 11 => FixedSigned(data, pos, 4)
    case 12 => FixedSigned(data, pos, 8)
    case _ => Err(BadPointerEncoding)
  }

  function Scaled(env: Env, x: int): I64 { Signed64(x * env.dataAlign) }

  /** Reading the instruction at `pos`.  Expression bodies are not skipped, as in the source. */
  function Decode(env: Env, data: seq<Byte>, pos: nat): (r: Result<(Instr, nat)>)
    ensures r.Ok? ==> pos < r.value.1 <= |data|
  {
    if pos >= |data| then Err(Truncated)
    else
      var low := data[pos] % 64;
      if data[pos] < 0x40 then DecodeExtended(env, data, low, pos + 1)
      else if data[pos] < 0x80 then Ok((AdvanceLoc(Wrap64(low * env.codeAlign)), pos + 1))
      else if data[pos] < 0xc0 then
        var o :- Uleb(data, pos + 1);
        Ok((SetRule(low, OffsetRule(Scaled(env, Signed64(o.0)))), o.1))
      else Ok((Restore(low), pos + 1))
  }

  function DecodeExtended(env: Env, data: seq<Byte>, op: Byte, pos: nat): (r: Result<(Instr, nat)>)
    requires pos <= |data|
    ensures r.Ok? ==> pos <= r.value.1 <= |data|
  {
    if op == 0x01 then
      var a :- EncodedPointer(env, data, pos);
      Ok((SetLoc(a.0), a.1))
    else if 0x02 <= op <= 0x04 then
      var d :- Fixed(data, pos, if op == 0x02 then 1 else if op == 0x03 then 2 else 4);
      Ok((AdvanceLoc(Wrap64(d.0 * env.codeAlign)), d.1))
    else if op == 0x0a then Ok((RememberState, pos))
    else if op == 0x0b then Ok((RestoreState, pos))
    else if 0x05 <= op <= 0x09 || op == 0x10 || op == 0x11 || 0x14 <= op <= 0x16 then DecodeRule(env, data, op, pos)
    else if 0x0c <= op <= 0x0f || op == 0x12 || op == 0x13 then DecodeCfa(env, data, op, pos)
    else Ok((Nop, pos))
  }

  /** Instructions that name a register first. */
  function DecodeRule(env: Env, data: seq<Byte>, op: Byte, pos: nat): (r: Result<(Instr, nat)>)
    requires pos <= |data|
    ensures r.Ok? ==> pos <= r.value.1 <= |data|
  {
    var n :- Uleb(data, pos);
    var reg := Wrap32(n.0);
    if op == 0x06 then Ok((Restore(reg), n.1))
    else if op == 0x07 then Ok((SetRule(reg, UndefinedRule), n.1))
    else if op == 0x08 then Ok((SetRule(reg, SameRule), n.1))
    else if op == 0x11 || op == 0x15 then
      var o :- Sleb(data, n.1);
      var scaled := Scaled(env, o.0);
      Ok((SetRule(reg, if op == 0x11 then OffsetRule(scaled) else ValOffsetRule(scaled)), o.1))
    else
      var o :- Uleb(data, n.1);
      var scaled := Scaled(env, Signed64(o.0));
      var rule := if op == 0x05 then OffsetRule(scaled) else if op == 0x14 then ValOffsetRule(scaled)
                  else if op == 0x09 then RegisterRule(Wrap32(o.0))
                  else if op == 0x10 then ExprRule(o.1, o.0) else ValExprRule(o.1, o.0);
      Ok((SetRule(reg, rule), o.1))
  }

  function DecodeCfa(env: Env, data: seq<Byte>, op: Byte, pos: nat): (r: Result<(Instr, nat)>)
    requires pos <= |data|
    ensures r.Ok? ==> pos <= r.value.1 <= |data|
  {
    if op == 0x13 then
      var o :- Sleb(data, pos);
      Ok((DefCfaOffset(Scaled(env, o.0)), o.1))
    else
      var n :- Uleb(data, pos);
      if op == 0x0c then
        var o :- Uleb(data, n.1);
        Ok((DefCfa(CfaRegister(Wrap32(n.0), Wrap32(o.0))), o.1))
      else if op == 0x12 then
        var o :- Sleb(data, n.1);
        Ok((DefCfa(CfaRegister(Wrap32(n.0), Scaled(env, o.0))), o.1))
      else if op == 0x0d then Ok((DefCfaRegister(Wrap32(n.0)), n.1))
      else if op == 0x0e then Ok((DefCfaOffset(Signed64(n.0)), n.1))
      else Ok((DefCfa(CfaExpr(n.1, n.0)), n.1))
  }

  // ---------- runs ----------

  function Step(env: Env, data: seq<Byte>, pos: nat, c: Context): (r: Result<(Context, nat)>)
    ensures r.Ok? ==> pos < r.value.1 <= |data|
  {
    var d :- Decode(env, data, pos);
    var c' :- Exec(d.0, c);
    Ok((c', d.1))
  }

  /** Every instruction, as for a CIE. */
  function RunAll(env: Env, data: seq<Byte>, pos: nat, c: Context): (r: Result<Context>)
    decreases |data| - pos
  {
    if pos >= |data| then Ok(c)
    else
      var step :- Step(env, data, pos, c);
      RunAll(env, data, step.1, step.0)
  }

  /** The early stop: no further instruction once the location has passed the pc. */
  function RunUntil(env: Env, data: seq<Byte>, pos: nat, c: Context, pc: U64): (r: Result<Context>)
    decreases |data| - pos
  {
    if pos >= |data| || c.location > pc then Ok(c)
    else
      var step :- Step(env, data, pos, c);
      RunUntil(env, data, step.1, step.0, pc)
  }

  /** A row of the unwind table (section 6.4.1 of DWARF 4). */
  datatype TableRow = TableRow(location: U64, cfa: CfaRule, rules: RuleSet)

  function RowOf(c: Context): TableRow { TableRow(c.location, c.cfa, c.rules) }

  /** The whole table: each change of location closes a row. */
  function Table(env: Env, data: seq<Byte>, pos: nat, c: Context): (r: Result<seq<TableRow>>)
    ensures r.Ok? ==> r.value != [] && r.value[0].location == c.location
    decreases |data| - pos
  {
    if pos >= |data| then Ok([RowOf(c)])
    else
      var d :- Decode(env, data, pos);
      var c' :- Exec(d.0, c);
      var rest :- Table(env, data, d.1, c');
      if MovesLocation(d.0) then Ok([RowOf(c)] + rest) else Ok(rest)
  }

  ghost predicate Ascending(t: seq<TableRow>)
  {
    forall i, j :: 0 <= i <= j < |t| ==> t[i].location <= t[j].location
  }

  function LocationOf(row: TableRow): int { row.location }

  /** The last row at or below the pc. */
  function RowAt(t: seq<TableRow>, pc: U64): (r: TableRow)
    requires t != [] && t[0].location <= pc
  {
    assert LocationOf(t[0]) <= pc;
    t[LastAtOrBelow(t, LocationOf, pc).value]
  }

  lemma RowAtNext(row: TableRow, rest: seq<TableRow>, pc: U64)
    requires row.location <= pc && Ascending([row] + rest)
    ensures Ascending(rest)
    ensures RowAt([row] + rest, pc) == if rest != [] && rest[0].location <= pc then RowAt(rest, pc) else row
  {
    hide LastAtOrBelow;
    var t := [row] + rest;
    assert forall i :: 0 <= i < |rest| ==> rest[i] == t[i + 1];
    if rest != [] && rest[0].location <= pc {
      assert LocationOf(rest[0]) <= pc;
      LastInTail([row], rest, LocationOf, pc);
    } else {
      assert forall i :: 1 <= i < |t| ==> t[1].location <= t[i].location;
      LastUnique(t, LocationOf, pc, 0);
    }
  }

  /** Stopping early leaves the rules of the last row at or below the pc in the full table. */
  lemma {:induction false} EarlyStopRefinesTable(env: Env, data: seq<Byte>, pos: nat, c: Context, pc: U64)
    requires c.location <= pc
    requires Table(env, data, pos, c).Ok? && Ascending(Table(env, data, pos, c).value)
    ensures RunUntil(env, data, pos, c, pc).Ok?
    ensures var stopped, row := RunUntil(env, data, pos, c, pc).value, RowAt(Table(env, data, pos, c).value, pc);
            stopped.cfa == row.cfa && stopped.rules == row.rules
    decreases |data| - pos
  {
    hide Decode, RowAt, Ascending;
    if pos >= |data| {
      assert [RowOf(c)] + [] == [RowOf(c)];
      RowAtNext(RowOf(c), [], pc);
    } else {
      var d := Decode(env, data, pos).value;
      var c' := Exec(d.0, c).value;
      var rest := Table(env, data, d.1, c').value;
      if MovesLocation(d.0) {
        RowAtNext(RowOf(c), rest, pc);
        if c'.location <= pc { EarlyStopRefinesTable(env, data, d.1, c', pc); }
      } else {
        EarlyStopRefinesTable(env, data, d.1, c', pc);
      }
    }
  }

  // ---------- remember and restore ----------

  function RunInstrs(prog: seq<Instr>, c: Context): (r: Result<Context>)
    decreases |prog|
  {
    if prog == [] then Ok(c)
    else
      var c' :- Exec(prog[0], c);
      RunInstrs(prog[1..], c')
  }

  /** Nesting depth after the program, if no restore_state reaches below the depth it started at. */
  function Depth(prog: seq<Instr>, d: nat): (r: Option<nat>)
    decreases |prog|
  {
    if prog == [] then Some(d)
    else match prog[0]
      case RememberState => Depth(prog[1..], d + 1)
      case RestoreState => if d == 0 then None else Depth(prog[1..], d - 1)
      case _ => Depth(prog[1..], d)
  }

  ghost predicate Balanced(prog: seq<Instr>) { Depth(prog, 0) == Some(0) }

  /** A program never touches the part of the stack below its own brackets. */
  lemma {:induction false} StackBelowUntouched(prog: seq<Instr>, c: Context, below: seq<(RuleSet, CfaRule)>, d: nat)
    requires |c.stack| == |below| + d && below <= c.stack
    requires Depth(prog, d).Some?
    ensures RunInstrs(prog, c).Ok? ==>
              var c' := RunInstrs(prog, c).value;
              |c'.stack| == |below| + Depth(prog, d).value && below <= c'.stack && c'.cieRules == c.cieRules
    decreases |prog|
  {
    if prog != [] && Exec(prog[0], c).Ok? {
      var c' := Exec(prog[0], c).value;
      var d' := if prog[0].RememberState? then d + 1 else if prog[0].RestoreState? then d - 1 else d;
      assert below <= c'.stack;
      StackBelowUntouched(prog[1..], c', below, d');
    }
  }

  lemma {:induction false} RunConcat(p: seq<Instr>, q: seq<Instr>, c: Context)
    ensures RunInstrs(p + q, c) == if RunInstrs(p, c).Ok? then RunInstrs(q, RunInstrs(p, c).value) else RunInstrs(p, c)
    decreases |p|
  {
    hide Exec;
    if p == [] {
      assert p + q == q;
    } else {
      assert (p + q)[1..] == p[1..] + q;
      if Exec(p[0], c).Ok? { RunConcat(p[1..], q, Exec(p[0], c).value); }
    }
  }

  /** The instructions a byte string stands for. */
  function Disassemble(env: Env, data: seq<Byte>, pos: nat): (r: Result<seq<Instr>>)
    decreases |data| - pos
  {
    if pos >= |data| then Ok([])
    else
      var d :- Decode(env, data, pos);
      var rest :- Disassemble(env, data, d.1);
      Ok([d.0] + rest)
  }

  /** Interpreting the bytes is interpreting their instructions. */
  lemma {:induction false} RunAllIsDisassembled(env: Env, data: seq<Byte>, pos: nat, c: Context)
    requires Disassemble(env, data, pos).Ok?
    ensures RunAll(env, data, pos, c) == RunInstrs(Disassemble(env, data, pos).value, c)
    decreases |data| - pos
  {
    hide Decode;
    if pos < |data| {
      var d := Decode(env, data, pos).value;
      var rest := Disassemble(env, data, d.1).value;
      assert ([d.0] + rest)[1..] == rest;
      if Exec(d.0, c).Ok? { RunAllIsDisassembled(env, data, d.1, Exec(d.0, c).value); }
    }
  }

  /** A bracketed program leaves rules, CFA rule and rule stack as they were; the location keeps its advance. */
  lemma BracketRestores(body: seq<Instr>, c: Context)
    requires Balanced(body)
    ensures var r := RunInstrs([RememberState] + body + [RestoreState], c);
            var inner := RunInstrs(body, c.(stack := c.stack + [(c.rules, c.cfa)]));
            && (r.Ok? <==> inner.Ok?)
            && (r.Ok? ==> r.value == c.(location := inner.value.location))
  {
    var saved := c.stack + [(c.rules, c.cfa)];
    var c1 := c.(stack := saved);
    var tail := body + [RestoreState];
    assert [RememberState] + body + [RestoreState] == [RememberState] + tail;
    RunConcat([RememberState], tail, c);
    assert RunInstrs([RememberState], c) == Ok(c1);
    RunConcat(body, [RestoreState], c1);
    StackBelowUntouched(body, c1, saved, 0);
    if RunInstrs(body, c1).Ok? {
      var c2 := RunInstrs(body, c1).value;
      assert c2.stack == saved && saved[..|saved| - 1] == c.stack;
      assert RunInstrs([RestoreState], c2) == Exec(RestoreState, c2);
    }
  }

  // ---------- what a program says, read off its text ----------

  /** The state of the rules at some point: what it started from and the instructions since, closed brackets left
      out. */
  datatype History = History(rules: RuleSet, cfa: CfaRule, since: seq<Instr>)

  /** The history after a program, and those that remember_state has put aside. */
  function Traced(prog: seq<Instr>, now: History, aside: seq<History>): Option<(History, seq<History>)>
    decreases |prog|
  {
    if prog == [] then Some((now, aside))
    else
      var (n, last) := (|prog| - 1, prog[|prog| - 1]);
      var before := Traced(prog[..n], now, aside);
      if before.None? then None
      else
        var (h, put) := before.value;
        match last
        case RememberState => Some((h, put + [h]))
        case RestoreState => if put == [] then None else Some((put[|put| - 1], put[..|put| - 1]))
        case _ => Some((h.(since := h.since + [last]), put))
  }

  function LastOf(prog: seq<Instr>, f: Instr -> bool): (r: Option<Instr>)
    ensures r.Some? ==> f(r.value)
    decreases |prog|
  {
    if prog == [] then None
    else if f(prog[|prog| - 1]) then Some(prog[|prog| - 1])
    else LastOf(prog[..|prog| - 1], f)
  }

  predicate DefinesCfa(i: Instr) { i.DefCfa? }
  predicate NamesCfaRegister(i: Instr) { i.DefCfa? || i.DefCfaRegister? }
  predicate NamesCfaOffset(i: Instr) { i.DefCfa? || i.DefCfaOffset? }
  predicate SetsLocation(i: Instr) { i.SetLoc? }

  /** The CFA rule defined last. */
  function CfaDefined(h: History): CfaRule
  {
    match LastOf(h.since, DefinesCfa)
    case Some(DefCfa(rule)) => rule
    case _ => h.cfa
  }

  /** The register named last, in a definition of the CFA rule or alone, and the offset named last: section 6.4.2.2. */
  function CfaSaid(h: History): CfaRule
  {
    var whole := CfaDefined(h);
    if whole.CfaExpr? then whole
    else
      var reg := match LastOf(h.since, NamesCfaRegister) case Some(DefCfaRegister(reg)) => reg case _ => whole.reg;
      var offset := match LastOf(h.since, NamesCfaOffset) case Some(DefCfaOffset(o)) => o case _ => whole.offset;
      CfaRegister(reg, offset)
  }

  /** A register's rule: the one it started with, or the first it is given. */
  function RuleSaid(h: History, reg: U32, cieRules: RuleSet): Option<Rule>
  {
    if reg in h.rules then Some(h.rules[reg]) else FirstGivenTo(h.since, reg, cieRules)
  }

  function FirstGivenTo(since: seq<Instr>, reg: U32, cieRules: RuleSet): Option<Rule>
    decreases |since|
  {
    if since == [] then None
    else
      var (n, last) := (|since| - 1, since[|since| - 1]);
      var before := FirstGivenTo(since[..n], reg, cieRules);
      if before.Some? then before
      else match last
        case SetRule(r, what) => if r == reg then Some(what) else None
        case Restore(r) => if r == reg && reg in cieRules then Some(cieRules[reg]) else None
        case _ => None
  }

  /** The target of the last set_loc, or where the program started. */
  function Landmark(prog: seq<Instr>, start: U64): U64
  {
    match LastOf(prog, SetsLocation)
    case Some(SetLoc(a)) => a
    case _ => start
  }

  /** The sum of the advances behind the last set_loc. */
  function Advanced(prog: seq<Instr>): nat
    decreases |prog|
  {
    if prog == [] then 0
    else
      match prog[|prog| - 1]
      case SetLoc(_) => 0
      case AdvanceLoc(d) => Advanced(prog[..|prog| - 1]) + d
      case _ => Advanced(prog[..|prog| - 1])
  }

  function LocationSaid(prog: seq<Instr>, start: U64): U64 { Wrap64(Landmark(prog, start) + Advanced(prog)) }

  /** Why an instruction fails: it changes a part of a CFA rule that is an expression, restores a rule the initial
      instructions do not give, or restores a state that was not remembered. */
  function Refused(i: Instr, h: History, put: seq<History>, cieRules: RuleSet): Option<Error>
  {
    match i
    case DefCfaRegister(_) => if CfaSaid(h).CfaExpr? then Some(BadVariant) else None
    case DefCfaOffset(_) => if CfaSaid(h).CfaExpr? then Some(BadVariant) else None
    case Restore(reg) => if reg in cieRules then None else Some(MissingKey)
    case RestoreState => if put == [] then Some(Undefined) else None
    case _ => None
  }

  /** The error of the first instruction that fails. */
  function FirstRefused(prog: seq<Instr>, now: History, aside: seq<History>, cieRules: RuleSet): Option<Error>
    decreases |prog|
  {
    if prog == [] then None
    else
      var (n, last) := (|prog| - 1, prog[|prog| - 1]);
      var before := FirstRefused(prog[..n], now, aside, cieRules);
      var t := Traced(prog[..n], now, aside);
      if before.Some? || t.None? then before else Refused(last, t.value.0, t.value.1, cieRules)
  }

  function Begin(c: Context): History { History(c.rules, c.cfa, []) }

  function Aside(c: Context): seq<History>
  {
    seq(|c.stack|, k requires 0 <= k < |c.stack| => History(c.stack[k].0, c.stack[k].1, []))
  }

  function Refusal(prog: seq<Instr>, c: Context): Option<Error>
  {
    FirstRefused(prog, Begin(c), Aside(c), c.cieRules)
  }

  /** Rules are those a history says. */
  ghost predicate RulesSaid(rules: RuleSet, cfa: CfaRule, h: History, cieRules: RuleSet)
  {
    && cfa == CfaSaid(h)
    && forall reg: U32 :: RuleSaid(h, reg, cieRules) == if reg in rules then Some(rules[reg]) else None
  }

  /** d is what the program makes of c, as far as its text says: that is all of it. */
  ghost predicate Says(prog: seq<Instr>, c: Context, d: Context)
  {
    && d.cieRules == c.cieRules && d.location == LocationSaid(prog, c.location)
    && var t := Traced(prog, Begin(c), Aside(c));
    && t.Some? && RulesSaid(d.rules, d.cfa, t.value.0, c.cieRules) && |d.stack| == |t.value.1|
    && forall k :: 0 <= k < |d.stack| ==> RulesSaid(d.stack[k].0, d.stack[k].1, t.value.1[k], c.cieRules)
  }

  lemma CfaAfter(h: History, i: Instr)
    ensures var said, after := CfaSaid(h), CfaSaid(h.(since := h.since + [i]));
            match i
            case DefCfa(rule) => after == rule
            case DefCfaRegister(reg) => said.CfaRegister? ==> after == CfaRegister(reg, said.offset)
            case DefCfaOffset(o) => said.CfaRegister? ==> after == CfaRegister(said.reg, o)
            case _ => after == said
  {
    assert (h.since + [i])[..|h.since|] == h.since;
  }

  lemma RuleAfter(h: History, i: Instr, reg: U32, cieRules: RuleSet)
    ensures var said, after := RuleSaid(h, reg, cieRules), RuleSaid(h.(since := h.since + [i]), reg, cieRules);
            if said.Some? then after == said
            else match i
              case SetRule(r, what) => after == if r == reg then Some(what) else None
              case Restore(r) => after == if r == reg && reg in cieRules then Some(cieRules[reg]) else None
              case _ => after == None
  {
    assert (h.since + [i])[..|h.since|] == h.since;
  }

  lemma LocationAfter(prog: seq<Instr>, i: Instr, start: U64)
    ensures var said, after := LocationSaid(prog, start), LocationSaid(prog + [i], start);
            match i
            case SetLoc(a) => after == a
            case AdvanceLoc(d) => after == Wrap64(said + d)
            case _ => after == said
  {
    assert (prog + [i])[..|prog|] == prog;
  }

  /** One instruction changes rules as its history says. */
  lemma RulesAfter(i: Instr, c: Context, h: History)
    requires RulesSaid(c.rules, c.cfa, h, c.cieRules) && Exec(i, c).Ok? && !i.RememberState? && !i.RestoreState?
    ensures var d := Exec(i, c).value;
            RulesSaid(d.rules, d.cfa, h.(since := h.since + [i]), c.cieRules)
  {
    hide CfaSaid, RuleSaid;
    CfaAfter(h, i);
    forall reg: U32
      ensures RuleSaid(h.(since := h.since + [i]), reg, c.cieRules)
           == var d := Exec(i, c).value; if reg in d.rules then Some(d.rules[reg]) else None
    {
      RuleAfter(h, i, reg, c.cieRules);
    }
  }

  lemma StartSays(c: Context)
    ensures Says([], c, c)
  {
    assert forall h: History :: h.since == [] ==> CfaSaid(h) == h.cfa;
  }

  /** The text decides one instruction further. */
  lemma TextDecidesNext(prog: seq<Instr>, i: Instr, c: Context, d: Context)
    requires Says(prog, c, d) && Refusal(prog, c) == None
    ensures match Refusal(prog + [i], c)
            case Some(e) => Exec(i, d) == Err(e)
            case None => Exec(i, d).Ok? && Says(prog + [i], c, Exec(i, d).value)
  {
    hide RulesSaid, LocationSaid, CfaSaid;
    assert (prog + [i])[..|prog|] == prog;
    var (h, put) := Traced(prog, Begin(c), Aside(c)).value;
    CfaOfSaid(d.rules, d.cfa, h, c.cieRules);
    LocationAfter(prog, i, c.location);
    if Exec(i, d).Ok? && !i.RememberState? && !i.RestoreState? { RulesAfter(i, d, h); }
  }

  lemma CfaOfSaid(rules: RuleSet, cfa: CfaRule, h: History, cieRules: RuleSet)
    requires RulesSaid(rules, cfa, h, cieRules)
    ensures cfa == CfaSaid(h)
  {}

  /** For every program: it fails with the error of the first instruction its text refuses, and otherwise ends with the
      location, the CFA rule, the register rules and the remembered states its text says. */
  lemma {:induction false} TextDecides(prog: seq<Instr>, c: Context)
    ensures match Refusal(prog, c)
            case Some(e) => RunInstrs(prog, c) == Err(e)
            case None => RunInstrs(prog, c).Ok? && Says(prog, c, RunInstrs(prog, c).value)
    decreases |prog|
  {
    hide Says, Exec, Refused;
    if prog == [] {
      StartSays(c);
    } else {
      var n := |prog| - 1;
      TextDecides(prog[..n], c);
      assert prog[..n] + [prog[n]] == prog;
      RunConcat(prog[..n], [prog[n]], c);
      if Refusal(prog[..n], c) == None {
        var d := RunInstrs(prog[..n], c).value;
        TextDecidesNext(prog[..n], prog[n], c, d);
        RunSingle(prog[n], d);
      }
    }
  }

  lemma RunSingle(i: Instr, d: Context)
    ensures RunInstrs([i], d) == Exec(i, d)
  {
    hide Exec;
    assert [i][1..] == [];
  }

  // ---------- an unwind's answer, read off the bytes' text ----------

  /** The instructions a byte string begins with, and why no more of them can be decoded, if that is so. */
  function Text(env: Env, data: seq<Byte>, pos: nat): (seq<Instr>, Option<Error>)
    decreases |data| - pos
  {
    if pos >= |data| then ([], None)
    else
      match Decode(env, data, pos)
      case Err(e) => ([], Some(e))
      case Ok((i, next)) => ([i] + Text(env, data, next).0, Text(env, data, next).1)
  }

  /** Running instructions, with what comes behind them. */
  function RunText(prog: seq<Instr>, fault: Option<Error>, c: Context): Result<Context>
  {
    var c' :- RunInstrs(prog, c);
    if fault.Some? then Err(fault.value) else Ok(c')
  }

  lemma {:induction false} RunAllIsText(env: Env, data: seq<Byte>, pos: nat, c: Context)
    ensures RunAll(env, data, pos, c) == RunText(Text(env, data, pos).0, Text(env, data, pos).1, c)
    decreases |data| - pos
  {
    hide Decode, Exec;
    if pos < |data| && Decode(env, data, pos).Ok? {
      var (i, next) := Decode(env, data, pos).value;
      assert ([i] + Text(env, data, next).0)[1..] == Text(env, data, next).0;
      if Exec(i, c).Ok? { RunAllIsText(env, data, next, Exec(i, c).value); }
    }
  }

  /** k instructions are executed: the location says so. */
  ghost predicate StopsAt(prog: seq<Instr>, start: U64, pc: U64, k: nat)
  {
    && k <= |prog| && (forall j :: 0 <= j < k ==> LocationSaid(prog[..j], start) <= pc)
    && (k < |prog| ==> LocationSaid(prog[..k], start) > pc)
  }

  lemma {:induction false} SomeStop(prog: seq<Instr>, start: U64, pc: U64) returns (k: nat)
    ensures StopsAt(prog, start, pc, k)
    decreases |prog|
  {
    hide LocationSaid;
    if prog == [] { return 0; }
    var n := |prog| - 1;
    k := SomeStop(prog[..n], start, pc);
    assert forall j :: 0 <= j <= n ==> prog[..n][..j] == prog[..j];
    if k == n && LocationSaid(prog[..n], start) <= pc { k := n + 1; }
  }

  lemma {:induction false} LocationSplit(i: Instr, rest: seq<Instr>, start: U64)
    ensures LocationSaid([i] + rest, start) == LocationSaid(rest, LocationSaid([i], start))
    decreases |rest|
  {
    if rest == [] {
      assert [i] + rest == [i];
      NoProgram(LocationSaid([i], start));
    } else {
      var (n, last) := (|rest| - 1, rest[|rest| - 1]);
      assert rest[..n] + [last] == rest && ([i] + rest[..n]) + [last] == [i] + rest;
      LocationSplit(i, rest[..n], start);
      LocationAfter([i] + rest[..n], last, start);
      LocationAfter(rest[..n], last, LocationSaid([i], start));
    }
  }

  lemma NoProgram(start: U64)
    ensures LocationSaid([], start) == start
  {}

  lemma OneMoves(i: Instr, c: Context)
    requires Exec(i, c).Ok?
    ensures Exec(i, c).value.location == LocationSaid([i], c.location)
  {
    assert [] + [i] == [i];
    LocationAfter([], i, c.location);
    NoProgram(c.location);
  }

  /** What the early stop answers: the result of the instructions executed, or the fault behind the last one. */
  function RunTo(prog: seq<Instr>, fault: Option<Error>, c: Context, pc: U64, k: nat): Result<Context>
    requires k <= |prog|
  {
    RunText(prog[..k], if k == |prog| && LocationSaid(prog, c.location) <= pc then fault else None, c)
  }

  lemma {:induction false} UntilIsText(env: Env, data: seq<Byte>, pos: nat, c: Context, pc: U64) returns (k: nat)
    ensures StopsAt(Text(env, data, pos).0, c.location, pc, k)
    ensures RunUntil(env, data, pos, c, pc) == RunTo(Text(env, data, pos).0, Text(env, data, pos).1, c, pc, k)
    decreases |data| - pos
  {
    hide Decode, Exec, LocationSaid;
    var (prog, fault) := Text(env, data, pos);
    NoProgram(c.location);
    assert prog[..0] == [];
    if pos >= |data| || c.location > pc || Decode(env, data, pos).Err? { return 0; }
    var (i, next) := Decode(env, data, pos).value;
    var rest := Text(env, data, next).0;
    assert prog == [i] + rest && prog[1..] == rest;
    if Exec(i, c).Err? {
      k := SomeStop(prog, c.location, pc);
      assert prog[..k][0] == i;
      return;
    }
    var c' := Exec(i, c).value;
    OneMoves(i, c);
    var k' := UntilIsText(env, data, next, c', pc);
    k := k' + 1;
    assert prog[..k][0] == i && prog[..k][1..] == rest[..k'];
    forall j | 1 <= j <= |prog|
      ensures LocationSaid(prog[..j], c.location) == LocationSaid(rest[..j - 1], c'.location)
    {
      assert prog[..j] == [i] + rest[..j - 1];
      LocationSplit(i, rest[..j - 1], c.location);
    }
    assert prog[..|prog|] == prog && rest[..|rest|] == rest;
  }

  /** The answer of a program executed as far as k says. */
  ghost predicate AnswerSaid(prog: seq<Instr>, fault: Option<Error>, c: Context, pc: U64, k: nat, r: Result<TableRow>)
  {
    && StopsAt(prog, c.location, pc, k)
    && match Refusal(prog[..k], c)
       case Some(e) => r == Err(e)
       case None =>
         if fault.Some? && k == |prog| && LocationSaid(prog, c.location) <= pc then r == Err(fault.value)
         else r.Ok? && RowSaid(prog[..k], c, r.value)
  }

  /** The row has the location, CFA rule and register rules that the program's text says. */
  ghost predicate RowSaid(prog: seq<Instr>, c: Context, row: TableRow)
  {
    && row.location == LocationSaid(prog, c.location)
    && var t := Traced(prog, Begin(c), Aside(c));
    && t.Some? && RulesSaid(row.rules, row.cfa, t.value.0, c.cieRules)
  }

  lemma UntilSaid(env: Env, data: seq<Byte>, c: Context, pc: U64, r: Result<TableRow>) returns (k: nat)
    requires var stopped := RunUntil(env, data, 0, c, pc);
             r == if stopped.Ok? then Ok(RowOf(stopped.value)) else Err(stopped.error)
    ensures AnswerSaid(Text(env, data, 0).0, Text(env, data, 0).1, c, pc, k, r)
  {
    hide Text, RunUntil, Refusal, LocationSaid, RunInstrs, RulesSaid, Traced;
    k := UntilIsText(env, data, 0, c, pc);
    TextDecides(Text(env, data, 0).0[..k], c);
  }

  /** The context of an unwind before any instruction. */
  const Blank := Context(0, CfaRegister(0, 0), map[], map[], [])

  /** An unwind's answer by the text alone: all initial instructions, then the function's up to the first that leaves
      the location behind the pc. */
  ghost predicate Unwound(env: Env, cieData: seq<Byte>, fdeData: seq<Byte>, initialLocation: U64, pc: U64,
                          r: Result<TableRow>)
  {
    var (cie, fde) := (Text(env, cieData, 0), Text(env, fdeData, 0));
    match Refusal(cie.0, Blank)
    case Some(e) => r == Err(e)
    case None =>
      if cie.1.Some? then r == Err(cie.1.value)
      else exists after: Context, k: nat ::
        && Says(cie.0, Blank, after)
        && AnswerSaid(fde.0, fde.1, Context(initialLocation, after.cfa, after.rules, after.rules, after.stack), pc, k,
                      r)
  }

  lemma UnwoundByRuns(env: Env, cieData: seq<Byte>, fdeData: seq<Byte>, initialLocation: U64, pc: U64,
                      r: Result<TableRow>)
    requires var cie := RunAll(env, cieData, 0, Blank);
             if cie.Err? then r == Err(cie.error)
             else
               var stopped := RunUntil(env, fdeData, 0, FdeStart(cie.value, initialLocation), pc);
               r == if stopped.Ok? then Ok(RowOf(stopped.value)) else Err(stopped.error)
    ensures Unwound(env, cieData, fdeData, initialLocation, pc, r)
  {
    hide Text, RunAll, RunUntil, Refusal, AnswerSaid, Says, RunInstrs;
    RunAllIsText(env, cieData, 0, Blank);
    TextDecides(Text(env, cieData, 0).0, Blank);
    var cie := RunAll(env, cieData, 0, Blank);
    if cie.Ok? { var k := UntilSaid(env, fdeData, FdeStart(cie.value, initialLocation), pc, r); }
  }

  // ---------- the interpreter as the source runs it ----------

  class UnwindContext {
    const env: Env
    var location: U64
    var cfa: CfaRule
    var rules: RuleSet
    var cieRules: RuleSet
    var stack: seq<(RuleSet, CfaRule)>

    ghost function Value(): Context
      reads this
    {
      Context(location, cfa, rules, cieRules, stack)
    }

    constructor (env: Env)
      ensures this.env == env && Value() == Context(0, CfaRegister(0, 0), map[], map[], [])
    {
      this.env := env;
      location, cfa, rules, cieRules, stack := 0, CfaRegister(0, 0), map[], map[], [];
    }

    /** One decoded instruction, by assignment to the fields. */
    method Apply(i: Instr) returns (r: Result<()>)
      modifies this
      ensures match Exec(i, old(Value()))
              case Ok(c) => r == Ok(()) && Value() == c
              case Err(e) => r == Err(e)
    {
      match i {
        case Nop =>
        case SetLoc(a) => location := a;
        case AdvanceLoc(d) => location := Wrap64(location + d);
        case DefCfa(rule) => cfa := rule;
        case DefCfaRegister(reg) =>
          if !cfa.CfaRegister? { return Err(BadVariant); }
          cfa := cfa.(reg := reg);
        case DefCfaOffset(o) =>
          if !cfa.CfaRegister? { return Err(BadVariant); }
          cfa := cfa.(offset := o);
        case SetRule(reg, rule) =>
          if reg !in rules { rules := rules[reg := rule]; }
        case Restore(reg) =>
          if reg !in cieRules { return Err(MissingKey); }
          if reg !in rules { rules := rules[reg := cieRules[reg]]; }
        case RememberState => stack := stack + [(rules, cfa)];
        case RestoreState =>
          if stack == [] { return Err(Undefined); }
          rules, cfa := stack[|stack| - 1].0, stack[|stack| - 1].1;
          stack := stack[..|stack| - 1];
      }
      r := Ok(());
    }

    method ExecuteInstruction(data: seq<Byte>, pos: nat) returns (r: Result<nat>)
      modifies this
      ensures match Step(env, data, pos, old(Value()))
              case Ok((c, next)) => r == Ok(next) && Value() == c
              case Err(e) => r == Err(e)
    {
      hide Decode, Exec;
      var d := Decode(env, data, pos);
      if d.Err? { return Err(d.error); }
      var done := Apply(d.value.0);
      if done.Err? { return Err(done.error); }
      r := Ok(d.value.1);
    }
  }

  /** What unwinding at `pc` starts the FDE's instructions from. */
  function FdeStart(afterCie: Context, initialLocation: U64): Context
  {
    afterCie.(cieRules := afterCie.rules, location := initialLocation)
  }

  /** The two loops of an unwind: all CIE instructions, then FDE instructions until the pc is passed. */
  method UnwindRules(env: Env, cieData: seq<Byte>, fdeData: seq<Byte>, initialLocation: U64, pc: U64)
    returns (r: Result<TableRow>)
    ensures var cie := RunAll(env, cieData, 0, Blank);
            if cie.Err? then r == Err(cie.error)
            else
              var stopped := RunUntil(env, fdeData, 0, FdeStart(cie.value, initialLocation), pc);
              r == if stopped.Ok? then Ok(RowOf(stopped.value)) else Err(stopped.error)
    ensures var cie := RunAll(env, cieData, 0, Blank);
            cie.Ok? && initialLocation <= pc ==>
            var table := Table(env, fdeData, 0, FdeStart(cie.value, initialLocation));
            table.Ok? && Ascending(table.value) ==>
              r.Ok? && r.value.cfa == RowAt(table.value, pc).cfa && r.value.rules == RowAt(table.value, pc).rules
    ensures Unwound(env, cieData, fdeData, initialLocation, pc, r)
  {
    hide Step, Table, Ascending, RowAt, Unwound;
    var ctx := new UnwindContext(env);
    ghost var c0 := ctx.Value();
    var pos := 0;
    while pos < |cieData|
      invariant fresh(ctx) && ctx.env == env
      invariant RunAll(env, cieData, 0, c0) == RunAll(env, cieData, pos, ctx.Value())
      decreases |cieData| - pos
    {
      var next := ctx.ExecuteInstruction(cieData, pos);
      if next.Err? {
        r := Err(next.error);
        UnwoundByRuns(env, cieData, fdeData, initialLocation, pc, r);
        return;
      }
      pos := next.value;
    }
    ctx.cieRules, ctx.location := ctx.rules, initialLocation;
    ghost var c1 := ctx.Value();
    if initialLocation <= pc && Table(env, fdeData, 0, c1).Ok? && Ascending(Table(env, fdeData, 0, c1).value) {
      EarlyStopRefinesTable(env, fdeData, 0, c1, pc);
    }
    pos := 0;
    while pos < |fdeData| && ctx.location <= pc
      invariant fresh(ctx) && ctx.env == env
      invariant RunUntil(env, fdeData, 0, c1, pc) == RunUntil(env, fdeData, pos, ctx.Value(), pc)
      decreases |fdeData| - pos
    {
      var next := ctx.ExecuteInstruction(fdeData, pos);
      if next.Err? {
        r := Err(next.error);
        UnwoundByRuns(env, cieData, fdeData, initialLocation, pc, r);
        return;
      }
      pos := next.value;
    }
    r := Ok(TableRow(ctx.location, ctx.cfa, ctx.rules));
    UnwoundByRuns(env, cieData, fdeData, initialLocation, pc, r);
  }
}
