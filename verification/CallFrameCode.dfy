/** Call frame instructions as section 7.23 of DWARF 4 encodes them: the partner of the decoder. */
module CallFrameCode {
  import opened Results
  import opened Bits
  import opened Leb128
  import opened Cursors
  import opened CallFrames

  /** The instructions of section 6.4.2 with their operands as written.  set_loc depends on a pointer encoding, and
      expressions have bodies the interpreter does not skip; neither is here. */
  datatype Code =
    | AdvanceLocShort(delta: nat)
    | OffsetShort(reg: U32, factored: U64)
    | RestoreShort(reg: U32)
    | AdvanceLoc1(delta: nat)
    | AdvanceLoc2(delta: nat)
    | AdvanceLoc4(delta: nat)
    | OffsetExtended(reg: U32, factored: U64)
    | RestoreExtended(reg: U32)
    | Undefine(reg: U32)
    | SameValue(reg: U32)
    | Register(reg: U32, from: U32)
    | Remember
    | Recall
    | DefCfaCode(reg: U32, distance: U32)
    | DefCfaRegisterCode(reg: U32)
    | DefCfaOffsetCode(offset: U64)
    | OffsetExtendedSf(reg: U32, signed: I64)
    | DefCfaSf(reg: U32, signed: I64)
    | DefCfaOffsetSf(signed: I64)
    | ValOffset(reg: U32, factored: U64)
    | ValOffsetSf(reg: U32, signed: I64)
    | NopCode

  /** The operands fit their fields. */
  predicate Encodable(c: Code)
  {
    match c
    case AdvanceLocShort(delta) => delta < 64
    case OffsetShort(reg, _) => reg < 64
    case RestoreShort(reg) => reg < 64
    case AdvanceLoc1(delta) => delta < Pow2(8 * 1)
    case AdvanceLoc2(delta) => delta < Pow2(8 * 2)
    case AdvanceLoc4(delta) => delta < Pow2(8 * 4)
    case _ => true
  }

  function Encode(c: Code): (bs: seq<Byte>)
    requires Encodable(c)
    ensures bs != []
  {
    match c
    case AdvanceLocShort(delta) => [0x40 + delta]
    case OffsetShort(reg, factored) => [0x80 + reg] + EncodeUleb(factored)
    case RestoreShort(reg) => [0xc0 + reg]
    case AdvanceLoc1(delta) => [0x02] + EncodeLe(delta, 1)
    case AdvanceLoc2(delta) => [0x03] + EncodeLe(delta, 2)
    case AdvanceLoc4(delta) => [0x04] + EncodeLe(delta, 4)
    case OffsetExtended(reg, factored) => [0x05] + (EncodeUleb(reg) + EncodeUleb(factored))
    case RestoreExtended(reg) => [0x06] + EncodeUleb(reg)
    case Undefine(reg) => [0x07] + EncodeUleb(reg)
    case SameValue(reg) => [0x08] + EncodeUleb(reg)
    case Register(reg, from) => [0x09] + (EncodeUleb(reg) + EncodeUleb(from))
    case Remember => [0x0a]
    case Recall => [0x0b]
    case DefCfaCode(reg, offset) => [0x0c] + (EncodeUleb(reg) + EncodeUleb(offset))
    case DefCfaRegisterCode(reg) => [0x0d] + EncodeUleb(reg)
    case DefCfaOffsetCode(offset) => [0x0e] + EncodeUleb(offset)
    case OffsetExtendedSf(reg, factored) => [0x11] + (EncodeUleb(reg) + EncodeSleb(factored))
    case DefCfaSf(reg, factored) => [0x12] + (EncodeUleb(reg) + EncodeSleb(factored))
    case DefCfaOffsetSf(factored) => [0x13] + EncodeSleb(factored)
    case ValOffset(reg, factored) => [0x14] + (EncodeUleb(reg) + EncodeUleb(factored))
    case ValOffsetSf(reg, factored) => [0x15] + (EncodeUleb(reg) + EncodeSleb(factored))
    case NopCode => [0x00]
  }

  /** A factored operand counts data alignment units. */
  function Factored(env: Env, x: int): I64 { Signed64(env.dataAlign * x) }

  lemma ScaledIs(env: Env, x: int)
    ensures Scaled(env, x) == Factored(env, x)
  {
    hide Signed64;
    assert x * env.dataAlign == env.dataAlign * x;
  }

  /** What the instruction asks for: factored operands are multiplied by the alignment factors. */
  function Meaning(env: Env, c: Code): Instr
  {
    match c
    case AdvanceLocShort(delta) => AdvanceLoc(Wrap64(delta * env.codeAlign))
    case OffsetShort(reg, factored) => SetRule(reg, OffsetRule(Factored(env, Signed64(factored))))
    case RestoreShort(reg) => Restore(reg)
    case AdvanceLoc1(delta) => AdvanceLoc(Wrap64(delta * env.codeAlign))
    case AdvanceLoc2(delta) => AdvanceLoc(Wrap64(delta * env.codeAlign))
    case AdvanceLoc4(delta) => AdvanceLoc(Wrap64(delta * env.codeAlign))
    case OffsetExtended(reg, factored) => SetRule(reg, OffsetRule(Factored(env, Signed64(factored))))
    case RestoreExtended(reg) => Restore(reg)
    case Undefine(reg) => SetRule(reg, UndefinedRule)
    case SameValue(reg) => SetRule(reg, SameRule)
    case Register(reg, from) => SetRule(reg, RegisterRule(from))
    case Remember => RememberState
    case Recall => RestoreState
    case DefCfaCode(reg, offset) => DefCfa(CfaRegister(reg, offset))
    case DefCfaRegisterCode(reg) => DefCfaRegister(reg)
    case DefCfaOffsetCode(offset) => DefCfaOffset(Signed64(offset))
    case OffsetExtendedSf(reg, factored) => SetRule(reg, OffsetRule(Factored(env, factored)))
    case DefCfaSf(reg, factored) => DefCfa(CfaRegister(reg, Factored(env, factored)))
    case DefCfaOffsetSf(factored) => DefCfaOffset(Factored(env, factored))
    case ValOffset(reg, factored) => SetRule(reg, ValOffsetRule(Factored(env, Signed64(factored))))
    case ValOffsetSf(reg, factored) => SetRule(reg, ValOffsetRule(Factored(env, factored)))
    case NopCode => Nop
  }

  // ---------- operands ----------

  lemma OneOperand(data: seq<Byte>, pos: nat, op: Byte, u: U64)
    requires At(data, pos, [op] + EncodeUleb(u))
    ensures pos < |data| && data[pos] == op && Uleb(data, pos + 1) == Ok((u, pos + 1 + |EncodeUleb(u)|))
    ensures pos + 1 + |EncodeUleb(u)| <= |data|
  {
    hide EncodeUleb, Uleb;
    ByteAt(data, pos, op, EncodeUleb(u));
    UlebAt(data, pos + 1, u);
  }

  lemma SignedOperand(data: seq<Byte>, pos: nat, op: Byte, s: I64)
    requires At(data, pos, [op] + EncodeSleb(s))
    ensures pos < |data| && data[pos] == op && Sleb(data, pos + 1) == Ok((s, pos + 1 + |EncodeSleb(s)|))
    ensures pos + 1 + |EncodeSleb(s)| <= |data|
  {
    hide EncodeSleb, Sleb;
    ByteAt(data, pos, op, EncodeSleb(s));
    SlebAt(data, pos + 1, s);
  }

  lemma TwoOperands(data: seq<Byte>, pos: nat, op: Byte, reg: U32, u: U64)
    requires At(data, pos, [op] + (EncodeUleb(reg) + EncodeUleb(u)))
    ensures pos < |data| && data[pos] == op
    ensures Uleb(data, pos + 1) == Ok((reg, pos + 1 + |EncodeUleb(reg)|))
    ensures var mid := pos + 1 + |EncodeUleb(reg)|;
            mid + |EncodeUleb(u)| <= |data| && Uleb(data, mid) == Ok((u, mid + |EncodeUleb(u)|))
  {
    hide EncodeUleb, Uleb;
    ByteAt(data, pos, op, EncodeUleb(reg) + EncodeUleb(u));
    AtSplit(data, pos + 1, EncodeUleb(reg), EncodeUleb(u));
    UlebAt(data, pos + 1, reg);
    UlebAt(data, pos + 1 + |EncodeUleb(reg)|, u);
  }

  lemma MixedOperands(data: seq<Byte>, pos: nat, op: Byte, reg: U32, s: I64)
    requires At(data, pos, [op] + (EncodeUleb(reg) + EncodeSleb(s)))
    ensures pos < |data| && data[pos] == op
    ensures Uleb(data, pos + 1) == Ok((reg, pos + 1 + |EncodeUleb(reg)|))
    ensures var mid := pos + 1 + |EncodeUleb(reg)|;
            mid + |EncodeSleb(s)| <= |data| && Sleb(data, mid) == Ok((s, mid + |EncodeSleb(s)|))
  {
    hide EncodeUleb, Uleb, EncodeSleb, Sleb;
    ByteAt(data, pos, op, EncodeUleb(reg) + EncodeSleb(s));
    AtSplit(data, pos + 1, EncodeUleb(reg), EncodeSleb(s));
    UlebAt(data, pos + 1, reg);
    SlebAt(data, pos + 1 + |EncodeUleb(reg)|, s);
  }

  // ---------- decoding undoes encoding ----------

  lemma ByteDecodes(env: Env, data: seq<Byte>, pos: nat, c: Code)
    requires Encodable(c) && At(data, pos, Encode(c))
    requires c.AdvanceLocShort? || c.RestoreShort? || c.Remember? || c.Recall? || c.NopCode?
    ensures Decode(env, data, pos) == Ok((Meaning(env, c), pos + |Encode(c)|))
  {
    hide Uleb, At, Scaled, DecodeRule, DecodeCfa;
    OneByte(data, pos, c);
    if c.AdvanceLocShort? {
    } else if c.RestoreShort? {
    } else {
      PlainDecodes(env, data, pos, c);
    }
  }

  lemma OneByte(data: seq<Byte>, pos: nat, c: Code)
    requires Encodable(c) && At(data, pos, Encode(c))
    requires c.AdvanceLocShort? || c.RestoreShort? || c.Remember? || c.Recall? || c.NopCode?
    ensures |Encode(c)| == 1 && pos < |data| && data[pos] == Encode(c)[0]
  {
    hide At;
    assert Encode(c) == [Encode(c)[0]] + [];
    ByteAt(data, pos, Encode(c)[0], []);
  }

  lemma PlainDecodes(env: Env, data: seq<Byte>, pos: nat, c: Code)
    requires c.Remember? || c.Recall? || c.NopCode?
    requires pos < |data| && data[pos] == Encode(c)[0]
    ensures Decode(env, data, pos) == Ok((Meaning(env, c), pos + 1))
  {
    hide Uleb, Scaled, DecodeRule, DecodeCfa;
  }

  lemma OffsetShortDecodes(env: Env, data: seq<Byte>, pos: nat, c: Code)
    requires Encodable(c) && At(data, pos, Encode(c)) && c.OffsetShort?
    ensures Decode(env, data, pos) == Ok((Meaning(env, c), pos + |Encode(c)|))
  {
    hide Uleb, EncodeUleb, At, Scaled, Factored, DecodeExtended;
    ScaledIs(env, Signed64(c.factored));
    OneOperand(data, pos, 0x80 + c.reg, c.factored);
  }

  lemma AdvanceDecodes(env: Env, data: seq<Byte>, pos: nat, c: Code)
    requires Encodable(c) && At(data, pos, Encode(c))
    requires c.AdvanceLoc1? || c.AdvanceLoc2? || c.AdvanceLoc4?
    ensures Decode(env, data, pos) == Ok((Meaning(env, c), pos + |Encode(c)|))
  {
    match c {
      case AdvanceLoc1(delta) => DeltaDecodes(env, data, pos, 0x02, delta, 1);
      case AdvanceLoc2(delta) => DeltaDecodes(env, data, pos, 0x03, delta, 2);
      case AdvanceLoc4(delta) => DeltaDecodes(env, data, pos, 0x04, delta, 4);
    }
  }

  lemma DeltaDecodes(env: Env, data: seq<Byte>, pos: nat, op: Byte, delta: nat, n: nat)
    requires (op == 0x02 && n == 1) || (op == 0x03 && n == 2) || (op == 0x04 && n == 4)
    requires delta < Pow2(8 * n) && At(data, pos, [op] + EncodeLe(delta, n))
    ensures Decode(env, data, pos) == Ok((AdvanceLoc(Wrap64(delta * env.codeAlign)), pos + 1 + n))
  {
    hide Fixed, EncodeLe, DecodeRule, DecodeCfa, Pow2;
    ByteAt(data, pos, op, EncodeLe(delta, n));
    FixedAt(data, pos + 1, delta, n);
  }

  lemma RegisterDecodes(env: Env, data: seq<Byte>, pos: nat, c: Code)
    requires Encodable(c) && At(data, pos, Encode(c)) && (c.RestoreExtended? || c.Undefine? || c.SameValue?)
    ensures Decode(env, data, pos) == Ok((Meaning(env, c), pos + |Encode(c)|))
  {
    hide Uleb, EncodeUleb, Sleb, At, Scaled, DecodeCfa;
    OneOperand(data, pos, if c.RestoreExtended? then 0x06 else if c.Undefine? then 0x07 else 0x08, c.reg);
  }

  lemma OffsetDecodes(env: Env, data: seq<Byte>, pos: nat, c: Code)
    requires Encodable(c) && At(data, pos, Encode(c)) && (c.OffsetExtended? || c.ValOffset?)
    ensures Decode(env, data, pos) == Ok((Meaning(env, c), pos + |Encode(c)|))
  {
    hide Uleb, EncodeUleb, Sleb, At, Scaled, Factored, DecodeCfa;
    ScaledIs(env, Signed64(c.factored));
    TwoOperands(data, pos, if c.OffsetExtended? then 0x05 else 0x14, c.reg, c.factored);
  }

  lemma CopyDecodes(env: Env, data: seq<Byte>, pos: nat, c: Code)
    requires Encodable(c) && At(data, pos, Encode(c)) && c.Register?
    ensures Decode(env, data, pos) == Ok((Meaning(env, c), pos + |Encode(c)|))
  {
    hide Uleb, EncodeUleb, Sleb, At, Scaled, DecodeCfa;
    TwoOperands(data, pos, 0x09, c.reg, c.from);
  }

  lemma SignedRuleDecodes(env: Env, data: seq<Byte>, pos: nat, c: Code)
    requires Encodable(c) && At(data, pos, Encode(c)) && (c.OffsetExtendedSf? || c.ValOffsetSf?)
    ensures Decode(env, data, pos) == Ok((Meaning(env, c), pos + |Encode(c)|))
  {
    hide Uleb, EncodeUleb, Sleb, EncodeSleb, At, Scaled, Factored, DecodeCfa;
    ScaledIs(env, c.signed);
    MixedOperands(data, pos, if c.OffsetExtendedSf? then 0x11 else 0x15, c.reg, c.signed);
  }

  lemma CfaPartDecodes(env: Env, data: seq<Byte>, pos: nat, c: Code)
    requires Encodable(c) && At(data, pos, Encode(c))
    requires c.DefCfaRegisterCode? || c.DefCfaOffsetCode? || c.DefCfaOffsetSf?
    ensures Decode(env, data, pos) == Ok((Meaning(env, c), pos + |Encode(c)|))
  {
    hide Uleb, EncodeUleb, Sleb, EncodeSleb, At, Scaled, Factored, DecodeRule;
    match c {
      case DefCfaRegisterCode(reg) => OneOperand(data, pos, 0x0d, reg);
      case DefCfaOffsetCode(offset) => OneOperand(data, pos, 0x0e, offset);
      case DefCfaOffsetSf(s) =>
        ScaledIs(env, s);
        SignedOperand(data, pos, 0x13, s);
    }
  }

  lemma CfaDecodes(env: Env, data: seq<Byte>, pos: nat, c: Code)
    requires Encodable(c) && At(data, pos, Encode(c)) && (c.DefCfaCode? || c.DefCfaSf?)
    ensures Decode(env, data, pos) == Ok((Meaning(env, c), pos + |Encode(c)|))
  {
    hide Uleb, EncodeUleb, Sleb, EncodeSleb, At, Scaled, Factored, DecodeRule;
    match c {
      case DefCfaCode(reg, offset) => TwoOperands(data, pos, 0x0c, reg, offset);
      case DefCfaSf(reg, s) =>
        ScaledIs(env, s);
        MixedOperands(data, pos, 0x12, reg, s);
    }
  }

  /** Decoding undoes encoding, for every instruction, wherever it stands. */
  lemma DecodeEncoded(env: Env, data: seq<Byte>, pos: nat, c: Code)
    requires Encodable(c) && At(data, pos, Encode(c))
    ensures Decode(env, data, pos) == Ok((Meaning(env, c), pos + |Encode(c)|))
  {
    hide Decode, Encode, Meaning, At;
    match c {
      case AdvanceLocShort(_) => ByteDecodes(env, data, pos, c);
      case OffsetShort(_, _) => OffsetShortDecodes(env, data, pos, c);
      case RestoreShort(_) => ByteDecodes(env, data, pos, c);
      case Remember => ByteDecodes(env, data, pos, c);
      case Recall => ByteDecodes(env, data, pos, c);
      case NopCode => ByteDecodes(env, data, pos, c);
      case AdvanceLoc1(_) => AdvanceDecodes(env, data, pos, c);
      case AdvanceLoc2(_) => AdvanceDecodes(env, data, pos, c);
      case AdvanceLoc4(_) => AdvanceDecodes(env, data, pos, c);
      case DefCfaCode(_, _) => CfaDecodes(env, data, pos, c);
      case DefCfaRegisterCode(_) => CfaPartDecodes(env, data, pos, c);
      case DefCfaOffsetCode(_) => CfaPartDecodes(env, data, pos, c);
      case DefCfaSf(_, _) => CfaDecodes(env, data, pos, c);
      case DefCfaOffsetSf(_) => CfaPartDecodes(env, data, pos, c);
      case RestoreExtended(_) => RegisterDecodes(env, data, pos, c);
      case Undefine(_) => RegisterDecodes(env, data, pos, c);
      case SameValue(_) => RegisterDecodes(env, data, pos, c);
      case OffsetExtendedSf(_, _) => SignedRuleDecodes(env, data, pos, c);
      case ValOffsetSf(_, _) => SignedRuleDecodes(env, data, pos, c);
      case Register(_, _) => CopyDecodes(env, data, pos, c);
      case _ => OffsetDecodes(env, data, pos, c);
    }
  }

  // ---------- expressions ----------

  datatype ExpressionCode = DefCfaExpression | Expression(reg: U32) | ValExpression(reg: U32)

  /** The instruction up to its body: an opcode, a register and the body's length. */
  function EncodeHead(c: ExpressionCode, length: U64): (bs: seq<Byte>)
  {
    match c
    case DefCfaExpression => [0x0f] + EncodeUleb(length)
    case Expression(reg) => [0x10] + (EncodeUleb(reg) + EncodeUleb(length))
    case ValExpression(reg) => [0x16] + (EncodeUleb(reg) + EncodeUleb(length))
  }

  /** The rule with a body that starts at `body`. */
  function HeadMeaning(c: ExpressionCode, body: nat, length: U64): Instr
  {
    match c
    case DefCfaExpression => DefCfa(CfaExpr(body, length))
    case Expression(reg) => SetRule(reg, ExprRule(body, length))
    case ValExpression(reg) => SetRule(reg, ValExprRule(body, length))
  }

  /** By section 6.4.2 of DWARF 4 the next instruction is behind the body. */
  function StandardExpression(c: ExpressionCode, pos: nat, length: U64): Result<(Instr, nat)>
  {
    var body := pos + |EncodeHead(c, length)|;
    Ok((HeadMeaning(c, body, length), body + length))
  }

  /** The rule is read with its body's place, but decoding goes on at the body: as asked exactly when that is empty. */
  lemma ExpressionFollowsIff(env: Env, data: seq<Byte>, pos: nat, c: ExpressionCode, length: U64)
    requires At(data, pos, EncodeHead(c, length))
    ensures var body := pos + |EncodeHead(c, length)|;
            Decode(env, data, pos) == Ok((HeadMeaning(c, body, length), body))
    ensures Decode(env, data, pos) == StandardExpression(c, pos, length) <==> length == 0
  {
    hide Uleb, EncodeUleb, Sleb, At, Scaled, DecodeExtended;
    HeadDecodes(env, data, pos, c, length);
  }

  lemma HeadDecodes(env: Env, data: seq<Byte>, pos: nat, c: ExpressionCode, length: U64)
    requires At(data, pos, EncodeHead(c, length))
    ensures var body := pos + |EncodeHead(c, length)|;
            Decode(env, data, pos) == Ok((HeadMeaning(c, body, length), body))
  {
    hide Uleb, EncodeUleb, Sleb, At, Scaled;
    match c {
      case DefCfaExpression => OneOperand(data, pos, 0x0f, length);
      case Expression(reg) => TwoOperands(data, pos, 0x10, reg, length);
      case ValExpression(reg) => TwoOperands(data, pos, 0x16, reg, length);
    }
  }

  /** Any other extended opcode is passed over, without operands. */
  lemma OthersPassedOver(env: Env, data: seq<Byte>, pos: nat)
    requires pos < |data| && data[pos] < 0x40
    requires data[pos] > 0x16 || data[pos] == 0x00
    ensures Decode(env, data, pos) == Ok((Nop, pos + 1))
  {
    hide Uleb, Sleb;
  }

  // ---------- encoded pointers ----------

  /** The formats of DW_EH_PE, by their low four bits. */
  datatype Format = Absolute | Unsigned | Unsigned2 | Unsigned4 | Unsigned8 | Signed | Signed2 | Signed4 | Signed8

  function FormatBits(f: Format): nat
  {
    match f
    case Absolute => 0x0 case Unsigned => 0x1 case Unsigned2 => 0x2 case Unsigned4 => 0x3 case Unsigned8 => 0x4
    case Signed => 0x9 case Signed2 => 0xa case Signed4 => 0xb case Signed8 => 0xc
  }

  predicate Representable(f: Format, v: int)
  {
    match f
    case Absolute => 0 <= v < TWO64 case Unsigned => 0 <= v < TWO64 case Unsigned8 => 0 <= v < TWO64
    case Unsigned2 => 0 <= v < TWO16
    case Unsigned4 => 0 <= v < TWO32
    case Signed2 => -0x8000 <= v < 0x8000
    case Signed4 => -0x8000_0000 <= v < 0x8000_0000
    case Signed => -TWO63 <= v < TWO63 case Signed8 => -TWO63 <= v < TWO63
  }

  function EncodePointer(f: Format, v: int): (bs: seq<Byte>)
    requires Representable(f, v)
  {
    match f
    case Absolute => EncodeLe(v, 8)
    case Unsigned => EncodeUleb(v)
    case Unsigned2 => EncodeLe(v, 2)
    case Unsigned4 => EncodeLe(v, 4)
    case Unsigned8 => EncodeLe(v, 8)
    case Signed => EncodeSleb(v)
    case Signed2 => EncodeLe(if v < 0 then v + TWO16 else v, 2)
    case Signed4 => EncodeLe(if v < 0 then v + TWO32 else v, 4)
    case Signed8 => EncodeLe(if v < 0 then v + TWO64 else v, 8)
  }

  /** What an encoded pointer is relative to, by the bits of mask 0x70. */
  datatype Application = Plain | ToItself | ToText | ToData | ToFunction

  function ApplicationBits(a: Application): nat
  {
    match a case Plain => 0x00 case ToItself => 0x10 case ToText => 0x20 case ToData => 0x30 case ToFunction => 0x40
  }

  function Origin(env: Env, a: Application, pos: nat): nat
  {
    match a
    case Plain => 0
    case ToItself => env.bytesAddress + pos
    case ToText => env.textStart
    case ToData => env.pltStart
    case ToFunction => env.functionStart
  }

  lemma FormatRead(f: Format, v: int, data: seq<Byte>, pos: nat)
    requires Representable(f, v) && At(data, pos, EncodePointer(f, v))
    ensures PointerValue(FormatBits(f), data, pos) == Ok((v, pos + |EncodePointer(f, v)|))
  {
    hide Uleb, EncodeUleb, Sleb, EncodeSleb, Fixed, EncodeLe, At, Pow2;
    assert Pow2(8 * 2) == TWO16 && Pow2(8 * 4) == TWO32 && Pow2(8 * 8) == TWO64 by { Pow2Large(); }
    match f {
      case Unsigned => UlebAt(data, pos, v);
      case Signed => SlebAt(data, pos, v);
      case Absolute => FixedAt(data, pos, v, 8);
      case Unsigned8 => FixedAt(data, pos, v, 8);
      case Unsigned2 => FixedAt(data, pos, v, 2);
      case Unsigned4 => FixedAt(data, pos, v, 4);
      case Signed2 => FixedAt(data, pos, if v < 0 then v + TWO16 else v, 2);
      case Signed4 => FixedAt(data, pos, if v < 0 then v + TWO32 else v, 4);
      case Signed8 => FixedAt(data, pos, if v < 0 then v + TWO64 else v, 8);
    }
  }

  /** An encoded pointer, in any format and relative to anything, is the sum of what it is relative to and its value. */
  lemma PointerRead(env: Env, f: Format, a: Application, indirect: bool, v: int, data: seq<Byte>, pos: nat)
    requires env.pointerEncoding == FormatBits(f) + ApplicationBits(a) + if indirect then 0x80 else 0
    requires Representable(f, v) && At(data, pos, EncodePointer(f, v))
    ensures EncodedPointer(env, data, pos) == Ok((Wrap64(Origin(env, a, pos) + v), pos + |EncodePointer(f, v)|))
  {
    hide PointerValue, EncodePointer, Wrap64;
    FormatRead(f, v, data, pos);
    var i := if indirect then 1 else 0;
    assert env.pointerEncoding == 16 * (ApplicationBits(a) / 16 + 8 * i) + FormatBits(f);
    assert PointerBase(env, pos) == Ok(Origin(env, a, pos));
  }

  /** So set_loc moves to the address its pointer denotes. */
  lemma SetLocDecodes(env: Env, f: Format, a: Application, indirect: bool, v: int, data: seq<Byte>, pos: nat)
    requires env.pointerEncoding == FormatBits(f) + ApplicationBits(a) + if indirect then 0x80 else 0
    requires Representable(f, v) && At(data, pos, [0x01] + EncodePointer(f, v))
    ensures Decode(env, data, pos)
         == Ok((SetLoc(Wrap64(Origin(env, a, pos + 1) + v)), pos + 1 + |EncodePointer(f, v)|))
  {
    hide EncodedPointer, EncodePointer, Wrap64, DecodeRule, DecodeCfa;
    ByteAt(data, pos, 0x01, EncodePointer(f, v));
    PointerRead(env, f, a, indirect, v, data, pos + 1);
  }

  // ---------- programs ----------

  ghost predicate AllEncodable(prog: seq<Code>)
  {
    forall i :: 0 <= i < |prog| ==> Encodable(prog[i])
  }

  function EncodeAll(prog: seq<Code>): seq<Byte>
    requires forall i :: 0 <= i < |prog| ==> Encodable(prog[i])
  {
    if prog == [] then [] else Encode(prog[0]) + EncodeAll(prog[1..])
  }

  function Meanings(env: Env, prog: seq<Code>): seq<Instr>
  {
    if prog == [] then [] else [Meaning(env, prog[0])] + Meanings(env, prog[1..])
  }

  /** A whole program encoded up to the end of the data disassembles to its meaning. */
  lemma {:induction false} DisassembleEncoded(env: Env, data: seq<Byte>, pos: nat, prog: seq<Code>)
    requires AllEncodable(prog) && At(data, pos, EncodeAll(prog)) && pos + |EncodeAll(prog)| == |data|
    ensures Disassemble(env, data, pos) == Ok(Meanings(env, prog))
    decreases |prog|
  {
    hide Decode, Encode, Meaning, At;
    if prog != [] {
      var first, rest := Encode(prog[0]), EncodeAll(prog[1..]);
      AtSplit(data, pos, first, rest);
      DecodeEncoded(env, data, pos, prog[0]);
      DisassembleEncoded(env, data, pos + |first|, prog[1..]);
    }
  }

  /** Running the bytes of a program is executing what its instructions mean, one after the other. */
  lemma EncodedProgramRuns(env: Env, prog: seq<Code>, c: Context)
    requires AllEncodable(prog)
    ensures RunAll(env, EncodeAll(prog), 0, c) == RunInstrs(Meanings(env, prog), c)
  {
    var data := EncodeAll(prog);
    assert At(data, 0, data);
    DisassembleEncoded(env, data, 0, prog);
    RunAllIsDisassembled(env, data, 0, c);
  }
}
