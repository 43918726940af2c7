/** The operators of DWARF expressions, and the laws that say what they compute. */
module Operators {
  import opened Results
  import opened Bits
  import opened Cursors

  datatype BinaryOp =
    | Plus | Minus | Mul | Mod | Div | BitAnd | BitOr | BitXor | Shl | Shr | Shra | Le | Ge | Eq | Lt | Gt | Ne

  datatype UnaryOp = Abs | Neg | Not | Deref

  /** C++ signed division, which truncates toward zero. */
  function Quotient(a: int, b: int): (q: int)
    requires b != 0
  {
    var m := (if a < 0 then -a else a) / (if b < 0 then -b else b);
    if (a < 0) == (b < 0) then m else -m
  }

  function Truth(b: bool): U64 { if b then 1 else 0 }

  /** The operators modulo 2^64; where C++ leaves the result undefined there is none. */
  function ApplyBinary(op: BinaryOp, a: U64, b: U64): (r: Result<U64>)
  {
    assert Pow2(64) == TWO64 by { Pow2Large(); }
    OrXorBound(a, b, 64);
    match op
    case Plus => Ok(Wrap64(a + b))
    case Minus => Ok(Wrap64(a - b))
    case Mul => Ok(Wrap64(a * b))
    case Mod => if b == 0 then Err(Undefined) else Ok(Wrap64(a % b))
    case Div =>
      if b == 0 || (Signed64(a) == -TWO63 && Signed64(b) == -1) then Err(Undefined)
      else Ok(Wrap64(Quotient(Signed64(a), Signed64(b))))
    case BitAnd => Ok(And(a, b))
    case BitOr => Ok(Or(a, b))
    case BitXor => Ok(Xor(a, b))
    case Shl => if b >= 64 then Err(Undefined) else Ok(Wrap64(a * Pow2(b)))
    case Shr => if b >= 64 then Err(Undefined) else Ok(Wrap64(a / Pow2(b)))
    case Shra => if b >= 64 then Err(Undefined) else Ok(Wrap64(Signed64(a) / Pow2(b)))
    case Le => Ok(Truth(Signed64(a) <= Signed64(b)))
    case Ge => Ok(Truth(Signed64(a) >= Signed64(b)))
    case Eq => Ok(Truth(Signed64(a) == Signed64(b)))
    case Lt => Ok(Truth(Signed64(a) < Signed64(b)))
    case Gt => Ok(Truth(Signed64(a) > Signed64(b)))
    case Ne => Ok(Truth(Signed64(a) != Signed64(b)))
  }

  function ApplyUnary(mem: map<nat, Byte>, op: UnaryOp, a: U64): (r: Result<U64>)
  {
    match op
    case Abs =>
      if Signed64(a) == -TWO63 then Err(Undefined)
      else Ok(if Signed64(a) < 0 then Wrap64(-Signed64(a)) else a)
    case Neg => if Signed64(a) == -TWO63 then Err(Undefined) else Ok(Wrap64(-Signed64(a)))
    case Not => Ok(TWO64 - 1 - a)
    case Deref => ReadWord(mem, a, 8)
  }

  predicate Mapped(mem: map<nat, Byte>, address: nat, n: nat)
  {
    forall i :: address <= i < address + n ==> i in mem
  }

  /** An n-byte little-endian integer of target memory. */
  function ReadWord(mem: map<nat, Byte>, address: nat, n: nat): (r: Result<U64>)
  {
    if n > 8 then Err(Undefined)
    else if !Mapped(mem, address, n) then Err(MissingKey)
    else
      assert Pow2(8 * n) <= TWO64 by { Pow2Monotone(8 * n, 64); Pow2Large(); }
      Ok(Cursors.Le(seq(n, i requires 0 <= i < n && Mapped(mem, address, n) => mem[address + i])))
  }

  // ---------- laws of the operators ----------

  /** The signed value of a word: its top bit weighs -2^63. */
  function TwosComplement(a: U64): int { a - TWO64 * Bit(a, 63) }

  predicate Congruent(x: int, y: int) { (x - y) % TWO64 == 0 }

  /** q is x divided by y, rounded toward zero: what remains is smaller than y and has the sign of x. */
  predicate IsTruncatedQuotient(x: int, y: int, q: int)
  {
    var rest := x - q * y;
    (if y < 0 then y < rest < -y else -y < rest < y) && (x < 0 ==> rest <= 0) && (x >= 0 ==> rest >= 0)
  }

  predicate IsRemainder(a: nat, b: nat, q: nat, r: nat) { a == q * b + r && r < b }

  /** Bit k of the result of an operator that works bit by bit. */
  function BitAsked(op: BinaryOp, a: U64, b: U64, k: nat): nat
    requires k < 64
  {
    match op
    case BitAnd => Bit(a, k) * Bit(b, k)
    case BitOr => if Bit(a, k) == 1 then 1 else Bit(b, k)
    case BitXor => if Bit(a, k) == Bit(b, k) then 0 else 1
    case Shl => if k < b then 0 else Bit(a, k - b)
    case Shr => if k + b < 64 then Bit(a, k + b) else 0
    case Shra => if k + b < 64 then Bit(a, k + b) else Bit(a, 63)
    case _ => 0
  }

  ghost predicate HasBits(op: BinaryOp, a: U64, b: U64, v: U64)
  {
    forall k: nat :: k < 64 ==> Bit(v, k) == BitAsked(op, a, b, k)
  }

  /** What section 2.5.1.4 of DWARF 4 asks of the two-operand operators on 64-bit words, and where C++ leaves the
      code's result undefined. */
  ghost predicate BinaryLaw(op: BinaryOp, a: U64, b: U64, r: Result<U64>)
  {
    match op
    case Div =>
      if b == 0 || (TwosComplement(a) == -TWO63 && TwosComplement(b) == -1) then r == Err(Undefined)
      else r.Ok? && IsTruncatedQuotient(TwosComplement(a), TwosComplement(b), TwosComplement(r.value))
    case Mod => if b == 0 then r == Err(Undefined) else r.Ok? && exists q: nat :: IsRemainder(a, b, q, r.value)
    case _ =>
      if (op.Shl? || op.Shr? || op.Shra?) && b >= 64 then r == Err(Undefined)
      else r.Ok? && TotalLaw(op, a, b, r.value)
  }

  /** The operators that have a result, but for over-wide shifts, whatever the words are. */
  ghost predicate TotalLaw(op: BinaryOp, a: U64, b: U64, v: U64)
  {
    match op
    case Plus => Congruent(v, a + b)
    case Minus => Congruent(v + b, a)
    case Mul => Congruent(v, a * b)
    case Le => v == if TwosComplement(b) < TwosComplement(a) then 0 else 1
    case Ge => v == if TwosComplement(a) < TwosComplement(b) then 0 else 1
    case Lt => v == if TwosComplement(a) < TwosComplement(b) then 1 else 0
    case Gt => v == if TwosComplement(b) < TwosComplement(a) then 1 else 0
    case Eq => v == if a == b then 1 else 0
    case Ne => v == if a == b then 0 else 1
    case _ => HasBits(op, a, b, v)
  }

  /** The same for one operand: the absolute value and the opposite, which the least word does not have, the bits
      turned over, and the word whose bytes memory holds, lowest first. */
  ghost predicate UnaryLaw(mem: map<nat, Byte>, op: UnaryOp, a: U64, r: Result<U64>)
  {
    match op
    case Abs =>
      if TwosComplement(a) == -TWO63 then r == Err(Undefined)
      else r.Ok? && TwosComplement(r.value) == if Bit(a, 63) == 1 then -TwosComplement(a) else TwosComplement(a)
    case Neg =>
      if TwosComplement(a) == -TWO63 then r == Err(Undefined)
      else r.Ok? && TwosComplement(r.value) + TwosComplement(a) == 0
    case Not => r.Ok? && forall k: nat :: k < 64 ==> Bit(r.value, k) == 1 - Bit(a, k)
    case Deref => WordLaw(mem, a, 8, r)
  }

  /** r is the n bytes at an address, lowest first, with zeros above them. */
  ghost predicate WordLaw(mem: map<nat, Byte>, address: nat, n: nat, r: Result<U64>)
  {
    if n > 8 then r == Err(Undefined)
    else if !Mapped(mem, address, n) then r == Err(MissingKey)
    else r.Ok? && forall i :: 0 <= i < 8 ==> EncodeLe(r.value, 8)[i] == if i < n then mem[address + i] else 0
  }

  // ---------- the operators obey them ----------

  lemma {:induction false} TopBit(a: nat, n: nat)
    requires a < Pow2(n + 1)
    ensures Bit(a, n) == if a < Pow2(n) then 0 else 1
    decreases n
  {
    if n > 0 {
      assert Pow2(n + 1) == 2 * Pow2(n) && Pow2(n) == 2 * Pow2(n - 1);
      hide Pow2;
      TopBit(a / 2, n - 1);
    }
  }

  lemma TwosComplementIs(a: U64)
    ensures TwosComplement(a) == Signed64(a) && (Bit(a, 63) == 1 <==> a >= TWO63)
    ensures Bit(a, 63) == 0 ==> Signed64(a) == a
  {
    hide Bit;
    Pow2Large();
    TopBit(a, 63);
  }

  lemma WrapCongruent(x: int)
    ensures Congruent(Wrap64(x), x)
  {}

  lemma {:induction false} BitAndIs(x: nat, y: nat, k: nat)
    ensures Bit(And(x, y), k) == Bit(x, k) * Bit(y, k)
    decreases k
  {
    if x == 0 || y == 0 {
      BitZero(k);
    } else if k > 0 {
      BitAndIs(x / 2, y / 2, k - 1);
      assert And(x, y) / 2 == And(x / 2, y / 2);
    }
  }

  lemma {:induction false} BitXorIs(x: nat, y: nat, k: nat)
    ensures Bit(Xor(x, y), k) == if Bit(x, k) == Bit(y, k) then 0 else 1
    decreases k
  {
    if x == 0 || y == 0 {
      BitZero(k);
    } else if k > 0 {
      BitXorIs(x / 2, y / 2, k - 1);
      assert Xor(x, y) / 2 == Xor(x / 2, y / 2);
    }
  }

  lemma {:induction false} BitNotIs(a: nat, n: nat, k: nat)
    requires k < n && a < Pow2(n)
    ensures Bit(Pow2(n) - 1 - a, k) == 1 - Bit(a, k)
    decreases k
  {
    var m := Pow2(n - 1);
    assert Pow2(n) == 2 * m;
    assert (2 * m - 1 - a) / 2 == m - 1 - a / 2 && (2 * m - 1 - a) % 2 == 1 - a % 2;
    if k > 0 { BitNotIs(a / 2, n - 1, k - 1); }
  }

  /** A product with a power of two is a shift to the left. */
  lemma ShiftedLeft(a: U64, b: nat, k: nat)
    requires b < 64 && k < 64
    ensures Bit(Wrap64(a * Pow2(b)), k) == if k < b then 0 else Bit(a, k - b)
  {
    hide Bit, Pow2;
    var x := a * Pow2(b);
    NonNegativeProduct(a, Pow2(b));
    assert Pow2(64) == TWO64 by { Pow2Large(); }
    ModularBits(Wrap64(x), x / TWO64, 64, k);
    if k < b {
      ModularBits(0, a, b, k);
      BitZero(k);
    } else {
      ShiftedBits(0, a, b, k - b);
    }
  }

  /** A quotient by a power of two is a shift to the right. */
  lemma ShiftedRight(a: nat, b: nat, k: nat)
    ensures a / Pow2(b) >= 0 && Bit(a / Pow2(b), k) == Bit(a, k + b)
  {
    hide Bit, Pow2;
    var q := a / Pow2(b);
    QuotientNonNegative(a, Pow2(b));
    assert a == a % Pow2(b) + Pow2(b) * q;
    ShiftedBits(a % Pow2(b), q, b, k);
  }

  lemma QuotientNonNegative(a: nat, m: nat)
    requires m > 0
    ensures a / m >= 0
  {}

  /** Bits from 2^n on are clear in a number below it. */
  lemma {:induction false} NoBitsAbove(x: nat, n: nat, k: nat)
    requires x < Pow2(n) && n <= k
    ensures Bit(x, k) == 0
    decreases n
  {
    if n == 0 {
      BitZero(k);
    } else {
      assert Bit(x, k) == Bit(x / 2, k - 1);
      NoBitsAbove(x / 2, n - 1, k - 1);
    }
  }

  /** An arithmetic shift is the logical one, below copies of the top bit. */
  lemma ShiftedSigned(a: U64, b: nat, k: nat)
    requires b < 64 && k < 64
    ensures Bit(Wrap64(Signed64(a) / Pow2(b)), k) == if k + b < 64 then Bit(a, k + b) else Bit(a, 63)
  {
    hide Bit, Pow2, Signed64;
    TwosComplementIs(a);
    assert Pow2(64 - b) * Pow2(b) == TWO64 by { Pow2Large(); Pow2Sum(64 - b, b); }
    SmallQuotient(a, b);
    if Bit(a, 63) == 1 { ShiftedNegative(a, b, k); } else { ShiftedPositive(a, b, k); }
  }

  lemma ShiftedPositive(a: U64, b: nat, k: nat)
    requires b < 64 && k < 64 && Signed64(a) == a && Bit(a, 63) == 0 && 0 <= a / Pow2(b) < Pow2(64 - b)
    ensures Bit(Wrap64(Signed64(a) / Pow2(b)), k) == if k + b < 64 then Bit(a, k + b) else 0
  {
    hide Bit, Pow2, Signed64;
    ShiftedRight(a, b, k);
    SmallShift(a, b);
    if k >= 64 - b { NoBitsAbove(a / Pow2(b), 64 - b, k); }
  }

  lemma ShiftedNegative(a: U64, b: nat, k: nat)
    requires b < 64 && k < 64 && a >= TWO63 && Pow2(64 - b) * Pow2(b) == TWO64 && 0 <= a / Pow2(b) < Pow2(64 - b)
    ensures Bit(Wrap64(Signed64(a) / Pow2(b)), k) == if k + b < 64 then Bit(a, k + b) else 1
  {
    hide Bit, Pow2, Signed64;
    SignedQuotient(a, b);
    ShiftedRight(a, b, k);
    var q, s := a / Pow2(b), 64 - b;
    if k < s {
      ModularBits(q, Pow2(b) - 1, s, k);
    } else {
      ShiftedBits(q, Pow2(b) - 1, s, k - s);
      OnesBits(b, k - s);
    }
  }

  lemma SmallQuotient(a: U64, b: nat)
    requires b < 64 && Pow2(64 - b) * Pow2(b) == TWO64
    ensures 0 <= a / Pow2(b) < Pow2(64 - b)
  {
    hide Pow2;
    var q, m, top := a / Pow2(b), Pow2(b), Pow2(64 - b);
    assert a == q * m + a % m;
    if q >= top { ProductMonotone(top, q, m); }
  }

  lemma ProductMonotone(x: nat, y: nat, m: nat)
    requires x <= y
    ensures x * m <= y * m
  {}

  /** The floor of a negative word's value by 2^b, as a word. */
  lemma SignedQuotient(a: U64, b: nat)
    requires b < 64 && a >= TWO63 && Pow2(64 - b) * Pow2(b) == TWO64 && 0 <= a / Pow2(b) < Pow2(64 - b)
    ensures Wrap64(Signed64(a) / Pow2(b)) == a / Pow2(b) + Pow2(64 - b) * (Pow2(b) - 1)
  {
    hide Pow2;
    var q, m, top, r := a / Pow2(b), Pow2(b), Pow2(64 - b), a % Pow2(b);
    assert a == m * q + r;
    assert a - TWO64 == m * (q - top) + r by { Distribute(m, q, top); }
    RemainderUnique(a - TWO64, m, q - top, r);
    var word := q + top * (m - 1);
    assert word == q - top + TWO64 by { Distribute(top, m, 1); }
    NonNegativeProduct(top, m - 1);
    WrapSmall(word);
    Signed64Shift(q - top, 1);
  }

  lemma Distribute(m: int, x: int, y: int)
    ensures m * (x - y) == m * x - m * y && m * y == y * m
  {}

  lemma {:induction false} OnesBits(n: nat, k: nat)
    requires k < n
    ensures Bit(Pow2(n) - 1, k) == 1
    decreases k
  {
    BitZero(k);
    BitNotIs(0, n, k);
  }

  lemma BitwiseObeys(op: BinaryOp, a: U64, b: U64)
    requires op in {BitAnd, BitOr, BitXor} || (op in {Shl, Shr, Shra} && b < 64)
    ensures ApplyBinary(op, a, b).Ok? && HasBits(op, a, b, ApplyBinary(op, a, b).value)
  {
    hide Bit, Pow2, Signed64;
    assert TWO64 == Pow2(64) by { Pow2Large(); }
    var v := ApplyBinary(op, a, b).value;
    forall k: nat | k < 64
      ensures Bit(v, k) == BitAsked(op, a, b, k)
    {
      match op {
        case BitAnd => BitAndIs(a, b, k);
        case BitOr => Bits.BitOr(a, b, k);
        case BitXor => BitXorIs(a, b, k);
        case Shl => ShiftedLeft(a, b, k);
        case Shr =>
          ShiftedRight(a, b, k);
          SmallShift(a, b);
          if k + b >= 64 { NoBitsAbove(a, 64, k + b); }
        case Shra => ShiftedSigned(a, b, k);
        case _ =>
      }
    }
  }

  lemma SmallShift(a: U64, b: nat)
    requires b < 64
    ensures 0 <= a / Pow2(b) < TWO64 && Wrap64(a / Pow2(b)) == a / Pow2(b)
  {
    hide Pow2;
    QuotientNonNegative(a, Pow2(b));
    assert a == Pow2(b) * (a / Pow2(b)) + a % Pow2(b);
    if a / Pow2(b) > a { MulAtLeast(a / Pow2(b), Pow2(b)); }
    WrapSmall(a / Pow2(b));
  }

  lemma DivisionObeys(x: int, y: int)
    requires -TWO63 <= x < TWO63 && -TWO63 <= y < TWO63 && y != 0 && !(x == -TWO63 && y == -1)
    ensures -TWO63 <= Quotient(x, y) < TWO63 && IsTruncatedQuotient(x, y, Quotient(x, y))
  {
    var n: nat, d: nat := if x < 0 then -x else x, if y < 0 then -y else y;
    var m := n / d;
    assert n == d * m + n % d;
    QuotientNonNegative(n, d);
    MagnitudeBound(n, d, m);
    Truncates(x, y, d, m, n % d);
  }

  lemma Truncates(x: int, y: int, d: int, m: int, rest: int)
    requires m >= 0 && 0 <= rest < d && d == (if y < 0 then -y else y) && (if x < 0 then -x else x) == d * m + rest
    ensures IsTruncatedQuotient(x, y, if (x < 0) == (y < 0) then m else -m)
  {
    SignsOfProduct(m, d);
    var q := if (x < 0) == (y < 0) then m else -m;
    assert q * y == if x < 0 then -(d * m) else d * m;
  }

  lemma SignsOfProduct(m: int, d: int)
    ensures (-m) * d == -(m * d) && m * (-d) == -(m * d) && (-m) * (-d) == m * d && m * d == d * m
  {}

  lemma MagnitudeBound(n: nat, d: nat, m: nat)
    requires d > 0 && d * m <= n
    ensures m <= n && (d > 1 && n > 0 ==> m < n)
  {
    if m > 0 { MulAtLeast(m, d); }
  }

  lemma DivObeys(a: U64, b: U64)
    ensures BinaryLaw(Div, a, b, ApplyBinary(Div, a, b))
  {
    hide Bit, Pow2, Quotient, And, Or, Xor, IsTruncatedQuotient, Signed64, TwosComplement;
    TwosComplementIs(a);
    TwosComplementIs(b);
    if b != 0 && !(Signed64(a) == -TWO63 && Signed64(b) == -1) {
      assert Signed64(b) != 0 by { NonZero(b); }
      DivisionObeys(Signed64(a), Signed64(b));
      TwosComplementIs(ApplyBinary(Div, a, b).value);
      Signed64Inverse(Quotient(Signed64(a), Signed64(b)));
    }
  }

  lemma NonZero(b: U64)
    ensures Signed64(b) == 0 <==> b == 0
  {}

  lemma ModObeys(a: U64, b: U64)
    ensures BinaryLaw(Mod, a, b, ApplyBinary(Mod, a, b))
  {
    hide Bit, Pow2, Quotient, And, Or, Xor, Signed64;
    if b != 0 {
      assert a == (a / b) * b + a % b;
      QuotientNonNegative(a, b);
      assert IsRemainder(a, b, a / b, a % b);
      WrapSmall(a % b);
    }
  }

  lemma ComparisonObeys(op: BinaryOp, a: U64, b: U64)
    requires op in {Le, Ge, Lt, Gt, Eq, Ne}
    ensures BinaryLaw(op, a, b, ApplyBinary(op, a, b))
  {
    hide Bit, Pow2, Quotient, And, Or, Xor, TwosComplement;
    TwosComplementIs(a);
    TwosComplementIs(b);
  }

  /** Every two-operand operator obeys its law. */
  lemma BinaryObeys(op: BinaryOp, a: U64, b: U64)
    ensures BinaryLaw(op, a, b, ApplyBinary(op, a, b))
  {
    hide Bit, Pow2, HasBits, Quotient, And, Or, Xor, IsTruncatedQuotient, TwosComplement, Signed64;
    match op {
      case Div => DivObeys(a, b);
      case Mod => ModObeys(a, b);
      case Plus => WrapCongruent(a + b);
      case Minus => WrapCongruent(a - b);
      case Mul => WrapCongruent(a * b);
      case _ =>
        if op in {Le, Ge, Lt, Gt, Eq, Ne} { ComparisonObeys(op, a, b); }
        else if op in {BitAnd, BitOr, BitXor} || b < 64 { BitwiseObeys(op, a, b); }
    }
  }

  lemma WordObeys(mem: map<nat, Byte>, address: nat, n: nat)
    ensures WordLaw(mem, address, n, ReadWord(mem, address, n))
  {
    hide EncodeLe, Cursors.Le;
    if n <= 8 && Mapped(mem, address, n) {
      var bs := seq(n, i requires 0 <= i < n && Mapped(mem, address, n) => mem[address + i]);
      EncodeOfLe(bs, 8);
    }
  }

  lemma NotObeys(mem: map<nat, Byte>, a: U64)
    ensures UnaryLaw(mem, Not, a, ApplyUnary(mem, Not, a))
  {
    hide Bit, Pow2;
    assert Pow2(64) == TWO64 by { Pow2Large(); }
    forall k: nat | k < 64
      ensures Bit(TWO64 - 1 - a, k) == 1 - Bit(a, k)
    {
      BitNotIs(a, 64, k);
    }
  }

  lemma SignObeys(mem: map<nat, Byte>, op: UnaryOp, a: U64)
    requires op.Abs? || op.Neg?
    ensures UnaryLaw(mem, op, a, ApplyUnary(mem, op, a))
  {
    hide Bit, TwosComplement, Signed64, Wrap64;
    TwosComplementIs(a);
    var s: int := Signed64(a);
    SignBit(a);
    if s != -TWO63 {
      Signed64Inverse(-s);
      TwosComplementIs(Wrap64(-s));
    }
  }

  lemma SignBit(a: U64)
    ensures Signed64(a) < 0 <==> a >= TWO63
  {}

  /** So does every one-operand operator. */
  lemma UnaryObeys(mem: map<nat, Byte>, op: UnaryOp, a: U64)
    ensures UnaryLaw(mem, op, a, ApplyUnary(mem, op, a))
  {
    hide UnaryLaw, ApplyUnary;
    match op {
      case Deref =>
        WordObeys(mem, a, 8);
        DerefIsWord(mem, a);
      case Not => NotObeys(mem, a);
      case _ => SignObeys(mem, op, a);
    }
  }

  lemma DerefIsWord(mem: map<nat, Byte>, a: U64)
    ensures ApplyUnary(mem, Deref, a) == ReadWord(mem, a, 8)
    ensures forall r: Result<U64> :: UnaryLaw(mem, Deref, a, r) <==> WordLaw(mem, a, 8, r)
  {
    hide WordLaw, ReadWord;
  }

  // ---------- and the laws leave no choice ----------

  lemma SameBits(v: U64, w: U64)
    requires forall k: nat :: k < 64 ==> Bit(v, k) == Bit(w, k)
    ensures v == w
  {
    assert Pow2(64) == TWO64 by { Pow2Large(); }
    BitsDetermine(v, w, 64);
  }

  lemma SameWorth(v: U64, w: U64)
    requires TwosComplement(v) == TwosComplement(w)
    ensures v == w
  {}

  lemma TruncatedOnce(x: int, y: int, q: int, p: int)
    requires y != 0 && IsTruncatedQuotient(x, y, q) && IsTruncatedQuotient(x, y, p)
    ensures q == p
  {
    assert (x - q * y) - (x - p * y) == (p - q) * y by { Distribute(y, p, q); SignsOfProduct(p - q, y); }
    if q != p { FarApart(p - q, y); }
  }

  lemma FarApart(d: int, y: int)
    requires d != 0 && y != 0
    ensures d * y <= (if y < 0 then y else -y) || d * y >= if y < 0 then -y else y
  {
    var (e, z) := (if d < 0 then -d else d, if y < 0 then -y else y);
    MulAtLeast(z, e);
    SignsOfProduct(d, y);
  }

  lemma RemainderOnce(a: nat, b: nat, r: nat, s: nat)
    requires (exists q: nat :: IsRemainder(a, b, q, r)) && (exists q: nat :: IsRemainder(a, b, q, s))
    ensures r == s
  {
    var q: nat, p: nat :| IsRemainder(a, b, q, r) && IsRemainder(a, b, p, s);
    RemainderUnique(a, b, q, r);
    RemainderUnique(a, b, p, s);
  }

  lemma DivOnce(a: U64, b: U64, r: Result<U64>, s: Result<U64>)
    requires BinaryLaw(Div, a, b, r) && BinaryLaw(Div, a, b, s)
    ensures r == s
  {
    hide Bit, TwosComplement, IsTruncatedQuotient, Signed64;
    TwosComplementIs(b);
    NonZero(b);
    if r.Ok? && s.Ok? {
      TruncatedOnce(TwosComplement(a), TwosComplement(b), TwosComplement(r.value), TwosComplement(s.value));
      SameWorth(r.value, s.value);
    }
  }

  lemma TotalOnce(op: BinaryOp, a: U64, b: U64, v: U64, w: U64)
    requires !op.Div? && !op.Mod? && TotalLaw(op, a, b, v) && TotalLaw(op, a, b, w)
    ensures v == w
  {
    hide Bit, TwosComplement, BitAsked, Congruent;
    match op {
      case Plus => CongruentOnce(v, w, 0, a + b);
      case Minus => CongruentOnce(v, w, b, a);
      case Mul => CongruentOnce(v, w, 0, a * b);
      case _ => if op in {BitAnd, BitOr, BitXor, Shl, Shr, Shra} { SameBits(v, w); }
    }
  }

  lemma CongruentOnce(v: U64, w: U64, more: int, x: int)
    requires Congruent(v + more, x) && Congruent(w + more, x)
    ensures v == w
  {}

  /** A two-operand operator has one result by its law. */
  lemma BinaryOnce(op: BinaryOp, a: U64, b: U64, r: Result<U64>, s: Result<U64>)
    requires BinaryLaw(op, a, b, r) && BinaryLaw(op, a, b, s)
    ensures r == s
  {
    hide TotalLaw, TwosComplement, IsTruncatedQuotient, IsRemainder;
    if op.Div? {
      DivOnce(a, b, r, s);
    } else if r.Ok? && s.Ok? {
      if op.Mod? { RemainderOnce(a, b, r.value, s.value); } else { TotalOnce(op, a, b, r.value, s.value); }
    }
  }

  lemma WordOnce(mem: map<nat, Byte>, address: nat, n: nat, r: Result<U64>, s: Result<U64>)
    requires WordLaw(mem, address, n, r) && WordLaw(mem, address, n, s)
    ensures r == s
  {
    hide EncodeLe, Cursors.Le;
    if r.Ok? && s.Ok? {
      assert EncodeLe(r.value, 8) == EncodeLe(s.value, 8);
      assert Pow2(64) == TWO64 by { Pow2Large(); }
      LeRoundTrip(r.value, 8);
      LeRoundTrip(s.value, 8);
    }
  }

  /** So has a one-operand operator. */
  lemma UnaryOnce(mem: map<nat, Byte>, op: UnaryOp, a: U64, r: Result<U64>, s: Result<U64>)
    requires UnaryLaw(mem, op, a, r) && UnaryLaw(mem, op, a, s)
    ensures r == s
  {
    hide Bit, WordLaw;
    if op.Deref? { WordOnce(mem, a, 8, r, s); }
    else if op.Not? { SameBits(r.value, s.value); }
    else if r.Ok? && s.Ok? { SameWorth(r.value, s.value); }
  }
}
