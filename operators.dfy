/**
 * Binary and predicate operators of the expression evaluator: three-valued
 * logic, comparisons, bit operations, integer division and modulo, IS [NOT]
 * TRUE/FALSE/NULL, IN, CASE WHEN and BETWEEN.
 */
module Operators {
  import opened Wrappers
  import opened Datums

  // ---------------------------------------------------------------- logic

  /** Logical NOT; NULL stays NULL. */
  function Not(a: Datum): (r: Datum)
    ensures r.Null? <==> a.Null?
    ensures r == Int(1) <==> IsFalseValue(a)
    ensures r == Int(0) <==> IsTrueValue(a)
  {
    if a.Null? then Null else FromBool(!Truth(a))
  }

  /** AND (`&&`): false wins over NULL, NULL wins over true. */
  function And(a: Datum, b: Datum): (r: Datum)
    ensures r == Int(0) <==> IsFalseValue(a) || IsFalseValue(b)
    ensures r == Int(1) <==> IsTrueValue(a) && IsTrueValue(b)
    ensures r == Int(0) || r == Int(1) || r == Null
  {
    if IsFalseValue(a) || IsFalseValue(b) then Int(0)
    else if a.Null? || b.Null? then Null
    else Int(1)
  }

  /** OR (`||`): true wins over NULL, NULL wins over false. */
  function Or(a: Datum, b: Datum): (r: Datum)
    ensures r == Int(1) <==> IsTrueValue(a) || IsTrueValue(b)
    ensures r == Int(0) <==> IsFalseValue(a) && IsFalseValue(b)
    ensures r == Int(0) || r == Int(1) || r == Null
  {
    if IsTrueValue(a) || IsTrueValue(b) then Int(1)
    else if a.Null? || b.Null? then Null
    else Int(0)
  }

  /** XOR: NULL if either side is NULL, otherwise true when exactly one side is. */
  function Xor(a: Datum, b: Datum): (r: Datum)
    ensures r.Null? <==> a.Null? || b.Null?
    ensures !r.Null? ==> (r == Int(1) <==> Truth(a) != Truth(b))
    ensures r == Int(0) || r == Int(1) || r == Null
  {
    if a.Null? || b.Null? then Null else FromBool(Truth(a) != Truth(b))
  }

  /** De Morgan's laws hold in the three-valued logic. */
  lemma DeMorgan(a: Datum, b: Datum)
    ensures Not(And(a, b)) == Or(Not(a), Not(b))
    ensures Not(Or(a, b)) == And(Not(a), Not(b))
  {
  }

  /** XOR is "one or the other but not both", NULLs included. */
  lemma XorIsOrAndNotAnd(a: Datum, b: Datum)
    ensures Xor(a, b) == And(Or(a, b), Not(And(a, b)))
  {
  }

  // ----------------------------------------------------------- comparison

  datatype CompareOp = EQ | NE | LT | LE | GT | GE

  /** Whether an ordering outcome (-1, 0, 1) satisfies the operator. */
  predicate Holds(op: CompareOp, c: int)
  {
    match op
    case EQ => c == 0
    case NE => c != 0
    case LT => c < 0
    case LE => c <= 0
    case GT => c > 0
    case GE => c >= 0
  }

  /** A comparison is NULL exactly when an operand is NULL; otherwise 0 or 1. */
  function Comparison(op: CompareOp, a: Datum, b: Datum): (r: Datum)
    ensures r.Null? <==> a.Null? || b.Null?
    ensures !r.Null? ==> (r == Int(1) <==> Holds(op, Compare(a, b)))
    ensures !r.Null? ==> r == Int(0) || r == Int(1)
  {
    if a.Null? || b.Null? then Null else FromBool(Holds(op, Compare(a, b)))
  }

  /** The operator with its operands swapped: a < b is b > a. */
  function Converse(op: CompareOp): CompareOp
  {
    match op
    case EQ => EQ
    case NE => NE
    case LT => GT
    case LE => GE
    case GT => LT
    case GE => LE
  }

  /** Swapping the operands and taking the converse operator gives the same value. */
  lemma ComparisonConverse(op: CompareOp, a: Datum, b: Datum)
    ensures Comparison(op, a, b) == Comparison(Converse(op), b, a)
  {
    if !a.Null? && !b.Null? {
      CompareAntisymmetric(a, b);
    }
  }

  /** `<>` is the negation of `=`, and `>=` the negation of `<`, NULL included. */
  lemma ComparisonNegation(a: Datum, b: Datum)
    ensures Comparison(NE, a, b) == Not(Comparison(EQ, a, b))
    ensures Comparison(GE, a, b) == Not(Comparison(LT, a, b))
    ensures Comparison(GT, a, b) == Not(Comparison(LE, a, b))
  {
  }

  // ------------------------------------------------------- bit operations

  datatype BitOp = BitAnd | BitOr | BitXor | LeftShift | RightShift

  /** 2 to the power n. */
  function Pow2(n: nat): (p: nat)
    ensures p >= 1
  {
    if n == 0 then 1 else 2 * Pow2(n - 1)
  }

  const TwoTo64: nat := 0x1_0000_0000_0000_0000

  /** An integer as the unsigned 64-bit word the bit operators work on (two's complement). */
  function ToUint64(i: int): (w: nat)
    ensures w < TwoTo64
  {
    i % TwoTo64
  }

  /** Bitwise AND of two naturals, lowest bit first. */
  function BitsAnd(x: nat, y: nat): nat
  {
    if x == 0 || y == 0 then 0 else 2 * BitsAnd(x / 2, y / 2) + (x % 2) * (y % 2)
  }

  /** Bitwise OR of two naturals, lowest bit first. */
  function BitsOr(x: nat, y: nat): nat
    decreases x + y
  {
    if x == 0 then y
    else if y == 0 then x
    else 2 * BitsOr(x / 2, y / 2) + (if x % 2 == 1 || y % 2 == 1 then 1 else 0)
  }

  /** Bitwise XOR of two naturals, lowest bit first. */
  function BitsXor(x: nat, y: nat): nat
    decreases x + y
  {
    if x == 0 then y
    else if y == 0 then x
    else 2 * BitsXor(x / 2, y / 2) + (if x % 2 != y % 2 then 1 else 0)
  }

  /** x shifted left: multiplied by the power of two p, truncated to 64 bits. */
  function ShiftLeftWord(x: nat, p: nat): (w: nat)
    ensures w < TwoTo64
  {
    var m: int := x * p;
    m % TwoTo64
  }

  /** x shifted right by n bits: halved n times, rounding down each time. */
  function ShiftRightWord(x: nat, n: nat): (w: nat)
    ensures w <= x
  {
    if n == 0 then x else ShiftRightWord(x / 2, n - 1)
  }

  /** The 64-bit result of one bit operator on two words; shifts by 64 or more give 0. */
  function BitWord(op: BitOp, x: nat, y: nat): nat
  {
    match op
    case BitAnd => BitsAnd(x, y)
    case BitOr => BitsOr(x, y)
    case BitXor => BitsXor(x, y)
    case LeftShift => if y >= 64 then 0 else ShiftLeftWord(x, Pow2(y))
    case RightShift => if y >= 64 then 0 else ShiftRightWord(x, y)
  }

  /**
   * `&`, `|`, `^`, `<<`, `>>`: NULL if either operand is NULL, otherwise the
   * operator applied to the two operands as unsigned 64-bit words.
   */
  function BitOperation(op: BitOp, a: Datum, b: Datum): (r: Datum)
    ensures r.Null? <==> a.Null? || b.Null?
    ensures r.Int? ==> 0 <= r.i < TwoTo64
    ensures !r.Str?
  {
    if a.Null? || b.Null? then Null
    else
      var x, y := ToUint64(ToInt(a)), ToUint64(ToInt(b));
      WordBounds(op, x, y);
      Int(BitWord(op, x, y))
  }

  lemma {:induction false} Pow2Add(a: nat, b: nat)
    ensures Pow2(a + b) == Pow2(a) * Pow2(b)
    decreases a
  {
    if a > 0 {
      Pow2Add(a - 1, b);
    }
  }

  /** Doubling the exponent squares the power. */
  lemma Pow2Double(n: nat, v: nat)
    requires Pow2(n) == v
    ensures Pow2(n + n) == v * v
  {
    Pow2Add(n, n);
  }

  lemma Pow2Of64()
    ensures Pow2(64) == TwoTo64
  {
    Pow2Double(1, 2);
    Pow2Double(2, 4);
    Pow2Double(4, 16);
    Pow2Double(8, 256);
    Pow2Double(16, 0x1_0000);
    Pow2Double(32, 0x1_0000_0000);
  }

  /** The bitwise operators keep n-bit operands within n bits. */
  lemma {:induction false} BitsBounded(x: nat, y: nat, n: nat)
    requires x < Pow2(n) && y < Pow2(n)
    ensures BitsAnd(x, y) < Pow2(n) && BitsOr(x, y) < Pow2(n) && BitsXor(x, y) < Pow2(n)
  {
    if n > 0 && x > 0 && y > 0 {
      BitsBounded(x / 2, y / 2, n - 1);
    }
  }

  /** Every bit operator maps 64-bit words to a 64-bit word. */
  lemma WordBounds(op: BitOp, x: nat, y: nat)
    requires x < TwoTo64 && y < TwoTo64
    ensures BitWord(op, x, y) < TwoTo64
  {
    Pow2Of64();
    BitsBounded(x, y, 64);
  }

  lemma {:induction false} XorWithItself(x: nat)
    ensures BitsXor(x, x) == 0
  {
    if x != 0 {
      XorWithItself(x / 2);
    }
  }

  /** XOR-ing with the same word twice gives back the original word. */
  lemma {:induction false} XorSelfInverse(x: nat, y: nat)
    ensures BitsXor(BitsXor(x, y), y) == x
    decreases x + y
  {
    if x == 0 {
      XorWithItself(y);
    } else if y != 0 {
      XorSelfInverse(x / 2, y / 2);
      var h := BitsXor(x / 2, y / 2);
      var b := if x % 2 != y % 2 then 1 else 0;
      var z := BitsXor(x, y);
      assert z == 2 * h + b;
      assert z / 2 == h && z % 2 == b;
      if z == 0 {
        assert x / 2 == y / 2 && x % 2 == y % 2;
      } else {
        assert BitsXor(z, y) == 2 * BitsXor(h, y / 2) + (if b != y % 2 then 1 else 0);
      }
    }
  }

  /** `(a ^ b) ^ b` is the word of a, for any non-NULL a and b. */
  lemma XorCancels(a: Datum, b: Datum)
    requires !a.Null? && !b.Null?
    ensures BitOperation(BitXor, BitOperation(BitXor, a, b), b) == Int(ToUint64(ToInt(a)))
  {
    var x, y := ToUint64(ToInt(a)), ToUint64(ToInt(b));
    var z := BitsXor(x, y);
    WordBounds(BitXor, x, y);
    assert ToUint64(z) == z;
    XorSelfInverse(x, y);
  }

  /** Bitwise AND, OR and XOR do not depend on the order of their operands. */
  lemma {:induction false} BitsCommute(x: nat, y: nat)
    ensures BitsAnd(x, y) == BitsAnd(y, x)
    ensures BitsOr(x, y) == BitsOr(y, x)
    ensures BitsXor(x, y) == BitsXor(y, x)
    decreases x + y
  {
    if x != 0 && y != 0 {
      BitsCommute(x / 2, y / 2);
    }
  }

  /** `a & b == b & a`, `a | b == b | a` and `a ^ b == b ^ a`, NULL operands included. */
  lemma BitOperationCommutes(a: Datum, b: Datum)
    ensures BitOperation(BitAnd, a, b) == BitOperation(BitAnd, b, a)
    ensures BitOperation(BitOr, a, b) == BitOperation(BitOr, b, a)
    ensures BitOperation(BitXor, a, b) == BitOperation(BitXor, b, a)
  {
    if !a.Null? && !b.Null? {
      BitsCommute(ToUint64(ToInt(a)), ToUint64(ToInt(b)));
    }
  }

  /** AND keeps only bits both operands have; OR keeps every bit either has. */
  lemma {:induction false} BitsAndOrOrder(x: nat, y: nat)
    ensures BitsAnd(x, y) <= x && BitsAnd(x, y) <= y
    ensures x <= BitsOr(x, y) && y <= BitsOr(x, y)
    decreases x + y
  {
    if x != 0 && y != 0 {
      BitsAndOrOrder(x / 2, y / 2);
      assert (x % 2) * (y % 2) <= x % 2 && (x % 2) * (y % 2) <= y % 2;
    }
  }

  /** Doubling one factor doubles the product. */
  lemma MulDouble(a: nat, p: nat)
    ensures a * (2 * p) == 2 * (a * p)
  {
  }

  /** Bounds on half of x give bounds on x. */
  lemma HalfBounds(x: nat, lo: int, hi: int)
    requires lo <= x / 2 < hi
    ensures 2 * lo <= x < 2 * hi
  {
  }

  /** Shifting right by n bits is division by 2^n rounded down: the result s
   * is the largest with s * 2^n <= x. */
  lemma {:induction false} ShiftRightDivides(x: nat, n: nat)
    ensures ShiftRightWord(x, n) * Pow2(n) <= x < (ShiftRightWord(x, n) + 1) * Pow2(n)
  {
    if n > 0 {
      var s, p := ShiftRightWord(x / 2, n - 1), Pow2(n - 1);
      assert ShiftRightWord(x, n) == s && Pow2(n) == 2 * p;
      ShiftRightDivides(x / 2, n - 1);
      HalfBounds(x, s * p, (s + 1) * p);
      MulDouble(s, p);
      MulDouble(s + 1, p);
    }
  }

  /** Shifting x * 2^n right by n bits gives back x. */
  lemma {:induction false} ShiftRightUndoes(x: nat, n: nat)
    ensures ShiftRightWord(x * Pow2(n), n) == x
  {
    if n > 0 {
      MulDouble(x, Pow2(n - 1));
      ShiftRightUndoes(x, n - 1);
    }
  }

  /** A value that fits in 64 bits is its own word. */
  lemma WordUnchanged(m: int)
    requires 0 <= m < TwoTo64
    ensures m % TwoTo64 == m
  {
  }

  /** A left shift that loses no bits is undone by the right shift by the same amount. */
  lemma ShiftRoundTrip(x: nat, n: nat)
    requires n < 64 && x * Pow2(n) < TwoTo64
    ensures BitWord(RightShift, BitWord(LeftShift, x, n), n) == x
  {
    var m := x * Pow2(n);
    WordUnchanged(m);
    assert BitWord(LeftShift, x, n) == m;
    ShiftRightUndoes(x, n);
  }

  /** The bit-operator rows of the evaluator's test table. */
  lemma BitOperationExamples()
    ensures BitOperation(BitAnd, Int(1), Int(1)) == Int(1)
    ensures BitOperation(BitOr, Int(1), Int(1)) == Int(1)
    ensures BitOperation(BitXor, Int(1), Int(1)) == Int(0)
    ensures BitOperation(LeftShift, Int(1), Int(1)) == Int(2)
    ensures BitOperation(RightShift, Int(2), Int(1)) == Int(1)
    ensures BitOperation(BitAnd, Null, Int(1)) == Null
    ensures BitOperation(BitAnd, Int(1), Null) == Null
  {
    assert ToUint64(1) == 1 && ToUint64(2) == 2;
    BitWordExamples();
  }

  lemma BitWordExamples()
    ensures BitWord(BitAnd, 1, 1) == 1 && BitWord(BitOr, 1, 1) == 1 && BitWord(BitXor, 1, 1) == 0
    ensures BitWord(LeftShift, 1, 1) == 2 && BitWord(RightShift, 2, 1) == 1
  {
    assert Pow2(1) == 2;
  }

  // ------------------------------------------------ integer DIV and MOD

  /** Integer quotient rounded toward zero, as Go's and MySQL's DIV do. */
  function TruncDiv(x: int, y: int): int
    requires y != 0
  {
    if x >= 0 && y > 0 then x / y
    else if x >= 0 then -(x / -y)
    else if y > 0 then -((-x) / y)
    else (-x) / (-y)
  }

  /** Remainder whose sign follows the dividend, as Go's `%` and MySQL's MOD do. */
  function TruncMod(x: int, y: int): int
    requires y != 0
  {
    x - y * TruncDiv(x, y)
  }

  /** `DIV`: NULL for a NULL operand or a zero divisor. */
  function IntDiv(a: Datum, b: Datum): (r: Datum)
    ensures r.Null? <==> a.Null? || b.Null? || ToInt(b) == 0
    ensures !r.Str?
  {
    if a.Null? || b.Null? || ToInt(b) == 0 then Null else Int(TruncDiv(ToInt(a), ToInt(b)))
  }

  /** `MOD` / `%`: NULL for a NULL operand or a zero divisor. */
  function Mod(a: Datum, b: Datum): (r: Datum)
    ensures r.Null? <==> a.Null? || b.Null? || ToInt(b) == 0
    ensures !r.Str?
  {
    if a.Null? || b.Null? || ToInt(b) == 0 then Null else Int(TruncMod(ToInt(a), ToInt(b)))
  }

  lemma TruncDivBounds(x: int, y: int)
    requires y != 0
    ensures var q, m := TruncDiv(x, y), TruncMod(x, y);
      x == y * q + m && (if m < 0 then -m else m) < (if y < 0 then -y else y) &&
      (m == 0 || (m < 0 <==> x < 0))
  {
    var q := TruncDiv(x, y);
    if x >= 0 && y > 0 {
      assert x == y * (x / y) + x % y;
    } else if x >= 0 {
      assert x == (-y) * (x / -y) + x % (-y);
      assert y * q == (-y) * (x / -y);
    } else if y > 0 {
      assert -x == y * ((-x) / y) + (-x) % y;
      assert y * q == -(y * ((-x) / y));
    } else {
      assert -x == (-y) * ((-x) / -y) + (-x) % (-y);
      assert y * q == -((-y) * ((-x) / -y));
    }
  }

  /**
   * DIV and MOD together reconstruct the dividend; the remainder is smaller
   * than the divisor in magnitude and takes the dividend's sign.
   */
  lemma DivModIdentity(a: Datum, b: Datum)
    requires !a.Null? && !b.Null? && ToInt(b) != 0
    ensures IntDiv(a, b).Int? && Mod(a, b).Int?
    ensures var x, y, q, m := ToInt(a), ToInt(b), IntDiv(a, b).i, Mod(a, b).i;
      x == y * q + m && (if m < 0 then -m else m) < (if y < 0 then -y else y) &&
      (m == 0 || (m < 0 <==> x < 0))
  {
    TruncDivBounds(ToInt(a), ToInt(b));
  }

  // ------------------------------------------------ IS [NOT] TRUE / NULL

  /** `v IS [NOT] TRUE` (target true) and `v IS [NOT] FALSE` (target false); never NULL. */
  function IsTruth(v: Datum, target: bool, negated: bool): (r: Datum)
    ensures r == Int(0) || r == Int(1)
    ensures r == Int(1) <==> (!v.Null? && Truth(v) == target) != negated
  {
    FromBool((!v.Null? && Truth(v) == target) != negated)
  }

  /** `v IS [NOT] NULL`; never NULL. */
  function IsNull(v: Datum, negated: bool): (r: Datum)
    ensures r == Int(0) || r == Int(1)
    ensures r == Int(1) <==> v.Null? != negated
  {
    FromBool(v.Null? != negated)
  }

  /**
   * The NOT forms answer the opposite of the plain forms, and a value IS TRUE
   * exactly when it is not FALSE and not NULL.
   */
  lemma IsPredicatesComplement(v: Datum, target: bool)
    ensures IsTruth(v, target, true) == Not(IsTruth(v, target, false))
    ensures IsNull(v, true) == Not(IsNull(v, false))
    ensures IsTruth(v, true, false) == Int(1) <==>
      IsTruth(v, false, false) == Int(0) && IsNull(v, false) == Int(0)
  {
  }

  // ----------------------------------------------------------------- IN

  /** Some list element is non-NULL and compares equal to v. */
  predicate ListHasEqual(v: Datum, list: seq<Datum>)
    requires !v.Null?
  {
    exists k :: 0 <= k < |list| && !list[k].Null? && Compare(v, list[k]) == 0
  }

  /**
   * `v [NOT] IN (list)`: NULL when v is NULL; otherwise true when some element
   * equals v, NULL when none does but some element is NULL, else false.
   */
  function In(v: Datum, list: seq<Datum>, negated: bool): (r: Datum)
  {
    if v.Null? then Null
    else
      var found := ListHasEqual(v, list);
      var hasNull := exists k :: 0 <= k < |list| && list[k].Null?;
      var r := if found then Int(1) else if hasNull then Null else Int(0);
      if negated then Not(r) else r
  }

  /** The OR of `v = e` over the list, left to right. */
  function OrOfEquals(v: Datum, list: seq<Datum>): Datum
    requires |list| > 0
  {
    if |list| == 1 then Comparison(EQ, v, list[0])
    else Or(Comparison(EQ, v, list[0]), OrOfEquals(v, list[1..]))
  }

  /** `v IN (e1, ..., en)` is `v = e1 OR ... OR v = en`; NOT IN is its negation. */
  lemma {:induction false} InIsDisjunctionOfEquals(v: Datum, list: seq<Datum>)
    requires |list| > 0
    ensures In(v, list, false) == OrOfEquals(v, list)
    ensures In(v, list, true) == Not(OrOfEquals(v, list))
  {
    if |list| > 1 {
      InIsDisjunctionOfEquals(v, list[1..]);
      if !v.Null? {
        if ListHasEqual(v, list[1..]) {
          var k :| 0 <= k < |list| - 1 && !list[1..][k].Null? && Compare(v, list[1..][k]) == 0;
          assert !list[k + 1].Null? && Compare(v, list[k + 1]) == 0;
        }
        if ListHasEqual(v, list) && !(!list[0].Null? && Compare(v, list[0]) == 0) {
          var k :| 0 <= k < |list| && !list[k].Null? && Compare(v, list[k]) == 0;
          assert k > 0 && list[1..][k - 1] == list[k];
        }
        if exists k :: 0 <= k < |list| - 1 && list[1..][k].Null? {
          var k :| 0 <= k < |list| - 1 && list[1..][k].Null?;
          assert list[k + 1].Null?;
        }
        if !list[0].Null? && (exists k :: 0 <= k < |list| && list[k].Null?) {
          var k :| 0 <= k < |list| && list[k].Null?;
          assert k > 0 && list[1..][k - 1].Null?;
        }
      }
    }
  }

  // ------------------------------------------------------------- CASE WHEN

  datatype WhenClause = WhenClause(condition: Datum, result: Datum)

  /**
   * Whether a WHEN clause fires: with a CASE operand, when it equals the
   * clause's value (NULL never equals anything); without one, when the
   * clause's condition is true.
   */
  predicate WhenMatches(operand: Option<Datum>, w: WhenClause)
  {
    match operand
    case Some(v) => Comparison(EQ, v, w.condition) == Int(1)
    case None => IsTrueValue(w.condition)
  }

  /** The ELSE result, or NULL when there is no ELSE. */
  function ElseValue(elseResult: Option<Datum>): Datum
  {
    match elseResult
    case Some(e) => e
    case None => Null
  }

  /** `CASE [operand] WHEN ... THEN ... [ELSE ...] END`: the result of the first clause that fires. */
  function CaseWhen(operand: Option<Datum>, whens: seq<WhenClause>, elseResult: Option<Datum>): (r: Datum)
    ensures forall i :: (0 <= i < |whens| && WhenMatches(operand, whens[i]) &&
                         (forall j :: 0 <= j < i ==> !WhenMatches(operand, whens[j]))) ==> r == whens[i].result
    ensures (forall i :: 0 <= i < |whens| ==> !WhenMatches(operand, whens[i])) ==> r == ElseValue(elseResult)
  {
    if whens == [] then ElseValue(elseResult)
    else if WhenMatches(operand, whens[0]) then whens[0].result
    else
      var r := CaseWhen(operand, whens[1..], elseResult);
      assert forall i :: 1 <= i < |whens| ==> whens[i] == whens[1..][i - 1];
      r
  }

  // --------------------------------------------------------------- BETWEEN

  /** `v [NOT] BETWEEN lo AND hi` is `v >= lo AND v <= hi`, negated for NOT. */
  function Between(v: Datum, lo: Datum, hi: Datum, negated: bool): Datum
  {
    var r := And(Comparison(GE, v, lo), Comparison(LE, v, hi));
    if negated then Not(r) else r
  }

  /** With no NULL involved, BETWEEN is the closed-interval test and NOT BETWEEN its complement. */
  lemma BetweenInterval(v: Datum, lo: Datum, hi: Datum)
    requires !v.Null? && !lo.Null? && !hi.Null?
    ensures Between(v, lo, hi, false) == FromBool(Compare(v, lo) >= 0 && Compare(v, hi) <= 0)
    ensures Between(v, lo, hi, true) == FromBool(Compare(v, lo) < 0 || Compare(v, hi) > 0)
  {
  }

  /** A NULL operand makes BETWEEN NULL. */
  lemma BetweenNullOperand(v: Datum, lo: Datum, hi: Datum, negated: bool)
    requires v.Null?
    ensures Between(v, lo, hi, negated) == Null
  {
  }
}
