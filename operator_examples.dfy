/**
 * Rows of the evaluator's operator tables (optimizer/evaluator/evaluator_test.go):
 * each ensures clause is one row, the operator applied to the row's
 * operands giving the row's result.
 */
module OperatorExamples {
  import opened Wrappers
  import opened Datums
  import opened Operators

  /** Three-valued AND, OR and XOR, lines 156-171. */
  lemma LogicTable()
    ensures And(Null, Int(1)) == Null && And(Null, Int(0)) == Int(0)
    ensures Or(Null, Int(1)) == Int(1) && Or(Null, Int(0)) == Null
    ensures Xor(Null, Int(1)) == Null && Xor(Null, Int(0)) == Null
    ensures And(Int(1), Int(0)) == Int(0) && And(Int(1), Int(1)) == Int(1)
    ensures Or(Int(1), Int(0)) == Int(1) && Or(Int(1), Int(1)) == Int(1) && Or(Int(0), Int(0)) == Int(0)
    ensures Xor(Int(1), Int(0)) == Int(1) && Xor(Int(1), Int(1)) == Int(0)
    ensures Xor(Int(0), Int(0)) == Int(0) && Xor(Int(0), Int(1)) == Int(1)
  {
  }

  /** NOT on an integer and on NULL, lines 961-963. */
  lemma NotTable()
    ensures Not(Int(1)) == Int(0) && Not(Int(0)) == Int(1) && Not(Null) == Null
  {
  }

  /** Every comparison with a NULL left operand is NULL, lines 121-145. */
  lemma ComparisonNullTable(op: CompareOp)
    ensures Comparison(op, Null, Null) == Null
    ensures Comparison(op, Null, Int(1)) == Null
  {
  }

  /** Integer DIV and MOD rows on integers, lines 271-293. */
  lemma DivModTable()
    ensures IntDiv(Int(1), Int(2)) == Int(0) && IntDiv(Int(1), Int(0)) == Null
    ensures Mod(Int(10), Int(2)) == Int(0) && Mod(Int(10), Int(0)) == Null
    ensures Mod(Int(-10), Int(2)) == Int(0) && Mod(Int(10), Int(-2)) == Int(0)
  {
  }

  /** IS [NOT] NULL, lines 672-691, and IS [NOT] TRUE / FALSE, lines 693-761. */
  lemma IsTable()
    ensures IsNull(Int(1), false) == Int(0) && IsNull(Int(1), true) == Int(1)
    ensures IsNull(Null, false) == Int(1) && IsNull(Null, true) == Int(0)
    ensures IsTruth(Int(1), true, false) == Int(1) && IsTruth(Int(2), true, false) == Int(1)
    ensures IsTruth(Int(0), true, false) == Int(0) && IsTruth(Null, true, false) == Int(0)
    ensures IsTruth(Int(1), false, false) == Int(0) && IsTruth(Int(2), false, false) == Int(0)
    ensures IsTruth(Int(0), false, false) == Int(1) && IsTruth(Null, false, true) == Int(1)
    ensures IsTruth(Int(1), true, true) == Int(0) && IsTruth(Int(2), true, true) == Int(0)
    ensures IsTruth(Int(0), true, true) == Int(1) && IsTruth(Null, true, true) == Int(1)
    ensures IsTruth(Int(1), false, true) == Int(1) && IsTruth(Int(2), false, true) == Int(1)
    ensures IsTruth(Int(0), false, true) == Int(0)
  {
  }

  /** IN rows, lines 647-670. */
  lemma InTable()
    ensures In(Int(1), [Int(1), Int(2), Int(3)], false) == Int(1)
    ensures In(Int(1), [Int(2), Int(3)], false) == Int(0)
    ensures In(Null, [Int(2), Int(3)], false) == Null
    ensures In(Null, [Int(2), Int(3)], true) == Null
    ensures In(Null, [Null, Int(3)], false) == Null
  {
    assert Compare(Int(1), [Int(1), Int(2), Int(3)][0]) == 0;
  }

  /** CASE rows, lines 318-338: the WHEN clauses 1 THEN 'str1' and 2 THEN 'str2'. */
  lemma CaseWhenTable()
    ensures var whens := [WhenClause(Int(1), Str("str1")), WhenClause(Int(2), Str("str2"))];
      CaseWhen(Some(Int(1)), whens, None) == Str("str1") &&
      CaseWhen(Some(Int(2)), whens, None) == Str("str2") &&
      CaseWhen(Some(Int(3)), whens, None) == Null &&
      CaseWhen(Some(Int(4)), whens, Some(Str("str3"))) == Str("str3")
  {
  }

  /** BETWEEN rows, lines 66-72. */
  lemma BetweenTable()
    ensures Between(Int(1), Int(2), Int(3), false) == Int(0)
    ensures Between(Int(1), Int(2), Int(3), true) == Int(1)
  {
  }
}
