/**
 * The rows of the LIKE pattern table in the evaluator's tests
 * (optimizer/evaluator/evaluator_test.go, lines 771-798), four per lemma:
 * pattern, input, escape character and whether the input matches.
 */
module LikeExamples {
  import opened Datums
  import opened Like

  lemma LikeTableRows1To4()
    ensures !Matches("a", CompilePattern("", '\\'))
    ensures Matches("a", CompilePattern("a", '\\'))
    ensures !Matches("b", CompilePattern("a", '\\'))
    ensures Matches("aA", CompilePattern("aA", '\\'))
  {
  }

  lemma LikeTableRows5To8()
    ensures Matches("a", CompilePattern("_", '\\'))
    ensures !Matches("ab", CompilePattern("_", '\\'))
    ensures !Matches("b", CompilePattern("__", '\\'))
    ensures Matches("AAB", CompilePattern("_ab", '\\'))
  {
  }

  lemma LikeTableRows9To12()
    ensures Matches("abcd", CompilePattern("%", '\\'))
    ensures Matches("", CompilePattern("%", '\\'))
    ensures Matches("AAA", CompilePattern("%a", '\\'))
    ensures !Matches("AAA", CompilePattern("%b", '\\'))
  {
  }

  lemma LikeTableRows13To16()
    ensures Matches("BBB", CompilePattern("b%", '\\'))
    ensures !Matches("BBB", CompilePattern("%a%", '\\'))
    ensures Matches("BAB", CompilePattern("%a%", '\\'))
    ensures !Matches("BBB", CompilePattern("a%", '\\'))
  {
  }

  lemma LikeTableRows17To20()
    ensures Matches("%a", CompilePattern("\\%a", '\\'))
    ensures !Matches("aa", CompilePattern("\\%a", '\\'))
    ensures Matches("_a", CompilePattern("\\_a", '\\'))
    ensures !Matches("aa", CompilePattern("\\_a", '\\'))
  {
  }

  lemma LikeTableRows21To24()
    ensures Matches("\\xa", CompilePattern("\\\\_a", '\\'))
    ensures Matches("\\a\\b", CompilePattern("\\a\\b", '\\'))
    ensures Matches("abc", CompilePattern("%%_", '\\'))
    ensures Matches("_a", CompilePattern("+_a", '+'))
  {
    LikeTableRows21To22();
    LikeTableRows23To24();
  }

  lemma LikeTableRows21To22()
    ensures Matches("\\xa", CompilePattern("\\\\_a", '\\'))
    ensures Matches("\\a\\b", CompilePattern("\\a\\b", '\\'))
  {
  }

  lemma LikeTableRows23To24()
    ensures Matches("abc", CompilePattern("%%_", '\\'))
    ensures Matches("_a", CompilePattern("+_a", '+'))
  {
  }

  lemma LikeTableRows25To28()
    ensures Matches("%a", CompilePattern("+%a", '+'))
    ensures !Matches("%a", CompilePattern("\\%a", '+'))
    ensures Matches("+a", CompilePattern("++a", '+'))
    ensures Matches("+xa", CompilePattern("++_a", '+'))
  {
  }

  /** The SQL-level LIKE rows, lines 805-830, with the default escape character. */
  lemma LikeOperatorRows()
    ensures LikeOp(Str("a"), Str(""), '\\', false) == Int(0)
    ensures LikeOp(Str("a"), Str("a"), '\\', false) == Int(1)
    ensures LikeOp(Str("a"), Str("b"), '\\', false) == Int(0)
    ensures LikeOp(Str("aA"), Str("Aa"), '\\', false) == Int(1)
    ensures LikeOp(Str("aAb"), Str("Aa%"), '\\', false) == Int(1)
    ensures LikeOp(Str("aAb"), Str("Aa_"), '\\', false) == Int(1)
  {
  }
}
