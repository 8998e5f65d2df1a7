/**
 * The LIKE operator: a pattern is compiled once, resolving the escape
 * character, into a sequence of elements (a literal character, `_` for one
 * character, `%` for any run), which is then matched against the input with
 * ASCII case ignored.
 */
module Like {
  import opened Text
  import opened Datums
  import Operators

  datatype PatElem = Lit(c: char) | One | Any

  /** The characters an escape character makes literal: `%`, `_` and itself. */
  predicate Escapable(c: char, escape: char) { c == escape || c == '_' || c == '%' }

  /**
   * One pass over the pattern text. The escape character followed by `%`, `_`
   * or itself stands for that character literally; anywhere else (an invalid
   * escape, or the last character) it is an ordinary character.
   */
  function Scan(pattern: string, escape: char): seq<PatElem>
  {
    if pattern == [] then []
    else if pattern[0] == escape then
      if |pattern| > 1 && Escapable(pattern[1], escape) then [Lit(pattern[1])] + Scan(pattern[2..], escape)
      else [Lit(escape)] + Scan(pattern[1..], escape)
    else if pattern[0] == '_' then [One] + Scan(pattern[1..], escape)
    else if pattern[0] == '%' then [Any] + Scan(pattern[1..], escape)
    else [Lit(pattern[0])] + Scan(pattern[1..], escape)
  }

  /** Merges each run of consecutive `%` into one. */
  function Collapse(q: seq<PatElem>): (r: seq<PatElem>)
    ensures |r| <= |q|
    ensures forall i :: 0 <= i < |r| - 1 ==> !(r[i] == Any && r[i + 1] == Any)
    ensures |q| > 0 ==> |r| > 0 && (r[0] == Any <==> q[0] == Any)
  {
    if |q| <= 1 then q
    else if q[0] == Any && q[1] == Any then Collapse(q[1..])
    else [q[0]] + Collapse(q[1..])
  }

  /** compilePattern: the escape-resolved pattern with no two `%` in a row. */
  function CompilePattern(pattern: string, escape: char): seq<PatElem>
  {
    Collapse(Scan(pattern, escape))
  }

  /**
   * doMatch: the whole input matches the whole pattern. A literal matches one
   * character equal to it up to case, `_` matches any one character, `%`
   * matches any run of characters, the empty run included.
   */
  predicate Matches(s: string, q: seq<PatElem>)
    decreases |q|, |s|
  {
    if q == [] then s == []
    else match q[0]
      case Lit(c) => s != [] && EqualFold(s[0], c) && Matches(s[1..], q[1..])
      case One => s != [] && Matches(s[1..], q[1..])
      case Any => Matches(s, q[1..]) || (s != [] && Matches(s[1..], q))
  }

  /** `%` followed by q matches s exactly when q matches some suffix of s. */
  lemma {:induction false} AnyMatchesSomeSuffix(s: string, q: seq<PatElem>)
    ensures Matches(s, [Any] + q) <==> exists k :: 0 <= k <= |s| && Matches(s[k..], q)
    decreases |s|
  {
    var p := [Any] + q;
    assert p[1..] == q;
    assert s[0..] == s;
    if s != [] {
      AnyMatchesSomeSuffix(s[1..], q);
      if exists k :: 0 <= k <= |s| && Matches(s[k..], q) {
        var k :| 0 <= k <= |s| && Matches(s[k..], q);
        if k > 0 {
          assert s[1..][k - 1..] == s[k..];
        }
      }
      if exists k :: 0 <= k <= |s| - 1 && Matches(s[1..][k..], q) {
        var k :| 0 <= k <= |s| - 1 && Matches(s[1..][k..], q);
        assert s[k + 1..] == s[1..][k..];
      }
    }
  }

  /** A lone `%` matches every string, the empty one included. */
  lemma PercentMatchesAll(s: string)
    ensures Matches(s, [Any])
  {
    AnyMatchesSomeSuffix(s, []);
    assert Matches(s[|s|..], []);
  }

  /** `_` followed by q matches exactly the strings with one character followed by a match of q. */
  lemma UnderscoreMatchesOneChar(s: string, q: seq<PatElem>)
    ensures Matches(s, [One] + q) <==> |s| >= 1 && Matches(s[1..], q)
  {
    assert ([One] + q)[1..] == q;
  }

  /** Two `%` in a row match the same strings as one. */
  lemma {:induction false} DoubleAnyIsAny(s: string, q: seq<PatElem>)
    ensures Matches(s, [Any, Any] + q) == Matches(s, [Any] + q)
  {
    AnyMatchesSomeSuffix(s, [Any] + q);
    AnyMatchesSomeSuffix(s, q);
    assert ([Any, Any] + q) == [Any] + ([Any] + q);
    if exists k :: 0 <= k <= |s| && Matches(s[k..], [Any] + q) {
      var k :| 0 <= k <= |s| && Matches(s[k..], [Any] + q);
      AnyMatchesSomeSuffix(s[k..], q);
      var j :| 0 <= j <= |s[k..]| && Matches(s[k..][j..], q);
      assert s[k..][j..] == s[k + j..];
    }
    if exists k :: 0 <= k <= |s| && Matches(s[k..], q) {
      var k :| 0 <= k <= |s| && Matches(s[k..], q);
      AnyMatchesSomeSuffix(s, q);
      assert s[0..] == s;
      assert Matches(s[0..], [Any] + q);
    }
  }

  /** Merging runs of `%` does not change which strings a pattern matches. */
  lemma {:induction false} CollapsePreservesMatch(s: string, q: seq<PatElem>)
    ensures Matches(s, Collapse(q)) == Matches(s, q)
    decreases |q|, |s|
  {
    if |q| > 1 {
      if q[0] == Any && q[1] == Any {
        CollapsePreservesMatch(s, q[1..]);
        assert q == [Any, Any] + q[2..] && q[1..] == [Any] + q[2..];
        DoubleAnyIsAny(s, q[2..]);
      } else {
        var rest := Collapse(q[1..]);
        var r := [q[0]] + rest;
        assert r[1..] == rest;
        CollapsePreservesMatch(s, q[1..]);
        if s != [] {
          CollapsePreservesMatch(s[1..], q[1..]);
          if q[0] == Any {
            CollapsePreservesMatch(s[1..], q);
          }
        }
      }
    }
  }

  /** The string a pattern of literals only must equal, up to case. */
  predicate EqualsIgnoringCase(s: string, t: string)
  {
    |s| == |t| && forall i :: 0 <= i < |s| ==> EqualFold(s[i], t[i])
  }

  /** Pattern text with no `%`, `_` or escape character matches exactly its own text, ignoring case. */
  lemma {:induction false} PlainPatternMatchesItself(s: string, pattern: string, escape: char)
    requires forall i :: 0 <= i < |pattern| ==> pattern[i] != '%' && pattern[i] != '_' && pattern[i] != escape
    ensures Matches(s, CompilePattern(pattern, escape)) <==> EqualsIgnoringCase(s, pattern)
    decreases |pattern|
  {
    var q := Scan(pattern, escape);
    CollapsePreservesMatch(s, q);
    if pattern != [] {
      PlainPatternMatchesItself(if s == [] then s else s[1..], pattern[1..], escape);
      CollapsePreservesMatch(if s == [] then s else s[1..], Scan(pattern[1..], escape));
      if s != [] && EqualsIgnoringCase(s, pattern) {
        assert EqualsIgnoringCase(s[1..], pattern[1..]);
      }
      if s != [] && EqualFold(s[0], pattern[0]) && EqualsIgnoringCase(s[1..], pattern[1..]) {
        forall i | 0 <= i < |s|
          ensures EqualFold(s[i], pattern[i])
        {
          if i > 0 {
            assert s[1..][i - 1] == s[i];
          }
        }
      }
    }
  }

  /** An escape character before `%`, `_` or itself makes that character a literal. */
  lemma EscapedCharIsLiteral(c: char, escape: char, rest: string)
    requires Escapable(c, escape)
    ensures Scan([escape, c] + rest, escape) == [Lit(c)] + Scan(rest, escape)
  {
    assert ([escape, c] + rest)[2..] == rest;
  }

  /** An escape character before any other character, or at the end, is itself a literal. */
  lemma UnescapedEscapeIsLiteral(escape: char, rest: string)
    requires rest == [] || !Escapable(rest[0], escape)
    ensures Scan([escape] + rest, escape) == [Lit(escape)] + Scan(rest, escape)
  {
    assert ([escape] + rest)[1..] == rest;
  }

  /** The empty pattern matches only the empty string. */
  lemma EmptyPatternMatchesOnlyEmpty(s: string, escape: char)
    ensures Matches(s, CompilePattern("", escape)) <==> s == ""
  {
  }

  /**
   * `expr [NOT] LIKE pattern [ESCAPE c]`: NULL if either side is NULL,
   * otherwise 1 when the input matches the compiled pattern, 0 when not
   * (reversed by NOT).
   */
  function LikeOp(expr: Datum, pattern: Datum, escape: char, negated: bool): (r: Datum)
    ensures r.Null? <==> expr.Null? || pattern.Null?
    ensures !r.Null? ==> (r == Int(1) <==> Matches(ToStr(expr), CompilePattern(ToStr(pattern), escape)) != negated)
    ensures !r.Null? ==> r == Int(0) || r == Int(1)
  {
    if expr.Null? || pattern.Null? then Null
    else FromBool(Matches(ToStr(expr), CompilePattern(ToStr(pattern), escape)) != negated)
  }
}
