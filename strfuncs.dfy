/**
 * The string functions SUBSTRING and TRIM of the expression evaluator.
 * Positions count characters; the functions are pure, so evaluating the
 * same call twice gives the same result.
 */
module StringFunctions {
  import opened Wrappers
  import opened Text
  import opened Datums

  datatype EvalError =
    | SubstringNeedsString   // the string argument is not a string value
    | SubstringPosNeedsInt   // the position is not an integer value
    | SubstringLenNeedsInt   // the length is given and is not an integer value

  // ------------------------------------------------------------- SUBSTRING

  /**
   * The 0-based index a SUBSTRING position designates in a string of n
   * characters: positive positions count from 1 at the start, negative ones
   * from -1 at the end; position 0 designates nothing (index n).
   */
  function StartIndex(n: nat, pos: int): int
  {
    if pos > 0 then pos - 1 else if pos < 0 then n + pos else n
  }

  /**
   * The characters of s from position pos on, at most len of them when a
   * length is given; empty when the position is outside s or the length is
   * not positive.
   */
  function SubstringOf(s: string, pos: int, len: Option<int>): (r: string)
    ensures |r| <= |s|
    ensures len.Some? ==> |r| <= (if len.value < 0 then 0 else len.value)
  {
    var start := StartIndex(|s|, pos);
    if start < 0 || start >= |s| then ""
    else match len
      case None => s[start..]
      case Some(l) =>
        if l <= 0 then ""
        else if start + l >= |s| then s[start..]
        else s[start..start + l]
  }

  /**
   * `SUBSTRING(str, pos [, len])`: an error unless str is a string and pos
   * (and len, when given) are integers; otherwise the selected characters.
   */
  function Substring(str: Datum, pos: Datum, len: Option<Datum>): (r: Result<Datum, EvalError>)
    ensures r.Err? <==> !str.Str? || !pos.Int? || (len.Some? && !len.value.Int?)
    ensures r.Ok? ==> r.value.Str? && |r.value.s| <= |str.s|
  {
    if !str.Str? then Err(SubstringNeedsString)
    else if !pos.Int? then Err(SubstringPosNeedsInt)
    else if len.Some? && !len.value.Int? then Err(SubstringLenNeedsInt)
    else Ok(Str(SubstringOf(str.s, pos.i, if len.Some? then Some(len.value.i) else None)))
  }

  /** A position p from 1 to |s| without a length gives s from its p-th character on. */
  lemma SubstringFromPosition(s: string, p: int)
    requires 1 <= p <= |s|
    ensures SubstringOf(s, p, None) == s[p - 1..]
    ensures |SubstringOf(s, p, None)| == |s| - p + 1
  {
  }

  /** A position -k with k from 1 to |s| without a length gives the last k characters. */
  lemma SubstringFromEnd(s: string, k: int)
    requires 1 <= k <= |s|
    ensures SubstringOf(s, -k, None) == s[|s| - k..]
    ensures |SubstringOf(s, -k, None)| == k
  {
  }

  /**
   * Taking n characters at position p, then everything from position p + n,
   * gives everything from position p: the length only truncates.
   */
  lemma SubstringSplit(s: string, p: int, n: int)
    requires p >= 1 && n >= 0
    ensures SubstringOf(s, p, Some(n)) + SubstringOf(s, p + n, None) == SubstringOf(s, p, None)
  {
    if p - 1 < |s| && n > 0 && p - 1 + n < |s| {
      assert s[p - 1..] == s[p - 1..p - 1 + n] + s[p - 1 + n..];
    }
  }

  /** Position 0, or a position before the start or past the end, selects nothing, whatever the length. */
  lemma SubstringOutside(s: string, p: int, len: Option<int>)
    requires p == 0 || p > |s| || p < -|s|
    ensures SubstringOf(s, p, len) == ""
  {
  }

  /**
   * At any position, positive or negative, a length n keeps the first n
   * characters of what the position alone selects: none when n is not
   * positive, all of them when n reaches past the end.
   */
  lemma SubstringLengthTruncates(s: string, p: int, n: int)
    ensures var w := SubstringOf(s, p, None);
      SubstringOf(s, p, Some(n)) == w[..if n <= 0 then 0 else if n < |w| then n else |w|]
  {
    var start := StartIndex(|s|, p);
    if 0 <= start < |s| && n > 0 && start + n < |s| {
      assert s[start..][..n] == s[start..start + n];
    }
  }

  /** The rows of the SUBSTRING table in the evaluator's tests. */
  lemma SubstringExamples()
    ensures Substring(Str("Quadratically"), Int(5), None) == Ok(Str("ratically"))
    ensures Substring(Str("foobarbar"), Int(4), None) == Ok(Str("barbar"))
    ensures Substring(Str("Quadratically"), Int(5), Some(Int(6))) == Ok(Str("ratica"))
    ensures Substring(Str("Sakila"), Int(-3), None) == Ok(Str("ila"))
    ensures Substring(Str("Sakila"), Int(-5), Some(Int(3))) == Ok(Str("aki"))
    ensures Substring(Str("Sakila"), Int(-4), Some(Int(2))) == Ok(Str("ki"))
    ensures Substring(Str("Sakila"), Int(1000), Some(Int(2))) == Ok(Str(""))
    ensures Substring(Str(""), Int(2), Some(Int(3))) == Ok(Str(""))
    ensures Substring(Int(1), Int(5), None).Err?
    ensures Substring(Str("foobarbar"), Str("4"), None).Err?
    ensures Substring(Str("Quadratically"), Int(5), Some(Str("6"))).Err?
  {
    assert "Quadratically"[4..] == "ratically";
    assert "foobarbar"[3..] == "barbar";
    assert "Quadratically"[4..10] == "ratica";
    assert "Sakila"[3..] == "ila";
    assert "Sakila"[1..4] == "aki";
    assert "Sakila"[2..4] == "ki";
  }

  // ------------------------------------------------------------------ TRIM

  datatype TrimDirection = TrimBothDefault | TrimBoth | TrimLeading | TrimTrailing

  /** The characters TRIM removes when no removal string is given. */
  predicate IsTrimSpace(c: char) { c == ' ' || c == '\t' || c == '\r' || c == '\n' }

  /** s without its leading space characters: a suffix of s. */
  function TrimLeftSpaces(s: string): (r: string)
    ensures |r| <= |s| && r == s[|s| - |r|..]
  {
    if s != [] && IsTrimSpace(s[0]) then
      var r := TrimLeftSpaces(s[1..]);
      assert s[1..][|s| - 1 - |r|..] == s[|s| - |r|..];
      r
    else s
  }

  /** s without its trailing space characters: a prefix of s. */
  function TrimRightSpaces(s: string): (r: string)
    ensures |r| <= |s| && r == s[..|r|]
  {
    if s != [] && IsTrimSpace(s[|s| - 1]) then
      var r := TrimRightSpaces(s[..|s| - 1]);
      assert s[..|s| - 1][..|r|] == s[..|r|];
      r
    else s
  }

  /** Exactly the leading spaces go: everything removed is a space, and what is left does not start with one. */
  lemma {:induction false} TrimLeftSpacesStripsSpaces(s: string)
    ensures var r := TrimLeftSpaces(s);
      (r == [] || !IsTrimSpace(r[0])) &&
      forall i :: 0 <= i < |s| - |r| ==> IsTrimSpace(s[i])
  {
    if s != [] && IsTrimSpace(s[0]) {
      TrimLeftSpacesStripsSpaces(s[1..]);
      var r := TrimLeftSpaces(s);
      assert forall i :: 1 <= i < |s| - |r| ==> s[i] == s[1..][i - 1];
    }
  }

  /** Exactly the trailing spaces go: everything removed is a space, and what is left does not end with one. */
  lemma {:induction false} TrimRightSpacesStripsSpaces(s: string)
    ensures var r := TrimRightSpaces(s);
      (r == [] || !IsTrimSpace(r[|r| - 1])) &&
      forall i :: |r| <= i < |s| ==> IsTrimSpace(s[i])
  {
    if s != [] && IsTrimSpace(s[|s| - 1]) {
      TrimRightSpacesStripsSpaces(s[..|s| - 1]);
      var r := TrimRightSpaces(s);
      assert forall i :: |r| <= i < |s| - 1 ==> s[i] == s[..|s| - 1][i];
    }
  }

  /** k copies of rem, one after the other. */
  function Repeat(rem: string, k: nat): string
  {
    if k == 0 then [] else rem + Repeat(rem, k - 1)
  }

  lemma {:induction false} RepeatAppend(rem: string, k: nat)
    ensures Repeat(rem, k + 1) == Repeat(rem, k) + rem
  {
    if k > 0 {
      RepeatAppend(rem, k - 1);
    }
  }

  lemma PrependCopy(rem: string, k: nat, r: string)
    ensures rem + (Repeat(rem, k) + r) == Repeat(rem, k + 1) + r
  {
    calc {
      Repeat(rem, k + 1) + r;
      (rem + Repeat(rem, k)) + r;
      rem + (Repeat(rem, k) + r);
    }
  }

  /** A text that starts with rem and goes on with k copies of it and r is k + 1 copies and r. */
  lemma LeadingCopy(s: string, rem: string, k: nat, r: string)
    requires rem <= s && s[|rem|..] == Repeat(rem, k) + r
    ensures s == Repeat(rem, k + 1) + r
  {
    assert s == rem + s[|rem|..];
    PrependCopy(rem, k, r);
  }

  /** s without the whole copies of rem it starts with; an empty rem removes nothing. */
  function TrimLeftString(s: string, rem: string): (r: string)
    ensures |r| <= |s| && r == s[|s| - |r|..]
    decreases |s|
  {
    if rem != [] && rem <= s then
      var r := TrimLeftString(s[|rem|..], rem);
      assert s[|rem|..][|s| - |rem| - |r|..] == s[|s| - |r|..];
      r
    else s
  }

  /** s without the whole copies of rem it ends with; an empty rem removes nothing. */
  function TrimRightString(s: string, rem: string): (r: string)
    ensures |r| <= |s| && r == s[..|r|]
    decreases |s|
  {
    if rem != [] && |rem| <= |s| && s[|s| - |rem|..] == rem then
      var r := TrimRightString(s[..|s| - |rem|], rem);
      assert s[..|s| - |rem|][..|r|] == s[..|r|];
      r
    else s
  }

  /** What TrimLeftString removes is a whole number of copies of rem. */
  lemma {:induction false} TrimLeftStringRemovesCopies(s: string, rem: string)
    ensures exists k: nat :: s == Repeat(rem, k) + TrimLeftString(s, rem)
    decreases |s|
  {
    var r := TrimLeftString(s, rem);
    if rem != [] && rem <= s {
      var t := s[|rem|..];
      assert r == TrimLeftString(t, rem);
      TrimLeftStringRemovesCopies(t, rem);
      var k: nat :| t == Repeat(rem, k) + r;
      LeadingCopy(s, rem, k, r);
    } else {
      assert s == Repeat(rem, 0) + r;
    }
  }

  /** After TrimLeftString no copy of a non-empty rem is left at the start. */
  lemma {:induction false} TrimLeftStringMaximal(s: string, rem: string)
    requires rem != []
    ensures !(rem <= TrimLeftString(s, rem))
    decreases |s|
  {
    if rem <= s {
      TrimLeftStringMaximal(s[|rem|..], rem);
    }
  }

  /** A text that ends with rem and starts with r and k copies of it is r and k + 1 copies. */
  lemma TrailingCopy(s: string, rem: string, k: nat, r: string)
    requires |rem| <= |s| && s[|s| - |rem|..] == rem && s[..|s| - |rem|] == r + Repeat(rem, k)
    ensures s == r + Repeat(rem, k + 1)
  {
    RepeatAppend(rem, k);
    assert s == s[..|s| - |rem|] + rem;
  }

  /** What TrimRightString removes is a whole number of copies of rem. */
  lemma {:induction false} TrimRightStringRemovesCopies(s: string, rem: string)
    ensures exists k: nat :: s == TrimRightString(s, rem) + Repeat(rem, k)
    decreases |s|
  {
    var r := TrimRightString(s, rem);
    if rem != [] && |rem| <= |s| && s[|s| - |rem|..] == rem {
      assert r == TrimRightString(s[..|s| - |rem|], rem);
      TrimRightStringRemovesCopies(s[..|s| - |rem|], rem);
      var k: nat :| s[..|s| - |rem|] == r + Repeat(rem, k);
      TrailingCopy(s, rem, k, r);
    } else {
      assert s == r + Repeat(rem, 0);
    }
  }

  /** After TrimRightString no copy of a non-empty rem is left at the end. */
  lemma {:induction false} TrimRightStringMaximal(s: string, rem: string)
    requires rem != []
    ensures var r := TrimRightString(s, rem);
      !(|rem| <= |r| && r[|r| - |rem|..] == rem)
    decreases |s|
  {
    if |rem| <= |s| && s[|s| - |rem|..] == rem {
      TrimRightStringMaximal(s[..|s| - |rem|], rem);
    }
  }

  /** The trimmed text for one direction, with the given removal string or the default spaces. */
  function TrimText(s: string, rem: Option<string>, dir: TrimDirection): string
  {
    match rem
    case None =>
      (match dir
       case TrimLeading => TrimLeftSpaces(s)
       case TrimTrailing => TrimRightSpaces(s)
       case _ => TrimRightSpaces(TrimLeftSpaces(s)))
    case Some(t) =>
      (match dir
       case TrimLeading => TrimLeftString(s, t)
       case TrimTrailing => TrimRightString(s, t)
       case _ => TrimRightString(TrimLeftString(s, t), t))
  }

  /**
   * `TRIM([{BOTH | LEADING | TRAILING}] [remstr] FROM str)`: NULL when str or
   * remstr is NULL; otherwise str (as text) with the removal string, or
   * spaces, tabs, CR and LF when none is given, stripped from the chosen
   * side(s). Without a direction both sides are trimmed.
   */
  function Trim(str: Datum, remstr: Option<Datum>, dir: TrimDirection): (r: Datum)
    ensures r.Null? <==> str.Null? || (remstr.Some? && remstr.value.Null?)
    ensures !r.Null? ==> r.Str?
  {
    if str.Null? then Null
    else match remstr
      case None => Str(TrimText(ToStr(str), None, dir))
      case Some(rs) => if rs.Null? then Null else Str(TrimText(ToStr(str), Some(ToStr(rs)), dir))
  }

  /** Removing a prefix and then a suffix leaves a piece of the original text. */
  lemma InfixOfSuffix(s: string, a: string, c: string)
    requires |a| <= |s| && a == s[|s| - |a|..]
    requires |c| <= |a| && c == a[..|c|]
    ensures c == s[|s| - |a|..|s| - |a| + |c|]
  {
  }

  /** Whatever the direction, the trimmed text is a piece of the original text. */
  lemma TrimIsInfix(s: string, rem: Option<string>, dir: TrimDirection)
    ensures exists i, j :: 0 <= i <= j <= |s| && TrimText(s, rem, dir) == s[i..j]
  {
    var r := TrimText(s, rem, dir);
    match rem
    case None =>
      var a := TrimLeftSpaces(s);
      if dir == TrimLeading {
        assert r == s[|s| - |a|..|s|];
      } else if dir == TrimTrailing {
        assert r == s[0..|r|];
      } else {
        InfixOfSuffix(s, a, r);
        assert r == s[|s| - |a|..|s| - |a| + |r|];
      }
    case Some(t) =>
      var a := TrimLeftString(s, t);
      if dir == TrimLeading {
        assert r == s[|s| - |a|..|s|];
      } else if dir == TrimTrailing {
        assert r == s[0..|r|];
      } else {
        InfixOfSuffix(s, a, r);
        assert r == s[|s| - |a|..|s| - |a| + |r|];
      }
  }

  /** A text without a leading copy of rem keeps that property when copies are removed from its end. */
  lemma TrimRightKeepsLeft(a: string, t: string)
    requires t != [] && !(t <= a)
    ensures !(t <= TrimRightString(a, t))
  {
  }

  lemma TrimLeftStringIdempotent(s: string, t: string)
    ensures TrimLeftString(TrimLeftString(s, t), t) == TrimLeftString(s, t)
  {
    if t != [] {
      TrimLeftStringMaximal(s, t);
    }
  }

  lemma TrimRightStringIdempotent(s: string, t: string)
    ensures TrimRightString(TrimRightString(s, t), t) == TrimRightString(s, t)
  {
    if t != [] {
      TrimRightStringMaximal(s, t);
    }
  }

  lemma TrimBothStringIdempotent(s: string, t: string)
    ensures var r := TrimRightString(TrimLeftString(s, t), t);
      TrimRightString(TrimLeftString(r, t), t) == r
  {
    var a := TrimLeftString(s, t);
    var r := TrimRightString(a, t);
    if t != [] {
      TrimLeftStringMaximal(s, t);
      TrimRightKeepsLeft(a, t);
    }
    assert TrimLeftString(r, t) == r;
    TrimRightStringIdempotent(a, t);
  }

  lemma TrimBothSpacesIdempotent(s: string)
    ensures var r := TrimRightSpaces(TrimLeftSpaces(s));
      TrimRightSpaces(TrimLeftSpaces(r)) == r
  {
    var a := TrimLeftSpaces(s);
    var r := TrimRightSpaces(a);
    TrimLeftSpacesStripsSpaces(s);
    TrimRightSpacesStripsSpaces(a);
    assert TrimLeftSpaces(r) == r;
    assert TrimRightSpaces(r) == r;
  }

  /** Trimming a trimmed text again changes nothing. */
  lemma TrimIdempotent(s: string, rem: Option<string>, dir: TrimDirection)
    ensures TrimText(TrimText(s, rem, dir), rem, dir) == TrimText(s, rem, dir)
  {
    if rem.None? {
      TrimSpacesIdempotent(s, dir);
    } else {
      TrimStringIdempotent(s, rem.value, dir);
    }
  }

  lemma TrimSpacesIdempotent(s: string, dir: TrimDirection)
    ensures TrimText(TrimText(s, None, dir), None, dir) == TrimText(s, None, dir)
  {
    match dir
    case TrimLeading => TrimLeftSpacesStripsSpaces(s);
    case TrimTrailing => TrimRightSpacesStripsSpaces(s);
    case _ => TrimBothSpacesIdempotent(s);
  }

  lemma TrimStringIdempotent(s: string, rem: string, dir: TrimDirection)
    ensures TrimText(TrimText(s, Some(rem), dir), Some(rem), dir) == TrimText(s, Some(rem), dir)
  {
    var r := TrimText(s, Some(rem), dir);
    match dir
    case TrimLeading =>
      assert r == TrimLeftString(s, rem);
      TrimLeftStringIdempotent(s, rem);
      assert TrimText(r, Some(rem), dir) == TrimLeftString(r, rem);
    case TrimTrailing =>
      assert r == TrimRightString(s, rem);
      TrimRightStringIdempotent(s, rem);
      assert TrimText(r, Some(rem), dir) == TrimRightString(r, rem);
    case _ =>
      assert r == TrimRightString(TrimLeftString(s, rem), rem);
      TrimBothStringIdempotent(s, rem);
      assert TrimText(r, Some(rem), dir) == TrimRightString(TrimLeftString(r, rem), rem);
  }

  // One removal step of each trimming function, for unfolding on known texts.

  lemma LeftSpaceStep(c: char, s: string)
    requires IsTrimSpace(c)
    ensures TrimLeftSpaces([c] + s) == TrimLeftSpaces(s)
  {
    assert ([c] + s)[1..] == s;
  }

  lemma RightSpaceStep(s: string, c: char)
    requires IsTrimSpace(c)
    ensures TrimRightSpaces(s + [c]) == TrimRightSpaces(s)
  {
    assert (s + [c])[..|s|] == s;
  }

  lemma LeftStringStep(rem: string, s: string)
    requires rem != []
    ensures TrimLeftString(rem + s, rem) == TrimLeftString(s, rem)
  {
    assert (rem + s)[|rem|..] == s;
  }

  lemma RightStringStep(s: string, rem: string)
    requires rem != []
    ensures TrimRightString(s + rem, rem) == TrimRightString(s, rem)
  {
    assert (s + rem)[|s|..] == rem;
    assert (s + rem)[..|s|] == s;
  }

  // The rows of the TRIM table in the evaluator's tests, one lemma per row.

  lemma TrimLeftSpacesExample()
    ensures TrimLeftSpaces("  bar   ") == "bar   "
  {
    assert TrimLeftSpaces("bar   ") == "bar   " by { assert !IsTrimSpace("bar   "[0]); }
    LeftSpaceStep(' ', "bar   ");
    assert [' '] + "bar   " == " bar   ";
    LeftSpaceStep(' ', " bar   ");
    assert [' '] + " bar   " == "  bar   ";
  }

  lemma TrimRightSpacesExample()
    ensures TrimRightSpaces("bar   ") == "bar"
  {
    var t := "bar";
    assert TrimRightSpaces(t) == t by { assert !IsTrimSpace(t[2]); }
    RightSpaceStep(t, ' ');
    RightSpaceStep(t + [' '], ' ');
    RightSpaceStep(t + [' '] + [' '], ' ');
    assert t + [' '] + [' '] + [' '] == "bar   ";
  }

  lemma TrimSpacesExample()
    ensures Trim(Str("  bar   "), None, TrimBothDefault) == Str("bar")
  {
    TrimLeftSpacesExample();
    TrimRightSpacesExample();
  }

  lemma TrimLeftStringExample()
    ensures TrimLeftString("xxxbarxxx", "x") == "barxxx"
  {
    var t := "barxxx";
    assert TrimLeftString(t, "x") == t by { assert !("x" <= t) by { assert t[0] != "x"[0]; } }
    LeftStringStep("x", t);
    LeftStringStep("x", "x" + t);
    LeftStringStep("x", "x" + ("x" + t));
    assert "x" + ("x" + ("x" + t)) == "xxxbarxxx";
  }

  lemma TrimLeadingExample()
    ensures Trim(Str("xxxbarxxx"), Some(Str("x")), TrimLeading) == Str("barxxx")
  {
    TrimLeftStringExample();
  }

  lemma TrimRightStringExample()
    ensures TrimRightString("barxxx", "x") == "bar"
  {
    var t := "bar";
    assert TrimRightString(t, "x") == t by { assert t[2..] != "x" by { assert t[2..][0] != "x"[0]; } }
    RightStringStep(t, "x");
    RightStringStep(t + "x", "x");
    RightStringStep(t + "x" + "x", "x");
    assert t + "x" + "x" + "x" == "barxxx";
  }

  lemma TrimBothExample()
    ensures Trim(Str("xxxbarxxx"), Some(Str("x")), TrimBoth) == Str("bar")
  {
    TrimLeftStringExample();
    TrimRightStringExample();
  }

  lemma TrimTrailingExample()
    ensures Trim(Str("barxxyz"), Some(Str("xyz")), TrimTrailing) == Str("barx")
  {
    RightStringStep("barx", "xyz");
    assert "barxxyz" == "barx" + "xyz";
    assert "barx"[1..] != "xyz";
  }

  lemma TrimNullExample()
    ensures Trim(Null, Some(Str("xyz")), TrimBoth) == Null
  {
  }

  lemma TrimIntExample()
    ensures Trim(Int(1), Some(Int(2)), TrimBoth) == Str("1")
  {
    assert DigitChar(1) == '1';
    assert DigitChar(2) == '2';
    assert IntToString(1) == "1";
    assert IntToString(2) == "2";
    assert "1"[0] != "2"[0];
    assert TrimLeftString("1", "2") == "1";
    assert TrimRightString("1", "2") == "1";
  }

  lemma TrimControlLeft1()
    ensures TrimLeftSpaces("\rbar\n   ") == "bar\n   "
  {
    assert TrimLeftSpaces("bar\n   ") == "bar\n   ";
    LeftSpaceStep('\r', "bar\n   ");
    assert "\rbar\n   " == ['\r'] + "bar\n   ";
  }

  lemma TrimControlLeftTab()
    ensures TrimLeftSpaces("\t\rbar\n   ") == "bar\n   "
  {
    TrimControlLeft1();
    LeftSpaceStep('\t', "\rbar\n   ");
    assert "\t\rbar\n   " == ['\t'] + "\rbar\n   ";
  }

  lemma TrimControlLeft2()
    ensures TrimLeftSpaces(" \t\rbar\n   ") == "bar\n   "
  {
    TrimControlLeftTab();
    LeftSpaceStep(' ', "\t\rbar\n   ");
    assert " \t\rbar\n   " == [' '] + "\t\rbar\n   ";
  }

  lemma TrimControlLeft()
    ensures TrimLeftSpaces("  \t\rbar\n   ") == "bar\n   "
  {
    TrimControlLeft2();
    LeftSpaceStep(' ', " \t\rbar\n   ");
    assert "  \t\rbar\n   " == [' '] + " \t\rbar\n   ";
  }

  lemma TrimControlRight()
    ensures TrimRightSpaces("bar\n   ") == "bar"
  {
    RightSpaceStep("bar\n  ", ' ');
    RightSpaceStep("bar\n ", ' ');
    RightSpaceStep("bar\n", ' ');
    RightSpaceStep("bar", '\n');
    assert "bar\n   " == "bar\n  " + [' '];
    assert "bar\n  " == "bar\n " + [' '];
    assert "bar\n " == "bar\n" + [' '];
    assert "bar\n" == "bar" + ['\n'];
    assert TrimRightSpaces("bar") == "bar";
  }

  lemma TrimControlCharactersExample()
    ensures Trim(Str("  \t\rbar\n   "), None, TrimBothDefault) == Str("bar")
  {
    TrimControlLeft();
    TrimControlRight();
  }
}
