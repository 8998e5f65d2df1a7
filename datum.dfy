/**
 * The values an SQL scalar expression evaluates to: NULL, an integer or a
 * string, with the conversions and the ordering the operators use.
 */
module Datums {
  import opened Text

  datatype Datum = Null | Int(i: int) | Str(s: string)

  /** The SQL boolean encoding: 1 for true, 0 for false. */
  function FromBool(b: bool): (d: Datum)
    ensures d == Int(0) || d == Int(1)
    ensures d == Int(1) <==> b
  {
    if b then Int(1) else Int(0)
  }

  /** A non-NULL value in a numeric context; strings read their leading integer. */
  function ToInt(d: Datum): int
    requires !d.Null?
  {
    match d
    case Int(i) => i
    case Str(s) => StrToInt(s)
  }

  /** A non-NULL value in a string context; integers print in decimal. */
  function ToStr(d: Datum): string
    requires !d.Null?
  {
    match d
    case Int(i) => IntToString(i)
    case Str(s) => s
  }

  /** Truth of a non-NULL value: any non-zero number is true. */
  predicate Truth(d: Datum)
    requires !d.Null?
  {
    ToInt(d) != 0
  }

  /** The value is known to be true (non-NULL and non-zero). */
  predicate IsTrueValue(d: Datum) { !d.Null? && Truth(d) }

  /** The value is known to be false (non-NULL and zero). */
  predicate IsFalseValue(d: Datum) { !d.Null? && !Truth(d) }

  function CompareInts(x: int, y: int): int
  {
    if x < y then -1 else if x == y then 0 else 1
  }

  /** Lexicographic order of strings by character code. */
  function CompareStrings(a: string, b: string): (c: int)
    ensures -1 <= c <= 1
    ensures c == 0 <==> a == b
  {
    if a == [] && b == [] then 0
    else if a == [] then -1
    else if b == [] then 1
    else if a[0] < b[0] then -1
    else if a[0] > b[0] then 1
    else
      var c := CompareStrings(a[1..], b[1..]);
      assert a == [a[0]] + a[1..] && b == [b[0]] + b[1..];
      c
  }

  /**
   * Order of two non-NULL values: two strings compare as strings, anything
   * else compares as integers. Result -1, 0 or 1.
   */
  function Compare(a: Datum, b: Datum): (c: int)
    requires !a.Null? && !b.Null?
    ensures -1 <= c <= 1
  {
    if a.Str? && b.Str? then CompareStrings(a.s, b.s) else CompareInts(ToInt(a), ToInt(b))
  }

  lemma {:induction false} CompareStringsAntisymmetric(a: string, b: string)
    ensures CompareStrings(a, b) == -CompareStrings(b, a)
  {
    if a != [] && b != [] && a[0] == b[0] {
      CompareStringsAntisymmetric(a[1..], b[1..]);
    }
  }

  /** Swapping the operands of a comparison reverses its outcome. */
  lemma CompareAntisymmetric(a: Datum, b: Datum)
    requires !a.Null? && !b.Null?
    ensures Compare(a, b) == -Compare(b, a)
  {
    if a.Str? && b.Str? {
      CompareStringsAntisymmetric(a.s, b.s);
    }
  }

  /** Every non-NULL value compares equal to itself. */
  lemma CompareReflexive(a: Datum)
    requires !a.Null?
    ensures Compare(a, a) == 0
  {
  }
}
