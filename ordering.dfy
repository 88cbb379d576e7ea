/**
 * Python's ordering of the values the pipeline compares: strings by code
 * point, lexicographically (`sorted([a, b])`, `list.sort(key=name)`), and
 * numbers by size.
 */
module Ordering {
  import opened Graphs

  /** `a <= b` on Python strings: lexicographic by code point, a prefix first. */
  predicate StrLe(a: string, b: string)
  {
    if a == [] then true
    else if b == [] then false
    else if a[0] < b[0] then true
    else if b[0] < a[0] then false
    else StrLe(a[1..], b[1..])
  }

  lemma {:induction false} StrLeRefl(a: string)
    ensures StrLe(a, a)
  {
    if a != [] {
      StrLeRefl(a[1..]);
    }
  }

  lemma {:induction false} StrLeTotal(a: string, b: string)
    ensures StrLe(a, b) || StrLe(b, a)
  {
    if a != [] && b != [] && a[0] == b[0] {
      StrLeTotal(a[1..], b[1..]);
    }
  }

  lemma {:induction false} StrLeAntisym(a: string, b: string)
    requires StrLe(a, b) && StrLe(b, a)
    ensures a == b
  {
    if a != [] && b != [] {
      StrLeAntisym(a[1..], b[1..]);
      assert a == [a[0]] + a[1..] && b == [b[0]] + b[1..];
    }
  }

  lemma {:induction false} StrLeTrans(a: string, b: string, c: string)
    requires StrLe(a, b) && StrLe(b, c)
    ensures StrLe(a, c)
  {
    if a != [] && b != [] && c != [] && a[0] == b[0] == c[0] {
      StrLeTrans(a[1..], b[1..], c[1..]);
    }
  }

  /**
   * `sorted([a, b])` as a tuple: the canonical form Python uses for the
   * unordered pair {a, b}.
   */
  function SortedPair(a: NodeId, b: NodeId): (p: Edge)
    ensures p == (a, b) || p == (b, a)
    ensures StrLe(p.0, p.1)
  {
    StrLeTotal(a, b);
    if StrLe(a, b) then (a, b) else (b, a)
  }

  /** Both orientations of a pair have the same sorted form. */
  lemma SortedPairSymmetric(a: NodeId, b: NodeId)
    ensures SortedPair(a, b) == SortedPair(b, a)
  {
    if StrLe(a, b) && StrLe(b, a) {
      StrLeAntisym(a, b);
    }
  }

  /**
   * The kind rank that makes `ValueLe` total. Python compares two strings or
   * two numbers; comparing a string with a number raises TypeError, and the
   * station extraction checks for that before it sorts, so `ValueLe` is only
   * applied to names of one kind, where it is Python's `<=`.
   */
  function Rank(v: Value): nat
  {
    match v
    case Null => 0
    case Num(_) => 1
    case Str(_) => 2
  }

  predicate ValueLe(a: Value, b: Value)
  {
    if Rank(a) != Rank(b) then Rank(a) < Rank(b)
    else match a
      case Null => true
      case Num(x) => x <= b.r
      case Str(s) => StrLe(s, b.s)
  }

  lemma ValueLeRefl(a: Value)
    ensures ValueLe(a, a)
  {
    if a.Str? {
      StrLeRefl(a.s);
    }
  }

  lemma ValueLeTotal(a: Value, b: Value)
    ensures ValueLe(a, b) || ValueLe(b, a)
  {
    if a.Str? && b.Str? {
      StrLeTotal(a.s, b.s);
    }
  }

  lemma ValueLeTrans(a: Value, b: Value, c: Value)
    requires ValueLe(a, b) && ValueLe(b, c)
    ensures ValueLe(a, c)
  {
    if a.Str? && b.Str? && c.Str? {
      StrLeTrans(a.s, b.s, c.s);
    }
  }
}
