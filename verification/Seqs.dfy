/** Sequences without repetition, and options. */
module Seqs {

  datatype Option<+T> = None | Some(value: T)

  ghost predicate Distinct<T>(s: seq<T>)
  {
    forall i, j :: 0 <= i < j < |s| ==> s[i] != s[j]
  }

  /** The sequence without the first occurrence of `x`. */
  function Minus<T(==)>(s: seq<T>, x: T): (r: seq<T>)
  {
    if s == [] then [] else if s[0] == x then s[1..] else [s[0]] + Minus(s[1..], x)
  }

  lemma {:induction false} MinusAt<T>(s: seq<T>, i: nat)
    requires i < |s| && Distinct(s)
    ensures Minus(s, s[i]) == Cut(s, i)
  {
    if i > 0 {
      assert s[1..][i - 1] == s[i];
      MinusAt(s[1..], i - 1);
      assert [s[0]] + (s[1..][..i - 1] + s[1..][i..]) == s[..i] + s[i + 1..];
    }
  }

  lemma {:induction false} MinusAbsent<T>(s: seq<T>, x: T)
    requires x !in s
    ensures Minus(s, x) == s
  {
    if s != [] {
      MinusAbsent(s[1..], x);
    }
  }

  /** `r` has the members of `s` except `x`. */
  ghost predicate AllBut<T>(r: seq<T>, s: seq<T>, x: T)
  {
    x !in r && (forall y :: y in r ==> y in s) && (forall y :: y in s && y != x ==> y in r)
  }

  ghost predicate SameMembers<T>(r: seq<T>, s: seq<T>)
  {
    (forall y :: y in r ==> y in s) && (forall y :: y in s ==> y in r)
  }

  /** Taking out an element that occurs once leaves the others, still without repetition. */
  lemma MinusMembers<T>(s: seq<T>, x: T)
    requires Distinct(s)
    ensures Distinct(Minus(s, x)) && AllBut(Minus(s, x), s, x)
    ensures |Minus(s, x)| == if x in s then |s| - 1 else |s|
  {
    if x in s {
      var i :| 0 <= i < |s| && s[i] == x;
      MinusAt(s, i);
      CutDistinct(s, i);
      CutMembers(s, i);
    } else {
      MinusAbsent(s, x);
    }
  }

  function Cut<T>(s: seq<T>, i: nat): (r: seq<T>)
    requires i < |s|
  {
    s[..i] + s[i + 1..]
  }

  lemma CutAt<T>(s: seq<T>, i: nat, k: nat)
    requires i < |s| && k < |s| - 1
    ensures Cut(s, i)[k] == if k < i then s[k] else s[k + 1]
  {
  }

  lemma CutDistinct<T>(s: seq<T>, i: nat)
    requires i < |s| && Distinct(s)
    ensures Distinct(Cut(s, i))
  {
    forall j, k | 0 <= j < k < |Cut(s, i)| ensures Cut(s, i)[j] != Cut(s, i)[k] {
      CutAt(s, i, j);
      CutAt(s, i, k);
    }
  }

  lemma CutMembers<T>(s: seq<T>, i: nat)
    requires i < |s| && Distinct(s)
    ensures AllBut(Cut(s, i), s, s[i])
  {
    var r := Cut(s, i);
    forall y | y in r ensures y in s && y != s[i] {
      var k :| 0 <= k < |r| && r[k] == y;
      CutAt(s, i, k);
    }
    forall y | y in s && y != s[i] ensures y in r {
      var k :| 0 <= k < |s| && s[k] == y;
      CutAt(s, i, if k < i then k else k - 1);
    }
  }

  lemma SnocDistinct<T>(s: seq<T>, x: T)
    requires Distinct(s) && x !in s
    ensures Distinct(s + [x])
  {
  }
}
