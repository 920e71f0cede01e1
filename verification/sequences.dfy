/** Sequences without repetitions, and sequences with one element taken out. */
module Sequences {

  predicate NoDup<T(==)>(s: seq<T>)
  {
    forall i, j :: 0 <= i < j < |s| ==> s[i] != s[j]
  }

  /** The element at place k taken out. */
  function Without<T>(s: seq<T>, k: nat): seq<T>
    requires k < |s|
  {
    s[..k] + s[k + 1..]
  }

  lemma WithoutAt<T>(s: seq<T>, k: nat)
    requires k < |s|
    ensures |Without(s, k)| == |s| - 1
    ensures forall i :: 0 <= i < |s| - 1 ==> Without(s, k)[i] == s[if i < k then i else i + 1]
  {
  }

  /** The first occurrence of x taken out. */
  function Removed<T(==)>(s: seq<T>, x: T): seq<T>
  {
    if s == [] then [] else if s[0] == x then s[1..] else [s[0]] + Removed(s[1..], x)
  }

  lemma {:induction false} RemovedIs<T>(s: seq<T>, x: T) returns (k: nat)
    requires x in s
    ensures k < |s| && s[k] == x && Removed(s, x) == Without(s, k)
  {
    k := 0;
    if s[0] != x {
      k := RemovedIs(s[1..], x);
      k := k + 1;
    }
  }

  /** Of a sequence without repetitions nothing else is lost. */
  lemma RemovedElements<T>(s: seq<T>, x: T)
    requires NoDup(s) && x in s
    ensures NoDup(Removed(s, x)) && |Removed(s, x)| == |s| - 1
    ensures forall y :: y in s && y != x ==> y in Removed(s, x)
    ensures forall y :: y in Removed(s, x) ==> y in s && y != x
    ensures forall i :: 0 <= i < |s| - 1 ==> Removed(s, x)[i] in s && Removed(s, x)[i] != x
  {
    hide Removed;
    var k := RemovedIs(s, x);
    var t := Without(s, k);
    assert forall i :: 0 <= i < |t| ==> t[i] == s[if i < k then i else i + 1];
    forall y | y in s && y != x ensures y in t {
      var i :| 0 <= i < |s| && s[i] == y;
      assert t[if i < k then i else i - 1] == y;
    }
  }
}
