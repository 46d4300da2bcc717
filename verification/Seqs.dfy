/** Small facts about sequences, stated once so that larger proofs can call them by name. */
module Seqs {

  lemma Assoc<T>(a: seq<T>, b: seq<T>, c: seq<T>)
    ensures a + (b + c) == a + b + c
  {
  }

  lemma Empty<T>(a: seq<T>)
    ensures [] + a == a && a + [] == a
  {
  }

  lemma Split<T>(a: seq<T>, b: seq<T>)
    ensures (a + b)[..|a|] == a && (a + b)[|a|..] == b
  {
  }

  lemma Cut<T>(s: seq<T>, k: nat)
    requires k <= |s|
    ensures s[..k] + s[k..] == s
  {
  }

  /** The numbers below `n`, each once. */
  function AllIds(n: nat): multiset<nat>
  {
    if n == 0 then multiset{} else AllIds(n - 1) + multiset{n - 1}
  }

  lemma AllIdsNext(n: nat)
    ensures AllIds(n + 1) == AllIds(n) + multiset{n}
  {
  }

  lemma {:induction false} AllIdsOnce(n: nat, id: nat)
    ensures AllIds(n)[id] == if id < n then 1 else 0
  {
    if n > 0 {
      AllIdsOnce(n - 1, id);
    }
  }

  /** Strictly increasing numbers below `n`. */
  predicate Ordered(s: seq<nat>, n: nat)
  {
    (forall i, j :: 0 <= i < j < |s| ==> s[i] < s[j]) && (forall i :: 0 <= i < |s| ==> s[i] < n)
  }

  lemma OrderedSnoc(s: seq<nat>, n: nat)
    requires Ordered(s, n)
    ensures Ordered(s + [n], n + 1)
  {
  }

  /** Leaving out a stretch keeps the order. */
  lemma OrderedWithout(a: seq<nat>, b: seq<nat>, c: seq<nat>, n: nat)
    requires Ordered(a + b + c, n)
    ensures Ordered(a + c, n) && Ordered(a + b, n)
  {
    var s := a + b + c;
    assert forall i :: 0 <= i < |a| ==> (a + c)[i] == s[i];
    assert forall i :: |a| <= i < |a + c| ==> (a + c)[i] == s[i + |b|];
    assert forall i :: 0 <= i < |a + b| ==> (a + b)[i] == s[i];
  }
}
