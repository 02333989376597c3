/** Command lines assembled field by field. A configuration record renders
    each of its fields to a few arguments and concatenates them in field
    order; because that order comes from reflection and is unspecified, the
    renderings are compared as multisets against a per-field reference. */
module FlagLists {

  /** The arguments of every field of `ks`, one field after another. */
  function Flatten<F>(render: F -> seq<string>, ks: seq<F>): (r: seq<string>)
    ensures ks == [] ==> r == []
  {
    if ks == [] then [] else render(ks[0]) + Flatten(render, ks[1..])
  }

  /** The reference arguments of the fields of `ks`, counted without regard
      to order. */
  function Total<F>(expected: F -> multiset<string>, ks: seq<F>): multiset<string> {
    if ks == [] then multiset{} else expected(ks[0]) + Total(expected, ks[1..])
  }

  predicate Distinct<F(==)>(ks: seq<F>) {
    forall a, b :: 0 <= a < b < |ks| ==> ks[a] != ks[b]
  }

  /** A sequence whose every element can be told its own position holds
      no element twice. */
  lemma DistinctByPosition<F>(ks: seq<F>, position: F -> int)
    requires forall i :: 0 <= i < |ks| ==> position(ks[i]) == i
    ensures Distinct(ks)
  {
    forall a, b | 0 <= a < b < |ks|
      ensures ks[a] != ks[b]
    {
      assert position(ks[a]) == a && position(ks[b]) == b;
    }
  }

  /** When every field renders to its reference arguments, so does the
      whole record. */
  lemma {:induction false} FlattenTotal<F>(render: F -> seq<string>, expected: F -> multiset<string>, ks: seq<F>)
    requires forall k :: multiset(render(k)) == expected(k)
    ensures multiset(Flatten(render, ks)) == Total(expected, ks)
  {
    if ks != [] {
      FlattenTotal(render, expected, ks[1..]);
    }
  }

  lemma {:induction false} TotalAppend<F>(expected: F -> multiset<string>, a: seq<F>, b: seq<F>)
    ensures Total(expected, a + b) == Total(expected, a) + Total(expected, b)
  {
    if a == [] {
      assert a + b == b;
    } else {
      assert (a + b)[1..] == a[1..] + b;
      TotalAppend(expected, a[1..], b);
    }
  }

  lemma DistinctTail<F>(ks: seq<F>)
    requires Distinct(ks) && ks != []
    ensures ks[0] !in ks[1..] && Distinct(ks[1..])
  {
    forall n | 0 <= n < |ks[1..]| ensures ks[1..][n] != ks[0] {
      assert ks[1..][n] == ks[n + 1];
    }
  }

  /** The reference arguments of `k` when it is among `ks`, none otherwise. */
  function Part<F(==)>(expected: F -> multiset<string>, ks: seq<F>, k: F): multiset<string> {
    if k in ks then expected(k) else multiset{}
  }

  lemma PartCons<F>(expected: F -> multiset<string>, ks: seq<F>, k: F)
    requires ks != [] && ks[0] !in ks[1..]
    ensures Part(expected, ks, k) == if ks[0] == k then expected(k) else Part(expected, ks[1..], k)
    ensures ks[0] == k ==> Part(expected, ks[1..], k) == multiset{}
  {
    assert k in ks <==> k == ks[0] || k in ks[1..] by {
      assert ks == [ks[0]] + ks[1..];
    }
  }

  /** Among distinct fields of which all but `k` contribute nothing, the
      whole is `k`'s contribution. */
  lemma {:induction false} TotalSole<F>(expected: F -> multiset<string>, ks: seq<F>, k: F)
    requires Distinct(ks)
    requires forall n :: 0 <= n < |ks| && ks[n] != k ==> expected(ks[n]) == multiset{}
    ensures Total(expected, ks) == Part(expected, ks, k)
  {
    if ks != [] {
      DistinctTail(ks);
      assert forall n :: 0 <= n < |ks[1..]| ==> ks[1..][n] == ks[n + 1];
      TotalSole(expected, ks[1..], k);
      PartCons(expected, ks, k);
    }
  }

  /** Among distinct fields of which all but `k1` and `k2` contribute
      nothing, the whole is the two contributions together. */
  lemma {:induction false} TotalPair<F>(expected: F -> multiset<string>, ks: seq<F>, k1: F, k2: F)
    requires k1 != k2
    requires Distinct(ks)
    requires forall n :: 0 <= n < |ks| && ks[n] != k1 && ks[n] != k2 ==> expected(ks[n]) == multiset{}
    ensures Total(expected, ks) == Part(expected, ks, k1) + Part(expected, ks, k2)
  {
    if ks != [] {
      DistinctTail(ks);
      assert forall n :: 0 <= n < |ks[1..]| ==> ks[1..][n] == ks[n + 1];
      TotalPair(expected, ks[1..], k1, k2);
      PartCons(expected, ks, k1);
      PartCons(expected, ks, k2);
    }
  }

  /** `TotalSole` for a field list that holds every field once. */
  lemma TotalOnly<F>(expected: F -> multiset<string>, ks: seq<F>, k: F)
    requires Distinct(ks) && k in ks
    requires forall k' :: k' != k ==> expected(k') == multiset{}
    ensures Total(expected, ks) == expected(k)
  {
    TotalSole(expected, ks, k);
  }

  /** `TotalPair` for a field list that holds every field once. */
  lemma TotalOnlyPair<F>(expected: F -> multiset<string>, ks: seq<F>, k1: F, k2: F)
    requires k1 != k2 && Distinct(ks) && k1 in ks && k2 in ks
    requires forall k :: k != k1 && k != k2 ==> expected(k) == multiset{}
    ensures Total(expected, ks) == expected(k1) + expected(k2)
  {
    TotalPair(expected, ks, k1, k2);
  }
}
