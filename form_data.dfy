/** Decoding a URL-encoded body into the flat field map. */
module FormData {

  /** The decoded submission: field identifier to value. */
  type FlatFields = map<string, string>

  /** The keys that occur among the first `n` pairs. */
  function KeysUpTo(pairs: seq<(string, string)>, n: nat): set<string>
    requires n <= |pairs|
  {
    set i | 0 <= i < n :: pairs[i].0
  }

  /** The index of the last pair among the first `n` whose key is `k`. */
  function LastIndex(pairs: seq<(string, string)>, n: nat, k: string): (i: nat)
    requires n <= |pairs| && k in KeysUpTo(pairs, n)
    ensures i < n && pairs[i].0 == k
    ensures forall j :: i < j < n ==> pairs[j].0 != k
  {
    if pairs[n - 1].0 == k then n - 1
    else
      assert k in KeysUpTo(pairs, n - 1) by {
        var i :| 0 <= i < n && pairs[i].0 == k;
        assert i < n - 1;
      }
      LastIndex(pairs, n - 1, k)
  }

  /** The map that binds every key of the first `n` pairs to the value of its
      LAST occurrence among them. */
  function LastWins(pairs: seq<(string, string)>, n: nat): FlatFields
    requires n <= |pairs|
  {
    map k | k in KeysUpTo(pairs, n) :: pairs[LastIndex(pairs, n, k)].1
  }

  /** `parseFormData`: walks the decoded pairs in order and stores each value
      under its key, so a repeated key keeps the value it had last. */
  method ParseFormData(pairs: seq<(string, string)>) returns (data: FlatFields)
    ensures data == LastWins(pairs, |pairs|)
  {
    data := map[];
    var n := 0;
    while n < |pairs|
      invariant n <= |pairs|
      invariant data == LastWins(pairs, n)
    {
      var (key, value) := pairs[n];
      LastWinsStep(pairs, n);
      data := data[key := value];
      n := n + 1;
    }
  }

  /** Reading one more pair overwrites (or adds) exactly that pair's key. */
  lemma LastWinsStep(pairs: seq<(string, string)>, n: nat)
    requires n < |pairs|
    ensures LastWins(pairs, n + 1) == LastWins(pairs, n)[pairs[n].0 := pairs[n].1]
  {
    var before, after := LastWins(pairs, n), LastWins(pairs, n + 1);
    var updated := before[pairs[n].0 := pairs[n].1];
    assert KeysUpTo(pairs, n + 1) == KeysUpTo(pairs, n) + {pairs[n].0};
    forall k | k in after
      ensures after[k] == updated[k]
    {
      if k != pairs[n].0 {
        assert LastIndex(pairs, n + 1, k) == LastIndex(pairs, n, k);
      }
    }
  }

  /** The decoded map has exactly the input's keys, each bound to the value of
      its last occurrence. */
  lemma LastWinsSpec(pairs: seq<(string, string)>)
    ensures LastWins(pairs, |pairs|).Keys == set i | 0 <= i < |pairs| :: pairs[i].0
    ensures forall i ::
      (0 <= i < |pairs| && forall j :: i < j < |pairs| ==> pairs[j].0 != pairs[i].0)
      ==> LastWins(pairs, |pairs|)[pairs[i].0] == pairs[i].1
  {
    var m := LastWins(pairs, |pairs|);
    forall i | 0 <= i < |pairs| && (forall j :: i < j < |pairs| ==> pairs[j].0 != pairs[i].0)
      ensures m[pairs[i].0] == pairs[i].1
    {
      var k := pairs[i].0;
      assert k in KeysUpTo(pairs, |pairs|);
      var l := LastIndex(pairs, |pairs|, k);
      assert l == i;
    }
  }

  /** Round trip: a map written out as pairs, each entry once in any order,
      decodes back to the same map. */
  lemma DecodeEncoded(m: FlatFields, pairs: seq<(string, string)>)
    requires forall i, j :: 0 <= i < j < |pairs| ==> pairs[i].0 != pairs[j].0
    requires forall i :: 0 <= i < |pairs| ==> pairs[i].0 in m && m[pairs[i].0] == pairs[i].1
    requires |pairs| == |m|
    ensures LastWins(pairs, |pairs|) == m
  {
    var d := LastWins(pairs, |pairs|);
    LastWinsSpec(pairs);
    CountKeys(pairs, |pairs|);
    assert d.Keys <= m.Keys;
    assert |d.Keys| == |m.Keys|;
    SubsetSameSize(d.Keys, m.Keys);
  }

  lemma SubsetSameSize<T>(a: set<T>, b: set<T>)
    requires a <= b && |a| == |b|
    ensures a == b
  {
    assert b == a + (b - a);
    assert a * (b - a) == {};
    assert |b - a| == 0;
  }

  lemma {:induction false} CountKeys(pairs: seq<(string, string)>, n: nat)
    requires n <= |pairs|
    requires forall i, j :: 0 <= i < j < |pairs| ==> pairs[i].0 != pairs[j].0
    ensures |KeysUpTo(pairs, n)| == n
  {
    if n > 0 {
      CountKeys(pairs, n - 1);
      assert KeysUpTo(pairs, n) == KeysUpTo(pairs, n - 1) + {pairs[n - 1].0};
      assert pairs[n - 1].0 !in KeysUpTo(pairs, n - 1);
    }
  }
}
