/** The .NET NameValueCollection that Map builds and ToFormBody reads: a key table plus the list of keys
    in first-insertion order (AllKeys), each key holding every value added under it. */
module NameValues {
  import opened Text


  /** `keys` lists the keys in the order they were first added; `values` holds each key's values, oldest
      first. */
  datatype Collection = Collection(keys: seq<string>, values: map<string, seq<string>>)

  /** The collection with no keys. */
  const Empty := Collection([], map[])

  /** The key list and the key table agree, and no key is listed twice. */
  predicate Valid(c: Collection) {
    && (forall i, j :: 0 <= i < j < |c.keys| ==> c.keys[i] != c.keys[j])
    && c.values.Keys == set k | k in c.keys
  }

  /** The values stored under `k`, none when the key is absent. */
  function Lookup(c: Collection, k: string): seq<string> {
    if k in c.values then c.values[k] else []
  }

  /** NameValueCollection.Add: a value for an existing key joins that key's values; a new key is
      listed last with this one value. */
  function Add(c: Collection, k: string, v: string): (r: Collection)
    ensures Valid(c) ==> Valid(r)
    ensures Valid(c) && k in c.keys ==> r.keys == c.keys
    ensures Valid(c) && k !in c.keys ==> r.keys == c.keys + [k]
    ensures Valid(c) ==> Lookup(r, k) == Lookup(c, k) + [v]
    ensures forall q :: q != k ==> Lookup(r, q) == Lookup(c, q)
  {
    if k in c.values then Collection(c.keys, c.values[k := c.values[k] + [v]])
    else Collection(c.keys + [k], c.values[k := [v]])
  }

  /** The values paired with `k` in `ps`, in order. */
  function ValuesOf(ps: seq<(string, string)>, k: string): seq<string>
  {
    if |ps| == 0 then []
    else (if ps[0].0 == k then [ps[0].1] else []) + ValuesOf(ps[1..], k)
  }

  /** Adds every pair of `ps`, in order. */
  function AddAll(c: Collection, ps: seq<(string, string)>): (r: Collection)
    ensures Valid(c) ==> Valid(r)
    decreases |ps|
  {
    if |ps| == 0 then c
    else AddAll(Add(c, ps[0].0, ps[0].1), ps[1..])
  }

  /** After adding pairs, a key holds its earlier values followed by the values the pairs gave it, in
      order: values under a repeated key are merged, never overwritten. */
  lemma {:induction false} AddAllLookup(c: Collection, ps: seq<(string, string)>, k: string)
    requires Valid(c)
    ensures Lookup(AddAll(c, ps), k) == Lookup(c, k) + ValuesOf(ps, k)
    decreases |ps|
  {
    if |ps| == 0 {
      assert Lookup(c, k) + [] == Lookup(c, k);
    } else {
      var head := if ps[0].0 == k then [ps[0].1] else [];
      assert Lookup(Add(c, ps[0].0, ps[0].1), k) == Lookup(c, k) + head;
      AddAllLookup(Add(c, ps[0].0, ps[0].1), ps[1..], k);
      AppendAssoc(Lookup(c, k), head, ValuesOf(ps[1..], k));
    }
  }

  /** The collection built by adding the pairs of `ps` to an empty one (the loop of Map). */
  function FromPairs(ps: seq<(string, string)>): (r: Collection)
    ensures Valid(r)
  {
    AddAll(Empty, ps)
  }

  /** Every key of the built collection holds exactly the values the pairs gave it, in order. */
  lemma FromPairsLookup(ps: seq<(string, string)>, k: string)
    ensures Lookup(FromPairs(ps), k) == ValuesOf(ps, k)
  {
    AddAllLookup(Empty, ps, k);
  }

  /** The keys of `ps`, in order. */
  function PairKeys(ps: seq<(string, string)>): (ks: seq<string>)
    ensures |ks| == |ps|
    ensures forall i :: 0 <= i < |ps| ==> ks[i] == ps[i].0
  {
    if |ps| == 0 then [] else [ps[0].0] + PairKeys(ps[1..])
  }

  /** No key appears twice among the pairs. */
  predicate DistinctPairKeys(ps: seq<(string, string)>) {
    forall i, j :: 0 <= i < j < |ps| ==> ps[i].0 != ps[j].0
  }

  /** Adding pairs whose keys are new and distinct lists their keys last, in order. */
  lemma {:induction false} AddAllFreshKeys(c: Collection, ps: seq<(string, string)>)
    requires Valid(c)
    requires DistinctPairKeys(ps)
    requires forall i :: 0 <= i < |ps| ==> ps[i].0 !in c.keys
    ensures AddAll(c, ps).keys == c.keys + PairKeys(ps)
    decreases |ps|
  {
    if |ps| > 0 {
      var c' := Add(c, ps[0].0, ps[0].1);
      forall i | 0 <= i < |ps[1..]|
        ensures ps[1..][i].0 !in c'.keys
      {
        assert ps[1..][i] == ps[i + 1];
      }
      AddAllFreshKeys(c', ps[1..]);
      assert PairKeys(ps) == [ps[0].0] + PairKeys(ps[1..]);
      AppendAssoc(c.keys, [ps[0].0], PairKeys(ps[1..]));
    }
  }

  /** A pair's key occurs once among distinct keys, so it holds only that pair's value. */
  lemma {:induction false} ValuesOfDistinct(ps: seq<(string, string)>, i: nat)
    requires DistinctPairKeys(ps) && i < |ps|
    ensures ValuesOf(ps, ps[i].0) == [ps[i].1]
    decreases i
  {
    if i == 0 {
      ValuesOfAbsent(ps[1..], ps[0].0);
    } else {
      assert ps[1..][i - 1] == ps[i];
      ValuesOfDistinct(ps[1..], i - 1);
    }
  }

  /** A key no pair carries has no values. */
  lemma {:induction false} ValuesOfAbsent(ps: seq<(string, string)>, k: string)
    requires forall i :: 0 <= i < |ps| ==> ps[i].0 != k
    ensures ValuesOf(ps, k) == []
    decreases |ps|
  {
    if |ps| > 0 {
      ValuesOfAbsent(ps[1..], k);
    }
  }

  /** With distinct keys, the built collection lists the keys of the pairs in order, each holding just
      its pair's value. */
  lemma FromDistinctPairs(ps: seq<(string, string)>)
    requires DistinctPairKeys(ps)
    ensures FromPairs(ps).keys == PairKeys(ps)
    ensures forall i :: 0 <= i < |ps| ==> Lookup(FromPairs(ps), ps[i].0) == [ps[i].1]
  {
    AddAllFreshKeys(Empty, ps);
    forall i | 0 <= i < |ps|
      ensures Lookup(FromPairs(ps), ps[i].0) == [ps[i].1]
    {
      FromPairsLookup(ps, ps[i].0);
      ValuesOfDistinct(ps, i);
    }
  }
}
