/** Plain JavaScript objects keyed by strings, as the launcher keeps its
    folders, app definitions and component catalog: a lookup table together
    with the order in which Object.keys and Object.values enumerate it
    (insertion order). */
module Dicts {
  import opened Options

  predicate Distinct(ks: seq<string>) {
    forall i, j :: 0 <= i < j < |ks| ==> ks[i] != ks[j]
  }

  /** ks without the key k. */
  function Without(ks: seq<string>, k: string): (r: seq<string>)
    ensures forall x :: x in r <==> x in ks && x != k
  {
    if ks == [] then []
    else if ks[0] == k then Without(ks[1..], k)
    else [ks[0]] + Without(ks[1..], k)
  }

  /** The keys of ks that m does not have yet, in order. */
  function Unseen<V>(ks: seq<string>, m: map<string, V>): (r: seq<string>)
    ensures forall x :: x in r <==> x in ks && x !in m
  {
    if ks == [] then []
    else if ks[0] in m then Unseen(ks[1..], m)
    else [ks[0]] + Unseen(ks[1..], m)
  }

  lemma {:induction false} WithoutDistinct(ks: seq<string>, k: string)
    requires Distinct(ks)
    ensures Distinct(Without(ks, k))
  {
    if ks != [] {
      WithoutDistinct(ks[1..], k);
      if ks[0] != k {
        assert ks[0] !in ks[1..];
        ConsDistinct(ks[0], Without(ks[1..], k));
      }
    }
  }

  lemma {:induction false} UnseenDistinct<V>(ks: seq<string>, m: map<string, V>)
    requires Distinct(ks)
    ensures Distinct(Unseen(ks, m))
  {
    if ks != [] {
      UnseenDistinct(ks[1..], m);
      if ks[0] !in m {
        assert ks[0] !in ks[1..];
        ConsDistinct(ks[0], Unseen(ks[1..], m));
      }
    }
  }

  /** The head of distinct keys is not among the rest, which stay distinct. */
  lemma DistinctTail(ks: seq<string>)
    requires Distinct(ks) && ks != []
    ensures ks[0] !in ks[1..] && Distinct(ks[1..])
  {
    forall j | 0 <= j < |ks[1..]| ensures ks[1..][j] != ks[0] {
      assert ks[1..][j] == ks[j + 1];
    }
    forall i, j | 0 <= i < j < |ks[1..]| ensures ks[1..][i] != ks[1..][j] {
      assert ks[1..][i] == ks[i + 1] && ks[1..][j] == ks[j + 1];
    }
  }

  lemma ConsDistinct(h: string, t: seq<string>)
    requires Distinct(t) && h !in t
    ensures Distinct([h] + t)
  {
    var s := [h] + t;
    forall i, j | 0 <= i < j < |s| ensures s[i] != s[j] {
      assert s[j] == t[j - 1];
      if i > 0 { assert s[i] == t[i - 1]; }
    }
  }

  lemma AppendDistinct(a: seq<string>, b: seq<string>)
    requires Distinct(a) && Distinct(b)
    requires forall x :: x in a ==> x !in b
    ensures Distinct(a + b)
  {
    var s := a + b;
    forall i, j | 0 <= i < j < |s| ensures s[i] != s[j] {
      if j >= |a| {
        assert s[j] == b[j - |a|];
        if i < |a| { assert s[i] == a[i] && a[i] in a && b[j - |a|] in b; } else { assert s[i] == b[i - |a|]; }
      } else {
        assert s[i] == a[i] && s[j] == a[j];
      }
    }
  }

  datatype Dict<V> = Dict(keys: seq<string>, vals: map<string, V>) {

    /** Each key is enumerated once, and exactly the keys of the table are. */
    ghost predicate Valid() {
      Distinct(keys) && (forall k :: k in vals <==> k in keys)
    }

    /** Object.values: the values in key enumeration order. */
    function Values(): (r: seq<V>)
      requires Valid()
      ensures |r| == |keys|
      ensures forall i :: 0 <= i < |keys| ==> r[i] == vals[keys[i]]
    {
      seq(|keys|, i requires 0 <= i < |keys| => vals[keys[i]])
    }

    /** obj[k], undefined when k is not a key. */
    function Get(k: string): Option<V> {
      if k in vals then Some(vals[k]) else None
    }

    /** obj[k] = v: an existing key keeps its place, a new key goes last. */
    function Put(k: string, v: V): (d: Dict<V>)
      requires Valid()
      ensures d.Valid()
      ensures d.vals == vals[k := v]
      ensures d.keys == if k in vals then keys else keys + [k]
    {
      if k in vals then Dict(keys, vals[k := v])
      else
        ConsDistinctLast(keys, k);
        Dict(keys + [k], vals[k := v])
    }

    /** delete obj[k]: k is gone, every other key keeps its order. */
    function Remove(k: string): (d: Dict<V>)
      requires Valid()
      ensures d.Valid()
      ensures d.vals == vals - {k}
      ensures d.keys == Without(keys, k)
    {
      WithoutDistinct(keys, k);
      Dict(Without(keys, k), vals - {k})
    }
  }

  lemma ConsDistinctLast(ks: seq<string>, k: string)
    requires Distinct(ks) && k !in ks
    ensures Distinct(ks + [k])
  {
  }

  /** {} */
  function Empty<V>(): (d: Dict<V>)
    ensures d.Valid() && d.keys == []
  {
    Dict([], map[])
  }

  /** Object.assign(target, source): every source entry overrides or joins
      the target; the target's keys keep their places and the new keys
      follow in the source's order. */
  function Assign<V>(target: Dict<V>, source: Dict<V>): (d: Dict<V>)
    requires target.Valid() && source.Valid()
    ensures d.Valid()
    ensures forall k :: k in d.vals <==> k in target.vals || k in source.vals
    ensures forall k :: k in source.vals ==> d.vals[k] == source.vals[k]
    ensures forall k :: k in target.vals && k !in source.vals ==> d.vals[k] == target.vals[k]
    ensures |target.keys| <= |d.keys| && d.keys[..|target.keys|] == target.keys
  {
    var added := Unseen(source.keys, target.vals);
    UnseenDistinct(source.keys, target.vals);
    AppendDistinct(target.keys, added);
    Dict(target.keys + added, target.vals + source.vals)
  }

  /** Copying an object into {} gives the object back, in the same order. */
  lemma AssignToEmpty<V>(d: Dict<V>)
    requires d.Valid()
    ensures Assign(Empty(), d) == d
  {
    AssignToEmptyKeys(d);
    AssignToEmptyVals(d);
  }

  lemma AssignToEmptyKeys<V>(d: Dict<V>)
    requires d.Valid()
    ensures Assign(Empty(), d).keys == d.keys
  {
    var e: Dict<V> := Empty();
    UnseenNone<V>(d.keys, e.vals);
    assert e.keys + Unseen(d.keys, e.vals) == d.keys;
  }

  lemma AssignToEmptyVals<V>(d: Dict<V>)
    requires d.Valid()
    ensures Assign(Empty(), d).vals == d.vals
  {
    var e: Dict<V> := Empty();
    assert e.vals + d.vals == d.vals;
  }

  lemma {:induction false} UnseenNone<V>(ks: seq<string>, m: map<string, V>)
    requires forall k :: k in ks ==> k !in m
    ensures Unseen(ks, m) == ks
  {
    if ks != [] {
      assert ks[0] in ks;
      UnseenNone(ks[1..], m);
      assert ks == [ks[0]] + ks[1..];
    }
  }
}
