/**
  Sizes of finite maps and sets.
 */
module FiniteFacts {

  lemma AddKey<K, V>(m: map<K, V>, k: K, v: V)
    requires k !in m
    ensures |m[k := v]| == |m| + 1
  {
    assert m[k := v].Keys == m.Keys + {k};
  }

  lemma AssignKey<K, V>(m: map<K, V>, k: K, v: V)
    requires k in m
    ensures |m[k := v]| == |m|
  {
    assert m[k := v].Keys == m.Keys;
  }

  lemma RemoveKey<K, V>(m: map<K, V>, k: K)
    ensures if k in m then |m - {k}| + 1 == |m| else m - {k} == m
  {
    if k in m { assert (m - {k}).Keys == m.Keys - {k}; }
  }

  lemma FewerKeys<K, V>(m: map<K, V>, keys: set<K>)
    ensures |m - keys| <= |m|
  {
    assert (m - keys).Keys == m.Keys - keys;
    FewerElements(m.Keys, keys);
  }

  lemma FewerElements<K>(s: set<K>, t: set<K>)
    ensures |s - t| <= |s|
  {
    assert s == (s - t) + (s * t);
  }

  ghost function Upto(n: nat): (s: set<nat>)
    ensures |s| == n
    ensures forall i :: i in s <==> 0 <= i < n
  {
    if n == 0 then {} else Upto(n - 1) + {n - 1}
  }

  lemma FullSubset(s: set<nat>, t: set<nat>)
    requires s <= t && |s| == |t|
    ensures s == t
  {
    if s != t {
      var x :| x in t && x !in s;
      assert s <= t - {x};
      SubsetCard(s, t - {x});
    }
  }

  lemma {:induction false} SubsetCard(s: set<nat>, t: set<nat>)
    requires s <= t
    ensures |s| <= |t|
  {
    if s != {} {
      var x :| x in s;
      SubsetCard(s - {x}, t - {x});
    }
  }
}
