/**
  The values of a sparse table listed in the order its iterators visit them: array by array, and
  within an array in slot order.
 */
module SparseLists {
  import opened FiniteFacts
  import opened Bits
  import opened PopCount
  import opened GrowthPolicy
  import opened SparseArray
  import opened SparseSlots
  import opened SparseLoops

  ghost predicate Listed<K, V>(es: seq<Entry<K, V>>, k: K) {
    exists i :: 0 <= i < |es| && es[i].key == k
  }

  ghost predicate Distinct<K, V>(es: seq<Entry<K, V>>) {
    forall i, j :: 0 <= i < j < |es| ==> es[i].key != es[j].key
  }

  // The list holds every entry of the finite map once.
  ghost predicate Lists<K, V>(es: seq<Entry<K, V>>, m: map<K, V>) {
    && Distinct(es)
    && (forall i :: 0 <= i < |es| ==> es[i].key in m && m[es[i].key] == es[i].val)
    && (forall k :: k in m ==> Listed(es, k))
    && |es| == |m|
  }

  lemma ListsUnique<K, V>(es: seq<Entry<K, V>>, m: map<K, V>, m': map<K, V>)
    requires Lists(es, m) && Lists(es, m')
    ensures m == m'
  {
    assert forall k :: k in m <==> Listed(es, k);
    assert forall k :: k in m' <==> Listed(es, k);
  }

  lemma ListedMore<K, V>(es: seq<Entry<K, V>>, e: Entry<K, V>, k: K)
    ensures Listed(es + [e], k) <==> Listed(es, k) || e.key == k
  {
    var es' := es + [e];
    assert es'[|es|] == e;
    if Listed(es, k) {
      var i :| 0 <= i < |es| && es[i].key == k;
      assert es'[i].key == k;
    }
  }

  lemma ListsAppend<K, V>(es: seq<Entry<K, V>>, m: map<K, V>, e: Entry<K, V>)
    requires Lists(es, m) && e.key !in m
    ensures Lists(es + [e], m[e.key := e.val])
  {
    hide Distinct, Listed;
    var es', m' := es + [e], m[e.key := e.val];
    NotListed(es, m, e.key);
    DistinctAppend(es, e);
    AddKey(m, e.key, e.val);
    forall k | k in m' ensures Listed(es', k) { ListedMore(es, e, k); }
  }

  lemma NotListed<K, V>(es: seq<Entry<K, V>>, m: map<K, V>, k: K)
    requires Lists(es, m) && k !in m
    ensures !Listed(es, k)
  {}

  lemma DistinctAppend<K, V>(es: seq<Entry<K, V>>, e: Entry<K, V>)
    requires Distinct(es) && !Listed(es, e.key)
    ensures Distinct(es + [e])
  {}

  lemma NotListedBefore<K, V>(es: seq<Entry<K, V>>, q: nat)
    requires Distinct(es) && q < |es|
    ensures !Listed(es[..q], es[q].key)
  {}

  // What is listed before position q is not listed at q.
  lemma ListedOnce<K, V>(es: seq<Entry<K, V>>, m: map<K, V>, q: nat, m': map<K, V>)
    requires Lists(es, m) && q < |es| && Lists(es[..q], m')
    ensures es[q].key !in m' && |m'| < |m|
    ensures Lists(es[..q + 1], m'[es[q].key := es[q].val])
  {
    hide Listed, Distinct;
    NotListedBefore(es, q);
    assert es[q].key !in m';
    ListsAppend(es[..q], m', es[q]);
    assert es[..q + 1] == es[..q] + [es[q]];
  }

  // The entries of the occupied slots, in order.
  ghost function Entries<T>(s: seq<Slot<T>>): seq<T> {
    if |s| == 0 then []
    else Entries(s[..|s| - 1]) + (if s[|s| - 1].Occ? then [s[|s| - 1].val] else [])
  }

  // The finite map of all slots but the last.
  ghost function Front<K, V>(s: seq<Slot<Entry<K, V>>>, m: map<K, V>): map<K, V>
    requires |s| > 0
  {
    var x := s[|s| - 1];
    if x.Occ? then m - {x.val.key} else m
  }

  lemma DropLast<K, V>(s: seq<Slot<Entry<K, V>>>, m: map<K, V>)
    requires Holds(s, m) && |s| > 0
    ensures Holds(s[..|s| - 1], Front(s, m))
  {
    FrontValues(s, m);
    FrontKeys(s, m);
    FrontCount(s, m);
    KeysDistinctFront(s, |s| - 1);
    hide KeysDistinct, HasKey, NbOcc, Front;
  }

  lemma FrontValues<K, V>(s: seq<Slot<Entry<K, V>>>, m: map<K, V>)
    requires Holds(s, m) && |s| > 0
    ensures var t, m' := s[..|s| - 1], Front(s, m);
            forall i :: 0 <= i < |t| && t[i].Occ? ==> t[i].val.key in m' && m'[t[i].val.key] == t[i].val.val
  {
    if s[|s| - 1].Occ? { OthersDiffer(s, |s| - 1); }
    hide HasKey, NbOcc, KeysDistinct;
  }

  lemma FrontKeys<K, V>(s: seq<Slot<Entry<K, V>>>, m: map<K, V>)
    requires Holds(s, m) && |s| > 0
    ensures forall k :: k in Front(s, m) ==> HasKey(s[..|s| - 1], k)
  {
    hide Holds, HasKey;
    forall k | k in Front(s, m) ensures HasKey(s[..|s| - 1], k) {
      HoldsLookup(s, m, k);
      KeyInFront(s, k);
    }
  }

  lemma FrontCount<K, V>(s: seq<Slot<Entry<K, V>>>, m: map<K, V>)
    requires Holds(s, m) && |s| > 0
    ensures NbOcc(s[..|s| - 1]) == |Front(s, m)|
  {
    hide HasKey, KeysDistinct;
    if s[|s| - 1].Occ? { RemoveKey(m, s[|s| - 1].val.key); }
  }

  lemma KeysDistinctFront<K, V>(s: seq<Slot<Entry<K, V>>>, l: nat)
    requires KeysDistinct(s) && l <= |s|
    ensures KeysDistinct(s[..l])
  {}

  lemma KeyInFront<K, V>(s: seq<Slot<Entry<K, V>>>, k: K)
    requires HasKey(s, k) && |s| > 0
    requires var x := s[|s| - 1]; !(x.Occ? && x.val.key == k)
    ensures HasKey(s[..|s| - 1], k)
  {
    var p :| 0 <= p < |s| && s[p].Occ? && s[p].val.key == k;
    assert s[..|s| - 1][p].val.key == k;
  }

  lemma {:induction false} EntriesList<K, V>(s: seq<Slot<Entry<K, V>>>, m: map<K, V>)
    requires Holds(s, m)
    ensures Lists(Entries(s), m)
  {
    hide Holds, Lists;
    if |s| == 0 {
      NoEntries(s, m);
    } else {
      var x, s' := s[|s| - 1], s[..|s| - 1];
      LastKnown(s, m);
      DropLast(s, m);
      if x.Occ? {
        EntriesList(s', m - {x.val.key});
        ListsAppend(Entries(s'), m - {x.val.key}, x.val);
        PutBack(m, x.val.key);
      } else {
        EntriesList(s', m);
        assert Entries(s) == Entries(s');
      }
    }
  }

  lemma NoEntries<K, V>(s: seq<Slot<Entry<K, V>>>, m: map<K, V>)
    requires Holds(s, m) && |s| == 0
    ensures Lists([], m)
  {}

  lemma PutBack<K, V>(m: map<K, V>, k: K)
    requires k in m
    ensures (m - {k})[k := m[k]] == m
  {}

  lemma LastKnown<K, V>(s: seq<Slot<Entry<K, V>>>, m: map<K, V>)
    requires Holds(s, m) && |s| > 0
    ensures var x := s[|s| - 1]; x.Occ? ==> x.val.key in m && m[x.val.key] == x.val.val
  {}

  lemma {:induction false} EntriesConcat<T>(s: seq<Slot<T>>, t: seq<Slot<T>>)
    ensures Entries(s + t) == Entries(s) + Entries(t)
  {
    if |t| == 0 {
      assert s + t == s;
    } else {
      assert (s + t)[..|s + t| - 1] == s + t[..|t| - 1];
      EntriesConcat(s, t[..|t| - 1]);
    }
  }

  lemma {:induction false} EntriesFree<T>(s: seq<Slot<T>>)
    requires forall i :: 0 <= i < |s| ==> s[i].Free?
    ensures Entries(s) == []
  {
    if |s| > 0 { EntriesFree(s[..|s| - 1]); }
  }

  // The first i slots of an array.
  ghost function ArraySlots<T>(a: Array<T>, i: nat): (s: seq<Slot<T>>)
    requires Valid(a)
    ensures |s| == i && forall j :: 0 <= j < i ==> s[j] == SlotAt(a, j)
  {
    seq(i, j requires 0 <= j < i => SlotAt(a, j))
  }

  // The dense values are the entries of the slots, in slot order.
  lemma {:induction false} ArrayEntries<T>(a: Array<T>, i: nat)
    requires Valid(a)
    ensures Rank(a.vals, i) <= |a.values|
    ensures Entries(ArraySlots(a, i)) == a.values[..Rank(a.vals, i)]
  {
    RankAtMost(a.vals, i);
    if i == 0 {
      assert Rank(a.vals, 0) == 0;
    } else {
      ArrayEntries(a, i - 1);
      RankStep(a.vals, i - 1);
      assert ArraySlots(a, i)[..i - 1] == ArraySlots(a, i - 1);
      if Bit(a.vals, i - 1) { RankBelow(a.vals, i - 1); }
    }
  }

  lemma WholeArray<T>(a: Array<T>)
    requires Valid(a)
    ensures Entries(ArraySlots(a, 64)) == a.values
  {
    ArrayEntries(a, 64);
    CountIsRank(a.vals, 64);
  }

  // The values of all arrays, in iteration order.
  ghost function Values<T>(arrays: seq<Array<T>>): seq<T> {
    if |arrays| == 0 then [] else Values(arrays[..|arrays| - 1]) + arrays[|arrays| - 1].values
  }

  ghost function AllSlots<T>(arrays: seq<Array<T>>): (s: seq<Slot<T>>)
    requires forall j :: 0 <= j < |arrays| ==> Valid(arrays[j])
    ensures |s| == 64 * |arrays|
  {
    if |arrays| == 0 then [] else AllSlots(arrays[..|arrays| - 1]) + ArraySlots(arrays[|arrays| - 1], 64)
  }

  lemma {:induction false} AllSlotsAt<T>(arrays: seq<Array<T>>, i: nat)
    requires (forall j :: 0 <= j < |arrays| ==> Valid(arrays[j])) && i < 64 * |arrays|
    ensures AllSlots(arrays)[i] == SlotOf(arrays, i)
  {
    var l := |arrays| - 1;
    if i < 64 * l {
      AllSlotsAt(arrays[..l], i);
    } else {
      ModUnique(i, 64, l, i - 64 * l);
    }
  }

  lemma {:induction false} ValuesOfAllSlots<T>(arrays: seq<Array<T>>)
    requires forall j :: 0 <= j < |arrays| ==> Valid(arrays[j])
    ensures Values(arrays) == Entries(AllSlots(arrays))
  {
    if |arrays| > 0 {
      var l := |arrays| - 1;
      ValuesOfAllSlots(arrays[..l]);
      WholeArray(arrays[l]);
      EntriesConcat(AllSlots(arrays[..l]), ArraySlots(arrays[l], 64));
    }
  }

  /**
    Iterating over a table visits exactly the entries of its buckets, in bucket order.
   */
  lemma ValuesAreEntries<T>(arrays: seq<Array<T>>, n: nat)
    requires Fitted(arrays, n)
    ensures Values(arrays) == Entries(Slots(arrays, n))
  {
    hide IsPow2, Valid, SlotAt;
    ValuesOfAllSlots(arrays);
    var all, s := AllSlots(arrays), Slots(arrays, n);
    if n > 0 { FittedRange(arrays, n, 0); }
    forall i | 0 <= i < |all| ensures all[i] == SlotOf(arrays, i) { AllSlotsAt(arrays, i); }
    assert all[..n] == s;
    assert all == s + all[n..];
    EntriesFree(all[n..]);
    EntriesConcat(s, all[n..]);
  }
}
