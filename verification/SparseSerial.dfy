/**
  Serialization of the sparse table, and deserialization for a table whose hash function need not
  be the one of the writer.
 */
module SparseSerial {
  import opened GrowthPolicy
  import opened LoadFactor
  import opened SparseArray
  import opened SparseSlots
  import opened SparseLists
  import SparseTable

  // What the serializer is handed, one call after the other.
  datatype Token<K, V> = Num(n: nat) | Flt(r: real) | Val(e: Entry<K, V>)

  datatype Outcome = Ok(consumed: nat) | BadVersion | BadStream | LengthError

  const SERIALIZATION_PROTOCOL_VERSION: nat := 1

  // sparse_array::serialize
  function ArrayTokens<K, V>(a: Array<Entry<K, V>>): (r: seq<Token<K, V>>)
    ensures |r| == 3 + |a.values|
  {
    [Num(a.nbElements), Num(a.vals), Num(a.deleted)]
      + seq(|a.values|, i requires 0 <= i < |a.values| => Val(a.values[i]))
  }

  function Flatten<K, V>(arrays: seq<Array<Entry<K, V>>>): seq<Token<K, V>> {
    if |arrays| == 0 then [] else Flatten(arrays[..|arrays| - 1]) + ArrayTokens(arrays[|arrays| - 1])
  }

  function Header<K, V>(n: nat, nbArrays: nat, nbElements: nat, nbDeleted: nat, load: real): seq<Token<K, V>> {
    [Num(SERIALIZATION_PROTOCOL_VERSION), Num(n), Num(nbArrays), Num(nbElements), Num(nbDeleted), Flt(load)]
  }

  // A whole stream: the header, and every sparse array in turn.
  ghost function Stream<K(!new), V>(t: SparseTable.Table<K, V>): seq<Token<K, V>>
    reads t
  {
    Header(t.bucketCount, |t.arrays|, t.nbElements, t.nbDeletedBuckets, t.maxLoad) + Flatten(t.arrays)
  }

  /**
    serialize_impl: the header and then every sparse array in turn.
   */
  method Serialize<K(==, !new), V>(t: SparseTable.Table<K, V>) returns (out: seq<Token<K, V>>)
    requires t.Valid()
    ensures out == Stream(t) && |out| >= 6
    ensures out[0] == Num(1) && out[1] == Num(t.bucketCount) && out[2] == Num(|t.arrays|)
    ensures out[3] == Num(t.nbElements) && out[4] == Num(t.nbDeletedBuckets) && out[5] == Flt(t.maxLoad)
  {
    hide SparseTable.Sound, ArrayTokens;
    ghost var header := Header<K, V>(t.bucketCount, |t.arrays|, t.nbElements, t.nbDeletedBuckets, t.maxLoad);
    out := Header(t.bucketCount, |t.arrays|, t.nbElements, t.nbDeletedBuckets, t.maxLoad);
    for i := 0 to |t.arrays|
      invariant out == header + Flatten(t.arrays[..i])
    {
      assert t.arrays[..i + 1][..i] == t.arrays[..i];
      out := out + ArrayTokens(t.arrays[i]);
    }
    assert t.arrays[..|t.arrays|] == t.arrays;
  }

  // Where the tokens of array i lie in the flattened stream.
  lemma {:induction false} FlattenAt<K, V>(arrays: seq<Array<Entry<K, V>>>, i: nat, j: nat)
    requires i < |arrays| && j < 3 + |arrays[i].values|
    ensures |Flatten(arrays[..i + 1])| == |Flatten(arrays[..i])| + 3 + |arrays[i].values| <= |Flatten(arrays)|
    ensures Flatten(arrays)[|Flatten(arrays[..i])| + j] == ArrayTokens(arrays[i])[j]
    decreases |arrays|
  {
    hide ArrayTokens;
    TokensLength(arrays[i]);
    var l := |arrays| - 1;
    assert arrays[..i + 1][..i] == arrays[..i];
    if i == l {
      assert arrays[..i + 1] == arrays;
    } else {
      assert arrays[..l][..i] == arrays[..i] && arrays[..l][..i + 1] == arrays[..i + 1];
      FlattenAt(arrays[..l], i, j);
    }
  }

  lemma TokensLength<K, V>(a: Array<Entry<K, V>>)
    ensures |ArrayTokens(a)| == 3 + |a.values|
  {}

  // The part of a stream that `Serialize` wrote, after the header, and what it stands for.
  ghost predicate Written<K, V>(tokens: seq<Token<K, V>>, arrays: seq<Array<Entry<K, V>>>, m: map<K, V>) {
    && |tokens| == 6 + |Flatten(arrays)| && tokens[6..] == Flatten(arrays)
    && (forall j :: 0 <= j < |arrays| ==> arrays[j].nbElements == |arrays[j].values|)
    && Lists(Values(arrays), m)
  }

  lemma WrittenAt<K, V>(tokens: seq<Token<K, V>>, arrays: seq<Array<Entry<K, V>>>, m: map<K, V>, i: nat)
    requires Written(tokens, arrays, m) && i < |arrays|
    ensures var b, k := 6 + |Flatten(arrays[..i])|, arrays[i].nbElements;
            && 6 + |Flatten(arrays[..i + 1])| == b + 3 + k <= |tokens|
            && k == |arrays[i].values|
            && tokens[b] == Num(k) && tokens[b + 1] == Num(arrays[i].vals) && tokens[b + 2] == Num(arrays[i].deleted)
            && forall o :: 0 <= o < k ==> tokens[b + 3 + o] == Val(arrays[i].values[o])
  {
    hide Lists, Values, Flatten, ArrayTokens;
    var b := 6 + |Flatten(arrays[..i])|;
    ArrayTokensAre(arrays[i]);
    FlattenAt(arrays, i, 0);
    forall o | 0 <= o < 3 + |arrays[i].values| ensures tokens[b + o] == ArrayTokens(arrays[i])[o] {
      FlattenAt(arrays, i, o);
    }
    assert tokens[b] == tokens[b + 0];
    forall o | 0 <= o < |arrays[i].values| ensures tokens[b + 3 + o] == Val(arrays[i].values[o]) {
      assert tokens[b + (3 + o)] == ArrayTokens(arrays[i])[3 + o];
    }
  }

  lemma ArrayTokensAre<K, V>(a: Array<Entry<K, V>>)
    ensures |ArrayTokens(a)| == 3 + |a.values|
    ensures ArrayTokens(a)[0] == Num(a.nbElements) && ArrayTokens(a)[1] == Num(a.vals)
    ensures ArrayTokens(a)[2] == Num(a.deleted)
    ensures forall o :: 0 <= o < |a.values| ==> ArrayTokens(a)[3 + o] == Val(a.values[o])
  {}

  // Where a token stream comes from: a table with these arrays, this finite map and this maximum load
  // factor, or anywhere.
  datatype Source<K, V> = Anywhere | From(arrays: seq<Array<Entry<K, V>>>, m: map<K, V>, load: real)

  // The table takes count elements without growing.
  ghost predicate Roomy<K(!new), V>(t: SparseTable.Table<K, V>, count: nat)
    reads t
  {
    count <= t.loadThresholdRehash
  }

  /**
    deserialize_values_into_sparse_hash, for one array: read its header, ignore the bitmaps and
    insert its values one by one.
   */
  method ReadArray<K(==, !new), V>(t: SparseTable.Table<K, V>, tokens: seq<Token<K, V>>, start: nat,
                                   ghost src: Source<K, V>, ghost i: nat)
    returns (r: Outcome)
    requires t.Valid()
    requires src.From? ==> i < |src.arrays| && Pending(tokens, src.arrays, src.m, i, start, t.model)
    requires src.From? ==> Roomy(t, |src.m|)
    modifies t
    ensures t.Valid()
    ensures src.From? ==> r.Ok? && Roomy(t, |src.m|) && Pending(tokens, src.arrays, src.m, i + 1, r.consumed, t.model)
  {
    hide t.Valid, Written, Lists, Roomy, t.GrowthFails;
    if src.From? {
      PendingStart(tokens, src.arrays, src.m, i, start, t.model);
      WrittenAt(tokens, src.arrays, src.m, i);
    }
    if start + 3 > |tokens| || !tokens[start].Num? || !tokens[start + 1].Num? || !tokens[start + 2].Num? {
      return BadStream;
    }
    var size := tokens[start].n;
    ghost var base := if src.From? then |Values(src.arrays[..i])| else 0;
    for o := 0 to size
      invariant t.Valid()
      invariant src.From? ==> base + o <= |Values(src.arrays)| && Lists(Values(src.arrays)[..base + o], t.model)
      invariant src.From? ==> Roomy(t, |src.m|)
    {
      assert src.From? ==> tokens[start + 3 + o] == Val(src.arrays[i].values[o]);
      if start + 3 + o >= |tokens| || !tokens[start + 3 + o].Val? {
        return BadStream;
      }
      var e := tokens[start + 3 + o].e;
      if src.From? {
        NextListed(src.arrays, src.m, i, o, t.model);
        NotFull(t, |src.m|);
      }
      ghost var n, load := t.bucketCount, t.maxLoad;
      var inserted := t.Insert(e.key, e.val);
      if src.From? { StillRoomy(t, n, load, |src.m|); }
      if inserted.LengthError? {
        return LengthError;
      }
    }
    if src.From? { PendingEnd(tokens, src.arrays, src.m, i, start, t.model); }
    return Ok(start + 3 + size);
  }

  // Arrays [..i] of a written stream have been read and inserted; `pos` is the next token.
  ghost predicate Pending<K, V>(tokens: seq<Token<K, V>>, arrays: seq<Array<Entry<K, V>>>, m: map<K, V>, i: nat,
                                pos: nat, done: map<K, V>)
  {
    && Written(tokens, arrays, m)
    && i <= |arrays| && pos == 6 + |Flatten(arrays[..i])|
    && |Values(arrays[..i])| <= |Values(arrays)|
    && Lists(Values(arrays)[..|Values(arrays[..i])|], done)
  }

  lemma PendingStart<K, V>(tokens: seq<Token<K, V>>, arrays: seq<Array<Entry<K, V>>>, m: map<K, V>, i: nat, pos: nat,
                           done: map<K, V>)
    requires Pending(tokens, arrays, m, i, pos, done)
    ensures Written(tokens, arrays, m) && Lists(Values(arrays), m)
  {}

  lemma NextListed<K, V>(arrays: seq<Array<Entry<K, V>>>, m: map<K, V>, i: nat, o: nat, done: map<K, V>)
    requires Lists(Values(arrays), m) && i < |arrays| && o < |arrays[i].values|
    requires |Values(arrays[..i])| + o <= |Values(arrays)|
    requires Lists(Values(arrays)[..|Values(arrays[..i])| + o], done)
    ensures var e := arrays[i].values[o]; var q := |Values(arrays[..i])| + o;
            e.key !in done && q + 1 <= |Values(arrays)| && Lists(Values(arrays)[..q + 1], done[e.key := e.val])
    ensures |done| < |m|
  {
    hide Lists;
    SparseTable.ValuesAt(arrays, i);
    var q := |Values(arrays[..i])| + o;
    ListedOnce(Values(arrays), m, q, done);
    SparseTable.ListsSize(Values(arrays), m);
    SparseTable.ListsSize(Values(arrays)[..q], done);
  }

  // Fewer elements than the table has room for: no insert asks for more buckets.
  lemma NotFull<K(!new), V>(t: SparseTable.Table<K, V>, count: nat)
    requires t.Valid() && Roomy(t, count) && |t.model| < count
    ensures t.nbElements < t.loadThresholdRehash && !t.GrowthFails() && RoomFor(t.bucketCount, t.maxLoad, count)
  {
    hide SparseTable.Sound;
  }

  // The same in terms of the bucket count and the load factor.
  ghost predicate RoomFor(n: nat, load: real, count: nat) {
    0.1 <= load <= 0.8 && count <= Threshold(n, load)
  }

  lemma StillRoomy<K(!new), V>(t: SparseTable.Table<K, V>, n: nat, load: real, count: nat)
    requires t.Valid() && t.bucketCount == n && t.maxLoad == load && RoomFor(n, load, count)
    ensures Roomy(t, count)
  {
    hide SparseTable.Sound;
  }

  lemma PendingEnd<K, V>(tokens: seq<Token<K, V>>, arrays: seq<Array<Entry<K, V>>>, m: map<K, V>, i: nat, pos: nat,
                         done: map<K, V>)
    requires Written(tokens, arrays, m) && i < |arrays| && pos == 6 + |Flatten(arrays[..i])|
    requires |Values(arrays[..i])| + |arrays[i].values| <= |Values(arrays)|
    requires Lists(Values(arrays)[..|Values(arrays[..i])| + |arrays[i].values|], done)
    ensures Pending(tokens, arrays, m, i + 1, pos + 3 + |arrays[i].values|, done)
  {
    hide Lists;
    SparseTable.ValuesAt(arrays, i);
    WrittenAt(tokens, arrays, m, i);
  }

  /**
    deserialize_impl with hash_compatible = false, into an empty table.  On a stream that was written
    by Serialize it consumes every token and rebuilds the finite map, whatever the two hash
    functions are; it fails exactly when the buckets that so many elements need are too many.
   */
  method Deserialize<K(==, !new), V>(t: SparseTable.Table<K, V>, tokens: seq<Token<K, V>>, ghost src: Source<K, V>)
    returns (r: Outcome)
    requires t.Valid() && t.bucketCount == 0
    requires src.From? ==> WrittenTable(tokens, src.arrays, src.m, src.load)
    modifies t
    ensures t.Valid()
    ensures src.From? ==>
              if TooMany(BucketsFor(|src.m|, src.load), t.maxBuckets) then r == LengthError && t.model == map[]
              else r == Ok(|tokens|) && t.model == src.m
    ensures r.BadVersion? <==> |tokens| >= 1 && tokens[0].Num? && tokens[0].n != 1
  {
    hide SparseTable.Sound, Written, Lists, SparseTable.Thresholds, BucketsFor, Pending, Flatten, Values, TooMany,
      EnoughFor, Roomy;
    EmptyModel(t.model);
    if src.From? { NoBucketsNoElements(src.m, src.load, t.maxBuckets); }
    if src.From? { PendingFirst(tokens, src.arrays, src.m); }
    if |tokens| < 1 || !tokens[0].Num? {
      return BadStream;
    }
    if tokens[0].n != SERIALIZATION_PROTOCOL_VERSION {
      return BadVersion;
    }
    if |tokens| < 6 || !tokens[1].Num? || !tokens[2].Num? || !tokens[3].Num? || !tokens[4].Num? || !tokens[5].Flt? {
      return BadStream;
    }
    var bucketCount, nbArrays, nbElements := tokens[1].n, tokens[2].n, tokens[3].n;
    t.SetMaxLoad(tokens[5].r);
    if bucketCount == 0 {
      if src.From? { PendingLast(tokens, src.arrays, src.m, 6, t.model); }
      return Ok(6);
    }
    LeastIsOwn(nbElements, t.maxLoad);
    var ok := t.Reserve(nbElements);
    if !ok {
      return LengthError;
    }
    Reserved(t, nbElements);
    var pos := 6;
    for i := 0 to nbArrays
      invariant t.Valid()
      invariant src.From? ==> Pending(tokens, src.arrays, src.m, i, pos, t.model) && Roomy(t, |src.m|)
    {
      var read := ReadArray(t, tokens, pos, src, i);
      if !read.Ok? {
        return if read.LengthError? then LengthError else BadStream;
      }
      pos := read.consumed;
    }
    if src.From? { PendingLast(tokens, src.arrays, src.m, pos, t.model); }
    return Ok(pos);
  }

  lemma NoBucketsNoElements<K, V>(m: map<K, V>, load: real, maxBuckets: nat)
    requires 0.1 <= load <= 0.8
    ensures |m| == 0 ==> !TooMany(BucketsFor(|m|, load), maxBuckets)
  {}

  // What reserve asks of an empty table.
  lemma LeastIsOwn(count: nat, load: real)
    requires 0.1 <= load <= 0.8
    ensures BucketsFor(0, load) == 0
  {}

  lemma Reserved<K(!new), V>(t: SparseTable.Table<K, V>, count: nat)
    requires t.Valid() && EnoughFor(t.bucketCount, t.maxLoad, count)
    ensures Roomy(t, count)
  {
    hide SparseTable.Sound;
    EnoughIsThreshold(t.bucketCount, t.maxLoad, count);
  }

  // A whole stream that Serialize wrote.
  ghost predicate WrittenTable<K, V>(tokens: seq<Token<K, V>>, arrays: seq<Array<Entry<K, V>>>, m: map<K, V>,
                                     load: real)
  {
    && Written(tokens, arrays, m)
    && tokens[0] == Num(SERIALIZATION_PROTOCOL_VERSION) && tokens[1].Num? && tokens[2] == Num(|arrays|)
    && tokens[3] == Num(|m|) && tokens[4].Num? && tokens[5] == Flt(load) && 0.1 <= load <= 0.8
    && (tokens[1].n == 0 ==> arrays == [] && m == map[])
  }

  lemma EmptyModel<K, V>(m: map<K, V>)
    ensures |m| == 0 ==> m == map[]
  {
    if |m| == 0 { assert m.Keys == {}; }
  }

  lemma PendingFirst<K, V>(tokens: seq<Token<K, V>>, arrays: seq<Array<Entry<K, V>>>, m: map<K, V>)
    requires Written(tokens, arrays, m)
    ensures |tokens| >= 6 && Pending(tokens, arrays, m, 0, 6, map[])
  {
    assert arrays[..0] == [];
    assert Values(arrays)[..0] == [];
  }

  lemma PendingLast<K, V>(tokens: seq<Token<K, V>>, arrays: seq<Array<Entry<K, V>>>, m: map<K, V>, pos: nat,
                          done: map<K, V>)
    requires Pending(tokens, arrays, m, |arrays|, pos, done)
    ensures pos == |tokens| && done == m
  {
    hide Lists;
    assert arrays[..|arrays|] == arrays;
    assert Values(arrays)[..|Values(arrays)|] == Values(arrays);
    ListsUnique(Values(arrays), m, done);
  }

  /**
    The round trip: what one table writes, another table with any hash function reads back, all of it,
    unless the buckets that so many elements need are too many for it.
   */
  method RoundTrip<K(==, !new), V>(src: SparseTable.Table<K, V>, dst: SparseTable.Table<K, V>)
    returns (tokens: seq<Token<K, V>>, r: Outcome)
    requires src.Valid() && dst.Valid() && dst.bucketCount == 0 && src != dst
    modifies dst
    ensures dst.Valid() && 0.1 <= src.maxLoad <= 0.8
    ensures tokens == Stream(src)
    ensures r.LengthError? <==> TooMany(BucketsFor(|src.model|, src.maxLoad), dst.maxBuckets)
    ensures if r.LengthError? then dst.model == map[] else r == Ok(|tokens|) && dst.model == src.model
  {
    hide SparseTable.Sound, SparseTable.Thresholds, Flatten, Values, Written, BucketsFor, TooMany;
    tokens := Serialize(src);
    SerializedWritten(src, tokens);
    r := Deserialize(dst, tokens, From(src.arrays, src.model, src.maxLoad));
  }

  lemma SerializedWritten<K(!new), V>(t: SparseTable.Table<K, V>, tokens: seq<Token<K, V>>)
    requires t.Valid()
    requires tokens == Stream(t)
    ensures WrittenTable(tokens, t.arrays, t.model, t.maxLoad)
  {
    hide Lists, Flatten, Values, SlotAt, SparseTable.Thresholds;
    SparseTable.AllListed(t.cfg, t.arrays, t.bucketCount, t.model, t.nbDeletedBuckets);
    SparseTable.SoundFacts(t.cfg, t.arrays, t.bucketCount, t.model, t.nbDeletedBuckets);
    forall j | 0 <= j < |t.arrays| ensures t.arrays[j].nbElements == |t.arrays[j].values| {
      assert Valid(t.arrays[j]);
    }
    assert tokens[6..] == Flatten(t.arrays);
  }
}
