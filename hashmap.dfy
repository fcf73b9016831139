/** The separate-chaining hash map `SimpleHashMap`: a fixed number of
    buckets, each a list of key/value pairs, with the djb2 string hash in
    32-bit arithmetic choosing the bucket. Keys are strings; the value type
    is a parameter. `undefined` results are `None`. */
module HashMap {
  import opened Wrappers

  /** The capacity `new SimpleHashMap()` starts with. */
  const DefaultInitialCapacity: int := 16

  datatype KeyValuePair<V> = KeyValuePair(key: string, value: V)

  // ---------------------------------------------------------------------
  // The hash, in JavaScript's 32-bit integer arithmetic
  // ---------------------------------------------------------------------

  const TwoTo32: int := 0x1_0000_0000

  /** JavaScript's ToInt32: the integer congruent to `x` modulo 2^32 in
      [-2^31, 2^31). `x << n` and `x & x` produce their results through it. */
  function ToInt32(x: int): (r: int)
    ensures -0x8000_0000 <= r < 0x8000_0000
    ensures (x - r) % TwoTo32 == 0
  {
    var m := x % TwoTo32;
    if m >= 0x8000_0000 then m - TwoTo32 else m
  }

  /** ToInt32 depends only on its argument modulo 2^32. */
  lemma ToInt32Congruent(x: int, y: int)
    requires (x - y) % TwoTo32 == 0
    ensures ToInt32(x) == ToInt32(y)
  {
    var q := (x - y) / TwoTo32;
    assert x == y + q * TwoTo32;
    assert x % TwoTo32 == y % TwoTo32;
  }

  /** One round of djb2: `((hash << 5) + hash) + char`, then `hash & hash`. */
  function HashStep(hash: int, code: int): int {
    ToInt32(ToInt32(hash * 32) + hash + code)
  }

  /** The round computes `hash * 33 + char` modulo 2^32. */
  lemma HashStepIsTimes33(hash: int, code: int)
    ensures HashStep(hash, code) == ToInt32(hash * 33 + code)
  {
    var shifted := ToInt32(hash * 32);
    assert (hash * 32 - shifted) % TwoTo32 == 0;
    assert (shifted + hash + code) - (hash * 33 + code) == shifted - hash * 32;
    ToInt32Congruent(shifted + hash + code, hash * 33 + code);
  }

  /** djb2 over the character codes of `s`, starting from 0. */
  function Djb2(s: string): (r: int)
    ensures -0x8000_0000 <= r < 0x8000_0000
  {
    if s == [] then 0 else HashStep(Djb2(s[..|s| - 1]), s[|s| - 1] as int)
  }

  function Abs(x: int): int {
    if x < 0 then -x else x
  }

  /** `Math.abs(hash) % capacity`: the bucket a key goes to. */
  function BucketIndex(key: string, capacity: int): (r: int)
    requires capacity > 0
    ensures 0 <= r < capacity
  {
    Abs(Djb2(key)) % capacity
  }

  // ---------------------------------------------------------------------
  // Buckets as values
  // ---------------------------------------------------------------------

  /** The first position of `key` in a bucket, or -1. */
  function KeyPosition<V>(b: seq<KeyValuePair<V>>, key: string): (r: int)
    ensures -1 <= r < |b|
    ensures r >= 0 ==> b[r].key == key
    ensures forall j :: 0 <= j < (if r >= 0 then r else |b|) ==> b[j].key != key
  {
    if b == [] then -1
    else if b[0].key == key then 0
    else
      var p := KeyPosition(b[1..], key);
      if p >= 0 then p + 1 else -1
  }

  /** A position with those properties is the one `KeyPosition` finds. */
  lemma KeyPositionIs<V>(b: seq<KeyValuePair<V>>, key: string, p: int)
    requires p == -1 ==> forall j :: 0 <= j < |b| ==> b[j].key != key
    requires p != -1 ==> 0 <= p < |b| && b[p].key == key && forall j :: 0 <= j < p ==> b[j].key != key
    ensures KeyPosition(b, key) == p
  {
    var r := KeyPosition(b, key);
    if r >= 0 && p >= 0 {
      assert !(r < p) && !(p < r);
    }
  }

  /** The value paired with `key` in a bucket, as the search loops find it. */
  function Lookup<V>(b: seq<KeyValuePair<V>>, key: string): Option<V> {
    var p := KeyPosition(b, key);
    if p >= 0 then Some(b[p].value) else None
  }

  /** What `set` does to the key's bucket: the first pair with the key takes
      the new value, or the pair is appended when there is none. */
  function BucketSet<V>(b: seq<KeyValuePair<V>>, key: string, value: V): seq<KeyValuePair<V>> {
    var p := KeyPosition(b, key);
    if p >= 0 then b[p := KeyValuePair(key, value)] else b + [KeyValuePair(key, value)]
  }

  /** What `delete` does to the key's bucket: the first pair with the key is
      spliced out, if there is one. */
  function BucketDelete<V>(b: seq<KeyValuePair<V>>, key: string): seq<KeyValuePair<V>> {
    var p := KeyPosition(b, key);
    if p >= 0 then b[..p] + b[p + 1..] else b
  }

  /** Every pair of bucket `index` hashes to `index` under `h`, and no key
      repeats. */
  ghost predicate BucketValid<V>(b: seq<KeyValuePair<V>>, index: int, h: string -> int) {
    && (forall j :: 0 <= j < |b| ==> h(b[j].key) == index)
    && (forall i, j :: 0 <= i < j < |b| ==> b[i].key != b[j].key)
  }

  /** The pairs of all buckets, bucket by bucket in index order. */
  ghost function Flattened<V>(bs: seq<seq<KeyValuePair<V>>>): seq<KeyValuePair<V>> {
    if bs == [] then [] else Flattened(bs[..|bs| - 1]) + bs[|bs| - 1]
  }

  lemma {:induction false} FlattenedAllEmpty<V>(bs: seq<seq<KeyValuePair<V>>>)
    requires forall b :: 0 <= b < |bs| ==> bs[b] == []
    ensures Flattened(bs) == []
  {
    if bs != [] {
      FlattenedAllEmpty(bs[..|bs| - 1]);
    }
  }

  /** Replacing one bucket changes the number of pairs by the difference of
      the bucket lengths. */
  lemma {:induction false} FlattenedUpdate<V>(bs: seq<seq<KeyValuePair<V>>>, index: int, nb: seq<KeyValuePair<V>>)
    requires 0 <= index < |bs|
    ensures |Flattened(bs[index := nb])| == |Flattened(bs)| - |bs[index]| + |nb|
  {
    var n := |bs|;
    if index == n - 1 {
      assert bs[index := nb][..n - 1] == bs[..n - 1];
    } else {
      FlattenedUpdate(bs[..n - 1], index, nb);
      assert bs[index := nb][..n - 1] == bs[..n - 1][index := nb];
    }
  }

  /** A pair is among the flattened pairs exactly when some bucket holds it. */
  lemma {:induction false} FlattenedMembers<V>(bs: seq<seq<KeyValuePair<V>>>, p: KeyValuePair<V>)
    ensures p in Flattened(bs) <==> exists b :: 0 <= b < |bs| && p in bs[b]
  {
    if bs != [] {
      var init := bs[..|bs| - 1];
      FlattenedMembers(init, p);
      assert forall b :: 0 <= b < |init| ==> init[b] == bs[b];
    }
  }

  /** What `SimpleHashMap` keeps true about its buckets, its size counter and
      the map they represent, `h` choosing each key's bucket. */
  ghost predicate Consistent<V>(bs: seq<seq<KeyValuePair<V>>>, size: int, contents: map<string, V>, h: string -> int) {
    && InRange(h, |bs|)
    && size == |Flattened(bs)| && size == |contents|
    && BucketsValid(bs, h)
    && LookupsAgree(bs, contents, h)
  }

  /** `h` picks one of `n` buckets for every key. */
  ghost predicate InRange(h: string -> int, n: int) {
    forall k :: 0 <= h(k) < n
  }

  ghost predicate BucketsValid<V>(bs: seq<seq<KeyValuePair<V>>>, h: string -> int) {
    forall b {:trigger BucketValid(bs[b], b, h)} :: 0 <= b < |bs| ==> BucketValid(bs[b], b, h)
  }

  /** Searching a key's bucket finds exactly the map's value for it. */
  ghost predicate LookupsAgree<V>(bs: seq<seq<KeyValuePair<V>>>, contents: map<string, V>, h: string -> int)
    requires InRange(h, |bs|)
  {
    forall k {:trigger Lookup(bs[h(k)], k)} :: Lookup(bs[h(k)], k) == if k in contents then Some(contents[k]) else None
  }

  lemma ConsistentEmpty<V>(bs: seq<seq<KeyValuePair<V>>>, h: string -> int)
    requires InRange(h, |bs|) && forall b :: 0 <= b < |bs| ==> bs[b] == []
    ensures Consistent(bs, 0, map[], h)
  {
    FlattenedAllEmpty(bs);
  }

  /** Overwriting the pair of `key` at position `i` of a bucket. */
  lemma LookupOverwrite<V>(b: seq<KeyValuePair<V>>, i: int, key: string, value: V, k: string)
    requires 0 <= i < |b| && b[i].key == key
    requires forall p, q :: 0 <= p < q < |b| ==> b[p].key != b[q].key
    ensures Lookup(b[i := KeyValuePair(key, value)], k) == if k == key then Some(value) else Lookup(b, k)
  {
    var nb := b[i := KeyValuePair(key, value)];
    if k == key {
      KeyPositionIs(nb, key, i);
    } else {
      KeyPositionIs(nb, k, KeyPosition(b, k));
    }
  }

  /** Appending a pair for a key the bucket lacks. */
  lemma LookupAppend<V>(b: seq<KeyValuePair<V>>, key: string, value: V, k: string)
    requires forall j :: 0 <= j < |b| ==> b[j].key != key
    ensures Lookup(b + [KeyValuePair(key, value)], k) == if k == key then Some(value) else Lookup(b, k)
  {
    var nb := b + [KeyValuePair(key, value)];
    if k == key {
      KeyPositionIs(nb, key, |b|);
    } else {
      KeyPositionIs(nb, k, KeyPosition(b, k));
    }
  }

  /** Splicing out position `i` of a bucket. */
  lemma LookupRemove<V>(b: seq<KeyValuePair<V>>, i: int, k: string)
    requires 0 <= i < |b|
    requires forall p, q :: 0 <= p < q < |b| ==> b[p].key != b[q].key
    ensures Lookup(b[..i] + b[i + 1..], k) == if k == b[i].key then None else Lookup(b, k)
  {
    var nb := b[..i] + b[i + 1..];
    var p := KeyPosition(b, k);
    if k == b[i].key {
      KeyPositionIs(nb, k, -1);
    } else if p == -1 {
      KeyPositionIs(nb, k, -1);
    } else if p < i {
      KeyPositionIs(nb, k, p);
    } else {
      KeyPositionIs(nb, k, p - 1);
    }
  }

  /** Splicing a pair out of a valid bucket leaves it valid. */
  lemma BucketValidRemove<V>(b: seq<KeyValuePair<V>>, i: int, index: int, h: string -> int)
    requires BucketValid(b, index, h) && 0 <= i < |b|
    ensures BucketValid(b[..i] + b[i + 1..], index, h)
  {
    var nb := b[..i] + b[i + 1..];
    assert forall j :: 0 <= j < |nb| ==> nb[j] == b[if j < i then j else j + 1];
    forall p, q | 0 <= p < q < |nb|
      ensures nb[p].key != nb[q].key
    {
      var p', q' := if p < i then p else p + 1, if q < i then q else q + 1;
      assert nb[p] == b[p'] && nb[q] == b[q'] && p' < q';
    }
  }

  /** Appending a pair whose key hashes to the bucket and is absent from it
      leaves the bucket valid. */
  lemma BucketValidAppend<V>(b: seq<KeyValuePair<V>>, p: KeyValuePair<V>, index: int, h: string -> int)
    requires BucketValid(b, index, h) && h(p.key) == index
    requires forall j :: 0 <= j < |b| ==> b[j].key != p.key
    ensures BucketValid(b + [p], index, h)
  {
    var nb := b + [p];
    assert forall j :: 0 <= j < |b| ==> nb[j] == b[j];
    assert nb[|b|] == p;
  }

  /** Replacing one bucket by a valid one keeps every bucket valid. */
  lemma BucketsValidUpdate<V>(bs: seq<seq<KeyValuePair<V>>>, index: int, nb: seq<KeyValuePair<V>>, h: string -> int)
    requires BucketsValid(bs, h) && 0 <= index < |bs| && BucketValid(nb, index, h)
    ensures BucketsValid(bs[index := nb], h)
  {
    var bs' := bs[index := nb];
    forall b | 0 <= b < |bs'|
      ensures BucketValid(bs'[b], b, h)
    {
      if b != index {
        assert bs'[b] == bs[b];
      }
    }
  }

  /** Giving a pair of a valid bucket a new value leaves it valid. */
  lemma BucketValidOverwrite<V>(b: seq<KeyValuePair<V>>, i: int, value: V, index: int, h: string -> int)
    requires BucketValid(b, index, h) && 0 <= i < |b|
    ensures BucketValid(b[i := KeyValuePair(b[i].key, value)], index, h)
  {
    var nb := b[i := KeyValuePair(b[i].key, value)];
    assert forall j :: 0 <= j < |nb| ==> nb[j].key == b[j].key;
  }

  /** Overwriting the value of a key present at position `i` of its bucket. */
  lemma ConsistentOverwrite<V>(bs: seq<seq<KeyValuePair<V>>>, bs': seq<seq<KeyValuePair<V>>>, size: int,
                               contents: map<string, V>, contents': map<string, V>, h: string -> int, key: string, value: V, i: int)
    requires Consistent(bs, size, contents, h)
    requires var index := h(key);
      0 <= i < |bs[index]| && bs[index][i].key == key && bs' == bs[index := bs[index][i := KeyValuePair(key, value)]]
    requires contents' == contents[key := value]
    ensures key in contents && Consistent(bs', size, contents', h)
  {
    var index := h(key);
    var b := bs[index];
    var nb := b[i := KeyValuePair(key, value)];
    assert BucketValid(b, index, h);
    KeyPositionIs(b, key, i);
    LookupAgrees(bs, size, contents, h, key);
    FlattenedUpdate(bs, index, nb);
    BucketValidOverwrite(b, i, value, index, h);
    BucketsValidUpdate(bs, index, nb, h);
    LookupsAgreeOverwrite(bs, contents, h, key, value, i);
  }

  lemma LookupsAgreeOverwrite<V>(bs: seq<seq<KeyValuePair<V>>>, contents: map<string, V>, h: string -> int,
                                 key: string, value: V, i: int)
    requires InRange(h, |bs|) && LookupsAgree(bs, contents, h) && BucketValid(bs[h(key)], h(key), h)
    requires 0 <= i < |bs[h(key)]| && bs[h(key)][i].key == key
    ensures LookupsAgree(bs[h(key) := bs[h(key)][i := KeyValuePair(key, value)]], contents[key := value], h)
  {
    var index := h(key);
    var b := bs[index];
    var bs' := bs[index := b[i := KeyValuePair(key, value)]];
    var contents' := contents[key := value];
    forall k
      ensures Lookup(bs'[h(k)], k) == if k in contents' then Some(contents'[k]) else None
    {
      if h(k) == index {
        LookupOverwrite(b, i, key, value, k);
      }
    }
  }

  /** Appending a pair for a key absent from its bucket. */
  lemma ConsistentAppend<V>(bs: seq<seq<KeyValuePair<V>>>, bs': seq<seq<KeyValuePair<V>>>, size: int,
                            size': int, contents: map<string, V>, contents': map<string, V>, h: string -> int, key: string, value: V)
    requires Consistent(bs, size, contents, h)
    requires var index := h(key);
      (forall j :: 0 <= j < |bs[index]| ==> bs[index][j].key != key) && bs' == bs[index := bs[index] + [KeyValuePair(key, value)]]
    requires size' == size + 1 && contents' == contents[key := value]
    ensures key !in contents && Consistent(bs', size', contents', h)
  {
    var index := h(key);
    var b := bs[index];
    var nb := b + [KeyValuePair(key, value)];
    KeyPositionIs(b, key, -1);
    LookupAgrees(bs, size, contents, h, key);
    FlattenedUpdate(bs, index, nb);
    MapInsertSize(contents, key, value);
    assert BucketValid(b, index, h);
    BucketValidAppend(b, KeyValuePair(key, value), index, h);
    BucketsValidUpdate(bs, index, nb, h);
    LookupsAgreeAppend(bs, contents, h, key, value);
  }

  lemma LookupsAgreeAppend<V>(bs: seq<seq<KeyValuePair<V>>>, contents: map<string, V>, h: string -> int,
                              key: string, value: V)
    requires InRange(h, |bs|) && LookupsAgree(bs, contents, h)
    requires forall j :: 0 <= j < |bs[h(key)]| ==> bs[h(key)][j].key != key
    ensures LookupsAgree(bs[h(key) := bs[h(key)] + [KeyValuePair(key, value)]], contents[key := value], h)
  {
    var index := h(key);
    var b := bs[index];
    var bs' := bs[index := b + [KeyValuePair(key, value)]];
    var contents' := contents[key := value];
    forall k
      ensures Lookup(bs'[h(k)], k) == if k in contents' then Some(contents'[k]) else None
    {
      if h(k) == index {
        LookupAppend(b, key, value, k);
      }
    }
  }

  /** Splicing out the pair of a key found at position `i` of its bucket. */
  lemma ConsistentRemove<V>(bs: seq<seq<KeyValuePair<V>>>, bs': seq<seq<KeyValuePair<V>>>, size: int,
                            size': int, contents: map<string, V>, contents': map<string, V>, h: string -> int, key: string, i: int)
    requires Consistent(bs, size, contents, h)
    requires var index := h(key);
      0 <= i < |bs[index]| && bs[index][i].key == key && bs' == bs[index := bs[index][..i] + bs[index][i + 1..]]
    requires size' == size - 1 && contents' == contents - {key}
    ensures key in contents && Consistent(bs', size', contents', h)
  {
    var index := h(key);
    var b := bs[index];
    var nb := b[..i] + b[i + 1..];
    assert BucketValid(b, index, h);
    KeyPositionIs(b, key, i);
    LookupAgrees(bs, size, contents, h, key);
    FlattenedUpdate(bs, index, nb);
    assert contents'.Keys == contents.Keys - {key};
    assert |contents'| == |contents| - 1;
    BucketValidRemove(b, i, index, h);
    BucketsValidUpdate(bs, index, nb, h);
    LookupsAgreeRemove(bs, contents, h, key, i);
  }

  lemma LookupsAgreeRemove<V>(bs: seq<seq<KeyValuePair<V>>>, contents: map<string, V>, h: string -> int,
                              key: string, i: int)
    requires InRange(h, |bs|) && LookupsAgree(bs, contents, h) && BucketValid(bs[h(key)], h(key), h)
    requires 0 <= i < |bs[h(key)]| && bs[h(key)][i].key == key
    ensures LookupsAgree(bs[h(key) := bs[h(key)][..i] + bs[h(key)][i + 1..]], contents - {key}, h)
  {
    var index := h(key);
    var b := bs[index];
    var bs' := bs[index := b[..i] + b[i + 1..]];
    var contents' := contents - {key};
    forall k
      ensures Lookup(bs'[h(k)], k) == if k in contents' then Some(contents'[k]) else None
    {
      if h(k) == index {
        LookupRemove(b, i, k);
      }
    }
  }

  /** The keys of a sequence of pairs, in order. */
  function KeysOf<V>(ps: seq<KeyValuePair<V>>): (r: seq<string>)
    ensures |r| == |ps| && forall i :: 0 <= i < |ps| ==> r[i] == ps[i].key
  {
    seq(|ps|, i requires 0 <= i < |ps| => ps[i].key)
  }

  /** The values of a sequence of pairs, in order. */
  function ValuesOf<V>(ps: seq<KeyValuePair<V>>): (r: seq<V>)
    ensures |r| == |ps| && forall i :: 0 <= i < |ps| ==> r[i] == ps[i].value
  {
    seq(|ps|, i requires 0 <= i < |ps| => ps[i].value)
  }

  /** The [key, value] entries of a sequence of pairs, in order. */
  function EntriesOf<V>(ps: seq<KeyValuePair<V>>): (r: seq<(string, V)>)
    ensures |r| == |ps| && forall i :: 0 <= i < |ps| ==> r[i] == (ps[i].key, ps[i].value)
  {
    seq(|ps|, i requires 0 <= i < |ps| => (ps[i].key, ps[i].value))
  }

  lemma KeysOfAppend<V>(ps: seq<KeyValuePair<V>>, b: seq<KeyValuePair<V>>, j: int)
    requires 0 <= j < |b|
    ensures KeysOf(ps + b[..j + 1]) == KeysOf(ps + b[..j]) + [b[j].key]
  {
    assert ps + b[..j + 1] == (ps + b[..j]) + [b[j]];
  }

  lemma ValuesOfAppend<V>(ps: seq<KeyValuePair<V>>, b: seq<KeyValuePair<V>>, j: int)
    requires 0 <= j < |b|
    ensures ValuesOf(ps + b[..j + 1]) == ValuesOf(ps + b[..j]) + [b[j].value]
  {
    assert ps + b[..j + 1] == (ps + b[..j]) + [b[j]];
  }

  lemma EntriesOfAppend<V>(ps: seq<KeyValuePair<V>>, b: seq<KeyValuePair<V>>, j: int)
    requires 0 <= j < |b|
    ensures EntriesOf(ps + b[..j + 1]) == EntriesOf(ps + b[..j]) + [(b[j].key, b[j].value)]
  {
    assert ps + b[..j + 1] == (ps + b[..j]) + [b[j]];
  }

  /** Searching the key's bucket answers for the map. */
  lemma LookupAgrees<V>(bs: seq<seq<KeyValuePair<V>>>, size: int, contents: map<string, V>, h: string -> int, key: string)
    requires Consistent(bs, size, contents, h)
    ensures 0 <= h(key) < |bs|
    ensures Lookup(bs[h(key)], key) == if key in contents then Some(contents[key]) else None
  {
  }

  /** Every key of the map is the key of some flattened pair. */
  lemma KeyListed<V>(bs: seq<seq<KeyValuePair<V>>>, size: int, contents: map<string, V>, h: string -> int, k: string)
    requires Consistent(bs, size, contents, h) && k in contents
    ensures k in KeysOf(Flattened(bs))
  {
    var index := h(k);
    var pos := KeyPosition(bs[index], k);
    assert Lookup(bs[index], k).Some?;
    var p := bs[index][pos];
    FlattenedMembers(bs, p);
    var all := Flattened(bs);
    var i :| 0 <= i < |all| && all[i] == p;
    assert KeysOf(all)[i] == k;
  }

  /** The key of every flattened pair is a key of the map. */
  lemma ListedKey<V>(bs: seq<seq<KeyValuePair<V>>>, size: int, contents: map<string, V>, h: string -> int, k: string)
    requires Consistent(bs, size, contents, h) && k in KeysOf(Flattened(bs))
    ensures k in contents
  {
    var all := Flattened(bs);
    var i :| 0 <= i < |all| && KeysOf(all)[i] == k;
    var p := all[i];
    FlattenedMembers(bs, p);
    var b :| 0 <= b < |bs| && p in bs[b];
    var j :| 0 <= j < |bs[b]| && bs[b][j] == p;
    assert BucketValid(bs[b], b, h);
    assert h(k) == b;
    assert KeyPosition(bs[b], k) >= 0;
    assert Lookup(bs[h(k)], k).Some?;
  }

  /** The keys of the flattened pairs are exactly the keys of the map, one per
      entry. */
  lemma KeysOfContents<V>(bs: seq<seq<KeyValuePair<V>>>, size: int, contents: map<string, V>, h: string -> int)
    requires Consistent(bs, size, contents, h)
    ensures |KeysOf(Flattened(bs))| == size
    ensures forall k :: k in KeysOf(Flattened(bs)) <==> k in contents
  {
    forall k
      ensures k in KeysOf(Flattened(bs)) <==> k in contents
    {
      if k in contents {
        KeyListed(bs, size, contents, h, k);
      }
      if k in KeysOf(Flattened(bs)) {
        ListedKey(bs, size, contents, h, k);
      }
    }
  }

  /** Every entry of the map is the entry of some flattened pair. */
  lemma EntryListed<V>(bs: seq<seq<KeyValuePair<V>>>, size: int, contents: map<string, V>, h: string -> int, k: string)
    requires Consistent(bs, size, contents, h) && k in contents
    ensures (k, contents[k]) in EntriesOf(Flattened(bs))
  {
    var index := h(k);
    var pos := KeyPosition(bs[index], k);
    assert Lookup(bs[index], k) == Some(contents[k]);
    var p := bs[index][pos];
    FlattenedMembers(bs, p);
    var all := Flattened(bs);
    var i :| 0 <= i < |all| && all[i] == p;
    assert EntriesOf(all)[i] == (k, contents[k]);
  }

  /** The entry of every flattened pair is an entry of the map. */
  lemma ListedEntry<V>(bs: seq<seq<KeyValuePair<V>>>, size: int, contents: map<string, V>, h: string -> int,
                       k: string, v: V)
    requires Consistent(bs, size, contents, h) && (k, v) in EntriesOf(Flattened(bs))
    ensures k in contents && contents[k] == v
  {
    var all := Flattened(bs);
    var i :| 0 <= i < |all| && EntriesOf(all)[i] == (k, v);
    var p := all[i];
    FlattenedMembers(bs, p);
    var b :| 0 <= b < |bs| && p in bs[b];
    var j :| 0 <= j < |bs[b]| && bs[b][j] == p;
    assert BucketValid(bs[b], b, h);
    assert h(k) == b;
    KeyPositionIs(bs[b], k, j);
    assert Lookup(bs[h(k)], k) == Some(v);
  }

  /** The entries of the flattened pairs are exactly the entries of the map,
      one per key. */
  lemma EntriesOfContents<V>(bs: seq<seq<KeyValuePair<V>>>, size: int, contents: map<string, V>, h: string -> int)
    requires Consistent(bs, size, contents, h)
    ensures |EntriesOf(Flattened(bs))| == size
    ensures forall k, v :: (k, v) in EntriesOf(Flattened(bs)) <==> k in contents && contents[k] == v
  {
    forall k, v
      ensures (k, v) in EntriesOf(Flattened(bs)) <==> k in contents && contents[k] == v
    {
      if k in contents && contents[k] == v {
        EntryListed(bs, size, contents, h, k);
      }
      if (k, v) in EntriesOf(Flattened(bs)) {
        ListedEntry(bs, size, contents, h, k, v);
      }
    }
  }

  lemma MapInsertSize<V>(m: map<string, V>, key: string, value: V)
    requires key !in m
    ensures |m[key := value]| == |m| + 1
  {
    assert m[key := value].Keys == m.Keys + {key};
  }

  lemma RemoveAbsent<V>(m: map<string, V>, key: string)
    requires key !in m
    ensures m - {key} == m
  {
  }

  /** The bucket choice of a map with `capacity` buckets. */
  function Indexer(capacity: int): (h: string -> int)
    requires capacity > 0
    ensures InRange(h, capacity)
  {
    k => BucketIndex(k, capacity)
  }

  /** The loop of the constructor and of `clear`: every bucket set to `[]`. */
  method EmptyBuckets<V>(a: array<seq<KeyValuePair<V>>>)
    modifies a
    ensures forall j :: 0 <= j < a.Length ==> a[j] == []
  {
    for i := 0 to a.Length
      invariant forall j :: 0 <= j < i ==> a[j] == []
    {
      a[i] := [];
    }
  }

  // ---------------------------------------------------------------------
  // The map
  // ---------------------------------------------------------------------

  class SimpleHashMap<V> {
    const capacity: int
    const buckets: array<seq<KeyValuePair<V>>>
    var size: int
    /** The map the buckets represent. */
    ghost var Contents: map<string, V>

    ghost predicate Valid()
      reads this, buckets
    {
      buckets.Length == capacity && capacity > 0 && Consistent(buckets[..], size, Contents, Indexer(capacity))
    }

    /** `new SimpleHashMap(initialCapacity)`: that many empty buckets. */
    constructor (initialCapacity: int)
      requires initialCapacity > 0
      ensures Valid() && fresh(buckets)
      ensures capacity == initialCapacity && size == 0 && Contents == map[]
    {
      capacity := initialCapacity;
      var bs := new seq<KeyValuePair<V>>[initialCapacity];
      EmptyBuckets(bs);
      buckets := bs;
      size := 0;
      Contents := map[];
      new;
      ConsistentEmpty(buckets[..], Indexer(capacity));
    }

    /** `new SimpleHashMap()`, with the default capacity. */
    constructor Default()
      ensures Valid() && fresh(buckets)
      ensures capacity == DefaultInitialCapacity && size == 0 && Contents == map[]
    {
      capacity := DefaultInitialCapacity;
      var bs := new seq<KeyValuePair<V>>[DefaultInitialCapacity];
      EmptyBuckets(bs);
      buckets := bs;
      size := 0;
      Contents := map[];
      new;
      ConsistentEmpty(buckets[..], Indexer(capacity));
    }

    /** `hash`: djb2 over the key's character codes, then `Math.abs(hash) %
        capacity`. */
    method Hash(key: string) returns (index: int)
      requires capacity > 0
      ensures index == BucketIndex(key, capacity)
    {
      var keyString := key;
      var hash := 0;
      for i := 0 to |keyString|
        invariant hash == Djb2(keyString[..i])
      {
        assert keyString[..i + 1][..i] == keyString[..i];
        var code := keyString[i] as int;
        hash := ToInt32(hash * 32) + hash + code;
        hash := ToInt32(hash);
      }
      assert keyString[..|keyString|] == keyString;
      index := Abs(hash) % capacity;
    }

    /** `set`: overwrites the value of a present key in place; otherwise
        appends the pair to the key's bucket and counts it. */
    method Set(key: string, value: V)
      requires Valid()
      modifies this, buckets
      ensures Valid() && Contents == old(Contents)[key := value]
      ensures size == if key in old(Contents) then old(size) else old(size) + 1
      ensures var index := BucketIndex(key, capacity);
        buckets[..] == old(buckets[..])[index := BucketSet(old(buckets[index]), key, value)]
    {
      var index := Hash(key);
      var bucket := buckets[index];
      for i := 0 to |bucket|
        invariant forall j :: 0 <= j < i ==> bucket[j].key != key
      {
        if bucket[i].key == key {
          OverwriteAt(index, i, key, value);
          KeyPositionIs(bucket, key, i);
          return;
        }
      }
      KeyPositionIs(bucket, key, -1);
      AppendTo(index, key, value);
    }

    /** The found branch of `set`: the pair at position `i` of the key's
        bucket takes the new value. */
    method OverwriteAt(index: int, i: int, key: string, value: V)
      requires Valid() && index == BucketIndex(key, capacity)
      requires 0 <= i < |buckets[index]| && buckets[index][i].key == key
      modifies this, buckets
      ensures Valid() && key in old(Contents) && Contents == old(Contents)[key := value] && size == old(size)
      ensures buckets[..] == old(buckets[..])[index := old(buckets[index])[i := KeyValuePair(key, value)]]
    {
      ghost var before, contentsBefore := buckets[..], Contents;
      buckets[index] := buckets[index][i := KeyValuePair(key, value)];
      Contents := Contents[key := value];
      ConsistentOverwrite(before, buckets[..], size, contentsBefore, Contents, Indexer(capacity), key, value, i);
    }

    /** The end of `set` for a key absent from its bucket: the pair is
        appended and counted. */
    method AppendTo(index: int, key: string, value: V)
      requires Valid() && index == BucketIndex(key, capacity)
      requires forall j :: 0 <= j < |buckets[index]| ==> buckets[index][j].key != key
      modifies this, buckets
      ensures Valid() && key !in old(Contents) && Contents == old(Contents)[key := value] && size == old(size) + 1
      ensures buckets[..] == old(buckets[..])[index := old(buckets[index]) + [KeyValuePair(key, value)]]
    {
      ghost var before, contentsBefore := buckets[..], Contents;
      buckets[index] := buckets[index] + [KeyValuePair(key, value)];
      size := size + 1;
      Contents := Contents[key := value];
      ConsistentAppend(before, buckets[..], old(size), size, contentsBefore, Contents, Indexer(capacity), key, value);
    }

    /** `get`: the value paired with the key in its bucket, if any. */
    method Get(key: string) returns (r: Option<V>)
      requires Valid()
      ensures r == if key in Contents then Some(Contents[key]) else None
    {
      var index := Hash(key);
      var bucket := buckets[index];
      LookupAgrees(buckets[..], size, Contents, Indexer(capacity), key);
      assert bucket == buckets[..][index];
      for i := 0 to |bucket|
        invariant forall j :: 0 <= j < i ==> bucket[j].key != key
      {
        var pair := bucket[i];
        if pair.key == key {
          KeyPositionIs(bucket, key, i);
          return Some(pair.value);
        }
      }
      KeyPositionIs(bucket, key, -1);
      r := None;
    }

    /** `has`: whether `get` finds a value. */
    method Has(key: string) returns (b: bool)
      requires Valid()
      ensures b <==> key in Contents
    {
      var r := Get(key);
      b := r.Some?;
    }

    /** `delete`: splices out the key's pair and uncounts it; an absent key
        changes nothing. */
    method Delete(key: string) returns (removed: bool)
      requires Valid()
      modifies this, buckets
      ensures Valid()
      ensures removed <==> key in old(Contents)
      ensures Contents == old(Contents) - {key}
      ensures size == if removed then old(size) - 1 else old(size)
      ensures var index := BucketIndex(key, capacity);
        buckets[..] == old(buckets[..])[index := BucketDelete(old(buckets[index]), key)]
    {
      var index := Hash(key);
      var bucket := buckets[index];
      for i := 0 to |bucket|
        invariant forall j :: 0 <= j < i ==> bucket[j].key != key
      {
        if bucket[i].key == key {
          RemoveAt(index, i, key);
          KeyPositionIs(bucket, key, i);
          return true;
        }
      }
      KeyPositionIs(bucket, key, -1);
      LookupAgrees(buckets[..], size, Contents, Indexer(capacity), key);
      assert bucket == buckets[..][index];
      RemoveAbsent(Contents, key);
      removed := false;
    }

    /** The found branch of `delete`: the pair at position `i` of the key's
        bucket is spliced out and uncounted. */
    method RemoveAt(index: int, i: int, key: string)
      requires Valid() && index == BucketIndex(key, capacity)
      requires 0 <= i < |buckets[index]| && buckets[index][i].key == key
      modifies this, buckets
      ensures Valid() && key in old(Contents) && Contents == old(Contents) - {key} && size == old(size) - 1
      ensures buckets[..] == old(buckets[..])[index := old(buckets[index])[..i] + old(buckets[index])[i + 1..]]
    {
      ghost var before, contentsBefore := buckets[..], Contents;
      buckets[index] := buckets[index][..i] + buckets[index][i + 1..];
      size := size - 1;
      Contents := Contents - {key};
      ConsistentRemove(before, buckets[..], old(size), size, contentsBefore, Contents, Indexer(capacity), key, i);
    }

    /** `getSize`: the number of keys stored. */
    method GetSize() returns (n: int)
      requires Valid()
      ensures n == |Contents|
    {
      n := size;
    }

    /** `isEmpty`. */
    method IsEmpty() returns (b: bool)
      requires Valid()
      ensures b <==> Contents == map[]
    {
      b := size == 0;
    }

    /** `clear`: every bucket emptied, the size back to 0. */
    method Clear()
      requires Valid()
      modifies this, buckets
      ensures Valid() && Contents == map[] && size == 0
      ensures forall b :: 0 <= b < capacity ==> buckets[b] == []
    {
      EmptyBuckets(buckets);
      size := 0;
      Contents := map[];
      ConsistentEmpty(buckets[..], Indexer(capacity));
    }

    /** `keys`: the key of every pair, bucket by bucket in index order; these
        are the keys of the map, `size` of them. */
    method Keys() returns (allKeys: seq<string>)
      requires Valid()
      ensures allKeys == KeysOf(Flattened(buckets[..]))
      ensures |allKeys| == size
      ensures forall k :: k in allKeys <==> k in Contents
    {
      ghost var bs := buckets[..];
      allKeys := [];
      for b := 0 to capacity
        invariant allKeys == KeysOf(Flattened(bs[..b]))
      {
        assert bs[..b + 1][..b] == bs[..b];
        var bucket := buckets[b];
        assert bucket == bs[b];
        for j := 0 to |bucket|
          invariant allKeys == KeysOf(Flattened(bs[..b]) + bucket[..j])
        {
          KeysOfAppend(Flattened(bs[..b]), bucket, j);
          allKeys := allKeys + [bucket[j].key];
        }
        assert bucket[..|bucket|] == bucket;
      }
      assert bs[..capacity] == bs;
      KeysOfContents(bs, size, Contents, Indexer(capacity));
    }

    /** `values`: the value of every pair, in the order of `keys`. */
    method Values() returns (allValues: seq<V>)
      requires Valid()
      ensures allValues == ValuesOf(Flattened(buckets[..]))
      ensures |allValues| == size
    {
      ghost var bs := buckets[..];
      allValues := [];
      for b := 0 to capacity
        invariant allValues == ValuesOf(Flattened(bs[..b]))
      {
        assert bs[..b + 1][..b] == bs[..b];
        var bucket := buckets[b];
        assert bucket == bs[b];
        for j := 0 to |bucket|
          invariant allValues == ValuesOf(Flattened(bs[..b]) + bucket[..j])
        {
          ValuesOfAppend(Flattened(bs[..b]), bucket, j);
          allValues := allValues + [bucket[j].value];
        }
        assert bucket[..|bucket|] == bucket;
      }
      assert bs[..capacity] == bs;
    }

    /** `entries`: the [key, value] of every pair, in the order of `keys`. */
    method Entries() returns (allEntries: seq<(string, V)>)
      requires Valid()
      ensures allEntries == EntriesOf(Flattened(buckets[..]))
      ensures |allEntries| == size
      ensures forall k, v :: (k, v) in allEntries <==> k in Contents && Contents[k] == v
    {
      ghost var bs := buckets[..];
      allEntries := [];
      for b := 0 to capacity
        invariant allEntries == EntriesOf(Flattened(bs[..b]))
      {
        assert bs[..b + 1][..b] == bs[..b];
        var bucket := buckets[b];
        assert bucket == bs[b];
        for j := 0 to |bucket|
          invariant allEntries == EntriesOf(Flattened(bs[..b]) + bucket[..j])
        {
          EntriesOfAppend(Flattened(bs[..b]), bucket, j);
          allEntries := allEntries + [(bucket[j].key, bucket[j].value)];
        }
        assert bucket[..|bucket|] == bucket;
      }
      assert bs[..capacity] == bs;
      EntriesOfContents(bs, size, Contents, Indexer(capacity));
    }
  }

  // ---------------------------------------------------------------------
  // Client: the word counter of the examples
  // ---------------------------------------------------------------------

  /** How many times `w` occurs in `ws`. */
  function Ocorrencias(ws: seq<string>, w: string): nat {
    multiset(ws)[w]
  }

  /** `c` holds, for every word of `ws` and no other, its number of
      occurrences. */
  ghost predicate Conta(c: map<string, int>, ws: seq<string>) {
    forall w {:trigger Ocorrencias(ws, w)} :: (w in c <==> w in ws) && (w in c ==> c[w] == Ocorrencias(ws, w))
  }

  /** One more word counted: its entry goes from `get(palavra) || 0`, which
      is its count so far, to one more. */
  lemma {:induction false} ContaPasso(c: map<string, int>, ws: seq<string>, p: string, atual: int,
                                      c': map<string, int>, ws': seq<string>)
    requires Conta(c, ws)
    requires atual == (if p in c && c[p] != 0 then c[p] else 0)
    requires c' == c[p := atual + 1] && ws' == ws + [p]
    ensures Conta(c', ws')
  {
    assert multiset(ws') == multiset(ws) + multiset{p};
    forall w
      ensures (w in c' <==> w in ws') && (w in c' ==> c'[w] == Ocorrencias(ws', w))
    {
      assert Ocorrencias(ws', w) == Ocorrencias(ws, w) + (if w == p then 1 else 0);
    }
  }

  /** `exemploContador`: counts each word with `get(palavra) || 0` followed by
      `set(palavra, atual + 1)`; the map ends up holding, for every word of
      the text, its number of occurrences. */
  method ContarPalavras(palavras: seq<string>) returns (contador: SimpleHashMap<int>)
    ensures contador.Valid() && fresh(contador.buckets)
    ensures Conta(contador.Contents, palavras)
  {
    contador := new SimpleHashMap<int>.Default();
    for i := 0 to |palavras|
      invariant contador.Valid() && fresh(contador.buckets)
      invariant Conta(contador.Contents, palavras[..i])
    {
      var palavra := palavras[i];
      var r := contador.Get(palavra);
      var atual := if r.Some? && r.value != 0 then r.value else 0;
      ghost var antes := contador.Contents;
      contador.Set(palavra, atual + 1);
      assert palavras[..i + 1] == palavras[..i] + [palavra];
      ContaPasso(antes, palavras[..i], palavra, atual, contador.Contents, palavras[..i + 1]);
    }
    assert palavras[..|palavras|] == palavras;
  }
}
