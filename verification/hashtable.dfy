/**
 The growing hash table of the extensions (Xext/hashtable.c).
 */
module HashTables {
  import opened Bits

  const INIT_HASH_SIZE: nat := 6   // INITHASHSIZE
  const MAX_HASH_SIZE: nat := 11   // MAXHASHSIZE

  /** One element: its key and a place for its data. */
  class BucketRec<K, V> {
    const key: K
    var data: V

    constructor (k: K, zero: V)
      ensures key == k && data == zero
    {
      key, data := k, zero;
    }
  }

  function Reverse<T>(s: seq<T>): (r: seq<T>)
    ensures |r| == |s|
  {
    if s == [] then [] else Reverse(s[1..]) + [s[0]]
  }

  lemma {:induction false} ReverseMore<T>(s: seq<T>, x: T)
    ensures Reverse(s + [x]) == [x] + Reverse(s)
  {
    if s == [] {
      assert s + [x] == [x];
    } else {
      ReverseMore(s[1..], x);
      assert (s + [x])[1..] == s[1..] + [x];
    }
  }

  lemma {:induction false} ReverseEnds<T>(s: seq<T>)
    requires s != []
    ensures Reverse(s)[0] == s[|s| - 1]
  {
    if |s| > 1 { ReverseEnds(s[1..]); }
  }

  /** The elements of a bucket with one key, in their order. */
  ghost function Having<K, V>(list: seq<BucketRec<K, V>>, k: K): seq<BucketRec<K, V>> {
    if list == [] then [] else (if list[0].key == k then [list[0]] else []) + Having(list[1..], k)
  }

  lemma {:induction false} HavingConcat<K, V>(a: seq<BucketRec<K, V>>, b: seq<BucketRec<K, V>>, k: K)
    ensures Having(a + b, k) == Having(a, k) + Having(b, k)
  {
    if a == [] {
      assert a + b == b && Having(a, k) == [] && [] + Having(b, k) == Having(b, k);
    } else {
      HavingHead(a, k);
      HavingHead(a + b, k);
      HavingConcat(a[1..], b, k);
      hide Having;
      assert (a + b)[1..] == a[1..] + b;
    }
  }

  lemma {:induction false} HavingAre<K, V>(list: seq<BucketRec<K, V>>, k: K)
    ensures forall e :: e in Having(list, k) <==> e in list && e.key == k
  {
    if list != [] {
      HavingAre(list[1..], k);
      assert list == [list[0]] + list[1..];
    }
  }

  lemma HavingHead<K, V>(list: seq<BucketRec<K, V>>, k: K)
    requires list != []
    ensures Having(list, k) == (if list[0].key == k then [list[0]] else []) + Having(list[1..], k)
  {
  }

  lemma HavingOne<K, V>(n: BucketRec<K, V>, k: K)
    ensures Having([n], k) == if n.key == k then [n] else []
  {
    assert Having([n][1..], k) == [];
  }

  ghost function Total<T>(lists: seq<seq<T>>): nat {
    if lists == [] then 0 else |lists[0]| + Total(lists[1..])
  }

  lemma {:induction false} TotalUpdate<T>(lists: seq<seq<T>>, c: nat, list: seq<T>)
    requires c < |lists|
    ensures Total(lists[c := list]) == Total(lists) - |lists[c]| + |list|
  {
    if c == 0 {
      assert lists[0 := list][1..] == lists[1..];
    } else {
      TotalUpdate(lists[1..], c - 1, list);
      assert lists[c := list][1..] == lists[1..][c - 1 := list];
    }
  }

  lemma {:induction false} TotalEmpty<T>(lists: seq<seq<T>>)
    requires forall c :: 0 <= c < |lists| ==> lists[c] == []
    ensures Total(lists) == 0
  {
    if lists != [] { TotalEmpty(lists[1..]); }
  }

  /** The other way round, if the table grew. */
  function Turned<T>(s: seq<T>, grew: bool): seq<T> { if grew then Reverse(s) else s }

  lemma Pow2Doubles(n: nat)
    ensures Pow2(n + 1) == 2 * Pow2(n)
  {
  }

  lemma SingleReverse<T>()
    ensures forall s: seq<T> :: |s| <= 1 ==> Reverse(s) == s
  {
    forall s: seq<T> | |s| <= 1 ensures Reverse(s) == s {
      if s != [] { assert s[1..] == []; }
    }
  }

  class HashTable<K(==,!new), V> {
    var elements: int
    var bucketBits: nat
    var buckets: array<seq<BucketRec<K, V>>>
    const hash: (K, nat) -> nat
    const zero: V  // fresh data is zeroed

    /** The table is sound, and not too full unless it has its largest size. */
    ghost predicate Valid() reads this, buckets {
      Sound() && (bucketBits < MAX_HASH_SIZE ==> elements <= 4 * Pow2(bucketBits))
    }

    ghost predicate Sound() reads this, buckets {
      && INIT_HASH_SIZE <= bucketBits <= MAX_HASH_SIZE
      && Placed(buckets[..], bucketBits)
      && elements == Total(buckets[..])
    }

    ghost predicate Hashes() { forall k, bits :: hash(k, bits) < Pow2(bits) }

    /** Every element sits in the bucket its key hashes to. */
    ghost predicate Placed(lists: seq<seq<BucketRec<K, V>>>, bits: nat) {
      && |lists| == Pow2(bits) && Hashes()
      && forall c, i :: 0 <= c < |lists| && 0 <= i < |lists[c]| ==> hash(lists[c][i].key, bits) == c
    }

    /** The elements with one key, the one that is found first. */
    ghost function Found(k: K): seq<BucketRec<K, V>>
      reads this, buckets
      requires Sound()
    {
      FoundIn(buckets[..], bucketBits, k)
    }

    ghost function FoundIn(lists: seq<seq<BucketRec<K, V>>>, bits: nat, k: K): seq<BucketRec<K, V>>
      requires |lists| == Pow2(bits) && Hashes()
    {
      Having(lists[hash(k, bits)], k)
    }

    constructor (h: (K, nat) -> nat, z: V)
      requires forall k, bits :: h(k, bits) < Pow2(bits)
      ensures Valid() && hash == h && zero == z && fresh(buckets) && forall k :: Found(k) == []
      ensures elements == 0 && bucketBits == INIT_HASH_SIZE
    {
      hash, zero := h, z;
      elements, bucketBits := 0, INIT_HASH_SIZE;
      buckets := new seq<BucketRec<K, V>>[Pow2(INIT_HASH_SIZE)](_ => []);
      new;
      TotalEmpty(buckets[..]);
    }

    /** The element of a key, if there is one. */
    method HtFind(k: K) returns (e: BucketRec?<K, V>)
      requires Valid()
      ensures e == if Found(k) == [] then null else Found(k)[0]
      ensures e != null ==> e.key == k && exists c :: 0 <= c < buckets.Length && e in buckets[c]
      ensures e == null ==>
        forall c, i :: 0 <= c < buckets.Length && 0 <= i < |buckets[c]| ==> buckets[c][i].key != k
    {
      var bucket := buckets[hash(k, bucketBits)];
      HavingAre(bucket, k);
      assert forall c :: 0 <= c < buckets.Length ==> buckets[c] == buckets[..][c];
      for i := 0 to |bucket|
        invariant Having(bucket, k) == Having(bucket[i..], k)
      {
        if bucket[i].key == k { return bucket[i]; }
        assert bucket[i..][1..] == bucket[i + 1..];
      }
      assert bucket[|bucket|..] == [];
      return null;
    }

    lemma SoundIs()
      requires Sound()
      ensures INIT_HASH_SIZE <= bucketBits <= MAX_HASH_SIZE && buckets.Length == Pow2(bucketBits) && Hashes() &&
              Placed(buckets[..], bucketBits) && elements == Total(buckets[..])
      ensures forall k :: hash(k, bucketBits) < buckets.Length && Found(k) == FoundIn(buckets[..], bucketBits, k)
    {
    }

    lemma BecomesSound()
      requires INIT_HASH_SIZE <= bucketBits <= MAX_HASH_SIZE && Placed(buckets[..], bucketBits) &&
               elements == Total(buckets[..])
      ensures Sound() && Hashes() && buckets.Length == Pow2(bucketBits)
      ensures forall k :: Found(k) == FoundIn(buckets[..], bucketBits, k)
    {
    }

    /** Takes the element of a key off the table. */
    method HtRemove(k: K)
      requires Valid()
      modifies this`elements, buckets
      ensures Valid() && Found(k) == (if old(Found(k)) == [] then [] else old(Found(k))[1..])
      ensures forall j :: j != k ==> Found(j) == old(Found(j))
      ensures elements == old(elements) - if old(Found(k)) == [] then 0 else 1
    {
      hide Sound, Placed, Having, Total, Hashes, Found, FoundIn;
      SoundIs();
      ghost var lists := buckets[..];
      var index := hash(k, bucketBits);
      var bucket := buckets[index];
      var found, i := FirstWith(bucket, k);
      if found {
        WithoutOne(lists, bucketBits, index, i);
        buckets[index] := bucket[..i] + bucket[i + 1..];
        elements := elements - 1;
        assert buckets[..] == lists[index := bucket[..i] + bucket[i + 1..]];
        BecomesSound();
      } else {
        FoundInIs(lists, bucketBits, k);
        assert bucket[..i] == bucket;
      }
    }

    lemma FoundInIs(lists: seq<seq<BucketRec<K, V>>>, bits: nat, k: K)
      requires |lists| == Pow2(bits) && Hashes()
      ensures FoundIn(lists, bits, k) == Having(lists[hash(k, bits)], k)
    {
    }

    /** The place of the first element with a key. */
    method FirstWith(bucket: seq<BucketRec<K, V>>, k: K) returns (found: bool, i: nat)
      ensures i <= |bucket| && (found <==> i < |bucket|) && (found ==> bucket[i].key == k)
      ensures Having(bucket[..i], k) == []
    {
      i := 0;
      while i < |bucket|
        invariant i <= |bucket| && Having(bucket[..i], k) == []
      {
        if bucket[i].key == k { return true, i; }
        HavingSplit(bucket, i, k);
        i := i + 1;
      }
      return false, i;
    }

    lemma HavingSplit(list: seq<BucketRec<K, V>>, i: nat, k: K)
      requires i < |list|
      ensures Having(list, k) == Having(list[..i], k) + (if list[i].key == k then [list[i]] else []) +
              Having(list[i + 1..], k)
      ensures Having(list[..i + 1], k) == Having(list[..i], k) + if list[i].key == k then [list[i]] else []
      ensures Having(list[..i] + list[i + 1..], k) == Having(list[..i], k) + Having(list[i + 1..], k)
    {
      hide Having;
      var front, x, rest := list[..i], [list[i]], list[i + 1..];
      HavingOne(list[i], k);
      HavingConcat(front, x, k);
      HavingConcat(front, rest, k);
      HavingConcat(front + x, rest, k);
      Pieces(list, i);
    }

    lemma Pieces(list: seq<BucketRec<K, V>>, i: nat)
      requires i < |list|
      ensures list[..i + 1] == list[..i] + [list[i]] && list == list[..i] + [list[i]] + list[i + 1..]
    {
    }

    /** Taking the first element of its key off a bucket. */
    lemma WithoutOne(lists: seq<seq<BucketRec<K, V>>>, bits: nat, c: nat, i: nat)
      requires Placed(lists, bits) && Hashes() && |lists| == Pow2(bits) && c < |lists| && i < |lists[c]|
      requires Having(lists[c][..i], lists[c][i].key) == []
      ensures var after := lists[c := lists[c][..i] + lists[c][i + 1..]];
              && Placed(after, bits) && Total(after) == Total(lists) - 1
              && FoundIn(lists, bits, lists[c][i].key) == [lists[c][i]] + FoundIn(after, bits, lists[c][i].key)
              && forall j :: j != lists[c][i].key ==> FoundIn(after, bits, j) == FoundIn(lists, bits, j)
    {
      hide Having, Total;
      var cut := lists[c][..i] + lists[c][i + 1..];
      var after := lists[c := cut];
      TotalUpdate(lists, c, cut);
      assert forall k :: 0 <= k < |cut| ==> cut[k] == lists[c][if k < i then k else k + 1];
      forall j ensures Having(cut, j) == Having(lists[c][..i], j) + Having(lists[c][i + 1..], j)
               ensures Having(lists[c], j) == Having(lists[c][..i], j) +
                       (if lists[c][i].key == j then [lists[c][i]] else []) + Having(lists[c][i + 1..], j)
      {
        HavingSplit(lists[c], i, j);
      }
      assert hash(lists[c][i].key, bits) == c;
    }

    /** Putting an element at the front of its bucket. */
    lemma WithFront(lists: seq<seq<BucketRec<K, V>>>, bits: nat, c: nat, n: BucketRec<K, V>)
      requires Placed(lists, bits) && Hashes() && |lists| == Pow2(bits) && c == hash(n.key, bits)
      ensures var after := lists[c := [n] + lists[c]];
              && Placed(after, bits) && Total(after) == Total(lists) + 1
              && FoundIn(after, bits, n.key) == [n] + FoundIn(lists, bits, n.key)
              && forall j :: j != n.key ==> FoundIn(after, bits, j) == FoundIn(lists, bits, j)
    {
      hide Having, Total;
      TotalUpdate(lists, c, [n] + lists[c]);
      forall j ensures Having([n] + lists[c], j) == (if n.key == j then [n] else []) + Having(lists[c], j) {
        HavingConcat([n], lists[c], j);
        HavingOne(n, j);
      }
    }

    /** Putting an element at the end of its bucket. */
    lemma WithBack(lists: seq<seq<BucketRec<K, V>>>, bits: nat, c: nat, n: BucketRec<K, V>)
      requires Placed(lists, bits) && Hashes() && |lists| == Pow2(bits) && c == hash(n.key, bits)
      ensures var after := lists[c := lists[c] + [n]];
              && Placed(after, bits) && Total(after) == Total(lists) + 1
              && FoundIn(after, bits, n.key) == FoundIn(lists, bits, n.key) + [n]
              && forall j :: j != n.key ==> FoundIn(after, bits, j) == FoundIn(lists, bits, j)
    {
      hide Having, Total;
      TotalUpdate(lists, c, lists[c] + [n]);
      forall j ensures Having(lists[c] + [n], j) == Having(lists[c], j) + if n.key == j then [n] else [] {
        HavingConcat(lists[c], [n], j);
        HavingOne(n, j);
      }
    }

    /** Twice as many buckets: every element is moved to the front of the bucket its key now hashes to. */
    method DoubleSize(room: bool) returns (ok: bool)
      requires Sound() && bucketBits < MAX_HASH_SIZE
      modifies this`bucketBits, this`buckets, buckets
      ensures Sound() && ok == room
      ensures !ok ==> buckets == old(buckets) && buckets[..] == old(buckets[..]) && bucketBits == old(bucketBits)
      ensures ok ==>
        fresh(buckets) && bucketBits == old(bucketBits) + 1 && forall k :: Found(k) == Reverse(old(Found(k)))
    {
      if !room { return false; }
      hide Sound, Placed, Having, Total, Hashes, Found, FoundIn, Reverse, Pow2;
      SoundIs();
      ghost var lists, bits := buckets[..], bucketBits;
      var newBuckets := new seq<BucketRec<K, V>>[Pow2(bucketBits + 1)](_ => []);
      ghost var done: seq<seq<BucketRec<K, V>>> := seq(|lists|, _ => []);
      MovingStarts(newBuckets[..], done, bits);
      done := MoveAll(newBuckets, lists, done);
      MovingIs(newBuckets[..], lists, bits);
      buckets, bucketBits := newBuckets, bucketBits + 1;
      BecomesSound();
      return true;
    }

    method MoveAll(newBuckets: array<seq<BucketRec<K, V>>>, ghost lists: seq<seq<BucketRec<K, V>>>,
                   ghost done: seq<seq<BucketRec<K, V>>>)
      returns (ghost done': seq<seq<BucketRec<K, V>>>)
      requires newBuckets != buckets && buckets[..] == lists && Placed(lists, bucketBits) && |done| == |lists|
      requires Moving(newBuckets[..], done, bucketBits) && forall d :: 0 <= d < |done| ==> done[d] == []
      modifies buckets, newBuckets
      ensures done' == lists && Moving(newBuckets[..], done', bucketBits)
    {
      hide Placed, Moving, Hashes, Pow2;
      done' := done;
      for c := 0 to buckets.Length
        invariant |done'| == |lists| && forall d :: 0 <= d < |lists| ==> done'[d] == if d < c then lists[d] else []
        invariant forall d :: c <= d < |lists| ==> buckets[d] == lists[d]
        invariant Moving(newBuckets[..], done', bucketBits)
      {
        done' := MoveBucket(c, newBuckets, lists, done');
      }
    }

    /** Moves the elements of one bucket, from its front on. */
    method MoveBucket(c: nat, newBuckets: array<seq<BucketRec<K, V>>>, ghost lists: seq<seq<BucketRec<K, V>>>,
                      ghost done: seq<seq<BucketRec<K, V>>>)
      returns (ghost done': seq<seq<BucketRec<K, V>>>)
      requires c < buckets.Length == |lists| == |done| && newBuckets != buckets && Placed(lists, bucketBits)
      requires buckets[c] == lists[c] && done[c] == [] && Moving(newBuckets[..], done, bucketBits)
      modifies buckets, newBuckets
      ensures done' == done[c := lists[c]] && Moving(newBuckets[..], done', bucketBits)
      ensures forall d :: 0 <= d < buckets.Length && d != c ==> buckets[d] == old(buckets[d])
    {
      hide Placed, Moving, Hashes, Pow2;
      done' := done;
      ghost var i: nat := 0;
      while buckets[c] != []
        invariant i <= |lists[c]| && buckets[c] == lists[c][i..] && done' == done[c := lists[c][..i]]
        invariant forall d :: 0 <= d < buckets.Length && d != c ==> buckets[d] == old(buckets[d])
        invariant Moving(newBuckets[..], done', bucketBits)
        decreases |lists[c]| - i
      {
        var it := buckets[c][0];
        PlacedAt(lists, bucketBits, c, i);
        ghost var now := newBuckets[..];
        MoveOne(now, done', bucketBits, c, it);
        var h := hash(it.key, bucketBits + 1);
        buckets[c] := buckets[c][1..];
        newBuckets[h] := [it] + newBuckets[h];
        assert newBuckets[..] == now[h := [it] + now[h]];
        assert lists[c][..i + 1] == lists[c][..i] + [it];
        done', i := done'[c := done'[c] + [it]], i + 1;
      }
      assert lists[c][..i] == lists[c];
    }

    // -------------------------------------------------------------- as a map

    /** No key is on the table twice. */
    ghost predicate Unique() reads this, buckets
      requires Sound()
    {
      forall k :: |Found(k)| <= 1
    }

    /** The element that is found for a key. */
    ghost function Entry(k: K): BucketRec?<K, V> reads this, buckets
      requires Sound()
    {
      if Found(k) == [] then null else Found(k)[0]
    }

    /** One element more would be too many for the buckets. */
    ghost predicate Full() reads this {
      elements == 4 * Pow2(bucketBits) && bucketBits < MAX_HASH_SIZE
    }

    /** A new element for a key, in front of others with the same key; the table grows when it gets
        too full.  Without memory for the element, or for the buckets, nothing changes.  If the key
        was absent from a table without duplicates, exactly the key's entry is new; growing then
        changes no entry. */
    method HtAdd(k: K, room: bool, bucketRoom: bool) returns (e: BucketRec?<K, V>)
      requires Valid()
      modifies this`elements, this`bucketBits, this`buckets, buckets
      ensures Valid() && (e == null <==> !room || (old(Full()) && !bucketRoom))
      ensures buckets == old(buckets) || fresh(buckets)
      ensures e == null ==>
        && elements == old(elements) && bucketBits == old(bucketBits)
        && buckets == old(buckets) && buckets[..] == old(buckets[..])
      ensures e != null ==>
        && fresh(e) && e.key == k && e.data == zero && elements == old(elements) + 1
        && bucketBits == old(bucketBits) + (if old(Full()) then 1 else 0)
        && forall j ::
             Found(j) ==
             Turned<BucketRec<K, V>>((if j == k then [e] else []) + old(Found(j)), bucketBits != old(bucketBits))
      ensures e != null && old(Unique()) && old(Entry(k)) == null ==>
        Unique() && forall j :: Entry(j) == if j == k then e else old(Entry(j))
    {
      hide Sound, Placed, Having, Total, Hashes, Found, FoundIn, Reverse, Pow2;
      SoundIs();
      if !room { return null; }
      ghost var lists := buckets[..];
      var index := hash(k, bucketBits);
      var elem := new BucketRec(k, zero);
      WithFront(lists, bucketBits, index, elem);
      buckets[index] := [elem] + buckets[index];
      elements := elements + 1;
      assert buckets[..] == lists[index := [elem] + lists[index]];
      BecomesSound();
      forall j ensures Found(j) == (if j == k then [elem] else []) + old(Found(j)) {
        assert [] + old(Found(j)) == old(Found(j));
      }
      SingleReverse<BucketRec<K, V>>();
      if elements > 4 * Pow2(bucketBits) && bucketBits < MAX_HASH_SIZE {
        Pow2Doubles(bucketBits);
        var ok := DoubleSize(bucketRoom);
        if !ok {
          elements := elements - 1;
          buckets[index] := buckets[index][1..];
          assert buckets[..] == lists;
          BecomesSound();
          return null;
        }
        forall j ensures Found(j) == Turned<BucketRec<K, V>>((if j == k then [elem] else []) + old(Found(j)), true) {}
      }
      return elem;
    }

    /** Adds an element and then looks a key up: the first one on the key's list is found, unless the
        table grew, which brings back the last one, the new one only if it is alone. */
    method AddThenFind(k: K, room: bool, bucketRoom: bool, j: K) returns (e: BucketRec?<K, V>, f: BucketRec?<K, V>)
      requires Valid()
      modifies this`elements, this`bucketBits, this`buckets, buckets
      ensures Valid() && (e == null <==> !room || (old(Full()) && !bucketRoom))
      ensures e == null ==> f == old(Entry(j))
      ensures e != null ==>
        var was, grew := (if j == k then [e] else []) + old(Found(j)), bucketBits != old(bucketBits);
        && grew == old(Full())
        && f == if was == [] then null else if grew then was[|was| - 1] else was[0]
    {
      hide Sound, Placed, Having, Total, Hashes, Found, FoundIn, Reverse, Pow2;
      SoundIs();
      e := HtAdd(k, room, bucketRoom);
      SoundIs();
      if e != null {
        ghost var was := (if j == k then [e] else []) + old(Found(j));
        assert Found(j) == Turned<BucketRec<K, V>>(was, bucketBits != old(bucketBits));
        if was != [] { ReverseEnds<BucketRec<K, V>>(was); }
        assert |Reverse<BucketRec<K, V>>(was)| == |was|;
      }
      f := HtFind(j);
    }

    lemma PlacedAt(lists: seq<seq<BucketRec<K, V>>>, bits: nat, c: nat, i: nat)
      requires Placed(lists, bits) && c < |lists| && i < |lists[c]|
      ensures hash(lists[c][i].key, bits) == c && hash(lists[c][i].key, bits + 1) < Pow2(bits + 1)
    {
    }

    lemma MovingStarts(now: seq<seq<BucketRec<K, V>>>, done: seq<seq<BucketRec<K, V>>>, bits: nat)
      requires Hashes() && |now| == Pow2(bits + 1) && |done| == Pow2(bits)
      requires (forall c :: 0 <= c < |now| ==> now[c] == []) && forall c :: 0 <= c < |done| ==> done[c] == []
      ensures Moving(now, done, bits)
    {
      TotalEmpty(now);
      TotalEmpty(done);
    }

    lemma MovingIs(now: seq<seq<BucketRec<K, V>>>, done: seq<seq<BucketRec<K, V>>>, bits: nat)
      requires Moving(now, done, bits)
      ensures Placed(now, bits + 1) && |now| == Pow2(bits + 1) && Total(now) == Total(done)
      ensures forall k :: FoundIn(now, bits + 1, k) == Reverse(FoundIn(done, bits, k))
    {
    }

    lemma MoveOne(now: seq<seq<BucketRec<K, V>>>, done: seq<seq<BucketRec<K, V>>>, bits: nat, c: nat,
                  it: BucketRec<K, V>)
      requires Moving(now, done, bits) && hash(it.key, bits) == c
      ensures var h := hash(it.key, bits + 1);
              h < |now| && c < |done| && Moving(now[h := [it] + now[h]], done[c := done[c] + [it]], bits)
    {
      hide Placed, Having, Total, FoundIn, Reverse, Pow2;
      var h := hash(it.key, bits + 1);
      WithFront(now, bits + 1, h, it);
      WithBack(done, bits, c, it);
      ReverseMore(FoundIn(done, bits, it.key), it);
      PlacedSize(now[h := [it] + now[h]], bits + 1);
      PlacedSize(done[c := done[c] + [it]], bits);
    }

    lemma PlacedSize(lists: seq<seq<BucketRec<K, V>>>, bits: nat)
      requires Placed(lists, bits)
      ensures |lists| == Pow2(bits)
    {
    }

    /** The new buckets hold the same elements as the emptied part of the old ones, those of one key
        the other way round. */
    ghost predicate Moving(now: seq<seq<BucketRec<K, V>>>, done: seq<seq<BucketRec<K, V>>>, bits: nat) {
      && Hashes() && Placed(now, bits + 1) && Placed(done, bits) && |now| == Pow2(bits + 1) && |done| == Pow2(bits)
      && Total(now) == Total(done)
      && forall k :: FoundIn(now, bits + 1, k) == Reverse(FoundIn(done, bits, k))
    }
  }

  /** A key registered twice in a new table: its newer element is found until 255 other elements make
      the table grow, and then the older one. */
  method OlderComesBack<K(==,!new), V>(h: (K, nat) -> nat, z: V, k: K, j: K)
    returns (table: HashTable<K, V>, older: BucketRec?<K, V>, newer: BucketRec?<K, V>, before: BucketRec?<K, V>,
             after: BucketRec?<K, V>)
    requires j != k && forall x, bits :: h(x, bits) < Pow2(bits)
    ensures fresh(table) && table.Valid() && older != null && newer != null && older != newer
    ensures before == newer && after == older
  {
    hide Having, Total, Reverse, Pow2;
    Sizes();
    table := new HashTable(h, z);
    older := table.HtAdd(k, true, true);
    newer := table.HtAdd(k, true, true);
    for n := 2 to 256
      invariant fresh(table) && fresh(table.buckets) && table.Valid() && table.elements == n &&
                table.bucketBits == INIT_HASH_SIZE
      invariant table.Found(k) == [newer, older]
    {
      var e := table.HtAdd(j, true, true);
    }
    before := table.HtFind(k);
    var e;
    e, after := table.AddThenFind(j, true, true, k);
  }

  lemma Sizes()
    ensures Pow2(6) == 64 && INIT_HASH_SIZE == 6 < MAX_HASH_SIZE == 11 && 4 * Pow2(6) == 256
  {
  }
}
