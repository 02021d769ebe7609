/**
 Cells with shared channels, as AllocColorPlanes sets them up (dix/colormap.c, AllocShared).
 */
module SharedPlanes {
  import opened Bits
  import opened PlaneMasks
  import opened Cells
  import opened Accounts
  import opened Common
  import opened Stores

  /** The plane counts of the three channels. */
  datatype Counts = Counts(r: nat, g: nat, b: nat) {
    function Of(ch: Channel): nat {
      match ch case Red => r case Green => g case Blue => b
    }

    function Total(): nat { r + g + b }

    /** How many cells share a colour of the channel: one for each combination of the other planes. */
    function Sharers(ch: Channel): nat {
      Pow2(Total() - Of(ch))
    }

    /** The reference count AllocShared writes; a channel without planes uses the red channel's. */
    function Written(ch: Channel): int {
      Short(Pow2(if Of(ch) != 0 then Total() - Of(ch) else g + b))
    }

    /** Every channel's count is written as it should be. */
    predicate Right() {
      Written(Red) == Sharers(Red) && Written(Green) == Sharers(Green) && Written(Blue) == Sharers(Blue)
    }
  }

  /** The masks of the three channels. */
  datatype Masks = Masks(r: nat, g: nat, b: nat) {
    function Of(ch: Channel): nat {
      match ch case Red => r case Green => g case Blue => b
    }

    function Total(): nat { r + g + b }

    function Others(ch: Channel): nat { Total() - Of(ch) }

    ghost predicate Apart() { Disjoint(r, g) && Disjoint(r + g, b) }

    /** The red planes are the lowest ones, and the green planes the lowest ones above them. */
    ghost predicate InOrder() {
      exists j: nat, k: nat :: r == Total() % Pow2(j) && r + g == Total() % Pow2(k)
    }

    /** Each mask consists of as many consecutive planes, the three one after the other. */
    ghost predicate InARow(n: Counts) {
      exists k: nat :: r == Contig(n.r, k) && g == Contig(n.g, k + n.r) && b == Contig(n.b, k + n.r + n.g)
    }
  }

  /** A value stored in a C short. */
  function Short(n: nat): int {
    var w := n % 0x1_0000; if w >= 0x8000 then w - 0x1_0000 else w
  }

  function WithId(e: Entry, ch: Channel, id: nat): Entry {
    match ch
    case Red => e.(fShared := true, shco := e.shco.(red := id))
    case Green => e.(shco := e.shco.(green := id))
    case Blue => e.(shco := e.shco.(blue := id))
  }

  /** The written counts are right for every channel exactly when there are no red planes, or green
      and blue planes as well, and no count overflows a short. */
  lemma WrittenIsRight(n: Counts)
    requires n.Total() <= MAX_PLANES
    ensures n.Right() <==>
            (n.r == 0 || (n.g > 0 && n.b > 0)) && n.g + n.b <= 14 && n.r + n.b <= 14 && n.r + n.g <= 14
  {
    hide Counts.Written, Counts.Sharers;
    ChannelIsRight(n, Red);
    ChannelIsRight(n, Green);
    ChannelIsRight(n, Blue);
  }

  lemma ChannelIsRight(n: Counts, ch: Channel)
    requires n.Total() <= MAX_PLANES
    ensures n.Written(ch) == n.Sharers(ch) <==> (n.Of(ch) > 0 || ch == Red || n.r == 0) && n.Total() - n.Of(ch) <= 14
  {
    hide Short, Pow2;
    WrittenShort(if n.Of(ch) != 0 then n.Total() - n.Of(ch) else n.g + n.b, n.Total() - n.Of(ch));
  }

  lemma WrittenShort(w: nat, k: nat)
    requires w <= k <= 16
    ensures Short(Pow2(w)) == Pow2(k) <==> w == k && k <= 14
  {
    ShortExact(w);
    Pow2Increases(w, k);
  }

  lemma ShortExact(k: nat)
    requires k <= 16
    ensures Short(Pow2(k)) == Pow2(k) <==> k <= 14
    ensures k > 14 ==> Short(Pow2(k)) <= 0
    ensures k <= 14 ==> Pow2(k) < 0x8000
  {
    Pow2Values();
    assert Pow2(14) == 0x4000;
    Pow2Increases(k, 14);
  }

  // ---------------------------------------------------------------- which cells share a colour

  /** A shared colour is for one channel, one base pixel and one combination of the channel's planes. */
  datatype Key = Key(ch: Channel, base: nat, bits: nat)

  function KeyOf(x: nat, ch: Channel, ms: Masks): Key {
    Key(ch, AndNot(x, ms.Total()), And(x, ms.Of(ch)))
  }

  lemma {:induction false} AndUnion(x: nat, a: nat, b: nat)
    requires Disjoint(a, b)
    ensures And(x, a + b) == And(x, a) + And(x, b)
    decreases x
  {
    AndZero(b);
    if x != 0 {
      if a != 0 {
        assert Disjoint(a / 2, b / 2) && (a + b) / 2 == a / 2 + b / 2;
        AndUnion(x / 2, a / 2, b / 2);
      } else {
        AndUnion(x / 2, 0, b / 2);
        AndZero(x / 2);
      }
    }
  }

  lemma {:induction false} PopUnion(a: nat, b: nat)
    requires Disjoint(a, b)
    ensures PopCount(a + b) == PopCount(a) + PopCount(b)
  {
    if a != 0 {
      assert Disjoint(a / 2, b / 2) && (a + b) / 2 == a / 2 + b / 2;
      PopUnion(a / 2, b / 2);
    }
  }

  lemma {:induction false} AndSplits(x: nat, m: nat)
    ensures And(x, m) + AndNot(x, m) == x
    ensures Disjoint(AndNot(x, m), m) && Sub(And(x, m), m)
  {
    if x != 0 { AndSplits(x / 2, m / 2); }
  }

  lemma Symmetric(a: nat, b: nat)
    ensures Disjoint(a, b) == Disjoint(b, a)
  {
    AndBounds(a, b);
  }

  lemma ChannelsApart(ms: Masks, ch: Channel)
    requires ms.Apart()
    ensures Disjoint(ms.Of(ch), ms.Others(ch)) && ms.Of(ch) + ms.Others(ch) == ms.Total()
    ensures PopCount(ms.Others(ch)) == PopCount(ms.r) + PopCount(ms.g) + PopCount(ms.b) - PopCount(ms.Of(ch))
    ensures PopCount(ms.Total()) == PopCount(ms.r) + PopCount(ms.g) + PopCount(ms.b)
  {
    hide And, PopCount;
    AndUnion(ms.b, ms.r, ms.g);
    Symmetric(ms.r, ms.g); Symmetric(ms.r + ms.g, ms.b); Symmetric(ms.r, ms.b); Symmetric(ms.g, ms.b);
    AndUnion(ms.r, ms.g, ms.b); AndUnion(ms.g, ms.r, ms.b); AndUnion(ms.b, ms.r, ms.g);
    PopUnion(ms.r, ms.g); PopUnion(ms.r, ms.b); PopUnion(ms.g, ms.b); PopUnion(ms.r + ms.g, ms.b);
  }

  /** The comparison AllocShared makes for a base pixel and some bits picks exactly the cells of
      that base pixel with those bits of the channel. */
  lemma MatchIsKey(x: nat, ch: Channel, ms: Masks, p: nat, bits: nat)
    requires ms.Apart() && Disjoint(p, ms.Total()) && Sub(bits, ms.Of(ch))
    ensures AndNot(x, ms.Others(ch)) == Or(AndNot(p, ms.Others(ch)), bits) <==> KeyOf(x, ch, ms) == Key(ch, p, bits)
    ensures KeyOf(p + bits, ch, ms) == Key(ch, p, bits)
  {
    hide And, AndNot, PopCount;
    var own, rest := ms.Of(ch), ms.Others(ch);
    ChannelsApart(ms, ch);
    AndUnion(p, own, rest);
    AndSplits(p, rest);
    OrDisjoint(p, bits, own);
    AndSplits(x, rest); AndSplits(x, own + rest); AndSplits(x, own);
    AndUnion(x, own, rest);
    var q := AndNot(x, own + rest);
    AndUnion(q, own, rest);
    Parts(q, And(x, own), own);
    Parts(p, bits, own);
    BitsStay(p, bits, own, rest);
  }

  lemma BitsStay(p: nat, bits: nat, own: nat, rest: nat)
    requires Disjoint(own, rest) && Disjoint(p, own + rest) && Sub(bits, own)
    ensures And(p + bits, own + rest) == bits && AndNot(p + bits, own + rest) == p && And(p + bits, own) == bits
  {
    hide And, AndNot;
    AndUnion(p, own, rest);
    SubWider(bits, own, rest);
    Parts(p, bits, own + rest);
    Parts(p, bits, own);
    AndSplits(p + bits, own + rest);
  }

  lemma SubWider(bits: nat, own: nat, rest: nat)
    requires Disjoint(own, rest) && Sub(bits, own)
    ensures Sub(bits, own + rest) && Disjoint(bits, rest)
  {
    hide AndNot;
    AndUnion(bits, own, rest);
    AndBounds(bits, own + rest);
  }

  /** The listed pixels with a given key. */
  ghost function Having(xs: seq<nat>, key: Key, ms: Masks): seq<nat> {
    if xs == [] then []
    else Having(xs[..|xs| - 1], key, ms) + if KeyOf(xs[|xs| - 1], key.ch, ms) == key then [xs[|xs| - 1]] else []
  }

  lemma {:induction false} HavingAre(xs: seq<nat>, key: Key, ms: Masks)
    ensures forall x: nat :: x in Having(xs, key, ms) <==> x in xs && KeyOf(x, key.ch, ms) == key
    ensures NoRepeats(xs) ==> NoRepeats(Having(xs, key, ms))
  {
    if xs != [] {
      hide KeyOf;
      var n := |xs| - 1;
      HavingAre(xs[..n], key, ms);
      assert xs == xs[..n] + [xs[n]];
      if NoRepeats(xs) {
        assert xs[n] !in xs[..n];
        NoRepeatsConcat(Having(xs[..n], key, ms), if KeyOf(xs[n], key.ch, ms) == key then [xs[n]] else []);
      }
    }
  }

  /** All combinations of the other channels' planes. */
  ghost function Combinations(p: nat, bits: nat, rest: nat): seq<nat> {
    seq(Pow2(PopCount(rest)), i requires 0 <= i => p + bits + Submask(i, rest))
  }

  /** One colour is shared by exactly one cell for each combination of the other channels' planes. */
  lemma SharersCounted(bases: seq<nat>, all: seq<nat>, ch: Channel, ms: Masks, p: nat, bits: nat)
    requires ms.Apart() && p in bases && Sub(bits, ms.Of(ch)) && NoRepeats(all)
    requires forall q: nat :: q in bases ==> Disjoint(q, ms.Total())
    requires forall x: nat :: x in all <==> exists q: nat :: q in bases && InBlock(q, ms.Total(), x)
    ensures |Having(all, Key(ch, p, bits), ms)| == Pow2(PopCount(ms.Others(ch)))
  {
    hide And, AndNot, PopCount, Submask, Rank, Having, InBlock, KeyOf;
    var key, rest := Key(ch, p, bits), ms.Others(ch);
    var cs := Combinations(p, bits, rest);
    HavingAre(all, key, ms);
    forall i, j | 0 <= i < j < |cs| ensures cs[i] != cs[j] { SubmaskIncreases(i, j, rest); }
    forall x: nat ensures x in Having(all, key, ms) <==> x in cs {
      if x in cs {
        var i :| 0 <= i < |cs| && cs[i] == x;
        SubmaskRank(i, rest);
        CombinationHasKey(ch, ms, p, bits, Submask(i, rest));
        assert x in all;
      }
      if x in all && KeyOf(x, ch, ms) == key {
        var q: nat :| q in bases && InBlock(q, ms.Total(), x);
        KeyedIsCombination(x, ch, ms, p, bits);
        var t := x - p - bits;
        RankSubmask(t, rest);
        assert cs[Rank(t, rest)] == x;
      }
    }
    SameLength(Having(all, key, ms), cs);
  }

  lemma CombinationHasKey(ch: Channel, ms: Masks, p: nat, bits: nat, t: nat)
    requires ms.Apart() && Disjoint(p, ms.Total()) && Sub(bits, ms.Of(ch)) && Sub(t, ms.Others(ch))
    ensures KeyOf(p + bits + t, ch, ms) == Key(ch, p, bits)
    ensures InBlock(p, ms.Total(), p + bits + t)
  {
    hide And, AndNot, PopCount;
    var own, rest, x := ms.Of(ch), ms.Others(ch), p + bits + t;
    ChannelsApart(ms, ch);
    Symmetric(own, rest);
    SubWider(bits, own, rest); SubWider(t, rest, own);
    assert rest + own == own + rest;
    SumOfSubs(bits, t, own, rest);
    Parts(p, bits + t, own + rest);
    AndSplits(x, own + rest);
    AndUnion(p, own, rest);
    var y := p + t;
    PartsApart(p, t, own, rest);
    Parts(y, bits, own);
  }

  lemma PartsApart(p: nat, t: nat, own: nat, rest: nat)
    requires Disjoint(own, rest) && Disjoint(p, own + rest) && Sub(t, rest)
    ensures Disjoint(p + t, own)
  {
    hide And, AndNot;
    Symmetric(own, rest);
    AndUnion(p, own, rest);
    AndUnion(p + t, own, rest);
    SubWider(t, rest, own);
    Parts(p, t, own + rest) by { assert own + rest == rest + own; }
    Parts(p, t, rest);
  }

  lemma SumOfSubs(a: nat, t: nat, own: nat, rest: nat)
    requires Disjoint(own, rest) && Sub(a, own) && Sub(t, rest)
    ensures Sub(a + t, own + rest)
  {
    hide And, AndNot;
    Symmetric(own, rest);
    SubWider(a, own, rest); SubWider(t, rest, own);
    AndUnion(a + t, own, rest);
    Parts(t, a, own);
    Parts(a, t, rest);
  }

  lemma KeyedIsCombination(x: nat, ch: Channel, ms: Masks, p: nat, bits: nat)
    requires ms.Apart() && Disjoint(p, ms.Total()) && KeyOf(x, ch, ms) == Key(ch, p, bits)
    ensures x >= p + bits && Sub(x - p - bits, ms.Others(ch))
  {
    hide And, AndNot, PopCount;
    ChannelsApart(ms, ch);
    AndSplits(x, ms.Total());
    AndUnion(x, ms.Of(ch), ms.Others(ch));
    AndSplits(x, ms.Others(ch));
  }

  // ---------------------------------------------------------------- the cells and the pool afterwards

  type Ids = map<Key, nat>

  ghost predicate Keyed(xs: seq<nat>, ids: Ids, ms: Masks) {
    forall x :: x in xs ==> KeyOf(x, Red, ms) in ids && KeyOf(x, Green, ms) in ids && KeyOf(x, Blue, ms) in ids
  }

  ghost function SharedEntry(e: Entry, x: nat, ids: Ids, ms: Masks): Entry
    requires Keyed([x], ids, ms)
  {
    assert x in [x];
    e.(fShared := true, shco := SharedIds(ids[KeyOf(x, Red, ms)], ids[KeyOf(x, Green, ms)], ids[KeyOf(x, Blue, ms)]))
  }

  lemma KeyedAt(xs: seq<nat>, ids: Ids, ms: Masks, x: nat)
    requires Keyed(xs, ids, ms) && x in xs
    ensures Keyed([x], ids, ms)
  {
  }

  /** The cells with some of them pointing at the shared colours of their keys. */
  ghost function WithShared(cells: seq<Entry>, xs: seq<nat>, ids: Ids, ms: Masks): seq<Entry>
    requires Keyed(xs, ids, ms)
  {
    seq(|cells|, i requires 0 <= i < |cells| =>
      if i in xs then KeyedAt(xs, ids, ms, i); SharedEntry(cells[i], i, ids, ms) else cells[i])
  }

  ghost function IdsOf(xs: seq<nat>, ch: Channel, ids: Ids, ms: Masks): multiset<nat>
    requires Keyed(xs, ids, ms)
  {
    if xs == [] then multiset{}
    else
      var n := |xs| - 1;
      assert xs[n] in xs && forall x :: x in xs[..n] ==> x in xs;
      var key := KeyOf(xs[n], ch, ms);
      IdsOf(xs[..n], ch, ids, ms) + multiset{ids[key]}
  }

  lemma {:induction false} WithSharedRefs(cells: seq<Entry>, xs: seq<nat>, ids: Ids, ms: Masks)
    requires Keyed(xs, ids, ms) && NoRepeats(xs)
    requires forall x :: x in xs ==> x < |cells| && !cells[x].fShared
    ensures Refs(WithShared(cells, xs, ids, ms)) ==
            Refs(cells) + (IdsOf(xs, Red, ids, ms) + IdsOf(xs, Green, ids, ms) + IdsOf(xs, Blue, ids, ms))
  {
    hide *;
    if xs == [] {
      WithSharedNone(cells, ids, ms);
    } else {
      var n := |xs| - 1;
      var ys, x := xs[..n], xs[n];
      assert xs == ys + [x] && x in xs && forall y :: y in ys ==> y in xs;
      LastApart(xs);
      KeyedAt(xs, ids, ms, x);
      KeyedFewer(xs, ys, ids, ms);
      WithSharedRefs(cells, ys, ids, ms);
      WithSharedOne(cells, xs, ids, ms);
      RefsUpdate(WithShared(cells, ys, ids, ms), x, SharedEntry(cells[x], x, ids, ms));
      AddThree(Refs(cells), IdsOf(ys, Red, ids, ms), IdsOf(ys, Green, ids, ms), IdsOf(ys, Blue, ids, ms),
               RefsOf(SharedEntry(cells[x], x, ids, ms)),
               IdsOf(xs, Red, ids, ms), IdsOf(xs, Green, ids, ms), IdsOf(xs, Blue, ids, ms));
    }
  }

  lemma WithSharedNone(cells: seq<Entry>, ids: Ids, ms: Masks)
    ensures WithShared(cells, [], ids, ms) == cells
    ensures IdsOf([], Red, ids, ms) + IdsOf([], Green, ids, ms) + IdsOf([], Blue, ids, ms) == multiset{}
  {
  }

  lemma LastApart(xs: seq<nat>)
    requires xs != [] && NoRepeats(xs)
    ensures xs[|xs| - 1] !in xs[..|xs| - 1] && NoRepeats(xs[..|xs| - 1])
  {
  }

  lemma KeyedFewer(xs: seq<nat>, ys: seq<nat>, ids: Ids, ms: Masks)
    requires Keyed(xs, ids, ms) && forall y :: y in ys ==> y in xs
    ensures Keyed(ys, ids, ms)
  {
  }

  lemma WithSharedOne(cells: seq<Entry>, xs: seq<nat>, ids: Ids, ms: Masks)
    requires xs != [] && Keyed(xs, ids, ms) && Keyed(xs[..|xs| - 1], ids, ms)
    requires var x := xs[|xs| - 1]; x < |cells| && x !in xs[..|xs| - 1] && !cells[x].fShared && Keyed([x], ids, ms)
    ensures var x, ys := xs[|xs| - 1], xs[..|xs| - 1];
            var before, e := WithShared(cells, ys, ids, ms), SharedEntry(cells[x], x, ids, ms);
            && |before| == |cells| && WithShared(cells, xs, ids, ms) == before[x := e] &&
               RefsOf(before[x]) == multiset{}
            && exists i, j, k ::
                 && RefsOf(e) == multiset{i} + multiset{j} + multiset{k}
                 && IdsOf(xs, Red, ids, ms) == IdsOf(ys, Red, ids, ms) + multiset{i}
                 && IdsOf(xs, Green, ids, ms) == IdsOf(ys, Green, ids, ms) + multiset{j}
                 && IdsOf(xs, Blue, ids, ms) == IdsOf(ys, Blue, ids, ms) + multiset{k}
  {
    hide KeyOf, WithShared, IdsOf, Keyed;
    var x, ys := xs[|xs| - 1], xs[..|xs| - 1];
    var e := SharedEntry(cells[x], x, ids, ms);
    WithSharedAt(cells, xs, ids, ms);
    assert RefsOf(e) == multiset{e.shco.red} + multiset{e.shco.green} + multiset{e.shco.blue};
    IdsOfLast(xs, Red, ids, ms); IdsOfLast(xs, Green, ids, ms); IdsOfLast(xs, Blue, ids, ms);
  }

  lemma WithSharedAt(cells: seq<Entry>, xs: seq<nat>, ids: Ids, ms: Masks)
    requires xs != [] && Keyed(xs, ids, ms) && Keyed(xs[..|xs| - 1], ids, ms)
    requires var x := xs[|xs| - 1]; x < |cells| && x !in xs[..|xs| - 1] && !cells[x].fShared && Keyed([x], ids, ms)
    ensures var x, ys := xs[|xs| - 1], xs[..|xs| - 1];
            var before, e := WithShared(cells, ys, ids, ms), SharedEntry(cells[x], x, ids, ms);
            |before| == |cells| && WithShared(cells, xs, ids, ms) == before[x := e] && before[x] == cells[x]
  {
    hide KeyOf;
    assert xs == xs[..|xs| - 1] + [xs[|xs| - 1]];
  }

  lemma IdsOfLast(xs: seq<nat>, ch: Channel, ids: Ids, ms: Masks)
    requires xs != [] && Keyed(xs, ids, ms) && Keyed(xs[..|xs| - 1], ids, ms) && Keyed([xs[|xs| - 1]], ids, ms)
    ensures var x := xs[|xs| - 1];
            var e := SharedEntry(Entry(0, false, RGB(0, 0, 0), SharedIds(0, 0, 0)), x, ids, ms);
            IdsOf(xs, ch, ids, ms) == IdsOf(xs[..|xs| - 1], ch, ids, ms) + multiset{IdOf(e, ch)}
  {
    hide KeyOf;
  }

  lemma AddThree(a: multiset<nat>, r: multiset<nat>, g: multiset<nat>, b: multiset<nat>, e: multiset<nat>,
                 r': multiset<nat>, g': multiset<nat>, b': multiset<nat>)
    requires exists i, j, k :: e == multiset{i} + multiset{j} + multiset{k} &&
               r' == r + multiset{i} && g' == g + multiset{j} && b' == b + multiset{k}
    ensures (a + (r + g + b)) - multiset{} + e == a + (r' + g' + b')
  {
  }

  ghost predicate Injective(ids: Ids) {
    forall k, l :: k in ids && l in ids && ids[k] == ids[l] ==> k == l
  }

  /** A colour is pointed at by the cells that have its key, and by no others. */
  lemma {:induction false} IdsCounted(xs: seq<nat>, ch: Channel, ids: Ids, ms: Masks, key: Key)
    requires Keyed(xs, ids, ms) && Injective(ids) && key in ids
    ensures IdsOf(xs, ch, ids, ms)[ids[key]] == if key.ch == ch then |Having(xs, key, ms)| else 0
  {
    if xs != [] {
      var n := |xs| - 1;
      assert xs[n] in xs && forall x :: x in xs[..n] ==> x in xs;
      IdsCounted(xs[..n], ch, ids, ms, key);
      var k := KeyOf(xs[n], ch, ms);
      assert k in ids && k.ch == ch && (ids[k] == ids[key] <==> k == key);
      hide KeyOf, Keyed, Injective;
      assert IdsOf(xs, ch, ids, ms) == IdsOf(xs[..n], ch, ids, ms) + multiset{ids[k]};
    }
  }

  lemma {:induction false} IdsAreIds(xs: seq<nat>, ch: Channel, ids: Ids, ms: Masks, id: nat)
    requires Keyed(xs, ids, ms) && id !in ids.Values
    ensures IdsOf(xs, ch, ids, ms)[id] == 0
  {
    if xs != [] {
      var n := |xs| - 1;
      assert xs[n] in xs && forall x :: x in xs[..n] ==> x in xs;
      IdsAreIds(xs[..n], ch, ids, ms, id);
      assert KeyOf(xs[n], ch, ms) in ids;
    }
  }

  /** The pool with a new colour for every key. */
  ghost predicate PoolWith(before: Pool, after: Pool, ids: Ids, n: Counts) {
    && Injective(ids)
    && (forall k :: k in ids ==>
        ids[k] !in before && ids[k] in after && after[ids[k]] == SharedColor(0, n.Written(k.ch)))
    && (forall id :: id in before ==> id in after && after[id] == before[id])
    && (forall id :: id in after ==> id in before || id in ids.Values)
  }

  /** The keys of an allocation: every base pixel with every combination of each channel's planes. */
  ghost predicate KeysOf(ids: Ids, bases: seq<nat>, ms: Masks) {
    forall k :: k in ids <==> k.base in bases && Sub(k.bits, ms.Of(k.ch))
  }

  lemma BlocksKeyed(bases: seq<nat>, all: seq<nat>, ids: Ids, ms: Masks)
    requires KeysOf(ids, bases, ms) && ms.Apart()
    requires forall q: nat :: q in bases ==> Disjoint(q, ms.Total())
    requires forall x: nat :: x in all <==> exists q: nat :: q in bases && InBlock(q, ms.Total(), x)
    ensures Keyed(all, ids, ms)
  {
    hide And, AndNot;
    forall x, ch: Channel | x in all ensures KeyOf(x, ch, ms) in ids {
      var q: nat :| q in bases && InBlock(q, ms.Total(), x);
      Parts(q, x - q, ms.Total());
      AndSplits(x, ms.Total());
      AndSplits(x, ms.Of(ch));
    }
  }

  /** After AllocShared every shared colour counts its pointers, exactly when the counts the channels
      were given are right. */
  lemma SharingKeepsPool(cells: seq<Entry>, bases: seq<nat>, all: seq<nat>, ids: Ids, ms: Masks, n: Counts,
                         before: Pool, after: Pool, others: multiset<nat>)
    requires ms.Apart() && PopCount(ms.r) == n.r && PopCount(ms.g) == n.g && PopCount(ms.b) == n.b
    requires bases != [] && NoRepeats(all) && forall x :: x in all ==> x < |cells| && !cells[x].fShared
    requires forall q: nat :: q in bases ==> Disjoint(q, ms.Total())
    requires forall x: nat :: x in all <==> exists q: nat :: q in bases && InBlock(q, ms.Total(), x)
    requires KeysOf(ids, bases, ms) && Keyed(all, ids, ms) && PoolWith(before, after, ids, n)
    requires PoolOk(before, Refs(cells) + others)
    ensures PoolOk(after, Refs(WithShared(cells, all, ids, ms)) + others) <==> n.Right()
  {
    hide And, PopCount, Refs, WithShared, KeyOf, Having, InBlock, Keyed, IdsOf;
    WithSharedRefs(cells, all, ids, ms);
    var refs := Refs(WithShared(cells, all, ids, ms)) + others;
    forall k | k in ids
      ensures refs[ids[k]] == n.Sharers(k.ch)
    {
      KeyCount(bases, all, ids, ms, n, k);
      assert ids[k] !in Refs(cells) + others;
    }
    forall id | id !in ids.Values
      ensures refs[id] == (Refs(cells) + others)[id]
    {
      IdsAreIds(all, Red, ids, ms, id); IdsAreIds(all, Green, ids, ms, id); IdsAreIds(all, Blue, ids, ms, id);
    }
    if !n.Right() {
      var ch := if n.Written(Red) != n.Sharers(Red) then Red else if n.Written(Green) != n.Sharers(Green) then Green
        else Blue;
      ZeroSub(ms.Of(ch));
      var k := Key(ch, bases[0], 0);
      assert k in ids;
      assert after[ids[k]].refcnt != refs[ids[k]];
    } else {
      RightPool(after, refs, before, Refs(cells) + others, ids, n);
    }
  }

  lemma ZeroSub(m: nat)
    ensures Sub(0, m)
  {
  }

  lemma RightPool(after: Pool, refs: multiset<nat>, before: Pool, refs0: multiset<nat>, ids: Ids, n: Counts)
    requires PoolWith(before, after, ids, n) && PoolOk(before, refs0) && n.Right()
    requires forall k :: k in ids ==> refs[ids[k]] == n.Sharers(k.ch)
    requires forall id :: id !in ids.Values ==> refs[id] == refs0[id]
    ensures PoolOk(after, refs)
  {
    forall id ensures id in after <==> id in refs
              ensures id in after ==> after[id].refcnt == refs[id]
    {
      if id in ids.Values {
        var k :| k in ids && ids[k] == id;
        assert k.ch == Red || k.ch == Green || k.ch == Blue;
      } else {
        assert id in refs <==> id in refs0;
      }
    }
  }

  lemma KeyCount(bases: seq<nat>, all: seq<nat>, ids: Ids, ms: Masks, n: Counts, k: Key)
    requires ms.Apart() && PopCount(ms.r) == n.r && PopCount(ms.g) == n.g && PopCount(ms.b) == n.b
    requires NoRepeats(all) && forall q: nat :: q in bases ==> Disjoint(q, ms.Total())
    requires forall x: nat :: x in all <==> exists q: nat :: q in bases && InBlock(q, ms.Total(), x)
    requires KeysOf(ids, bases, ms) && Keyed(all, ids, ms) && Injective(ids) && k in ids
    ensures IdsOf(all, Red, ids, ms)[ids[k]] + IdsOf(all, Green, ids, ms)[ids[k]] + IdsOf(all, Blue, ids, ms)[ids[k]] ==
            n.Sharers(k.ch)
  {
    hide And, PopCount, KeyOf, Having, InBlock, Keyed, IdsOf;
    SharersCounted(bases, all, k.ch, ms, k.base, k.bits);
    ChannelsApart(ms, k.ch);
    IdsCounted(all, Red, ids, ms, k); IdsCounted(all, Green, ids, ms, k); IdsCounted(all, Blue, ids, ms, k);
  }

  // ---------------------------------------------------------------- while the colours are handed out

  /** The cells while only some keys have their colour: those keys' channels point at it. */
  ghost predicate Sharing(before: seq<Entry>, cells: seq<Entry>, all: seq<nat>, ids: Ids, ms: Masks) {
    && |cells| == |before|
    && forall x :: 0 <= x < |cells| ==>
       if x in all then SharingCell(before[x], cells[x], x, ids, ms) else cells[x] == before[x]
  }

  ghost predicate SharingCell(b: Entry, e: Entry, x: nat, ids: Ids, ms: Masks) {
    && e.refcnt == b.refcnt && e.local == b.local
    && (KeyOf(x, Red, ms) in ids ==> e.fShared && e.shco.red == ids[KeyOf(x, Red, ms)])
    && (KeyOf(x, Green, ms) in ids ==> e.shco.green == ids[KeyOf(x, Green, ms)])
    && (KeyOf(x, Blue, ms) in ids ==> e.shco.blue == ids[KeyOf(x, Blue, ms)])
  }

  lemma SharingNone(cells: seq<Entry>, all: seq<nat>, ms: Masks)
    ensures Sharing(cells, cells, all, map[], ms)
  {
  }

  lemma SharingDone(before: seq<Entry>, cells: seq<Entry>, all: seq<nat>, ids: Ids, ms: Masks)
    requires Sharing(before, cells, all, ids, ms) && Keyed(all, ids, ms)
    ensures cells == WithShared(before, all, ids, ms)
  {
    hide KeyOf;
  }

  /** The cells with one channel set on those listed cells that pass AllocShared's comparison. */
  ghost predicate Coloured(before: seq<Entry>, after: seq<Entry>, all: seq<nat>, ch: Channel, rest: nat, value: nat,
                           id: nat)
  {
    && |after| == |before|
    && forall x :: 0 <= x < |after| ==>
         after[x] == if x in all && AndNot(x, rest) == value then WithId(before[x], ch, id) else before[x]
  }

  lemma SharingStep(before: seq<Entry>, cells: seq<Entry>, after: seq<Entry>, all: seq<nat>, ids: Ids, ms: Masks,
                    ch: Channel, p: nat, bits: nat, id: nat)
    requires Sharing(before, cells, all, ids, ms) && ms.Apart()
    requires Disjoint(p, ms.Total()) && Sub(bits, ms.Of(ch)) && Key(ch, p, bits) !in ids
    requires Coloured(cells, after, all, ch, ms.Others(ch), Or(AndNot(p, ms.Others(ch)), bits), id)
    ensures Sharing(before, after, all, ids[Key(ch, p, bits) := id], ms)
  {
    hide And, AndNot, Or;
    forall x | 0 <= x < |after| && x in all
      ensures SharingCell(before[x], after[x], x, ids[Key(ch, p, bits) := id], ms)
    {
      MatchIsKey(x, ch, ms, p, bits);
    }
  }

  lemma PoolStep(before: Pool, pool: Pool, ids: Ids, n: Counts, key: Key, id: nat)
    requires PoolWith(before, pool, ids, n) && id !in pool && key !in ids
    ensures PoolWith(before, pool[id := SharedColor(0, n.Written(key.ch))], ids[key := id], n)
  {
    hide Counts.Written;
    var ids' := ids[key := id];
    assert forall k :: k in ids' ==> k == key || k in ids;
    forall i | i in pool[id := SharedColor(0, n.Written(key.ch))] ensures i in before || i in ids'.Values {
      if i == id { assert ids'[key] == id; } else if i !in before {
        var k :| k in ids && ids[k] == i;
        assert ids'[k] == i;
      }
    }
  }

  /** The keys of one channel of one base pixel, up to a rank. */
  ghost predicate ChannelKeys(ids: Ids, ids': Ids, ch: Channel, p: nat, own: nat, i: nat) {
    && (forall k :: k in ids' <==> k in ids || (k.ch == ch && k.base == p && Sub(k.bits, own) && Rank(k.bits, own) < i))
    && (forall k :: k in ids ==> ids'[k] == ids[k])
  }

  lemma ChannelKeysStep(ids: Ids, ids': Ids, ch: Channel, p: nat, own: nat, i: nat, id: nat)
    requires ChannelKeys(ids, ids', ch, p, own, i) && i < Pow2(PopCount(own))
    requires forall k :: k in ids ==> k.ch != ch || k.base != p
    ensures var key := Key(ch, p, Submask(i, own));
            key !in ids' && ChannelKeys(ids, ids'[key := id], ch, p, own, i + 1)
  {
    SubmaskRank(i, own);
    forall bits | Sub(bits, own) && Rank(bits, own) == i ensures bits == Submask(i, own) { RankSubmask(bits, own); }
  }

  lemma FreshId(pool: Pool)
    ensures exists id: nat :: id !in pool
  {
    var id := Above(pool.Keys);
  }

  lemma {:induction false} Above(s: set<nat>) returns (m: nat)
    ensures forall x :: x in s ==> x < m
    ensures m !in s
  {
    if s == {} {
      m := 0;
    } else {
      var y :| y in s;
      m := Above(s - {y});
      assert forall x :: x in s ==> x == y || x in s - {y};
      if y >= m { m := y + 1; }
    }
  }

  lemma NoChannelKeys(ids: Ids, ch: Channel, p: nat, own: nat)
    ensures ChannelKeys(ids, ids, ch, p, own, 0)
    ensures 0 < Pow2(PopCount(own)) && Submask(0, own) == 0
  {
    RankZero(own);
  }

  lemma NoKeys(ms: Masks, pool: Pool, n: Counts)
    ensures KeysOf(map[], [], ms) && PoolWith(pool, pool, map[], n)
  {
  }

  lemma NewBase(ids: Ids, bases: seq<nat>, m: nat, ms: Masks)
    requires m < |bases| && NoRepeats(bases) && KeysOf(ids, bases[..m], ms)
    ensures forall k :: k in ids ==> k.base != bases[m]
  {
    assert bases[m] !in bases[..m];
  }

  /** Handing out one channel's colours leaves the other channels of the base pixel to do. */
  lemma OtherChannel(ids: Ids, ids': Ids, ch: Channel, p: nat, ms: Masks)
    requires ChannelKeys(ids, ids', ch, p, ms.Of(ch), Pow2(PopCount(ms.Of(ch))))
    ensures forall k :: k in ids' ==> k in ids || k.ch == ch
  {
  }

  lemma AllChannels(ids0: Ids, ids1: Ids, ids2: Ids, ids3: Ids, bases: seq<nat>, m: nat, ms: Masks)
    requires m < |bases| && KeysOf(ids0, bases[..m], ms)
    requires ChannelKeys(ids0, ids1, Red, bases[m], ms.Of(Red), Pow2(PopCount(ms.Of(Red))))
    requires ChannelKeys(ids1, ids2, Green, bases[m], ms.Of(Green), Pow2(PopCount(ms.Of(Green))))
    requires ChannelKeys(ids2, ids3, Blue, bases[m], ms.Of(Blue), Pow2(PopCount(ms.Of(Blue))))
    ensures KeysOf(ids3, bases[..m + 1], ms)
  {
    hide Sub, Rank;
    assert bases[..m + 1] == bases[..m] + [bases[m]];
    forall k: Key
      ensures k in ids3 <==> k.base in bases[..m + 1] && Sub(k.bits, ms.Of(k.ch))
    {
      if Sub(k.bits, ms.Of(k.ch)) { RankSubmask(k.bits, ms.Of(k.ch)); }
    }
  }

  // ---------------------------------------------------------------- splitting the mask

  lemma {:induction false} BitBelow(x: nat, j: nat)
    requires x < Pow2(j)
    ensures Disjoint(x, Pow2(j)) && PopCount(Pow2(j)) == 1
  {
    if j > 0 { BitBelow(x / 2, j - 1); }
  }

  lemma HigherPlane(i: nat, j: nat)
    requires Pow2(i) < Pow2(j)
    ensures 2 * Pow2(i) <= Pow2(j)
  {
    if j <= i { Pow2Increases(j, i); }
    if i + 1 < j { Pow2Increases(i + 1, j); }
  }

  /** Planes taken from bit k up are disjoint from everything below bit k, and as many as listed. */
  lemma {:induction false} PlanesAbove(bits: seq<nat>, k: nat, x: nat)
    requires Planes(bits) && x < Pow2(k) && forall i :: 0 <= i < |bits| ==> bits[i] >= Pow2(k)
    ensures Disjoint(x, OrAll(bits)) && PopCount(OrAll(bits)) == |bits|
    ensures bits != [] ==> OrAll(bits) < 2 * bits[|bits| - 1]
  {
    if bits == [] {
      AndZero(x);
    } else {
      hide And, PopCount, Or, Pow2;
      var n := |bits| - 1;
      PlanesAbove(bits[..n], k, x);
      var j: nat :| bits[n] == Pow2(j);
      var low := OrAll(bits[..n]);
      if n > 0 {
        var i: nat :| bits[n - 1] == Pow2(i);
        assert bits[..n][n - 1] == bits[n - 1];
        HigherPlane(i, j);
      }
      hide Planes;
      OrHigh(low, j);
      BitBelow(low, j);
      BitBelow(x, j);
      AndUnion(x, low, Pow2(j));
      PopUnion(low, Pow2(j));
    }
  }

  /** The three channels' masks, split off one after the other, make up the mask. */
  lemma MaskSplit(mask: nat, rs: seq<nat>, gs: seq<nat>, bs: seq<nat>, k1: nat, k2: nat, k3: nat)
    requires Planes(rs) && Planes(gs) && Planes(bs)
    requires Taken(mask, OrAll(rs), k1) && Taken(mask, OrAll(rs) + OrAll(gs), k2)
    requires Taken(mask, OrAll(rs) + OrAll(gs) + OrAll(bs), k3) && PopCount(Shr(mask, k3)) == 0
    requires forall i :: 0 <= i < |gs| ==> gs[i] >= Pow2(k1)
    requires forall i :: 0 <= i < |bs| ==> bs[i] >= Pow2(k2)
    ensures var ms := Masks(OrAll(rs), OrAll(gs), OrAll(bs));
            && ms.Apart() && ms.Total() == mask
            && PopCount(ms.r) == |rs| && PopCount(ms.g) == |gs| && PopCount(ms.b) == |bs|
  {
    hide *;
    OneIsFirst(rs);
    PlanesAbove(rs, 0, 0);
    ChannelTaken(mask, OrAll(rs), gs, k1);
    ChannelTaken(mask, OrAll(rs) + OrAll(gs), bs, k2);
    TakenAll(mask, OrAll(rs) + OrAll(gs) + OrAll(bs), k3);
    MasksApart(Masks(OrAll(rs), OrAll(gs), OrAll(bs)));
  }

  /** The planes taken for one channel are apart from those taken before. */
  lemma ChannelTaken(mask: nat, low: nat, bits: seq<nat>, k: nat)
    requires Planes(bits) && Taken(mask, low, k) && forall i :: 0 <= i < |bits| ==> bits[i] >= Pow2(k)
    ensures Disjoint(low, OrAll(bits)) && PopCount(OrAll(bits)) == |bits|
  {
    hide *;
    LowTaken(mask, low, k);
    PlanesAbove(bits, k, low);
  }

  /** Out of a mask of consecutive planes three masks of consecutive planes are taken. */
  lemma SplitInARow(mask: nat, ms: Masks, n: Counts, k1: nat, k2: nat, k3: nat)
    requires exists k :: mask == Contig(n.Total(), k)
    requires Taken(mask, ms.r, k1) && Taken(mask, ms.r + ms.g, k2) && Taken(mask, ms.r + ms.g + ms.b, k3)
    requires PopCount(Shr(mask, k1)) == n.g + n.b && PopCount(Shr(mask, k2)) == n.b && PopCount(Shr(mask, k3)) == 0
    ensures ms.InARow(n)
  {
    hide Contig, Taken, PopCount, Shr;
    var k :| mask == Contig(n.Total(), k);
    TakenInARow(n.Total(), k, ms.r, k1);
    TakenInARow(n.Total(), k, ms.r + ms.g, k2);
    TakenInARow(n.Total(), k, ms.r + ms.g + ms.b, k3);
    ContigJoins(n.r, n.g, k);
    ContigJoins(n.r + n.g, n.b, k);
  }

  lemma SplitInOrder(mask: nat, ms: Masks, j: nat, k: nat)
    requires ms.Total() == mask && Taken(mask, ms.r, j) && Taken(mask, ms.r + ms.g, k)
    ensures ms.InOrder()
  {
    TakenIsLow(mask, ms.r, j);
    TakenIsLow(mask, ms.r + ms.g, k);
  }

  lemma TakenIsLow(mask: nat, low: nat, k: nat)
    requires Taken(mask, low, k)
    ensures low == mask % Pow2(k)
  {
    ShlIsProduct(Shr(mask, k), k);
    ModuloIs(mask, Shr(mask, k), Pow2(k), low);
  }

  lemma ModuloIs(m: nat, q: nat, p: nat, r: nat)
    requires r < p && m == r + q * p
    ensures m % p == r
  {
    var d := m / p - q;
    assert d * p == r - m % p;
    NoSmallMultiple(d, p);
  }

  lemma NoSmallMultiple(d: int, p: int)
    requires p >= 0
    ensures d == 0 || d * p >= p || d * p <= -p
  {
    if d > 0 { assert (d - 1) * p >= 0; }
    if d < 0 { assert (-d - 1) * p >= 0; }
  }

  lemma OneIsFirst(rs: seq<nat>)
    requires Planes(rs)
    ensures 0 < Pow2(0) && forall i :: 0 <= i < |rs| ==> rs[i] >= Pow2(0)
  {
  }

  lemma MasksApart(ms: Masks)
    requires Disjoint(ms.r, ms.g) && Disjoint(ms.r + ms.g, ms.b)
    ensures ms.Apart() && ms.Total() == ms.r + ms.g + ms.b
  {
  }

  lemma LowTaken(mask: nat, low: nat, k: nat)
    requires Taken(mask, low, k)
    ensures low < Pow2(k)
  {
  }

  lemma {:induction false} SameFreeCount(a: seq<Entry>, b: seq<Entry>)
    requires |a| == |b| && forall i :: 0 <= i < |a| ==> a[i].refcnt == b[i].refcnt
    ensures FreeCount(a) == FreeCount(b)
  {
    if a != [] { SameFreeCount(a[..|a| - 1], b[..|b| - 1]); }
  }

  /** Sharing channels of private cells keeps the accounts balanced. */
  lemma SharingBalances(a: Account, all: seq<nat>, ids: Ids, ms: Masks, before: Pool, after: Pool, n: Counts,
                        others: multiset<nat>)
    requires Balanced(a) && Keyed(all, ids, ms) && PoolWith(before, after, ids, n) &&
             PoolOk(before, Refs(a.cells) + others)
    requires forall x :: x in all ==> x < |a.cells| && a.cells[x].refcnt == ALLOC_PRIVATE
    ensures Balanced(a.(cells := WithShared(a.cells, all, ids, ms)))
  {
    hide KeyOf, Separate, WithShared, PoolWith, PoolOk, Refs;
    var cells := WithShared(a.cells, all, ids, ms);
    WithSharedSame(a.cells, all, ids, ms);
    SameFreeCount(a.cells, cells);
    SharingSeparates(a.cells, all, ids, ms, before, after, n, others);
    forall i | 0 <= i < |cells|
      ensures CellOk(cells[i], Owned(a.lists)[i])
    {
      assert CellOk(a.cells[i], Owned(a.lists)[i]);
    }
  }

  lemma WithSharedSame(cells: seq<Entry>, all: seq<nat>, ids: Ids, ms: Masks)
    requires Keyed(all, ids, ms)
    ensures var r := WithShared(cells, all, ids, ms);
            && |r| == |cells|
            && (forall i :: 0 <= i < |r| ==> r[i].refcnt == cells[i].refcnt)
            && (forall i :: 0 <= i < |r| && i !in all ==> r[i] == cells[i])
  {
    hide KeyOf;
  }

  /** A cell that shares: its colours are in use, and a new one's are those of its keys. */
  lemma SharedIdsAre(cells: seq<Entry>, all: seq<nat>, ids: Ids, ms: Masks, i: nat, ch: Channel)
    requires Keyed(all, ids, ms) && i < |cells|
    ensures var r := WithShared(cells, all, ids, ms);
            && |r| == |cells|
            && (i in all ==> exists k :: k in ids && k.ch == ch && IdOf(r[i], ch) == ids[k])
            && (i !in all && r[i].fShared ==>
                cells[i].fShared && IdOf(r[i], ch) == IdOf(cells[i], ch) && IdOf(cells[i], ch) in Refs(cells))
  {
    hide Refs;
    if i in all {
      KeyedAt(all, ids, ms, i);
      assert KeyOf(i, ch, ms) in ids;
    } else if cells[i].fShared {
      RefsUpdate(cells, i, cells[i]);
      assert IdOf(cells[i], ch) in RefsOf(cells[i]);
    }
  }

  lemma SharingSeparates(cells: seq<Entry>, all: seq<nat>, ids: Ids, ms: Masks, before: Pool, after: Pool, n: Counts,
                         others: multiset<nat>)
    requires Separate(cells) && Keyed(all, ids, ms) && PoolWith(before, after, ids, n) &&
             PoolOk(before, Refs(cells) + others)
    ensures Separate(WithShared(cells, all, ids, ms))
  {
    hide KeyOf, WithShared, Keyed, Refs;
    var r := WithShared(cells, all, ids, ms);
    WithSharedSame(cells, all, ids, ms);
    forall i, j, ch: Channel, dh: Channel | 0 <= i < |r| && 0 <= j < |r| && r[i].fShared && r[j].fShared &&
      IdOf(r[i], ch) == IdOf(r[j], dh)
      ensures ch == dh
    {
      SharedIdsAre(cells, all, ids, ms, i, ch);
      SharedIdsAre(cells, all, ids, ms, j, dh);
    }
  }

  /** The accounts and the pool after AllocColorPlanes: the grant, with every new cell pointing at the
      shared colours of its base pixel and its planes of each channel. */
  ghost predicate PlanesGranted(before: Account, pool0: Pool, after: Account, pool: Pool, c: nat, bases: seq<nat>,
                                all: seq<nat>,
                                ms: Masks, n: Counts, ids: Ids)
  {
    && c < |before.lists| && KeysOf(ids, bases, ms) && Keyed(all, ids, ms) && PoolWith(pool0, pool, ids, n)
    && ms.Apart() && PopCount(ms.r) == n.r && PopCount(ms.g) == n.g && PopCount(ms.b) == n.b
    && var g := Granted(before, c, all);
       after == g.(cells := WithShared(g.cells, all, ids, ms))
  }

  /** Two new cells share a channel's colour exactly when they have the same base pixel and the same
      combination of that channel's planes. */
  lemma SharedExactly(cells: seq<Entry>, all: seq<nat>, ids: Ids, ms: Masks, x: nat, y: nat, ch: Channel)
    requires Keyed(all, ids, ms) && Injective(ids) && x in all && y in all && x < |cells| && y < |cells|
    ensures var after := WithShared(cells, all, ids, ms);
            && after[x].fShared && after[y].fShared
            && (IdOf(after[x], ch) == IdOf(after[y], ch) <==> SamePlanes(x, y, ms.Total(), ms.Of(ch)))
  {
    hide And, AndNot;
    KeyedAt(all, ids, ms, x);
    KeyedAt(all, ids, ms, y);
    assert x in [x] && y in [y];
    assert KeyOf(x, ch, ms) in ids && KeyOf(y, ch, ms) in ids;
  }

  /** Each new cell is private and points at new, black colours for its three channels, which it shares
      with the new cells of its base pixel that have the same planes of the channel; no other cell and
      no colour that was there before changes. */
  ghost predicate NewCellsShare(before: Values, after: Values, all: seq<nat>, ms: Masks) {
    && |after.cells| == |before.cells|
    && (forall i: nat :: i < |before.cells| && i !in all ==> after.cells[i] == before.cells[i])
    && (forall x :: x in all ==>
          x < |before.cells| && before.cells[x].refcnt == 0 &&
          after.cells[x] == Entry(ALLOC_PRIVATE, true, before.cells[x].local, after.cells[x].shco))
    && (forall id :: id in before.pool ==> id in after.pool && after.pool[id] == before.pool[id])
    && (forall x, ch: Channel :: x in all ==>
          var id := IdOf(after.cells[x], ch);
          id !in before.pool && id in after.pool && after.pool[id].color == 0)
    && (forall x, y, ch: Channel :: x in all && y in all ==>
          (IdOf(after.cells[x], ch) == IdOf(after.cells[y], ch) <==>
           SamePlanes(x, y, ms.Total(), ms.Of(ch))))
  }

  /** Outside the mask of the allocation, and in the planes of one channel, two pixels agree. */
  predicate SamePlanes(x: nat, y: nat, total: nat, own: nat) {
    AndNot(x, total) == AndNot(y, total) && And(x, own) == And(y, own)
  }

  lemma GrantedNewCells(a: Account, pool0: Pool, b: Account, pool: Pool, c: nat, bases: seq<nat>, all: seq<nat>,
                        ms: Masks, n: Counts, ids: Ids)
    requires PlanesGranted(a, pool0, b, pool, c, bases, all, ms, n, ids)
    requires forall x :: x in all ==> x < |a.cells| && a.cells[x].refcnt == 0
    ensures NewCellsShare(Values(a.cells, pool0), Values(b.cells, pool), all, ms)
  {
    hide KeyOf, SamePlanes, WithShared, KeysOf, Keyed, PoolWith, Injective;
    var g := Granted(a, c, all).cells;
    var r := WithShared(g, all, ids, ms);
    WithSharedSame(g, all, ids, ms);
    forall x | x in all
      ensures r[x] == Entry(ALLOC_PRIVATE, true, a.cells[x].local, r[x].shco)
    {
      WithSharedLocal(g, all, ids, ms, x);
    }
    NewIds(g, pool0, pool, all, ids, ms, n);
  }

  lemma NewIds(cells: seq<Entry>, pool0: Pool, pool: Pool, all: seq<nat>, ids: Ids, ms: Masks, n: Counts)
    requires Keyed(all, ids, ms) && PoolWith(pool0, pool, ids, n) && forall x :: x in all ==> x < |cells|
    ensures var r := WithShared(cells, all, ids, ms);
            && |r| == |cells|
            && (forall id :: id in pool0 ==> id in pool && pool[id] == pool0[id])
            && (forall x, ch: Channel :: x in all ==>
                  var id := IdOf(r[x], ch);
                  id !in pool0 && id in pool && pool[id].color == 0)
            && forall x, y, ch: Channel :: x in all && y in all ==>
                 (IdOf(r[x], ch) == IdOf(r[y], ch) <==> SamePlanes(x, y, ms.Total(), ms.Of(ch)))
  {
    hide KeyOf, SamePlanes, WithShared, Keyed, Counts.Written;
    var r := WithShared(cells, all, ids, ms);
    WithSharedSame(cells, all, ids, ms);
    forall x, ch: Channel | x in all
      ensures var id := IdOf(r[x], ch); id !in pool0 && id in pool && pool[id].color == 0
    {
      SharedIdsAre(cells, all, ids, ms, x, ch);
    }
    forall x, y, ch: Channel | x in all && y in all
      ensures IdOf(r[x], ch) == IdOf(r[y], ch) <==> SamePlanes(x, y, ms.Total(), ms.Of(ch))
    {
      SharedExactly(cells, all, ids, ms, x, y, ch);
    }
  }

  lemma WithSharedLocal(cells: seq<Entry>, all: seq<nat>, ids: Ids, ms: Masks, x: nat)
    requires Keyed(all, ids, ms) && x in all && x < |cells|
    ensures var e := WithShared(cells, all, ids, ms)[x];
            e == Entry(cells[x].refcnt, true, cells[x].local, e.shco)
  {
  }

  lemma SupplyLength(cells: seq<Entry>, mask: nat, count: nat)
    requires Supplies(cells, mask, count)
    ensures |FreeBases(cells, mask, |cells|)| >= count
  {
  }

  lemma GrantedPrivate(a: Account, c: nat, xs: seq<nat>)
    requires c < |a.lists| && forall x :: x in xs ==> x < |a.cells|
    ensures var g := Granted(a, c, xs);
            |g.cells| == |a.cells| && forall x :: x in xs ==> g.cells[x].refcnt == ALLOC_PRIVATE && !g.cells[x].fShared
  {
  }

  lemma PlanesGrantedIs(before: Account, pool0: Pool, after: Account, pool: Pool, c: nat, bases: seq<nat>,
                        all: seq<nat>,
                        ms: Masks, n: Counts, ids: Ids)
    requires c < |before.lists| && KeysOf(ids, bases, ms) && Keyed(all, ids, ms) && PoolWith(pool0, pool, ids, n)
    requires ms.Apart() && PopCount(ms.r) == n.r && PopCount(ms.g) == n.g && PopCount(ms.b) == n.b
    requires after == Granted(before, c, all).(cells := WithShared(Granted(before, c, all).cells, all, ids, ms))
    ensures PlanesGranted(before, pool0, after, pool, c, bases, all, ms, n, ids)
  {
  }
}
