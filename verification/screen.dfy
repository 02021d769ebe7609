/**
 When a screen agrees with its colormap after a request to store colours (dix/colormap.c,
 StoreColors): the closed form of what the screen shows, and the exact condition.
 */
module Screens {
  import opened Cells
  import opened Accounts
  import opened Stores

  // ---------------------------------------------------------------- the condition

  /** A definition of cell i that the screen takes a channel from: a screen that cannot read its own
      colours takes every channel of every definition, any other one the flagged channels. */
  predicate Counts(cells: seq<Entry>, item: Item, i: nat, ch: Channel, all: bool) {
    Accepted(cells, item) && item.pixel == i && (all || item.Sets(ch))
  }

  predicate LastOwn(cells: seq<Entry>, items: seq<Item>, i: nat, ch: Channel, all: bool, k: nat) {
    && k < |items| && Counts(cells, items[k], i, ch, all)
    && forall j :: k < j < |items| ==> !Counts(cells, items[j], i, ch, all)
  }

  /** Behind the definition that the screen shows last for a channel of a cell no other definition
      changes that channel, and before it none is refused. */
  ghost predicate Settled(cells: seq<Entry>, items: seq<Item>, all: bool) {
    forall i: nat, ch, k: nat :: i < |cells| && LastOwn(cells, items, i, ch, all, k) ==>
      && (forall r :: 0 <= r < k ==> Accepted(cells, items[r]))
      && forall j :: k < j < |items| ==> !Reaches(cells, items[j], i, ch)
  }

  /** The same cells and channels, with any colours. */
  predicate SameRequest(items: seq<Item>, others: seq<Item>) {
    |others| == |items| && forall i :: 0 <= i < |items| ==> others[i].(rgb := items[i].rgb) == items[i]
  }

  /** What the screen is told in all. */
  ghost function ToldInAll(s: Values, items: seq<Item>, resolve: RGB -> RGB): seq<Item> {
    ToldAtOnce(s, items, resolve) + ToldAtEnd(s, items, resolve)
  }

  /** Whatever the colours asked for, the screen's versions of them, and what the screen shows on free
      cells: if the screen agrees with the map before the request, it does so afterwards. */
  ghost predicate AlwaysRight(s: Values, items: seq<Item>, all: bool) {
    forall others, resolve, palette :: SameRequest(items, others) && InSync(palette, s) ==>
      InSync(ShownAll(palette, ToldInAll(s, others, resolve), all), StoreAll(s, others, resolve))
  }

  // ---------------------------------------------------------------- what the screen shows

  lemma ShownNone(palette: seq<RGB>, all: bool)
    ensures ShownAll(palette, [], all) == palette
  {
  }

  lemma {:induction false} ShownConcat(palette: seq<RGB>, a: seq<Item>, b: seq<Item>, all: bool)
    ensures ShownAll(palette, a + b, all) == ShownAll(ShownAll(palette, a, all), b, all)
  {
    if b == [] {
      assert a + b == a;
    } else {
      var n := |b| - 1;
      ShownConcat(palette, a, b[..n], all);
      assert (a + b)[..|a| + n] == a + b[..n];
    }
  }

  lemma {:induction false} ChangesAt(palette: seq<RGB>, u: Values, item: Item, n: nat, i: nat, all: bool)
    requires |palette| == |u.cells| && item.pixel < |u.cells| && n <= |u.cells| && i < |u.cells|
    ensures ShownAll(palette, Changes(u, item, n), all)[i] ==
            if i < n && NeedsChange(u, item, i) then Mix(palette[i], ChangeFor(u, item, i), all) else palette[i]
  {
    if n > 0 {
      hide Mix;
      ChangesAt(palette, u, item, n - 1, i, all);
      if NeedsChange(u, item, n - 1) {
        ShownAllMore(palette, Changes(u, item, n - 1), ChangeFor(u, item, n - 1), all);
      } else {
        assert Changes(u, item, n) == Changes(u, item, n - 1);
      }
    }
  }

  lemma MixAt(c: RGB, item: Item, ch: Channel, all: bool)
    ensures Get(Mix(c, item, all), ch) == if all || item.Sets(ch) then Get(item.rgb, ch) else Get(c, ch)
  {
  }

  lemma ChangeForAt(u: Values, item: Item, i: nat, ch: Channel)
    requires item.pixel < |u.cells| && i < |u.cells| && u.cells[item.pixel].fShared && i != item.pixel
    ensures var c := ChangeFor(u, item, i);
            && Get(c.rgb, ch) == Colour(u.cells[i], u.pool, ch)
            && (NeedsChange(u, item, i) && c.Sets(ch) <==> item.Sets(ch) && Affects(u.cells, item.pixel, i, ch))
  {
  }

  /** What is told at once about one definition keeps a channel of a cell up to date, unless the
      definition sets that channel of that very cell. */
  lemma SharersAt(palette: seq<RGB>, t: Values, item: Item, rgb: RGB, i: nat, ch: Channel, all: bool,
                  others: multiset<nat>)
    requires PoolOk(t.pool, Refs(t.cells) + others) && Known(t) && Separate(t.cells) && Accepted(t.cells, item)
    requires i < |t.cells| == |palette| && Get(palette[i], ch) == Colour(t.cells[i], t.pool, ch)
    requires i == item.pixel ==> !item.Sets(ch)
    ensures var u := StoreOne(t, item, rgb);
            |u.cells| == |t.cells| &&
              Get(ShownAll(palette, SharersOf(t, item, rgb), all)[i], ch) == Colour(u.cells[i], u.pool, ch)
  {
    var u, x := StoreOne(t, item, rgb), item.pixel;
    StoreOneChanges(t, item, rgb);
    hide StoreOne, Known, Separate, PoolOk, Refs, SameShape, StoredAs, Colour, Mix, SharedChange, Affects, NeedsChange,
         ChangeFor, ShownAll;
    SameShapeSize(t, u);
    ChannelStored(t, u, item, rgb, i, ch);
    SharedChangeSame(t, u, item);
    SameShapeKeeps(t, u);
    if SharedChange(u, item) {
      SharedHere(u, item);
      ChangesAt(palette, u, item, |u.cells|, i, all);
      if i == x { NoOwnChange(u, item); } else { ChangeForAt(u, item, i, ch); }
      MixAt(palette[i], ChangeFor(u, item, i), ch, all);
    } else {
      ShownNone(palette, all);
      if i != x && item.Sets(ch) { NobodyShares(t, item, i, ch, others); }
    }
  }

  lemma NoOwnChange(u: Values, item: Item)
    requires item.pixel < |u.cells|
    ensures !NeedsChange(u, item, item.pixel)
  {
  }

  lemma SameShapePool(s: Values, t: Values, others: multiset<nat>)
    requires SameShape(s, t) && PoolOk(s.pool, Refs(s.cells) + others)
    ensures PoolOk(t.pool, Refs(t.cells) + others)
  {
    hide Refs;
    SameShapeRefs(s.cells, t.cells);
  }

  /** What is told at once keeps a channel up to date as long as no definition sets it in its own cell. */
  lemma {:induction false} OnceAt(palette: seq<RGB>, s: Values, items: seq<Item>, resolve: RGB -> RGB, i: nat,
                                  ch: Channel, all: bool,
                                  others: multiset<nat>)
    requires PoolOk(s.pool, Refs(s.cells) + others) && Separate(s.cells)
    requires i < |s.cells| == |palette| && Get(palette[i], ch) == Colour(s.cells[i], s.pool, ch)
    requires forall j :: 0 <= j < |items| ==> !Counts(s.cells, items[j], i, ch, false)
    ensures Get(ShownAll(palette, ToldAtOnce(s, items, resolve), all)[i], ch) == Final(s, items, resolve, i, ch)
  {
    hide PoolOk, Refs, Separate, Known, SameShape, ToldAtOnce, ToldAtEnd, ShownAll, StoreAll, StoreOne, Colour, Affects,
         Accepted, SharersOf, OwnOf;
    AccountsKnow(s.cells, s.pool, others);
    if items == [] {
      ToldNone(s, resolve);
      ShownNone(palette, all);
    } else {
      var n := |items| - 1;
      var before, item, rgb := items[..n], items[n], resolve(items[n].rgb);
      assert items[..n + 1] == items;
      OnceAt(palette, s, before, resolve, i, ch, all, others);
      StoreThenQuery(s, before, resolve);
      StoreThenQuery(s, items, resolve);
      var t := StoreAll(s, before, resolve);
      SameShapeKeeps(s, t);
      SameShapePool(s, t, others);
      SameShapeSize(s, t);
      ToldMore(s, items, n, resolve);
      StoreAllMore(s, items, n, resolve);
      ShownConcat(palette, ToldAtOnce(s, before, resolve), SharersOf(t, item, rgb), all);
      var p := ShownAll(palette, ToldAtOnce(s, before, resolve), all);
      if Accepted(t.cells, item) {
        SharersAt(p, t, item, rgb, i, ch, all, others);
      } else {
        NothingSent(t, item, rgb, true);
        ShownNone(p, all);
      }
    }
  }

  /** How much is told at the end shows whether a definition was refused. */
  lemma {:induction false} BatchSize(s: Values, items: seq<Item>, resolve: RGB -> RGB)
    requires Known(s) && Separate(s.cells)
    ensures var b := ToldAtEnd(s, items, resolve);
            |b| <= |items| && (|b| == |items| <==> forall r :: 0 <= r < |items| ==> Accepted(s.cells, items[r]))
  {
    hide *;
    if items == [] {
      ToldNone(s, resolve);
    } else {
      var n := |items| - 1;
      var before, item := items[..n], items[n];
      assert items[..n + 1] == items;
      BatchSize(s, before, resolve);
      AcceptedLater(s, before, resolve, item);
      ToldMore(s, items, n, resolve);
      OwnSize(StoreAll(s, before, resolve), item, resolve(item.rgb), |ToldAtEnd(s, before, resolve)| == n);
      assert forall r :: 0 <= r < n ==> before[r] == items[r];
    }
  }

  lemma AcceptedLater(s: Values, items: seq<Item>, resolve: RGB -> RGB, item: Item)
    requires Known(s) && Separate(s.cells)
    ensures Accepted(StoreAll(s, items, resolve).cells, item) == Accepted(s.cells, item)
  {
    hide *;
    StoreThenQuery(s, items, resolve);
    SameShapeKeeps(s, StoreAll(s, items, resolve));
  }

  lemma OwnSize(t: Values, item: Item, rgb: RGB, filled: bool)
    ensures |OwnOf(t, item, rgb, filled)| == if Accepted(t.cells, item) then 1 else 0
  {
  }

  lemma OwnAt(palette: seq<RGB>, t: Values, item: Item, rgb: RGB, filled: bool, i: nat, ch: Channel, all: bool)
    requires Known(t) && Separate(t.cells) && i < |t.cells| == |palette|
    ensures var u := if Accepted(t.cells, item) then StoreOne(t, item, rgb) else t;
            && |u.cells| == |t.cells|
            && Get(ShownAll(palette, OwnOf(t, item, rgb, filled), all)[i], ch) ==
               if !Counts(t.cells, item, i, ch, all) then Get(palette[i], ch)
               else if filled then Colour(u.cells[i], u.pool, ch) else Get(item.rgb, ch)
  {
    hide *;
    if Accepted(t.cells, item) {
      AcceptedIs(t, item);
      var u := StoreOne(t, item, rgb);
      StoreOneChanges(t, item, rgb);
      SameShapeSize(t, u);
      var own := if filled then item.(rgb := ColourOf(u.cells[item.pixel], u.pool)) else item;
      OwnIs(t, item, rgb, filled);
      assert [own] == [] + [own];
      ShownAllMore(palette, [], own, all);
      ShownNone(palette, all);
      ShownAt(palette, own, i, ch, all);
      CountsIs(t.cells, item, i, ch, all);
      ColourAt(u, item.pixel, ch);
      SetsSame(item, own.rgb, ch);
    } else {
      CountsIs(t.cells, item, i, ch, all);
      NothingSent(t, item, rgb, filled);
      ShownNone(palette, all);
    }
  }

  lemma OwnIs(t: Values, item: Item, rgb: RGB, filled: bool)
    requires Accepted(t.cells, item) && |StoreOne(t, item, rgb).cells| == |t.cells|
    ensures var u := StoreOne(t, item, rgb);
            && item.pixel < |t.cells|
            && OwnOf(t, item, rgb, filled) ==
               [if filled then item.(rgb := ColourOf(u.cells[item.pixel], u.pool)) else item]
  {
    hide StoreOne;
  }

  lemma ShownAt(palette: seq<RGB>, item: Item, i: nat, ch: Channel, all: bool)
    requires i < |palette|
    ensures |Shown(palette, item, all)| == |palette|
    ensures Get(Shown(palette, item, all)[i], ch) ==
            if i == item.pixel && (all || item.Sets(ch)) then Get(item.rgb, ch) else Get(palette[i], ch)
  {
  }

  lemma CountsIs(cells: seq<Entry>, item: Item, i: nat, ch: Channel, all: bool)
    ensures Counts(cells, item, i, ch, all) <==> Accepted(cells, item) && item.pixel == i && (all || item.Sets(ch))
  {
  }

  lemma ColourAt(u: Values, i: nat, ch: Channel)
    requires i < |u.cells|
    ensures Get(ColourOf(u.cells[i], u.pool), ch) == Colour(u.cells[i], u.pool, ch)
  {
  }

  lemma SetsSame(item: Item, c: RGB, ch: Channel)
    ensures item.(rgb := c).Sets(ch) == item.Sets(ch)
  {
  }

  /** What the final batch shows for a channel: what it showed before if no definition counts, or
      else what the last one that counts sends. */
  lemma {:induction false} BatchAt(palette: seq<RGB>, s: Values, items: seq<Item>, resolve: RGB -> RGB, i: nat,
                                   ch: Channel, all: bool, k: int)
    requires Known(s) && Separate(s.cells) && i < |s.cells| == |palette|
    requires if k >= 0 then LastOwn(s.cells, items, i, ch, all, k)
             else forall j :: 0 <= j < |items| ==> !Counts(s.cells, items[j], i, ch, all)
    ensures Get(ShownAll(palette, ToldAtEnd(s, items, resolve), all)[i], ch) ==
            if k < 0 then Get(palette[i], ch)
            else if forall r :: 0 <= r < k ==> Accepted(s.cells, items[r]) then Final(s, items[..k + 1], resolve, i, ch)
            else Get(items[k].rgb, ch)
  {
    hide Known, Separate, SameShape, ToldAtOnce, ToldAtEnd, ShownAll, StoreAll, StoreOne, Colour, Affects, Accepted,
         SharersOf, OwnOf, Final;
    if items == [] {
      ToldNone(s, resolve);
      ShownNone(palette, all);
    } else {
      var n := |items| - 1;
      var before, item, rgb := items[..n], items[n], resolve(items[n].rgb);
      assert items[..n + 1] == items;
      StoreThenQuery(s, before, resolve);
      StoreThenQuery(s, items, resolve);
      var t, b := StoreAll(s, before, resolve), ToldAtEnd(s, before, resolve);
      SameShapeKeeps(s, t);
      SameShapeSize(s, t);
      ToldMore(s, items, n, resolve);
      StoreAllMore(s, items, n, resolve);
      BatchSize(s, before, resolve);
      ShownConcat(palette, b, OwnOf(t, item, rgb, |b| == n), all);
      OwnAt(ShownAll(palette, b, all), t, item, rgb, |b| == n, i, ch, all);
      CountsSame(s, t, item, i, ch, all);
      if k < n {
        if k >= 0 { assert before[..k + 1] == items[..k + 1]; }
        BatchAt(palette, s, before, resolve, i, ch, all, k);
      }
    }
  }

  lemma CountsSame(s: Values, t: Values, item: Item, i: nat, ch: Channel, all: bool)
    requires Accepted(t.cells, item) == Accepted(s.cells, item)
    ensures Counts(t.cells, item, i, ch, all) == Counts(s.cells, item, i, ch, all)
  {
  }

  /** The closed form of what the screen shows after a request, channel by channel. */
  lemma ScreenAt(palette: seq<RGB>, s: Values, items: seq<Item>, resolve: RGB -> RGB, i: nat, ch: Channel, all: bool,
                 k: int,
                 others: multiset<nat>)
    requires InSync(palette, s) && PoolOk(s.pool, Refs(s.cells) + others) && Separate(s.cells)
    requires i < |s.cells| && s.cells[i].refcnt != 0
    requires if k >= 0 then LastOwn(s.cells, items, i, ch, all, k)
             else forall j :: 0 <= j < |items| ==> !Counts(s.cells, items[j], i, ch, all)
    ensures Get(ShownAll(palette, ToldInAll(s, items, resolve), all)[i], ch) ==
            if k < 0 then Final(s, items, resolve, i, ch)
            else if forall r :: 0 <= r < k ==> Accepted(s.cells, items[r]) then Final(s, items[..k + 1], resolve, i, ch)
            else Get(items[k].rgb, ch)
  {
    AccountsKnow(s.cells, s.pool, others);
    assert palette[i] == ColourOf(s.cells[i], s.pool);
    hide PoolOk, Refs, Separate, Known, ToldAtOnce, ToldAtEnd, ShownAll, Final, Accepted;
    ShownConcat(palette, ToldAtOnce(s, items, resolve), ToldAtEnd(s, items, resolve), all);
    if k < 0 { OnceAt(palette, s, items, resolve, i, ch, all, others); }
    BatchAt(ShownAll(palette, ToldAtOnce(s, items, resolve), all), s, items, resolve, i, ch, all, k);
  }

  // ---------------------------------------------------------------- the exact condition

  /** Definitions that do not reach a channel leave it alone. */
  lemma {:induction false} FinalSkips(s: Values, items: seq<Item>, resolve: RGB -> RGB, i: nat, ch: Channel, n: nat)
    requires i < |s.cells| && n <= |items| && forall j :: n <= j < |items| ==> !Reaches(s.cells, items[j], i, ch)
    ensures Final(s, items, resolve, i, ch) == Final(s, items[..n], resolve, i, ch)
  {
    if n == |items| {
      assert items[..n] == items;
    } else {
      FinalSkips(s, items[..|items| - 1], resolve, i, ch, n);
      assert items[..|items| - 1][..n] == items[..n];
    }
  }

  lemma {:induction false} LastOf(cells: seq<Entry>, items: seq<Item>, i: nat, ch: Channel, all: bool) returns (k: int)
    ensures if k >= 0 then LastOwn(cells, items, i, ch, all, k)
            else forall j :: 0 <= j < |items| ==> !Counts(cells, items[j], i, ch, all)
  {
    if items == [] {
      k := -1;
    } else if Counts(cells, items[|items| - 1], i, ch, all) {
      k := |items| - 1;
    } else {
      k := LastOf(cells, items[..|items| - 1], i, ch, all);
      assert forall j :: 0 <= j < |items| - 1 ==> items[j] == items[..|items| - 1][j];
    }
  }

  lemma SettledIsRight(palette: seq<RGB>, s: Values, items: seq<Item>, resolve: RGB -> RGB, all: bool,
                       others: multiset<nat>)
    requires InSync(palette, s) && PoolOk(s.pool, Refs(s.cells) + others) && Separate(s.cells) &&
             Settled(s.cells, items, all)
    ensures InSync(ShownAll(palette, ToldInAll(s, items, resolve), all), StoreAll(s, items, resolve))
  {
    hide PoolOk, Refs, Separate, Known, ToldInAll, ShownAll, Final, Accepted, StoreAll, SameShape, Affects, LastOwn,
         Colour, Counts;
    AccountsKnow(s.cells, s.pool, others);
    StoreThenQuery(s, items, resolve);
    var t, p := StoreAll(s, items, resolve), ShownAll(palette, ToldInAll(s, items, resolve), all);
    SameShapeSize(s, t);
    forall i: nat, ch | i < |t.cells| && t.cells[i].refcnt != 0
      ensures Get(p[i], ch) == Colour(t.cells[i], t.pool, ch)
    {
      SameCell(s, t, i);
      var k := LastOf(s.cells, items, i, ch, all);
      ScreenAt(palette, s, items, resolve, i, ch, all, k, others);
      if k >= 0 {
        LastOwnIs(s.cells, items, i, ch, all, k);
        FinalSkips(s, items, resolve, i, ch, k + 1);
      }
    }
    forall i | 0 <= i < |t.cells| && t.cells[i].refcnt != 0 ensures p[i] == ColourOf(t.cells[i], t.pool) {
      assert Get(p[i], Red) == Colour(t.cells[i], t.pool, Red) &&
        Get(p[i], Green) == Colour(t.cells[i], t.pool, Green) &&
             Get(p[i], Blue) == Colour(t.cells[i], t.pool, Blue);
    }
  }

  lemma LastOwnIs(cells: seq<Entry>, items: seq<Item>, i: nat, ch: Channel, all: bool, k: nat)
    requires LastOwn(cells, items, i, ch, all, k)
    ensures k < |items|
  {
  }

  /** What a request reaches and which definitions count does not depend on the colours. */
  lemma SameRequestSame(cells: seq<Entry>, items: seq<Item>, others: seq<Item>, all: bool)
    requires SameRequest(items, others)
    ensures forall j :: 0 <= j < |items| ==> Accepted(cells, others[j]) == Accepted(cells, items[j])
    ensures forall i: nat, j, ch :: i < |cells| && 0 <= j < |items| ==>
              && Counts(cells, others[j], i, ch, all) == Counts(cells, items[j], i, ch, all)
              && Reaches(cells, others[j], i, ch) == Reaches(cells, items[j], i, ch)
  {
    forall j | 0 <= j < |items|
      ensures others[j].pixel == items[j].pixel && forall ch :: others[j].Sets(ch) == items[j].Sets(ch)
    {
      assert others[j].(rgb := items[j].rgb) == items[j];
    }
  }

  // ---------------------------------------------------------------- requests that go wrong

  /** What a screen with one colour, and one with every colour, makes of a colour. */
  function Black(c: RGB): RGB { RGB(0, 0, 0) }

  function Same(c: RGB): RGB { c }

  /** The same request, asking for black before place n and for a grey from there on. */
  ghost function GreyFrom(items: seq<Item>, n: nat, v: nat): seq<Item> {
    seq(|items|, x requires 0 <= x < |items| => items[x].(rgb := if x < n then RGB(0, 0, 0) else RGB(v, v, v)))
  }

  lemma GreyFromIs(cells: seq<Entry>, items: seq<Item>, n: nat, v: nat, i: nat, ch: Channel, all: bool, k: nat)
    requires i < |cells| && LastOwn(cells, items, i, ch, all, k)
    ensures var g := GreyFrom(items, n, v);
            && |g| == |items| && SameRequest(items, g) && LastOwn(cells, g, i, ch, all, k)
            && (forall x :: 0 <= x < |items| ==> Get(g[x].rgb, ch) == if x < n then 0 else v)
            && (forall x :: 0 <= x < |items| ==> Accepted(cells, g[x]) == Accepted(cells, items[x]))
            && forall x :: 0 <= x < |items| ==> Reaches(cells, g[x], i, ch) == Reaches(cells, items[x], i, ch)
  {
    var g := GreyFrom(items, n, v);
    hide Counts, Accepted, Reaches;
    SameRequestSame(cells, items, g, all);
  }

  /** With every colour stored as 0 a channel ends as 0 or keeps its value. */
  lemma {:induction false} FinalOneOf(s: Values, items: seq<Item>, resolve: RGB -> RGB, i: nat, ch: Channel)
    requires i < |s.cells| && forall j :: 0 <= j < |items| ==> Get(resolve(items[j].rgb), ch) == 0
    ensures Final(s, items, resolve, i, ch) == 0 || Final(s, items, resolve, i, ch) == Colour(s.cells[i], s.pool, ch)
  {
    if items != [] { FinalOneOf(s, items[..|items| - 1], resolve, i, ch); }
  }

  /** With every colour from place n on stored as v a channel reached from there on ends as v. */
  lemma {:induction false} FinalIs(s: Values, items: seq<Item>, resolve: RGB -> RGB, i: nat, ch: Channel, n: nat,
                                   j: nat, v: nat)
    requires i < |s.cells| && n <= j < |items| && Reaches(s.cells, items[j], i, ch)
    requires forall x :: n <= x < |items| ==> Get(resolve(items[x].rgb), ch) == v
    ensures Final(s, items, resolve, i, ch) == v
  {
    if !Reaches(s.cells, items[|items| - 1], i, ch) { FinalIs(s, items[..|items| - 1], resolve, i, ch, n, j, v); }
  }

  ghost function Faithful(s: Values): seq<RGB> {
    seq(|s.cells|, i requires 0 <= i < |s.cells| => ColourOf(s.cells[i], s.pool))
  }

  /** A channel that the screen shows differently from the map's value. */
  lemma Disagrees(p: seq<RGB>, s: Values, t: Values, i: nat, ch: Channel)
    requires SameShape(s, t) && i < |s.cells| && s.cells[i].refcnt != 0
    requires i < |p| && i < |t.cells| && Get(p[i], ch) != Colour(t.cells[i], t.pool, ch)
    ensures !InSync(p, t)
  {
    SameCell(s, t, i);
    ColourAt(t, i, ch);
  }

  lemma InUse(cells: seq<Entry>, items: seq<Item>, i: nat, ch: Channel, all: bool, k: nat)
    requires LastOwn(cells, items, i, ch, all, k)
    ensures i < |cells| && cells[i].refcnt != 0 && k < |items| && Accepted(cells, items[k])
  {
  }

  lemma NotRight(s: Values, items: seq<Item>, asked: seq<Item>, resolve: RGB -> RGB, all: bool)
    requires SameRequest(items, asked)
    requires !InSync(ShownAll(Faithful(s), ToldInAll(s, asked, resolve), all), StoreAll(s, asked, resolve))
    ensures !AlwaysRight(s, items, all)
  {
    hide ToldInAll, StoreAll, ShownAll, SameRequest;
    assert InSync(Faithful(s), s);
  }

  /** If a definition is refused first, the screen of one colour shows the colour asked for. */
  lemma RefusedIsWrong(s: Values, items: seq<Item>, all: bool, i: nat, ch: Channel, k: nat, r: nat,
                       others: multiset<nat>)
    requires PoolOk(s.pool, Refs(s.cells) + others) && Separate(s.cells)
    requires LastOwn(s.cells, items, i, ch, all, k) && r < k < |items| && !Accepted(s.cells, items[r])
    ensures !AlwaysRight(s, items, all)
  {
    hide *;
    InUse(s.cells, items, i, ch, all, k);
    AccountsKnow(s.cells, s.pool, others);
    var v := if Colour(s.cells[i], s.pool, ch) == 1 then 2 else 1;
    var asked := GreyFrom(items, 0, v);
    GreyFromIs(s.cells, items, 0, v, i, ch, all, k);
    FaithfulIs(s);
    ScreenAt(Faithful(s), s, asked, Black, i, ch, all, k, others);
    BlackIs(asked, ch);
    FinalOneOf(s, asked, Black, i, ch);
    StoreThenQuery(s, asked, Black);
    SameShapeSize(s, StoreAll(s, asked, Black));
    Disagrees(ShownAll(Faithful(s), ToldInAll(s, asked, Black), all), s, StoreAll(s, asked, Black), i, ch);
    NotRight(s, items, asked, Black, all);
  }

  lemma BlackIs(items: seq<Item>, ch: Channel)
    ensures forall x :: 0 <= x < |items| ==> Get(Black(items[x].rgb), ch) == 0
  {
  }

  lemma FaithfulIs(s: Values)
    ensures |Faithful(s)| == |s.cells| && InSync(Faithful(s), s)
  {
  }

  /** If a channel is changed behind the definition shown last, any screen shows a stale value. */
  lemma ChangedLaterIsWrong(s: Values, items: seq<Item>, all: bool, i: nat, ch: Channel, k: nat, j: nat,
                            others: multiset<nat>)
    requires PoolOk(s.pool, Refs(s.cells) + others) && Separate(s.cells) && i < |s.cells|
    requires LastOwn(s.cells, items, i, ch, all, k) && forall r :: 0 <= r < k ==> Accepted(s.cells, items[r])
    requires k < j < |items| && Reaches(s.cells, items[j], i, ch)
    ensures !AlwaysRight(s, items, all)
  {
    hide *;
    InUse(s.cells, items, i, ch, all, k);
    AccountsKnow(s.cells, s.pool, others);
    var same := Same;
    var v := if Colour(s.cells[i], s.pool, ch) == 1 then 2 else 1;
    var asked := GreyFrom(items, k + 1, v);
    GreyFromIs(s.cells, items, k + 1, v, i, ch, all, k);
    FaithfulIs(s);
    ScreenAt(Faithful(s), s, asked, same, i, ch, all, k, others);
    SameIs(asked, ch);
    FinalOneOf(s, asked[..k + 1], same, i, ch);
    FinalIs(s, asked, same, i, ch, k + 1, j, v);
    StoreThenQuery(s, asked, same);
    SameShapeSize(s, StoreAll(s, asked, same));
    Disagrees(ShownAll(Faithful(s), ToldInAll(s, asked, same), all), s, StoreAll(s, asked, same), i, ch);
    NotRight(s, items, asked, same, all);
  }

  lemma SameIs(items: seq<Item>, ch: Channel)
    ensures forall x :: 0 <= x < |items| ==> Get(Same(items[x].rgb), ch) == Get(items[x].rgb, ch)
  {
  }

  /** Exactly the settled requests leave the screen right for all colours asked for, whatever the
      screen makes of them. */
  lemma ScreenRightExactly(s: Values, items: seq<Item>, all: bool, others: multiset<nat>)
    requires PoolOk(s.pool, Refs(s.cells) + others) && Separate(s.cells)
    ensures AlwaysRight(s, items, all) <==> Settled(s.cells, items, all)
  {
    hide PoolOk, Refs, Separate, ToldInAll, ShownAll, StoreAll, LastOwn, Reaches, Accepted, InSync, SameRequest;
    if Settled(s.cells, items, all) {
      forall asked, resolve, palette | SameRequest(items, asked) && InSync(palette, s)
        ensures InSync(ShownAll(palette, ToldInAll(s, asked, resolve), all), StoreAll(s, asked, resolve))
      {
        SettledSame(s.cells, items, asked, all);
        SettledIsRight(palette, s, asked, resolve, all, others);
      }
    } else {
      var i, ch, k := Unsettled(s.cells, items, all);
      if r :| 0 <= r < k && !Accepted(s.cells, items[r]) {
        RefusedIsWrong(s, items, all, i, ch, k, r, others);
      } else {
        var j :| k < j < |items| && Reaches(s.cells, items[j], i, ch);
        ChangedLaterIsWrong(s, items, all, i, ch, k, j, others);
      }
    }
  }

  lemma Unsettled(cells: seq<Entry>, items: seq<Item>, all: bool) returns (i: nat, ch: Channel, k: nat)
    requires !Settled(cells, items, all)
    ensures i < |cells| && LastOwn(cells, items, i, ch, all, k) && k < |items|
    ensures (forall r :: 0 <= r < k ==> Accepted(cells, items[r])) ==>
            exists j :: k < j < |items| && Reaches(cells, items[j], i, ch)
  {
    i, ch, k :| i < |cells| && LastOwn(cells, items, i, ch, all, k) &&
      !((forall r :: 0 <= r < k ==> Accepted(cells, items[r])) &&
        forall j :: k < j < |items| ==> !Reaches(cells, items[j], i, ch));
  }

  lemma SettledSame(cells: seq<Entry>, items: seq<Item>, asked: seq<Item>, all: bool)
    requires SameRequest(items, asked) && Settled(cells, items, all)
    ensures Settled(cells, asked, all)
  {
    hide Reaches, Accepted, Counts;
    SameRequestSame(cells, items, asked, all);
    forall i: nat, ch, k: nat | i < |cells| && LastOwn(cells, asked, i, ch, all, k)
      ensures (forall r :: 0 <= r < k ==> Accepted(cells, asked[r])) &&
              forall j :: k < j < |asked| ==> !Reaches(cells, asked[j], i, ch)
    {
      assert LastOwn(cells, items, i, ch, all, k);
    }
  }

  /** A request with a single definition is always settled. */
  lemma ScreenFollows(palette: seq<RGB>, s: Values, item: Item, resolve: RGB -> RGB, all: bool, others: multiset<nat>)
    requires InSync(palette, s) && PoolOk(s.pool, Refs(s.cells) + others) && Separate(s.cells)
    ensures InSync(ShownAll(palette, ToldInAll(s, [item], resolve), all), StoreAll(s, [item], resolve))
  {
    hide PoolOk, Refs, Separate, ToldInAll, ShownAll, StoreAll, Reaches, Accepted;
    SettledIsRight(palette, s, [item], resolve, all, others);
  }

  // ---------------------------------------------------------------- two requests that go wrong

  /** A map with two cells, both private to its first client. */
  const PRIVATE_PAIR :=
    Values([Entry(ALLOC_PRIVATE, false, RGB(0, 0, 0), SharedIds(0, 0, 0)),
            Entry(ALLOC_PRIVATE, false, RGB(0, 0, 0), SharedIds(0, 0, 0))], map[])

  /** The map that AllocColorPlanes for one green plane makes of a map of one plane: the two cells
      share their red and their blue. */
  const SHARING_PAIR :=
    Values([Entry(ALLOC_PRIVATE, true, RGB(0, 0, 0), SharedIds(1, 2, 3)),
            Entry(ALLOC_PRIVATE, true, RGB(0, 0, 0), SharedIds(1, 4, 3))],
           map[1 := SharedColor(0, 2), 2 := SharedColor(0, 1), 3 := SharedColor(0, 2), 4 := SharedColor(0, 1)])

  const BLACK_PAIR := [RGB(0, 0, 0), RGB(0, 0, 0)]

  const REFUSED_THEN_GREY := [Item(2, RGB(9, 9, 9), true, true, true), Item(0, RGB(9, 9, 9), true, true, true)]

  const RED_TWICE := [Item(0, RGB(1, 0, 0), true, false, false), Item(1, RGB(2, 0, 0), true, false, false)]

  lemma PairOwned()
    ensures Owned([[0, 1]]) == multiset{0, 1}
  {
    assert [[0, 1]][1..] == [];
  }

  lemma PairRefs(a: Entry, b: Entry)
    requires a.refcnt != 0 && b.refcnt != 0
    ensures Refs([a, b]) == RefsOf(a) + RefsOf(b) && FreeCount([a, b]) == 0
  {
    hide RefsOf;
    assert [a, b][..1] == [a] && [a][..0] == [];
    assert Refs([a]) == RefsOf(a);
  }

  /** A map whose accounts agree with one client's list of both pixels, and a screen that shows it. */
  ghost predicate Sound(s: Values) {
    Balanced(Account(s.cells, 0, [[0, 1]])) && PoolOk(s.pool, Refs(s.cells) + multiset{}) && Separate(s.cells) &&
      InSync(BLACK_PAIR, s)
  }

  lemma PrivatePairSound()
    ensures Sound(PRIVATE_PAIR)
  {
    PairOwned();
    PairRefs(PRIVATE_PAIR.cells[0], PRIVATE_PAIR.cells[1]);
    hide Refs, Owned, FreeCount;
    assert PRIVATE_PAIR.cells == [PRIVATE_PAIR.cells[0], PRIVATE_PAIR.cells[1]];
  }

  lemma SharingPairRefs()
    ensures Refs(SHARING_PAIR.cells) == multiset{1, 1, 2, 3, 3, 4} && FreeCount(SHARING_PAIR.cells) == 0
  {
    PairRefs(SHARING_PAIR.cells[0], SHARING_PAIR.cells[1]);
    hide Refs, FreeCount;
    assert SHARING_PAIR.cells == [SHARING_PAIR.cells[0], SHARING_PAIR.cells[1]];
  }

  lemma SharingPairSound()
    ensures Sound(SHARING_PAIR)
  {
    PairOwned();
    SharingPairRefs();
    hide Refs, RefsOf, Owned, FreeCount;
    assert Separate(SHARING_PAIR.cells) && InSync(BLACK_PAIR, SHARING_PAIR);
    hide Separate, InSync, IdOf, ColourOf;
    assert PoolOk(SHARING_PAIR.pool, multiset{1, 1, 2, 3, 3, 4} + multiset{});
  }

  /** Behind a refused definition the screen is sent the colour that was asked for, not its own
      version of it. */
  lemma RefusedFirst(all: bool)
    ensures Sound(PRIVATE_PAIR)
    ensures !InSync(ShownAll(BLACK_PAIR, ToldInAll(PRIVATE_PAIR, REFUSED_THEN_GREY, Black), all),
                    StoreAll(PRIVATE_PAIR, REFUSED_THEN_GREY, Black))
  {
    var s, items := PRIVATE_PAIR, REFUSED_THEN_GREY;
    PrivatePairSound();
    hide Refs, Balanced, PoolOk, Separate, Known, InSync, StoreAll, ShownAll, ToldInAll, Final;
    AccountsKnow(s.cells, s.pool, multiset{});
    assert !Accepted(s.cells, items[0]);
    ScreenAt(BLACK_PAIR, s, items, Black, 0, Red, all, 1, multiset{});
    FinalOneOf(s, items, Black, 0, Red);
    StoreThenQuery(s, items, Black);
    SameShapeSize(s, StoreAll(s, items, Black));
    hide SameShape;
    Disagrees(ShownAll(BLACK_PAIR, ToldInAll(s, items, Black), all), s, StoreAll(s, items, Black), 0, Red);
  }

  /** A red that a later definition of the request replaced is sent once more at the end. */
  lemma StaleRed(all: bool)
    ensures Sound(SHARING_PAIR)
    ensures !InSync(ShownAll(BLACK_PAIR, ToldInAll(SHARING_PAIR, RED_TWICE, Same), all),
                    StoreAll(SHARING_PAIR, RED_TWICE, Same))
  {
    var s, items, same := SHARING_PAIR, RED_TWICE, Same;
    SharingPairSound();
    hide Refs, Balanced, PoolOk, Separate, Known, InSync, StoreAll, ShownAll, ToldInAll, Final;
    AccountsKnow(s.cells, s.pool, multiset{});
    ScreenAt(BLACK_PAIR, s, items, same, 0, Red, all, 0, multiset{});
    FinalIs(s, items[..1], same, 0, Red, 0, 0, 1);
    FinalIs(s, items, same, 0, Red, 1, 1, 2);
    StoreThenQuery(s, items, same);
    SameShapeSize(s, StoreAll(s, items, same));
    hide SameShape;
    Disagrees(ShownAll(BLACK_PAIR, ToldInAll(s, items, same), all), s, StoreAll(s, items, same), 0, Red);
  }
}
