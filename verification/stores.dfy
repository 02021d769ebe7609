/**
 Writing and reading colour values (dix/colormap.c, StoreColors and QueryColors), and what the
 screen is told about it.
 */
module Stores {
  import opened Cells
  import opened Accounts

  /** One definition of a request, or one change sent to the screen. */
  datatype Item = Item(pixel: nat, rgb: RGB, doRed: bool, doGreen: bool, doBlue: bool) {
    predicate Sets(ch: Channel) {
      match ch case Red => doRed case Green => doGreen case Blue => doBlue
    }
  }

  /** The values of a map: its cells and the shared colours. */
  datatype Values = Values(cells: seq<Entry>, pool: Pool)

  function Get(c: RGB, ch: Channel): nat {
    match ch case Red => c.red case Green => c.green case Blue => c.blue
  }

  function Put(c: RGB, ch: Channel, v: nat): RGB {
    match ch case Red => c.(red := v) case Green => c.(green := v) case Blue => c.(blue := v)
  }

  function Lookup(pool: Pool, id: nat): nat { if id in pool then pool[id].color else 0 }

  /** One channel of a cell's colour. */
  function Colour(e: Entry, pool: Pool, ch: Channel): nat {
    if e.fShared then Lookup(pool, IdOf(e, ch)) else Get(e.local, ch)
  }

  function ColourOf(e: Entry, pool: Pool): RGB {
    RGB(Colour(e, pool, Red), Colour(e, pool, Green), Colour(e, pool, Blue))
  }

  /** The shared colours that cells point at exist. */
  ghost predicate Known(s: Values) {
    forall i, ch :: 0 <= i < |s.cells| && s.cells[i].fShared ==> IdOf(s.cells[i], ch) in s.pool
  }

  /** Cell i has the same channel as cell x: it is cell x, or shares that channel's colour with it. */
  predicate Affects(cells: seq<Entry>, x: nat, i: nat, ch: Channel)
    requires x < |cells| && i < |cells|
  {
    i == x || (cells[x].fShared && cells[i].fShared && IdOf(cells[i], ch) == IdOf(cells[x], ch))
  }

  /** Everything but the colour values is the same. */
  ghost predicate SameShape(s: Values, t: Values) {
    && |t.cells| == |s.cells|
    && (forall i :: 0 <= i < |s.cells| ==> t.cells[i].(local := s.cells[i].local) == s.cells[i])
    && (forall id :: id in t.pool <==> id in s.pool)
    && (forall id :: id in s.pool ==> t.pool[id].refcnt == s.pool[id].refcnt)
  }

  /** A definition is carried out when its cell exists and is private. */
  predicate Accepted(cells: seq<Entry>, item: Item) {
    item.pixel < |cells| && cells[item.pixel].refcnt == ALLOC_PRIVATE
  }

  function SetChannel(s: Values, x: nat, ch: Channel, v: nat): Values
    requires x < |s.cells|
  {
    var e := s.cells[x];
    if !e.fShared then s.(cells := s.cells[x := e.(local := Put(e.local, ch, v))])
    else if IdOf(e, ch) in s.pool then s.(pool := s.pool[IdOf(e, ch) := s.pool[IdOf(e, ch)].(color := v)])
    else s
  }

  function Write(s: Values, item: Item, ch: Channel, rgb: RGB): Values
    requires item.pixel < |s.cells|
  {
    if item.Sets(ch) then SetChannel(s, item.pixel, ch, Get(rgb, ch)) else s
  }

  function StoreOne(s: Values, item: Item, rgb: RGB): Values
    requires item.pixel < |s.cells|
  {
    Write(Write(Write(s, item, Red, rgb), item, Green, rgb), item, Blue, rgb)
  }

  /** A whole request, definition after definition; a refused one is skipped. */
  function StoreAll(s: Values, items: seq<Item>, resolve: RGB -> RGB): Values {
    if items == [] then s
    else
      var t, item := StoreAll(s, items[..|items| - 1], resolve), items[|items| - 1];
      if Accepted(t.cells, item) then StoreOne(t, item, resolve(item.rgb)) else t
  }

  /** The error of the last refused definition. */
  function Verdict(cells: seq<Entry>, items: seq<Item>): Code {
    if items == [] then Success
    else
      var item := items[|items| - 1];
      if Accepted(cells, item) then Verdict(cells, items[..|items| - 1])
      else if item.pixel >= |cells| then BadValue else BadAccess
  }

  lemma SetChannelChanges(s: Values, x: nat, ch: Channel, v: nat)
    requires x < |s.cells| && Known(s) && Separate(s.cells)
    ensures var t := SetChannel(s, x, ch, v);
            && SameShape(s, t)
            && forall i, dh :: 0 <= i < |s.cells| ==>
                 Colour(t.cells[i], t.pool, dh) == if dh == ch && Affects(s.cells, x, i, ch) then v
                   else Colour(s.cells[i], s.pool, dh)
  {
    var t := SetChannel(s, x, ch, v);
    forall i, dh | 0 <= i < |s.cells|
      ensures Colour(t.cells[i], t.pool, dh) == if dh == ch && Affects(s.cells, x, i, ch) then v
              else Colour(s.cells[i], s.pool, dh)
    {
      if s.cells[x].fShared { assert IdOf(s.cells[x], ch) in s.pool; }
      if s.cells[i].fShared { assert IdOf(s.cells[i], dh) in s.pool; }
    }
  }

  lemma SameShapeKeeps(s: Values, t: Values)
    requires SameShape(s, t) && Known(s) && Separate(s.cells)
    ensures Known(t) && Separate(t.cells)
    ensures forall x: nat, i: nat, ch :: x < |s.cells| && i < |s.cells| ==>
            Affects(t.cells, x, i, ch) == Affects(s.cells, x, i, ch)
    ensures forall item :: Accepted(t.cells, item) == Accepted(s.cells, item)
  {
    StaysSeparate(s.cells, t.cells);
    forall i, ch | 0 <= i < |t.cells| && t.cells[i].fShared ensures IdOf(t.cells[i], ch) in t.pool {
      assert IdOf(s.cells[i], ch) in s.pool;
    }
  }

  lemma SameShapeTwice(s: Values, t: Values, u: Values)
    requires SameShape(s, t) && SameShape(t, u)
    ensures SameShape(s, u)
  {
  }

  lemma WriteChanges(s: Values, item: Item, ch: Channel, rgb: RGB)
    requires item.pixel < |s.cells| && Known(s) && Separate(s.cells)
    ensures var t := Write(s, item, ch, rgb);
            && SameShape(s, t) && Known(t) && Separate(t.cells)
            && (forall i, dh :: 0 <= i < |s.cells| ==>
                 Colour(t.cells[i], t.pool, dh) ==
                 if dh == ch && item.Sets(ch) && Affects(s.cells, item.pixel, i, ch) then Get(rgb, ch)
                   else Colour(s.cells[i], s.pool, dh))
            && forall x: nat, i: nat, dh :: x < |s.cells| && i < |s.cells| ==>
               Affects(t.cells, x, i, dh) == Affects(s.cells, x, i, dh)
  {
    if item.Sets(ch) { SetChannelChanges(s, item.pixel, ch, Get(rgb, ch)); }
    SameShapeKeeps(s, Write(s, item, ch, rgb));
  }

  /** One definition changes exactly the flagged channels of its cell, and of every cell that shares
      the channel; nothing else about the map changes. */
  lemma StoreOneChanges(s: Values, item: Item, rgb: RGB)
    requires item.pixel < |s.cells| && Known(s) && Separate(s.cells)
    ensures var t := StoreOne(s, item, rgb);
            SameShape(s, t) && Known(t) && Separate(t.cells) && StoredAs(s, t, item, rgb)
  {
    hide Known, Separate, SameShape, Affects, Colour, Write;
    var t1 := Write(s, item, Red, rgb);
    WriteChanges(s, item, Red, rgb);
    SameShapeSize(s, t1);
    var t2 := Write(t1, item, Green, rgb);
    WriteChanges(t1, item, Green, rgb);
    SameShapeSize(t1, t2);
    var t3 := Write(t2, item, Blue, rgb);
    WriteChanges(t2, item, Blue, rgb);
    SameShapeSize(t2, t3);
    SameShapeTwice(s, t1, t2);
    SameShapeTwice(s, t2, t3);
  }

  /** The values of t are those of s, with the flagged channels set in the cells they affect. */
  ghost predicate StoredAs(s: Values, t: Values, item: Item, rgb: RGB)
    requires |t.cells| == |s.cells| && item.pixel < |s.cells|
  {
    forall i, ch :: 0 <= i < |s.cells| ==>
      Colour(t.cells[i], t.pool, ch) ==
      if item.Sets(ch) && Affects(s.cells, item.pixel, i, ch) then Get(rgb, ch) else Colour(s.cells[i], s.pool, ch)
  }

  lemma SameShapeSize(s: Values, t: Values)
    requires SameShape(s, t)
    ensures |t.cells| == |s.cells|
  {
  }

  /** The value of a channel after a request: what the last accepted definition says that flags the
      channel for the cell or a cell sharing it, or else the old value. */
  ghost function Final(s: Values, items: seq<Item>, resolve: RGB -> RGB, i: nat, ch: Channel): nat
    requires i < |s.cells|
  {
    if items == [] then Colour(s.cells[i], s.pool, ch)
    else
      var item := items[|items| - 1];
      if Accepted(s.cells, item) && item.Sets(ch) && Affects(s.cells, item.pixel, i, ch) then Get(resolve(item.rgb), ch)
      else Final(s, items[..|items| - 1], resolve, i, ch)
  }

  /** StoreColors and then QueryColors. */
  lemma {:induction false} StoreThenQuery(s: Values, items: seq<Item>, resolve: RGB -> RGB)
    requires Known(s) && Separate(s.cells)
    ensures var t := StoreAll(s, items, resolve);
            && SameShape(s, t) && Known(t) && Separate(t.cells)
            && forall i, ch :: 0 <= i < |s.cells| ==> Colour(t.cells[i], t.pool, ch) == Final(s, items, resolve, i, ch)
  {
    if items != [] {
      hide Known, Separate, Affects, Colour, StoreOne;
      var before, item := items[..|items| - 1], items[|items| - 1];
      StoreThenQuery(s, before, resolve);
      var t := StoreAll(s, before, resolve);
      SameShapeKeeps(s, t);
      if Accepted(t.cells, item) {
        StoreOneChanges(t, item, resolve(item.rgb));
        SameShapeTwice(s, t, StoreOne(t, item, resolve(item.rgb)));
      }
    }
  }

  /** A definition that changes a channel of cell i. */
  predicate Reaches(cells: seq<Entry>, item: Item, i: nat, ch: Channel)
    requires i < |cells|
  {
    Accepted(cells, item) && item.Sets(ch) && Affects(cells, item.pixel, i, ch)
  }

  /** Definition k is the last one that reaches the channel. */
  ghost predicate LastReaching(cells: seq<Entry>, items: seq<Item>, i: nat, ch: Channel, k: nat)
    requires i < |cells|
  {
    && k < |items| && Reaches(cells, items[k], i, ch)
    && forall j :: k < j < |items| ==> !Reaches(cells, items[j], i, ch)
  }

  ghost predicate NoneReaches(cells: seq<Entry>, items: seq<Item>, i: nat, ch: Channel)
    requires i < |cells|
  {
    forall j :: 0 <= j < |items| ==> !Reaches(cells, items[j], i, ch)
  }

  /** Whichever definition is the last to reach a channel of a cell decides its value, and a channel
      that none reaches keeps its value. */
  lemma {:induction false} LastDecides(s: Values, items: seq<Item>, resolve: RGB -> RGB, i: nat, ch: Channel)
    requires i < |s.cells|
    ensures forall k: nat :: LastReaching(s.cells, items, i, ch, k) ==>
              Final(s, items, resolve, i, ch) == Get(resolve(items[k].rgb), ch)
    ensures NoneReaches(s.cells, items, i, ch) ==>
              Final(s, items, resolve, i, ch) == Colour(s.cells[i], s.pool, ch)
  {
    if items != [] {
      var n := |items| - 1;
      LastDecides(s, items[..n], resolve, i, ch);
      FinalMore(s, items, resolve, i, ch);
      hide Reaches, Colour, Get, Final;
      assert forall j :: 0 <= j < n ==> items[..n][j] == items[j];
      forall k: nat | LastReaching(s.cells, items, i, ch, k)
        ensures Final(s, items, resolve, i, ch) == Get(resolve(items[k].rgb), ch)
      {
        if k < n { assert LastReaching(s.cells, items[..n], i, ch, k); }
      }
    }
  }

  lemma FinalMore(s: Values, items: seq<Item>, resolve: RGB -> RGB, i: nat, ch: Channel)
    requires i < |s.cells| && items != []
    ensures var n := |items| - 1;
            Final(s, items, resolve, i, ch) ==
            if Reaches(s.cells, items[n], i, ch) then Get(resolve(items[n].rgb), ch)
            else Final(s, items[..n], resolve, i, ch)
  {
  }

  /** The verdict is success exactly when no definition is refused, and otherwise says why the last one
      that is refused was. */
  lemma {:induction false} VerdictIs(cells: seq<Entry>, items: seq<Item>)
    ensures Verdict(cells, items) == Success <==> forall k :: 0 <= k < |items| ==> Accepted(cells, items[k])
    ensures forall k: nat :: LastRefused(cells, items, k) ==>
              Verdict(cells, items) == if items[k].pixel >= |cells| then BadValue else BadAccess
  {
    if items != [] {
      hide Accepted;
      var n := |items| - 1;
      VerdictIs(cells, items[..n]);
      assert forall j :: 0 <= j < n ==> items[..n][j] == items[j];
      forall k: nat | LastRefused(cells, items, k)
        ensures Verdict(cells, items) == if items[k].pixel >= |cells| then BadValue else BadAccess
      {
        if k < n { assert LastRefused(cells, items[..n], k); }
      }
    }
  }

  /** Definition k is the last one that is refused. */
  ghost predicate LastRefused(cells: seq<Entry>, items: seq<Item>, k: nat) {
    k < |items| && !Accepted(cells, items[k]) && forall j :: k < j < |items| ==> Accepted(cells, items[j])
  }

  lemma {:induction false} SameShapeRefs(a: seq<Entry>, b: seq<Entry>)
    requires |a| == |b| && forall i :: 0 <= i < |a| ==> b[i].(local := a[i].local) == a[i]
    ensures Refs(b) == Refs(a) && FreeCount(b) == FreeCount(a)
  {
    if a != [] {
      var n := |a| - 1;
      SameShapeRefs(a[..n], b[..n]);
      assert b[n].(local := a[n].local) == a[n];
    }
  }

  /** Storing colours keeps the accounts. */
  lemma StoringKeepsAccounts(a: Account, s: Values, t: Values, refs: multiset<nat>, others: multiset<nat>)
    requires a.cells == s.cells && Balanced(a) && SameShape(s, t)
    requires PoolOk(s.pool, Refs(s.cells) + others)
    ensures Balanced(a.(cells := t.cells)) && PoolOk(t.pool, Refs(t.cells) + others)
  {
    hide Owned, Refs, FreeCount, Separate;
    SameShapeRefs(s.cells, t.cells);
    StaysSeparate(s.cells, t.cells);
    forall i | 0 <= i < |t.cells| ensures CellOk(t.cells[i], Owned(a.lists)[i]) {
      assert t.cells[i].(local := s.cells[i].local) == s.cells[i];
      assert CellOk(s.cells[i], Owned(a.lists)[i]);
    }
  }

  /** In balanced accounts all shared colours in use exist. */
  lemma AccountsKnow(cells: seq<Entry>, pool: Pool, others: multiset<nat>)
    requires PoolOk(pool, Refs(cells) + others)
    ensures Known(Values(cells, pool))
  {
    hide Refs;
    forall i, ch | 0 <= i < |cells| && cells[i].fShared ensures IdOf(cells[i], ch) in pool {
      OwnId(cells, i, ch);
      assert IdOf(cells[i], ch) in Refs(cells) + others;
    }
  }

  /** Whatever pixels a client frees, no colour changes: a shared colour that is left keeps its value,
      and a cell that is still allocated shows what it did. */
  lemma FreeingKeepsColours(f: Freeing, c: nat, xs: seq<nat>, others: multiset<nat>)
    requires c < |f.account.lists| && Balanced(f.account) && PoolOk(f.pool, Refs(f.account.cells) + others)
    ensures var g := FreeAll(f, c, xs);
            && (forall id :: id in g.pool ==> id in f.pool && g.pool[id].color == f.pool[id].color)
            && forall i :: 0 <= i < |f.account.cells| && g.account.cells[i].refcnt != 0 ==>
                 && f.account.cells[i].refcnt != 0
                 && g.account.cells[i].(refcnt := f.account.cells[i].refcnt) == f.account.cells[i]
                 && (g.account.cells[i].refcnt == ALLOC_PRIVATE <==> f.account.cells[i].refcnt == ALLOC_PRIVATE)
                 && ColourOf(g.account.cells[i], g.pool) == ColourOf(f.account.cells[i], f.pool)
  {
    hide FreeAll, Refs, PoolOk, Known;
    var g := FreeAll(f, c, xs);
    FreeAllKeeps(f, c, xs);
    FreeAllBalances(f, c, xs, others);
    AccountsKnow(g.account.cells, g.pool, others);
    forall i | 0 <= i < |f.account.cells| && g.account.cells[i].refcnt != 0
      ensures && f.account.cells[i].refcnt != 0
              && g.account.cells[i].(refcnt := f.account.cells[i].refcnt) == f.account.cells[i]
              && (g.account.cells[i].refcnt == ALLOC_PRIVATE <==> f.account.cells[i].refcnt == ALLOC_PRIVATE)
              && ColourOf(g.account.cells[i], g.pool) == ColourOf(f.account.cells[i], f.pool)
    {
      KnownColour(Values(g.account.cells, g.pool), f.pool, f.account.cells[i], i);
      assert CellOk(f.account.cells[i], Owned(f.account.lists)[i]);
      assert CellOk(g.account.cells[i], Owned(g.account.lists)[i]);
    }
  }

  /** A cell whose shared colours are known has the colour of any cell like it in any pool that has
      the same values. */
  lemma KnownColour(s: Values, pool: Pool, e: Entry, i: nat)
    requires Known(s) && i < |s.cells|
    requires forall id :: id in s.pool ==> id in pool && s.pool[id].color == pool[id].color
    ensures s.cells[i].local == e.local && s.cells[i].fShared == e.fShared && s.cells[i].shco == e.shco ==>
              ColourOf(s.cells[i], s.pool) == ColourOf(e, pool)
  {
    if s.cells[i].fShared { assert forall ch :: IdOf(s.cells[i], ch) in s.pool; }
  }

  // ---------------------------------------------------------------- the screen

  /** The screen's colours after a change.  A screen that cannot read its own colours takes all three
      channels of a change, any other one only the flagged ones. */
  function Shown(palette: seq<RGB>, item: Item, all: bool): seq<RGB> {
    if item.pixel >= |palette| then palette else palette[item.pixel := Mix(palette[item.pixel], item, all)]
  }

  function Mix(c: RGB, item: Item, all: bool): RGB {
    if all then item.rgb
    else RGB(if item.doRed then item.rgb.red else c.red, if item.doGreen then item.rgb.green else c.green,
             if item.doBlue then item.rgb.blue else c.blue)
  }

  function ShownAll(palette: seq<RGB>, items: seq<Item>, all: bool): (p: seq<RGB>)
    ensures |p| == |palette|
  {
    if items == [] then palette else Shown(ShownAll(palette, items[..|items| - 1], all), items[|items| - 1], all)
  }

  /** The screen shows what QueryColors returns, on every allocated cell. */
  ghost predicate InSync(palette: seq<RGB>, s: Values) {
    && |palette| == |s.cells|
    && forall i :: 0 <= i < |s.cells| && s.cells[i].refcnt != 0 ==> palette[i] == ColourOf(s.cells[i], s.pool)
  }

  /** The change for a cell that shares channels with the stored one. */
  function ChangeFor(t: Values, item: Item, i: nat): Item
    requires item.pixel < |t.cells| && i < |t.cells|
  {
    var e, x := t.cells[i], t.cells[item.pixel];
    Item(i, ColourOf(e, t.pool), item.doRed && e.shco.red == x.shco.red, item.doGreen && e.shco.green == x.shco.green,
         item.doBlue && e.shco.blue == x.shco.blue)
  }

  function NeedsChange(t: Values, item: Item, i: nat): bool
    requires item.pixel < |t.cells| && i < |t.cells|
  {
    var c := ChangeFor(t, item, i);
    t.cells[i].fShared && i != item.pixel && (c.doRed || c.doGreen || c.doBlue)
  }

  /** The changes for the first n cells. */
  function Changes(t: Values, item: Item, n: nat): seq<Item>
    requires item.pixel < |t.cells| && n <= |t.cells|
  {
    if n == 0 then []
    else Changes(t, item, n - 1) + if NeedsChange(t, item, n - 1) then [ChangeFor(t, item, n - 1)] else []
  }

  /** Told are exactly the other cells that share a flagged channel, once each and in ascending order,
      with their colours and just the channels they share. */
  lemma {:induction false} ChangesAre(t: Values, item: Item, n: nat)
    requires item.pixel < |t.cells| && n <= |t.cells| && t.cells[item.pixel].fShared
    ensures var cs := Changes(t, item, n);
            && (forall j, k :: 0 <= j < k < |cs| ==> cs[j].pixel < cs[k].pixel)
            && (forall k :: 0 <= k < |cs| ==> cs[k].pixel < n && TellsShared(t, item, cs[k]))
            && forall i: nat :: i < n && i != item.pixel && SharesSome(t.cells, item, i) ==>
                 exists k :: 0 <= k < |cs| && cs[k].pixel == i
  {
    if n > 0 {
      hide Changes, ColourOf;
      ChangesAre(t, item, n - 1);
      ChangesMore(t, item, n);
      var tl, c := Changes(t, item, n - 1), ChangeFor(t, item, n - 1);
      NeedsIs(t, item, n - 1);
      hide Affects, NeedsChange, ChangeFor, SharesSome, TellsShared;
      var cs := if NeedsChange(t, item, n - 1) then tl + [c] else tl;
      assert Changes(t, item, n) == cs;
      assert forall k :: 0 <= k < |tl| ==> cs[k] == tl[k];
      forall i: nat | i < n && i != item.pixel && SharesSome(t.cells, item, i)
        ensures exists k :: 0 <= k < |cs| && cs[k].pixel == i
      {
        if i < n - 1 {
          var k :| 0 <= k < |tl| && tl[k].pixel == i;
          assert cs[k].pixel == i;
        } else {
          assert cs[|tl|].pixel == i;
        }
      }
    }
  }

  /** A change sent for a cell that shares with the stored one: its colour now, and the flagged
      channels that the two share. */
  ghost predicate TellsShared(t: Values, item: Item, c: Item)
    requires item.pixel < |t.cells|
  {
    && c.pixel < |t.cells| && c.pixel != item.pixel && c.rgb == ColourOf(t.cells[c.pixel], t.pool)
    && forall ch: Channel :: c.Sets(ch) <==> item.Sets(ch) && Affects(t.cells, item.pixel, c.pixel, ch)
  }

  /** Cell i shares a flagged channel with the stored cell. */
  ghost predicate SharesSome(cells: seq<Entry>, item: Item, i: nat)
    requires item.pixel < |cells| && i < |cells|
  {
    exists ch: Channel :: item.Sets(ch) && Affects(cells, item.pixel, i, ch)
  }

  lemma ChangesMore(t: Values, item: Item, n: nat)
    requires item.pixel < |t.cells| && 0 < n <= |t.cells|
    ensures Changes(t, item, n) ==
            Changes(t, item, n - 1) + if NeedsChange(t, item, n - 1) then [ChangeFor(t, item, n - 1)] else []
  {
  }

  lemma NeedsIs(t: Values, item: Item, i: nat)
    requires item.pixel < |t.cells| && i < |t.cells| && t.cells[item.pixel].fShared
    ensures NeedsChange(t, item, i) <==>
            i != item.pixel && SharesSome(t.cells, item, i)
    ensures var c := ChangeFor(t, item, i);
            c.pixel == i && (NeedsChange(t, item, i) ==> TellsShared(t, item, c))
  {
    var c := ChangeFor(t, item, i);
    if NeedsChange(t, item, i) {
      var ch: Channel := if c.doRed then Red else if c.doGreen then Green else Blue;
      assert item.Sets(ch) && Affects(t.cells, item.pixel, i, ch);
    }
    if i != item.pixel && SharesSome(t.cells, item, i) {
      var ch: Channel :| item.Sets(ch) && Affects(t.cells, item.pixel, i, ch);
      assert match ch case Red => c.doRed case Green => c.doGreen case Blue => c.doBlue;
    }
  }

  /** Some flagged channel is shared by another cell, of this map or another one. */
  predicate SharedChange(s: Values, item: Item)
    requires item.pixel < |s.cells|
  {
    || (item.Sets(Red) && HasSharers(s, item.pixel, Red))
    || (item.Sets(Green) && HasSharers(s, item.pixel, Green))
    || (item.Sets(Blue) && HasSharers(s, item.pixel, Blue))
  }

  predicate HasSharers(s: Values, x: nat, ch: Channel)
    requires x < |s.cells|
  {
    var e := s.cells[x];
    e.fShared && IdOf(e, ch) in s.pool && s.pool[IdOf(e, ch)].refcnt > 1
  }

  lemma SharersSame(s: Values, t: Values, x: nat, ch: Channel)
    requires SameShape(s, t) && x < |s.cells|
    ensures HasSharers(t, x, ch) == HasSharers(s, x, ch)
  {
    SameCell(s, t, x);
  }

  lemma ShownAllMore(palette: seq<RGB>, items: seq<Item>, item: Item, all: bool)
    ensures ShownAll(palette, items + [item], all) == Shown(ShownAll(palette, items, all), item, all)
  {
    assert (items + [item])[..|items|] == items;
  }

  lemma SameCell(s: Values, t: Values, i: nat)
    requires SameShape(s, t) && i < |s.cells|
    ensures var a, b := s.cells[i], t.cells[i]; b.refcnt == a.refcnt && b.fShared == a.fShared && b.shco == a.shco
  {
    assert t.cells[i].(local := s.cells[i].local) == s.cells[i];
  }

  lemma ChannelStored(s: Values, t: Values, item: Item, rgb: RGB, i: nat, ch: Channel)
    requires |t.cells| == |s.cells| && item.pixel < |s.cells| && i < |s.cells| && StoredAs(s, t, item, rgb)
    ensures Colour(t.cells[i], t.pool, ch) ==
            if item.Sets(ch) && Affects(s.cells, item.pixel, i, ch) then Get(rgb, ch)
              else Colour(s.cells[i], s.pool, ch)
  {
  }

  lemma TwoOfOne(a: multiset<nat>, e: multiset<nat>, id: nat)
    requires id in a && id in e
    ensures (a + e)[id] > 1
  {
  }

  lemma OwnId(cells: seq<Entry>, i: nat, ch: Channel)
    requires i < |cells| && cells[i].fShared
    ensures IdOf(cells[i], ch) in RefsOf(cells[i]) && IdOf(cells[i], ch) in Refs(cells)
  {
    hide Refs;
    RefsUpdate(cells, i, cells[i]);
    assert IdOf(cells[i], ch) in RefsOf(cells[i]);
  }

  /** A colour that two cells of the map point at counts at least two. */
  lemma {:induction false} TwoPointers(cells: seq<Entry>, i: nat, j: nat, ch: Channel)
    requires i < j < |cells| && cells[i].fShared && cells[j].fShared && IdOf(cells[i], ch) == IdOf(cells[j], ch)
    ensures Refs(cells)[IdOf(cells[i], ch)] > 1
  {
    hide RefsOf;
    var n := |cells| - 1;
    if j == n {
      OwnId(cells[..n], i, ch);
      OwnId(cells, n, ch);
      TwoOfOne(Refs(cells[..n]), RefsOf(cells[n]), IdOf(cells[i], ch));
    } else {
      TwoPointers(cells[..n], i, j, ch);
    }
  }

  lemma SharersCount(s: Values, x: nat, i: nat, ch: Channel, others: multiset<nat>)
    requires PoolOk(s.pool, Refs(s.cells) + others) && x < |s.cells| && i < |s.cells| && i != x
    requires Affects(s.cells, x, i, ch)
    ensures s.cells[x].fShared && IdOf(s.cells[x], ch) in s.pool && s.pool[IdOf(s.cells[x], ch)].refcnt > 1
  {
    hide Refs;
    TwoPointers(s.cells, if i < x then i else x, if i < x then x else i, ch);
    assert (Refs(s.cells) + others)[IdOf(s.cells[x], ch)] > 1;
  }

  /** If no flagged channel's colour counts more than one pointer, no other cell changes. */
  lemma NobodyShares(s: Values, item: Item, i: nat, ch: Channel, others: multiset<nat>)
    requires PoolOk(s.pool, Refs(s.cells) + others) && item.pixel < |s.cells| && i < |s.cells| && i != item.pixel
    requires !SharedChange(s, item) && item.Sets(ch)
    ensures !Affects(s.cells, item.pixel, i, ch)
  {
    hide PoolOk, Refs;
    if Affects(s.cells, item.pixel, i, ch) { SharersCount(s, item.pixel, i, ch, others); }
  }

  lemma SharedChangeSame(s: Values, t: Values, item: Item)
    requires SameShape(s, t) && item.pixel < |s.cells|
    ensures SharedChange(t, item) == SharedChange(s, item)
  {
    SharersSame(s, t, item.pixel, Red);
    SharersSame(s, t, item.pixel, Green);
    SharersSame(s, t, item.pixel, Blue);
  }

  /** The three writes of a definition, and the colour read back after each. */
  lemma ThreeWrites(s: Values, item: Item, rgb: RGB)
    requires item.pixel < |s.cells| && Known(s) && Separate(s.cells)
    ensures var x := item.pixel;
            var t1 := Write(s, item, Red, rgb);
            |t1.cells| == |s.cells| && Known(t1) && HasSharers(t1, x, Green) == HasSharers(s, x, Green) &&
            var t2 := Write(t1, item, Green, rgb);
            |t2.cells| == |s.cells| && Known(t2) && HasSharers(t2, x, Blue) == HasSharers(s, x, Blue) &&
            var t3 := Write(t2, item, Blue, rgb);
            && |t3.cells| == |s.cells| && t3 == StoreOne(s, item, rgb) && Known(t3)
            && (SharedChange(t3, item) <==>
                (item.Sets(Red) && HasSharers(s, x, Red)) || (item.Sets(Green) && HasSharers(s, x, Green)) ||
                                            (item.Sets(Blue) && HasSharers(s, x, Blue)))
            && ColourOf(t3.cells[x], t3.pool) ==
               RGB(Colour(t1.cells[x], t1.pool, Red), Colour(t2.cells[x], t2.pool, Green),
                   Colour(t3.cells[x], t3.pool, Blue))
  {
    hide Known, Separate, SameShape, Affects, Colour, Write, HasSharers;
    var x := item.pixel;
    var t1 := Write(s, item, Red, rgb);
    WriteChanges(s, item, Red, rgb);
    SameShapeSize(s, t1);
    SharersSame(s, t1, x, Green);
    var t2 := Write(t1, item, Green, rgb);
    WriteChanges(t1, item, Green, rgb);
    SameShapeSize(t1, t2);
    SameShapeTwice(s, t1, t2);
    SharersSame(s, t2, x, Blue);
    var t3 := Write(t2, item, Blue, rgb);
    WriteChanges(t2, item, Blue, rgb);
    SameShapeSize(t2, t3);
    SameShapeTwice(s, t2, t3);
    SharersSame(s, t3, x, Red);
    SharersSame(s, t3, x, Green);
    SharersSame(s, t3, x, Blue);
  }

  lemma StoreAllMore(s: Values, items: seq<Item>, n: nat, resolve: RGB -> RGB)
    requires n < |items|
    ensures var t := StoreAll(s, items[..n], resolve);
            StoreAll(s, items[..n + 1], resolve) ==
            if Accepted(t.cells, items[n]) then StoreOne(t, items[n], resolve(items[n].rgb)) else t
    ensures Verdict(s.cells, items[..n + 1]) ==
            if Accepted(s.cells, items[n]) then Verdict(s.cells, items[..n])
            else if items[n].pixel >= |s.cells| then BadValue else BadAccess
  {
    assert items[..n + 1][..n] == items[..n];
  }

  lemma AcceptedIs(s: Values, item: Item)
    ensures Accepted(s.cells, item) <==> item.pixel < |s.cells| && s.cells[item.pixel].refcnt == ALLOC_PRIVATE
  {
  }

  /** The colour a definition asks for does not matter once the screen's version of it is given. */
  lemma Recoloured(s: Values, item: Item, c: RGB)
    requires item.pixel < |s.cells|
    ensures StoreOne(s, item.(rgb := c), c) == StoreOne(s, item, c)
  {
  }

  lemma {:induction false} ChangesRecoloured(t: Values, item: Item, c: RGB, n: nat)
    requires item.pixel < |t.cells| && n <= |t.cells|
    ensures Changes(t, item.(rgb := c), n) == Changes(t, item, n)
  {
    if n > 0 { ChangesRecoloured(t, item, c, n - 1); }
  }

  lemma StoreAllNone(s: Values, resolve: RGB -> RGB)
    ensures StoreAll(s, [], resolve) == s && Verdict(s.cells, []) == Success
  {
  }

  // ---------------------------------------------------------------- several definitions

  /** What the screen is told while a request is carried out: the cells that share a changed channel. */
  ghost function ToldAtOnce(s: Values, items: seq<Item>, resolve: RGB -> RGB): seq<Item> {
    if items == [] then []
    else
      var before, item := items[..|items| - 1], items[|items| - 1];
      ToldAtOnce(s, before, resolve) + SharersOf(StoreAll(s, before, resolve), item, resolve(item.rgb))
  }

  ghost function SharersOf(t: Values, item: Item, rgb: RGB): seq<Item> {
    if !Accepted(t.cells, item) then []
    else
      var u := StoreOne(t, item, rgb);
      if |u.cells| == |t.cells| && SharedChange(u, item) then Changes(u, item, |u.cells|) else []
  }

  /** What the screen is told at the end: the accepted definitions, with all channels filled in as
      long as none was refused before; the others are sent just as they came in. */
  ghost function ToldAtEnd(s: Values, items: seq<Item>, resolve: RGB -> RGB): seq<Item> {
    if items == [] then []
    else
      var before, item := items[..|items| - 1], items[|items| - 1];
      ToldAtEnd(s, before, resolve) +
        OwnOf(StoreAll(s, before, resolve), item, resolve(item.rgb), |ToldAtEnd(s, before, resolve)| == |before|)
  }

  ghost function OwnOf(t: Values, item: Item, rgb: RGB, filled: bool): seq<Item> {
    if !Accepted(t.cells, item) then []
    else
      var u := StoreOne(t, item, rgb);
      if filled && |u.cells| == |t.cells| then [item.(rgb := ColourOf(u.cells[item.pixel], u.pool))] else [item]
  }

  lemma ToldMore(s: Values, items: seq<Item>, n: nat, resolve: RGB -> RGB)
    requires n < |items|
    ensures var t, item := StoreAll(s, items[..n], resolve), items[n];
            && ToldAtOnce(s, items[..n + 1], resolve) == ToldAtOnce(s, items[..n], resolve) +
               SharersOf(t, item, resolve(item.rgb))
            && ToldAtEnd(s, items[..n + 1], resolve) ==
               ToldAtEnd(s, items[..n], resolve) +
                 OwnOf(t, item, resolve(item.rgb), |ToldAtEnd(s, items[..n], resolve)| == n)
    ensures ToldAtOnce(s, [], resolve) == [] == ToldAtEnd(s, [], resolve)
  {
    assert items[..n + 1][..n] == items[..n];
  }

  lemma ToldNone(s: Values, resolve: RGB -> RGB)
    ensures ToldAtOnce(s, [], resolve) == [] == ToldAtEnd(s, [], resolve)
  {
  }

  /** An accepted definition whose colour is already the screen's. */
  lemma SentIs(t: Values, item: Item, c: RGB, filled: bool)
    requires Accepted(t.cells, item) && |StoreOne(t, item, c).cells| == |t.cells|
    ensures var u, i := StoreOne(t, item, c), item.(rgb := c);
            && SharersOf(t, item, c) == (if SharedChange(u, i) then Changes(u, i, |u.cells|) else [])
            && OwnOf(t, item, c, filled) == [if filled then i.(rgb := ColourOf(u.cells[item.pixel], u.pool)) else item]
  {
    var u := StoreOne(t, item, c);
    ChangesRecoloured(u, item, c, |u.cells|);
  }

  lemma NothingSent(t: Values, item: Item, c: RGB, filled: bool)
    requires !Accepted(t.cells, item)
    ensures SharersOf(t, item, c) == [] == OwnOf(t, item, c, filled)
  {
  }

  /** All allocated cells below n with their colours. */
  function Refresh(s: Values, n: nat): seq<Item>
    requires n <= |s.cells|
  {
    if n == 0 then []
    else
      var e := s.cells[n - 1];
      Refresh(s, n - 1) + if e.refcnt == 0 then [] else [Item(n - 1, ColourOf(e, s.pool), true, true, true)]
  }

  /** A refresh sends exactly the allocated cells, once each and in ascending order. */
  lemma {:induction false} RefreshIs(s: Values, n: nat)
    requires n <= |s.cells|
    ensures var cs := Refresh(s, n);
            && (forall j, k :: 0 <= j < k < |cs| ==> cs[j].pixel < cs[k].pixel)
            && (forall k :: 0 <= k < |cs| ==>
                  && cs[k].pixel < n && s.cells[cs[k].pixel].refcnt != 0
                  && cs[k] == Item(cs[k].pixel, ColourOf(s.cells[cs[k].pixel], s.pool), true, true, true))
            && forall i: nat :: i < n && s.cells[i].refcnt != 0 ==> exists k :: 0 <= k < |cs| && cs[k].pixel == i
  {
    if n > 0 {
      hide ColourOf;
      RefreshIs(s, n - 1);
      var tl, cs := Refresh(s, n - 1), Refresh(s, n);
      assert forall k :: 0 <= k < |tl| ==> cs[k] == tl[k];
      if s.cells[n - 1].refcnt != 0 { assert cs[|tl|].pixel == n - 1; }
    }
  }

  /** Whatever the screen showed, telling it all allocated cells brings it up to date. */
  lemma {:induction false} RefreshShows(palette: seq<RGB>, s: Values, n: nat, all: bool)
    requires |palette| == |s.cells| && n <= |s.cells|
    ensures var p := ShownAll(palette, Refresh(s, n), all);
            forall i :: 0 <= i < n && s.cells[i].refcnt != 0 ==> p[i] == ColourOf(s.cells[i], s.pool)
    ensures n == |s.cells| ==> InSync(ShownAll(palette, Refresh(s, n), all), s)
  {
    if n > 0 {
      RefreshShows(palette, s, n - 1, all);
      var e := s.cells[n - 1];
      if e.refcnt != 0 {
        ShownAllMore(palette, Refresh(s, n - 1), Item(n - 1, ColourOf(e, s.pool), true, true, true), all);
      } else {
        assert Refresh(s, n) == Refresh(s, n - 1);
      }
    }
  }

  /** A free cell taken into use for a read-only colour: telling the screen about this one cell keeps
      it up to date. */
  lemma NewCellShown(palette: seq<RGB>, s: Values, x: nat, e: Entry, all: bool)
    requires InSync(palette, s) && x < |s.cells| && !e.fShared
    ensures InSync(Shown(palette, Item(x, e.local, true, true, true), all), s.(cells := s.cells[x := e]))
  {
  }

  lemma SharedHere(s: Values, item: Item)
    requires item.pixel < |s.cells| && SharedChange(s, item)
    ensures s.cells[item.pixel].fShared
  {
  }
}
