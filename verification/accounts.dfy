/**
 The accounts of a colormap: reference counts, free count, client pixel lists and shared colours
 (dix/colormap.c), as values, with the effect of freeing one cell.
 */
module Accounts {
  import opened Bits
  import opened PlaneMasks
  import opened Cells
  import opened Common

  /** Reference counts are C shorts. */
  const SHORT_MAX := 32767

  /** A colour shared by the cells of AllocColorPlanes, with the number of cells pointing at it. */
  datatype SharedColor = SharedColor(color: nat, refcnt: int)

  type Pool = map<nat, SharedColor>

  /** The cells, the count of free ones and every client's pixel list. */
  datatype Account = Account(cells: seq<Entry>, free: int, lists: seq<seq<nat>>)

  // ---------------------------------------------------------------- the invariant

  /** How often each pixel occurs on the clients' lists together. */
  ghost function Owned(lists: seq<seq<nat>>): multiset<nat> {
    if lists == [] then multiset{} else multiset(lists[0]) + Owned(lists[1..])
  }

  ghost predicate CellOk(e: Entry, owners: nat) {
    && ALLOC_PRIVATE <= e.refcnt <= SHORT_MAX
    && (e.fShared ==> e.refcnt == ALLOC_PRIVATE)
    && (e.refcnt == 0 ==> owners == 0)
    && (e.refcnt == ALLOC_PRIVATE ==> owners == 1)
    && (e.refcnt > 0 ==> owners == e.refcnt)
  }

  /** The accounts agree: the free count is the number of free cells, a private cell is on the lists
      exactly once, a cell in use as often as it counts, and a free cell not at all. */
  ghost predicate Balanced(a: Account) {
    && a.free == FreeCount(a.cells)
    && (forall i :: 0 <= i < |a.cells| ==> CellOk(a.cells[i], Owned(a.lists)[i]))
    && (forall p: nat :: p in Owned(a.lists) ==> p < |a.cells|)
    && Separate(a.cells)
  }

  datatype Channel = Red | Green | Blue

  function IdOf(e: Entry, ch: Channel): nat {
    match ch case Red => e.shco.red case Green => e.shco.green case Blue => e.shco.blue
  }

  /** A shared colour serves one channel only. */
  ghost predicate Separate(cells: seq<Entry>) {
    forall i, j, ch, dh ::
      (0 <= i < |cells| && 0 <= j < |cells| && cells[i].fShared && cells[j].fShared &&
       IdOf(cells[i], ch) == IdOf(cells[j], dh)) ==>
        ch == dh
  }

  lemma StaysSeparate(cells: seq<Entry>, cells': seq<Entry>)
    requires Separate(cells) && |cells'| == |cells|
    requires forall i :: 0 <= i < |cells'| && cells'[i].fShared ==> cells[i].fShared && cells[i].shco == cells'[i].shco
    ensures Separate(cells')
  {
    forall i, j, ch: Channel, dh: Channel
      | 0 <= i < |cells| && 0 <= j < |cells| && cells'[i].fShared && cells'[j].fShared &&
        IdOf(cells'[i], ch) == IdOf(cells'[j], dh)
      ensures ch == dh
    {
      assert IdOf(cells[i], ch) == IdOf(cells[j], dh);
    }
  }

  ghost function RefsOf(e: Entry): multiset<nat> {
    if e.fShared then multiset{e.shco.red} + multiset{e.shco.green} + multiset{e.shco.blue} else multiset{}
  }

  /** How often each shared colour is pointed at. */
  ghost function Refs(cells: seq<Entry>): multiset<nat> {
    if cells == [] then multiset{} else Refs(cells[..|cells| - 1]) + RefsOf(cells[|cells| - 1])
  }

  /** Exactly the colours pointed at exist, each counting its pointers. */
  ghost predicate PoolOk(pool: Pool, refs: multiset<nat>) {
    && (forall id :: id in pool <==> id in refs)
    && (forall id :: id in pool ==> pool[id].refcnt == refs[id])
  }

  /** A cell of a new map. */
  const BLANK_CELL := Entry(0, false, RGB(0, 0, 0), SharedIds(0, 0, 0))

  /** A map as it is created: all cells free, or all of them private to one client. */
  function NewAccount(size: nat, clients: nat, all: bool, c: nat): Account
    requires c < clients
  {
    var entry := if all then BLANK_CELL.(refcnt := ALLOC_PRIVATE) else BLANK_CELL;
    var none := seq(clients, _ => []);
    Account(seq(size, _ => entry), if all then 0 else size, if all then none[c := seq(size, i => i)] else none)
  }

  // ---------------------------------------------------------------- freeing one cell

  /** Drops one pointer; the last one frees the colour. */
  function Drop(pool: Pool, id: nat): Pool
    requires id in pool
  {
    if pool[id].refcnt - 1 == 0 then pool - {id} else pool[id := pool[id].(refcnt := pool[id].refcnt - 1)]
  }

  function FreedCell(e: Entry): Entry {
    if e.refcnt > 1 then e.(refcnt := e.refcnt - 1) else e.(refcnt := 0, fShared := false)
  }

  /** The pool after a cell is freed. */
  ghost function PoolAfter(pool: Pool, e: Entry): Pool {
    if e.refcnt > 1 || !e.fShared then pool
    else
      var p1 := if e.shco.red in pool then Drop(pool, e.shco.red) else pool;
      var p2 := if e.shco.green in p1 then Drop(p1, e.shco.green) else p1;
      if e.shco.blue in p2 then Drop(p2, e.shco.blue) else p2
  }

  /** Client c gives up one occurrence of pixel x. */
  ghost function GiveUp(a: Account, c: nat, x: nat): Account
    requires c < |a.lists| && x < |a.cells|
  {
    var e := a.cells[x];
    Account(a.cells[x := FreedCell(e)], if e.refcnt > 1 then a.free else a.free + 1,
            a.lists[c := WithoutFirst(a.lists[c], x)])
  }

  lemma {:induction false} FreeCountUpdate(cells: seq<Entry>, i: nat, e: Entry)
    requires i < |cells|
    ensures FreeCount(cells[i := e]) ==
            FreeCount(cells) - (if cells[i].refcnt == 0 then 1 else 0) + (if e.refcnt == 0 then 1 else 0)
  {
    var n := |cells| - 1;
    if i == n {
      assert cells[i := e][..n] == cells[..n];
    } else {
      FreeCountUpdate(cells[..n], i, e);
      assert cells[i := e][..n] == cells[..n][i := e];
    }
  }

  lemma Exchange(a: multiset<nat>, b: multiset<nat>, x: multiset<nat>, y: multiset<nat>)
    requires x <= a
    ensures x <= a + b && (a - x + y) + b == (a + b) - x + y
  {
  }

  lemma RefsLast(cells: seq<Entry>)
    requires cells != []
    ensures Refs(cells) == Refs(cells[..|cells| - 1]) + RefsOf(cells[|cells| - 1])
  {
  }

  lemma {:induction false} RefsUpdate(cells: seq<Entry>, i: nat, e: Entry)
    requires i < |cells|
    ensures RefsOf(cells[i]) <= Refs(cells)
    ensures Refs(cells[i := e]) == Refs(cells) - RefsOf(cells[i]) + RefsOf(e)
  {
    hide RefsOf, Refs;
    var n := |cells| - 1;
    RefsLast(cells);
    RefsLast(cells[i := e]);
    if i == n {
      assert cells[i := e][..n] == cells[..n];
    } else {
      RefsUpdate(cells[..n], i, e);
      assert cells[i := e][..n] == cells[..n][i := e];
      Exchange(Refs(cells[..n]), RefsOf(cells[n]), RefsOf(cells[i]), RefsOf(e));
    }
  }

  lemma Exchanged(h: multiset<nat>, o: multiset<nat>, x: multiset<nat>, y: multiset<nat>)
    requires x <= o
    ensures h + (o - x + y) == h + o - x + y && x <= h + o
  {
  }

  lemma {:induction false} OwnedUpdate(lists: seq<seq<nat>>, c: nat, list: seq<nat>)
    requires c < |lists|
    ensures multiset(lists[c]) <= Owned(lists)
    ensures Owned(lists[c := list]) == Owned(lists) - multiset(lists[c]) + multiset(list)
  {
    if c == 0 {
      assert lists[c := list][1..] == lists[1..];
    } else {
      OwnedUpdate(lists[1..], c - 1, list);
      assert lists[c := list][1..] == lists[1..][c - 1 := list];
      Exchanged(multiset(lists[0]), Owned(lists[1..]), multiset(lists[c]), multiset(list));
    }
  }

  lemma {:induction false} WithoutFirstTakesOne(list: seq<nat>, x: nat)
    requires x in list
    ensures multiset(WithoutFirst(list, x)) == multiset(list) - multiset{x}
    ensures |WithoutFirst(list, x)| == |list| - 1
  {
    assert list == [list[0]] + list[1..];
    if list[0] != x { WithoutFirstTakesOne(list[1..], x); }
  }

  lemma DropKeepsPool(pool: Pool, refs: multiset<nat>, id: nat)
    requires PoolOk(pool, refs) && id in refs
    ensures id in pool && PoolOk(Drop(pool, id), refs - multiset{id})
  {
  }

  lemma TakeOne(refs: multiset<nat>, x: nat, rest: multiset<nat>)
    requires multiset{x} + rest <= refs
    ensures x in refs && rest <= refs - multiset{x}
    ensures refs - multiset{x} - rest == refs - (multiset{x} + rest)
  {
    assert refs[x] >= (multiset{x} + rest)[x];
  }

  lemma DropThree(pool: Pool, refs: multiset<nat>, r: nat, g: nat, b: nat)
    requires PoolOk(pool, refs) && multiset{r} + multiset{g} + multiset{b} <= refs
    ensures r in pool && g in Drop(pool, r) && b in Drop(Drop(pool, r), g)
    ensures PoolOk(Drop(Drop(Drop(pool, r), g), b), refs - (multiset{r} + multiset{g} + multiset{b}))
  {
    hide Drop, PoolOk;
    assert multiset{r} + multiset{g} + multiset{b} == multiset{r} + (multiset{g} + multiset{b});
    TakeOne(refs, r, multiset{g} + multiset{b});
    var refs1 := refs - multiset{r};
    TakeOne(refs1, g, multiset{b});
    var refs2 := refs1 - multiset{g};
    DropKeepsPool(pool, refs, r);
    DropKeepsPool(Drop(pool, r), refs1, g);
    DropKeepsPool(Drop(Drop(pool, r), g), refs2, b);
  }

  /** Freeing a cell keeps the shared colours right: each loses the pointer, and the colour goes
      with its last one. */
  lemma PoolAfterOk(pool: Pool, e: Entry, refs: multiset<nat>)
    requires PoolOk(pool, refs) && RefsOf(e) <= refs
    requires e.fShared ==> e.refcnt == ALLOC_PRIVATE
    ensures PoolOk(PoolAfter(pool, e), refs - RefsOf(e) + RefsOf(FreedCell(e)))
  {
    if e.fShared {
      hide Drop, PoolOk;
      DropThree(pool, refs, e.shco.red, e.shco.green, e.shco.blue);
      assert refs - RefsOf(e) + RefsOf(FreedCell(e)) == refs - RefsOf(e);
    } else {
      assert refs - RefsOf(e) + RefsOf(FreedCell(e)) == refs;
    }
  }

  /** Giving up a pixel keeps the accounts balanced. */
  lemma GiveUpBalances(a: Account, c: nat, x: nat)
    requires Balanced(a) && c < |a.lists| && x in a.lists[c]
    ensures x < |a.cells| && Balanced(GiveUp(a, c, x))
  {
    hide FreeCount, Owned, WithoutFirst, Separate, CellOk, FreedCell;
    OwnedUpdate(a.lists, c, WithoutFirst(a.lists[c], x));
    WithoutFirstTakesOne(a.lists[c], x);
    assert x in multiset(a.lists[c]) && x in Owned(a.lists);
    var b, o, o' := GiveUp(a, c, x), Owned(a.lists), Owned(GiveUp(a, c, x).lists);
    OneFewer(o, multiset(a.lists[c]), x, o');
    FreeCountUpdate(a.cells, x, FreedCell(a.cells[x]));
    GivenUpCell(a.cells[x], o[x]);
    StaysSeparate(a.cells, b.cells);
    forall i | 0 <= i < |b.cells| ensures CellOk(b.cells[i], o'[i]) {
      if i != x { assert CellOk(a.cells[i], o[i]); }
    }
  }

  lemma GivenUpCell(e: Entry, owners: nat)
    requires CellOk(e, owners) && owners > 0
    ensures e.refcnt != 0 && (FreedCell(e).refcnt == 0 <==> e.refcnt <= 1) && CellOk(FreedCell(e), owners - 1)
    ensures FreedCell(e).fShared ==> e.fShared && FreedCell(e).shco == e.shco
  {
  }

  lemma OneFewer(o: multiset<nat>, m: multiset<nat>, x: nat, o': multiset<nat>)
    requires m <= o && x in m && o' == o - m + (m - multiset{x})
    ensures o'[x] == o[x] - 1 && forall y :: y != x ==> o'[y] == o[y]
  {
    assert o[x] >= m[x];
    forall y | y != x ensures o'[y] == o[y] { assert m[y] <= o[y]; }
  }

  /** Giving up a pixel keeps the shared colours right, `others` being pointers from elsewhere. */
  lemma GiveUpKeepsPool(a: Account, pool: Pool, others: multiset<nat>, c: nat, x: nat)
    requires Balanced(a) && PoolOk(pool, Refs(a.cells) + others)
    requires c < |a.lists| && x < |a.cells|
    ensures PoolOk(PoolAfter(pool, a.cells[x]), Refs(GiveUp(a, c, x).cells) + others)
  {
    hide PoolOk, PoolAfter, RefsOf;
    var e := a.cells[x];
    assert CellOk(e, Owned(a.lists)[x]);
    RefsUpdate(a.cells, x, FreedCell(e));
    Exchange(Refs(a.cells), others, RefsOf(e), RefsOf(FreedCell(e)));
    PoolAfterOk(pool, e, Refs(a.cells) + others);
  }

  // ---------------------------------------------------------------- FreeColors

  datatype Code = Success | BadValue | BadAccess | BadAlloc

  datatype Freeing = Freeing(account: Account, pool: Pool, result: Code)

  /** The pixels a request names, in the order they are freed: for every submask of the mask, every
      base pixel with those bits. */
  ghost function Requests(pixels: seq<nat>, mask: nat, n: nat): seq<nat> {
    if n == 0 then [] else Requests(pixels, mask, n - 1) + WithBits(pixels, Submask(n - 1, mask))
  }

  ghost function WithBits(pixels: seq<nat>, bits: nat): seq<nat> {
    seq(|pixels|, i requires 0 <= i < |pixels| => Or(pixels[i], bits))
  }

  /** One pixel named by client c: given up, or an error that does not stop the rest. */
  ghost function FreeOne(f: Freeing, c: nat, x: nat): Freeing
    requires c < |f.account.lists|
  {
    if x >= |f.account.cells| then f.(result := BadValue)
    else if x !in f.account.lists[c] then f.(result := BadAccess)
    else Freeing(GiveUp(f.account, c, x), PoolAfter(f.pool, f.account.cells[x]), f.result)
  }

  ghost function FreeAll(f: Freeing, c: nat, xs: seq<nat>): (g: Freeing)
    requires c < |f.account.lists|
    ensures |g.account.lists| == |f.account.lists| && |g.account.cells| == |f.account.cells|
    ensures forall d :: 0 <= d < |f.account.lists| && d != c ==> g.account.lists[d] == f.account.lists[d]
  {
    if xs == [] then f else FreeOne(FreeAll(f, c, xs[..|xs| - 1]), c, xs[|xs| - 1])
  }

  /** Freeing any pixels, the client's or not, keeps the accounts and the shared colours right. */
  lemma {:induction false} FreeAllBalances(f: Freeing, c: nat, xs: seq<nat>, others: multiset<nat>)
    requires c < |f.account.lists| && Balanced(f.account) && PoolOk(f.pool, Refs(f.account.cells) + others)
    ensures var g := FreeAll(f, c, xs); Balanced(g.account) && PoolOk(g.pool, Refs(g.account.cells) + others)
  {
    if xs != [] {
      hide Balanced, PoolOk, Refs, PoolAfter, GiveUp;
      FreeAllBalances(f, c, xs[..|xs| - 1], others);
      var g, x := FreeAll(f, c, xs[..|xs| - 1]), xs[|xs| - 1];
      if x < |g.account.cells| && x in g.account.lists[c] {
        GiveUpBalances(g.account, c, x);
        GiveUpKeepsPool(g.account, g.pool, others, c, x);
      }
    }
  }

  /** Freeing changes no colour: a shared colour that is left has the value it had, a cell that is
      still allocated keeps everything but its count, and stays private or in use. */
  lemma {:induction false} FreeAllKeeps(f: Freeing, c: nat, xs: seq<nat>)
    requires c < |f.account.lists|
    ensures var g := FreeAll(f, c, xs);
            && (forall id :: id in g.pool ==> id in f.pool && g.pool[id].color == f.pool[id].color)
            && (forall i :: 0 <= i < |f.account.cells| && g.account.cells[i].refcnt != 0 ==>
                  var e, e' := f.account.cells[i], g.account.cells[i];
                  && e'.local == e.local && e'.fShared == e.fShared && e'.shco == e.shco
                  && (e' == e || 0 < e'.refcnt < e.refcnt))
  {
    if xs != [] {
      hide FreedCell, PoolAfter, WithoutFirst;
      FreeAllKeeps(f, c, xs[..|xs| - 1]);
      var g, x := FreeAll(f, c, xs[..|xs| - 1]), xs[|xs| - 1];
      if x < |g.account.cells| { FreedKeeps(g.account.cells[x], g.pool); }
    }
  }

  lemma FreedKeeps(e: Entry, pool: Pool)
    ensures FreedCell(e).refcnt == 0 ||
            (e.refcnt > 1 && FreedCell(e) == Entry(e.refcnt - 1, e.fShared, e.local, e.shco))
    ensures forall id :: id in PoolAfter(pool, e) ==> id in pool && PoolAfter(pool, e)[id].color == pool[id].color
  {
  }

  /** The error of the last request that is refused: for a pixel outside the map, or for one that
      the client did not own or was named more often than it owned it. */
  ghost function LastRefusal(list: seq<nat>, size: nat, xs: seq<nat>): Code {
    if xs == [] then Success
    else
      var n, x := |xs| - 1, xs[|xs| - 1];
      if x >= size then BadValue
      else if multiset(xs[..n])[x] >= multiset(list)[x] then BadAccess
      else LastRefusal(list, size, xs[..n])
  }

  /** What a client owns of each pixel after freeing is what it owned less what it named. */
  lemma {:induction false} FreeAllTakes(f: Freeing, c: nat, xs: seq<nat>)
    requires c < |f.account.lists| && f.result == Success
    requires forall p: nat :: p in f.account.lists[c] ==> p < |f.account.cells|
    ensures var g, list := FreeAll(f, c, xs), f.account.lists[c];
            && multiset(g.account.lists[c]) == multiset(list) - multiset(xs)
            && g.result == LastRefusal(list, |f.account.cells|, xs)
            && (g.result == Success <==> multiset(xs) <= multiset(list))
  {
    var list := f.account.lists[c];
    hide FreeAll, FreeOne, WithoutFirst, LastRefusal;
    if xs == [] {
      FreeAllOneMore(f, c, [], 0);
      RefusedMore(list, |f.account.cells|, [], 0);
    } else {
      var ys, x := xs[..|xs| - 1], xs[|xs| - 1];
      assert xs == ys + [x];
      FreeAllTakes(f, c, ys);
      var g := FreeAll(f, c, ys);
      assert x in multiset(list) <==> x in list;
      TakesOneMore(g, multiset(list), multiset(ys), c, x);
      RefusedMore(list, |f.account.cells|, ys, x);
      FreeAllOneMore(f, c, ys, x);
      assert multiset(xs) == multiset(ys) + multiset{x};
    }
  }

  lemma TakesOneMore(f: Freeing, mine: multiset<nat>, asked: multiset<nat>, c: nat, x: nat)
    requires c < |f.account.lists| && multiset(f.account.lists[c]) == mine - asked
    requires x >= |f.account.cells| ==> x !in mine
    ensures var g := FreeOne(f, c, x);
            && |g.account.lists| == |f.account.lists|
            && multiset(g.account.lists[c]) == mine - (asked + multiset{x})
            && g.result == (if x >= |f.account.cells| then BadValue else if asked[x] >= mine[x] then BadAccess
                            else f.result)
    ensures asked + multiset{x} <= mine <==> asked <= mine && asked[x] < mine[x]
  {
    var l := f.account.lists[c];
    AskedOneMore(mine, asked, x);
    assert x in l <==> multiset(l)[x] > 0;
    FreeOneTakes(f, c, x);
    if x in l { WithoutFirstTakesOne(l, x); }
  }

  lemma RefusedMore(list: seq<nat>, size: nat, xs: seq<nat>, x: nat)
    ensures LastRefusal(list, size, []) == Success
    ensures LastRefusal(list, size, xs + [x]) ==
            if x >= size then BadValue
            else if multiset(xs)[x] >= multiset(list)[x] then BadAccess
            else LastRefusal(list, size, xs)
  {
    assert (xs + [x])[..|xs|] == xs;
  }

  lemma AskedOneMore(mine: multiset<nat>, asked: multiset<nat>, x: nat)
    ensures mine - (asked + multiset{x}) == if (mine - asked)[x] > 0 then mine - asked - multiset{x} else mine - asked
    ensures (mine - asked)[x] > 0 <==> asked[x] < mine[x]
    ensures asked + multiset{x} <= mine <==> asked <= mine && asked[x] < mine[x]
  {
    var all := asked + multiset{x};
    if all <= mine {
      assert all[x] <= mine[x];
      forall y | y in asked ensures asked[y] <= mine[y] { assert all[y] <= mine[y]; }
    }
    if asked <= mine && asked[x] < mine[x] {
      forall y | y in all ensures all[y] <= mine[y] { assert asked[y] <= mine[y]; }
    }
  }

  lemma FreeOneTakes(f: Freeing, c: nat, x: nat)
    requires c < |f.account.lists|
    ensures var g, l := FreeOne(f, c, x), f.account.lists[c];
            && |g.account.cells| == |f.account.cells| && |g.account.lists| == |f.account.lists|
            && g.account.lists[c] == (if x < |f.account.cells| && x in l then WithoutFirst(l, x) else l)
            && g.result == if x >= |f.account.cells| then BadValue else if x !in l then BadAccess else f.result
  {
  }

  lemma ListsInside(a: Account, c: nat)
    requires Balanced(a) && c < |a.lists|
    ensures forall p: nat :: p in a.lists[c] ==> p < |a.cells|
  {
    hide FreeCount, Separate, CellOk, Owned;
    OwnedUpdate(a.lists, c, a.lists[c]);
    forall p: nat | p in a.lists[c] ensures p < |a.cells| {
      assert p in multiset(a.lists[c]);
      assert p in Owned(a.lists);
    }
  }

  lemma FreeAllOneMore(f: Freeing, c: nat, xs: seq<nat>, x: nat)
    requires c < |f.account.lists|
    ensures FreeAll(f, c, xs + [x]) == FreeOne(FreeAll(f, c, xs), c, x)
    ensures FreeAll(f, c, []) == f
  {
    assert (xs + [x])[..|xs|] == xs;
  }

  // ---------------------------------------------------------------- lists with holes

  /** Marks a freed place on a client's list until the list is compacted. */
  const HOLE: nat := 0xFFFF_FFFF

  function Live(list: seq<nat>): seq<nat> {
    if list == [] then [] else (if list[0] == HOLE then [] else [list[0]]) + Live(list[1..])
  }

  lemma {:induction false} LiveHole(list: seq<nat>, k: nat)
    requires k < |list| && list[k] != HOLE && list[k] !in list[..k]
    ensures Live(list[k := HOLE]) == WithoutFirst(Live(list), list[k]) && list[k] in Live(list)
    ensures |Live(list)| > 0 && |Live(list[k := HOLE])| == |Live(list)| - 1
  {
    LiveHead(list);
    LiveHead(list[k := HOLE]);
    if k == 0 {
      assert list[0 := HOLE][1..] == list[1..];
    } else {
      assert list[..k][0] == list[0] && list[1..][..k - 1] == list[..k][1..];
      LiveHole(list[1..], k - 1);
      assert list[k := HOLE][1..] == list[1..][k - 1 := HOLE];
    }
  }

  lemma LiveHead(list: seq<nat>)
    requires list != []
    ensures list[0] == HOLE ==> Live(list) == Live(list[1..])
    ensures list[0] != HOLE ==> Live(list) == [list[0]] + Live(list[1..]) && Live(list)[1..] == Live(list[1..])
  {
    assert [] + Live(list[1..]) == Live(list[1..]);
  }

  lemma {:induction false} LiveHas(list: seq<nat>, x: nat)
    requires x != HOLE
    ensures x in Live(list) <==> x in list
  {
    if list != [] {
      LiveHas(list[1..], x);
      assert list == [list[0]] + list[1..];
    }
  }

  lemma {:induction false} LiveAll(list: seq<nat>)
    requires HOLE !in list
    ensures Live(list) == list
  {
    if list != [] {
      assert list == [list[0]] + list[1..];
      LiveAll(list[1..]);
    }
  }

  lemma {:induction false} LiveConcat(a: seq<nat>, b: seq<nat>)
    ensures Live(a + b) == Live(a) + Live(b)
  {
    if a == [] {
      assert a + b == b;
    } else {
      assert (a + b)[1..] == a[1..] + b;
      LiveConcat(a[1..], b);
    }
  }

  lemma FreeOneIs(f: Freeing, c: nat, x: nat)
    requires c < |f.account.lists|
    ensures x >= |f.account.cells| ==> FreeOne(f, c, x) == f.(result := BadValue)
    ensures x < |f.account.cells| && x !in f.account.lists[c] ==> FreeOne(f, c, x) == f.(result := BadAccess)
    ensures x < |f.account.cells| && x in f.account.lists[c] ==>
              var a, e := f.account, f.account.cells[x];
              FreeOne(f, c, x) ==
                Freeing(Account(a.cells[x := FreedCell(e)], if e.refcnt > 1 then a.free else a.free + 1,
                                a.lists[c := WithoutFirst(a.lists[c], x)]),
                        PoolAfter(f.pool, e), f.result)
  {
  }

  lemma NotAHole(n: nat, x: nat)
    requires n <= MAX_PLANES && x < Pow2(n)
    ensures x != HOLE
  {
    Pow2Increases(n, 17);
    assert Pow2(17) == 0x2_0000 by { assert Pow2(8) == 0x100; assert Pow2(12) == 0x1000; }
  }

  lemma OwnRefs(a: Account, x: nat, others: multiset<nat>)
    requires x < |a.cells|
    ensures RefsOf(a.cells[x]) <= Refs(a.cells) + others
  {
    RefsUpdate(a.cells, x, a.cells[x]);
  }

  lemma WithBitsIs(pixels: seq<nat>, bits: nat)
    ensures |WithBits(pixels, bits)| == |pixels|
    ensures forall i :: 0 <= i < |pixels| ==> WithBits(pixels, bits)[i] == Or(pixels[i], bits)
  {
  }

  lemma RequestsIs(pixels: seq<nat>, mask: nat)
    ensures Requests(pixels, mask, 0) == []
  {
  }

  lemma RequestsMore(pixels: seq<nat>, mask: nat, i: nat)
    ensures Requests(pixels, mask, i + 1) == Requests(pixels, mask, i) + WithBits(pixels, Submask(i, mask))
  {
  }

  /** Every submask of the mask, in increasing order, is added to every base pixel in turn. */
  lemma {:induction false} RequestsAt(pixels: seq<nat>, mask: nat, n: nat, i: nat, j: nat)
    requires i < n && j < |pixels|
    ensures |Requests(pixels, mask, n)| == n * |pixels| && i * |pixels| + j < n * |pixels|
    ensures Requests(pixels, mask, n)[i * |pixels| + j] == Or(pixels[j], Submask(i, mask))
  {
    hide Or, Submask;
    RequestsCount(pixels, mask, n - 1);
    assert n * |pixels| == (n - 1) * |pixels| + |pixels|;
    if i < n - 1 { RequestsAt(pixels, mask, n - 1, i, j); }
  }

  lemma {:induction false} RequestsCount(pixels: seq<nat>, mask: nat, n: nat)
    ensures |Requests(pixels, mask, n)| == n * |pixels|
  {
    if n > 0 {
      RequestsCount(pixels, mask, n - 1);
      assert n * |pixels| == (n - 1) * |pixels| + |pixels|;
    }
  }

  lemma {:induction false} NoRequests(mask: nat, n: nat)
    ensures Requests([], mask, n) == []
  {
    if n > 0 { NoRequests(mask, n - 1); }
  }

  lemma NoHoles(a: Account, n: nat, c: nat)
    requires Balanced(a) && |a.cells| == Pow2(n) && n <= MAX_PLANES && c < |a.lists|
    ensures Live(a.lists[c]) == a.lists[c]
  {
    OwnedUpdate(a.lists, c, a.lists[c]);
    if HOLE in a.lists[c] {
      assert HOLE in multiset(a.lists[c]);
      assert HOLE in Owned(a.lists);
      NotAHole(n, HOLE);
    }
    LiveAll(a.lists[c]);
  }

  lemma LiveWhole(list: seq<nat>, c: nat)
    requires c <= |list| && |Live(list[..c])| < |Live(list)|
    ensures c < |list|
  {
    assert list[..|list|] == list;
  }

  // ---------------------------------------------------------------- AllocColorCells

  /** Client c is given private cells, all of them put on its list. */
  ghost function Granted(a: Account, c: nat, xs: seq<nat>): Account
    requires c < |a.lists|
  {
    Account(Privatized(a.cells, Members(xs)), a.free - |xs|, a.lists[c := a.lists[c] + xs])
  }

  /** The size a request asks for, computed in 32-bit integers. */
  function ShiftInt32(count: nat, planes: nat): int {
    AsInt32(count * Pow2(planes))
  }

  lemma {:induction false} GrantedCells(cells: seq<Entry>, xs: seq<nat>)
    requires NoRepeats(xs)
    requires forall x :: x in xs ==> x < |cells| && cells[x].refcnt == 0 && !cells[x].fShared
    ensures FreeCount(Privatized(cells, Members(xs))) == FreeCount(cells) - |xs|
    ensures Refs(Privatized(cells, Members(xs))) == Refs(cells)
  {
    if xs == [] {
      MembersMore([], 0);
      PrivatizedNone(cells);
    } else {
      hide Refs, FreeCount;
      var n := |xs| - 1;
      var ys, x := xs[..n], xs[n];
      assert xs == ys + [x];
      assert forall y :: y in ys ==> y in xs;
      assert x in xs;
      GrantedCells(cells, ys);
      var before := Privatized(cells, Members(ys));
      var e := before[x].(refcnt := ALLOC_PRIVATE, fShared := false);
      MembersMore(ys, x);
      PrivatizedOne(cells, Members(ys), x);
      assert x !in ys && before[x] == cells[x];
      FreeCountUpdate(before, x, e);
      RefsUpdate(before, x, e);
      assert RefsOf(cells[x]) == multiset{} == RefsOf(e);
      assert Refs(before) - multiset{} + multiset{} == Refs(before);
    }
  }

  /** For a 16-bit count the overflow test is exact: the request is refused up front exactly when it
      asks for more cells than are free. */
  lemma GuardIsExact(count: nat, planes: nat, free: int)
    requires 0 < count <= 0xFFFF && planes < 32 && 0 <= free < 0x2_0000
    ensures count <= ShiftInt32(count, planes) <= free <==> count * Pow2(planes) <= free
    ensures count * Pow2(planes) <= free ==> ShiftInt32(count, planes) == count * Pow2(planes)
  {
    hide Pow2;
    Pow2Values();
    if planes <= 16 {
      Pow2Increases(planes, 16);
      CountFits(count, planes);
      ShiftSmall(count, Pow2(planes));
    } else {
      Pow2Splits(planes - 17, 17);
      ShiftLarge(count, Pow2(planes - 17));
      assert count * Pow2(planes) == count * (Pow2(planes - 17) * 0x2_0000);
    }
  }

  function AsInt32(n: nat): int {
    var w := n % 0x1_0000_0000; if w >= 0x8000_0000 then w - 0x1_0000_0000 else w
  }

  lemma Pow2Values()
    ensures Pow2(14) == 0x4000 && Pow2(15) == 0x8000 && Pow2(16) == 0x1_0000 && Pow2(17) == 0x2_0000
  {
    assert Pow2(8) == 0x100;
    assert Pow2(12) == 0x1000;
  }

  lemma ShiftSmall(count: nat, p: nat)
    requires 0 < count <= 0xFFFF && p <= 0x1_0000
    ensures count * p < 0x1_0000_0000
    ensures AsInt32(count * p) == if count * p < 0x8000_0000 then count * p else count * p - 0x1_0000_0000
  {
    Product(count, 0xFFFF, p, 0x1_0000);
  }

  lemma ShiftLarge(count: nat, p: nat)
    requires 0 < count && 0 < p
    ensures count * (p * 0x2_0000) >= 0x2_0000
    ensures AsInt32(count * (p * 0x2_0000)) <= 0 || AsInt32(count * (p * 0x2_0000)) >= 0x2_0000
  {
    var k := count * p;
    Product(1, count, 1, p);
    assert count * (p * 0x2_0000) == k * 0x2_0000;
    var w := k % 0x8000;
    assert k * 0x2_0000 == (k / 0x8000) * 0x1_0000_0000 + w * 0x2_0000;
    Remainder32(k * 0x2_0000, k / 0x8000, w * 0x2_0000);
  }

  /** The test is exact for every 16-bit count. */
  ghost predicate GuardExact(free: nat) {
    forall count: nat, planes: nat :: 0 < count <= 0xFFFF && planes < 32 ==>
      (count <= ShiftInt32(count, planes) <= free <==> count * Pow2(planes) <= free)
  }

  /** The test is exact as long as fewer than 2^17 cells are free; from there on the shift can wrap
      around to a plausible size. */
  lemma GuardExactly(free: nat)
    ensures GuardExact(free) <==> free < 0x2_0000
  {
    if free < 0x2_0000 {
      forall count: nat, planes: nat | 0 < count <= 0xFFFF && planes < 32
        ensures count <= ShiftInt32(count, planes) <= free <==> count * Pow2(planes) <= free
      {
        GuardIsExact(count, planes, free);
      }
    } else {
      Pow2Values();
      Pow2Splits(17, 14);
      var count, planes := if free < 0x1_0002_0000 then 0x8001 else 1, if free < 0x1_0002_0000 then 17 else 31;
      assert !(count <= ShiftInt32(count, planes) <= free <==> count * Pow2(planes) <= free);
    }
  }

  lemma Product(a: nat, b: nat, c: nat, d: nat)
    requires a <= b && c <= d
    ensures a * c <= b * d
  {
    assert b * d == a * c + (b - a) * c + b * (d - c);
  }

  lemma Remainder32(p: int, q: int, r: int)
    requires p == q * 0x1_0000_0000 + r && 0 <= r < 0x1_0000_0000
    ensures p % 0x1_0000_0000 == r
  {
  }

  lemma {:induction false} Pow2Splits(a: nat, b: nat)
    ensures Pow2(a + b) == Pow2(a) * Pow2(b)
  {
    if b > 0 {
      Pow2Splits(a, b - 1);
      assert Pow2(a) * Pow2(b) == 2 * (Pow2(a) * Pow2(b - 1));
    }
  }

  lemma {:induction false} OnceEach(xs: seq<nat>, x: nat)
    requires NoRepeats(xs)
    ensures multiset(xs)[x] == if x in xs then 1 else 0
  {
    if xs != [] {
      assert xs == [xs[0]] + xs[1..];
      assert xs[0] !in xs[1..];
      OnceEach(xs[1..], x);
      assert multiset(xs) == multiset{xs[0]} + multiset(xs[1..]);
    }
  }

  /** Granting free cells keeps the accounts balanced and touches no shared colour. */
  lemma GrantBalances(a: Account, c: nat, xs: seq<nat>)
    requires Balanced(a) && c < |a.lists| && NoRepeats(xs)
    requires forall x :: x in xs ==> x < |a.cells| && a.cells[x].refcnt == 0
    ensures Balanced(Granted(a, c, xs)) && Refs(Granted(a, c, xs).cells) == Refs(a.cells)
  {
    hide FreeCount, Owned, Refs, Separate;
    forall x | x in xs ensures !a.cells[x].fShared { assert CellOk(a.cells[x], Owned(a.lists)[x]); }
    hide CellOk, NoRepeats;
    GrantedCells(a.cells, xs);
    GrantedSeparate(a.cells, xs);
    OwnedUpdate(a.lists, c, a.lists[c] + xs);
    AppendOwned(Owned(a.lists), a.lists[c], xs);
    GrantedCellsOk(a, c, xs, Owned(Granted(a, c, xs).lists));
  }

  lemma GrantedSeparate(cells: seq<Entry>, xs: seq<nat>)
    requires Separate(cells)
    ensures Separate(Privatized(cells, Members(xs))) && |Privatized(cells, Members(xs))| == |cells|
  {
    hide Separate;
    StaysSeparate(cells, Privatized(cells, Members(xs)));
  }

  lemma GrantedCellsOk(a: Account, c: nat, xs: seq<nat>, o': multiset<nat>)
    requires Balanced(a) && c < |a.lists| && NoRepeats(xs) && o' == Owned(a.lists) + multiset(xs)
    requires forall x :: x in xs ==> x < |a.cells| && a.cells[x].refcnt == 0
    ensures forall i :: 0 <= i < |a.cells| ==> CellOk(Granted(a, c, xs).cells[i], o'[i])
    ensures forall p: nat :: p in o' ==> p < |a.cells|
  {
    hide FreeCount, Owned, Refs, Separate;
    forall i | 0 <= i < |a.cells| ensures CellOk(Granted(a, c, xs).cells[i], o'[i]) {
      OnceEach(xs, i);
      assert CellOk(a.cells[i], Owned(a.lists)[i]);
    }
    forall p: nat | p in o' ensures p < |a.cells| {
      OnceEach(xs, p);
      assert p in Owned(a.lists) || p in xs;
    }
  }

  lemma AppendOwned(o: multiset<nat>, l: seq<nat>, xs: seq<nat>)
    requires multiset(l) <= o
    ensures o - multiset(l) + multiset(l + xs) == o + multiset(xs)
  {
    assert multiset(l + xs) == multiset(l) + multiset(xs);
  }

  // ---------------------------------------------------------------- a new map

  lemma {:induction false} OwnedByOne(n: nat, c: nat, list: seq<nat>)
    requires c < n
    ensures Owned(seq(n, _ => [])[c := list]) == multiset(list)
  {
    var none: seq<seq<nat>> := seq(n, _ => []);
    OwnedNone(n);
    OwnedUpdate(none, c, list);
  }

  lemma {:induction false} OwnedNone(n: nat)
    ensures Owned(seq(n, _ => [])) == multiset{}
  {
    if n > 0 {
      OwnedNone(n - 1);
      var all: seq<seq<nat>>, fewer: seq<seq<nat>> := seq(n, _ => []), seq(n - 1, _ => []);
      assert all[1..] == fewer;
    }
  }

  lemma {:induction false} NoneFree(cells: seq<Entry>)
    requires forall i :: 0 <= i < |cells| ==> cells[i].refcnt != 0
    ensures FreeCount(cells) == 0
  {
    if cells != [] { NoneFree(cells[..|cells| - 1]); }
  }

  lemma {:induction false} BlankFree(cells: seq<Entry>)
    requires forall i :: 0 <= i < |cells| ==> cells[i] == BLANK_CELL
    ensures FreeCount(cells) == |cells|
  {
    if cells != [] { BlankFree(cells[..|cells| - 1]); }
  }

  lemma {:induction false} CountingList(n: nat, i: nat)
    ensures multiset(seq(n, j => j))[i] == if i < n then 1 else 0
  {
    var s: seq<nat> := seq(n, j => j);
    OnceEach(s, i);
    if i < n { assert s[i] == i; }
  }

  lemma {:induction false} NothingShared(cells: seq<Entry>)
    requires forall i :: 0 <= i < |cells| ==> !cells[i].fShared
    ensures Refs(cells) == multiset{}
  {
    if cells != [] { NothingShared(cells[..|cells| - 1]); }
  }

  /** The accounts of a new map agree, and it points at no shared colour. */
  lemma NewAccountBalances(size: nat, clients: nat, all: bool, c: nat)
    requires c < clients
    ensures var a := NewAccount(size, clients, all, c); Balanced(a) && Refs(a.cells) == multiset{}
  {
    var a := NewAccount(size, clients, all, c);
    hide Refs, Owned, FreeCount, CellOk;
    NothingShared(a.cells);
    NewOwned(size, clients, all, c);
    if all { NoneFree(a.cells); } else { BlankFree(a.cells); }
    NewCellsOk(a.cells, Owned(a.lists), if all then ALLOC_PRIVATE else 0, if all then 1 else 0);
  }

  /** Of a new map every cell is owned once, or none is. */
  lemma NewOwned(size: nat, clients: nat, all: bool, c: nat)
    requires c < clients
    ensures forall i: nat :: Owned(NewAccount(size, clients, all, c).lists)[i] == if all && i < size then 1 else 0
  {
    hide Owned;
    if all {
      var mine: seq<nat> := seq(size, i => i);
      OwnedByOne(clients, c, mine);
      assert NewAccount(size, clients, all, c).lists == seq(clients, _ => [])[c := mine];
      forall i: nat ensures multiset(mine)[i] == if i < size then 1 else 0 { CountingList(size, i); }
    } else {
      var none: seq<seq<nat>> := seq(clients, _ => []);
      OwnedNone(clients);
      assert NewAccount(size, clients, all, c).lists == none;
    }
  }

  lemma NewCellsOk(cells: seq<Entry>, owned: multiset<nat>, refcnt: int, owners: nat)
    requires refcnt + owners == 0 && (refcnt == 0 || refcnt == ALLOC_PRIVATE)
    requires forall i :: 0 <= i < |cells| ==> cells[i].refcnt == refcnt && !cells[i].fShared && owned[i] == owners
    ensures forall i :: 0 <= i < |cells| ==> CellOk(cells[i], owned[i])
  {
  }

  // ---------------------------------------------------------------- allocating and freeing again

  /** The list without some of its pixels. */
  ghost function Except(xs: seq<nat>, gone: set<nat>): seq<nat> {
    if xs == [] then [] else (if xs[0] in gone then [] else [xs[0]]) + Except(xs[1..], gone)
  }

  lemma {:induction false} ExceptOneMore(xs: seq<nat>, gone: set<nat>, x: nat)
    requires NoRepeats(xs) && x in xs && x !in gone
    ensures WithoutFirst(Except(xs, gone), x) == Except(xs, gone + {x}) && x in Except(xs, gone)
  {
    assert xs == [xs[0]] + xs[1..];
    var tl := Except(xs[1..], gone);
    if xs[0] in gone { assert Except(xs, gone) == tl; }
    else { assert Except(xs, gone) == [xs[0]] + tl && Except(xs, gone)[1..] == tl; }
    if xs[0] == x {
      assert x !in xs[1..];
      ExceptSame(xs[1..], gone, x);
      assert Except(xs, gone + {x}) == Except(xs[1..], gone + {x});
    } else {
      ExceptOneMore(xs[1..], gone, x);
      if xs[0] in gone { assert [] + Except(xs[1..], gone + {x}) == Except(xs[1..], gone + {x}); }
    }
  }

  lemma {:induction false} ExceptSame(xs: seq<nat>, gone: set<nat>, x: nat)
    requires x !in xs
    ensures Except(xs, gone + {x}) == Except(xs, gone)
  {
    if xs != [] {
      assert xs == [xs[0]] + xs[1..];
      ExceptSame(xs[1..], gone, x);
    }
  }

  lemma {:induction false} ExceptAll(xs: seq<nat>, gone: set<nat>)
    ensures (forall x :: x in xs ==> x in gone) ==> Except(xs, gone) == []
    ensures (forall x :: x in xs ==> x !in gone) ==> Except(xs, gone) == xs
  {
    if xs != [] {
      assert xs == [xs[0]] + xs[1..];
      ExceptAll(xs[1..], gone);
    }
  }

  lemma {:induction false} WithoutFirstAfter(l: seq<nat>, m: seq<nat>, x: nat)
    requires x !in l
    ensures WithoutFirst(l + m, x) == l + WithoutFirst(m, x)
  {
    if l == [] {
      assert l + m == m;
    } else {
      assert l == [l[0]] + l[1..];
      assert (l + m)[1..] == l[1..] + m;
      WithoutFirstAfter(l[1..], m, x);
    }
  }

  /** The accounts after part of a grant has been given back. */
  ghost function PartlyReturned(a: Account, c: nat, all: seq<nat>, back: seq<nat>): Account
    requires c < |a.lists|
  {
    Account(Privatized(a.cells, Members(all) - Members(back)), a.free - |all| + |back|,
            a.lists[c := a.lists[c] + Except(all, Members(back))])
  }

  /** Giving back some of the granted pixels, in any order, leaves exactly the rest granted. */
  lemma {:induction false} ReturnSome(a: Account, c: nat, all: seq<nat>, pool: Pool, back: seq<nat>)
    requires Balanced(a) && c < |a.lists| && NoRepeats(all) && NoRepeats(back)
    requires forall x :: x in all ==> x < |a.cells| && a.cells[x].refcnt == 0
    requires forall x :: x in back ==> x in all
    ensures FreeAll(Freeing(Granted(a, c, all), pool, Success), c, back) ==
            Freeing(PartlyReturned(a, c, all, back), pool, Success)
  {
    hide Balanced, FreeOne, Owned, FreeCount, Except;
    var f := Freeing(Granted(a, c, all), pool, Success);
    if back == [] {
      MembersMore([], 0);
      ExceptAll(all, {});
      assert Members(all) - {} == Members(all);
    } else {
      var n := |back| - 1;
      var ys, x := back[..n], back[n];
      assert back == ys + [x] && x in back;
      assert forall y :: y in ys ==> y in back;
      ReturnSome(a, c, all, pool, ys);
      FreeAllOneMore(f, c, ys, x);
      ReturnOne(a, c, all, pool, ys, x);
    }
  }

  lemma ReturnOne(a: Account, c: nat, all: seq<nat>, pool: Pool, ys: seq<nat>, x: nat)
    requires Balanced(a) && c < |a.lists| && NoRepeats(all)
    requires forall x :: x in all ==> x < |a.cells| && a.cells[x].refcnt == 0
    requires x in all && x !in ys
    ensures FreeOne(Freeing(PartlyReturned(a, c, all, ys), pool, Success), c, x) ==
            Freeing(PartlyReturned(a, c, all, ys + [x]), pool, Success)
  {
    hide Owned, FreeCount, Except, WithoutFirst, Separate;
    var p := PartlyReturned(a, c, all, ys);
    MembersMore(ys, x);
    ExceptOneMore(all, Members(ys), x);
    assert CellOk(a.cells[x], Owned(a.lists)[x]);
    FreeNotOwned(a, c, x);
    WithoutFirstAfter(a.lists[c], Except(all, Members(ys)), x);
    UnPrivatizedOne(a.cells, Members(all) - Members(ys), x);
    assert Members(all) - Members(ys) - {x} == Members(all) - Members(ys + [x]);
    assert p.cells[x].refcnt == ALLOC_PRIVATE && !p.cells[x].fShared;
  }

  lemma FreeNotOwned(a: Account, c: nat, x: nat)
    requires Balanced(a) && c < |a.lists| && x < |a.cells| && a.cells[x].refcnt == 0
    ensures x !in a.lists[c]
  {
    OwnedUpdate(a.lists, c, a.lists[c]);
    assert CellOk(a.cells[x], Owned(a.lists)[x]);
    assert multiset(a.lists[c])[x] <= Owned(a.lists)[x];
    assert x !in multiset(a.lists[c]);
  }

  lemma UnPrivatizedOne(cells: seq<Entry>, who: set<nat>, x: nat)
    requires x < |cells| && x in who && cells[x].refcnt == 0 && !cells[x].fShared
    ensures Privatized(cells, who)[x := FreedCell(Privatized(cells, who)[x])] == Privatized(cells, who - {x})
  {
  }

  lemma OrDisjoint(p: nat, s: nat, mask: nat)
    requires Disjoint(p, mask) && Sub(s, mask)
    ensures Or(p, s) == p + s
  {
    AndNotDisjoint(s, p, mask);
  }

  lemma {:induction false} AndNotDisjoint(s: nat, p: nat, mask: nat)
    requires Disjoint(p, mask) && Sub(s, mask)
    ensures AndNot(s, p) == s
    decreases s
  {
    if s != 0 {
      SubHalves(s, mask);
      AndZero(p);
      AndNotDisjoint(s / 2, p / 2, mask / 2);
    }
  }

  /** x is a base pixel with the i-th submask of the mask added, for some i < n. */
  ghost predicate Named(x: nat, bases: seq<nat>, mask: nat, n: nat) {
    var s := And(x, mask);
    x >= s && x - s in bases && Sub(s, mask) && Rank(s, mask) < n
  }

  /** The pixels a request names, when its base pixels are clear of the mask. */
  lemma {:induction false} RequestsAre(bases: seq<nat>, mask: nat, n: nat)
    requires n <= Pow2(PopCount(mask)) && NoRepeats(bases)
    requires forall p: nat :: p in bases ==> Disjoint(p, mask)
    ensures NoRepeats(Requests(bases, mask, n))
    ensures forall x: nat :: x in Requests(bases, mask, n) <==> Named(x, bases, mask, n)
  {
    if n > 0 {
      hide And, Submask, Or, Rank, PopCount, Pow2, Named;
      RequestsAre(bases, mask, n - 1);
      SubmaskRank(n - 1, mask);
      var s := Submask(n - 1, mask);
      WithBitsParts(bases, s, mask);
      var xs, ys := WithBits(bases, s), Requests(bases, mask, n - 1);
      forall x: nat ensures x in ys + xs <==> Named(x, bases, mask, n)
                    ensures x in ys ==> x !in xs
      {
        WithBitsHas(bases, s, mask, x);
        NamedMore(x, bases, mask, n);
      }
      NoRepeatsConcat(ys, xs);
    } else {
      NamedNone(bases, mask);
    }
  }

  lemma NamedNone(bases: seq<nat>, mask: nat)
    ensures forall x: nat :: !Named(x, bases, mask, 0)
  {
  }

  lemma NamedMore(x: nat, bases: seq<nat>, mask: nat, n: nat)
    requires 0 < n <= Pow2(PopCount(mask))
    ensures var s := Submask(n - 1, mask);
            && (Named(x, bases, mask, n) <==>
                Named(x, bases, mask, n - 1) || (And(x, mask) == s && x >= s && x - s in bases))
            && (Named(x, bases, mask, n - 1) ==> And(x, mask) != s)
  {
    SubmaskRank(n - 1, mask);
    if Sub(And(x, mask), mask) { RankSubmask(And(x, mask), mask); }
  }

  lemma WithBitsParts(bases: seq<nat>, s: nat, mask: nat)
    requires NoRepeats(bases) && Sub(s, mask) && forall p: nat :: p in bases ==> Disjoint(p, mask)
    ensures var xs := WithBits(bases, s);
            NoRepeats(xs) && forall j :: 0 <= j < |xs| ==> xs[j] == bases[j] + s && And(xs[j], mask) == s
  {
    var xs := WithBits(bases, s);
    forall j | 0 <= j < |xs| ensures xs[j] == bases[j] + s && And(xs[j], mask) == s {
      assert bases[j] in bases;
      OrDisjoint(bases[j], s, mask);
      Parts(bases[j], s, mask);
    }
  }

  lemma WithBitsHas(bases: seq<nat>, s: nat, mask: nat, x: nat)
    requires NoRepeats(bases) && Sub(s, mask) && forall p: nat :: p in bases ==> Disjoint(p, mask)
    ensures x in WithBits(bases, s) <==> And(x, mask) == s && x >= s && x - s in bases
  {
    WithBitsParts(bases, s, mask);
    var xs := WithBits(bases, s);
    if And(x, mask) == s && x >= s && x - s in bases {
      var j :| 0 <= j < |bases| && bases[j] == x - s;
      assert xs[j] == x;
    }
  }

  lemma NamedIsBlock(bases: seq<nat>, mask: nat, x: nat)
    requires forall p: nat :: p in bases ==> Disjoint(p, mask)
    ensures Named(x, bases, mask, Pow2(PopCount(mask))) <==> exists p: nat :: p in bases && InBlock(p, mask, x)
  {
    if Named(x, bases, mask, Pow2(PopCount(mask))) { assert InBlock(x - And(x, mask), mask, x); }
    if p: nat :| p in bases && InBlock(p, mask, x) {
      Parts(p, x - p, mask);
      RankSubmask(x - p, mask);
    }
  }

  /** AllocColorCells and then FreeColors with the returned pixels and planes gives everything back:
      every cell, the free count and the client's list in its old order. */
  lemma RoundTrip(a: Account, c: nat, mask: nat, count: nat, pool: Pool)
    requires Balanced(a) && c < |a.lists| && Supplies(a.cells, mask, count)
    ensures var bases := FreeBases(a.cells, mask, |a.cells|)[..count];
            FreeAll(Freeing(Granted(a, c, AllPixels(bases, mask)), pool, Success), c,
                    Requests(bases, mask, Pow2(PopCount(mask)))) == Freeing(a, pool, Success)
  {
    hide And, Submask, Rank, PopCount, Pow2, AllPixels, Requests, InBlock, Balanced, FreeBases, FreeAll, Except, Named,
         FreeBlock;
    var bases := FreeBases(a.cells, mask, |a.cells|)[..count];
    var all, back := AllPixels(bases, mask), Requests(bases, mask, Pow2(PopCount(mask)));
    AllPixelsExact(a.cells, mask, count);
    assert NoRepeats(bases) by { BasesFirst(bases, mask); }
    RequestsAre(bases, mask, Pow2(PopCount(mask)));
    forall x: nat ensures x in back <==> x in all { NamedIsBlock(bases, mask, x); }
    SameLength(back, all);
    ReturnSome(a, c, all, pool, back);
    ExceptAll(all, Members(back));
    assert Members(all) - Members(back) == {};
    PrivatizedNone(a.cells);
    assert a.lists[c] + [] == a.lists[c] && a.lists[c := a.lists[c]] == a.lists;
  }

  lemma BasesFirst(bases: seq<nat>, mask: nat)
    requires NoRepeats(AllPixels(bases, mask))
    ensures NoRepeats(bases)
  {
    var all := AllPixels(bases, mask);
    assert forall i :: 0 <= i < |bases| ==> all[i] == bases[i];
  }

  lemma SameLength(a: seq<nat>, b: seq<nat>)
    requires NoRepeats(a) && NoRepeats(b) && forall x: nat :: x in a <==> x in b
    ensures |a| == |b|
  {
    forall x: nat ensures multiset(a)[x] == multiset(b)[x] { OnceEach(a, x); OnceEach(b, x); }
    assert multiset(a) == multiset(b);
    assert |multiset(a)| == |a|;
  }

  lemma AllocatedIs(before: seq<Entry>, after: seq<Entry>, mask: nat, count: nat, planes: nat, contig: bool,
                    all: seq<nat>, n: nat)
    requires Allocated(before, after, mask, count, planes, contig, all) && |before| == Pow2(n)
    ensures Permitted(mask, planes, contig, n) && PopCount(mask) == planes && Supplies(before, mask, count)
    ensures all == AllPixels(FreeBases(before, mask, |before|)[..count], mask)
  {
    var m :| |before| == Pow2(m) && Permitted(mask, planes, contig, m);
    Pow2Increases(m, n);
    Pow2Increases(n, m);
  }

  /** A successful search, recorded on a client's list, is a balanced grant. */
  lemma AllocatedIsGrant(a: Account, c: nat, after: seq<Entry>, mask: nat, count: nat, planes: nat, contig: bool,
                         all: seq<nat>)
    requires Balanced(a) && c < |a.lists| && Allocated(a.cells, after, mask, count, planes, contig, all)
    ensures Granted(a, c, all) == Account(after, a.free - |all|, a.lists[c := a.lists[c] + all])
    ensures Balanced(Granted(a, c, all)) && Refs(after) == Refs(a.cells)
    ensures |all| == count * Pow2(planes) && count <= |all|
    ensures all[..count] == FreeBases(a.cells, mask, |a.cells|)[..count]
  {
    hide *;
    AllocatedHas(a.cells, after, mask, count, planes, contig, all);
    AllPixelsExact(a.cells, mask, count);
    AllPixelsBegin(FreeBases(a.cells, mask, |a.cells|)[..count], mask);
    GrantBalances(a, c, all);
    GrantedIs(a, c, all);
    CountFits(count, planes);
  }

  lemma AllocatedHas(before: seq<Entry>, after: seq<Entry>, mask: nat, count: nat, planes: nat, contig: bool,
                     all: seq<nat>)
    requires Allocated(before, after, mask, count, planes, contig, all)
    ensures PopCount(mask) == planes && Supplies(before, mask, count) && count <= |FreeBases(before, mask, |before|)|
    ensures all == AllPixels(FreeBases(before, mask, |before|)[..count], mask) &&
            after == Privatized(before, Members(all))
  {
  }

  lemma AllPixelsBegin(bases: seq<nat>, mask: nat)
    ensures |bases| <= |AllPixels(bases, mask)| && AllPixels(bases, mask)[..|bases|] == bases
  {
  }

  lemma GrantedIs(a: Account, c: nat, xs: seq<nat>)
    requires c < |a.lists|
    ensures Granted(a, c, xs) == Account(Privatized(a.cells, Members(xs)), a.free - |xs|, a.lists[c := a.lists[c] + xs])
  {
  }

  lemma GrantedView(before: Account, c: nat, xs: seq<nat>, view: Account)
    requires c < |before.lists| && view == Granted(before, c, xs)
    ensures view.cells == Granted(before, c, xs).cells && |view.cells| == |before.cells|
    ensures view.free == before.free - |xs| && view.lists == before.lists[c := before.lists[c] + xs]
    ensures |view.lists[c]| >= |before.lists[c]| && view.lists[c][|before.lists[c]|..] == xs
  {
  }
}
