/**
 Single claims on cells: AllocColor's read-only cells, and a client giving up its whole list
 (dix/colormap.c, FindColor and FreePixels).
 */
module Claims {
  import opened Cells
  import opened Common
  import opened Accounts

  // ---------------------------------------------------------------- AllocColor

  /** Client c gets one more claim on cell x: one more reference, or a free cell taken into use. */
  ghost function Claimed(a: Account, c: nat, x: nat, e: Entry, taken: bool): Account
    requires c < |a.lists| && x < |a.cells|
  {
    Account(a.cells[x := e], if taken then a.free - 1 else a.free, a.lists[c := a.lists[c] + [x]])
  }

  /** Position k of a search that starts at `start` and wraps around. */
  function Around(start: nat, k: nat, size: nat): nat
    requires start < size && k < size
    ensures Around(start, k, size) < size
  {
    if start + k < size then start + k else start + k - size
  }

  lemma AroundNext(start: nat, k: nat, size: nat)
    requires start < size && k < size
    ensures Around(start, 0, size) == start
    ensures k + 1 < size ==>
              Around(start, k + 1, size) == if Around(start, k, size) + 1 >= size then 0 else Around(start, k, size) + 1
  {
  }

  /** A reference count after an increment in a C short. */
  function Increment(refcnt: int): int {
    if refcnt == SHORT_MAX then -SHORT_MAX - 1 else refcnt + 1
  }

  predicate Matches(e: Entry, rgb: RGB) { e.refcnt > 0 && e.local == rgb }

  /** A matching cell at place k of the search, and none before it. */
  ghost predicate FirstMatch(cells: seq<Entry>, rgb: RGB, start: nat, k: nat) {
    && start < |cells| && k < |cells| && Matches(cells[Around(start, k, |cells|)], rgb)
    && forall j :: 0 <= j < k ==> !Matches(cells[Around(start, j, |cells|)], rgb)
  }

  /** No matching cell, and a free one at place k with none before it. */
  ghost predicate FirstFree(cells: seq<Entry>, rgb: RGB, start: nat, k: nat) {
    && start < |cells| && k < |cells| && cells[Around(start, k, |cells|)].refcnt == 0
    && (forall j :: 0 <= j < k ==> cells[Around(start, j, |cells|)].refcnt != 0)
    && forall i :: 0 <= i < |cells| ==> !Matches(cells[i], rgb)
  }

  lemma AroundCovers(start: nat, size: nat, i: nat) returns (k: nat)
    requires start < size && i < size
    ensures k < size && Around(start, k, size) == i
  {
    k := if i >= start then i - start else i + size - start;
  }

  /** One more reference to a read-only cell keeps the accounts balanced exactly when its count does
      not overflow; taking a free cell into use always does. */
  lemma ClaimBalances(a: Account, c: nat, x: nat, rgb: RGB)
    requires Balanced(a) && c < |a.lists| && x < |a.cells| && a.cells[x].refcnt >= 0
    ensures a.cells[x].refcnt <= SHORT_MAX && 0 < SHORT_MAX
    ensures a.cells[x].refcnt > 0 ==>
              var b := Claimed(a, c, x, a.cells[x].(refcnt := Increment(a.cells[x].refcnt)), false);
              && (Balanced(b) <==> a.cells[x].refcnt < SHORT_MAX)
              && Refs(b.cells) == Refs(a.cells)
    ensures a.cells[x].refcnt == 0 ==>
              var b := Claimed(a, c, x, a.cells[x].(refcnt := 1, fShared := false, local := rgb), true);
              Balanced(b) && Refs(b.cells) == Refs(a.cells)
  {
    var was := a.cells[x];
    assert CellOk(was, Owned(a.lists)[x]);
    var taken := was.refcnt == 0;
    var e := if taken then was.(refcnt := 1, fShared := false, local := rgb) else was.(refcnt := Increment(was.refcnt));
    ClaimKeepsRefs(a.cells, x, e);
    var b := Claimed(a, c, x, e, taken);
    if taken || was.refcnt < SHORT_MAX {
      ClaimOk(a, c, x, e, taken);
    } else {
      assert !CellOk(b.cells[x], Owned(b.lists)[x]);
    }
  }

  lemma ClaimKeepsRefs(cells: seq<Entry>, x: nat, e: Entry)
    requires x < |cells| && !cells[x].fShared && !e.fShared
    ensures Refs(cells[x := e]) == Refs(cells)
  {
    RefsUpdate(cells, x, e);
    assert Refs(cells) - multiset{} + multiset{} == Refs(cells);
  }

  lemma ClaimOk(a: Account, c: nat, x: nat, e: Entry, taken: bool)
    requires Balanced(a) && c < |a.lists| && x < |a.cells| && !e.fShared
    requires a.cells[x].refcnt >= 0 && taken == (a.cells[x].refcnt == 0) &&
             e.refcnt == a.cells[x].refcnt + 1 <= SHORT_MAX
    ensures Balanced(Claimed(a, c, x, e, taken))
  {
    hide FreeCount, Owned, Separate, Refs;
    var b := Claimed(a, c, x, e, taken);
    FreeCountUpdate(a.cells, x, e);
    StaysSeparate(a.cells, b.cells);
    OwnedUpdate(a.lists, c, a.lists[c] + [x]);
    AppendOwned(Owned(a.lists), a.lists[c], [x]);
    var o, o' := Owned(a.lists), Owned(b.lists);
    assert o' == o + multiset{x};
    forall i | 0 <= i < |b.cells| ensures CellOk(b.cells[i], o'[i]) { assert CellOk(a.cells[i], o[i]); }
  }

  // ---------------------------------------------------------------- FreePixels

  /** A client that gives up its whole list, one pixel after the other, is left with nothing. */
  lemma {:induction false} GiveUpAll(f: Freeing, c: nat, k: nat, others: multiset<nat>)
    requires c < |f.account.lists| && k <= |f.account.lists[c]|
    requires Balanced(f.account) && PoolOk(f.pool, Refs(f.account.cells) + others)
    ensures var g := FreeAll(f, c, f.account.lists[c][..k]);
            g.account.lists[c] == f.account.lists[c][k..] && g.result == f.result
  {
    hide Balanced, PoolOk, Refs, FreeAll, WithoutFirst, FreedCell, PoolAfter, FreeCount;
    var list := f.account.lists[c];
    FreeAllOneMore(f, c, [], 0);
    if k == 0 {
      assert list[..0] == [] && list[0..] == list;
    } else {
      GiveUpAll(f, c, k - 1, others);
      assert list[..k] == list[..k - 1] + [list[k - 1]];
      FreeAllOneMore(f, c, list[..k - 1], list[k - 1]);
      FreeAllBalances(f, c, list[..k - 1], others);
      var g := FreeAll(f, c, list[..k - 1]);
      FirstOfRest(list, k);
      assert list[k - 1] in g.account.lists[c];
      GiveUpBalances(g.account, c, list[k - 1]);
    }
  }

  lemma FirstOfRest(list: seq<nat>, k: nat)
    requires 0 < k <= |list|
    ensures list[k - 1] in list[k - 1..] && WithoutFirst(list[k - 1..], list[k - 1]) == list[k..]
  {
    assert list[k - 1..][0] == list[k - 1] && list[k - 1..][1..] == list[k..];
  }

  /** One more pixel of the list given up. */
  lemma GiveUpNext(f: Freeing, c: nat, n: nat, others: multiset<nat>)
    requires c < |f.account.lists| && n < |f.account.lists[c]|
    requires Balanced(f.account) && PoolOk(f.pool, Refs(f.account.cells) + others)
    ensures var list := f.account.lists[c];
            var g := FreeAll(f, c, list[..n]);
            var x := list[n];
            && x < |g.account.cells| && g.account.lists == f.account.lists[c := list[n..]]
            && PoolOk(g.pool, Refs(g.account.cells) + others) &&
               RefsOf(g.account.cells[x]) <= Refs(g.account.cells) + others
            && var e := g.account.cells[x];
               FreeAll(f, c, list[..n + 1]) ==
                 Freeing(Account(g.account.cells[x := FreedCell(e)],
                                 if e.refcnt > 1 then g.account.free else g.account.free + 1,
                                 f.account.lists[c := list[n + 1..]]),
                         PoolAfter(g.pool, e), f.result)
  {
    hide Balanced, PoolOk, Refs, RefsOf, PoolAfter, FreeOne;
    var list := f.account.lists[c];
    var g, x := FreeAll(f, c, list[..n]), list[n];
    GiveUpAll(f, c, n, others);
    FreeAllBalances(f, c, list[..n], others);
    assert list[..n + 1] == list[..n] + [x];
    FreeAllOneMore(f, c, list[..n], x);
    FirstOfRest(list, n + 1);
    FreeOneIs(g, c, x);
    GiveUpBalances(g.account, c, x);
    OwnRefs(g.account, x, others);
    assert g.account.lists == f.account.lists[c := list[n..]];
  }
}
