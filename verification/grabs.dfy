/**
 Passive grabs on one window (dix/grabs.c), for one grab type, device, modifier device and event
 type.  A grab claims a rectangle of (key, modifiers) pairs; each side is one value, any value, or
 any value left set in a 256-bit mask.  Ungrabbing subtracts a rectangle from a client's claims.
 */
module Grabs {
  import opened Common

  const ANY_KEY: nat := 0
  const ANY_MODIFIER: nat := 0x8000
  const DETAIL_BITS: nat := 256

  type Mask = m: seq<bool> | |m| == DETAIL_BITS witness seq(DETAIL_BITS, _ => true)

  datatype DetailRec = DetailRec(exact: nat, pMask: Option<Mask>)

  /** A grab's value: its client, the two sides of its rectangle, and the event mask, modes, cursor
      and confine-to window, which are copied whole and never inspected here. */
  datatype GrabValue = GrabValue(client: nat, detail: DetailRec, modifiersDetail: DetailRec, attributes: int)

  // ---------------------------------------------------------------- claims

  predicate DetailOk(d: DetailRec, any: nat) {
    if d.exact == any then true else d.exact < DETAIL_BITS && d.pMask.None?
  }

  /** Masks hang only on "any" sides, and exact values fit the masks. */
  predicate GrabOk(g: GrabValue) {
    DetailOk(g.detail, ANY_KEY) && DetailOk(g.modifiersDetail, ANY_MODIFIER)
  }

  predicate MaskFree(g: GrabValue) {
    g.detail.pMask.None? && g.modifiersDetail.pMask.None?
  }

  predicate Key(k: nat) { 0 < k < DETAIL_BITS }

  predicate Modifiers(m: nat) { m < DETAIL_BITS }

  predicate Has(d: DetailRec, any: nat, x: nat)
    requires x < DETAIL_BITS
  {
    if d.exact == any then d.pMask.None? || d.pMask.value[x] else d.exact == x
  }

  /** The pair (k, m) is in the grab's rectangle. */
  predicate Claims(g: GrabValue, k: nat, m: nat)
    requires Key(k) && Modifiers(m)
  {
    Has(g.detail, ANY_KEY, k) && Has(g.modifiersDetail, ANY_MODIFIER, m)
  }

  ghost predicate ClientClaims(gs: seq<GrabValue>, client: nat, k: nat, m: nat)
    requires Key(k) && Modifiers(m)
  {
    exists i :: 0 <= i < |gs| && gs[i].client == client && Claims(gs[i], k, m)
  }

  ghost predicate Overlap(g: GrabValue, h: GrabValue) {
    exists k, m :: Key(k) && Modifiers(m) && Claims(g, k, m) && Claims(h, k, m)
  }

  // ---------------------------------------------------------------- comparing grabs

  predicate IsInGrabMask(first: DetailRec, second: DetailRec, exception: nat)
    requires DetailOk(second, exception)
  {
    first.exact == exception &&
    (first.pMask.None? || (second.exact != exception && first.pMask.value[second.exact]))
  }

  predicate IdenticalExactDetails(first: nat, second: nat, exception: nat) {
    first != exception && second != exception && first == second
  }

  predicate DetailSupersedesSecond(first: DetailRec, second: DetailRec, exception: nat)
    requires DetailOk(second, exception)
  {
    IsInGrabMask(first, second, exception) || IdenticalExactDetails(first.exact, second.exact, exception)
  }

  predicate GrabSupersedesSecond(first: GrabValue, second: GrabValue)
    requires GrabOk(second)
  {
    && DetailSupersedesSecond(first.modifiersDetail, second.modifiersDetail, ANY_MODIFIER)
    && DetailSupersedesSecond(first.detail, second.detail, ANY_KEY)
  }

  predicate GrabMatchesSecond(first: GrabValue, second: GrabValue)
    requires GrabOk(first) && GrabOk(second)
  {
    || GrabSupersedesSecond(first, second)
    || GrabSupersedesSecond(second, first)
    || (DetailSupersedesSecond(second.detail, first.detail, ANY_KEY) &&
        DetailSupersedesSecond(first.modifiersDetail, second.modifiersDetail, ANY_MODIFIER))
    || (DetailSupersedesSecond(first.detail, second.detail, ANY_KEY) &&
        DetailSupersedesSecond(second.modifiersDetail, first.modifiersDetail, ANY_MODIFIER))
  }

  predicate GrabsAreIdentical(first: GrabValue, second: GrabValue)
    requires GrabOk(first) && GrabOk(second)
  {
    && DetailSupersedesSecond(first.detail, second.detail, ANY_KEY)
    && DetailSupersedesSecond(second.detail, first.detail, ANY_KEY)
    && DetailSupersedesSecond(first.modifiersDetail, second.modifiersDetail, ANY_MODIFIER)
    && DetailSupersedesSecond(second.modifiersDetail, first.modifiersDetail, ANY_MODIFIER)
  }

  /** A side whose mask has lost every value it could stand for. */
  ghost predicate Emptied(d: DetailRec, any: nat, low: nat) {
    forall x :: low <= x < DETAIL_BITS ==> !Has(d, any, x)
  }

  /** Matching against a mask-free grab finds every overlap, whichever grab comes first.  It finds
      more than the overlaps exactly when a side of the other grab has been emptied and the
      mask-free grab says "any" on each such side. */
  lemma MatchFindsOverlap(g: GrabValue, n: GrabValue)
    requires GrabOk(g) && GrabOk(n) && MaskFree(n)
    requires g.detail.exact == ANY_KEY || Key(g.detail.exact)
    requires n.detail.exact == ANY_KEY || Key(n.detail.exact)
    ensures GrabMatchesSecond(g, n) == GrabMatchesSecond(n, g)
    ensures Overlap(g, n) ==> GrabMatchesSecond(g, n)
    ensures !Emptied(g.detail, ANY_KEY, 1) && !Emptied(g.modifiersDetail, ANY_MODIFIER, 0) ==>
              (GrabMatchesSecond(g, n) <==> Overlap(g, n))
    ensures GrabMatchesSecond(g, n) && !Overlap(g, n) <==>
              && (Emptied(g.detail, ANY_KEY, 1) || Emptied(g.modifiersDetail, ANY_MODIFIER, 0))
              && (n.detail.exact == ANY_KEY || Has(g.detail, ANY_KEY, n.detail.exact))
              && (n.modifiersDetail.exact == ANY_MODIFIER ||
                  Has(g.modifiersDetail, ANY_MODIFIER, n.modifiersDetail.exact))
  {
    assert GrabMatchesSecond(g, n) <==>
      && (n.detail.exact == ANY_KEY || Has(g.detail, ANY_KEY, n.detail.exact))
      && (n.modifiersDetail.exact == ANY_MODIFIER || Has(g.modifiersDetail, ANY_MODIFIER, n.modifiersDetail.exact));
    if GrabMatchesSecond(g, n) && !Emptied(g.detail, ANY_KEY, 1) && !Emptied(g.modifiersDetail, ANY_MODIFIER, 0) {
      var k0 :| 1 <= k0 < DETAIL_BITS && Has(g.detail, ANY_KEY, k0);
      var m0 :| 0 <= m0 < DETAIL_BITS && Has(g.modifiersDetail, ANY_MODIFIER, m0);
      var k := if n.detail.exact == ANY_KEY then k0 else n.detail.exact;
      var m := if n.modifiersDetail.exact == ANY_MODIFIER then m0 else n.modifiersDetail.exact;
      assert Key(k) && Modifiers(m) && Claims(g, k, m) && Claims(n, k, m);
    }
  }

  // ---------------------------------------------------------------- subtracting a grab

  function Without(mask: Option<Mask>, x: nat): (r: Mask)
    requires x < DETAIL_BITS
  {
    (if mask.Some? then mask.value else seq(DETAIL_BITS, _ => true))[x := false]
  }

  /** What ungrabbing does to one grab of the same client. */
  datatype Cut =
    | Keep
    | Delete
    | CutDetail(dmask: Mask)
    | CutModifiers(mmask: Mask)
    | Split(dmask: Mask, extra: GrabValue)

  function CutOf(g: GrabValue, min: GrabValue): Cut
    requires GrabOk(g) && GrabOk(min) && MaskFree(min)
  {
    if g.client != min.client || !GrabMatchesSecond(g, min) then Keep
    else if GrabSupersedesSecond(min, g) then Delete
    else if g.detail.exact == ANY_KEY && g.modifiersDetail.exact != ANY_MODIFIER then
      CutDetail(Without(g.detail.pMask, min.detail.exact))
    else if g.modifiersDetail.exact == ANY_MODIFIER && g.detail.exact != ANY_KEY then
      CutModifiers(Without(g.modifiersDetail.pMask, min.modifiersDetail.exact))
    else if min.detail.exact != ANY_KEY && min.modifiersDetail.exact != ANY_MODIFIER then
      Split(Without(g.detail.pMask, min.detail.exact),
            GrabValue(g.client, DetailRec(min.detail.exact, None),
                      DetailRec(ANY_MODIFIER, Some(Without(g.modifiersDetail.pMask, min.modifiersDetail.exact))),
                      g.attributes))
    else if min.detail.exact == ANY_KEY then
      CutModifiers(Without(g.modifiersDetail.pMask, min.modifiersDetail.exact))
    else
      CutDetail(Without(g.detail.pMask, min.detail.exact))
  }

  /** The grab itself after the cut. */
  function Kept(g: GrabValue, c: Cut): GrabValue {
    match c
    case Keep => g
    case Delete => g
    case CutDetail(mask) => g.(detail := g.detail.(pMask := Some(mask)))
    case CutModifiers(mask) => g.(modifiersDetail := g.modifiersDetail.(pMask := Some(mask)))
    case Split(mask, _) => g.(detail := g.detail.(pMask := Some(mask)))
  }

  ghost predicate ListOk(gs: seq<GrabValue>) {
    forall i :: 0 <= i < |gs| ==> GrabOk(gs[i])
  }

  ghost predicate Minuend(min: GrabValue) {
    GrabOk(min) && MaskFree(min)
  }

  /** The grabs that stay on the list, in their old order. */
  ghost function Survivors(gs: seq<GrabValue>, min: GrabValue): seq<GrabValue>
    requires ListOk(gs) && Minuend(min)
  {
    if gs == [] then []
    else
      var c := CutOf(gs[0], min);
      (if c.Delete? then [] else [Kept(gs[0], c)]) + Survivors(gs[1..], min)
  }

  /** The grabs created by splitting, the latest first. */
  ghost function Added(gs: seq<GrabValue>, min: GrabValue): seq<GrabValue>
    requires ListOk(gs) && Minuend(min)
  {
    if gs == [] then []
    else
      var c := CutOf(gs[|gs| - 1], min);
      (if c.Split? then [c.extra] else []) + Added(gs[..|gs| - 1], min)
  }

  ghost function Subtracted(gs: seq<GrabValue>, min: GrabValue): seq<GrabValue>
    requires ListOk(gs) && Minuend(min)
  {
    Added(gs, min) + Survivors(gs, min)
  }

  /** Cutting one grab takes the minuend's pairs out of it and leaves every other pair claimed
      exactly once, by the grab or by the part split off. */
  lemma CutIsExact(g: GrabValue, min: GrabValue, k: nat, m: nat)
    requires GrabOk(g) && Minuend(min) && Key(k) && Modifiers(m) && g.client == min.client
    ensures var c := CutOf(g, min);
            var inKept := !c.Delete? && Claims(Kept(g, c), k, m);
            var inExtra := c.Split? && Claims(c.extra, k, m);
            && (inKept || inExtra <==> Claims(g, k, m) && !Claims(min, k, m))
            && !(inKept && inExtra)
            && GrabOk(Kept(g, c)) && Kept(g, c).client == g.client
            && (c.Split? ==> GrabOk(c.extra) && c.extra.client == g.client)
  {
  }

  lemma ClaimsConcat(a: seq<GrabValue>, b: seq<GrabValue>, client: nat, k: nat, m: nat)
    requires Key(k) && Modifiers(m)
    ensures ClientClaims(a + b, client, k, m) <==> ClientClaims(a, client, k, m) || ClientClaims(b, client, k, m)
  {
    var s := a + b;
    if ClientClaims(a, client, k, m) {
      var i :| 0 <= i < |a| && a[i].client == client && Claims(a[i], k, m);
      assert s[i] == a[i];
    }
    if ClientClaims(b, client, k, m) {
      var i :| 0 <= i < |b| && b[i].client == client && Claims(b[i], k, m);
      assert s[|a| + i] == b[i];
    }
  }

  lemma ClaimsOne(g: GrabValue, client: nat, k: nat, m: nat)
    requires Key(k) && Modifiers(m)
    ensures ClientClaims([g], client, k, m) <==> g.client == client && Claims(g, k, m)
    ensures !ClientClaims([], client, k, m)
  {
    assert [g][0] == g;
  }

  lemma {:induction false} SurvivorClaims(gs: seq<GrabValue>, min: GrabValue, client: nat, k: nat, m: nat)
    requires ListOk(gs) && Minuend(min) && Key(k) && Modifiers(m)
    ensures ListOk(Survivors(gs, min))
    ensures ClientClaims(Survivors(gs, min), client, k, m) <==>
            exists i :: 0 <= i < |gs| && gs[i].client == client && !CutOf(gs[i], min).Delete? &&
                        Claims(Kept(gs[i], CutOf(gs[i], min)), k, m)
  {
    if gs != [] {
      var g, c := gs[0], CutOf(gs[0], min);
      SurvivorClaims(gs[1..], min, client, k, m);
      ClaimsConcat(if c.Delete? then [] else [Kept(g, c)], Survivors(gs[1..], min), client, k, m);
      ClaimsOne(Kept(g, c), client, k, m);
      assert forall i :: 0 < i < |gs| ==> gs[i] == gs[1..][i - 1];
    }
  }

  lemma SplitStays(g: GrabValue, min: GrabValue)
    requires GrabOk(g) && Minuend(min)
    ensures var c := CutOf(g, min); c.Split? ==> GrabOk(c.extra) && c.extra.client == g.client == min.client
  {
  }

  lemma {:induction false} AddedClaims(gs: seq<GrabValue>, min: GrabValue, client: nat, k: nat, m: nat)
    requires ListOk(gs) && Minuend(min) && Key(k) && Modifiers(m)
    ensures ListOk(Added(gs, min))
    ensures ClientClaims(Added(gs, min), client, k, m) <==>
            exists i :: 0 <= i < |gs| && gs[i].client == client && CutOf(gs[i], min).Split? &&
                        Claims(CutOf(gs[i], min).extra, k, m)
  {
    if gs != [] {
      hide CutOf, Claims;
      var n := |gs| - 1;
      var c := CutOf(gs[n], min);
      SplitStays(gs[n], min);
      AddedClaims(gs[..n], min, client, k, m);
      ClaimsConcat(if c.Split? then [c.extra] else [], Added(gs[..n], min), client, k, m);
      ClaimsOne(if c.Split? then c.extra else min, client, k, m);
      assert forall i :: 0 <= i < n ==> gs[i] == gs[..n][i];
    }
  }

  /** Ungrabbing is exact set subtraction on the client's claims and touches no other client's. */
  lemma SubtractionIsExact(gs: seq<GrabValue>, min: GrabValue, client: nat, k: nat, m: nat)
    requires ListOk(gs) && Minuend(min) && Key(k) && Modifiers(m)
    ensures ListOk(Subtracted(gs, min))
    ensures ClientClaims(Subtracted(gs, min), client, k, m) <==>
            ClientClaims(gs, client, k, m) && !(client == min.client && Claims(min, k, m))
  {
    SurvivorClaims(gs, min, client, k, m);
    AddedClaims(gs, min, client, k, m);
    ClaimsConcat(Added(gs, min), Survivors(gs, min), client, k, m);
    forall i | 0 <= i < |gs| && gs[i].client == min.client {
      CutIsExact(gs[i], min, k, m);
    }
  }

  /** A grab that stays is a part of an old one: of the same client, with the same event mask, modes,
      cursor and window, and claiming no pair that the old one did not. */
  ghost predicate PartOf(h: GrabValue, g: GrabValue) {
    && h.client == g.client && h.attributes == g.attributes
    && forall k, m :: Key(k) && Modifiers(m) && Claims(h, k, m) ==> Claims(g, k, m)
  }

  lemma CutParts(g: GrabValue, min: GrabValue)
    requires GrabOk(g) && Minuend(min)
    ensures var c := CutOf(g, min);
            && (!c.Delete? ==> PartOf(Kept(g, c), g)) && (c.Split? ==> PartOf(c.extra, g))
            && (g.client != min.client ==> c.Keep?) && (c.Keep? ==> Kept(g, c) == g)
  {
    var c := CutOf(g, min);
    if g.client == min.client {
      forall k, m | Key(k) && Modifiers(m)
        ensures !c.Delete? && Claims(Kept(g, c), k, m) ==> Claims(g, k, m)
        ensures c.Split? && Claims(c.extra, k, m) ==> Claims(g, k, m)
      {
        CutIsExact(g, min, k, m);
      }
    }
  }

  /** Every grab of hs is a part of one of gs, of a later one for each later one of hs. */
  ghost predicate PartsInOrder(hs: seq<GrabValue>, gs: seq<GrabValue>, from: seq<nat>) {
    && |from| == |hs| && (forall i :: 0 <= i < |hs| ==> from[i] < |gs| && PartOf(hs[i], gs[from[i]]))
    && forall i, j :: 0 <= i < j < |hs| ==> from[i] < from[j]
  }

  lemma PartsMore(hs: seq<GrabValue>, gs: seq<GrabValue>, from: seq<nat>, h: GrabValue, g: GrabValue)
    requires PartsInOrder(hs, gs, from)
    ensures var up := seq(|from|, i requires 0 <= i < |from| => from[i] + 1);
            PartsInOrder(hs, [g] + gs, up) && (PartOf(h, g) ==> PartsInOrder([h] + hs, [g] + gs, [0] + up))
  {
    hide PartOf;
    var up := seq(|from|, i requires 0 <= i < |from| => from[i] + 1);
    assert forall i :: 0 <= i < |hs| ==> ([g] + gs)[up[i]] == gs[from[i]];
  }

  /** What stays on the list are parts of the old grabs, in their old order. */
  lemma {:induction false} SurvivorsAreParts(gs: seq<GrabValue>, min: GrabValue) returns (from: seq<nat>)
    requires ListOk(gs) && Minuend(min)
    ensures PartsInOrder(Survivors(gs, min), gs, from)
  {
    if gs == [] {
      from := [];
    } else {
      hide CutOf, Kept, PartOf, PartsInOrder;
      var tl := SurvivorsAreParts(gs[1..], min);
      var c := CutOf(gs[0], min);
      CutParts(gs[0], min);
      PartsMore(Survivors(gs[1..], min), gs[1..], tl, Kept(gs[0], c), gs[0]);
      assert [gs[0]] + gs[1..] == gs;
      var up := seq(|tl|, i requires 0 <= i < |tl| => tl[i] + 1);
      from := if c.Delete? then up else [0] + up;
      assert Survivors(gs, min) == (if c.Delete? then [] else [Kept(gs[0], c)]) + Survivors(gs[1..], min);
      if c.Delete? { assert Survivors(gs, min) == Survivors(gs[1..], min); }
    }
  }

  /** The grabs split off are parts of old ones too. */
  lemma {:induction false} AddedAreParts(gs: seq<GrabValue>, min: GrabValue, i: nat)
    requires ListOk(gs) && Minuend(min) && i < |Added(gs, min)|
    ensures exists j :: 0 <= j < |gs| && gs[j].client == min.client && PartOf(Added(gs, min)[i], gs[j])
  {
    if gs != [] {
      hide CutOf, PartOf;
      var n := |gs| - 1;
      CutParts(gs[n], min);
      SplitStays(gs[n], min);
      var c, tl := CutOf(gs[n], min), Added(gs[..n], min);
      if c.Split? && i == 0 {
        assert Added(gs, min)[0] == c.extra && PartOf(c.extra, gs[n]);
      } else {
        var t := if c.Split? then i - 1 else i;
        assert Added(gs, min)[i] == tl[t];
        AddedAreParts(gs[..n], min, t);
        var j :| 0 <= j < n && gs[..n][j].client == min.client && PartOf(tl[t], gs[..n][j]);
        assert gs[..n][j] == gs[j];
      }
    }
  }

  /** The grabs of the other clients, in list order. */
  ghost function OthersOf(gs: seq<GrabValue>, client: nat): seq<GrabValue> {
    if gs == [] then [] else (if gs[0].client == client then [] else [gs[0]]) + OthersOf(gs[1..], client)
  }

  lemma {:induction false} OthersConcat(a: seq<GrabValue>, b: seq<GrabValue>, client: nat)
    ensures OthersOf(a + b, client) == OthersOf(a, client) + OthersOf(b, client)
  {
    if a == [] {
      assert a + b == b;
    } else {
      var head := if a[0].client == client then [] else [a[0]];
      assert (a + b)[0] == a[0] && (a + b)[1..] == a[1..] + b;
      OthersConcat(a[1..], b, client);
      assert OthersOf(a + b, client) == head + OthersOf(a[1..] + b, client);
      assert OthersOf(a, client) == head + OthersOf(a[1..], client);
      hide OthersOf;
    }
  }

  /** An ungrab leaves the other clients' grabs as they are, in their order. */
  lemma OthersStay(gs: seq<GrabValue>, min: GrabValue)
    requires ListOk(gs) && Minuend(min)
    ensures OthersOf(Subtracted(gs, min), min.client) == OthersOf(gs, min.client)
  {
    OthersConcat(Added(gs, min), Survivors(gs, min), min.client);
    NoOthersAdded(gs, min);
    OthersSurvive(gs, min);
  }

  lemma {:induction false} NoOthersAdded(gs: seq<GrabValue>, min: GrabValue)
    requires ListOk(gs) && Minuend(min)
    ensures OthersOf(Added(gs, min), min.client) == []
  {
    if gs != [] {
      hide CutOf;
      var n := |gs| - 1;
      NoOthersAdded(gs[..n], min);
      SplitStays(gs[n], min);
      var c := CutOf(gs[n], min);
      OthersConcat(if c.Split? then [c.extra] else [], Added(gs[..n], min), min.client);
    }
  }

  lemma {:induction false} OthersSurvive(gs: seq<GrabValue>, min: GrabValue)
    requires ListOk(gs) && Minuend(min)
    ensures OthersOf(Survivors(gs, min), min.client) == OthersOf(gs, min.client)
  {
    if gs != [] {
      hide CutOf, Kept, PartOf;
      OthersSurvive(gs[1..], min);
      CutParts(gs[0], min);
      CutClient(gs[0], min);
      var c := CutOf(gs[0], min);
      var kept := if c.Delete? then [] else [Kept(gs[0], c)];
      OthersConcat(kept, Survivors(gs[1..], min), min.client);
      assert OthersOf(kept, min.client) == if gs[0].client == min.client then [] else [gs[0]];
    }
  }

  lemma CutClient(g: GrabValue, min: GrabValue)
    requires GrabOk(g) && Minuend(min)
    ensures Kept(g, CutOf(g, min)).client == g.client
  {
  }

  // ---------------------------------------------------------------- what an ungrab needs

  /** How many allocations a cut needs: a mask, or for a split two masks, a grab and its resource; a
      window with passive grabs has its optional record already. */
  function NeedOf(c: Cut): nat {
    match c
    case Keep => 0
    case Delete => 0
    case CutDetail(_) => 1
    case CutModifiers(_) => 1
    case Split(_, _) => 4
  }

  ghost function NeedSum(gs: seq<GrabValue>, min: GrabValue): nat
    requires ListOk(gs) && Minuend(min)
  {
    if gs == [] then 0 else NeedSum(gs[..|gs| - 1], min) + NeedOf(CutOf(gs[|gs| - 1], min))
  }

  /** An ungrab first allocates its work arrays, unless there is nothing on the list. */
  ghost function Needed(gs: seq<GrabValue>, min: GrabValue): nat
    requires ListOk(gs) && Minuend(min)
  {
    if gs == [] then 0 else 1 + NeedSum(gs, min)
  }

  /** Whether the allocations from number `from` on, n of them, succeed. */
  ghost predicate Given(memory: nat -> bool, from: nat, n: nat) {
    forall j: nat :: from <= j < from + n ==> memory(j)
  }

  lemma GivenMore(memory: nat -> bool, from: nat, n: nat, m: nat)
    ensures Given(memory, from, n + m) <==> Given(memory, from, n) && Given(memory, from + n, m)
    ensures Given(memory, from, 0) && (Given(memory, from, 1) <==> memory(from))
  {
    if Given(memory, from, n) && Given(memory, from + n, m) {
      forall j: nat | from <= j < from + (n + m) ensures memory(j) {
        assert j < from + n || from + n <= j < from + n + m;
      }
    }
  }

  lemma GivenFour(memory: nat -> bool, k: nat)
    ensures Given(memory, k, 4) <==> memory(k) && memory(k + 1) && memory(k + 2) && memory(k + 3)
  {
    if memory(k) && memory(k + 1) && memory(k + 2) && memory(k + 3) {
      forall j: nat | k <= j < k + 4 ensures memory(j) {
        assert j == k || j == k + 1 || j == k + 2 || j == k + 3;
      }
    }
  }

  lemma NeedSumMore(gs: seq<GrabValue>, min: GrabValue, n: nat)
    requires ListOk(gs) && Minuend(min) && n < |gs|
    ensures NeedSum(gs[..n + 1], min) == NeedSum(gs[..n], min) + NeedOf(CutOf(gs[n], min)) && NeedSum(gs[..0], min) == 0
  {
    assert gs[..n + 1][..n] == gs[..n];
  }

  lemma NeedMore(memory: nat -> bool, gs: seq<GrabValue>, min: GrabValue, n: nat)
    requires ListOk(gs) && Minuend(min) && n < |gs|
    ensures NeedSum(gs[..n + 1], min) == NeedSum(gs[..n], min) + NeedOf(CutOf(gs[n], min))
    ensures Given(memory, 1, NeedSum(gs[..n + 1], min)) <==>
            && Given(memory, 1, NeedSum(gs[..n], min))
            && Given(memory, 1 + NeedSum(gs[..n], min), NeedOf(CutOf(gs[n], min)))
  {
    NeedSumMore(gs, min, n);
    GivenMore(memory, 1, NeedSum(gs[..n], min), NeedOf(CutOf(gs[n], min)));
  }

  lemma {:induction false} NeedSumGrows(gs: seq<GrabValue>, min: GrabValue, n: nat)
    requires ListOk(gs) && Minuend(min) && n <= |gs|
    ensures NeedSum(gs[..n], min) <= NeedSum(gs, min) <= 4 * |gs|
  {
    if n == |gs| {
      assert gs[..n] == gs;
      if n > 0 { NeedSumGrows(gs[..n - 1], min, n - 1); }
    } else {
      NeedSumGrows(gs[..|gs| - 1], min, n);
      assert gs[..|gs| - 1][..n] == gs[..n];
    }
  }

  // ---------------------------------------------------------------- runs of grabs and ungrabs

  /** A grab identical to a mask-free one is mask-free and claims the same pairs. */
  lemma IdenticalIsSame(n: GrabValue, g: GrabValue, k: nat, m: nat)
    requires GrabOk(n) && GrabOk(g) && MaskFree(n) && Key(k) && Modifiers(m)
    requires GrabsAreIdentical(n, g)
    ensures MaskFree(g) && (Claims(n, k, m) <==> Claims(g, k, m))
  {
  }

  ghost predicate Blocked(gs: seq<GrabValue>, n: GrabValue)
    requires ListOk(gs) && GrabOk(n)
  {
    exists i :: 0 <= i < |gs| && gs[i].client != n.client && GrabMatchesSecond(n, gs[i])
  }

  /** j is the first grab identical to n. */
  ghost predicate FirstIdentical(gs: seq<GrabValue>, n: GrabValue, j: int)
    requires ListOk(gs) && GrabOk(n)
  {
    && 0 <= j < |gs| && GrabsAreIdentical(n, gs[j])
    && forall i :: 0 <= i < j ==> !GrabsAreIdentical(n, gs[i])
  }

  /** The list before prepending n: an identical grab is subtracted first, which may fail for lack
      of memory and then changes nothing. */
  ghost predicate Cleared(gs: seq<GrabValue>, n: GrabValue, base: seq<GrabValue>)
    requires ListOk(gs) && GrabOk(n) && MaskFree(n)
  {
    base == gs ||
    exists j :: FirstIdentical(gs, n, j) && Minuend(gs[j]) && base == Subtracted(gs, gs[j])
  }

  /** The place of the first grab identical to n, or the end of the list. */
  ghost function IdenticalAt(gs: seq<GrabValue>, n: GrabValue): (i: nat)
    requires ListOk(gs) && GrabOk(n)
    ensures i <= |gs| && (i < |gs| ==> GrabsAreIdentical(n, gs[i]))
    ensures forall j :: 0 <= j < i ==> !GrabsAreIdentical(n, gs[j])
  {
    if gs == [] || GrabsAreIdentical(n, gs[0]) then 0
    else
      var i := IdenticalAt(gs[1..], n);
      assert forall j :: 0 < j <= i && j < |gs| ==> gs[j] == gs[1..][j - 1];
      i + 1
  }

  /** The list before prepending n, with the given memory. */
  ghost function Base(gs: seq<GrabValue>, n: GrabValue, memory: nat -> bool): seq<GrabValue>
    requires ListOk(gs) && GrabOk(n)
  {
    var i := IdenticalAt(gs, n);
    if i < |gs| && Minuend(gs[i]) && Given(memory, 0, Needed(gs, gs[i])) then Subtracted(gs, gs[i]) else gs
  }

  lemma BaseIs(gs: seq<GrabValue>, n: GrabValue, memory: nat -> bool, i: nat)
    requires ListOk(gs) && Minuend(n) && i <= |gs| && (i < |gs| ==> GrabsAreIdentical(n, gs[i]))
    requires forall j :: 0 <= j < i ==> !GrabsAreIdentical(n, gs[j])
    ensures i < |gs| ==> Minuend(gs[i])
    ensures Base(gs, n, memory) ==
            if i < |gs| && Given(memory, 0, Needed(gs, gs[i])) then Subtracted(gs, gs[i]) else gs
    ensures Cleared(gs, n, Base(gs, n, memory))
  {
    assert IdenticalAt(gs, n) == i;
    hide GrabsAreIdentical;
    if i < |gs| {
      assert Key(1) && Modifiers(0);
      IdenticalIsSame(n, gs[i], 1, 0);
      assert FirstIdentical(gs, n, i);
    }
  }

  /** With memory at hand no identical grab of the client is left. */
  lemma NoneIdenticalLeft(gs: seq<GrabValue>, n: GrabValue, memory: nat -> bool)
    requires ListOk(gs) && Minuend(n) && !Blocked(gs, n) && forall j: nat :: memory(j)
    ensures var base := Base(gs, n, memory);
            ListOk(base) && forall i :: 0 <= i < |base| ==> !GrabsAreIdentical(n, base[i])
  {
    var i := IdenticalAt(gs, n);
    BaseIs(gs, n, memory, i);
    hide Base, GrabsAreIdentical, GrabMatchesSecond, Claims, MaskFree, GrabOk, Needed, Cleared, FirstIdentical,
         IdenticalAt;
    if i < |gs| {
      var min := gs[i];
      IdenticalMatches(n, min);
      assert Key(1) && Modifiers(0);
      SubtractionIsExact(gs, min, 0, 1, 0);
      SurvivorsDiffer(gs, n, min);
      AddedDiffer(gs, n, min);
    }
  }

  lemma IdenticalMatches(n: GrabValue, g: GrabValue)
    requires Minuend(n) && GrabOk(g) && GrabsAreIdentical(n, g)
    ensures GrabMatchesSecond(n, g) && MaskFree(g)
    ensures n.detail.exact == g.detail.exact && n.modifiersDetail.exact == g.modifiersDetail.exact
  {
  }

  /** A cut leaves nothing identical to the minuend's pattern. */
  lemma CutDiffers(g: GrabValue, n: GrabValue, min: GrabValue)
    requires GrabOk(g) && Minuend(n) && Minuend(min) && GrabsAreIdentical(n, min)
    requires g.client != min.client ==> !GrabsAreIdentical(n, g)
    ensures var c := CutOf(g, min);
            && (!c.Delete? ==> GrabOk(Kept(g, c)) && !GrabsAreIdentical(n, Kept(g, c)))
            && (c.Split? ==> GrabOk(c.extra) && !GrabsAreIdentical(n, c.extra))
  {
  }

  lemma {:induction false} SurvivorsDiffer(gs: seq<GrabValue>, n: GrabValue, min: GrabValue)
    requires ListOk(gs) && Minuend(n) && Minuend(min) && GrabsAreIdentical(n, min)
    requires forall i :: 0 <= i < |gs| && gs[i].client != min.client ==> !GrabsAreIdentical(n, gs[i])
    ensures var s := Survivors(gs, min);
            forall h :: h in s ==> GrabOk(h) && !GrabsAreIdentical(n, h)
  {
    if gs != [] {
      hide CutOf, Kept, GrabsAreIdentical, GrabOk;
      SurvivorsDiffer(gs[1..], n, min);
      CutDiffers(gs[0], n, min);
      var c, tl := CutOf(gs[0], min), Survivors(gs[1..], min);
      forall h | h in Survivors(gs, min) ensures GrabOk(h) && !GrabsAreIdentical(n, h) {
        assert h in tl || (!c.Delete? && h == Kept(gs[0], c));
      }
    }
  }

  lemma {:induction false} AddedDiffer(gs: seq<GrabValue>, n: GrabValue, min: GrabValue)
    requires ListOk(gs) && Minuend(n) && Minuend(min) && GrabsAreIdentical(n, min)
    requires forall i :: 0 <= i < |gs| && gs[i].client != min.client ==> !GrabsAreIdentical(n, gs[i])
    ensures var s := Added(gs, min);
            forall h :: h in s ==> GrabOk(h) && !GrabsAreIdentical(n, h)
  {
    if gs != [] {
      hide CutOf, GrabsAreIdentical, GrabOk;
      AddedDiffer(gs[..|gs| - 1], n, min);
      CutDiffers(gs[|gs| - 1], n, min);
      var c, tl := CutOf(gs[|gs| - 1], min), Added(gs[..|gs| - 1], min);
      forall h | h in Added(gs, min) ensures GrabOk(h) && !GrabsAreIdentical(n, h) {
        assert h in tl || (c.Split? && h == c.extra);
      }
    }
  }

  ghost predicate AddSucceeds(gs: seq<GrabValue>, n: GrabValue, gs': seq<GrabValue>)
    requires ListOk(gs)
  {
    && Minuend(n)
    && !Blocked(gs, n)
    && exists base :: Cleared(gs, n, base) && gs' == [n] + base
  }

  /** A successful add gives the client exactly its old claims and the new ones, and other clients
      keep theirs, also when an identical grab is removed on the way. */
  lemma AddIsExact(gs: seq<GrabValue>, n: GrabValue, gs': seq<GrabValue>, client: nat, k: nat, m: nat)
    requires ListOk(gs) && AddSucceeds(gs, n, gs') && Key(k) && Modifiers(m)
    ensures ListOk(gs')
    ensures ClientClaims(gs', client, k, m) <==>
            ClientClaims(gs, client, k, m) || (client == n.client && Claims(n, k, m))
  {
    var base :| Cleared(gs, n, base) && gs' == [n] + base;
    ClaimsConcat([n], base, client, k, m);
    ClaimsOne(n, client, k, m);
    if base != gs {
      var j :| FirstIdentical(gs, n, j) && Minuend(gs[j]) && base == Subtracted(gs, gs[j]);
      IdenticalIsSame(n, gs[j], k, m);
      SubtractionIsExact(gs, gs[j], client, k, m);
      assert gs[j].client == n.client;
    }
  }

  /** No pair is claimed by two clients. */
  ghost predicate Disjoint(gs: seq<GrabValue>) {
    forall c, d, k, m :: Key(k) && Modifiers(m) && ClientClaims(gs, c, k, m) && ClientClaims(gs, d, k, m) ==> c == d
  }

  datatype Request = Grab(g: GrabValue) | Ungrab(min: GrabValue)

  /** One request: it fails and changes nothing, or it does its work. */
  ghost predicate Step(gs: seq<GrabValue>, r: Request, gs': seq<GrabValue>)
    requires ListOk(gs)
  {
    || gs' == gs
    || (r.Grab? && AddSucceeds(gs, r.g, gs'))
    || (r.Grab? && Minuend(r.g) && !Blocked(gs, r.g) && Cleared(gs, r.g, gs'))  // out of memory after clearing
    || (r.Ungrab? && Minuend(r.min) && gs' == Subtracted(gs, r.min))
  }

  lemma StepKeepsDisjoint(gs: seq<GrabValue>, r: Request, gs': seq<GrabValue>)
    requires ListOk(gs) && Disjoint(gs) && Step(gs, r, gs')
    ensures ListOk(gs') && Disjoint(gs')
  {
    if gs' != gs {
      assert Key(1) && Modifiers(0);
      if r.Grab? && AddSucceeds(gs, r.g, gs') {
        AddIsExact(gs, r.g, gs', 0, 1, 0);
        forall c, d, k, m | Key(k) && Modifiers(m) && ClientClaims(gs', c, k, m) && ClientClaims(gs', d, k, m)
          ensures c == d
        {
          AddIsExact(gs, r.g, gs', c, k, m);
          AddIsExact(gs, r.g, gs', d, k, m);
          NotBlockedNoClaim(gs, r.g, c, k, m);
          NotBlockedNoClaim(gs, r.g, d, k, m);
        }
      } else {
        var min: GrabValue :| Minuend(min) && gs' == Subtracted(gs, min);
        SubtractionIsExact(gs, min, 0, 1, 0);
        forall c, d, k, m | Key(k) && Modifiers(m) && ClientClaims(gs', c, k, m) && ClientClaims(gs', d, k, m)
          ensures c == d
        {
          SubtractionIsExact(gs, min, c, k, m);
          SubtractionIsExact(gs, min, d, k, m);
        }
      }
    }
  }

  /** A grab that is not refused takes no pair another client claims. */
  lemma NotBlockedNoClaim(gs: seq<GrabValue>, n: GrabValue, c: nat, k: nat, m: nat)
    requires ListOk(gs) && Minuend(n) && !Blocked(gs, n) && Key(k) && Modifiers(m)
    ensures c != n.client && Claims(n, k, m) ==> !ClientClaims(gs, c, k, m)
  {
    if c != n.client && Claims(n, k, m) && ClientClaims(gs, c, k, m) {
      var i :| 0 <= i < |gs| && gs[i].client == c && Claims(gs[i], k, m);
      assert GrabMatchesSecond(n, gs[i]);
    }
  }

  ghost predicate Run(states: seq<seq<GrabValue>>, rs: seq<Request>) {
    && |states| == |rs| + 1 && states[0] == []
    && forall i :: 0 <= i < |rs| ==> ListOk(states[i]) && Step(states[i], rs[i], states[i + 1])
  }

  /** Over any run from a fresh window, claims of different clients never overlap. */
  lemma {:induction false} RunKeepsDisjoint(states: seq<seq<GrabValue>>, rs: seq<Request>, n: nat)
    requires Run(states, rs) && n <= |rs|
    ensures ListOk(states[n]) && Disjoint(states[n])
  {
    if n > 0 {
      RunKeepsDisjoint(states, rs, n - 1);
      StepKeepsDisjoint(states[n - 1], rs[n - 1], states[n]);
    }
  }

  // ---------------------------------------------------------------- an emptied grab

  /** A client's grab of a key with any modifiers, after it ungrabbed the key with each of the first
      n modifier states. */
  function Whittled(client: nat, key: nat, n: nat): GrabValue {
    GrabValue(client, DetailRec(key, None),
              DetailRec(ANY_MODIFIER, if n == 0 then None else Some(seq(DETAIL_BITS, x => x >= n))), 0)
  }

  function ExactGrab(client: nat, key: nat, modifiers: nat): GrabValue {
    GrabValue(client, DetailRec(key, None), DetailRec(modifiers, None), 0)
  }

  ghost function WhittlingStates(client: nat, key: nat): seq<seq<GrabValue>> {
    seq(DETAIL_BITS + 2, i requires i >= 0 => if i == 0 then [] else [Whittled(client, key, i - 1)])
  }

  ghost function WhittlingRequests(client: nat, key: nat): seq<Request> {
    seq(DETAIL_BITS + 1, i requires i >= 0 =>
      if i == 0 then Request.Grab(Whittled(client, key, 0)) else Ungrab(ExactGrab(client, key, i - 1)))
  }

  lemma WhittledOnce(client: nat, key: nat, n: nat)
    requires Key(key) && n < DETAIL_BITS
    ensures ListOk([Whittled(client, key, n)]) && Minuend(ExactGrab(client, key, n))
    ensures Subtracted([Whittled(client, key, n)], ExactGrab(client, key, n)) == [Whittled(client, key, n + 1)]
  {
    var g, min := Whittled(client, key, n), ExactGrab(client, key, n);
    assert Without(g.modifiersDetail.pMask, n) == Whittled(client, key, n + 1).modifiersDetail.pMask.value;
    assert CutOf(g, min) == CutModifiers(Without(g.modifiersDetail.pMask, n));
    assert [g][1..] == [] && [g][..0] == [];
    assert Survivors([], min) == [] && Added([], min) == [];
  }

  /** A client that grabs a key with any modifiers and then ungrabs it with every modifier state ends
      with a grab that claims nothing and still blocks other clients. */
  lemma EmptiedGrabStillMatches(client: nat, other: nat, key: nat)
    requires Key(key) && client != other
    ensures var states, rs := WhittlingStates(client, key), WhittlingRequests(client, key);
            && Run(states, rs)
            && var gs := states[|rs|];
               && ListOk(gs)
               && (forall c, k, m :: Key(k) && Modifiers(m) ==> !ClientClaims(gs, c, k, m))
               && Blocked(gs, ExactGrab(other, key, ANY_MODIFIER))
  {
    var states, rs := WhittlingStates(client, key), WhittlingRequests(client, key);
    forall i | 0 <= i < |rs| ensures ListOk(states[i]) && Step(states[i], rs[i], states[i + 1]) {
      if i == 0 {
        assert Cleared([], rs[0].g, []) && states[1] == [rs[0].g] + [];
      } else {
        WhittledOnce(client, key, i - 1);
      }
    }
    WhittledOnce(client, key, DETAIL_BITS - 1);
    var gs := states[|rs|];
    assert gs == [Whittled(client, key, DETAIL_BITS)];
    assert GrabMatchesSecond(ExactGrab(other, key, ANY_MODIFIER), gs[0]);
  }

  // ---------------------------------------------------------------- the code

  class Grab {
    const client: nat
    const attributes: int
    var detail: DetailRec
    var modifiersDetail: DetailRec

    constructor (g: GrabValue)
      ensures Value() == g
    {
      client, attributes := g.client, g.attributes;
      detail, modifiersDetail := g.detail, g.modifiersDetail;
    }

    function Value(): GrabValue reads this {
      GrabValue(client, detail, modifiersDetail, attributes)
    }
  }

  function Values(gs: seq<Grab>): (vs: seq<GrabValue>)
    reads gs
    ensures |vs| == |gs| && forall i :: 0 <= i < |gs| ==> vs[i] == gs[i].Value()
  {
    if gs == [] then [] else [gs[0].Value()] + Values(gs[1..])
  }

  /** A mask waiting to be replaced: one side of one grab. */
  datatype Pending = NoMask | DetailMask(grab: Grab) | ModifiersMask(grab: Grab)

  function Members(s: seq<Grab>): set<Grab> {
    set g | g in s
  }

  /** The list without some grabs. */
  function Removed(s: seq<Grab>, gone: set<Grab>): seq<Grab> {
    if s == [] then [] else (if s[0] in gone then [] else [s[0]]) + Removed(s[1..], gone)
  }

  function Reversed(s: seq<Grab>): seq<Grab> {
    if s == [] then [] else [s[|s| - 1]] + Reversed(s[..|s| - 1])
  }

  function MaskOf(p: Pending): Option<Mask>
    requires !p.NoMask?
    reads if p.NoMask? then {} else {p.grab}
  {
    if p.DetailMask? then p.grab.detail.pMask else p.grab.modifiersDetail.pMask
  }

  ghost predicate Edits(c: Cut) { c.CutDetail? || c.CutModifiers? || c.Split? }

  function EditOf(g: Grab, c: Cut): Pending
    requires Edits(c)
  {
    if c.CutModifiers? then ModifiersMask(g) else DetailMask(g)
  }

  function EditMask(c: Cut): Mask
    requires Edits(c)
  {
    if c.CutModifiers? then c.mmask else c.dmask
  }

  /** Positions of the grabs to edit, or else of those to delete, in list order. */
  ghost function Indices(vs: seq<GrabValue>, min: GrabValue, edits: bool): seq<nat>
    requires ListOk(vs) && Minuend(min)
  {
    if vs == [] then []
    else
      var n := |vs| - 1;
      var c := CutOf(vs[n], min);
      Indices(vs[..n], min, edits) + if (if edits then Edits(c) else c.Delete?) then [n] else []
  }

  /** What the work arrays hold once every grab of gs has been looked at. */
  ghost predicate Planned(gs: seq<Grab>, vs: seq<GrabValue>, min: GrabValue, deletes: seq<Grab?>, adds: seq<GrabValue>,
                          updates: seq<Pending>, details: seq<Option<Mask>>)
    requires |gs| == |vs| && ListOk(vs) && Minuend(min)
  {
    var di, ei := Indices(vs, min, false), Indices(vs, min, true);
    && |deletes| == |di| && |updates| == |details| == |ei|
    && (forall j :: 0 <= j < |di| ==> di[j] < |vs| && deletes[j] == gs[di[j]])
    && (forall j :: 0 <= j < |ei| ==> QueuedEdit(gs, vs, min, j, updates[j], details[j]))
    && adds == Added(vs, min)
  }

  lemma PlannedNone(min: GrabValue)
    requires Minuend(min)
    ensures Planned([], [], min, [], [], [], [])
  {
  }

  ghost predicate QueuedEdit(gs: seq<Grab>, vs: seq<GrabValue>, min: GrabValue, j: nat, update: Pending,
                             detail: Option<Mask>)
    requires |gs| == |vs| && ListOk(vs) && Minuend(min) && j < |Indices(vs, min, true)|
  {
    var i := Indices(vs, min, true)[j];
    && i < |vs| && Edits(CutOf(vs[i], min))
    && update == EditOf(gs[i], CutOf(vs[i], min)) && detail == Some(EditMask(CutOf(vs[i], min)))
  }

  /** The work array of deletes holds the grabs whose cut is a deletion, and no others. */
  lemma PlannedDeletes(gs: seq<Grab>, vs: seq<GrabValue>, min: GrabValue, deletes: seq<Grab?>, adds: seq<GrabValue>,
                       updates: seq<Pending>, details: seq<Option<Mask>>)
    requires |gs| == |vs| && ListOk(vs) && Minuend(min) && NoRepeats(gs)
    requires Planned(gs, vs, min, deletes, adds, updates, details)
    ensures forall j :: 0 <= j < |deletes| ==> deletes[j] != null && deletes[j] in gs
    ensures forall i :: 0 <= i < |gs| ==> (gs[i] in deletes <==> CutOf(vs[i], min).Delete?)
  {
    hide CutOf;
    var di := Indices(vs, min, false);
    IndicesAscend(vs, min, false);
    forall i: nat | i < |gs| ensures gs[i] in deletes <==> CutOf(vs[i], min).Delete? {
      assert i in di <==> CutOf(vs[i], min).Delete?;
      if i in di {
        var j :| 0 <= j < |di| && di[j] == i;
        assert deletes[j] == gs[i];
      }
      if gs[i] in deletes {
        var j :| 0 <= j < |deletes| && deletes[j] == gs[i];
        assert di[j] in di;
      }
    }
  }

  /** Looking at one more grab extends the plan by what its cut calls for. */
  lemma PlannedNext(gs: seq<Grab>, vs: seq<GrabValue>, min: GrabValue, n: nat,
                    d: seq<Grab?>, a: seq<GrabValue>, u: seq<Pending>, m: seq<Option<Mask>>,
                    d': seq<Grab?>, a': seq<GrabValue>, u': seq<Pending>, m': seq<Option<Mask>>)
    requires |gs| == |vs| && n < |vs| && ListOk(vs) && Minuend(min)
    requires Planned(gs[..n], vs[..n], min, d, a, u, m)
    requires var c := CutOf(vs[n], min);
             && d' == d + (if c.Delete? then [gs[n]] else [])
             && a' == (if c.Split? then [c.extra] else []) + a
             && u' == u + (if Edits(c) then [EditOf(gs[n], c)] else [])
             && m' == m + (if Edits(c) then [Some(EditMask(c))] else [])
    ensures Planned(gs[..n + 1], vs[..n + 1], min, d', a', u', m')
  {
    var ws := vs[..n + 1];
    assert ws[..n] == vs[..n] && ws[n] == vs[n];
    assert gs[..n + 1][..n] == gs[..n];
  }

  lemma {:induction false} IndicesAscend(vs: seq<GrabValue>, min: GrabValue, edits: bool)
    requires ListOk(vs) && Minuend(min)
    ensures forall i, j :: 0 <= i < j < |Indices(vs, min, edits)| ==>
            Indices(vs, min, edits)[i] < Indices(vs, min, edits)[j]
    ensures forall i: nat :: i in Indices(vs, min, edits) <==>
              i < |vs| && if edits then Edits(CutOf(vs[i], min)) else CutOf(vs[i], min).Delete?
  {
    if vs != [] {
      IndicesAscend(vs[..|vs| - 1], min, edits);
      assert forall i :: 0 <= i < |vs| - 1 ==> vs[..|vs| - 1][i] == vs[i];
      var ds := Indices(vs[..|vs| - 1], min, edits);
      assert forall j :: 0 <= j < |ds| ==> ds[j] in ds;
    }
  }

  datatype Code = Success | BadAccess | BadAlloc | Denied

  /** The passive grabs of one window, with the resources registered for them. */
  class GrabList {
    var passiveGrabs: seq<Grab>
    var resources: set<Grab>

    ghost predicate Valid() reads this, passiveGrabs {
      && NoRepeats(passiveGrabs)
      && resources == Members(passiveGrabs)
      && ListOk(Values(passiveGrabs))
    }

    /** A fresh mask without one value, or nothing when there is no room for it. */
    method DeleteDetailFromMask(pDetailMask: Option<Mask>, detail: nat, room: bool) returns (mask: Option<Mask>)
      requires detail < DETAIL_BITS
      ensures mask.Some? <==> room
      ensures room ==> forall x :: 0 <= x < DETAIL_BITS ==>
                mask.value[x] == (x != detail && (pDetailMask.None? || pDetailMask.value[x]))
      ensures room ==> mask.value == Without(pDetailMask, detail)
    {
      if !room { return None; }
      var m: seq<bool> := [];
      if pDetailMask.Some? {
        for i := 0 to DETAIL_BITS
          invariant m == pDetailMask.value[..i]
        {
          m := m + [pDetailMask.value[i]];
        }
      } else {
        for i := 0 to DETAIL_BITS
          invariant |m| == i && forall k :: 0 <= k < i ==> m[k]
        {
          m := m + [true];
        }
      }
      m := m[detail := false];
      assert m == Without(pDetailMask, detail);
      mask := Some(m);
    }

    /** Unlinks a grab and forgets its resource; a grab that is not on the list is just freed. */
    method FreeResource(g: Grab)
      requires NoRepeats(passiveGrabs)
      modifies this
      ensures passiveGrabs == Removed(old(passiveGrabs), {g})
      ensures resources == old(resources) - {g}
    {
      resources := resources - {g};
      for i := 0 to |passiveGrabs|
        invariant g !in passiveGrabs[..i]
      {
        if passiveGrabs[i] == g {
          RemoveOne(passiveGrabs, i);
          passiveGrabs := passiveGrabs[..i] + passiveGrabs[i + 1..];
          return;
        }
      }
      assert passiveGrabs[..|passiveGrabs|] == passiveGrabs;
      RemoveNone(passiveGrabs, {g});
    }

    /** Registers a resource; without room for it the object is freed. */
    method AddResource(g: Grab, room: bool) returns (done: bool)
      requires NoRepeats(passiveGrabs) && g !in passiveGrabs && g !in resources
      modifies this
      ensures passiveGrabs == old(passiveGrabs)
      ensures done == room && resources == old(resources) + if room then {g} else {}
    {
      done := room;
      if done {
        resources := resources + {g};
      } else {
        RemoveNone(passiveGrabs, {g});
        FreeResource(g);
      }
    }

    /** Decides what happens to one grab: at most one delete, or one edit and one new grab. */
    method ScanOne(grab: Grab, min: Grab, deletes: array<Grab?>, adds: array<Grab?>, updates: array<Pending>,
                   details: array<Option<Mask>>, ndels: nat, nadds: nat, nups: nat, memory: nat -> bool, k: nat)
      returns (ok: bool, ndels': nat, nadds': nat, nups': nat, k': nat)
      requires NoRepeats(passiveGrabs) && GrabOk(grab.Value()) && Minuend(min.Value())
      requires ndels < deletes.Length && nadds < adds.Length && nups < updates.Length == details.Length
      requires deletes != adds
      modifies this, deletes, adds, updates, details
      ensures passiveGrabs == old(passiveGrabs)
      ensures deletes[..ndels] == old(deletes[..ndels]) && ndels <= ndels' <= ndels + 1
      ensures adds[..nadds] == old(adds[..nadds]) && nadds <= nadds' <= nadds + 1
      ensures updates[..nups] == old(updates[..nups]) && nups <= nups' <= nups + 1
      ensures details[..nups] == old(details[..nups])
      ensures nadds' == nadds ==> resources == old(resources)
      ensures nadds' > nadds ==>
              adds[nadds] != null && fresh(adds[nadds]) && resources == old(resources) + {adds[nadds]}
      ensures ok ==>
        var c := CutOf(old(grab.Value()), old(min.Value()));
        && deletes[..ndels'] == old(deletes[..ndels]) + (if c.Delete? then [grab] else [])
        && updates[..nups'] == old(updates[..nups]) + (if Edits(c) then [EditOf(grab, c)] else [])
        && details[..nups'] == old(details[..nups]) + (if Edits(c) then [Some(EditMask(c))] else [])
        && (nadds' > nadds <==> c.Split?) && (c.Split? ==> adds[nadds].Value() == c.extra)
        && k' == k + NeedOf(c)
      ensures ok <==> Given(memory, k, NeedOf(CutOf(old(grab.Value()), old(min.Value()))))
    {
      GivenMore(memory, k, 0, 0);
      GivenFour(memory, k);
      hide Given;
      ok, ndels', nadds', nups', k' := true, ndels, nadds, nups, k;
      if grab.client != min.client || !GrabMatchesSecond(grab.Value(), min.Value()) {
      } else if GrabSupersedesSecond(min.Value(), grab.Value()) {
        deletes[ndels] := grab;
        ndels' := ndels + 1;
      } else if grab.detail.exact == ANY_KEY && grab.modifiersDetail.exact != ANY_MODIFIER {
        ok, nups' := Update(DetailMask(grab), min.detail.exact, updates, details, nups, memory(k));
        k' := k + 1;
      } else if grab.modifiersDetail.exact == ANY_MODIFIER && grab.detail.exact != ANY_KEY {
        ok, nups' := Update(ModifiersMask(grab), min.modifiersDetail.exact, updates, details, nups, memory(k));
        k' := k + 1;
      } else if min.detail.exact != ANY_KEY && min.modifiersDetail.exact != ANY_MODIFIER {
        ok, nups' := Update(DetailMask(grab), min.detail.exact, updates, details, nups, memory(k));
        var extra := SplitOff(grab, min, memory(k + 1), memory(k + 2), memory(k + 3));
        k' := k + 4;
        if extra == null {
          ok := false;
        } else {
          adds[nadds] := extra;
          nadds' := nadds + 1;
        }
      } else if min.detail.exact == ANY_KEY {
        ok, nups' := Update(ModifiersMask(grab), min.modifiersDetail.exact, updates, details, nups, memory(k));
        k' := k + 1;
      } else {
        ok, nups' := Update(DetailMask(grab), min.detail.exact, updates, details, nups, memory(k));
        k' := k + 1;
      }
    }

    /** Decides what happens to grab n, extending the plan for the grabs before it. */
    method ScanNext(n: nat, min: Grab, deletes: array<Grab?>, adds: array<Grab?>, updates: array<Pending>,
                    details: array<Option<Mask>>, ndels: nat, nadds: nat, nups: nat, memory: nat -> bool, k: nat,
                    ghost a: seq<Grab>)
      returns (ok: bool, ndels': nat, nadds': nat, nups': nat, k': nat, ghost a': seq<Grab>)
      requires NoRepeats(passiveGrabs) && ListOk(Values(passiveGrabs)) && Minuend(min.Value()) && n < |passiveGrabs|
      requires deletes.Length == adds.Length == updates.Length == details.Length == |passiveGrabs| && deletes != adds
      requires ndels <= n && nadds <= n && nups <= n && adds[..nadds] == a
      requires Planned(passiveGrabs[..n], Values(passiveGrabs)[..n], min.Value(), deletes[..ndels], Values(Reversed(a)),
                       updates[..nups], details[..nups])
      modifies this, deletes, adds, updates, details
      ensures passiveGrabs == old(passiveGrabs)
      ensures Values(passiveGrabs) == old(Values(passiveGrabs)) && min.Value() == old(min.Value())
      ensures ndels' <= n + 1 && nadds <= nadds' <= nadds + 1 && nups' <= n + 1 && adds[..nadds'] == a'
      ensures nadds' == nadds ==> a' == a && resources == old(resources)
      ensures nadds' != nadds ==>
        a' == a + [a'[|a|]] && fresh(a'[|a|]) && resources == old(resources) + {a'[|a|]}
      ensures ok ==> Planned(passiveGrabs[..n + 1], Values(passiveGrabs)[..n + 1], min.Value(), deletes[..ndels'],
                             Values(Reversed(a')), updates[..nups'], details[..nups'])
      ensures ok <==> Given(memory, k, NeedOf(CutOf(old(Values(passiveGrabs))[n], old(min.Value()))))
      ensures ok ==> k' == k + NeedOf(CutOf(old(Values(passiveGrabs))[n], old(min.Value())))
    {
      hide Given, Planned, NoRepeats, Minuend, GrabOk, Members, GrabMatchesSecond, CutOf, NeedOf;
      ghost var vs, mv, av := Values(passiveGrabs), min.Value(), Values(Reversed(a));
      ghost var d, u, m := deletes[..ndels], updates[..nups], details[..nups];
      ok, ndels', nadds', nups', k' :=
        ScanOne(passiveGrabs[n], min, deletes, adds, updates, details, ndels, nadds, nups, memory, k);
      SameValues(passiveGrabs);
      SameValues(Reversed(a));
      a' := a;
      if nadds' > nadds {
        a' := a + [adds[nadds]];
        assert adds[..nadds'] == a';
        ReversedMore(a', a);
      }
      if ok {
        PlannedNext(passiveGrabs, vs, mv, n, d, av, u, m, deletes[..ndels'], Values(Reversed(a')), updates[..nups'],
                    details[..nups']);
      }
    }

    lemma NeedSumNone(vs: seq<GrabValue>, mv: GrabValue)
      requires ListOk(vs) && Minuend(mv)
      ensures NeedSum(vs[..0], mv) == 0
    {
    }

    lemma ValidLists()
      requires Valid()
      ensures NoRepeats(passiveGrabs) && ListOk(Values(passiveGrabs))
      ensures forall n :: 0 <= n <= |passiveGrabs| ==> ListOk(Values(passiveGrabs)[..n])
    {
    }

    /** Decides what happens to every grab without changing any: the work arrays have one slot for
        each grab on the list, and no slot is missing. */
    method Scan(min: Grab, deletes: array<Grab?>, adds: array<Grab?>, updates: array<Pending>,
                details: array<Option<Mask>>, memory: nat -> bool)
      returns (ok: bool, ndels: nat, nadds: nat, nups: nat, ghost a: seq<Grab>)
      requires Valid() && Minuend(min.Value())
      requires deletes.Length == adds.Length == updates.Length == details.Length == |passiveGrabs| && deletes != adds
      modifies this, deletes, adds, updates, details
      ensures passiveGrabs == old(passiveGrabs)
      ensures Values(passiveGrabs) == old(Values(passiveGrabs)) && min.Value() == old(min.Value())
      ensures ndels <= deletes.Length && nadds <= adds.Length && nups <= updates.Length
      ensures adds[..nadds] == a && NewGrabs(a, old(resources), resources)
      ensures forall i :: 0 <= i < |a| ==> fresh(a[i])
      ensures ok ==> Planned(passiveGrabs, Values(passiveGrabs), min.Value(), deletes[..ndels], Values(Reversed(a)),
                             updates[..nups], details[..nups])
      ensures ok <==> Given(memory, 1, NeedSum(old(Values(passiveGrabs)), old(min.Value())))
    {
      hide Planned, GrabMatchesSecond, Minuend, GrabOk, ListOk, NoRepeats, Reversed, NewGrabs, Members, Values, Given,
           NeedSum, NeedOf, CutOf;
      ValidLists();
      ghost var vs, mv := Values(passiveGrabs), min.Value();
      NewGrabsNone(resources);
      ok, ndels, nadds, nups, a := true, 0, 0, 0, [];
      var n, k := 0, 1;
      PlannedNone(mv);
      NeedSumNone(vs, mv);
      GivenMore(memory, 1, 0, 0);
      while n < |passiveGrabs| && ok
        invariant passiveGrabs == old(passiveGrabs)
        invariant n <= |passiveGrabs| && Values(passiveGrabs) == vs && min.Value() == mv
        invariant ndels <= n && nadds <= n && nups <= n && adds[..nadds] == a
        invariant NewGrabs(a, old(resources), resources)
        invariant forall i :: 0 <= i < |a| ==> fresh(a[i])
        invariant ok ==> Planned(passiveGrabs[..n], vs[..n], mv, deletes[..ndels], Values(Reversed(a)), updates[..nups],
                                 details[..nups])
        invariant ok ==> k == 1 + NeedSum(vs[..n], mv)
        invariant ok <==> Given(memory, 1, NeedSum(vs[..n], mv))
      {
        ghost var a0, r0 := a, resources;
        NeedMore(memory, vs, mv, n);
        ok, ndels, nadds, nups, k, a :=
          ScanNext(n, min, deletes, adds, updates, details, ndels, nadds, nups, memory, k, a);
        if |a| != |a0| { NewGrabsMore(a0, a[|a0|], old(resources), r0); }
        n := n + 1;
      }
      assert passiveGrabs[..|passiveGrabs|] == passiveGrabs && vs[..|vs|] == vs;
      NeedSumGrows(vs, mv, n);
      GivenMore(memory, 1, NeedSum(vs[..n], mv), NeedSum(vs, mv) - NeedSum(vs[..n], mv));
    }

    /** Frees the resources of the first `count` entries, unlinking those that are on the list. */
    method FreeAll(grabs: array<Grab?>, count: nat, ghost gs: seq<Grab>)
      requires count <= grabs.Length && grabs[..count] == gs && NoRepeats(passiveGrabs)
      modifies this
      ensures passiveGrabs == Removed(old(passiveGrabs), Members(gs)) && resources == old(resources) - Members(gs)
    {
      RemoveNone(passiveGrabs, {});
      assert Members(gs[..0]) == {};
      for j := 0 to count
        invariant NoRepeats(passiveGrabs)
        invariant passiveGrabs == Removed(old(passiveGrabs), Members(gs[..j]))
        invariant resources == old(resources) - Members(gs[..j])
      {
        assert Members(gs[..j + 1]) == Members(gs[..j]) + {gs[j]};
        RemoveMore(old(passiveGrabs), Members(gs[..j]), gs[j]);
        assert grabs[j] == grabs[..count][j];
        FreeResource(grabs[j]);
        RemoveKeepsNoRepeats(old(passiveGrabs), Members(gs[..j + 1]));
      }
      assert gs[..count] == gs;
    }

    /** Frees the new grabs of a plan that could not be completed. */
    method DropNew(adds: array<Grab?>, nadds: nat, ghost a: seq<Grab>)
      requires nadds <= adds.Length && adds[..nadds] == a && NoRepeats(passiveGrabs)
      requires NewGrabs(a, Members(passiveGrabs), resources)
      modifies this
      ensures passiveGrabs == old(passiveGrabs) && resources == Members(passiveGrabs)
    {
      hide NoRepeats, NewGrabs, Removed;
      FreedAgain(a, Members(passiveGrabs), resources);
      RemoveNone(passiveGrabs, Members(a));
      FreeAll(adds, nadds, a);
    }

    /** Puts the new grabs on the list, the latest first. */
    method LinkAll(adds: array<Grab?>, nadds: nat, ghost a: seq<Grab>)
      requires nadds <= adds.Length && adds[..nadds] == a
      modifies this`passiveGrabs
      ensures passiveGrabs == Reversed(a) + old(passiveGrabs)
    {
      for j := 0 to nadds
        invariant passiveGrabs == Reversed(a[..j]) + old(passiveGrabs)
      {
        assert adds[j] == adds[..nadds][j];
        assert a[..j + 1][..j] == a[..j];
        passiveGrabs := [adds[j]] + passiveGrabs;
      }
      assert a[..nadds] == a;
    }

    lemma NoRepeatsIs(gs: seq<Grab>)
      requires NoRepeats(gs)
      ensures forall i, j :: 0 <= i < |gs| && 0 <= j < |gs| && gs[i] == gs[j] ==> i == j
    {
    }

    /** Installs the queued masks. */
    method InstallAll(updates: array<Pending>, details: array<Option<Mask>>, nups: nat,
                      ghost gs: seq<Grab>, ghost vs: seq<GrabValue>, ghost mv: GrabValue)
      requires nups <= updates.Length == details.Length && NoRepeats(gs)
      requires |vs| == |gs| && ListOk(vs) && Minuend(mv) && nups == |Indices(vs, mv, true)|
      requires forall i :: 0 <= i < |gs| ==> gs[i].Value() == vs[i]
      requires forall j :: 0 <= j < nups ==> QueuedEdit(gs, vs, mv, j, updates[j], details[j])
      modifies gs
      ensures forall i :: 0 <= i < |gs| ==> gs[i].Value() == Kept(vs[i], CutOf(vs[i], mv))
    {
      hide CutOf, Indices, NoRepeats;
      ghost var ei := Indices(vs, mv, true);
      IndicesAscend(vs, mv, true);
      NoRepeatsIs(gs);
      for j := 0 to nups
        invariant forall i: nat :: i < |gs| ==>
                  gs[i].Value() == if i in ei[..j] then Kept(vs[i], CutOf(vs[i], mv)) else vs[i]
      {
        assert QueuedEdit(gs, vs, mv, j, updates[j], details[j]);
        assert ei[..j + 1] == ei[..j] + [ei[j]];
        assert ei[j] !in ei[..j];
        match updates[j] {
          case DetailMask(g) => g.detail := g.detail.(pMask := details[j]);
          case ModifiersMask(g) => g.modifiersDetail := g.modifiersDetail.(pMask := details[j]);
          case NoMask =>
        }
      }
      assert ei[..nups] == ei;
    }

    /** Takes the minuend's pairs out of its client's claims; without memory for it, nothing
        changes.  The four work arrays count as one allocation. */
    method DeletePassiveGrabFromList(min: Grab, memory: nat -> bool) returns (ok: bool)
      requires Valid() && Minuend(min.Value())
      modifies this, passiveGrabs
      ensures Valid()
      ensures forall i :: 0 <= i < |passiveGrabs| ==> passiveGrabs[i] in old(passiveGrabs) || fresh(passiveGrabs[i])
      ensures ok ==> Values(passiveGrabs) == Subtracted(old(Values(passiveGrabs)), old(min.Value()))
      ensures !ok ==> passiveGrabs == old(passiveGrabs) && Values(passiveGrabs) == old(Values(passiveGrabs))
      ensures ok <==> Given(memory, 0, Needed(old(Values(passiveGrabs)), old(min.Value())))
      ensures !ok ==> exists j: nat :: j <= 4 * |old(passiveGrabs)| && !memory(j)
    {
      hide CutOf, Planned, GrabMatchesSecond, NewGrabs, Reversed, Removed, GrabOk, Claims, NoRepeats, ListOk, Minuend,
           Values, Given, NeedSum, Needed;
      ValidLists();
      ghost var gs, vs, mv := passiveGrabs, Values(passiveGrabs), min.Value();
      var length := |passiveGrabs|;
      if length == 0 {
        NothingToSubtract(passiveGrabs, min.Value());
        NeedIs(vs, mv, memory);
        return true;
      }
      NeedIs(vs, mv, memory);
      if !memory(0) { return false; }
      var deletes, adds := new Grab?[length](_ => null), new Grab?[length](_ => null);
      var updates, details := new Pending[length](_ => NoMask), new Option<Mask>[length](_ => None);
      var ndels: nat, nadds: nat, nups: nat;
      ghost var a: seq<Grab>;
      SameValues(gs);
      ok, ndels, nadds, nups, a := Scan(min, deletes, adds, updates, details, memory);
      if !ok {
        DropNew(adds, nadds, a);
        SameValues(gs);
      } else {
        Commit(deletes, adds, updates, details, ndels, nadds, nups, a, gs, vs, mv);
        SubtractedOk(vs, mv);
      }
    }

    lemma NeedIs(vs: seq<GrabValue>, mv: GrabValue, memory: nat -> bool)
      requires ListOk(vs) && Minuend(mv)
      ensures Given(memory, 0, Needed(vs, mv)) <==> vs == [] || (memory(0) && Given(memory, 1, NeedSum(vs, mv)))
      ensures !Given(memory, 0, Needed(vs, mv)) ==> exists j: nat :: j <= 4 * |vs| && !memory(j)
    {
      GivenMore(memory, 0, 1, NeedSum(vs, mv));
      GivenMore(memory, 0, 0, 0);
      NeedSumGrows(vs, mv, 0);
    }

    lemma NothingToSubtract(gs: seq<Grab>, min: GrabValue)
      requires gs == [] && Minuend(min)
      ensures Values(gs) == Subtracted(Values(gs), min)
    {
    }

    lemma SubtractedOk(vs: seq<GrabValue>, mv: GrabValue)
      requires ListOk(vs) && Minuend(mv)
      ensures ListOk(Subtracted(vs, mv))
    {
      assert Key(1) && Modifiers(0);
      SubtractionIsExact(vs, mv, 0, 1, 0);
    }

    /** Puts a new grab on the list.  It is refused exactly when it matches another client's grab;
        an identical grab of the client's own is subtracted first. */
    method AddPassiveGrabToList(pGrab: Grab, allowed: bool, memory: nat -> bool, room: bool, resourceRoom: bool)
      returns (rc: Code)
      requires Valid() && Minuend(pGrab.Value()) && pGrab !in passiveGrabs
      modifies this, passiveGrabs
      ensures Valid()
      ensures var blocked := Blocked(old(Values(passiveGrabs)), old(pGrab.Value()));
        && (rc == BadAccess <==> blocked)
        && (rc == Denied <==> !blocked && !allowed)
        && (rc == Success <==> !blocked && allowed && room && resourceRoom)
      ensures rc == BadAccess || rc == Denied ==> Values(passiveGrabs) == old(Values(passiveGrabs))
      ensures rc == Success ==>
        && Values(passiveGrabs) ==
           [old(pGrab.Value())] + Base(old(Values(passiveGrabs)), old(pGrab.Value()), memory)
        && AddSucceeds(old(Values(passiveGrabs)), old(pGrab.Value()), Values(passiveGrabs))
      ensures rc == BadAlloc ==> Values(passiveGrabs) == Base(old(Values(passiveGrabs)), old(pGrab.Value()), memory)
      ensures rc == Success && (forall j: nat :: memory(j)) ==>
        forall i :: 0 < i < |passiveGrabs| ==> !GrabsAreIdentical(old(pGrab.Value()), Values(passiveGrabs)[i])
    {
      hide GrabMatchesSecond, GrabsAreIdentical, Base, Cleared;
      ghost var vs, n := Values(passiveGrabs), pGrab.Value();
      for i := 0 to |passiveGrabs|
        invariant forall k :: 0 <= k < i ==> !(vs[k].client != n.client && GrabMatchesSecond(n, vs[k]))
      {
        assert vs[i] == passiveGrabs[i].Value();
        if GrabMatchesSecond(pGrab.Value(), passiveGrabs[i].Value()) && passiveGrabs[i].client != pGrab.client {
          return BadAccess;
        }
      }
      if !allowed { return Denied; }
      ClearIdentical(pGrab, memory);
      assert pGrab.Value() == n;
      if !room { return BadAlloc; }
      rc := Link(pGrab, resourceRoom);
      if forall j: nat :: memory(j) { NoneIdenticalLeft(vs, n, memory); }
    }

    /** Subtracts the first grab identical to the new one, if there is one and memory allows. */
    method ClearIdentical(pGrab: Grab, memory: nat -> bool)
      requires Valid() && Minuend(pGrab.Value()) && pGrab !in passiveGrabs
      modifies this, passiveGrabs
      ensures Valid() && pGrab !in passiveGrabs
      ensures Values(passiveGrabs) == Base(old(Values(passiveGrabs)), old(pGrab.Value()), memory)
      ensures Cleared(old(Values(passiveGrabs)), old(pGrab.Value()), Values(passiveGrabs))
    {
      hide GrabMatchesSecond, Base;
      ghost var vs, n := Values(passiveGrabs), pGrab.Value();
      for i := 0 to |passiveGrabs|
        invariant forall k :: 0 <= k < i ==> !GrabsAreIdentical(n, vs[k])
      {
        if GrabsAreIdentical(pGrab.Value(), passiveGrabs[i].Value()) {
          BaseIs(vs, n, memory, i);
          var done := DeletePassiveGrabFromList(passiveGrabs[i], memory);
          return;
        }
      }
      BaseIs(vs, n, memory, |vs|);
    }

    lemma Prepended(g: Grab, gs: seq<Grab>)
      requires NoRepeats(gs) && ListOk(Values(gs)) && GrabOk(g.Value()) && g !in gs
      ensures var s := [g] + gs;
              NoRepeats(s) && g !in Members(gs) && Members(s) == Members(gs) + {g} &&
                Values(s) == [g.Value()] + Values(gs) && ListOk(Values(s))
    {
      assert ([g] + gs)[1..] == gs;
    }

    /** Prepends a grab and registers it; a failed registration takes it off again. */
    method Link(pGrab: Grab, room: bool) returns (rc: Code)
      requires Valid() && GrabOk(pGrab.Value()) && pGrab !in passiveGrabs
      modifies this
      ensures Valid() && rc == if room then Success else BadAlloc
      ensures rc == Success ==> Values(passiveGrabs) == [pGrab.Value()] + old(Values(passiveGrabs))
      ensures rc == BadAlloc ==> Values(passiveGrabs) == old(Values(passiveGrabs))
    {
      hide GrabOk, Removed, Reversed, NoRepeats, ListOk, Members, Values;
      Prepended(pGrab, passiveGrabs);
      ghost var gs := passiveGrabs;
      passiveGrabs := [pGrab] + passiveGrabs;
      SameValues(gs);
      assert passiveGrabs[1..] == gs;
      if room {
        resources := resources + {pGrab};
        return Success;
      }
      RemoveOne(passiveGrabs, 0);
      assert passiveGrabs[..0] + passiveGrabs[1..] == old(passiveGrabs);
      FreeResource(pGrab);
      SameValues(passiveGrabs);
      assert resources == Members(passiveGrabs);
      return BadAlloc;
    }

    /** Carries out a complete plan: deletions, then additions, then edits. */
    method Commit(deletes: array<Grab?>, adds: array<Grab?>, updates: array<Pending>, details: array<Option<Mask>>,
                  ndels: nat, nadds: nat, nups: nat,
                  ghost a: seq<Grab>, ghost gs: seq<Grab>, ghost vs: seq<GrabValue>, ghost mv: GrabValue)
      requires passiveGrabs == gs && NoRepeats(gs) && vs == Values(gs) && ListOk(vs) && Minuend(mv)
      requires NewGrabs(a, Members(gs), resources)
      requires ndels <= deletes.Length && nadds <= adds.Length && nups <= updates.Length == details.Length
      requires adds[..nadds] == a
      requires Planned(gs, vs, mv, deletes[..ndels], Values(Reversed(a)), updates[..nups], details[..nups])
      modifies this, gs
      ensures NoRepeats(passiveGrabs) && resources == Members(passiveGrabs)
      ensures forall i :: 0 <= i < |passiveGrabs| ==> passiveGrabs[i] in gs || passiveGrabs[i] in a
      ensures Values(passiveGrabs) == Subtracted(vs, mv)
    {
      hide CutOf, Reversed, Removed, NewGrabs, GrabOk, Minuend, Without, Key, Added, Survivors, QueuedEdit, Indices,
           Values;
      PlannedDeletes(gs, vs, mv, deletes[..ndels], Values(Reversed(a)), updates[..nups], details[..nups]);
      ghost var d: seq<Grab> := deletes[..ndels];
      ghost var av := Values(Reversed(a));
      CommittedList(gs, a, Members(d), resources);
      FreeAll(deletes, ndels, d);
      LinkAll(adds, nadds, a);
      assert forall j :: 0 <= j < nups ==> updates[j] == updates[..nups][j] && details[j] == details[..nups][j];
      label Before:
      InstallAll(updates, details, nups, gs, vs, mv);
      SameValues@Before(Reversed(a));
      SurvivorValues(gs, vs, mv, Members(d));
      ValuesConcat(Reversed(a), Removed(gs, Members(d)));
    }

    /** Queues the replacement of one mask by a copy without `exact`. */
    method Update(target: Pending, exact: nat, updates: array<Pending>, details: array<Option<Mask>>, nups: nat,
                  room: bool)
      returns (ok: bool, nups': nat)
      requires !target.NoMask? && exact < DETAIL_BITS && nups < updates.Length == details.Length
      modifies updates, details
      ensures ok == room && nups' == nups + if ok then 1 else 0
      ensures updates[..nups] == old(updates[..nups]) && details[..nups] == old(details[..nups])
      ensures ok ==> updates[..nups'] == old(updates[..nups]) + [target]
      ensures ok ==> details[..nups'] == old(details[..nups]) + [Some(Without(MaskOf(target), exact))]
    {
      var mask := DeleteDetailFromMask(MaskOf(target), exact, room);
      details[nups] := mask;
      ok, nups' := mask.Some?, nups;
      if ok {
        updates[nups] := target;
        nups' := nups + 1;
      }
    }

    /** The grab for the rest of the row a split takes one pair out of. */
    method SplitOff(grab: Grab, min: Grab, grabRoom: bool, maskRoom: bool, resourceRoom: bool) returns (extra: Grab?)
      requires NoRepeats(passiveGrabs) && Minuend(min.Value()) && min.modifiersDetail.exact < DETAIL_BITS
      modifies this
      ensures passiveGrabs == old(passiveGrabs)
      ensures resources == old(resources) + if extra != null then {extra} else {}
      ensures extra != null <==> grabRoom && maskRoom && resourceRoom
      ensures extra != null ==> fresh(extra)
      ensures extra != null ==>
                extra.Value() == GrabValue(grab.client, DetailRec(min.detail.exact, None),
                  DetailRec(ANY_MODIFIER, Some(Without(grab.modifiersDetail.pMask, min.modifiersDetail.exact))),
                  grab.attributes)
    {
      if !grabRoom { return null; }
      var newGrab := new Grab(GrabValue(grab.client, DetailRec(min.detail.exact, None), DetailRec(ANY_MODIFIER, None),
                                        grab.attributes));
      var mask := DeleteDetailFromMask(grab.modifiersDetail.pMask, min.modifiersDetail.exact, maskRoom);
      if mask.None? { return null; }
      newGrab.modifiersDetail := newGrab.modifiersDetail.(pMask := mask);
      var done := AddResource(newGrab, resourceRoom);
      extra := if done then newGrab else null;
    }
  }

  /** After every edit, the grabs hold what their cuts call for, and the list reads as the
      subtraction. */
  lemma {:induction false} SurvivorValues(gs: seq<Grab>, vs: seq<GrabValue>, min: GrabValue, gone: set<Grab>)
    requires |gs| == |vs| && ListOk(vs) && Minuend(min) && NoRepeats(gs)
    requires forall i :: 0 <= i < |gs| ==> (gs[i] in gone <==> CutOf(vs[i], min).Delete?)
    requires forall i :: 0 <= i < |gs| && gs[i] !in gone ==> gs[i].Value() == Kept(vs[i], CutOf(vs[i], min))
    ensures Values(Removed(gs, gone)) == Survivors(vs, min)
  {
    if gs != [] {
      hide CutOf;
      SurvivorValues(gs[1..], vs[1..], min, gone);
      var tl := Removed(gs[1..], gone);
      if gs[0] !in gone { ValuesConcat([gs[0]], tl); }
    }
  }

  lemma {:induction false} ValuesConcat(a: seq<Grab>, b: seq<Grab>)
    ensures Values(a + b) == Values(a) + Values(b)
  {
    if a == [] {
      assert a + b == b;
    } else {
      assert (a + b)[1..] == a[1..] + b;
      ValuesConcat(a[1..], b);
    }
  }

  lemma {:induction false} ReversedAt(s: seq<Grab>)
    ensures |Reversed(s)| == |s|
    ensures forall i :: 0 <= i < |s| ==> Reversed(s)[i] == s[|s| - 1 - i]
  {
    if s != [] { ReversedAt(s[..|s| - 1]); }
  }

  lemma CommittedList(gs: seq<Grab>, a: seq<Grab>, gone: set<Grab>, resources: set<Grab>)
    requires NoRepeats(gs) && NewGrabs(a, Members(gs), resources) && gone <= Members(gs)
    ensures var r := Reversed(a) + Removed(gs, gone); NoRepeats(r) && Members(r) == resources - gone
    ensures forall i :: 0 <= i < |Reversed(a)| ==> Reversed(a)[i] !in gs
    ensures var r := Reversed(a) + Removed(gs, gone); forall i :: 0 <= i < |r| ==> r[i] in gs || r[i] in a
  {
    ReversedAt(a);
    RemoveKeepsNoRepeats(gs, gone);
    var x, y := Reversed(a), Removed(gs, gone);
    assert forall i :: 0 <= i < |x| ==> x[i] in a;
    assert forall i :: 0 <= i < |a| ==> a[i] == x[|a| - 1 - i];
    assert Members(x) == Members(a);
    assert Members(y) == Members(gs) - gone;
    assert Members(x + y) == Members(x) + Members(y);
  }

  ghost predicate NewGrabs(adds: seq<Grab>, before: set<Grab>, after: set<Grab>) {
    && NoRepeats(adds)
    && (forall j :: 0 <= j < |adds| ==> adds[j] !in before)
    && after == before + Members(adds)
  }

  twostate lemma SameValues(gs: seq<Grab>)
    requires forall g :: g in gs ==> g.Value() == old(g.Value())
    ensures Values(gs) == old(Values(gs))
  {
  }

  lemma NewGrabsMore(adds: seq<Grab>, g: Grab, before: set<Grab>, between: set<Grab>)
    requires g !in before && g !in adds && NewGrabs(adds, before, between)
    ensures NewGrabs(adds + [g], before, between + {g})
  {
  }

  lemma FreedAgain(adds: seq<Grab>, before: set<Grab>, after: set<Grab>)
    requires NewGrabs(adds, before, after)
    ensures after - Members(adds) == before && Members(adds) * before == {}
  {
  }

  lemma NewGrabsNone(resources: set<Grab>)
    ensures NewGrabs([], resources, resources) && Reversed([]) == []
  {
  }

  lemma ReversedMore(s: seq<Grab>, t: seq<Grab>)
    requires |s| == |t| + 1 && s[..|t|] == t
    ensures Reversed(s) == [s[|t|]] + Reversed(t)
    ensures Values(Reversed(s)) == [s[|t|].Value()] + Values(Reversed(t))
  {
    assert Reversed(s)[1..] == Reversed(t);
  }

  lemma {:induction false} RemoveNone(s: seq<Grab>, gone: set<Grab>)
    requires forall g :: g in gone ==> g !in s
    ensures Removed(s, gone) == s
  {
    if s != [] {
      assert s[0] in s;
      RemoveNone(s[1..], gone);
    }
  }

  lemma {:induction false} RemoveOne(s: seq<Grab>, i: nat)
    requires i < |s| && NoRepeats(s)
    ensures Removed(s, {s[i]}) == s[..i] + s[i + 1..]
  {
    if i == 0 {
      RemoveNone(s[1..], {s[0]});
    } else {
      RemoveOne(s[1..], i - 1);
      assert s[..i] + s[i + 1..] == [s[0]] + (s[1..][..i - 1] + s[1..][i..]);
    }
  }

  lemma {:induction false} RemoveMore(s: seq<Grab>, gone: set<Grab>, g: Grab)
    ensures Removed(Removed(s, gone), {g}) == Removed(s, gone + {g})
  {
    if s != [] {
      RemoveMore(s[1..], gone, g);
      var tl := Removed(s[1..], gone);
      assert Removed(s, gone) == if s[0] in gone then tl else [s[0]] + tl;
      if s[0] !in gone { assert ([s[0]] + tl)[0] == s[0] && ([s[0]] + tl)[1..] == tl; }
    }
  }

  lemma {:induction false} RemoveKeepsNoRepeats(s: seq<Grab>, gone: set<Grab>)
    ensures forall i :: 0 <= i < |Removed(s, gone)| ==> Removed(s, gone)[i] in s && Removed(s, gone)[i] !in gone
    ensures forall i :: 0 <= i < |s| && s[i] !in gone ==> s[i] in Removed(s, gone)
    ensures NoRepeats(s) ==> NoRepeats(Removed(s, gone))
  {
    if s != [] { RemoveKeepsNoRepeats(s[1..], gone); }
  }
}
