/**
 The client scheduler (dix/dispatch.c): which ready client runs next.

 A client that has not run for a while is praised, one that uses up its slice is penalised, and
 input or damage can boost it (dix/events.c, Xext/damage/damageext.c).  Among clients of the highest
 priority and then the highest smart priority, the one furthest in robin distance from the last
 client served at that level runs.
 */
module Dispatch {

  const SMART_MAX_PRIORITY := 20
  const SMART_MIN_PRIORITY := -20
  const LEVELS: nat := SMART_MAX_PRIORITY - SMART_MIN_PRIORITY + 1

  datatype ClientValue = ClientValue(index: nat, priority: int, smart: int, stopTick: int)

  predicate SmartOk(p: ClientValue) {
    SMART_MIN_PRIORITY <= p.smart <= SMART_MAX_PRIORITY
  }

  function Praised(p: ClientValue, now: int, idle: int): ClientValue {
    if now - p.stopTick >= idle && p.smart < 0 then p.(smart := p.smart + 1) else p
  }

  /** Robin distance from the last client served at p's level; the mask with 0xff is a remainder
      modulo 256 also for negative differences. */
  function Robin(p: ClientValue, last: seq<int>): int
    requires |last| == LEVELS && SmartOk(p)
  {
    (p.index - last[p.smart - SMART_MIN_PRIORITY]) % 256
  }

  /** p beats the best client so far. */
  predicate Beats(p: ClientValue, best: ClientValue, last: seq<int>)
    requires |last| == LEVELS && SmartOk(p) && SmartOk(best)
  {
    p.priority > best.priority ||
    (p.priority == best.priority &&
     (p.smart > best.smart || (p.smart == best.smart && Robin(p, last) > Robin(best, last))))
  }

  /** What one call of the scheduler sees. */
  datatype Call = Call(ready: seq<ClientValue>, last: seq<int>, now: int, idle: int) {
    ghost predicate Ok() {
      |last| == LEVELS && forall i :: 0 <= i < |ready| ==> SmartOk(ready[i])
    }

    function At(i: nat): ClientValue
      requires i < |ready|
    {
      Praised(ready[i], now, idle)
    }

    /** Client b is chosen: nobody beats it, and it beats everybody before it. */
    ghost predicate Chosen(b: nat)
      requires Ok()
    {
      BestOf(|ready|, b)
    }

    ghost predicate BestOf(n: nat, b: nat)
      requires Ok() && n <= |ready|
    {
      && b < n
      && (forall i :: 0 <= i < n ==> !Beats(At(i), At(b), last))
      && (forall i :: 0 <= i < b ==> Beats(At(b), At(i), last))
    }
  }

  // ---------------------------------------------------------------- no starvation

  /** Client me, of top priority and ready at every call, is passed over n times in a row.  Its
      smart priority is only praised or boosted meanwhile, and when `prompt` it is always praised while
      it is below zero; no ready peer of its priority is above `cap`, and, when `apart`, no other ready
      client has its index modulo 256.  Nothing else is assumed about the other clients. */
  ghost predicate PassedOver(calls: seq<Call>, me: seq<nat>, n: nat, cap: int, apart: bool, prompt: bool) {
    && |calls| == |me| == n
    && (forall i :: 0 <= i < n ==>
          calls[i].Ok() && me[i] < |calls[i].ready| && Waits(calls[i], me[i], cap, apart, prompt))
    && (forall i :: 0 < i < n ==> Continues(calls, me, i))
  }

  /** The level that the client is sure to have after a while. */
  function Top(prompt: bool): int { if prompt then 0 else SMART_MIN_PRIORITY }

  /** How many calls it may take to get there. */
  function Climb(prompt: bool): nat { if prompt then 19 else 0 }

  predicate CapOk(cap: int, apart: bool, prompt: bool) {
    cap < Top(prompt) || (cap == Top(prompt) && apart)
  }

  /** The longest wait: until the client is above the cap, or, at the same level, until it has been
      all around the robin. */
  function Longest(cap: int, prompt: bool): nat {
    if cap == Top(prompt) then Climb(prompt) + 255
    else if cap + 20 > 0 then cap + 20 else 0
  }

  ghost predicate Waits(c: Call, k: nat, cap: int, apart: bool, prompt: bool)
    requires c.Ok() && k < |c.ready|
  {
    && !c.Chosen(k) && (exists b :: c.Chosen(b))
    && (prompt && c.ready[k].smart < 0 ==> c.now - c.ready[k].stopTick >= c.idle)
    && forall j :: 0 <= j < |c.ready| && j != k ==>
         && c.ready[j].priority <= c.ready[k].priority
         && (apart ==> c.ready[j].index % 256 != c.ready[k].index % 256)
         && (c.ready[j].priority == c.ready[k].priority ==> c.At(j).smart <= cap)
  }

  /** Call i starts where call i - 1 left the waiting client and the robin table. */
  ghost predicate Continues(calls: seq<Call>, me: seq<nat>, i: nat)
    requires 0 < i < |calls| == |me|
  {
    calls[i - 1].Ok() && calls[i].Ok() && Follows(calls[i - 1], me[i - 1], calls[i], me[i])
  }

  ghost predicate Follows(c: Call, k: nat, d: Call, l: nat)
    requires c.Ok() && d.Ok()
  {
    && k < |c.ready| && l < |d.ready|
    && d.ready[l].index == c.ready[k].index
    && d.ready[l].smart >= c.At(k).smart
    && exists b :: c.Chosen(b) && d.last == c.last[c.At(b).smart - SMART_MIN_PRIORITY := c.At(b).index]
  }

  lemma Remainder(n: int, k: int, r: int)
    requires n == 256 * k + r && 0 <= r < 256
    ensures n % 256 == r
  {
  }

  /** With q further along the robin than p, serving q puts p further along than before. */
  lemma RobinStep(p: int, q: int, o: int)
    requires (p - o) % 256 <= (q - o) % 256 && p % 256 != q % 256
    ensures (p - o) % 256 <= 254
    ensures (p - q) % 256 >= (p - o) % 256 + 1
  {
    var x, y := (p - o) % 256, (q - o) % 256;
    var a, b := (p - o) / 256, (q - o) / 256;
    if x == y {
      Remainder(q, q / 256, q % 256);
      assert p == 256 * (a - b + q / 256) + q % 256;
      Remainder(p, a - b + q / 256, q % 256);
    }
    assert p - q == 256 * (a - b - 1) + (x - y + 256);
    Remainder(p - q, a - b - 1, x - y + 256);
  }

  /** Only clients up to the cap are passed over, and at the top level this brings the client closer
      to the front of the robin. */
  lemma RobinAdvances(c: Call, k: nat, b: nat, cap: int, apart: bool, prompt: bool)
    requires c.Ok() && k < |c.ready| && Waits(c, k, cap, apart, prompt) && CapOk(cap, apart, prompt) && c.Chosen(b)
    ensures c.At(k).smart <= cap
    ensures c.At(k).smart == Top(prompt) ==>
              && c.At(b).smart == Top(prompt) && Robin(c.At(k), c.last) <= 254
              && (c.At(k).index - c.At(b).index) % 256 >= Robin(c.At(k), c.last) + 1
  {
    assert b != k;
    var p, q := c.At(k), c.At(b);
    assert !Beats(p, q, c.last) && q.priority <= p.priority;
    if p.smart == Top(prompt) {
      assert q.smart == Top(prompt);
      RobinStep(p.index, q.index, c.last[Top(prompt) - SMART_MIN_PRIORITY]);
    }
  }

  lemma {:induction false} Progress(calls: seq<Call>, me: seq<nat>, n: nat, cap: int, apart: bool, prompt: bool, i: nat)
    requires PassedOver(calls, me, n, cap, apart, prompt) && CapOk(cap, apart, prompt) && i < n
    ensures i < Climb(prompt) ==> i - 19 <= calls[i].At(me[i]).smart <= 0
    ensures i >= Climb(prompt) ==>
              && calls[i].At(me[i]).smart == Top(prompt)
              && Robin(calls[i].At(me[i]), calls[i].last) >= i - Climb(prompt)
  {
    var c := calls[i];
    var b :| c.Chosen(b);
    RobinAdvances(c, me[i], b, cap, apart, prompt);
    if i > 0 {
      Progress(calls, me, n, cap, apart, prompt, i - 1);
      var d := calls[i - 1];
      assert Continues(calls, me, i);
      FollowingRobin(d, me[i - 1], c, me[i], cap, apart, prompt);
    }
  }

  /** From one call to the next the smart priority climbs by one until it is at the top, and from then
      on the robin distance grows. */
  lemma FollowingRobin(d: Call, k: nat, c: Call, l: nat, cap: int, apart: bool, prompt: bool)
    requires d.Ok() && c.Ok() && k < |d.ready| && l < |c.ready| && CapOk(cap, apart, prompt)
    requires Waits(d, k, cap, apart, prompt) && Waits(c, l, cap, apart, prompt) && Follows(d, k, c, l)
    ensures c.At(l).smart >= d.At(k).smart
    ensures d.At(k).smart < Top(prompt) ==> c.At(l).smart > d.At(k).smart
    ensures d.At(k).smart == Top(prompt) == c.At(l).smart ==> Robin(c.At(l), c.last) > Robin(d.At(k), d.last)
  {
    var e :| d.Chosen(e) && c.last == d.last[d.At(e).smart - SMART_MIN_PRIORITY := d.At(e).index];
    RobinAdvances(d, k, e, cap, apart, prompt);
  }

  /** No starvation: with peers below the top level, or at most there and apart in the robin, a client
      is not passed over any longer, whatever the other clients do. */
  lemma NoStarvation(calls: seq<Call>, me: seq<nat>, n: nat, cap: int, apart: bool, prompt: bool)
    requires PassedOver(calls, me, n, cap, apart, prompt) && CapOk(cap, apart, prompt)
    ensures n <= Longest(cap, prompt)
  {
    if n > 0 {
      Progress(calls, me, n, cap, apart, prompt, n - 1);
      var b :| calls[n - 1].Chosen(b);
      RobinAdvances(calls[n - 1], me[n - 1], b, cap, apart, prompt);
    }
  }

  /** Client 256 in call i of a longest wait: it starts at the lowest level. */
  function Waiting(i: nat, prompt: bool): ClientValue {
    ClientValue(256, 0, if prompt && i < 20 then i - 20 else Top(prompt), if prompt then 0 else 1)
  }

  /** Its only peer in call i: at the level of the last tie as long as the client climbs, and then at
      the top level, always just behind the one served last. */
  function Peer(i: nat, tie: int, prompt: bool): ClientValue {
    if i < Climb(prompt) then ClientValue(if i < tie + 19 then 255 else 1, 0, tie, 1)
    else ClientValue(if i <= Climb(prompt) + 254 then Climb(prompt) + 255 - i else 0, 0, Top(prompt), 1)
  }

  function Served(i: nat, tie: int, prompt: bool, level: int): int {
    if level == Top(prompt) then if i <= Climb(prompt) then 256 else Climb(prompt) + 256 - i
    else if level == tie then if i == 0 then 256 else if i <= tie + 19 then 255 else 1
    else 256
  }

  ghost function LongWait(i: nat, tie: int, prompt: bool): Call {
    Call([Waiting(i, prompt), Peer(i, tie, prompt)],
         seq(LEVELS, l requires 0 <= l < LEVELS => Served(i, tie, prompt, l + SMART_MIN_PRIORITY)), 0, 0)
  }

  /** The level of the last peer that the climbing client meets. */
  function Tie(cap: int): int { if cap < 0 then cap else -1 }

  lemma RobinOfWait(i: nat, tie: int, prompt: bool, o: int)
    requires i < Climb(prompt) + 255 && o == Served(i, tie, prompt, Peer(i, tie, prompt).smart)
    requires i < Climb(prompt) ==> i == tie + 19 && tie < 0
    ensures (256 - o) % 256 < (Peer(i, tie, prompt).index - o) % 256
  {
    if i >= Climb(prompt) {
      Remainder(256 - o, 0, i - Climb(prompt));
      Remainder(Peer(i, tie, prompt).index - o, -1, 255);
    }
  }

  lemma LongWaits(i: nat, cap: int, apart: bool, prompt: bool)
    requires CapOk(cap, apart, prompt) && i < Longest(cap, prompt)
    ensures var c := LongWait(i, Tie(cap), prompt); c.Ok() && c.Chosen(1) && Waits(c, 0, cap, apart, prompt)
  {
    var tie := Tie(cap);
    var c := LongWait(i, tie, prompt);
    var p, q := c.At(0), c.At(1);
    assert SmartOk(c.ready[0]) && SmartOk(c.ready[1]) && q == c.ready[1];
    if p.smart == q.smart {
      var o := Served(i, tie, prompt, q.smart);
      assert c.last[q.smart - SMART_MIN_PRIORITY] == o;
      RobinOfWait(i, tie, prompt, o);
      assert Robin(p, c.last) == (256 - o) % 256 && Robin(q, c.last) == (q.index - o) % 256;
    }
    assert Beats(q, p, c.last);
    assert c.Chosen(1);
  }

  lemma ServedNext(i: nat, cap: int, prompt: bool, level: int)
    requires i + 1 < Longest(cap, prompt) && cap <= Top(prompt)
    ensures var q := Peer(i, Tie(cap), prompt);
            Served(i + 1, Tie(cap), prompt, level) == if level == q.smart then q.index
              else Served(i, Tie(cap), prompt, level)
  {
  }

  lemma TableNext(i: nat, cap: int, prompt: bool)
    requires i + 1 < Longest(cap, prompt) && cap <= Top(prompt)
    ensures var c, d, q := LongWait(i, Tie(cap), prompt), LongWait(i + 1, Tie(cap), prompt), Peer(i, Tie(cap), prompt);
            && SmartOk(q) && c.At(1) == q && |c.last| == LEVELS
            && d.last == c.last[q.smart - SMART_MIN_PRIORITY := q.index]
    ensures LongWait(i, Tie(cap), prompt).At(0).smart <= Waiting(i + 1, prompt).smart
  {
    var c, d, q := LongWait(i, Tie(cap), prompt), LongWait(i + 1, Tie(cap), prompt), Peer(i, Tie(cap), prompt);
    forall l | 0 <= l < LEVELS ensures d.last[l] == c.last[q.smart - SMART_MIN_PRIORITY := q.index][l] {
      ServedNext(i, cap, prompt, l + SMART_MIN_PRIORITY);
    }
  }

  lemma LongWaitFollows(i: nat, cap: int, apart: bool, prompt: bool)
    requires CapOk(cap, apart, prompt) && i + 1 < Longest(cap, prompt)
    ensures var c, d := LongWait(i, Tie(cap), prompt), LongWait(i + 1, Tie(cap), prompt);
            c.Ok() && d.Ok() && Follows(c, 0, d, 0)
  {
    LongWaits(i, cap, apart, prompt);
    LongWaits(i + 1, cap, apart, prompt);
    TableNext(i, cap, prompt);
    hide Waits, Call.Chosen, Served, Peer, Call.Ok, Longest, CapOk;
    var c := LongWait(i, Tie(cap), prompt);
    assert c.Chosen(1);
  }

  lemma ContinuesIf(calls: seq<Call>, me: seq<nat>, i: nat)
    requires 0 < i < |calls| == |me| && calls[i - 1].Ok() && calls[i].Ok()
    requires Follows(calls[i - 1], me[i - 1], calls[i], me[i])
    ensures Continues(calls, me, i)
  {
  }

  lemma PassedOverIf(calls: seq<Call>, me: seq<nat>, n: nat, cap: int, apart: bool, prompt: bool)
    requires |calls| == |me| == n && forall i :: 0 < i < n ==> Continues(calls, me, i)
    requires forall i :: 0 <= i < n ==>
               calls[i].Ok() && me[i] < |calls[i].ready| && Waits(calls[i], me[i], cap, apart, prompt)
    ensures PassedOver(calls, me, n, cap, apart, prompt)
  {
  }

  /** The bound is reached, and every wait up to it is possible. */
  lemma LongestIsReached(n: nat, cap: int, apart: bool, prompt: bool)
    requires CapOk(cap, apart, prompt) && n <= Longest(cap, prompt)
    ensures PassedOver(seq(n, i requires i >= 0 => LongWait(i, Tie(cap), prompt)), seq(n, _ => 0), n, cap, apart,
                       prompt)
  {
    var calls, me := seq(n, i requires i >= 0 => LongWait(i, Tie(cap), prompt)), seq(n, _ => 0);
    hide *;
    forall i | 0 <= i < n ensures calls[i].Ok() && me[i] < |calls[i].ready| &&
      Waits(calls[i], me[i], cap, apart, prompt)
    {
      LongWaits(i, cap, apart, prompt);
    }
    forall i | 0 < i < n ensures Continues(calls, me, i) {
      LongWaitFollows(i - 1, cap, apart, prompt);
      ContinuesIf(calls, me, i);
    }
    PassedOverIf(calls, me, n, cap, apart, prompt);
  }

  /** A call that leaves everything as it was: the chosen client was also the last one served at
      its level, and nothing needs praise. */
  ghost predicate Steady(c: Call, k: nat, b: nat, cap: int, apart: bool, prompt: bool) {
    && c.Ok() && k < |c.ready| && b != k && c.Chosen(b) && !c.Chosen(k) && Waits(c, k, cap, apart, prompt)
    && c.At(k) == c.ready[k]
    && c.last[c.At(b).smart - SMART_MIN_PRIORITY] == c.At(b).index
  }

  /** Repeating a steady call passes the waiting client over as often as one likes. */
  lemma SteadyStarves(c: Call, k: nat, b: nat, cap: int, apart: bool, prompt: bool, n: nat)
    requires Steady(c, k, b, cap, apart, prompt)
    ensures PassedOver(seq(n, _ => c), seq(n, _ => k), n, cap, apart, prompt)
  {
    var calls, me := seq(n, _ => c), seq(n, _ => k);
    assert c.last == c.last[c.At(b).smart - SMART_MIN_PRIORITY := c.At(b).index];
    assert Follows(c, k, c, k);
    forall i | 0 < i < n ensures Continues(calls, me, i) {
    }
  }

  /** A peer that stays one level above client 1, which is not praised there, and never uses up its
      slice starves client 1. */
  ghost function PeerAbove(level: int): Call {
    Call([ClientValue(1, 0, level, 0), ClientValue(2, 0, level + 1, 0)], seq(LEVELS, _ => 2), 0, 10)
  }

  /** Clients 1 and 257 are at the same place in the robin, so the first on the list always wins. */
  ghost function SameResidue(level: int): Call {
    Call([ClientValue(257, 0, level, 0), ClientValue(1, 0, level, 0)], seq(LEVELS, _ => 257), 0, 10)
  }

  lemma PeerAboveStarves(cap: int, apart: bool, prompt: bool)
    requires cap > Top(prompt)
    ensures Steady(PeerAbove(Top(prompt)), 0, 1, cap, apart, prompt)
  {
    assert PeerAbove(Top(prompt)).Chosen(1);
  }

  lemma SameResidueStarves(prompt: bool)
    ensures Steady(SameResidue(Top(prompt)), 1, 0, Top(prompt), false, prompt)
  {
    assert SameResidue(Top(prompt)).Chosen(0);
  }

  ghost predicate CanWait(n: nat, cap: int, apart: bool, prompt: bool) {
    exists calls, me :: PassedOver(calls, me, n, cap, apart, prompt)
  }

  /** A client can be passed over n times in a row exactly up to the bound, if peers stay below the top
      level, or stay at most there and have other indices modulo 256; and otherwise for ever.  The top
      level is zero for a client that is praised in time, and the lowest level for one that is not. */
  lemma StarvationExactly(n: nat, cap: int, apart: bool, prompt: bool)
    ensures CanWait(n, cap, apart, prompt) <==> !CapOk(cap, apart, prompt) || n <= Longest(cap, prompt)
  {
    hide PassedOver, Steady, PeerAbove, SameResidue, Longest;
    if CapOk(cap, apart, prompt) {
      if n <= Longest(cap, prompt) { LongestIsReached(n, cap, apart, prompt); }
      if CanWait(n, cap, apart, prompt) {
        var calls, me :| PassedOver(calls, me, n, cap, apart, prompt);
        NoStarvation(calls, me, n, cap, apart, prompt);
      }
    } else if cap > Top(prompt) {
      PeerAboveStarves(cap, apart, prompt);
      SteadyStarves(PeerAbove(Top(prompt)), 0, 1, cap, apart, prompt, n);
    } else {
      SameResidueStarves(prompt);
      SteadyStarves(SameResidue(Top(prompt)), 1, 0, cap, apart, prompt, n);
    }
  }

  // ---------------------------------------------------------------- the code

  /** Praise raises the smart priority by one, if it is below zero and the client has been off long
      enough, and changes nothing else. */
  lemma PraisedIs(p: ClientValue, now: int, idle: int)
    ensures var q := Praised(p, now, idle);
            && q.index == p.index && q.priority == p.priority && q.stopTick == p.stopTick
            && q.smart == if p.smart < 0 && p.stopTick + idle <= now then p.smart + 1 else p.smart
  {
  }

  /** The rank of p is at least that of q: by priority, then by smart priority, then by the way around
      the robin from the client that was last served at the level. */
  ghost predicate Ranks(p: ClientValue, q: ClientValue, last: seq<int>)
    requires |last| == LEVELS && SmartOk(p)
  {
    && p.priority >= q.priority
    && (p.priority == q.priority ==> p.smart >= q.smart)
    && (p.priority == q.priority && p.smart == q.smart ==>
          (p.index - last[p.smart + 20]) % 256 >= (q.index - last[p.smart + 20]) % 256)
  }

  /** The chosen client ranks highest among all, and is the first of those that do. */
  lemma ChosenRanks(c: Call, b: nat)
    requires c.Ok()
    ensures c.Chosen(b) ==> b < |c.ready| && SmartOk(c.At(b))
    ensures c.Chosen(b) <==>
              && b < |c.ready| && (forall i: nat :: i < |c.ready| ==> Ranks(c.At(b), c.At(i), c.last))
              && forall i: nat :: i < b ==> !Ranks(c.At(i), c.At(b), c.last)
  {
    AtOk(c);
    if b < |c.ready| {
      forall i: nat | i < |c.ready|
        ensures Ranks(c.At(b), c.At(i), c.last) <==> !Beats(c.At(i), c.At(b), c.last)
        ensures Ranks(c.At(i), c.At(b), c.last) <==> !Beats(c.At(b), c.At(i), c.last)
      {
        RanksIs(c.At(b), c.At(i), c.last);
        RanksIs(c.At(i), c.At(b), c.last);
      }
    }
  }

  lemma RanksIs(p: ClientValue, q: ClientValue, last: seq<int>)
    requires |last| == LEVELS && SmartOk(p) && SmartOk(q)
    ensures Ranks(p, q, last) <==> !Beats(q, p, last)
  {
  }

  lemma BestFirst(c: Call)
    requires c.Ok() && c.ready != []
    ensures c.BestOf(1, 0)
  {
  }

  lemma BestStep(c: Call, i: nat, b: nat)
    requires c.Ok() && i < |c.ready| && c.BestOf(i, b)
    ensures c.BestOf(i + 1, if Beats(c.At(i), c.At(b), c.last) then i else b)
  {
    forall k | 0 <= k < i ensures Beats(c.At(i), c.At(b), c.last) ==> Beats(c.At(i), c.At(k), c.last) {
      assert !Beats(c.At(k), c.At(b), c.last);
    }
  }

  class Client {
    const index: nat
    var priority: int
    var smart_priority: int
    var smart_start_tick: int
    var smart_stop_tick: int

    /** A new client starts at level zero. */
    constructor (i: nat, now: int)
      ensures Value() == ClientValue(i, 0, 0, now)
    {
      index, priority, smart_priority, smart_start_tick, smart_stop_tick := i, 0, 0, now, now;
    }

    function Value(): ClientValue reads this {
      ClientValue(index, priority, smart_priority, smart_stop_tick)
    }

    /** Praise for not having run in a while. */
    method Praise(now: int, idle: int)
      modifies this`smart_priority
      ensures Value() == Praised(old(Value()), now, idle)
    {
      if now - smart_stop_tick >= idle {
        if smart_priority < 0 { smart_priority := smart_priority + 1; }
      }
    }

    /** A critical input event is delivered to the client. */
    method Boost()
      requires SmartOk(Value())
      modifies this`smart_priority
      ensures smart_priority == if old(smart_priority) < SMART_MAX_PRIORITY then old(smart_priority) + 1
              else old(smart_priority)
      ensures SmartOk(Value())
    {
      if smart_priority < SMART_MAX_PRIORITY { smart_priority := smart_priority + 1; }
    }

    /** Damage is reported; `critical` counts the client's windows with manually redirected children. */
    method NoteCritical(critical: int)
      modifies this`smart_priority
      ensures smart_priority == if critical > 0 then SMART_MAX_PRIORITY else old(smart_priority)
      ensures old(SmartOk(Value())) || critical > 0 ==> SmartOk(Value())
    {
      if critical > 0 { smart_priority := SMART_MAX_PRIORITY; }
    }
  }

  function Values(cs: seq<Client>): (vs: seq<ClientValue>)
    reads cs
    ensures |vs| == |cs| && forall i :: 0 <= i < |cs| ==> vs[i] == cs[i].Value()
  {
    if cs == [] then [] else [cs[0].Value()] + Values(cs[1..])
  }

  lemma AtOk(c: Call)
    requires c.Ok()
    ensures forall k: nat :: k < |c.ready| ==> SmartOk(c.At(k))
  {
  }

  class Scheduler {
    var ready_clients: seq<Client>
    const SmartLastIndex: array<int>
    var SmartLastClient: Client?
    var SmartScheduleTime: int
    var SmartScheduleSlice: int
    var SmartScheduleInterval: int
    var SmartScheduleMaxSlice: int
    var SmartScheduleLatencyLimited: int

    ghost predicate Valid() reads this, ready_clients {
      && SmartLastIndex.Length == LEVELS
      && (forall i, j :: 0 <= i < j < |ready_clients| ==> ready_clients[i] != ready_clients[j])
      && (forall i :: 0 <= i < |ready_clients| ==> SmartOk(ready_clients[i].Value()))
      && 0 < SmartScheduleInterval <= SmartScheduleSlice < SmartScheduleMaxSlice + SmartScheduleInterval
    }

    function View(): (c: Call)
      reads this, ready_clients, SmartLastIndex
    {
      Call(Values(ready_clients), SmartLastIndex[..], SmartScheduleTime, 2 * SmartScheduleSlice)
    }

    /** Praises every ready client that is due, finds the chosen one and records it. */
    method SmartScheduleClient() returns (best: Client, ghost b: nat)
      requires Valid() && ready_clients != []
      modifies this, SmartLastIndex, ready_clients
      ensures Valid() && ready_clients == old(ready_clients)
      ensures old(View()).Ok() && old(View()).Chosen(b) && best == ready_clients[b]
      ensures forall i :: 0 <= i < |ready_clients| ==> ready_clients[i].Value() == old(View()).At(i)
      ensures forall i :: 0 <= i < |ready_clients| ==>
        var p, was := ready_clients[i], old(ready_clients[i].smart_priority);
        && p.priority == old(p.priority) && p.smart_stop_tick == old(p.smart_stop_tick)
        && p.smart_priority == (if was < 0 && p.smart_stop_tick + 2 * old(SmartScheduleSlice) <= SmartScheduleTime
                                then was + 1 else was)
      ensures b < |ready_clients| && SmartOk(best.Value())
      ensures forall i: nat :: i < |ready_clients| ==>
        Ranks(best.Value(), ready_clients[i].Value(), old(SmartLastIndex[..]))
      ensures forall i: nat :: i < b ==>
        SmartOk(ready_clients[i].Value()) &&
        !Ranks(ready_clients[i].Value(), best.Value(), old(SmartLastIndex[..]))
      ensures SmartLastIndex[..] == old(SmartLastIndex[..])[best.smart_priority - SMART_MIN_PRIORITY := best.index]
      ensures SmartLastClient == best && SmartScheduleTime == old(SmartScheduleTime)
      ensures best.smart_start_tick == if old(SmartLastClient) == best then old(best.smart_start_tick)
              else SmartScheduleTime
      ensures SmartScheduleSlice ==
              if |ready_clients| > 1 || SmartScheduleLatencyLimited != 0 then SmartScheduleInterval
              else if SmartScheduleTime - best.smart_start_tick > 1000 &&
                old(SmartScheduleSlice) < SmartScheduleMaxSlice then
                old(SmartScheduleSlice) + SmartScheduleInterval
              else old(SmartScheduleSlice)
    {
      hide Values, Praised, Robin, Beats, Call.Chosen, Call.BestOf, Ranks;
      ghost var c := View();
      forall i: nat | i < |c.ready| { PraisedIs(c.ready[i], c.now, c.idle); }
      AtOk(c);
      best, b := PickBest();
      ChosenRanks(c, b);
      Record(best);
    }

    /** Records the chosen client and sets the length of its slice. */
    method Record(best: Client)
      requires SmartLastIndex.Length == LEVELS && SmartOk(best.Value()) && best in ready_clients
      modifies this, SmartLastIndex, best`smart_start_tick
      ensures ready_clients == old(ready_clients) && SmartLastClient == best
      ensures SmartLastIndex[..] == old(SmartLastIndex[..])[best.smart_priority - SMART_MIN_PRIORITY := best.index]
      ensures best.smart_start_tick == if old(SmartLastClient) == best then old(best.smart_start_tick)
              else SmartScheduleTime
      ensures SmartScheduleTime == old(SmartScheduleTime) && SmartScheduleInterval == old(SmartScheduleInterval)
      ensures SmartScheduleMaxSlice == old(SmartScheduleMaxSlice) &&
              SmartScheduleLatencyLimited == old(SmartScheduleLatencyLimited)
      ensures SmartScheduleSlice ==
              if |ready_clients| > 1 || SmartScheduleLatencyLimited != 0 then SmartScheduleInterval
              else if SmartScheduleTime - best.smart_start_tick > 1000 &&
                old(SmartScheduleSlice) < SmartScheduleMaxSlice then
                old(SmartScheduleSlice) + SmartScheduleInterval
              else old(SmartScheduleSlice)
    {
      SmartLastIndex[best.smart_priority - SMART_MIN_PRIORITY] := best.index;
      if SmartLastClient != best {
        best.smart_start_tick := SmartScheduleTime;
        SmartLastClient := best;
      }
      if |ready_clients| == 1 && SmartScheduleLatencyLimited == 0 {
        if SmartScheduleTime - best.smart_start_tick > 1000 && SmartScheduleSlice < SmartScheduleMaxSlice {
          SmartScheduleSlice := SmartScheduleSlice + SmartScheduleInterval;
        }
      } else {
        SmartScheduleSlice := SmartScheduleInterval;
      }
    }

    /** The loop over the ready clients: praise each one due and keep the best so far. */
    method PickBest() returns (best: Client, ghost b: nat)
      requires Valid() && ready_clients != []
      modifies ready_clients
      ensures Valid() && old(View()).Ok() && old(View()).Chosen(b) && b < |ready_clients| && best == ready_clients[b]
      ensures forall i :: 0 <= i < |ready_clients| ==> ready_clients[i].Value() == old(View()).At(i)
      ensures forall i :: 0 <= i < |ready_clients| ==>
              ready_clients[i].smart_start_tick == old(ready_clients[i].smart_start_tick)
    {
      hide Call.BestOf, Values, Robin, Praised;
      ghost var c := View();
      AtOk(c);
      var now, idle, bestRobin, i := SmartScheduleTime, 2 * SmartScheduleSlice, 0, 0;
      best, b := ready_clients[0], 0;
      BestFirst(c);
      while i < |ready_clients|
        invariant i <= |ready_clients| && SmartLastIndex[..] == c.last
        invariant forall k :: 0 <= k < |ready_clients| ==>
                    && ready_clients[k].Value() == (if k < i then c.At(k) else c.ready[k])
                    && ready_clients[k].smart_start_tick == old(ready_clients[k].smart_start_tick)
        invariant i > 0 ==> b < i && best == ready_clients[b] && bestRobin == Robin(c.At(b), c.last)
        invariant i > 0 ==> c.BestOf(i, b)
      {
        var client := ready_clients[i];
        client.Praise(now, idle);
        if i > 0 { BestStep(c, i, b); }
        var robin := Distance(client);
        if i == 0 || client.priority > best.priority ||
           (client.priority == best.priority &&
            (client.smart_priority > best.smart_priority ||
             (client.smart_priority == best.smart_priority && robin > bestRobin)))
        {
          best, bestRobin, b := client, robin, i;
        }
        i := i + 1;
      }
    }

    /** How far a client is from the one served last at its level, going round. */
    method Distance(client: Client) returns (robin: int)
      requires SmartLastIndex.Length == LEVELS && SmartOk(client.Value())
      ensures robin == Robin(client.Value(), SmartLastIndex[..])
    {
      robin := (client.index - SmartLastIndex[client.smart_priority - SMART_MIN_PRIORITY]) % 256;
    }

    /** A client that runs to the end of its slice is penalised, never below the lowest level. */
    method EndSlice(client: Client, start_tick: int) returns (expired: bool)
      requires SmartOk(client.Value())
      modifies client`smart_priority
      ensures SmartOk(client.Value())
      ensures expired == (SmartScheduleTime - start_tick >= SmartScheduleSlice)
      ensures client.smart_priority ==
              if expired && old(client.smart_priority) > SMART_MIN_PRIORITY then old(client.smart_priority) - 1
              else old(client.smart_priority)
    {
      expired := SmartScheduleTime - start_tick >= SmartScheduleSlice;
      if expired && client.smart_priority > SMART_MIN_PRIORITY {
        client.smart_priority := client.smart_priority - 1;
      }
    }

    method EnableLimitedSchedulingLatency()
      requires Valid()
      modifies this`SmartScheduleLatencyLimited, this`SmartScheduleSlice
      ensures Valid() && SmartScheduleSlice == SmartScheduleInterval
      ensures SmartScheduleLatencyLimited == old(SmartScheduleLatencyLimited) + 1
    {
      SmartScheduleLatencyLimited := SmartScheduleLatencyLimited + 1;
      SmartScheduleSlice := SmartScheduleInterval;
    }
  }
}
