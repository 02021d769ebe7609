/**
 The core enter/leave event model for several master pointers (dix/enterleave.c).

 Windows form trees given by their parent links; every device is on at most one window.  A core
 client must see one coherent pointer per window, so the code suppresses or rewrites the classical
 events.  The specification is stated from one window's point of view: its presence (a pointer on
 it, only below it, or nowhere in it) before and after a move decides which event it must get.
 */
module EnterLeave {
  import opened Common

  const MAXDEVICES := 256

  /** A window is known by its parent chain and an id among its siblings. */
  datatype Window = NullWindow | Window(id: nat, parent: Window)

  datatype Device = Device(id: nat, master: bool)

  datatype Kind = EnterNotify | LeaveNotify
  datatype Detail = Ancestor | Virtual | Inferior | Nonlinear | NonlinearVirtual
  datatype Event = Event(kind: Kind, detail: Detail, window: Window, child: Window)

  /** How a window relates to the set of pointers. */
  datatype Presence = Out | Below | On

  /** a is a proper ancestor of b (WindowIsParent). */
  predicate IsAncestor(a: Window, b: Window) {
    a.Window? && b.Window? && (b.parent == a || IsAncestor(a, b.parent))
  }

  ghost predicate SomeBelow(ps: seq<Window>, w: Window) {
    exists i :: 0 <= i < |ps| && IsAncestor(w, ps[i])
  }

  ghost function PresenceOf(ps: seq<Window>, w: Window): Presence {
    if w in ps then On else if SomeBelow(ps, w) then Below else Out
  }

  /** The presence a client infers after an event; None when the event contradicts what it knew. */
  function After(p: Presence, e: Event): Option<Presence> {
    match (e.kind, e.detail)
    case (EnterNotify, Inferior) => if p == Below then Some(On) else None
    case (LeaveNotify, Inferior) => if p == On then Some(Below) else None
    case (EnterNotify, Virtual) => if p == Out then Some(Below) else None
    case (EnterNotify, NonlinearVirtual) => if p == Out then Some(Below) else None
    case (LeaveNotify, Virtual) => if p == Below then Some(Out) else None
    case (LeaveNotify, NonlinearVirtual) => if p == Below then Some(Out) else None
    case (EnterNotify, _) => if p == Out then Some(On) else None
    case (LeaveNotify, _) => if p == On then Some(Out) else None
  }

  function Replay(p: Presence, es: seq<Event>): Option<Presence>
    decreases |es|
  {
    if es == [] then Some(p)
    else
      var q := After(p, es[0]);
      if q.None? then None else Replay(q.value, es[1..])
  }

  function EventsAt(w: Window, es: seq<Event>): seq<Event> {
    if es == [] then []
    else (if es[0].window == w then [es[0]] else []) + EventsAt(w, es[1..])
  }

  /** The child of w on the way down to b. */
  function ChildToward(w: Window, b: Window): Window
    requires IsAncestor(w, b)
  {
    if b.parent == w then b else ChildToward(w, b.parent)
  }

  predicate Linear(a: Window, b: Window) {
    IsAncestor(a, b) || IsAncestor(b, a)
  }

  /** The event a move of one pointer from a to b requires at w, the other pointers being `rest`:
      none when w's presence does not change, otherwise the one event that announces the change. */
  ghost function Required(rest: seq<Window>, a: Window, b: Window, w: Window): Option<Event> {
    var lin := Linear(a, b);
    match (PresenceOf(rest + [a], w), PresenceOf(rest + [b], w))
    case (Below, On) => Some(Event(EnterNotify, Inferior, w, NullWindow))
    case (On, Below) => Some(Event(LeaveNotify, Inferior, w, NullWindow))
    case (Out, On) => Some(Event(EnterNotify, if lin then Ancestor else Nonlinear, w, NullWindow))
    case (On, Out) => Some(Event(LeaveNotify, if lin then Ancestor else Nonlinear, w, NullWindow))
    case (Out, Below) =>
      Some(Event(EnterNotify, if lin then Virtual else NonlinearVirtual, w,
                 if IsAncestor(w, b) then ChildToward(w, b) else NullWindow))
    case (Below, Out) =>
      Some(Event(LeaveNotify, if lin then Virtual else NonlinearVirtual, w,
                 if IsAncestor(w, a) then ChildToward(w, a) else NullWindow))
    case _ => None
  }

  /** Windows from a upward, stopping before x. */
  function UpPath(a: Window, x: Window): seq<Window> {
    if a == x || a.NullWindow? then [] else [a] + UpPath(a.parent, x)
  }

  /** Windows below x down to b. */
  function DownPath(x: Window, b: Window): seq<Window> {
    if b == x || b.NullWindow? then [] else DownPath(x, b.parent) + [b]
  }

  /** The first proper ancestor of b that is also a proper ancestor of a. */
  function CommonAncestorOf(a: Window, b: Window): Window {
    if b.NullWindow? || b.parent.NullWindow? then NullWindow
    else if IsAncestor(b.parent, a) then b.parent
    else CommonAncestorOf(a, b.parent)
  }

  /** The windows a move visits, in order: up from a, then down to b. */
  function MovePath(a: Window, b: Window): seq<Window> {
    if IsAncestor(a, b) then [a] + DownPath(a, b)
    else if IsAncestor(b, a) then UpPath(a, b) + [b]
    else var x := CommonAncestorOf(a, b); UpPath(a, x) + DownPath(x, b)
  }

  /** The required events along a list of windows, in order. */
  ghost function Collect(rest: seq<Window>, a: Window, b: Window, path: seq<Window>): seq<Event> {
    if path == [] then []
    else (match Required(rest, a, b, path[0]) case Some(e) => [e] case None => []) +
         Collect(rest, a, b, path[1..])
  }

  ghost function MoveEvents(ps: seq<Window>, dev: nat, b: Window): seq<Event>
    requires dev < |ps|
  {
    if ps[dev] == b then [] else Collect(ps[dev := NullWindow], ps[dev], b, MovePath(ps[dev], b))
  }

  // ---------------------------------------------------------------- ancestors and paths

  lemma {:induction false} AncestorTrans(a: Window, b: Window, c: Window)
    requires IsAncestor(a, b) && IsAncestor(b, c)
    ensures IsAncestor(a, c)
  {
    if c.parent != b { AncestorTrans(a, b, c.parent); }
  }

  lemma {:induction false} AncestorIrreflexive(a: Window, b: Window)
    requires IsAncestor(a, b)
    ensures a != b && a < b
  {
    if b.parent != a { AncestorIrreflexive(a, b.parent); }
  }

  /** Two ancestors-or-self of the same window are comparable. */
  lemma {:induction false} AncestorsLinear(a: Window, b: Window, c: Window)
    requires IsAncestor(a, c) && IsAncestor(b, c)
    ensures a == b || IsAncestor(a, b) || IsAncestor(b, a)
  {
    if c.parent == a || c.parent == b {
    } else {
      AncestorsLinear(a, b, c.parent);
    }
  }

  lemma {:induction false} InUpPath(a: Window, x: Window, w: Window)
    requires x.NullWindow? || x == a || IsAncestor(x, a)
    ensures w in UpPath(a, x) <==>
            w.Window? && (w == a || IsAncestor(w, a)) && (x.Window? ==> IsAncestor(x, w))
  {
    if a == x {
      if w == a && IsAncestor(x, w) { AncestorIrreflexive(x, w); }
      if IsAncestor(w, a) && IsAncestor(x, w) { AncestorTrans(w, x, w); AncestorIrreflexive(w, w); }
    } else if a.NullWindow? {
    } else {
      InUpPath(a.parent, x, w);
      if IsAncestor(w, a) && w != a.parent { assert IsAncestor(w, a.parent); }
    }
  }

  lemma {:induction false} InDownPath(x: Window, b: Window, w: Window)
    requires x.NullWindow? || x == b || IsAncestor(x, b)
    ensures w in DownPath(x, b) <==> w in UpPath(b, x)
  {
    if b == x || b.NullWindow? {
    } else {
      InDownPath(x, b.parent, w);
    }
  }

  lemma {:induction false} PathsDoNotRepeat(a: Window, x: Window)
    requires x.NullWindow? || x == a || IsAncestor(x, a)
    ensures NoRepeats(UpPath(a, x)) && NoRepeats(DownPath(x, a))
  {
    if a == x || a.NullWindow? {
    } else {
      PathsDoNotRepeat(a.parent, x);
      InUpPath(a.parent, x, a);
      InDownPath(x, a.parent, a);
      if IsAncestor(a, a.parent) { AncestorIrreflexive(a, a.parent); }
    }
  }

  /** The common ancestor of unrelated windows is above both, and nothing below it is above both. */
  lemma {:induction false} CommonAncestorLowest(a: Window, b: Window)
    requires a.Window? && b.Window? && a != b && !Linear(a, b)
    ensures var x := CommonAncestorOf(a, b);
            && (x.Window? ==> IsAncestor(x, a) && IsAncestor(x, b))
            && forall w :: w in UpPath(a, x) ==> w !in UpPath(b, x)
  {
    var x := CommonAncestorOf(a, b);
    CommonAncestorBoth(a, b);
    forall w | w in UpPath(a, x) ensures w !in UpPath(b, x) {
      InUpPath(a, x, w);
      InUpPath(b, x, w);
      if w in UpPath(b, x) { NothingBelowCommon(a, b, w); }
    }
  }

  lemma {:induction false} CommonAncestorBoth(a: Window, b: Window)
    ensures var x := CommonAncestorOf(a, b); x.Window? ==> IsAncestor(x, a) && IsAncestor(x, b)
  {
    if b.Window? && b.parent.Window? && !IsAncestor(b.parent, a) { CommonAncestorBoth(a, b.parent); }
  }

  lemma {:induction false} NothingBelowCommon(a: Window, b: Window, w: Window)
    requires a.Window? && b.Window? && a != b && !Linear(a, b)
    requires w == a || IsAncestor(w, a)
    requires w == b || IsAncestor(w, b)
    requires CommonAncestorOf(a, b).Window? ==> IsAncestor(CommonAncestorOf(a, b), w)
    ensures false
  {
    if w != a && w != b {
      if IsAncestor(b.parent, a) {
        if w == b.parent { AncestorIrreflexive(w, w); }
        AncestorTrans(b.parent, w, b.parent);
        AncestorIrreflexive(b.parent, b.parent);
      } else {
        NothingBelowCommon(a, b.parent, w);
      }
    }
  }

  // ---------------------------------------------------------------- what a move requires

  /** Adding one pointer at a to the others. */
  lemma PresenceWith(rest: seq<Window>, a: Window, w: Window)
    ensures PresenceOf(rest + [a], w) ==
            if w == a then On
            else if IsAncestor(w, a) && PresenceOf(rest, w) == Out then Below
            else PresenceOf(rest, w)
  {
    var ps := rest + [a];
    assert ps[|rest|] == a;
    if SomeBelow(rest, w) {
      var i :| 0 <= i < |rest| && IsAncestor(w, rest[i]);
      assert IsAncestor(w, ps[i]);
    }
    if SomeBelow(ps, w) && !IsAncestor(w, a) {
      var i :| 0 <= i < |ps| && IsAncestor(w, ps[i]);
      assert IsAncestor(w, rest[i]);
    }
  }

  /** A vacated slot in the pointer table counts like the pointer moved to the end. */
  lemma PresenceSlot(ps: seq<Window>, dev: nat, a: Window, w: Window)
    requires dev < |ps| && w.Window?
    ensures PresenceOf(ps[dev := a], w) == PresenceOf(ps[dev := NullWindow] + [a], w)
  {
    var p, q := ps[dev := a], ps[dev := NullWindow] + [a];
    assert p[dev] == a && q[|ps|] == a;
    assert forall i :: 0 <= i < |ps| && i != dev ==> p[i] == q[i];
    if w in p {
      var i :| 0 <= i < |p| && p[i] == w;
      assert q[if i == dev then |ps| else i] == w;
    }
    if SomeBelow(p, w) {
      var i :| 0 <= i < |p| && IsAncestor(w, p[i]);
      assert IsAncestor(w, q[if i == dev then |ps| else i]);
    }
    if SomeBelow(q, w) {
      var i :| 0 <= i < |q| && IsAncestor(w, q[i]);
      assert IsAncestor(w, p[if i == |ps| then dev else i]);
    }
  }

  lemma {:induction false} CollectConcat(rest: seq<Window>, a: Window, b: Window, p: seq<Window>, q: seq<Window>)
    ensures Collect(rest, a, b, p + q) == Collect(rest, a, b, p) + Collect(rest, a, b, q)
  {
    if p == [] {
      assert p + q == q;
    } else {
      assert (p + q)[0] == p[0] && (p + q)[1..] == p[1..] + q;
      CollectConcat(rest, a, b, p[1..], q);
    }
  }

  lemma RequiredWindow(rest: seq<Window>, a: Window, b: Window, w: Window)
    ensures Required(rest, a, b, w).Some? ==> Required(rest, a, b, w).value.window == w
  {
  }

  lemma CollectHead(rest: seq<Window>, a: Window, b: Window, path: seq<Window>)
    requires path != []
    ensures var r, tl := Required(rest, a, b, path[0]), Collect(rest, a, b, path[1..]);
            Collect(rest, a, b, path) == if r.Some? then [r.value] + tl else tl
  {
    hide Required;
    assert [] + Collect(rest, a, b, path[1..]) == Collect(rest, a, b, path[1..]);
  }

  lemma EventsAtMore(w: Window, e: Event, es: seq<Event>)
    ensures EventsAt(w, [e] + es) == (if e.window == w then [e] else []) + EventsAt(w, es)
  {
    assert ([e] + es)[1..] == es;
  }

  /** What w gets out of the events collected along a path. */
  lemma {:induction false} EventsAtCollect(rest: seq<Window>, a: Window, b: Window, path: seq<Window>, w: Window)
    requires NoRepeats(path)
    ensures EventsAt(w, Collect(rest, a, b, path)) ==
            if w in path && Required(rest, a, b, w).Some? then [Required(rest, a, b, w).value] else []
  {
    if path != [] {
      EventsAtCollect(rest, a, b, path[1..], w);
      assert path[0] !in path[1..] && NoRepeats(path[1..]);
      assert w in path <==> w == path[0] || w in path[1..];
      RequiredWindow(rest, a, b, path[0]);
      CollectHead(rest, a, b, path);
      hide Required, Collect, EventsAt;
      var r, tl := Required(rest, a, b, path[0]), Collect(rest, a, b, path[1..]);
      if r.Some? { EventsAtMore(w, r.value, tl); }
    }
  }

  /** A move's path meets no window twice, and it meets every window whose presence changes. */
  lemma MovePathCovers(rest: seq<Window>, a: Window, b: Window, w: Window)
    requires a.Window? && b.Window? && a != b && w.Window?
    ensures NoRepeats(MovePath(a, b))
    ensures w !in MovePath(a, b) ==> PresenceOf(rest + [a], w) == PresenceOf(rest + [b], w)
  {
    PresenceWith(rest, a, w);
    PresenceWith(rest, b, w);
    if IsAncestor(a, b) {
      PathsDoNotRepeat(b, a);
      InDownPath(a, b, a); InUpPath(b, a, a);
      if IsAncestor(a, a) { AncestorIrreflexive(a, a); }
      InDownPath(a, b, w); InUpPath(b, a, w);
      if IsAncestor(w, a) { AncestorTrans(w, a, b); }
      if IsAncestor(w, b) { AncestorsLinear(w, a, b); }
    } else if IsAncestor(b, a) {
      PathsDoNotRepeat(a, b);
      InUpPath(a, b, b); InUpPath(a, b, w);
      if IsAncestor(b, b) { AncestorIrreflexive(b, b); }
      if IsAncestor(w, b) { AncestorTrans(w, b, a); }
      if IsAncestor(w, a) { AncestorsLinear(w, b, a); }
    } else {
      var x := CommonAncestorOf(a, b);
      CommonAncestorLowest(a, b);
      PathsDoNotRepeat(a, x); PathsDoNotRepeat(b, x);
      forall v ensures v in DownPath(x, b) <==> v in UpPath(b, x) { InDownPath(x, b, v); }
      assert forall v :: v in UpPath(a, x) ==> v !in DownPath(x, b);
      NoRepeatsConcat(UpPath(a, x), DownPath(x, b));
      InUpPath(a, x, w); InUpPath(b, x, w);
      if x.Window? {
        if IsAncestor(w, a) { AncestorsLinear(w, x, a); }
        if IsAncestor(w, b) { AncestorsLinear(w, x, b); }
        if IsAncestor(w, x) { AncestorTrans(w, x, a); AncestorTrans(w, x, b); }
      }
    }
  }

  // ---------------------------------------------------------------- the main results

  lemma RequiredAnnounces(rest: seq<Window>, a: Window, b: Window, w: Window)
    ensures var before, after := PresenceOf(rest + [a], w), PresenceOf(rest + [b], w);
            match Required(rest, a, b, w)
            case None => before == after
            case Some(e) => before != after && Replay(before, [e]) == Some(after)
  {
    if Required(rest, a, b, w).Some? {
      var e := Required(rest, a, b, w).value;
      assert [e][1..] == [] && Replay(PresenceOf(rest + [b], w), []) == Some(PresenceOf(rest + [b], w));
    }
  }

  lemma MoveSeenFrom(rest: seq<Window>, a: Window, b: Window, w: Window)
    requires a.Window? && b.Window? && w.Window? && a != b
    ensures var before, after := PresenceOf(rest + [a], w), PresenceOf(rest + [b], w);
            var es := EventsAt(w, Collect(rest, a, b, MovePath(a, b)));
            && |es| == (if before == after then 0 else 1)
            && (before != after ==> Required(rest, a, b, w) == Some(es[0]))
            && Replay(before, es) == Some(after)
  {
    MovePathCovers(rest, a, b, w);
    EventsAtCollect(rest, a, b, MovePath(a, b), w);
    RequiredAnnounces(rest, a, b, w);
  }

  /** One move, seen from any window: it gets one event when its presence changes and none
      otherwise, the event is the required one, and a client that follows it is right again. */
  lemma MoveInformsEveryWindow(ps: seq<Window>, dev: nat, b: Window, w: Window)
    requires dev < |ps| && ps[dev].Window? && b.Window? && w.Window?
    ensures var before, after := PresenceOf(ps, w), PresenceOf(ps[dev := b], w);
            var es := EventsAt(w, MoveEvents(ps, dev, b));
            && |es| == (if before == after then 0 else 1)
            && (before != after ==> Required(ps[dev := NullWindow], ps[dev], b, w) == Some(es[0]))
            && Replay(before, es) == Some(after)
  {
    assert ps[dev := ps[dev]] == ps;
    if ps[dev] != b {
      PresenceSlot(ps, dev, ps[dev], w);
      PresenceSlot(ps, dev, b, w);
      MoveSeenFrom(ps[dev := NullWindow], ps[dev], b, w);
    }
  }

  // ---------------------------------------------------------------- order and details of the events

  /** All leaves come before all enters; leaves go up the tree and enters go down. */
  ghost predicate InOrder(es: seq<Event>) {
    forall i, j :: 0 <= i < j < |es| ==>
      && !(es[i].kind == EnterNotify && es[j].kind == LeaveNotify)
      && (es[i].kind == LeaveNotify && es[j].kind == LeaveNotify ==> IsAncestor(es[j].window, es[i].window))
      && (es[i].kind == EnterNotify && es[j].kind == EnterNotify ==> IsAncestor(es[i].window, es[j].window))
  }

  /** The detail says whether the two windows of the move are related, and for a window that the
      pointer only passes through the child that the pointer was or is in. */
  ghost predicate SaysWhere(e: Event, a: Window, b: Window) {
    && (e.detail == Ancestor || e.detail == Virtual ==> IsAncestor(a, b) || IsAncestor(b, a))
    && (e.detail == Nonlinear || e.detail == NonlinearVirtual ==> !IsAncestor(a, b) && !IsAncestor(b, a))
    && (e.child.Window? <==> e.detail == Virtual || e.detail == NonlinearVirtual)
    && (e.child.Window? ==>
          var p := if e.kind == EnterNotify then b else a;
          e.child.parent == e.window && (e.child == p || IsAncestor(e.child, p)))
  }

  ghost predicate Rising(p: seq<Window>) {
    forall i, j :: 0 <= i < j < |p| ==> IsAncestor(p[j], p[i])
  }

  ghost predicate Falling(p: seq<Window>) {
    forall i, j :: 0 <= i < j < |p| ==> IsAncestor(p[i], p[j])
  }

  lemma {:induction false} UpRises(a: Window, x: Window)
    requires x.NullWindow? || x == a || IsAncestor(x, a)
    ensures Rising(UpPath(a, x))
  {
    if a != x && a.Window? {
      UpRises(a.parent, x);
      var tl := UpPath(a.parent, x);
      forall j | 0 <= j < |tl| ensures IsAncestor(tl[j], a) {
        InUpPath(a.parent, x, tl[j]);
        assert tl[j] in tl;
      }
    }
  }

  lemma {:induction false} DownFalls(x: Window, b: Window)
    requires x.NullWindow? || x == b || IsAncestor(x, b)
    ensures Falling(DownPath(x, b))
  {
    if b != x && b.Window? {
      DownFalls(x, b.parent);
      var hd := DownPath(x, b.parent);
      forall j | 0 <= j < |hd| ensures IsAncestor(hd[j], b) {
        InDownPath(x, b.parent, hd[j]);
        InUpPath(b.parent, x, hd[j]);
        assert hd[j] in hd;
      }
    }
  }

  lemma OneMore(e: Event, es: seq<Event>, kind: Kind)
    requires InOrder(es) && e.kind == kind
    requires forall i :: 0 <= i < |es| ==>
               && es[i].kind == kind
               && if kind == LeaveNotify then IsAncestor(es[i].window, e.window)
                  else IsAncestor(e.window, es[i].window)
    ensures InOrder([e] + es)
  {
    hide IsAncestor;
    var all := [e] + es;
    assert forall i :: 1 <= i < |all| ==> all[i] == es[i - 1];
  }

  /** The events along a path are about its windows, in its order. */
  lemma {:induction false} CollectAlong(rest: seq<Window>, a: Window, b: Window, p: seq<Window>, kind: Kind)
    requires if kind == LeaveNotify then Rising(p) else Falling(p)
    requires forall i :: 0 <= i < |p| ==>
               Required(rest, a, b, p[i]).Some? ==> Required(rest, a, b, p[i]).value.kind == kind
    ensures var es := Collect(rest, a, b, p);
            InOrder(es) && forall i :: 0 <= i < |es| ==>
              && es[i].kind == kind && es[i].window in p
              && Required(rest, a, b, es[i].window) == Some(es[i])
  {
    if p != [] {
      CollectHead(rest, a, b, p);
      RequiredWindow(rest, a, b, p[0]);
      hide Required, Collect, InOrder, IsAncestor;
      assert forall i :: 0 <= i < |p| - 1 ==> p[1..][i] == p[i + 1];
      CollectAlong(rest, a, b, p[1..], kind);
      var r, tl := Required(rest, a, b, p[0]), Collect(rest, a, b, p[1..]);
      assert forall w :: w in p[1..] ==> if kind == LeaveNotify then IsAncestor(w, p[0]) else IsAncestor(p[0], w);
      if r.Some? { OneMore(r.value, tl, kind); }
    }
  }

  lemma LeavesThenEnters(p: seq<Event>, q: seq<Event>)
    requires InOrder(p) && forall i :: 0 <= i < |p| ==> p[i].kind == LeaveNotify
    requires InOrder(q) && forall i :: 0 <= i < |q| ==> q[i].kind == EnterNotify
    ensures InOrder(p + q)
  {
    var es := p + q;
    assert forall i :: 0 <= i < |es| ==> es[i] == if i < |p| then p[i] else q[i - |p|];
  }

  /** Where only the old position counts a window is left, where only the new one does it is entered. */
  lemma LeftOrEntered(rest: seq<Window>, a: Window, b: Window, w: Window)
    requires w.Window? && a != b
    requires (w == a || IsAncestor(w, a)) != (w == b || IsAncestor(w, b)) || w == a || w == b
    requires !(w == a && w == b)
    ensures var r := Required(rest, a, b, w);
            r.Some? ==> r.value.kind == if w == b || (w != a && IsAncestor(w, b)) then EnterNotify else LeaveNotify
  {
    PresenceWith(rest, a, w);
    PresenceWith(rest, b, w);
  }

  lemma RequiredSaysWhere(rest: seq<Window>, a: Window, b: Window, w: Window)
    requires Required(rest, a, b, w).Some?
    ensures SaysWhere(Required(rest, a, b, w).value, a, b)
  {
    PresenceWith(rest, a, w);
    PresenceWith(rest, b, w);
    if IsAncestor(w, a) { TowardIs(w, a); }
    if IsAncestor(w, b) { TowardIs(w, b); }
  }

  lemma {:induction false} TowardIs(w: Window, b: Window)
    requires IsAncestor(w, b)
    ensures var c := ChildToward(w, b); c.Window? && c.parent == w && (c == b || IsAncestor(c, b))
  {
    if b.parent != w { TowardIs(w, b.parent); }
  }

  lemma PathEvents(rest: seq<Window>, a: Window, b: Window, up: seq<Window>, down: seq<Window>)
    requires a != b && Rising(up) && Falling(down)
    requires forall w :: w in up ==> w.Window? && w != b && (w == a || (IsAncestor(w, a) && !IsAncestor(w, b)))
    requires forall w :: w in down ==> w.Window? && w != a && (w == b || (IsAncestor(w, b) && !IsAncestor(w, a)))
    ensures var es := Collect(rest, a, b, up + down);
            InOrder(es) && forall i :: 0 <= i < |es| ==> SaysWhere(es[i], a, b)
  {
    hide Required, Collect, SaysWhere, InOrder, PresenceOf;
    forall w | w in up || w in down
      ensures Required(rest, a, b, w).Some? ==>
                Required(rest, a, b, w).value.kind == if w in up then LeaveNotify else EnterNotify
    {
      LeftOrEntered(rest, a, b, w);
    }
    assert forall i :: 0 <= i < |up| ==> up[i] in up;
    assert forall i :: 0 <= i < |down| ==> down[i] in down && down[i] !in up;
    CollectAlong(rest, a, b, up, LeaveNotify);
    CollectAlong(rest, a, b, down, EnterNotify);
    var p, q := Collect(rest, a, b, up), Collect(rest, a, b, down);
    CollectConcat(rest, a, b, up, down);
    LeavesThenEnters(p, q);
    forall i | 0 <= i < |p + q| ensures SaysWhere((p + q)[i], a, b) {
      var e := (p + q)[i];
      assert e == if i < |p| then p[i] else q[i - |p|];
      assert Required(rest, a, b, e.window) == Some(e);
      RequiredSaysWhere(rest, a, b, e.window);
    }
  }

  /** One move sends its leaves first and upward, then its enters downward, with the details that fit
      the two windows. */
  lemma MoveInOrder(ps: seq<Window>, dev: nat, b: Window)
    requires dev < |ps| && ps[dev].Window? && b.Window?
    ensures var es := MoveEvents(ps, dev, b);
            InOrder(es) && forall i :: 0 <= i < |es| ==> SaysWhere(es[i], ps[dev], b)
  {
    var a, rest := ps[dev], ps[dev := NullWindow];
    if a != b {
      hide Collect, Required, SaysWhere, InOrder, PresenceOf;
      if IsAncestor(a, b) {
        DownFalls(a, b);
        forall w ensures w in DownPath(a, b) <==> w in UpPath(b, a) { InDownPath(a, b, w); InUpPath(b, a, w); }
        forall w | w in DownPath(a, b)
          ensures w.Window? && w != a && (w == b || IsAncestor(w, b)) && !IsAncestor(w, a)
        {
          InUpPath(b, a, w);
          Unordered(a, w);
        }
        PathEvents(rest, a, b, [a], DownPath(a, b));
      } else if IsAncestor(b, a) {
        UpRises(a, b);
        forall w | w in UpPath(a, b) ensures w.Window? && w != b && (w == a || IsAncestor(w, a)) && !IsAncestor(w, b) {
          InUpPath(a, b, w);
          Unordered(b, w);
        }
        PathEvents(rest, a, b, UpPath(a, b), [b]);
      } else {
        var x := CommonAncestorOf(a, b);
        CommonAncestorLowest(a, b);
        UpRises(a, x);
        DownFalls(x, b);
        forall w | w in UpPath(a, x)
          ensures w.Window? && w != b && (w == a || (IsAncestor(w, a) && !IsAncestor(w, b)))
        {
          InUpPath(a, x, w);
          InUpPath(b, x, w);
        }
        forall w | w in DownPath(x, b)
          ensures w.Window? && w != a && (w == b || (IsAncestor(w, b) && !IsAncestor(w, a)))
        {
          InDownPath(x, b, w);
          InUpPath(a, x, w);
          InUpPath(b, x, w);
        }
        PathEvents(rest, a, b, UpPath(a, x), DownPath(x, b));
      }
    } else {
      assert MoveEvents(ps, dev, b) == [];
      assert InOrder([]);
    }
  }

  lemma Unordered(a: Window, w: Window)
    requires IsAncestor(a, w)
    ensures w != a && !IsAncestor(w, a)
  {
    AncestorIrreflexive(a, w);
    if IsAncestor(w, a) { AncestorIrreflexive(w, a); }
  }

  // ---------------------------------------------------------------- runs of moves

  datatype Move = Move(dev: nat, to: Window)

  ghost predicate Legal(ps: seq<Window>, ms: seq<Move>) {
    && (forall i :: 0 <= i < |ms| ==> ms[i].dev < |ps| && ps[ms[i].dev].Window? && ms[i].to.Window?)
  }

  function PointersAfter(ps: seq<Window>, ms: seq<Move>): seq<Window>
    requires forall i :: 0 <= i < |ms| ==> ms[i].dev < |ps|
    decreases |ms|
  {
    if ms == [] then ps else PointersAfter(ps[ms[0].dev := ms[0].to], ms[1..])
  }

  ghost function RunEvents(ps: seq<Window>, ms: seq<Move>): seq<Event>
    requires Legal(ps, ms)
    decreases |ms|
  {
    if ms == [] then [] else MoveEvents(ps, ms[0].dev, ms[0].to) + RunEvents(ps[ms[0].dev := ms[0].to], ms[1..])
  }

  lemma {:induction false} EventsAtConcat(w: Window, p: seq<Event>, q: seq<Event>)
    ensures EventsAt(w, p + q) == EventsAt(w, p) + EventsAt(w, q)
  {
    if p == [] {
      assert p + q == q;
    } else {
      assert (p + q)[0] == p[0] && (p + q)[1..] == p[1..] + q;
      EventsAtConcat(w, p[1..], q);
    }
  }

  lemma {:induction false} ReplayConcat(p: Presence, s: seq<Event>, t: seq<Event>)
    requires Replay(p, s).Some?
    ensures Replay(p, s + t) == Replay(Replay(p, s).value, t)
    decreases |s|
  {
    if s == [] {
      assert s + t == t;
    } else {
      assert (s + t)[0] == s[0] && (s + t)[1..] == s[1..] + t;
      ReplayConcat(After(p, s[0]).value, s[1..], t);
    }
  }

  /** Over any run of moves by any devices, a client that replays the events of any window never
      sees a contradictory event and ends with that window's true presence. */
  lemma {:induction false} RunIsCoherent(ps: seq<Window>, ms: seq<Move>, w: Window)
    requires Legal(ps, ms) && w.Window?
    ensures Replay(PresenceOf(ps, w), EventsAt(w, RunEvents(ps, ms))) == Some(PresenceOf(PointersAfter(ps, ms), w))
    decreases |ms|
  {
    if ms != [] {
      var m, ps' := ms[0], ps[ms[0].dev := ms[0].to];
      MoveInformsEveryWindow(ps, m.dev, m.to, w);
      assert Legal(ps', ms[1..]);
      RunIsCoherent(ps', ms[1..], w);
      EventsAtConcat(w, MoveEvents(ps, m.dev, m.to), RunEvents(ps', ms[1..]));
      ReplayConcat(PresenceOf(ps, w), EventsAt(w, MoveEvents(ps, m.dev, m.to)), EventsAt(w, RunEvents(ps', ms[1..])));
    }
  }

  // ---------------------------------------------------------------- the code

  /** Nothing lies between a window and itself. */
  lemma NothingLeft(rest: seq<Window>, a: Window, b: Window, top: Window)
    ensures Collect(rest, a, b, UpPath(top, top)) == [] && Collect(rest, a, b, UpPath(NullWindow, top)) == []
  {
  }

  /** With the mover taken out of the table, nothing is required at or above a window that still
      has a pointer in it, as long as the path stays off the destination's side. */
  lemma {:induction false} NothingAbovePointer(rest: seq<Window>, a: Window, b: Window, win: Window, top: Window)
    requires IsAncestor(win, a) || win.NullWindow? || win == top
    requires top.Window? ==> IsAncestor(top, win) || win == top
    requires forall w :: w in UpPath(win, top) ==> w != b && !IsAncestor(w, b)
    requires win.Window? ==> PresenceOf(rest, win) != Out
    ensures Collect(rest, a, b, UpPath(win, top)) == []
  {
    if win == top || win.NullWindow? {
    } else {
      var up := UpPath(win, top);
      assert up[0] == win && up[1..] == UpPath(win.parent, top);
      PresenceWith(rest, a, win);
      PresenceWith(rest, b, win);
      assert win in up;
      AncestorIrreflexive(win, a);
      if win.parent.Window? { AncestorTrans(win.parent, win, a); }
      if win.parent.Window? { PresenceAbove(rest, win); }
      forall w | w in UpPath(win.parent, top) ensures w in up { assert w in up[1..]; }
      NothingAbovePointer(rest, a, b, win.parent, top);
    }
  }

  lemma PresenceAbove(rest: seq<Window>, win: Window)
    requires win.Window? && win.parent.Window? && PresenceOf(rest, win) != Out
    ensures PresenceOf(rest, win.parent) != Out
  {
    var i :| 0 <= i < |rest| && (rest[i] == win || IsAncestor(win, rest[i]));
    assert IsAncestor(win.parent, win);
    if rest[i] != win { AncestorTrans(win.parent, win, rest[i]); }
    assert IsAncestor(win.parent, rest[i]);
  }

  /** A window the mover leaves with no other pointer in it gets its virtual leave. */
  lemma LeaveStep(rest: seq<Window>, a: Window, b: Window, win: Window, top: Window)
    requires IsAncestor(win, a) && win != top && PresenceOf(rest, win) == Out
    requires win != b && !IsAncestor(win, b)
    ensures Collect(rest, a, b, UpPath(win, top)) ==
            [Event(LeaveNotify, if Linear(a, b) then Virtual else NonlinearVirtual, win, ChildToward(win, a))] +
            Collect(rest, a, b, UpPath(win.parent, top))
  {
    PresenceWith(rest, a, win);
    PresenceWith(rest, b, win);
    AncestorIrreflexive(win, a);
    var up := UpPath(win, top);
    assert up[0] == win && up[1..] == UpPath(win.parent, top);
  }

  /** On the way down a window gets its virtual enter exactly when no other pointer is in it. */
  lemma EnterStep(rest: seq<Window>, a: Window, b: Window, win: Window, top: Window)
    requires win != top && win != a
    requires IsAncestor(win, b) && !IsAncestor(win, a)
    ensures Collect(rest, a, b, DownPath(top, win)) == Collect(rest, a, b, DownPath(top, win.parent)) +
            if PresenceOf(rest, win) != Out then []
            else [Event(EnterNotify, if Linear(a, b) then Virtual else NonlinearVirtual, win, ChildToward(win, b))]
  {
    PresenceWith(rest, a, win);
    PresenceWith(rest, b, win);
    AncestorIrreflexive(win, b);
    CollectConcat(rest, a, b, DownPath(top, win.parent), [win]);
    assert [win][1..] == [];
  }

  lemma UpPathStep(win: Window, top: Window)
    requires win.Window? && win != top
    ensures win in UpPath(win, top)
    ensures forall w :: w in UpPath(win.parent, top) ==> w in UpPath(win, top)
  {
    assert UpPath(win, top)[0] == win;
  }

  /** The event at an end of the path: none when another pointer is there, Inferior when one is below. */
  function EndEvents(p: Presence, kind: Kind, linear: bool, w: Window): seq<Event> {
    match p
    case On => []
    case Below => [Event(kind, Inferior, w, NullWindow)]
    case Out => [Event(kind, if linear then Ancestor else Nonlinear, w, NullWindow)]
  }

  lemma SourceStep(rest: seq<Window>, a: Window, b: Window, x: Window)
    requires a.Window? && a != x && a != b && !IsAncestor(a, b)
    ensures Collect(rest, a, b, UpPath(a, x)) ==
            EndEvents(PresenceOf(rest, a), LeaveNotify, Linear(a, b), a) +
            Collect(rest, a, b, UpPath(a.parent, x))
  {
    PresenceWith(rest, a, a);
    PresenceWith(rest, b, a);
    assert UpPath(a, x)[0] == a && UpPath(a, x)[1..] == UpPath(a.parent, x);
  }

  lemma DestinationStep(rest: seq<Window>, a: Window, b: Window, x: Window)
    requires b.Window? && b != x && a != b && !IsAncestor(b, a)
    ensures Collect(rest, a, b, DownPath(x, b)) ==
            Collect(rest, a, b, DownPath(x, b.parent)) +
            EndEvents(PresenceOf(rest, b), EnterNotify, Linear(a, b), b)
  {
    PresenceWith(rest, a, b);
    PresenceWith(rest, b, b);
    CollectConcat(rest, a, b, DownPath(x, b.parent), [b]);
    assert [b][1..] == [];
  }

  /** The windows on either side of a nonlinear move's common ancestor belong to one side only. */
  lemma NonLinearSides(a: Window, b: Window)
    requires a.Window? && b.Window? && a != b && !Linear(a, b)
    ensures var x := CommonAncestorOf(a, b);
            && (forall w :: w in UpPath(a.parent, x) ==> w != b && !IsAncestor(w, b))
            && (forall w :: w in DownPath(x, b.parent) ==> w != a && !IsAncestor(w, a))
            && (x.Window? ==> IsAncestor(x, a) && IsAncestor(x, b))
  {
    var x := CommonAncestorOf(a, b);
    CommonAncestorLowest(a, b);
    forall w | w in UpPath(a.parent, x) ensures w != b && !IsAncestor(w, b) {
      InUpPath(a, x, w); InUpPath(b, x, w); InUpPath(a.parent, x, w);
    }
    forall w | w in DownPath(x, b.parent) ensures w != a && !IsAncestor(w, a) {
      InDownPath(x, b.parent, w); InUpPath(b.parent, x, w); InUpPath(b, x, w); InUpPath(a, x, w);
    }
  }

  lemma UpwardSides(a: Window, b: Window)
    requires IsAncestor(b, a)
    ensures a != b && !IsAncestor(a, b)
    ensures forall w :: w in UpPath(a.parent, b) ==> w != b && !IsAncestor(w, b)
  {
    AncestorIrreflexive(b, a);
    if IsAncestor(a, b) { AncestorIrreflexive(a, b); }
    forall w | w in UpPath(a.parent, b) ensures w != b && !IsAncestor(w, b) {
      InUpPath(a.parent, b, w);
      AncestorIrreflexive(b, w);
      if IsAncestor(w, b) { AncestorIrreflexive(w, b); }
    }
  }

  lemma DownwardSides(a: Window, b: Window)
    requires IsAncestor(a, b)
    ensures a != b && !IsAncestor(b, a)
    ensures forall w :: w in DownPath(a, b.parent) ==> w != a && !IsAncestor(w, a)
  {
    AncestorIrreflexive(a, b);
    if IsAncestor(b, a) { AncestorIrreflexive(b, a); }
    forall w | w in DownPath(a, b.parent) ensures w != a && !IsAncestor(w, a) {
      InDownPath(a, b.parent, w); InUpPath(b.parent, a, w);
      AncestorIrreflexive(a, w);
      if IsAncestor(w, a) { AncestorIrreflexive(w, a); }
    }
  }

  lemma {:induction false} StepToward(c: Window, b: Window)
    requires c.Window? && c.parent.Window? && (c == b || IsAncestor(c, b))
    ensures IsAncestor(c.parent, b) && ChildToward(c.parent, b) == c
  {
    if c != b {
      AncestorIrreflexive(c.parent, c);
      if b.parent == c.parent { AncestorIrreflexive(c, b.parent); }
      StepToward(c, b.parent);
    }
  }

  lemma MoveEventsAre(ps: seq<Window>, dev: nat, b: Window)
    requires dev < |ps|
    ensures MoveEvents(ps, dev, b) ==
            if ps[dev] == b then [] else Collect(ps[dev := NullWindow], ps[dev], b, MovePath(ps[dev], b))
  {
  }

  /** The server's table of core pointers, with the events sent to core clients so far. */
  class PointerTable {
    const PointerWindows: array<Window>
    var events: seq<Event>

    ghost predicate Valid() reads this, PointerWindows {
      PointerWindows.Length == MAXDEVICES
    }

    method HasPointer(win: Window) returns (found: bool)
      requires Valid()
      ensures found == (win in PointerWindows[..])
    {
      for i := 0 to MAXDEVICES
        invariant win !in PointerWindows[..i]
      {
        if PointerWindows[i] == win { return true; }
      }
      assert PointerWindows[..MAXDEVICES] == PointerWindows[..];
      return false;
    }

    method FirstPointerChild(win: Window) returns (child: Window)
      requires Valid()
      ensures child.Window? <==> SomeBelow(PointerWindows[..], win)
      ensures child.Window? ==> child in PointerWindows[..] && IsAncestor(win, child)
    {
      for i := 0 to MAXDEVICES
        invariant forall k :: 0 <= k < i ==> !IsAncestor(win, PointerWindows[k])
      {
        if PointerWindows[i].Window? && IsAncestor(win, PointerWindows[i]) {
          assert PointerWindows[..][i] == PointerWindows[i];
          return PointerWindows[i];
        }
      }
      return NullWindow;
    }

    /** The pair of tests every suppression rests on. */
    method Occupied(win: Window) returns (here: bool, child: Window)
      requires Valid() && win.Window?
      ensures here == (PresenceOf(PointerWindows[..], win) == On)
      ensures !here ==> (child.Window? <==> PresenceOf(PointerWindows[..], win) == Below)
    {
      here := HasPointer(win);
      child := FirstPointerChild(win);
    }

    method CoreEnterLeaveEvent(kind: Kind, detail: Detail, win: Window, child: Window)
      modifies this`events
      ensures events == old(events) + [Event(kind, detail, win, child)]
    {
      events := events + [Event(kind, detail, win, child)];
    }

    method EnterWindow(dev: Device, win: Window)
      requires Valid() && dev.id < MAXDEVICES
      modifies PointerWindows
      ensures PointerWindows[..] == old(PointerWindows[..])[dev.id := win]
    {
      PointerWindows[dev.id] := win;
    }

    method LeaveWindow(dev: Device)
      requires Valid() && dev.id < MAXDEVICES
      modifies PointerWindows
      ensures PointerWindows[..] == old(PointerWindows[..])[dev.id := NullWindow]
    {
      PointerWindows[dev.id] := NullWindow;
    }

    method CommonAncestor(a: Window, b: Window) returns (x: Window)
      requires b.Window?
      ensures x == CommonAncestorOf(a, b)
    {
      x := b.parent;
      while x.Window?
        invariant if x.NullWindow? then CommonAncestorOf(a, b) == x
                  else if IsAncestor(x, a) then CommonAncestorOf(a, b) == x
                  else CommonAncestorOf(a, b) == CommonAncestorOf(a, x)
        decreases x
      {
        if IsAncestor(x, a) { return x; }
        x := x.parent;
      }
      return NullWindow;
    }

    /** Virtual enters for the windows strictly between ancestor and child, top first. */
    method CoreEnterNotifies(ancestor: Window, child: Window, detail: Detail, ghost a: Window, ghost b: Window)
      requires Valid() && child.Window?
      requires ancestor.NullWindow? || IsAncestor(ancestor, child)
      requires child == b || IsAncestor(child, b)
      requires detail == if Linear(a, b) then Virtual else NonlinearVirtual
      requires forall w :: w in DownPath(ancestor, child.parent) ==> w != a && !IsAncestor(w, a)
      modifies this`events
      ensures events == old(events) + Collect(PointerWindows[..], a, b, DownPath(ancestor, child.parent))
      decreases child
    {
      var parent := child.parent;
      if ancestor == parent { return; }
      StepToward(child, b);
      assert DownPath(ancestor, parent) == DownPath(ancestor, parent.parent) + [parent];
      assert parent in DownPath(ancestor, parent) by {
        assert DownPath(ancestor, parent)[|DownPath(ancestor, parent.parent)|] == parent;
      }
      assert forall w :: w in DownPath(ancestor, parent.parent) ==> w in DownPath(ancestor, parent);
      CoreEnterNotifies(ancestor, parent, detail, a, b);
      var here, below := Occupied(parent);
      EnterStep(PointerWindows[..], a, b, parent, ancestor);
      if !here && below.NullWindow? {
        CoreEnterLeaveEvent(EnterNotify, detail, parent, child);
      }
    }

    /** Virtual leaves for the windows strictly between child and ancestor, bottom first, stopping
        at the first window that still has a pointer in it. */
    method CoreLeaveNotifies(child: Window, ancestor: Window, detail: Detail, ghost b: Window)
      requires Valid() && child.Window?
      requires ancestor.NullWindow? || IsAncestor(ancestor, child)
      requires detail == if Linear(child, b) then Virtual else NonlinearVirtual
      requires forall w :: w in UpPath(child.parent, ancestor) ==> w != b && !IsAncestor(w, b)
      modifies this`events
      ensures events == old(events) + Collect(PointerWindows[..], child, b, UpPath(child.parent, ancestor))
    {
      hide Collect, UpPath, PresenceOf, SomeBelow;
      var win, from := child.parent, child;
      ghost var rest := PointerWindows[..];
      NothingLeft(rest, child, b, ancestor);
      ghost var goal := events + Collect(rest, child, b, UpPath(win, ancestor));
      while win != ancestor
        invariant PointerWindows[..] == rest
        invariant from.Window? && from.parent == win && (from == child || IsAncestor(from, child))
        invariant ancestor.NullWindow? || win == ancestor || IsAncestor(ancestor, win)
        invariant forall w :: w in UpPath(win, ancestor) ==> w != b && !IsAncestor(w, b)
        invariant events + Collect(rest, child, b, UpPath(win, ancestor)) == goal
        decreases win
      {
        StepToward(from, child);
        UpPathStep(win, ancestor);
        var here, below := Occupied(win);
        if here || below.Window? {
          NothingAbovePointer(rest, child, b, win, ancestor);
          return;
        }
        LeaveStep(rest, child, b, win, ancestor);
        CoreEnterLeaveEvent(LeaveNotify, detail, win, from);
        from, win := win, win.parent;
      }
    }

    /** The mover leaves A for a window that is not below A. */
    method LeaveSource(A: Window, detail: Detail, ghost b: Window, ghost x: Window)
      requires Valid() && A.Window? && A != x && A != b && !IsAncestor(A, b)
      requires detail == if Linear(A, b) then Ancestor else Nonlinear
      modifies this`events
      ensures events + Collect(PointerWindows[..], A, b, UpPath(A.parent, x)) ==
              old(events) + Collect(PointerWindows[..], A, b, UpPath(A, x))
    {
      SourceStep(PointerWindows[..], A, b, x);
      var here := HasPointer(A);
      if !here {
        var child := FirstPointerChild(A);
        if child.Window? {
          CoreEnterLeaveEvent(LeaveNotify, Inferior, A, NullWindow);
        } else {
          CoreEnterLeaveEvent(LeaveNotify, detail, A, NullWindow);
        }
      }
    }

    /** The mover arrives at B from a window that is not below B. */
    method EnterDestination(B: Window, detail: Detail, ghost a: Window, ghost x: Window, ghost sent: seq<Event>)
      requires Valid() && B.Window? && B != x && a != B && !IsAncestor(B, a)
      requires events == sent + Collect(PointerWindows[..], a, B, DownPath(x, B.parent))
      requires detail == if Linear(a, B) then Ancestor else Nonlinear
      modifies this`events
      ensures events == sent + Collect(PointerWindows[..], a, B, DownPath(x, B))
    {
      DestinationStep(PointerWindows[..], a, B, x);
      var here := HasPointer(B);
      if !here {
        var child := FirstPointerChild(B);
        if child.Window? {
          CoreEnterLeaveEvent(EnterNotify, Inferior, B, NullWindow);
        } else {
          CoreEnterLeaveEvent(EnterNotify, detail, B, NullWindow);
        }
      }
    }

    method CoreEnterLeaveNonLinear(A: Window, B: Window)
      requires Valid() && A.Window? && B.Window? && A != B && !Linear(A, B)
      modifies this`events
      ensures events == old(events) + Collect(PointerWindows[..], A, B, MovePath(A, B))
    {
      hide Collect, UpPath, DownPath, PresenceOf, CommonAncestorOf;
      ghost var rest := PointerWindows[..];
      var x := CommonAncestor(A, B);
      CommonAncestorLowest(A, B);
      NonLinearSides(A, B);
      LeaveSource(A, Nonlinear, B, x);
      CoreLeaveNotifies(A, x, NonlinearVirtual, B);
      ghost var sent := events;
      assert sent == old(events) + Collect(rest, A, B, UpPath(A, x));
      CoreEnterNotifies(x, B, NonlinearVirtual, A, B);
      EnterDestination(B, Nonlinear, A, x, sent);
      CollectConcat(rest, A, B, UpPath(A, x), DownPath(x, B));
    }

    method CoreEnterLeaveToAncestor(A: Window, B: Window)
      requires Valid() && IsAncestor(B, A)
      modifies this`events
      ensures events == old(events) + Collect(PointerWindows[..], A, B, MovePath(A, B))
    {
      ghost var rest := PointerWindows[..];
      UpwardSides(A, B);
      LeaveSource(A, Ancestor, B, B);
      CoreLeaveNotifies(A, B, Virtual, B);
      assert events == old(events) + Collect(rest, A, B, UpPath(A, B));
      var here := HasPointer(B);
      PresenceWith(rest, A, B);
      PresenceWith(rest, B, B);
      if !here {
        CoreEnterLeaveEvent(EnterNotify, Inferior, B, NullWindow);
      }
      assert [B][1..] == [];
      CollectConcat(rest, A, B, UpPath(A, B), [B]);
    }

    method CoreEnterLeaveToDescendant(A: Window, B: Window)
      requires Valid() && IsAncestor(A, B)
      modifies this`events
      ensures events == old(events) + Collect(PointerWindows[..], A, B, MovePath(A, B))
    {
      ghost var rest := PointerWindows[..];
      DownwardSides(A, B);
      var here := HasPointer(A);
      PresenceWith(rest, A, A);
      PresenceWith(rest, B, A);
      if !here {
        CoreEnterLeaveEvent(LeaveNotify, Inferior, A, NullWindow);
      }
      assert [A][1..] == [];
      ghost var sent := events;
      assert sent == old(events) + Collect(rest, A, B, [A]);
      CoreEnterNotifies(A, B, Virtual, A, B);
      EnterDestination(B, Ancestor, A, A, sent);
      CollectConcat(rest, A, B, [A], DownPath(A, B));
    }

    method CoreEnterLeaveEvents(dev: Device, from: Window, to: Window)
      requires Valid() && dev.id < MAXDEVICES && from.Window? && to.Window? && from != to
      requires dev.master ==> PointerWindows[dev.id] == from
      modifies this`events, PointerWindows
      ensures !dev.master ==> events == old(events) && PointerWindows[..] == old(PointerWindows[..])
      ensures dev.master ==>
                && events == old(events) + MoveEvents(old(PointerWindows[..]), dev.id, to)
                && PointerWindows[..] == old(PointerWindows[..])[dev.id := to]
      ensures old(events) <= events && InOrder(events[|old(events)|..])
      ensures forall i :: |old(events)| <= i < |events| ==> SaysWhere(events[i], from, to)
    {
      if !dev.master { return; }
      MoveInOrder(PointerWindows[..], dev.id, to);
      hide MoveEvents, Collect, Required, InOrder, SaysWhere, MovePath, PresenceOf;
      MoveEventsAre(PointerWindows[..], dev.id, to);
      LeaveWindow(dev);
      if IsAncestor(from, to) {
        CoreEnterLeaveToDescendant(from, to);
      } else if IsAncestor(to, from) {
        CoreEnterLeaveToAncestor(from, to);
      } else {
        CoreEnterLeaveNonLinear(from, to);
      }
      EnterWindow(dev, to);
      assert old(PointerWindows[..])[dev.id := NullWindow][dev.id := to] == old(PointerWindows[..])[dev.id := to];
    }

    method DoEnterLeaveEvents(dev: Device, from: Window, to: Window)
      requires Valid() && dev.id < MAXDEVICES && from.Window? && to.Window?
      requires dev.master ==> PointerWindows[dev.id] == from
      modifies this`events, PointerWindows
      ensures !dev.master ==> events == old(events) && PointerWindows[..] == old(PointerWindows[..])
      ensures dev.master ==>
                && events == old(events) + MoveEvents(old(PointerWindows[..]), dev.id, to)
                && PointerWindows[..] == old(PointerWindows[..])[dev.id := to]
      ensures old(events) <= events && InOrder(events[|old(events)|..])
      ensures forall i :: |old(events)| <= i < |events| ==> SaysWhere(events[i], from, to)
    {
      if from == to { return; }
      CoreEnterLeaveEvents(dev, from, to);
    }
  }
}
