/**
 Callback lists (dix/dixutils.c): callbacks may add, delete and call callbacks of the list that is
 being called, or delete the list; deletions wait for the outermost call to return.
 */
module Callbacks {
  import opened Common

  // ---------------------------------------------------------------- what callbacks do

  /** What code may do to a list.  A call runs one script for each callback that it calls, in turn;
      callbacks beyond the scripts do nothing.  An addition needs memory for the list, if there is
      none yet, and for the callback. */
  datatype Act = Add(key: nat, listRoom: bool, room: bool) | Delete(gone: nat) | DeleteList | Call(bodies: Bodies)

  datatype Script = Done | Then(act: Act, rest: Script)

  datatype Bodies = NoMore | Body(script: Script, more: Bodies)

  /** What happened: a callback was called by a traversal at some depth of nesting; one was added,
      while its key was registered already or while the list was marked for deletion; one was deleted,
      in vain or not; or the list was. */
  datatype Event =
    | Called(key: nat, depth: nat)
    | Added(key: nat, again: bool, late: bool)
    | Deleted(key: nat, lost: bool)
    | ListDeleted

  /** An event and the keys that stay registered after it. */
  datatype Record = Record(event: Event, live: seq<nat>)

  /** One registered callback; the key stands for its procedure and data. */
  datatype Item = Item(key: nat, deleted: bool)

  datatype View = Gone | Live(items: seq<Item>, inCallback: nat, numDeleted: nat, deleted: bool)

  datatype Outcome = Outcome(view: View, log: seq<Record>)

  function Marked(items: seq<Item>): nat {
    if items == [] then 0 else (if items[0].deleted then 1 else 0) + Marked(items[1..])
  }

  /** The items that are not marked, in their order. */
  function Kept(items: seq<Item>): seq<Item> {
    if items == [] then [] else (if items[0].deleted then [] else [items[0]]) + Kept(items[1..])
  }

  function KeysOf(items: seq<Item>): (keys: seq<nat>)
    ensures |keys| == |items| && forall i :: 0 <= i < |items| ==> keys[i] == items[i].key
  {
    seq(|items|, i requires 0 <= i < |items| => items[i].key)
  }

  /** The place of the first item with a key, marked or not. */
  function FirstOf(items: seq<Item>, key: nat): (i: nat)
    ensures i <= |items| && (i < |items| ==> items[i].key == key) && forall j :: 0 <= j < i ==> items[j].key != key
  {
    if items == [] || items[0].key == key then 0
    else
      var i := FirstOf(items[1..], key);
      assert forall j :: 0 < j <= i ==> items[j].key == items[1..][j - 1].key;
      i + 1
  }

  /** The callbacks that stay on the list once the pending deletions are carried out. */
  function LiveKeys(v: View): seq<nat> {
    if v.Gone? || v.deleted then [] else KeysOf(Kept(v.items))
  }

  function WithAdded(v: View, key: nat): View {
    if v.Gone? then Live([Item(key, false)], 0, 0, false) else v.(items := [Item(key, false)] + v.items)
  }

  function AddedTo(v: View, log: seq<Record>, key: nat): Outcome {
    Outcome(WithAdded(v, key),
            log + [Record(Added(key, key in LiveKeys(v), v.Live? && v.deleted), LiveKeys(WithAdded(v, key)))])
  }

  lemma AddedToEmpty(log: seq<Record>, key: nat)
    ensures AddedTo(Live([], 0, 0, false), log, key) == AddedTo(Gone, log, key)
  {
    assert [Item(key, false)] + [] == [Item(key, false)];
  }

  /** An addition that may run out of memory. */
  function Addition(v: View, log: seq<Record>, key: nat, listRoom: bool, room: bool): Outcome {
    if v.Gone? && !listRoom then Outcome(v, log)
    else if room then AddedTo(v, log, key)
    else Outcome(if v.Gone? then Live([], 0, 0, false) else v, log)
  }

  /** An addition puts the callback in front, on a new list if there is none; for lack of memory it
      leaves nothing but perhaps a new list without callbacks. */
  lemma AdditionIs(v: View, log: seq<Record>, key: nat, listRoom: bool, room: bool)
    ensures var o, done := Addition(v, log, key, listRoom, room), room && (listRoom || v.Live?);
            && (done ==>
                  && o.view == Live([Item(key, false)] + (if v.Gone? then [] else v.items),
                                    if v.Gone? then 0 else v.inCallback, if v.Gone? then 0 else v.numDeleted,
                                    v.Live? && v.deleted)
                  && |o.log| == |log| + 1 && o.log[..|log|] == log && o.log[|log|].event.Added?
                  && o.log[|log|].event.key == key
                  && o.log[|log|].live == if v.Live? && v.deleted then [] else [key] + LiveKeys(v))
            && (!done ==> o.log == log && o.view == if v.Gone? && listRoom then Live([], 0, 0, false) else v)
  {
    var o := Addition(v, log, key, listRoom, room);
    assert [Item(key, false)] + [] == [Item(key, false)];
    if room && (listRoom || v.Live?) {
      assert o.log[..|log|] == log;
      var items := if v.Gone? then [] else v.items;
      assert Kept([Item(key, false)] + items) == [Item(key, false)] + Kept(items) by {
        assert ([Item(key, false)] + items)[1..] == items;
      }
      assert KeysOf([Item(key, false)] + Kept(items)) == [key] + KeysOf(Kept(items));
    }
  }

  /** A deletion takes the first callback with the key off the list, or marks it while the list is
      being called. */
  lemma WithDeletedIs(v: View, key: nat, i: nat)
    requires v.Live? ==> i <= |v.items| && (i < |v.items| ==> v.items[i].key == key)
    requires v.Live? ==> forall j :: 0 <= j < i ==> v.items[j].key != key
    ensures var w := WithDeleted(v, key);
            && (v.Gone? || i == |v.items| ==> w == v)
            && (v.Live? && i < |v.items| && v.inCallback > 0 ==>
                  w == Live(v.items[i := Item(key, true)], v.inCallback, v.numDeleted + 1, v.deleted))
            && (v.Live? && i < |v.items| && v.inCallback == 0 ==>
                  w == Live(v.items[..i] + v.items[i + 1..], 0, v.numDeleted, v.deleted))
  {
    if v.Live? { assert FirstOf(v.items, key) == i; }
  }

  lemma {:induction false} NoMarks(items: seq<Item>)
    ensures Marked(items) == 0 <==> forall k :: k in items ==> !k.deleted
  {
    if items != [] {
      NoMarks(items[1..]);
      assert items == [items[0]] + items[1..];
      assert items[0] in items;
    }
  }

  lemma {:induction false} KeptAgain(items: seq<Item>)
    ensures Kept(Kept(items)) == Kept(items)
    ensures forall k :: k in Kept(items) ==> k in items && !k.deleted
    ensures forall k :: k in items && !k.deleted ==> k in Kept(items)
  {
    if items != [] {
      KeptAgain(items[1..]);
      var tl := Kept(items[1..]);
      if items[0].deleted { assert Kept(items) == tl; }
      else { assert Kept(items) == [items[0]] + tl && Kept(items)[1..] == tl; }
      assert items == [items[0]] + items[1..];
    }
  }

  /** The end of a call changes nothing about which callbacks are registered, and the end of the
      outermost one leaves no mark. */
  lemma LeavingKeepsKeys(v: View)
    requires v.Live? && v.inCallback > 0 && v.numDeleted >= Marked(v.items)
    ensures LiveKeys(Left(v)) == LiveKeys(v)
    ensures v.inCallback == 1 ==>
              Left(v).Gone? == v.deleted &&
              (!v.deleted ==> Left(v).inCallback == 0 && forall k :: k in Left(v).items ==> !k.deleted)
    ensures v.inCallback > 1 ==> Left(v) == Live(v.items, v.inCallback - 1, v.numDeleted, v.deleted)
  {
    KeptAgain(v.items);
  }

  function WithDeleted(v: View, key: nat): View {
    if v.Gone? || FirstOf(v.items, key) == |v.items| then v
    else DeletedAt(v, FirstOf(v.items, key))
  }

  /** w is v after its first callback with the key was deleted, or marked during a call. */
  ghost predicate DeletedFirst(v: View, w: View, key: nat) {
    v.Live? && exists i: nat ::
      && i < |v.items| && v.items[i].key == key && (forall j :: 0 <= j < i ==> v.items[j].key != key)
      && w == if v.inCallback > 0
              then Live(v.items[i := Item(key, true)], v.inCallback, v.numDeleted + 1, v.deleted)
              else Live(v.items[..i] + v.items[i + 1..], 0, v.numDeleted, v.deleted)
  }

  function DeletedAt(v: View, i: nat): View
    requires v.Live? && i < |v.items|
  {
    if v.inCallback > 0 then v.(items := v.items[i := v.items[i].(deleted := true)], numDeleted := v.numDeleted + 1)
    else v.(items := v.items[..i] + v.items[i + 1..])
  }

  /** The first callback with the key is already marked, and another one is registered. */
  predicate Lost(v: View, key: nat) {
    && v.Live? && !v.deleted && key in LiveKeys(v)
    && FirstOf(v.items, key) < |v.items| && v.items[FirstOf(v.items, key)].deleted
  }

  function Deletion(v: View, log: seq<Record>, key: nat): Outcome {
    Outcome(WithDeleted(v, key), log + [Record(Deleted(key, Lost(v, key)), LiveKeys(WithDeleted(v, key)))])
  }

  function WithListDeleted(v: View): View {
    if v.Gone? then v else if v.inCallback > 0 then v.(deleted := true) else Gone
  }

  /** A call is over: the outermost one carries out the deletions. */
  function Left(v: View): View
    requires v.Live? && v.inCallback > 0 && v.numDeleted >= Marked(v.items)
  {
    if v.inCallback > 1 then v.(inCallback := v.inCallback - 1)
    else if v.deleted then Gone
    else v.(items := Kept(v.items), inCallback := 0, numDeleted := v.numDeleted - Marked(v.items))
  }

  /** Every marked item is counted, and marks are pending only while the list is being called. */
  predicate Good(v: View) {
    v.Live? ==>
      && v.numDeleted >= Marked(v.items)
      && (v.inCallback == 0 ==> !v.deleted && Marked(v.items) == 0)
  }

  // ---------------------------------------------------------------- runs

  ghost function Performed(script: Script, v: View, log: seq<Record>): (o: Outcome)
    requires Good(v)
    ensures Good(o.view) && Grown(v, o.view)
    decreases script, 2, 0
  {
    if script.Done? then Outcome(v, log)
    else
      var o := PerformedOne(script.act, v, log);
      GrownTwice(v, o.view, Performed(script.rest, o.view, o.log).view);
      Performed(script.rest, o.view, o.log)
  }

  ghost function PerformedOne(act: Act, v: View, log: seq<Record>): (o: Outcome)
    requires Good(v)
    ensures Good(o.view) && Grown(v, o.view)
    decreases act, 2, 0
  {
    match act
    case Add(key, listRoom, room) => (AddKeeps(v, key); Addition(v, log, key, listRoom, room))
    case Delete(key) => (DeleteKeeps(v, key); Deletion(v, log, key))
    case DeleteList => Outcome(WithListDeleted(v), log + [Record(ListDeleted, [])])
    case Call(bodies) => CalledAll(bodies, v, log)
  }

  ghost function CalledAll(bodies: Bodies, v: View, log: seq<Record>): (o: Outcome)
    requires Good(v)
    ensures Good(o.view) && Grown(v, o.view)
    decreases bodies, 1, 0
  {
    if v.Gone? then Outcome(v, log)
    else
      var o := Visited(bodies, KeysOf(v.items), v.(inCallback := v.inCallback + 1), log);
      LeavingKeeps(v, o.view);
      Outcome(Left(o.view), o.log)
  }

  function CallOf(v: View, key: nat): Record
    requires v.Live?
  {
    Record(Called(key, v.inCallback), LiveKeys(v))
  }

  /** The callbacks of a traversal, called one after the other: those on the list when it began. */
  ghost function Visited(bodies: Bodies, keys: seq<nat>, v: View, log: seq<Record>): (o: Outcome)
    requires Good(v) && v.Live? && v.inCallback > 0
    ensures Good(o.view) && Grown(v, o.view)
    decreases bodies, 0, |keys|
  {
    if keys == [] then Outcome(v, log)
    else
      var log1 := log + [CallOf(v, keys[0])];
      var o := if bodies.Body? then Performed(bodies.script, v, log1) else Outcome(v, log1);
      var p := Visited(if bodies.Body? then bodies.more else bodies, keys[1..], o.view, o.log);
      GrownTwice(v, o.view, p.view);
      p
  }

  /** While the list is being called it only grows at its front: nothing is taken off, and what is
      marked stays marked. */
  ghost predicate Grown(v: View, w: View) {
    v.Live? && v.inCallback > 0 ==>
      && w.Live? && w.inCallback == v.inCallback && |w.items| >= |v.items| && (v.deleted ==> w.deleted)
      && forall i :: 0 <= i < |v.items| ==>
           var j := |w.items| - |v.items| + i;
           w.items[j].key == v.items[i].key && (v.items[i].deleted ==> w.items[j].deleted)
  }

  lemma PerformedIs(script: Script, v: View, log: seq<Record>)
    requires Good(v)
    ensures script.Done? ==> Performed(script, v, log) == Outcome(v, log)
    ensures script.Then? ==>
      var o := PerformedOne(script.act, v, log);
      Good(o.view) && Performed(script, v, log) == Performed(script.rest, o.view, o.log)
  {
  }

  lemma VisitedIs(bodies: Bodies, keys: seq<nat>, v: View, log: seq<Record>)
    requires Good(v) && v.Live? && v.inCallback > 0
    ensures keys == [] ==> Visited(bodies, keys, v, log) == Outcome(v, log)
    ensures keys != [] ==>
      var log1 := log + [CallOf(v, keys[0])];
      Visited(bodies, keys, v, log) ==
        if bodies.Body? then
          var o := Performed(bodies.script, v, log1); Visited(bodies.more, keys[1..], o.view, o.log)
        else Visited(bodies, keys[1..], v, log1)
  {
  }

  lemma GrownTwice(v: View, w: View, x: View)
    requires Grown(v, w) && Grown(w, x)
    ensures Grown(v, x)
  {
  }

  lemma {:induction false} MarkedUpdate(items: seq<Item>, i: nat)
    requires i < |items|
    ensures Marked(items[i := items[i].(deleted := true)]) == Marked(items) + if items[i].deleted then 0 else 1
    ensures Marked(items[..i] + items[i + 1..]) == Marked(items) - if items[i].deleted then 1 else 0
  {
    if i == 0 {
      assert items[0 := items[0].(deleted := true)][1..] == items[1..];
      assert items[..0] + items[1..] == items[1..];
    } else {
      MarkedUpdate(items[1..], i - 1);
      assert items[i := items[i].(deleted := true)][1..] == items[1..][i - 1 := items[i].(deleted := true)];
      assert (items[..i] + items[i + 1..])[1..] == items[1..][..i - 1] + items[1..][i..];
    }
  }

  lemma AddKeeps(v: View, key: nat)
    requires Good(v)
    ensures Good(WithAdded(v, key)) && Grown(v, WithAdded(v, key))
  {
    hide Marked;
    if v.Live? {
      var w := WithAdded(v, key);
      MarkedCons(Item(key, false), v.items);
      assert forall i :: 0 <= i < |v.items| ==> w.items[i + 1] == v.items[i];
    } else {
      MarkedCons(Item(key, false), []);
      assert [Item(key, false)] + [] == [Item(key, false)];
    }
  }

  lemma MarkedCons(item: Item, items: seq<Item>)
    ensures Marked([item] + items) == Marked(items) + (if item.deleted then 1 else 0) && Marked([]) == 0
  {
    assert ([item] + items)[1..] == items;
  }

  lemma DeleteKeeps(v: View, key: nat)
    requires Good(v)
    ensures Good(WithDeleted(v, key)) && Grown(v, WithDeleted(v, key))
  {
    if v.Live? && FirstOf(v.items, key) < |v.items| { MarkedUpdate(v.items, FirstOf(v.items, key)); }
  }

  lemma {:induction false} KeptIsClean(items: seq<Item>)
    ensures Marked(Kept(items)) == 0 && |Kept(items)| == |items| - Marked(items)
  {
    if items != [] {
      KeptIsClean(items[1..]);
      if items[0].deleted {
        assert Kept(items) == Kept(items[1..]);
      } else {
        assert Kept(items)[1..] == Kept(items[1..]);
      }
    }
  }

  lemma LeavingKeeps(v: View, w: View)
    requires v.Live? && Good(w) && Grown(v.(inCallback := v.inCallback + 1), w)
    ensures Good(Left(w)) && Grown(v, Left(w))
  {
    KeptIsClean(w.items);
  }

  // ---------------------------------------------------------------- deferred and immediate deletion

  /** The callbacks that deleting at once would leave registered. */
  function Immediate(log: seq<Record>): seq<nat> {
    if log == [] then []
    else ImmediateStep(Immediate(log[..|log| - 1]), log[|log| - 1].event)
  }

  function ImmediateStep(keys: seq<nat>, e: Event): seq<nat> {
    if e.Added? then [e.key] + keys
    else if e.Deleted? then WithoutFirst(keys, e.key)
    else if e.ListDeleted? then [] else keys
  }

  /** After every event the callbacks that stay registered are those that deleting at once leaves. */
  ghost predicate Agrees(log: seq<Record>) {
    forall n :: 0 < n <= |log| ==> log[n - 1].live == Immediate(log[..n])
  }

  predicate Fault(e: Event) {
    (e.Added? && e.late) || (e.Deleted? && e.lost)
  }

  /** No deletion was in vain, and nothing was added to a list about to be deleted. */
  ghost predicate Faultless(log: seq<Record>) {
    forall n :: 0 <= n < |log| ==> !Fault(log[n].event)
  }

  /** Nothing was registered twice at a time, or added to a list about to be deleted. */
  ghost predicate Proper(log: seq<Record>) {
    forall n :: 0 <= n < |log| && log[n].event.Added? ==> !log[n].event.again && !log[n].event.late
  }

  /** Of the items with one key only the first may be unmarked. */
  predicate Plain(items: seq<Item>) {
    items == [] ||
    (Plain(items[1..]) && forall j :: 1 <= j < |items| && items[j].key == items[0].key ==> items[j].deleted)
  }

  /** The history explains the list: it agreed with deleting at once exactly if it was faultless. */
  ghost predicate Explained(v: View, log: seq<Record>) {
    && (Agrees(log) <==> Faultless(log))
    && (Faultless(log) ==> LiveKeys(v) == Immediate(log))
    && (Proper(log) ==> Faultless(log) && (v.Live? ==> Plain(v.items)))
  }

  lemma RecordMore(log: seq<Record>, r: Record)
    ensures Immediate(log + [r]) == ImmediateStep(Immediate(log), r.event)
    ensures Agrees(log + [r]) <==> Agrees(log) && r.live == ImmediateStep(Immediate(log), r.event)
    ensures Faultless(log + [r]) <==> Faultless(log) && !Fault(r.event)
    ensures Proper(log + [r]) <==> Proper(log) && !(r.event.Added? && (r.event.again || r.event.late))
  {
    hide Immediate;
    var more := log + [r];
    ImmediateMore(log, r);
    assert forall n :: 0 <= n <= |log| ==> more[..n] == log[..n];
    assert more[..|more|] == more && more[|log|] == r;
    assert forall n :: 0 <= n < |log| ==> more[n] == log[n];
  }

  lemma ImmediateMore(log: seq<Record>, r: Record)
    ensures Immediate(log + [r]) == ImmediateStep(Immediate(log), r.event)
  {
    assert (log + [r])[..|log|] == log;
  }

  /** One more event, which is a fault exactly if it separates the list from deleting at once. */
  lemma ExplainedMore(v: View, w: View, log: seq<Record>, e: Event)
    requires Explained(v, log) && (LiveKeys(w) == ImmediateStep(LiveKeys(v), e) <==> !Fault(e))
    requires Proper(log + [Record(e, LiveKeys(w))]) ==> !Fault(e) && (w.Live? ==> Plain(w.items))
    ensures Explained(w, log + [Record(e, LiveKeys(w))])
  {
    hide Agrees, Faultless, Proper, Plain, LiveKeys, Immediate, ImmediateStep, Fault;
    RecordMore(log, Record(e, LiveKeys(w)));
  }

  lemma {:induction false} InKept(items: seq<Item>, key: nat)
    ensures key in KeysOf(Kept(items)) <==> exists i :: 0 <= i < |items| && items[i].key == key && !items[i].deleted
  {
    if items != [] {
      InKept(items[1..], key);
      KeptHead(items);
      assert forall i :: 0 < i < |items| ==> items[i] == items[1..][i - 1];
    }
  }

  lemma KeptHead(items: seq<Item>)
    requires items != []
    ensures KeysOf(Kept(items)) == (if items[0].deleted then [] else [items[0].key]) + KeysOf(Kept(items[1..]))
  {
  }

  lemma {:induction false} AbsentStays(keys: seq<nat>, key: nat)
    requires key !in keys
    ensures WithoutFirst(keys, key) == keys
  {
    if keys != [] { AbsentStays(keys[1..], key); }
  }

  /** Marking the first item of a key, or taking it off, deletes it at once as far as the kept items
      show, exactly when it is unmarked or no item of the key is. */
  lemma {:induction false} MarkingDeletes(items: seq<Item>, key: nat)
    requires FirstOf(items, key) < |items|
    ensures var i := FirstOf(items, key);
            && (KeysOf(Kept(items[i := items[i].(deleted := true)])) == WithoutFirst(KeysOf(Kept(items)), key) <==>
                !items[i].deleted || key !in KeysOf(Kept(items)))
            && KeysOf(Kept(items[..i] + items[i + 1..])) == KeysOf(Kept(items[i := items[i].(deleted := true)]))
  {
    hide Kept, KeysOf, WithoutFirst, FirstOf;
    var i := FirstOf(items, key);
    var marked, cut := items[i := items[i].(deleted := true)], items[..i] + items[i + 1..];
    KeptHead(items);
    KeptHead(marked);
    var keys, rest := KeysOf(Kept(items)), KeysOf(Kept(items[1..]));
    if i == 0 {
      assert marked[1..] == items[1..] && cut == items[1..];
      if items[0].deleted {
        if key in keys { WithoutFirstShorter(keys, key); } else { AbsentStays(keys, key); }
        assert [] + rest == rest;
      } else {
        WithoutFirstCons(items[0].key, rest, key);
      }
    } else {
      FirstOfTail(items, key);
      MarkingDeletes(items[1..], key);
      KeptHead(cut);
      assert marked[1..] == items[1..][i - 1 := items[i].(deleted := true)];
      assert cut[1..] == items[1..][..i - 1] + items[1..][i..];
      var after := KeysOf(Kept(marked[1..]));
      if items[0].deleted {
        assert [] + rest == rest && [] + after == after;
      } else {
        WithoutFirstCons(items[0].key, rest, key);
        assert ([items[0].key] + after)[1..] == after &&
          ([items[0].key] + WithoutFirst(rest, key))[1..] == WithoutFirst(rest, key);
      }
    }
  }

  lemma FirstOfTail(items: seq<Item>, key: nat)
    requires FirstOf(items, key) > 0
    ensures items != [] && FirstOf(items[1..], key) == FirstOf(items, key) - 1
  {
  }

  lemma WithoutFirstCons(x: nat, keys: seq<nat>, key: nat)
    ensures WithoutFirst([x] + keys, key) == if x == key then keys else [x] + WithoutFirst(keys, key)
  {
    assert ([x] + keys)[1..] == keys;
  }

  lemma {:induction false} WithoutFirstShorter(keys: seq<nat>, key: nat)
    requires key in keys
    ensures |WithoutFirst(keys, key)| == |keys| - 1
  {
    if keys[0] != key { WithoutFirstShorter(keys[1..], key); }
  }

  lemma {:induction false} PlainUpdate(items: seq<Item>, key: nat)
    requires Plain(items) && FirstOf(items, key) < |items|
    ensures var i := FirstOf(items, key);
            && Plain(items[i := items[i].(deleted := true)]) && Plain(items[..i] + items[i + 1..])
            && (!items[i].deleted || key !in KeysOf(Kept(items)))
  {
    var i := FirstOf(items, key);
    var marked, cut := items[i := items[i].(deleted := true)], items[..i] + items[i + 1..];
    if i == 0 {
      assert marked[1..] == items[1..] && cut == items[1..];
      InKept(items, key);
    } else {
      PlainUpdate(items[1..], key);
      assert marked[1..] == items[1..][i - 1 := items[i].(deleted := true)];
      assert cut[1..] == items[1..][..i - 1] + items[1..][i..];
      KeptHead(items);
      forall j | 1 <= j < |cut| && cut[j].key == cut[0].key ensures cut[j].deleted {
        assert cut[j] == items[if j < i then j else j + 1];
      }
    }
  }

  lemma {:induction false} KeptPlain(items: seq<Item>)
    requires Plain(items)
    ensures Plain(Kept(items)) && Kept(Kept(items)) == Kept(items)
  {
    if items != [] {
      KeptPlain(items[1..]);
      if !items[0].deleted {
        var kept := Kept(items);
        assert kept[1..] == Kept(items[1..]);
        InKept(items[1..], items[0].key);
        forall j | 1 <= j < |kept| ensures kept[j].key != kept[0].key {
          assert KeysOf(kept[1..])[j - 1] == kept[j].key;
        }
      } else {
        assert Kept(items) == Kept(items[1..]);
      }
    }
  }

  lemma {:induction false} NothingMarked(items: seq<Item>)
    requires Marked(items) == 0
    ensures Kept(items) == items
  {
    if items != [] { NothingMarked(items[1..]); }
  }

  lemma AddExplained(v: View, key: nat, log: seq<Record>)
    requires Explained(v, log)
    ensures var o := AddedTo(v, log, key); Explained(o.view, o.log)
  {
    var w, e := WithAdded(v, key), Added(key, key in LiveKeys(v), v.Live? && v.deleted);
    KeptHead(w.items);
    RecordMore(log, Record(e, LiveKeys(w)));
    if v.Live? {
      InKept(v.items, key);
      assert w.items[1..] == v.items;
    } else {
      assert w.items[1..] == [];
    }
    hide Explained, Proper, Kept, Immediate;
    assert LiveKeys(w) == [key] + LiveKeys(v) <==> !e.late;
    ExplainedMore(v, w, log, e);
  }

  lemma EmptyExplained(v: View, log: seq<Record>)
    requires Explained(v, log) && v.Gone?
    ensures Good(Live([], 0, 0, false)) && Explained(Live([], 0, 0, false), log)
  {
  }

  /** A deletion has the effect of deleting at once exactly if it is not lost. */
  lemma DeleteShows(v: View, key: nat)
    requires Good(v)
    ensures LiveKeys(WithDeleted(v, key)) == WithoutFirst(LiveKeys(v), key) <==> !Lost(v, key)
  {
    hide Kept, Marked, WithoutFirst, FirstOf;
    if v.Gone? || v.deleted {
      AbsentStays([], key);
    } else if FirstOf(v.items, key) < |v.items| {
      MarkingDeletes(v.items, key);
      if v.inCallback == 0 { NothingMarkedAt(v.items, FirstOf(v.items, key)); }
    } else {
      InKept(v.items, key);
      AbsentStays(LiveKeys(v), key);
    }
  }

  lemma {:induction false} NothingMarkedAt(items: seq<Item>, i: nat)
    requires i < |items| && Marked(items) == 0
    ensures !items[i].deleted
  {
    if i > 0 { NothingMarkedAt(items[1..], i - 1); }
  }

  lemma DeleteExplained(v: View, key: nat, log: seq<Record>)
    requires Good(v) && Explained(v, log)
    ensures var o := Deletion(v, log, key); Explained(o.view, o.log)
  {
    var w, e := WithDeleted(v, key), Deleted(key, Lost(v, key));
    RecordMore(log, Record(e, LiveKeys(w)));
    hide Good, Kept, Marked, Proper, Agrees, Immediate, Plain, FirstOf, Faultless;
    DeleteShows(v, key);
    if Proper(log) && v.Live? && FirstOf(v.items, key) < |v.items| { PlainUpdate(v.items, key); }
    ExplainedMore(v, w, log, e);
  }

  /** The end of a call takes nothing off that was still registered. */
  lemma LeavingExplained(v: View, log: seq<Record>)
    requires Good(v) && v.Live? && v.inCallback > 0 && Explained(v, log)
    ensures LiveKeys(Left(v)) == LiveKeys(v) && Explained(Left(v), log)
  {
    hide Agrees, Faultless, Proper, Immediate;
    KeptIsClean(v.items);
    NothingMarked(Kept(v.items));
    if Proper(log) { KeptPlain(v.items); }
  }

  /** For any nesting of calls, additions and deletions of callbacks and of the list: after every
      event the callbacks that stay registered are those that deleting at once leaves, exactly if the
      run is faultless, and so it is if nothing is registered twice at a time. */
  lemma {:induction false} DeferredExactly(script: Script, v: View, log: seq<Record>)
    requires Good(v) && Explained(v, log)
    ensures var o := Performed(script, v, log); Explained(o.view, o.log)
    decreases script, 2, 0
  {
    if script.Then? {
      hide Explained, Good;
      ActExactly(script.act, v, log);
      var o := PerformedOne(script.act, v, log);
      DeferredExactly(script.rest, o.view, o.log);
    }
  }

  lemma {:induction false} ActExactly(act: Act, v: View, log: seq<Record>)
    requires Good(v) && Explained(v, log)
    ensures var o := PerformedOne(act, v, log); Explained(o.view, o.log)
    decreases act, 2, 0
  {
    hide Explained, Good, Lost, LiveKeys, Kept, Marked;
    match act {
      case Add(key, listRoom, room) =>
        AddExplained(v, key, log);
        if v.Gone? { EmptyExplained(v, log); }
      case Delete(key) =>
        DeleteExplained(v, key, log);
      case DeleteList =>
        ListDeletionExplained(v, log);
      case Call(bodies) =>
        CallsExactly(bodies, v, log);
    }
  }

  lemma ListDeletionExplained(v: View, log: seq<Record>)
    requires Explained(v, log)
    ensures Explained(WithListDeleted(v), log + [Record(ListDeleted, [])])
  {
    RecordMore(log, Record(ListDeleted, []));
    hide Agrees, Faultless, Proper, Plain, Immediate;
    ExplainedMore(v, WithListDeleted(v), log, ListDeleted);
  }

  lemma {:induction false} CallsExactly(bodies: Bodies, v: View, log: seq<Record>)
    requires Good(v) && Explained(v, log)
    ensures var o := CalledAll(bodies, v, log); Explained(o.view, o.log)
    decreases bodies, 1, 0
  {
    if v.Live? {
      hide Immediate, Agrees, Faultless, Proper, Kept, Marked, Plain;
      var w := v.(inCallback := v.inCallback + 1);
      VisitsExactly(bodies, KeysOf(v.items), w, log);
      var o := Visited(bodies, KeysOf(v.items), w, log);
      LeavingKeeps(v, o.view);
      LeavingExplained(o.view, o.log);
    }
  }

  lemma {:induction false} VisitsExactly(bodies: Bodies, keys: seq<nat>, v: View, log: seq<Record>)
    requires Good(v) && Explained(v, log) && v.Live? && v.inCallback > 0
    ensures var o := Visited(bodies, keys, v, log); Explained(o.view, o.log)
    decreases bodies, 0, |keys|
  {
    if keys != [] {
      hide Explained, LiveKeys, Good;
      var log1 := log + [CallOf(v, keys[0])];
      CallExplained(v, keys[0], log);
      if bodies.Body? {
        DeferredExactly(bodies.script, v, log1);
        var o := Performed(bodies.script, v, log1);
        VisitsExactly(bodies.more, keys[1..], o.view, o.log);
      } else {
        VisitsExactly(bodies, keys[1..], v, log1);
      }
    }
  }

  lemma CallExplained(v: View, key: nat, log: seq<Record>)
    requires v.Live? && Explained(v, log)
    ensures Explained(v, log + [CallOf(v, key)])
  {
    RecordMore(log, CallOf(v, key));
    hide Agrees, Faultless, Proper, Plain, Immediate, LiveKeys;
    ExplainedMore(v, v, log, Called(key, v.inCallback));
  }

  /** Starting without a list. */
  lemma RunsExactly(script: Script)
    ensures var o := Performed(script, Gone, []);
            && (Agrees(o.log) <==> Faultless(o.log))
            && (Faultless(o.log) ==> LiveKeys(o.view) == Immediate(o.log))
            && (Proper(o.log) ==> Faultless(o.log))
  {
    DeferredExactly(script, Gone, []);
  }

  /** Registered twice and deleted twice by a callback, a callback stays on the list: the second
      deletion finds the item that is already marked. */
  lemma SecondDeletionIsLost()
    ensures var twice := Live([Item(7, false), Item(7, false)], 0, 0, false);
            LiveKeys(CalledAll(Body(Then(Delete(7), Then(Delete(7), Done)), NoMore), twice, []).view) == [7]
  {
    var twice := Live([Item(7, false), Item(7, false)], 0, 0, false);
    var v0, v2 := twice.(inCallback := 1), Live([Item(7, true), Item(7, false)], 1, 2, false);
    var body := Then(Delete(7), Then(Delete(7), Done));
    var keys, log1 := KeysOf(twice.items), [] + [CallOf(v0, 7)];
    DeletedTwice(log1);
    var one := Performed(body, v0, log1);
    NoBodies(keys[1..], v2, one.log);
    SweptOnce();
    hide Performed, Kept, Marked, LiveKeys, Left;
    var bodies := Body(body, NoMore);
    assert Visited(bodies, keys, v0, []).view == Visited(NoMore, keys[1..], v2, one.log).view == v2;
    assert CalledAll(bodies, twice, []).view == Left(v2);
  }

  lemma DeletedTwice(log: seq<Record>)
    ensures Marked([Item(7, false), Item(7, false)]) == 0
    ensures Performed(Then(Delete(7), Then(Delete(7), Done)), Live([Item(7, false), Item(7, false)], 1, 0, false),
                      log).view ==
            Live([Item(7, true), Item(7, false)], 1, 2, false)
  {
    hide *;
    var v0 := Live([Item(7, false), Item(7, false)], 1, 0, false);
    var v1 := Live([Item(7, true), Item(7, false)], 1, 1, false);
    var v2 := Live([Item(7, true), Item(7, false)], 1, 2, false);
    MarkedPairs();
    MarkedFirst(v0, 7);
    MarkedFirst(v1, 7);
    assert v0.items[0 := Item(7, true)] == v1.items && v1.items[0 := Item(7, true)] == v2.items;
    var last, log1, log2 := Then(Delete(7), Done), Deletion(v0, log, 7).log,
      Deletion(v1, Deletion(v0, log, 7).log, 7).log;
    PerformedIs(Then(Delete(7), last), v0, log);
    PerformedIs(last, v1, log1);
    PerformedIs(Done, v2, log2);
    OneDeleted(7, v0, log);
    OneDeleted(7, v1, log1);
  }

  lemma MarkedPairs()
    ensures Marked([Item(7, false), Item(7, false)]) == 0
    ensures Good(Live([Item(7, false), Item(7, false)], 1, 0, false))
    ensures Good(Live([Item(7, true), Item(7, false)], 1, 1, false)) &&
            Good(Live([Item(7, true), Item(7, false)], 1, 2, false))
  {
    MarkedCons(Item(7, false), [Item(7, false)]);
    MarkedCons(Item(7, true), [Item(7, false)]);
    MarkedCons(Item(7, false), []);
    assert [Item(7, false)] + [] == [Item(7, false)];
    hide Marked;
    assert [Item(7, false), Item(7, false)] == [Item(7, false)] + [Item(7, false)];
    assert [Item(7, true), Item(7, false)] == [Item(7, true)] + [Item(7, false)];
  }

  lemma MarkedFirst(v: View, key: nat)
    requires v.Live? && v.inCallback > 0 && v.items != [] && v.items[0].key == key
    ensures WithDeleted(v, key) == v.(items := v.items[0 := Item(key, true)], numDeleted := v.numDeleted + 1)
  {
  }

  lemma OneDeleted(key: nat, v: View, log: seq<Record>)
    requires Good(v)
    ensures PerformedOne(Delete(key), v, log) == Deletion(v, log, key)
    ensures Deletion(v, log, key).view == WithDeleted(v, key)
  {
  }

  lemma SweptOnce()
    ensures Kept([Item(7, true), Item(7, false)]) == [Item(7, false)] && Marked([Item(7, true), Item(7, false)]) == 1
    ensures LiveKeys(Left(Live([Item(7, true), Item(7, false)], 1, 2, false))) == [7]
  {
    assert [Item(7, true), Item(7, false)][1..] == [Item(7, false)];
  }

  lemma {:induction false} NoBodies(keys: seq<nat>, v: View, log: seq<Record>)
    requires Good(v) && v.Live? && v.inCallback > 0
    ensures Visited(NoMore, keys, v, log).view == v
    decreases |keys|
  {
    if keys != [] { NoBodies(keys[1..], v, log + [CallOf(v, keys[0])]); }
  }

  // ---------------------------------------------------------------- who is called

  /** The callbacks called by traversals at one depth of nesting. */
  function Calls(log: seq<Record>, depth: nat): seq<nat> {
    if log == [] then []
    else
      var e := log[|log| - 1].event;
      Calls(log[..|log| - 1], depth) + if e.Called? && e.depth == depth then [e.key] else []
  }

  lemma CallsMore(log: seq<Record>, r: Record, depth: nat)
    ensures Calls(log + [r], depth) ==
            Calls(log, depth) + if r.event.Called? && r.event.depth == depth then [r.event.key] else []
  {
    assert (log + [r])[..|log|] == log;
  }

  /** A traversal calls the callbacks that were on the list at its start, each once and in order,
      whatever the callbacks add, delete or call. */
  lemma {:induction false} CallsInOrder(bodies: Bodies, keys: seq<nat>, v: View, log: seq<Record>)
    requires Good(v) && v.Live? && v.inCallback > 0
    ensures Calls(Visited(bodies, keys, v, log).log, v.inCallback) == Calls(log, v.inCallback) + keys
    decreases bodies, |keys|
  {
    hide Good, Calls, Performed, Visited, LiveKeys;
    VisitedIs(bodies, keys, v, log);
    if keys != [] {
      var log1 := log + [CallOf(v, keys[0])];
      CallsMore(log, CallOf(v, keys[0]), v.inCallback);
      assert Calls(log, v.inCallback) + keys == Calls(log, v.inCallback) + [keys[0]] + keys[1..];
      if bodies.Body? {
        ScriptsCallDeeper(bodies.script, v, log1, v.inCallback);
        var o := Performed(bodies.script, v, log1);
        CallsInOrder(bodies.more, keys[1..], o.view, o.log);
      } else {
        CallsInOrder(bodies, keys[1..], v, log1);
      }
    }
  }

  /** A whole call, at any depth. */
  lemma CallCallsAll(bodies: Bodies, v: View, log: seq<Record>)
    requires Good(v) && v.Live?
    ensures Calls(CalledAll(bodies, v, log).log, v.inCallback + 1) == Calls(log, v.inCallback + 1) + KeysOf(v.items)
  {
    CallsInOrder(bodies, KeysOf(v.items), v.(inCallback := v.inCallback + 1), log);
  }

  /** Whatever a callback does, calls at its own depth or above are not made from there. */
  lemma {:induction false} ScriptsCallDeeper(script: Script, v: View, log: seq<Record>, depth: nat)
    requires Good(v) && v.Live? && 0 < depth <= v.inCallback
    ensures Calls(Performed(script, v, log).log, depth) == Calls(log, depth)
    decreases script, 2, 0
  {
    hide Good, Calls, Performed, PerformedOne;
    PerformedIs(script, v, log);
    if script.Then? {
      ActCallsDeeper(script.act, v, log, depth);
      var o := PerformedOne(script.act, v, log);
      ScriptsCallDeeper(script.rest, o.view, o.log, depth);
    }
  }

  lemma {:induction false} ActCallsDeeper(act: Act, v: View, log: seq<Record>, depth: nat)
    requires Good(v) && v.Live? && 0 < depth <= v.inCallback
    ensures Calls(PerformedOne(act, v, log).log, depth) == Calls(log, depth)
    decreases act, 2, 0
  {
    hide Calls, Good, Visited, Grown, Marked, Kept, LiveKeys, Lost;
    if act.Call? {
      ListCalls(act.bodies, v, log);
      VisitsCallDeeper(act.bodies, KeysOf(v.items), v.(inCallback := v.inCallback + 1), log, depth);
    } else {
      OtherActs(act, v, log, depth);
    }
  }

  lemma ListCalls(bodies: Bodies, v: View, log: seq<Record>)
    requires Good(v) && v.Live?
    ensures var w := v.(inCallback := v.inCallback + 1);
            Good(w) && PerformedOne(Call(bodies), v, log).log == CalledAll(bodies, v, log).log ==
              Visited(bodies, KeysOf(v.items), w, log).log
  {
    hide Visited, Grown, Marked, Kept;
  }

  lemma OtherActs(act: Act, v: View, log: seq<Record>, depth: nat)
    requires Good(v) && !act.Call?
    ensures Calls(PerformedOne(act, v, log).log, depth) == Calls(log, depth)
  {
    hide Calls, Good, Grown, Marked, Kept, LiveKeys, Lost, WithAdded, WithDeleted;
    match act {
      case Add(key, _, _) =>
        var more := AddedTo(v, log, key).log;
        CallsMore(log, more[|log|], depth);
      case Delete(key) =>
        var more := Deletion(v, log, key).log;
        CallsMore(log, more[|log|], depth);
      case DeleteList =>
        CallsMore(log, Record(ListDeleted, []), depth);
    }
  }

  lemma {:induction false} VisitsCallDeeper(bodies: Bodies, keys: seq<nat>, v: View, log: seq<Record>, depth: nat)
    requires Good(v) && v.Live? && 0 < depth < v.inCallback
    ensures Calls(Visited(bodies, keys, v, log).log, depth) == Calls(log, depth)
    decreases bodies, 0, |keys|
  {
    hide Good, Calls, Performed, Visited, LiveKeys;
    VisitedIs(bodies, keys, v, log);
    if keys != [] {
      var log1 := log + [CallOf(v, keys[0])];
      CallsMore(log, CallOf(v, keys[0]), depth);
      if bodies.Body? {
        ScriptsCallDeeper(bodies.script, v, log1, depth);
        var o := Performed(bodies.script, v, log1);
        VisitsCallDeeper(bodies.more, keys[1..], o.view, o.log, depth);
      } else {
        VisitsCallDeeper(bodies, keys[1..], v, log1, depth);
      }
    }
  }

  // ---------------------------------------------------------------- the linked list

  class CallbackRec {
    const key: nat
    var deleted: bool
    var next: CallbackRec?
    ghost var freed: bool

    constructor (k: nat, n: CallbackRec?)
      ensures key == k && next == n && !deleted && !freed
    {
      key, next, deleted, freed := k, n, false, false;
    }
  }

  class CallbackListRec {
    var inCallback: nat
    var deleted: bool
    var numDeleted: nat
    var list: CallbackRec?
    ghost var freed: bool

    constructor ()
      ensures inCallback == 0 && !deleted && numDeleted == 0 && list == null && !freed
    {
      inCallback, deleted, numDeleted, list, freed := 0, false, 0, null, false;
    }
  }

  ghost function ItemsOf(nodes: seq<CallbackRec>): (items: seq<Item>)
    reads nodes
    ensures |items| == |nodes| && forall i :: 0 <= i < |nodes| ==> items[i] == Item(nodes[i].key, nodes[i].deleted)
  {
    seq(|nodes|, i requires 0 <= i < |nodes| reads nodes => Item(nodes[i].key, nodes[i].deleted))
  }

  function HeadOf(nodes: seq<CallbackRec>): CallbackRec? { if nodes == [] then null else nodes[0] }

  function NextIn(nodes: seq<CallbackRec>, i: nat): CallbackRec? { if i + 1 < |nodes| then nodes[i + 1] else null }

  /** The nodes are linked in this order, none of them twice or freed. */
  ghost predicate Chain(nodes: seq<CallbackRec>) reads nodes {
    && (forall i :: 0 <= i < |nodes| ==> !nodes[i].freed && nodes[i].next == NextIn(nodes, i))
    && forall i, j :: 0 <= i < j < |nodes| ==> nodes[i] != nodes[j]
  }

  lemma ChainPush(nodes: seq<CallbackRec>, cbr: CallbackRec)
    requires Chain(nodes) && cbr !in nodes && !cbr.freed && cbr.next == HeadOf(nodes)
    ensures Chain([cbr] + nodes) && ItemsOf([cbr] + nodes) == [Item(cbr.key, cbr.deleted)] + ItemsOf(nodes)
  {
    hide NextIn;
    var all := [cbr] + nodes;
    NextAfterPush(nodes, cbr);
    forall i | 0 <= i < |all| ensures !all[i].freed && all[i].next == NextIn(all, i) {
      if i > 0 { assert all[i] == nodes[i - 1]; }
    }
    assert forall i, j :: 0 < i < j < |all| ==> all[i] == nodes[i - 1] && all[j] == nodes[j - 1];
  }

  lemma NextAfterPush(nodes: seq<CallbackRec>, cbr: CallbackRec)
    ensures NextIn([cbr] + nodes, 0) == HeadOf(nodes)
    ensures forall i: nat :: 0 < i <= |nodes| ==> NextIn([cbr] + nodes, i) == NextIn(nodes, i - 1)
  {
    var all := [cbr] + nodes;
    assert forall i :: 0 < i < |all| ==> all[i] == nodes[i - 1];
  }

  lemma ChainAt(nodes: seq<CallbackRec>, i: nat)
    requires Chain(nodes) && i < |nodes|
    ensures !nodes[i].freed && nodes[i].next == NextIn(nodes, i)
    ensures forall j :: 0 <= j < |nodes| && nodes[j] == nodes[i] ==> j == i
    ensures ItemsOf(nodes)[i] == Item(nodes[i].key, nodes[i].deleted)
  {
  }

  /** Marking one node. */
  twostate lemma MarkedNode(nodes: seq<CallbackRec>, new i: nat)
    requires i < |nodes| && old(Chain(nodes)) && nodes[i].deleted
    requires forall j :: 0 <= j < |nodes| ==>
             nodes[j].next == old(nodes[j].next) && nodes[j].freed == old(nodes[j].freed)
    requires forall j :: 0 <= j < |nodes| && j != i ==> nodes[j].deleted == old(nodes[j].deleted)
    ensures Chain(nodes) && ItemsOf(nodes) == old(ItemsOf(nodes))[i := Item(nodes[i].key, true)]
  {
  }

  /** Taking one node out of the chain. */
  twostate lemma CutNode(nodes: seq<CallbackRec>, new i: nat)
    requires i < |nodes| && old(Chain(nodes))
    requires forall j :: 0 <= j < |nodes| && j != i ==>
             nodes[j].freed == old(nodes[j].freed) && nodes[j].deleted == old(nodes[j].deleted)
    requires forall j :: 0 <= j < |nodes| && j != i ==>
      nodes[j].next == if j + 1 == i then old(nodes[i].next) else old(nodes[j].next)
    ensures Chain(nodes[..i] + nodes[i + 1..])
    ensures ItemsOf(nodes[..i] + nodes[i + 1..]) == old(ItemsOf(nodes))[..i] + old(ItemsOf(nodes))[i + 1..]
  {
    hide Chain;
    CutChain(nodes, i);
    CutItems(nodes, i);
  }

  lemma AfterCut(nodes: seq<CallbackRec>, i: nat, k: nat)
    requires i < |nodes| && k < |nodes| - 1
    ensures var cut, j := nodes[..i] + nodes[i + 1..], if k < i then k else k + 1;
            cut[k] == nodes[j] && NextIn(cut, k) == if j + 1 == i then NextIn(nodes, i) else NextIn(nodes, j)
  {
  }

  twostate lemma CutChain(nodes: seq<CallbackRec>, new i: nat)
    requires i < |nodes| && old(Chain(nodes))
    requires forall j :: 0 <= j < |nodes| && j != i ==> nodes[j].freed == old(nodes[j].freed)
    requires forall j :: 0 <= j < |nodes| && j != i ==>
      nodes[j].next == if j + 1 == i then old(nodes[i].next) else old(nodes[j].next)
    ensures Chain(nodes[..i] + nodes[i + 1..])
  {
    var cut := nodes[..i] + nodes[i + 1..];
    forall k | 0 <= k < |cut| ensures !cut[k].freed && cut[k].next == NextIn(cut, k) {
      hide NextIn;
      AfterCut(nodes, i, k);
      var j := if k < i then k else k + 1;
      assert old(nodes[j].next) == NextIn(nodes, j) && old(nodes[i].next) == NextIn(nodes, i);
    }
    forall k, l | 0 <= k < l < |cut| ensures cut[k] != cut[l] {
      AfterCut(nodes, i, k);
      AfterCut(nodes, i, l);
    }
  }

  twostate lemma CutItems(nodes: seq<CallbackRec>, new i: nat)
    requires i < |nodes|
    requires forall j :: 0 <= j < |nodes| && j != i ==> nodes[j].deleted == old(nodes[j].deleted)
    ensures ItemsOf(nodes[..i] + nodes[i + 1..]) == old(ItemsOf(nodes))[..i] + old(ItemsOf(nodes))[i + 1..]
  {
    var cut := nodes[..i] + nodes[i + 1..];
    forall k | 0 <= k < |cut| ensures ItemsOf(cut)[k] == (old(ItemsOf(nodes))[..i] + old(ItemsOf(nodes))[i + 1..])[k] {
      AfterCut(nodes, i, k);
    }
  }

  predicate EndsWith(now: seq<CallbackRec>, was: seq<CallbackRec>) {
    |was| <= |now| && now[|now| - |was|..] == was
  }

  lemma EndsTwice(now: seq<CallbackRec>, before: seq<CallbackRec>, was: seq<CallbackRec>)
    requires EndsWith(now, before) && EndsWith(before, was)
    ensures EndsWith(now, was)
  {
    assert now[|now| - |was|..] == now[|now| - |before|..][|before| - |was|..];
  }

  lemma EndsSelf(nodes: seq<CallbackRec>)
    ensures EndsWith(nodes, nodes)
  {
  }

  /** Where a list is kept; null as long as there is none. */
  class CallbackListPtr {
    var cbl: CallbackListRec?
    ghost var nodes: seq<CallbackRec>
    ghost var log: seq<Record>

    ghost function Repr(): set<object> reads this {
      {this} + (if cbl == null then {} else {cbl}) + set n | n in nodes
    }

    ghost function View(): View reads this, Repr() {
      if cbl == null then Gone else Live(ItemsOf(nodes), cbl.inCallback, cbl.numDeleted, cbl.deleted)
    }

    ghost predicate Linked() reads this, Repr() {
      if cbl == null then nodes == [] else !cbl.freed && cbl.list == HeadOf(nodes) && Chain(nodes)
    }

    ghost predicate Valid() reads this, Repr() {
      Linked() && Good(View())
    }

    /** Nothing was freed, and what was on the list still is. */
    twostate predicate Intact() reads this, Repr() {
      old(cbl != null && cbl.inCallback > 0) ==>
        cbl == old(cbl) && EndsWith(nodes, old(nodes))
    }

    method AddCallback(key: nat, listRoom: bool, room: bool) returns (ok: bool)
      requires Valid()
      modifies Repr()
      ensures Valid() && fresh(Repr() - old(Repr()))
      ensures Outcome(View(), log) == Addition(old(View()), old(log), key, listRoom, room) && Intact()
      ensures ok <==> room && (listRoom || old(cbl) != null)
      ensures ok ==>
        View().Live? && View().items == [Item(key, false)] + (if old(cbl) == null then [] else old(View()).items)
      ensures ok && old(cbl) != null ==> View() == old(View()).(items := View().items)
      ensures ok && old(cbl) == null ==> View() == Live([Item(key, false)], 0, 0, false)
      ensures !ok ==>
        log == old(log) && (View() == old(View()) || (old(cbl) == null && View() == Live([], 0, 0, false)))
    {
      hide Good, Marked, Chain, ItemsOf, LiveKeys;
      AdditionIs(View(), log, key, listRoom, room);
      hide Addition;
      AdditionCases(View(), log, key, listRoom, room);
      if cbl == null {
        if !listRoom { return false; }
        AddedToEmpty(log, key);
        CreateCallbackList();
      }
      if !room { return false; }
      AddCallbackTo(key);
      return true;
    }

    lemma AdditionCases(v: View, log: seq<Record>, key: nat, listRoom: bool, room: bool)
      ensures Addition(v, log, key, listRoom, room) ==
        if v.Gone? && !listRoom then Outcome(v, log)
        else if room then AddedTo(v, log, key)
        else Outcome(if v.Gone? then Live([], 0, 0, false) else v, log)
    {
    }

    /** A new list without callbacks. */
    method CreateCallbackList()
      requires Valid() && cbl == null
      modifies this`cbl
      ensures Valid() && fresh(cbl) && View() == Live([], 0, 0, false)
    {
      cbl := new CallbackListRec();
    }

    method AddCallbackTo(key: nat)
      requires Valid() && cbl != null
      modifies this`nodes, this`log, cbl
      ensures Valid() && fresh(Repr() - old(Repr())) && Outcome(View(), log) == AddedTo(old(View()), old(log), key)
      ensures |nodes| == |old(nodes)| + 1 && nodes[1..] == old(nodes)
    {
      hide Good, Marked, Chain, ItemsOf;
      ValidIs();
      AddKeeps(View(), key);
      log := AddedTo(View(), log, key).log;
      var cbr := new CallbackRec(key, cbl.list);
      ChainPush(nodes, cbr);
      cbl.list := cbr;
      nodes := [cbr] + nodes;
      assert forall n :: n in nodes <==> n == cbr || n in old(nodes);
    }

    lemma ValidIs()
      requires Valid()
      ensures cbl != null ==>
        && !cbl.freed && cbl.list == HeadOf(nodes) && Chain(nodes)
        && View() == Live(ItemsOf(nodes), cbl.inCallback, cbl.numDeleted, cbl.deleted)
      ensures Good(View()) && (cbl == null ==> nodes == [] && View() == Gone)
    {
    }

    /** Deletes the first callback with a key, or only marks it while the list is being called. */
    method DeleteCallback(key: nat) returns (found: bool)
      requires Valid()
      modifies Repr()
      ensures Valid() && Repr() <= old(Repr()) && Intact()
      ensures Outcome(View(), log) == Deletion(old(View()), old(log), key)
      ensures found <==> old(cbl != null && FirstOf(ItemsOf(nodes), key) < |nodes|)
      ensures found <==>
        old(View()).Live? && exists i :: 0 <= i < |old(View()).items| && old(View()).items[i].key == key
      ensures !found ==> View() == old(View())
      ensures found ==> DeletedFirst(old(View()), View(), key)
    {
      FoundAndDeleted(key);
      hide Good, Valid, View, WithDeleted, Deletion, Lost, LiveKeys, EndsWith, Grown;
      ghost var v, r := View(), Record(Deleted(key, Lost(View(), key)), LiveKeys(WithDeleted(View(), key)));
      DeletionIs(v, log, key);
      found := DeleteFirst(key);
      Log(r);
    }

    lemma FoundAndDeleted(key: nat)
      requires Valid()
      ensures var v, w := View(), WithDeleted(View(), key);
        var found := cbl != null && FirstOf(ItemsOf(nodes), key) < |nodes|;
        && (found <==> v.Live? && exists i :: 0 <= i < |v.items| && v.items[i].key == key)
        && (!found ==> w == v) && (found ==> DeletedFirst(v, w, key))
    {
      if cbl != null {
        var i := FirstOf(ItemsOf(nodes), key);
        WithDeletedIs(View(), key, i);
        if i < |nodes| { assert View().items[i].key == key; }
      }
    }

    method DeleteFirst(key: nat) returns (found: bool)
      requires Valid()
      modifies this`nodes, Repr() - {this}
      ensures Valid() && Repr() <= old(Repr()) && Intact() && View() == WithDeleted(old(View()), key)
      ensures found <==> old(cbl != null && FirstOf(ItemsOf(nodes), key) < |nodes|)
    {
      hide Good, Marked, Chain, FirstOf, ItemsOf, Valid, HeadOf, DeletedAt, WithDeleted, EndsWith, View;
      ValidIs();
      EndsSelf(nodes);
      DeleteKeeps(View(), key);
      DeletedIs(View(), key);
      if cbl == null { return false; }
      var pcbr, cbr, i := Find(key);
      if cbr == null { return false; }
      MarkOrUnlink(pcbr, cbr, i);
      BecomesValid();
      return true;
    }

    lemma DeletionIs(v: View, log: seq<Record>, key: nat)
      ensures Deletion(v, log, key) ==
              Outcome(WithDeleted(v, key), log + [Record(Deleted(key, Lost(v, key)), LiveKeys(WithDeleted(v, key)))])
    {
    }

    lemma DeletedIs(v: View, key: nat)
      ensures WithDeleted(v, key) ==
              if v.Gone? || FirstOf(v.items, key) == |v.items| then v else DeletedAt(v, FirstOf(v.items, key))
    {
    }

    method MarkOrUnlink(pcbr: CallbackRec?, cbr: CallbackRec, ghost i: nat)
      requires cbl != null && !cbl.freed && cbl.list == HeadOf(nodes) && Chain(nodes) && i < |nodes| && cbr == nodes[i]
      requires pcbr == if i == 0 then null else nodes[i - 1]
      modifies this`nodes, cbl, nodes
      ensures !cbl.freed && cbl.list == HeadOf(nodes) && Chain(nodes)
      ensures Live(ItemsOf(nodes), cbl.inCallback, cbl.numDeleted, cbl.deleted) ==
              DeletedAt(old(Live(ItemsOf(nodes), cbl.inCallback, cbl.numDeleted, cbl.deleted)), i)
      ensures (cbl.inCallback > 0 ==> nodes == old(nodes)) && cbl.inCallback == old(cbl.inCallback)
      ensures forall n :: n in nodes ==> n in old(nodes)
    {
      hide Chain, HeadOf;
      ChainAt(nodes, i);
      if cbl.inCallback > 0 {
        cbl.numDeleted := cbl.numDeleted + 1;
        cbr.deleted := true;
        MarkedNode(nodes, i);
      } else {
        Unlink(pcbr, cbr, i);
      }
    }

    lemma BecomesValid()
      requires cbl == null ==> nodes == []
      requires cbl != null ==>
        && !cbl.freed && cbl.list == HeadOf(nodes) && Chain(nodes)
        && Good(Live(ItemsOf(nodes), cbl.inCallback, cbl.numDeleted, cbl.deleted))
      ensures Valid()
      ensures View() == if cbl == null then Gone else Live(ItemsOf(nodes), cbl.inCallback, cbl.numDeleted, cbl.deleted)
    {
    }

    /** The first node with a key and the one before it. */
    method Find(key: nat) returns (pcbr: CallbackRec?, cbr: CallbackRec?, ghost i: nat)
      requires cbl != null && cbl.list == HeadOf(nodes) && Chain(nodes)
      ensures i == FirstOf(ItemsOf(nodes), key) && pcbr == (if i == 0 then null else nodes[i - 1])
      ensures cbr == if i < |nodes| then nodes[i] else null
    {
      hide Chain;
      pcbr, cbr, i := null, cbl.list, 0;
      while cbr != null && cbr.key != key
        invariant i <= |nodes| && cbr == if i < |nodes| then nodes[i] else null
        invariant pcbr == if i == 0 then null else nodes[i - 1]
        invariant forall j :: 0 <= j < i ==> nodes[j].key != key
        decreases |nodes| - i
      {
        ChainAt(nodes, i);
        pcbr, cbr, i := cbr, cbr.next, i + 1;
      }
      FirstIs(ItemsOf(nodes), key, i);
    }

    lemma FirstIs(items: seq<Item>, key: nat, i: nat)
      requires i <= |items| && (i < |items| ==> items[i].key == key) && forall j :: 0 <= j < i ==> items[j].key != key
      ensures FirstOf(items, key) == i
    {
    }

    /** Takes a node out of the list and frees it. */
    method Unlink(pcbr: CallbackRec?, cbr: CallbackRec, ghost i: nat)
      requires cbl != null && cbl.list == HeadOf(nodes) && Chain(nodes) && i < |nodes| && cbr == nodes[i]
      requires pcbr == if i == 0 then null else nodes[i - 1]
      modifies this`nodes, cbl`list, nodes
      ensures cbl.list == HeadOf(nodes) && Chain(nodes) && nodes == old(nodes)[..i] + old(nodes)[i + 1..] && cbr.freed
      ensures ItemsOf(nodes) == old(ItemsOf(nodes))[..i] + old(ItemsOf(nodes))[i + 1..]
    {
      ChainAt(nodes, i);
      if pcbr == null {
        cbl.list := cbr.next;
      } else {
        pcbr.next := cbr.next;
      }
      cbr.freed := true;
      CutNode(nodes, i);
      nodes := nodes[..i] + nodes[i + 1..];
    }

    /** Frees the list and its callbacks, or marks it while it is being called. */
    method DeleteCallbackList()
      requires Linked()
      modifies Repr()
      ensures Linked() && (Good(old(View())) || View().Gone? ==> Valid()) && Repr() <= old(Repr()) && Intact()
      ensures View() == WithListDeleted(old(View())) && log == old(log)
      ensures View() == if old(cbl) == null || old(View()).inCallback == 0 then Gone
                        else old(View()).(deleted := true)
    {
      hide Marked, Chain, ItemsOf, HeadOf;
      if cbl == null { return; }
      if cbl.inCallback > 0 {
        cbl.deleted := true;
        return;
      }
      FreeList();
    }

    method FreeList()
      requires cbl != null && !cbl.freed && cbl.list == HeadOf(nodes) && Chain(nodes)
      modifies this`cbl, this`nodes, cbl`freed, nodes
      ensures cbl == null && nodes == [] && old(cbl).freed && forall i :: 0 <= i < |old(nodes)| ==> old(nodes)[i].freed
    {
      var cbr := cbl.list;
      ghost var k: nat := 0;
      while cbr != null
        invariant cbl == old(cbl) && nodes == old(nodes) && !cbl.freed
        invariant k <= |nodes| && cbr == if k < |nodes| then nodes[k] else null
        invariant forall i :: 0 <= i < |nodes| ==> nodes[i].freed == (i < k) && nodes[i].next == NextIn(nodes, i)
        decreases |nodes| - k
      {
        var nextcbr := cbr.next;
        cbr.freed := true;
        cbr := nextcbr;
        k := k + 1;
      }
      cbl.freed := true;
      cbl := null;
      nodes := [];
    }

    /** Takes the marked callbacks off the list. */
    method Sweep()
      requires cbl != null && !cbl.freed && cbl.list == HeadOf(nodes) && Chain(nodes) &&
               cbl.numDeleted >= Marked(ItemsOf(nodes))
      modifies this`nodes, cbl`list, cbl`numDeleted, nodes
      ensures cbl.list == HeadOf(nodes) && Chain(nodes) && forall n :: n in nodes ==> n in old(nodes)
      ensures ItemsOf(nodes) == Kept(old(ItemsOf(nodes))) &&
              cbl.numDeleted == old(cbl.numDeleted) - Marked(old(ItemsOf(nodes)))
    {
      hide Chain, ItemsOf, HeadOf, Marked, Kept;
      ghost var items := ItemsOf(nodes);
      var pcbr: CallbackRec?, cbr := null, cbl.list;
      ghost var i: nat := 0;
      SweepStarts(items);
      HeadIs(nodes);
      while cbr != null && cbl.numDeleted > 0
        invariant cbl == old(cbl) && i <= |nodes| && |ItemsOf(nodes)| == |nodes|
        invariant cbl.list == HeadOf(nodes) && Chain(nodes)
        invariant forall k :: 0 <= k < |nodes| ==> nodes[k] in old(nodes)
        invariant cbr == (if i < |nodes| then nodes[i] else null) && pcbr == if i == 0 then null else nodes[i - 1]
        invariant Marked(ItemsOf(nodes)[..i]) == 0 && Kept(ItemsOf(nodes)) == Kept(items)
        invariant cbl.numDeleted >= Marked(ItemsOf(nodes)) &&
                  old(cbl.numDeleted) - cbl.numDeleted == Marked(items) - Marked(ItemsOf(nodes))
        decreases |nodes| - i
      {
        ChainAt(nodes, i);
        SweepStep(ItemsOf(nodes), i);
        if cbr.deleted {
          var gone := cbr;
          cbr := cbr.next;
          ghost var before := nodes;
          Unlink(pcbr, gone, i);
          cbl.numDeleted := cbl.numDeleted - 1;
          HeadIs(nodes);
        } else {
          pcbr, cbr, i := cbr, cbr.next, i + 1;
        }
      }
      assert i == |nodes| ==> ItemsOf(nodes)[..i] == ItemsOf(nodes);
      NothingMarked(ItemsOf(nodes));
    }

    /** Runs a script as a callback, or any other code, would. */
    method Perform(script: Script)
      requires Valid()
      modifies Repr()
      ensures Valid() && fresh(Repr() - old(Repr())) && Intact()
      ensures Outcome(View(), log) == Performed(script, old(View()), old(log))
      decreases script, 3
    {
      hide Valid, Good, Performed, PerformedOne, View, EndsWith;
      GoodView();
      PerformedIs(script, View(), log);
      EndsSelf(nodes);
      ghost var active := cbl != null && cbl.inCallback > 0;
      if script.Then? {
        PerformOne(script.act);
        GoodView();
        ghost var before := nodes;
        Perform(script.rest);
        if active { EndsTwice(nodes, before, old(nodes)); }
      }
    }

    lemma GoodView()
      requires Valid()
      ensures Good(View()) && View().Live? == (cbl != null) && (cbl != null ==> View().inCallback == cbl.inCallback)
    {
    }

    ghost method Log(r: Record)
      requires Valid()
      modifies this`log
      ensures Valid() && log == old(log) + [r] && View() == old(View())
    {
      log := log + [r];
    }

    method PerformOne(act: Act)
      requires Valid()
      modifies Repr()
      ensures Valid() && fresh(Repr() - old(Repr())) && Intact()
      ensures Outcome(View(), log) == PerformedOne(act, old(View()), old(log))
      decreases act, 3
    {
      hide Valid, Good, View;
      GoodView();
      match act {
        case Add(key, listRoom, room) => var ok := AddCallback(key, listRoom, room);
        case Delete(key) => var found := DeleteCallback(key);
        case DeleteList =>
          Log(Record(ListDeleted, []));
          DeleteCallbackList();
        case Call(bodies) => CallCallbacks(bodies);
      }
    }

    /** Calls every callback on the list; the outermost call carries out the deletions. */
    method CallCallbacks(bodies: Bodies)
      requires Valid()
      modifies Repr()
      ensures Valid() && fresh(Repr() - old(Repr())) && Intact()
      ensures Outcome(View(), log) == CalledAll(bodies, old(View()), old(log))
      ensures View().Live? && View().inCallback == 0 ==> forall k :: k in View().items ==> !k.deleted
      decreases bodies, 2
    {
      hide Valid, Linked, Good, View, Visited, CalledAll, Chain, ItemsOf, Left, Marked, Kept, HeadOf, EndsWith;
      CalledIs(bodies);
      CleanWhenIdle();
      if cbl == null { return; }
      ValidIs();
      cbl.inCallback := cbl.inCallback + 1;
      BecomesValid();
      ValidIs();
      CallEach(bodies);
      ValidIs();
      GoodView();
      LeftIs(View());
      Leave();
      CleanWhenIdle();
    }

    lemma CleanWhenIdle()
      requires Valid()
      ensures View().Live? && View().inCallback == 0 ==> forall k :: k in View().items ==> !k.deleted
    {
      if cbl != null && cbl.inCallback == 0 { NoMarks(View().items); }
    }

    /** The end of a call. */
    method Leave()
      requires Valid() && cbl != null && cbl.inCallback > 0 && Good(Left(View()))
      modifies Repr()
      ensures Valid() && Repr() <= old(Repr()) && log == old(log) && View() == Left(old(View()))
      ensures old(cbl.inCallback) > 1 ==> nodes == old(nodes) && cbl == old(cbl)
    {
      hide Valid, Linked, Good, View, Chain, ItemsOf, Left, Marked, Kept, HeadOf;
      ValidIs();
      GoodView();
      LeftIs(View());
      cbl.inCallback := cbl.inCallback - 1;
      if cbl.inCallback > 0 {
        BecomesValid();
        return;
      }
      if cbl.deleted {
        LinkedIs();
        DeleteCallbackList();
        return;
      }
      if cbl.numDeleted > 0 { Sweep(); }
      BecomesValid();
    }

    method CallEach(bodies: Bodies)
      requires Valid() && cbl != null && cbl.inCallback > 0
      modifies Repr()
      ensures Valid() && fresh(Repr() - old(Repr())) && Intact()
      ensures Outcome(View(), log) == Visited(bodies, KeysOf(old(View()).items), old(View()), old(log))
      decreases bodies, 1
    {
      hide Valid, Good, View, Visited, Performed, Chain, ItemsOf, EndsWith, HeadOf, KeysOf;
      GoodView();
      ValidIs();
      HeadIs(nodes);
      EndsSelf(nodes);
      ghost var was, keys, v0 := nodes, KeysOf(View().items), View();
      ghost var k: nat, n := 0, |nodes|;
      var cbr, b := cbl.list, bodies;
      while cbr != null
        invariant Valid() && cbl == old(cbl) && cbl.inCallback == old(cbl.inCallback)
        invariant fresh(Repr() - old(Repr()))
        invariant EndsWith(nodes, was)
        invariant k <= n && cbr == if k < n then was[k] else null
        invariant Good(View()) && View().Live? && View().inCallback > 0 && Good(v0)
        invariant Visited(b, keys[k..], View(), log) == Visited(bodies, keys, v0, old(log))
        invariant b == bodies || b < bodies
        decreases n - k
      {
        ghost var before := nodes;
        assert keys[k..][1..] == keys[k + 1..];
        b := CallOne(cbr.key, b, keys[k..]);
        EndsTwice(nodes, before, was);
        StillNext(was, k);
        cbr, k := cbr.next, k + 1;
      }
      VisitedIs(b, keys[k..], View(), log);
    }

    /** A callback of a traversal is not freed, and its successor is what it was at the start. */
    lemma StillNext(was: seq<CallbackRec>, k: nat)
      requires Valid() && cbl != null && k < |was| && EndsWith(nodes, was)
      ensures !was[k].freed && was[k].next == NextIn(was, k)
    {
      var j := |nodes| - |was| + k;
      assert nodes[|nodes| - |was|..][k] == nodes[j];
      ChainAt(nodes, j);
      if k + 1 < |was| { assert nodes[|nodes| - |was|..][k + 1] == nodes[j + 1]; }
    }

    /** Calls one callback. */
    method CallOne(key: nat, b: Bodies, ghost keys: seq<nat>) returns (b': Bodies)
      requires Valid() && cbl != null && cbl.inCallback > 0 && keys != [] && keys[0] == key
      modifies Repr()
      ensures Valid() && fresh(Repr() - old(Repr())) && Intact() && cbl.inCallback == old(cbl.inCallback)
      ensures Good(View()) && Good(old(View())) && View().Live? && View().inCallback > 0
      ensures Visited(b', keys[1..], View(), log) == Visited(b, keys, old(View()), old(log))
      ensures b' == b || b' < b
      decreases b, 0
    {
      hide Valid, Good, View, Visited, Performed, Chain, ItemsOf, EndsWith;
      GoodView();
      VisitedIs(b, keys, View(), log);
      EndsSelf(nodes);
      Log(CallOf(View(), key));
      b' := b;
      if b.Body? {
        Perform(b.script);
        GoodView();
        b' := b.more;
      }
    }

    lemma CalledIs(bodies: Bodies)
      requires Valid()
      ensures cbl == null ==> CalledAll(bodies, View(), log) == Outcome(View(), log)
      ensures cbl != null ==>
        var w := View().(inCallback := View().inCallback + 1);
        var o := Visited(bodies, KeysOf(View().items), w, log);
        && Good(w) && o.view.Live? && o.view.inCallback == w.inCallback && Good(o.view) && Good(Left(o.view))
        && CalledAll(bodies, View(), log) == Outcome(Left(o.view), o.log)
    {
      if cbl != null {
        var w := View().(inCallback := View().inCallback + 1);
        var o := Visited(bodies, KeysOf(View().items), w, log);
        LeavingKeeps(View(), o.view);
      }
    }

    lemma LinkedIs()
      requires cbl != null && !cbl.freed && cbl.list == HeadOf(nodes) && Chain(nodes)
      ensures Linked() && View() == Live(ItemsOf(nodes), cbl.inCallback, cbl.numDeleted, cbl.deleted)
    {
    }

    lemma LeftIs(v: View)
      requires v.Live? && v.inCallback > 0 && v.numDeleted >= Marked(v.items)
      ensures v.inCallback > 1 ==> Left(v) == v.(inCallback := v.inCallback - 1)
      ensures v.inCallback == 1 && v.deleted ==> Left(v) == Gone
      ensures v.inCallback == 1 && !v.deleted ==>
        Left(v) == v.(items := Kept(v.items), inCallback := 0, numDeleted := v.numDeleted - Marked(v.items))
      ensures v.numDeleted == 0 ==> Kept(v.items) == v.items && Marked(v.items) == 0
    {
      if v.numDeleted == 0 { NothingMarked(v.items); }
    }

    lemma HeadIs(ns: seq<CallbackRec>)
      ensures HeadOf(ns) == (if ns == [] then null else ns[0]) && |ItemsOf(ns)| == |ns|
    {
    }

    lemma SweepStarts(items: seq<Item>)
      ensures items[..0] == [] && Marked([]) == 0
    {
    }

    lemma SweepStep(items: seq<Item>, i: nat)
      requires i < |items| && Marked(items[..i]) == 0
      ensures items[i].deleted ==>
        var cut := items[..i] + items[i + 1..];
        Marked(cut) == Marked(items) - 1 && Kept(cut) == Kept(items) && cut[..i] == items[..i]
      ensures !items[i].deleted ==> Marked(items[..i + 1]) == 0
    {
      MarkedUpdate(items, i);
      KeptWithout(items, i);
      MarkedOneMore(items, i);
    }
  }

  lemma {:induction false} KeptWithout(items: seq<Item>, i: nat)
    requires i < |items|
    ensures items[i].deleted ==> Kept(items[..i] + items[i + 1..]) == Kept(items)
  {
    var cut := items[..i] + items[i + 1..];
    if i == 0 {
      assert cut == items[1..];
    } else {
      KeptWithout(items[1..], i - 1);
      assert cut[1..] == items[1..][..i - 1] + items[1..][i..];
    }
  }

  lemma {:induction false} MarkedOneMore(items: seq<Item>, i: nat)
    requires i < |items|
    ensures Marked(items[..i + 1]) == Marked(items[..i]) + if items[i].deleted then 1 else 0
  {
    if i > 0 {
      MarkedOneMore(items[1..], i - 1);
      assert items[..i + 1][1..] == items[1..][..i] && items[..i][1..] == items[1..][..i - 1];
    } else {
      assert items[..1][1..] == [];
    }
  }
}
