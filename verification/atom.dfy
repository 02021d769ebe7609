/**
 The atom table (dix/atom.c): a search tree ordered by fingerprint and name, and a growing table
 of its nodes by number.
 */
module Atoms {
  import opened Common

  type Byte = b: int | 0 <= b < 256

  type Text = seq<Byte>

  const WORD := 0x1_0000_0000
  const INITIAL_TABLE_SIZE := 256
  const LAST_PREDEFINED := 68  // XA_LAST_PREDEFINED

  // ---------------------------------------------------------------- keys

  /** A (signed) char as an unsigned int. */
  function AsUnsigned(b: Byte): nat { if b < 128 then b else b + WORD - 256 }

  /** The fingerprint after i rounds, each taking one character from the front and one from the back. */
  function FingerprintOf(s: Text, i: nat): nat
    requires 2 * i <= |s| + 1
  {
    if i == 0 then 0
    else ((FingerprintOf(s, i - 1) * 27 + AsUnsigned(s[i - 1])) % WORD * 27 + AsUnsigned(s[|s| - i])) % WORD
  }

  /** The part of a text before its first NUL, which is all that string functions see. */
  function CName(s: Text): Text {
    if s == [] || s[0] == 0 then [] else [s[0]] + CName(s[1..])
  }

  predicate NulFree(s: Text) { forall i :: 0 <= i < |s| ==> s[i] != 0 }

  /** What the table tells texts apart by. */
  datatype Key = Key(fp: nat, name: Text)

  function KeyOf(s: Text): Key { Key(FingerprintOf(s, (|s| + 1) / 2), CName(s)) }

  lemma {:induction false} CNameIs(s: Text)
    ensures NulFree(CName(s)) && (CName(s) == s <==> NulFree(s))
  {
    if s != [] && s[0] != 0 {
      CNameIs(s[1..]);
      assert s == [s[0]] + s[1..];
      if CName(s) == s { assert CName(s)[1..] == CName(s[1..]); }
    }
  }

  // ---------------------------------------------------------------- the order

  predicate Less(a: Text, b: Text) {
    b != [] && (a == [] || a[0] < b[0] || (a[0] == b[0] && Less(a[1..], b[1..])))
  }

  lemma {:induction false} LessTotal(a: Text, b: Text)
    ensures !(Less(a, b) && Less(b, a)) && (a == b || Less(a, b) || Less(b, a))
    ensures a == b ==> !Less(a, b)
  {
    if a != [] && b != [] {
      LessTotal(a[1..], b[1..]);
      if a[0] == b[0] && a[1..] == b[1..] { assert a == [a[0]] + a[1..] == b; }
    }
  }

  lemma {:induction false} LessTransitive(a: Text, b: Text, c: Text)
    requires Less(a, b) && Less(b, c)
    ensures Less(a, c)
  {
    if a != [] && a[0] == b[0] == c[0] { LessTransitive(a[1..], b[1..], c[1..]); }
  }

  predicate KeyLess(a: Key, b: Key) { a.fp < b.fp || (a.fp == b.fp && Less(a.name, b.name)) }

  lemma KeyTotal(a: Key, b: Key)
    ensures !(KeyLess(a, b) && KeyLess(b, a)) && (a == b || KeyLess(a, b) || KeyLess(b, a))
    ensures a == b ==> !KeyLess(a, b)
  {
    LessTotal(a.name, b.name);
  }

  lemma KeyTransitive(a: Key, b: Key, c: Key)
    requires KeyLess(a, b) && KeyLess(b, c)
    ensures KeyLess(a, c)
  {
    if a.fp == b.fp == c.fp { LessTransitive(a.name, b.name, c.name); }
  }

  /** The C library's strncmp(s, t, |s|), t being NUL-terminated. */
  function Strncmp(s: Text, t: Text): int {
    if s == [] then 0
    else
      var c := if t == [] then 0 else t[0];
      if s[0] != c then s[0] - c else if s[0] == 0 || t == [] then 0 else Strncmp(s[1..], t[1..])
  }

  /** The comparison in the search, with its length test, orders a text by its part before a NUL. */
  lemma {:induction false} ComparesNames(s: Text, t: Text)
    requires NulFree(t)
    ensures Less(CName(s), t) <==> Strncmp(s, t) < 0 || (Strncmp(s, t) == 0 && |s| < |t|)
    ensures Less(t, CName(s)) <==> Strncmp(s, t) > 0
  {
    if s != [] && s[0] != 0 {
      assert CName(s)[1..] == CName(s[1..]);
      if t != [] && s[0] == t[0] { ComparesNames(s[1..], t[1..]); }
    }
  }

  // ---------------------------------------------------------------- the table as a list of keys

  /** The number of a key, counting from 1, or 0 when it is absent. */
  function NumberOf(keys: seq<Key>, k: Key): (n: nat)
    ensures n <= |keys| && (n == 0 <==> k !in keys) && (n > 0 ==> keys[n - 1] == k)
  {
    if keys == [] then 0
    else if keys[|keys| - 1] == k then |keys|
    else NumberOf(keys[..|keys| - 1], k)
  }

  /** One request: a text, whether to make it an atom, and whether there is memory for one. */
  datatype Request = Request(text: Text, makeit: bool, memory: bool)

  function Interned(keys: seq<Key>, r: Request): seq<Key> {
    if r.makeit && r.memory && KeyOf(r.text) !in keys then keys + [KeyOf(r.text)] else keys
  }

  function Run(keys: seq<Key>, rs: seq<Request>): seq<Key> {
    if rs == [] then keys else Interned(Run(keys, rs[..|rs| - 1]), rs[|rs| - 1])
  }

  /** Over any run atoms keep their numbers and names, and exactly the keys asked for are added. */
  lemma {:induction false} RunIsStable(keys: seq<Key>, rs: seq<Request>)
    requires NoRepeats(keys)
    ensures var after := Run(keys, rs);
            && NoRepeats(after) && keys <= after
            && (forall k :: k in keys ==> NumberOf(after, k) == NumberOf(keys, k))
            && (forall k :: k in after <==>
                k in keys || exists i :: 0 <= i < |rs| && rs[i].makeit && rs[i].memory && KeyOf(rs[i].text) == k)
  {
    var after := Run(keys, rs);
    if rs != [] {
      var n := |rs| - 1;
      RunIsStable(keys, rs[..n]);
      assert forall i :: 0 <= i < n ==> rs[..n][i] == rs[i];
      forall k ensures k in after <==>
        k in keys || exists i :: 0 <= i < |rs| && rs[i].makeit && rs[i].memory && KeyOf(rs[i].text) == k
      {
        if k in Run(keys, rs[..n]) && k !in keys {
          var i :| 0 <= i < n && rs[..n][i].makeit && rs[..n][i].memory && KeyOf(rs[..n][i].text) == k;
          assert rs[i].makeit && rs[i].memory && KeyOf(rs[i].text) == k;
        }
      }
    }
    forall k | k in keys ensures NumberOf(after, k) == NumberOf(keys, k) {
      var a, b := NumberOf(after, k), NumberOf(keys, k);
      assert after[b - 1] == keys[b - 1];
    }
  }

  /** When as many atoms were made as were asked for, they are numbered in the order of asking. */
  lemma {:induction false} AllMade(rs: seq<Request>)
    ensures |Run([], rs)| <= |rs|
    ensures |Run([], rs)| == |rs| ==> forall i :: 0 <= i < |rs| ==> Run([], rs)[i] == KeyOf(rs[i].text)
  {
    if rs != [] { AllMade(rs[..|rs| - 1]); }
  }

  /** Numbers and texts without NUL are in bijection: two of them have the same number only if they
      are the same text, and the number's name is the text.  With NULs the name is the part before. */
  lemma AtomsAreNames(keys: seq<Key>, s: Text, t: Text)
    requires NoRepeats(keys) && KeyOf(s) in keys
    ensures var n := NumberOf(keys, KeyOf(s));
            && 0 < n <= |keys| && keys[n - 1].name == CName(s)
            && (keys[n - 1].name == s <==> NulFree(s))
            && (NulFree(s) && NulFree(t) ==> (NumberOf(keys, KeyOf(t)) == n <==> s == t))
            && (NumberOf(keys, KeyOf(t)) == n <==> KeyOf(s) == KeyOf(t))
  {
    CNameIs(s);
    CNameIs(t);
  }

  /** Texts that differ only after a NUL can share an atom. */
  lemma NulHidesTheRest()
    ensures [97, 0, 1, 28, 5, 5] != [97, 0, 2, 1, 5, 5]
    ensures KeyOf([97, 0, 1, 28, 5, 5]) == KeyOf([97, 0, 2, 1, 5, 5])
  {
    hide KeyOf;
    Six([97, 0, 1, 28, 5, 5]);
    Six([97, 0, 2, 1, 5, 5]);
  }

  lemma Six(s: Text)
    requires |s| == 6 && s[0] == 97 && s[1] == 0 && s[4] == s[5] == 5 && s[2] < 128 && s[3] < 128
    ensures KeyOf(s) == Key(1394504829 + 27 * (s[2] as int) + (s[3] as int), [97])
  {
    assert FingerprintOf(s, 1) == 97 * 27 + 5;
    assert FingerprintOf(s, 2) == (FingerprintOf(s, 1) * 27 + 0) * 27 + 5;
    assert FingerprintOf(s, 3) == (((FingerprintOf(s, 2) * 27 + s[2]) % WORD) * 27 + s[3]) % WORD;
    assert CName(s[1..]) == [];
    assert CName(s) == [97];
  }

  // ---------------------------------------------------------------- the tree

  datatype Bound = Lowest | At(key: Key) | Highest

  predicate Before(a: Bound, b: Bound) {
    match (a, b)
    case (At(k), At(l)) => KeyLess(k, l)
    case (Lowest, _) => b != Lowest
    case (At(_), Highest) => true
    case _ => false
  }

  /** The keys that belong between two bounds. */
  datatype Gap = Gap(lo: Bound, hi: Bound) {
    predicate Has(k: Key) { Before(lo, At(k)) && Before(At(k), hi) }

    predicate Apart(g: Gap) { !Before(lo, g.hi) || !Before(g.lo, hi) }
  }

  lemma BeforeTransitive(a: Bound, b: Bound, c: Bound)
    requires Before(a, b) && Before(b, c)
    ensures Before(a, c)
  {
    if a.At? && b.At? && c.At? { KeyTransitive(a.key, b.key, c.key); }
  }

  lemma BeforeTotal(a: Bound, b: Bound)
    ensures !(Before(a, b) && Before(b, a)) && (a == b || Before(a, b) || Before(b, a)) && !Before(a, a)
  {
    if a.At? && b.At? { KeyTotal(a.key, b.key); }
    if a.At? { KeyTotal(a.key, a.key); }
  }

  /** Gaps that are apart have no key in common. */
  lemma ApartMeans(g: Gap, h: Gap, k: Key)
    requires g.Apart(h) && g.Has(k)
    ensures !h.Has(k)
  {
    if h.Has(k) {
      BeforeTransitive(g.lo, At(k), h.hi);
      BeforeTransitive(h.lo, At(k), g.hi);
    }
  }

  /** A key splits its gap into two, which are apart from each other and from what the gap is apart from. */
  lemma SplitGap(g: Gap, k: Key)
    requires g.Has(k)
    ensures var l, r := Gap(g.lo, At(k)), Gap(At(k), g.hi);
            && l.Apart(r) && r.Apart(l) && !l.Has(k) && !r.Has(k)
            && (forall j :: (l.Has(j) ==> g.Has(j)) && (r.Has(j) ==> g.Has(j)))
            && forall h: Gap :: g.Apart(h) ==> l.Apart(h) && r.Apart(h) && h.Apart(l) && h.Apart(r)
  {
    var l, r := Gap(g.lo, At(k)), Gap(At(k), g.hi);
    BeforeTotal(At(k), At(k));
    forall j ensures (l.Has(j) ==> g.Has(j)) && (r.Has(j) ==> g.Has(j)) {
      if l.Has(j) { BeforeTransitive(At(j), At(k), g.hi); }
      if r.Has(j) { BeforeTransitive(g.lo, At(k), At(j)); }
    }
    forall h: Gap | g.Apart(h) ensures l.Apart(h) && r.Apart(h) && h.Apart(l) && h.Apart(r) {
      if Before(h.lo, At(k)) { BeforeTransitive(h.lo, At(k), g.hi); }
      if Before(At(k), h.hi) { BeforeTransitive(g.lo, At(k), h.hi); }
    }
  }

  datatype Side = Left | Right

  /** One atom.  The gap is the range of keys that its subtree may hold. */
  class Node {
    var left: Node?
    var right: Node?
    const a: nat
    const fingerPrint: nat
    const str: Text
    ghost const gap: Gap

    constructor (number: nat, fp: nat, name: Text, ghost range: Gap)
      ensures left == null && right == null && a == number && fingerPrint == fp && str == name && gap == range
    {
      left, right, a, fingerPrint, str, gap := null, null, number, fp, name, range;
    }

    method Attach(side: Side, child: Node)
      modifies this
      ensures forall s :: Child(s) == if s == side then child else old(Child(s))
    {
      if side == Left { left := child; } else { right := child; }
    }

    ghost function Name(): Key { Key(fingerPrint, str) }

    ghost function Child(side: Side): Node? reads this {
      if side == Left then left else right
    }

    /** The range of keys on one side. */
    ghost function Half(side: Side): Gap {
      if side == Left then Gap(gap.lo, At(Name())) else Gap(At(Name()), gap.hi)
    }
  }

  ghost function KeysOf(nodes: seq<Node>): (keys: seq<Key>)
    ensures |keys| == |nodes| && forall i :: 0 <= i < |nodes| ==> keys[i] == nodes[i].Name()
  {
    seq(|nodes|, i requires 0 <= i < |nodes| => nodes[i].Name())
  }

  /** Which allocations of a request succeed: the node, the copy of its name, a longer table.  The
      predefined names are not copied. */
  datatype Memory = Memory(node: bool, name: bool, table: bool) {
    predicate Enough(lastAtom: nat, tableLength: nat) {
      node && (lastAtom >= LAST_PREDEFINED ==> name) && (lastAtom + 1 >= tableLength ==> table)
    }
  }

  /** What MakeAtom returns: BAD_RESOURCE, None or an atom. */
  datatype Result = BadResource | NoAtom | Atom(number: nat)

  method Fingerprint(s: Text) returns (fp: nat)
    ensures fp == FingerprintOf(s, (|s| + 1) / 2)
  {
    fp := 0;
    for i := 0 to (|s| + 1) / 2
      invariant fp == FingerprintOf(s, i)
    {
      fp := (fp * 27 + AsUnsigned(s[i])) % WORD;
      fp := (fp * 27 + AsUnsigned(s[|s| - 1 - i])) % WORD;
    }
  }

  class AtomTable {
    var lastAtom: nat
    var atomRoot: Node?
    var nodeTable: array<Node?>
    ghost var nodes: seq<Node>  // by number, from 1

    /** The keys of the atoms by number. */
    ghost function Keys(): seq<Key> reads this {
      KeysOf(nodes)
    }

    /** The table holds the nodes by number. */
    ghost predicate Indexed() reads this, nodeTable {
      && |nodes| == lastAtom < nodeTable.Length && nodeTable[0] == null
      && forall i :: 1 <= i <= |nodes| ==> nodeTable[i] == nodes[i - 1]
    }

    /** The tree: every node lies in its range, its children have the halves of the range, and the
        root has it all. */
    ghost predicate Ordered() reads this, nodes {
      && (atomRoot == null <==> nodes == [])
      && (nodes != [] ==> atomRoot == nodes[0] && nodes[0].gap == Gap(Lowest, Highest))
      && (forall i :: 0 <= i < |nodes| ==>
          nodes[i].gap.Has(nodes[i].Name()) && NulFree(nodes[i].str) && nodes[i].a == i + 1)
      && (forall i, s :: 0 <= i < |nodes| && nodes[i].Child(s) != null ==> IsChild(nodes[i], s))
    }

    ghost predicate IsChild(n: Node, s: Side)
      requires n.Child(s) != null
      reads this, n
    {
      var c := n.Child(s);
      n.a < c.a <= |nodes| && nodes[c.a - 1] == c && c.gap == n.Half(s)
    }

    /** No atom's key is in a range where the tree ends, and these ranges are apart. */
    ghost predicate Complete() reads this, nodes {
      && (forall i, s, k :: 0 <= i < |nodes| && 0 <= k < |nodes| && nodes[i].Child(s) == null ==>
          !nodes[i].Half(s).Has(nodes[k].Name()))
      && (forall i, s, j, t ::
            (0 <= i < |nodes| && 0 <= j < |nodes| && (i != j || s != t) &&
             nodes[i].Child(s) == null && nodes[j].Child(t) == null) ==>
              nodes[i].Half(s).Apart(nodes[j].Half(t)))
    }

    ghost predicate Valid() reads this, nodeTable, nodes {
      Indexed() && Ordered() && Complete() && NoRepeats(Keys())
    }

    /** An empty table, as InitAtoms makes it before it adds the predefined atoms. */
    constructor ()
      ensures Valid() && Keys() == [] && fresh(nodeTable) && nodes == []
    {
      lastAtom, atomRoot, nodes := 0, null, [];
      nodeTable := new Node?[INITIAL_TABLE_SIZE](_ => null);
    }

    /** The place of a key in the tree: the node that has it, or the node and side where it belongs. */
    method Search(s: Text, fp: nat) returns (np: Node?, parent: Node?, side: Side)
      requires Valid() && KeyOf(s) == Key(fp, CName(s))
      ensures np != null ==> 0 < np.a <= |nodes| && nodes[np.a - 1] == np && np.Name() == KeyOf(s)
      ensures np == null ==> KeyOf(s) !in Keys()
      ensures np == null && parent == null ==> nodes == []
      ensures np == null && parent != null ==>
        0 < parent.a <= |nodes| && nodes[parent.a - 1] == parent && parent.Child(side) == null &&
          parent.Half(side).Has(KeyOf(s))
    {
      hide Valid, Less, KeyLess, Strncmp, CName, FingerprintOf, Before, KeysOf;
      ghost var key := KeyOf(s);
      np, parent, side := atomRoot, null, Left;
      AtRoot(key);
      while np != null
        invariant np != null ==> 0 < np.a <= |nodes| && nodes[np.a - 1] == np && np.gap.Has(key)
        invariant np == null && parent == null ==> nodes == []
        invariant np == null && parent != null ==>
          0 < parent.a <= |nodes| && nodes[parent.a - 1] == parent && parent.Child(side) == null &&
            parent.Half(side).Has(key)
        decreases if np == null then 0 else |nodes| + 1 - np.a
      {
        Comparison(np, s, fp);
        var comp := Strncmp(s, np.str);
        if fp < np.fingerPrint || (fp == np.fingerPrint && (comp < 0 || (comp == 0 && |s| < |np.str|))) {
          Descend(np, Left, key);
          np, parent, side := np.left, np, Left;
        } else if fp > np.fingerPrint || comp > 0 {
          Descend(np, Right, key);
          np, parent, side := np.right, np, Right;
        } else {
          return;
        }
      }
      if parent != null { Absent(parent, side, key); }
    }

    lemma AtRoot(key: Key)
      requires Valid()
      ensures atomRoot == null ==> nodes == []
      ensures atomRoot != null ==>
              0 < atomRoot.a <= |nodes| && nodes[atomRoot.a - 1] == atomRoot && atomRoot.gap.Has(key)
    {
    }

    /** The tests of the search decide the order of the keys. */
    lemma Comparison(np: Node, s: Text, fp: nat)
      requires Valid() && KeyOf(s) == Key(fp, CName(s)) && 0 < np.a <= |nodes| && nodes[np.a - 1] == np
      ensures var comp := Strncmp(s, np.str);
              if fp < np.fingerPrint || (fp == np.fingerPrint && (comp < 0 || (comp == 0 && |s| < |np.str|)))
              then KeyLess(KeyOf(s), np.Name())
              else if fp > np.fingerPrint || comp > 0 then KeyLess(np.Name(), KeyOf(s))
              else KeyOf(s) == np.Name()
    {
      hide Strncmp, Less, CName;
      KeyTotal(KeyOf(s), np.Name());
      ComparesNames(s, np.str);
    }

    /** One step down the tree keeps the key in range. */
    lemma Descend(np: Node, side: Side, key: Key)
      requires Valid() && 0 < np.a <= |nodes| && nodes[np.a - 1] == np && np.gap.Has(key)
      requires if side == Left then KeyLess(key, np.Name()) else KeyLess(np.Name(), key)
      ensures np.Half(side).Has(key)
      ensures var c := np.Child(side); c != null ==>
              np.a < c.a <= |nodes| && nodes[c.a - 1] == c && c.gap == np.Half(side)
    {
      hide Less, KeyLess, Complete, Indexed;
      var c := nodes[np.a - 1].Child(side);
      assert c != null ==> IsChild(nodes[np.a - 1], side);
    }

    lemma Absent(parent: Node, side: Side, key: Key)
      requires Valid() && 0 < parent.a <= |nodes| && nodes[parent.a - 1] == parent
      requires parent.Child(side) == null && parent.Half(side).Has(key)
      ensures key !in Keys()
    {
      assert nodes[parent.a - 1].Child(side) == null;
      forall k | 0 <= k < |nodes| ensures Keys()[k] != key { assert !parent.Half(side).Has(nodes[k].Name()); }
    }

    /** The atom of a text.  An unknown text becomes the next atom if it is to be made and there is
        memory for it; otherwise nothing changes.  BAD_RESOURCE means exactly that memory is missing. */
    method MakeAtom(s: Text, makeit: bool, memory: Memory) returns (atom: Result)
      requires Valid()
      modifies this, nodeTable, nodes
      ensures Valid() && (fresh(nodeTable) || nodeTable == old(nodeTable)) && old(nodes) <= nodes
      ensures forall i :: old(|nodes|) <= i < |nodes| ==> fresh(nodes[i])
      ensures atom.BadResource? <==>
        makeit && KeyOf(s) !in old(Keys()) &&
        !(memory.node && (old(lastAtom) >= LAST_PREDEFINED ==> memory.name) &&
          (old(lastAtom) + 1 >= old(nodeTable.Length) ==> memory.table))
      ensures atom.NoAtom? <==> !makeit && KeyOf(s) !in old(Keys())
      ensures atom.Atom? ==>
        && 0 < atom.number <= |Keys()| && Keys()[atom.number - 1] == KeyOf(s)
        && atom.number == NumberOf(Keys(), KeyOf(s))
      ensures Keys() == old(Keys()) + if atom.Atom? && KeyOf(s) !in old(Keys()) then [KeyOf(s)] else []
      ensures Keys() == Interned(old(Keys()), Request(s, makeit, memory.Enough(old(lastAtom), old(nodeTable.Length))))
      ensures lastAtom == |Keys()| < nodeTable.Length
    {
      hide *;
      var fp := Fingerprint(s);
      KeyIs(s, fp);
      ValidIs();
      InternedIs(Keys(), s, makeit, memory, lastAtom, nodeTable.Length);
      var np, parent, side := Search(s, fp);
      if np != null {
        NodeKey(np.a);
        Numbered(KeyOf(s), np.a);
        return Atom(np.a);
      }
      if !makeit { return NoAtom; }
      if !memory.node { return BadResource; }
      if lastAtom >= LAST_PREDEFINED && !memory.name { return BadResource; }
      if lastAtom + 1 >= nodeTable.Length {
        if !memory.table { return BadResource; }
        GrowTable();
      }
      Link(parent, side, Key(fp, CName(s)));
      Numbered(KeyOf(s), lastAtom);
      ValidIs();
      return Atom(lastAtom);
    }

    lemma KeyIs(s: Text, fp: nat)
      requires fp == FingerprintOf(s, (|s| + 1) / 2)
      ensures KeyOf(s) == Key(fp, CName(s)) && NulFree(CName(s))
    {
      CNameIs(s);
    }

    lemma InternedIs(keys: seq<Key>, s: Text, makeit: bool, memory: Memory, lastAtom: nat, tableLength: nat)
      ensures var enough := memory.node && (lastAtom >= LAST_PREDEFINED ==> memory.name) &&
                            (lastAtom + 1 >= tableLength ==> memory.table);
              Interned(keys, Request(s, makeit, memory.Enough(lastAtom, tableLength))) ==
              if makeit && enough && KeyOf(s) !in keys then keys + [KeyOf(s)] else keys
    {
    }

    lemma Numbered(k: Key, n: nat)
      requires Valid() && 0 < n <= |Keys()| && Keys()[n - 1] == k
      ensures k in Keys() && NumberOf(Keys(), k) == n && n <= |Keys()| && Keys()[n - 1] == k
    {
    }

    lemma NodeKey(n: nat)
      requires 0 < n <= |nodes|
      ensures n <= |Keys()| && Keys()[n - 1] == nodes[n - 1].Name()
    {
    }

    /** Doubles the table; what is in it stays. */
    method GrowTable()
      requires Valid()
      modifies this`nodeTable
      ensures Valid() && fresh(nodeTable) && nodeTable.Length == 2 * old(nodeTable.Length)
      ensures Keys() == old(Keys())
    {
      hide *;
      ValidIs();
      var table := new Node?[2 * nodeTable.Length](_ => null);
      for i := 0 to nodeTable.Length
        invariant nodeTable == old(nodeTable)
        invariant forall k :: 0 <= k < i ==> table[k] == nodeTable[k]
      {
        table[i] := nodeTable[i];
      }
      nodeTable := table;
      StillValid();
      SameKeys();
    }

    twostate lemma SameKeys()
      requires nodes == old(nodes)
      ensures Keys() == old(Keys())
    {
    }

    /** A longer table with the same entries. */
    twostate lemma StillValid()
      requires old(Valid()) && nodes == old(nodes) && atomRoot == old(atomRoot) && lastAtom == old(lastAtom)
      requires nodeTable.Length >= old(nodeTable.Length)
      requires forall i :: 0 <= i < old(nodeTable.Length) ==> nodeTable[i] == old(nodeTable[i])
      requires forall i :: 0 <= i < |nodes| ==>
               nodes[i].left == old(nodes[i].left) && nodes[i].right == old(nodes[i].right)
      ensures Valid()
    {
      forall i, s | 0 <= i < |nodes| ensures nodes[i].Child(s) == old(nodes[i].Child(s)) {}
      assert old(Indexed() && Ordered() && Complete());
      hide Gap.Has, Gap.Apart, NoRepeats;
      assert Indexed();
      assert Ordered() by {
        forall i, s | 0 <= i < |nodes| && nodes[i].Child(s) != null ensures IsChild(nodes[i], s) {
          assert old(nodes[i].Child(s)) != null && old(IsChild(nodes[i], s));
        }
      }
      assert Complete();
    }

    /** Puts a new node for a key at its place in the tree and in the table. */
    method Link(parent: Node?, side: Side, key: Key)
      requires Valid() && lastAtom + 1 < nodeTable.Length && key !in Keys() && NulFree(key.name)
      requires parent == null ==> nodes == []
      requires parent != null ==>
        0 < parent.a <= |nodes| && nodes[parent.a - 1] == parent && parent.Child(side) == null &&
          parent.Half(side).Has(key)
      modifies this`lastAtom, this`atomRoot, this`nodes, nodeTable, parent
      ensures Valid() && lastAtom == old(lastAtom) + 1 && Keys() == old(Keys()) + [key]
      ensures |nodes| == lastAtom && nodes[..old(|nodes|)] == old(nodes) && fresh(nodes[lastAtom - 1])
    {
      hide Valid, Indexed, Ordered, Complete, NoRepeats, Less, KeyLess, Before, KeysOf, CName;
      ValidIs();
      ghost var range := if parent == null then Gap(Lowest, Highest) else parent.Half(side);
      var nd := new Node(lastAtom + 1, key.fp, key.name, range);
      if parent == null {
        atomRoot := nd;
      } else {
        parent.Attach(side, nd);
      }
      lastAtom := lastAtom + 1;
      nodeTable[lastAtom] := nd;
      nodes := nodes + [nd];
      WholeRange(key);
      LinkedValid(nd, if parent == null then 0 else parent.a, side);
    }

    twostate lemma LinkedValid(new nd: Node, new p: nat, new side: Side)
      requires old(Valid()) && LinkedTo(nd, p, side) && nd.Name() !in old(Keys())
      requires nodeTable == old(nodeTable) && lastAtom == old(lastAtom) + 1 < nodeTable.Length &&
               nodeTable[lastAtom] == nd
      requires forall i :: 0 <= i < lastAtom ==> nodeTable[i] == old(nodeTable[i])
      ensures Valid() && Keys() == old(Keys()) + [nd.Name()]
    {
      hide Indexed, Ordered, Complete, NoRepeats;
      LinkedOrdered(nd, p, side);
      LinkedComplete(nd, p, side);
      LinkedIndexed(nd);
      KeysMore(old(nodes), nd);
    }

    lemma WholeRange(key: Key)
      ensures Gap(Lowest, Highest).Has(key)
    {
    }

    twostate lemma LinkedIndexed(new nd: Node)
      requires old(Indexed()) && nodes == old(nodes) + [nd] && nodeTable == old(nodeTable)
      requires lastAtom == old(lastAtom) + 1 < nodeTable.Length && nodeTable[lastAtom] == nd
      requires forall i :: 0 <= i < lastAtom ==> nodeTable[i] == old(nodeTable[i])
      ensures Indexed()
    {
    }

    lemma KeysMore(ns: seq<Node>, nd: Node)
      requires NoRepeats(KeysOf(ns)) && nd.Name() !in KeysOf(ns)
      ensures KeysOf(ns + [nd]) == KeysOf(ns) + [nd.Name()] && NoRepeats(KeysOf(ns + [nd]))
    {
    }

    lemma ValidIs()
      requires Valid()
      ensures Indexed() && Ordered() && Complete() && NoRepeats(Keys())
      ensures |Keys()| == |nodes| == lastAtom < nodeTable.Length
      ensures forall i :: 0 <= i < |nodes| ==> nodes[i].a == i + 1
    {
    }

    /** The node nd was put on one side of atom p's node, or made the root. */
    twostate predicate LinkedTo(new nd: Node, new p: nat, new side: Side) reads this, nodes, nd {
      && nodes == old(nodes) + [nd] && nd.left == nd.right == null && nd.a == |nodes|
      && (forall i, s :: 0 <= i < |old(nodes)| ==>
            nodes[i].Child(s) == if i == p - 1 && s == side then nd else old(nodes[i].Child(s)))
      && (if p == 0 then old(nodes) == [] && atomRoot == nd && nd.gap == Gap(Lowest, Highest)
          else
            && atomRoot == old(atomRoot) && p <= |old(nodes)|
            && old(nodes[p - 1].Child(side)) == null && nd.gap == nodes[p - 1].Half(side))
      && nd.gap.Has(nd.Name()) && NulFree(nd.str)
    }

    twostate lemma LinkedOrdered(new nd: Node, new p: nat, new side: Side)
      requires old(Ordered()) && LinkedTo(nd, p, side)
      ensures Ordered()
    {
      forall i, s | 0 <= i < |nodes| && nodes[i].Child(s) != null ensures IsChild(nodes[i], s) {
        assert i < |old(nodes)| ==> old(nodes[i].Child(s)) == null || old(IsChild(nodes[i], s));
      }
    }

    twostate lemma LinkedComplete(new nd: Node, new p: nat, new side: Side)
      requires old(Ordered() && Complete()) && LinkedTo(nd, p, side)
      ensures Complete()
    {
      hide Less, KeyLess, Before, Gap.Has, Gap.Apart;
      var key, m := nd.Name(), |old(nodes)|;
      SplitGap(nd.gap, key);
      forall i, s | 0 <= i < m && nodes[i].Child(s) == null
        ensures old(nodes[i].Child(s)) == null && nd.gap.Apart(nodes[i].Half(s)) && !nodes[i].Half(s).Has(key)
      {
        assert old(nodes[i].Child(s)) == null && old(nodes[p - 1].Child(side)) == null;
        ApartMeans(nd.gap, nodes[i].Half(s), key);
      }
      forall k | 0 <= k < m ensures !nd.gap.Has(nodes[k].Name()) {
        assert old(nodes[p - 1].Child(side)) == null;
      }
      forall s ensures nd.Half(s) == (if s == Left then Gap(nd.gap.lo, At(key)) else Gap(At(key), nd.gap.hi)) {}
    }

    predicate ValidAtom(atom: nat)
      reads this
    {
      atom != 0 && atom <= lastAtom
    }

    /** The name of an atom, if there is such an atom. */
    method NameForAtom(atom: nat) returns (found: bool, name: Text)
      requires Valid()
      ensures found == ValidAtom(atom)
      ensures found ==> 0 < atom <= |Keys()| && name == Keys()[atom - 1].name
    {
      if atom > lastAtom { return false, []; }
      if nodeTable[atom] == null { return false, []; }
      assert nodeTable[atom] == nodes[atom - 1];
      return true, nodeTable[atom].str;
    }
  }

  /** A new table with the predefined atoms, or a fatal error when there is no memory for the table or
      there are not exactly as many as there should be.  `made` records the requests. */
  method InitAtoms(names: seq<Text>, room: bool, memory: nat -> Memory)
    returns (table: AtomTable, fatal: bool, ghost made: seq<Request>)
    ensures fresh(table) && table.Valid() && table.Keys() == Run([], made)
    ensures fatal <==> !room || |table.Keys()| != LAST_PREDEFINED
    ensures |made| == (if room then |names| else 0)
    ensures forall i :: 0 <= i < |made| ==> made[i].text == names[i] && made[i].makeit
    ensures forall i :: 0 <= i < |made| && memory(i).node && memory(i).name && memory(i).table ==> made[i].memory
    ensures |names| == LAST_PREDEFINED && !fatal ==> forall i :: 0 <= i < |names| ==> table.Keys()[i] == KeyOf(names[i])
    ensures |names| == LAST_PREDEFINED && room &&
            (forall i :: 0 <= i < |names| ==> memory(i).node && memory(i).name && memory(i).table) ==>
              (fatal <==> exists i, j :: 0 <= i < j < |names| && KeyOf(names[i]) == KeyOf(names[j]))
  {
    hide AtomTable.Valid, NoRepeats, KeysOf, KeyOf, CName, NumberOf, Interned, Run, AtomTable.Keys, Memory.Enough;
    table := new AtomTable();
    made := [];
    RunNone();
    if !room {
      table.ValidIs();
      return table, true, made;
    }
    for i := 0 to |names|
      invariant table.Valid() && fresh(table) && fresh(table.nodeTable)
      invariant forall n :: 0 <= n < |table.nodes| ==> fresh(table.nodes[n])
      invariant |made| == i && (forall k :: 0 <= k < i ==> made[k].text == names[k] && made[k].makeit)
      invariant forall k :: 0 <= k < i && memory(k).node && memory(k).name && memory(k).table ==> made[k].memory
      invariant table.Keys() == Run([], made)
    {
      ghost var before := table.nodes;
      ghost var r := Request(names[i], true, memory(i).Enough(table.lastAtom, table.nodeTable.Length));
      var atom := table.MakeAtom(names[i], true, memory(i));
      assert forall n :: 0 <= n < |before| ==> table.nodes[n] == before[n];
      RunMore(made, r);
      EnoughAlways(memory(i));
      made := made + [r];
    }
    AllMade(made);
    table.ValidIs();
    fatal := table.lastAtom != LAST_PREDEFINED;
    NamesDiffer(names, made, table.Keys());
  }

  lemma RunNone()
    ensures Run([], []) == [] && 0 != LAST_PREDEFINED
  {
  }

  lemma RunMore(rs: seq<Request>, r: Request)
    ensures Run([], rs + [r]) == Interned(Run([], rs), r)
  {
    assert (rs + [r])[..|rs|] == rs;
  }

  lemma EnoughAlways(m: Memory)
    ensures m.node && m.name && m.table ==> forall a, t :: m.Enough(a, t)
  {
  }

  /** With memory all texts become atoms exactly if their keys are different. */
  lemma NamesDiffer(names: seq<Text>, made: seq<Request>, keys: seq<Key>)
    requires |made| == |names| && keys == Run([], made) && NoRepeats(keys)
    requires forall i :: 0 <= i < |names| ==> made[i].text == names[i] && made[i].makeit
    ensures (forall i :: 0 <= i < |names| ==> made[i].memory) ==>
              (|keys| != |names| <==> exists i, j :: 0 <= i < j < |names| && KeyOf(names[i]) == KeyOf(names[j]))
  {
    hide KeyOf;
    AllMade(made);
    if (forall i :: 0 <= i < |names| ==> made[i].memory) &&
       forall i, j :: 0 <= i < j < |names| ==> KeyOf(names[i]) != KeyOf(names[j]) {
      AllDifferent(made);
    }
  }

  lemma {:induction false} AllDifferent(rs: seq<Request>)
    requires forall i :: 0 <= i < |rs| ==> rs[i].makeit && rs[i].memory
    requires forall i, j :: 0 <= i < j < |rs| ==> KeyOf(rs[i].text) != KeyOf(rs[j].text)
    ensures |Run([], rs)| == |rs|
  {
    if rs != [] {
      hide KeyOf;
      AllDifferent(rs[..|rs| - 1]);
      AllMade(rs[..|rs| - 1]);
    }
  }
}
