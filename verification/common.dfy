/**
 Small notions that several components use.
 */
module Common {
  datatype Option<+T> = None | Some(value: T)

  ghost predicate NoRepeats<T>(xs: seq<T>) {
    forall i, j :: 0 <= i < j < |xs| ==> xs[i] != xs[j]
  }

  lemma NoRepeatsConcat<T>(a: seq<T>, b: seq<T>)
    requires NoRepeats(a) && NoRepeats(b) && forall x :: x in a ==> x !in b
    ensures NoRepeats(a + b)
  {
    forall i, j | 0 <= i < j < |a + b| ensures (a + b)[i] != (a + b)[j] {
      if i < |a| && |a| <= j { assert a[i] in a && b[j - |a|] in b; }
    }
  }

  /** The list without the first occurrence of x. */
  function WithoutFirst(list: seq<nat>, x: nat): seq<nat> {
    if list == [] then [] else if list[0] == x then list[1..] else [list[0]] + WithoutFirst(list[1..], x)
  }

  /** Whatever stands before the first occurrence and behind it stays, in its order. */
  lemma {:induction false} WithoutFirstIs(a: seq<nat>, x: nat, b: seq<nat>)
    requires x !in a
    ensures WithoutFirst(a + [x] + b, x) == a + b
    ensures WithoutFirst(a, x) == a
  {
    if a == [] {
      assert a + [x] + b == [x] + b && ([x] + b)[1..] == b == a + b;
    } else {
      assert a == [a[0]] + a[1..];
      WithoutFirstIs(a[1..], x, b);
      assert (a + [x] + b)[1..] == a[1..] + [x] + b && (a + b)[1..] == a[1..] + b;
      assert a + b == [a[0]] + (a[1..] + b);
    }
  }
}
