/** Generic array helpers of src/misc/utils.ts.

    The source matches elements against a partial record `pred`: an element
    matches when every field named in `pred` holds the same value. Here that is
    a key projection `key` (the fields `pred` names) and the projected value `k`
    (the values `pred` holds): an element `x` matches exactly when `key(x) == k`.
 */
module Utils {

  datatype Option<T> = None | Some(value: T)

  datatype Result<T, E> = Success(value: T) | Failure(error: E)

  // ---------------------------------------------------------------------------
  // findIndexBy / findBy

  /** The least index whose element matches, or -1 when none does. */
  function FirstIndex<T, K(==)>(xs: seq<T>, key: T -> K, k: K): (i: int)
    ensures -1 <= i < |xs|
    ensures 0 <= i ==> key(xs[i]) == k
    ensures forall j :: 0 <= j < |xs| && (i < 0 || j < i) ==> key(xs[j]) != k
    decreases |xs|
  {
    if |xs| == 0 then -1
    else if key(xs[0]) == k then 0
    else
      var r := FirstIndex(xs[1..], key, k);
      if r < 0 then -1 else r + 1
  }

  /** findIndexBy: a search loop that stops at the first match. */
  method FindIndexBy<T, K(==)>(xs: seq<T>, key: T -> K, k: K) returns (i: int)
    ensures i == FirstIndex(xs, key, k)
  {
    var n := 0;
    while n < |xs|
      invariant 0 <= n <= |xs|
      invariant forall j :: 0 <= j < n ==> key(xs[j]) != k
    {
      if key(xs[n]) == k {
        return n;
      }
      n := n + 1;
    }
    return -1;
  }

  /** findBy: the first matching element, or nothing (`undefined`). */
  function FindBy<T, K(==)>(xs: seq<T>, key: T -> K, k: K): (r: Option<T>)
    ensures r.None? <==> forall j :: 0 <= j < |xs| ==> key(xs[j]) != k
    ensures r.Some? ==>
      exists i :: 0 <= i < |xs| && xs[i] == r.value && key(xs[i]) == k &&
        forall j :: 0 <= j < i ==> key(xs[j]) != k
  {
    var index := FirstIndex(xs, key, k);
    if index < 0 then None else Some(xs[index])
  }

  // ---------------------------------------------------------------------------
  // deleteBy / upsert

  /** What is left of `xs` once its first match (if any) is spliced out. */
  function Deleted<T, K(==)>(xs: seq<T>, key: T -> K, k: K): seq<T>
  {
    var i := FirstIndex(xs, key, k);
    if i < 0 then xs else xs[..i] + xs[i + 1..]
  }

  /** deleteBy: splices out the first match and returns it as a one-element
      list, or returns the empty list and leaves the list as it was. The
      list is given and returned as a value (`ys` is its new content). */
  method DeleteBy<T, K(==)>(xs: seq<T>, key: T -> K, k: K) returns (ys: seq<T>, removed: seq<T>)
    ensures ys == Deleted(xs, key, k)
    ensures removed == [] <==> forall j :: 0 <= j < |xs| ==> key(xs[j]) != k
    ensures removed == [] ==> ys == xs
    ensures removed != [] ==>
      exists i :: 0 <= i < |xs| && removed == [xs[i]] && key(xs[i]) == k &&
        (forall j :: 0 <= j < i ==> key(xs[j]) != k) &&
        ys == xs[..i] + xs[i + 1..]
  {
    var index := FindIndexBy(xs, key, k);
    if index < 0 {
      return xs, [];
    }
    ys, removed := xs[..index] + xs[index + 1..], [xs[index]];
  }

  /** upsert: deletes the first match, then appends `x`. */
  method Upsert<T, K(==)>(xs: seq<T>, key: T -> K, k: K, x: T) returns (ys: seq<T>)
    ensures ys == Deleted(xs, key, k) + [x]
    ensures |ys| > 0 && ys[|ys| - 1] == x
    ensures (exists j :: 0 <= j < |xs| && key(xs[j]) == k) ==> |ys| == |xs|
    ensures (forall j :: 0 <= j < |xs| ==> key(xs[j]) != k) ==> ys == xs + [x]
  {
    var rest, _ := DeleteBy(xs, key, k);
    ys := rest + [x];
  }

  /** Every element that does not match survives the deletion. */
  lemma DeletedKeeps<T, K>(xs: seq<T>, key: T -> K, k: K, e: T)
    requires e in xs && key(e) != k
    ensures e in Deleted(xs, key, k)
  {
    var i := FirstIndex(xs, key, k);
    if 0 <= i {
      var j :| 0 <= j < |xs| && xs[j] == e;
      if j < i {
        assert xs[..i][j] == e;
      } else {
        assert j != i;
        assert xs[i + 1..][j - i - 1] == e;
      }
    }
  }

  /** Deletion adds nothing. */
  lemma DeletedWithin<T, K>(xs: seq<T>, key: T -> K, k: K, e: T)
    requires e in Deleted(xs, key, k)
    ensures e in xs
  {
    var i := FirstIndex(xs, key, k);
    if 0 <= i {
      var d := xs[..i] + xs[i + 1..];
      var j :| 0 <= j < |d| && d[j] == e;
      if j < i {
        assert xs[j] == e;
      } else {
        assert xs[j + 1] == e;
      }
    }
  }

  // ---------------------------------------------------------------------------
  // isBetween

  function Min(a: real, b: real): real { if a <= b then a else b }

  function Max(a: real, b: real): real { if a <= b then b else a }

  /** isBetween: `x` lies in the closed interval spanned by `a` and `b`,
      whichever of the two is smaller. */
  function IsBetween(x: real, a: real, b: real): (r: bool)
    ensures r <==> (a <= x <= b || b <= x <= a)
  {
    x >= Min(a, b) && x <= Max(a, b)
  }

  lemma IsBetweenSymmetric(x: real, a: real, b: real)
    ensures IsBetween(x, a, b) == IsBetween(x, b, a)
    ensures IsBetween(a, a, b) && IsBetween(b, a, b)
  {
  }

  // ---------------------------------------------------------------------------
  // groupBy

  /** The distinct keys of `xs` in order of first appearance: the key order of
      the insertion-ordered Map that groupBy fills. */
  function KeysOf<T, K(==)>(xs: seq<T>, key: T -> K): seq<K>
    decreases |xs|
  {
    if xs == [] then []
    else
      var ks := KeysOf(xs[..|xs| - 1], key);
      var k := key(xs[|xs| - 1]);
      if k in ks then ks else ks + [k]
  }

  /** The images under `f` of the items whose key is `k`, in input order. */
  function GroupOf<T, K(==), U>(xs: seq<T>, key: T -> K, f: T -> U, k: K): seq<U>
    decreases |xs|
  {
    if xs == [] then []
    else
      GroupOf(xs[..|xs| - 1], key, f, k) +
        (if key(xs[|xs| - 1]) == k then [f(xs[|xs| - 1])] else [])
  }

  /** groupBy: one pass over `xs`, creating a group the first time a key is
      seen and appending the item's image to its group. The Map is returned
      as its key order `keys` and its contents `groups`. */
  method GroupBy<T, K(==), U>(xs: seq<T>, key: T -> K, f: T -> U)
    returns (keys: seq<K>, groups: map<K, seq<U>>)
    ensures keys == KeysOf(xs, key)
    ensures groups.Keys == set k | k in keys
    ensures forall k :: k in groups ==> groups[k] == GroupOf(xs, key, f, k)
  {
    keys, groups := [], map[];
    for i := 0 to |xs|
      invariant keys == KeysOf(xs[..i], key)
      invariant groups.Keys == set k | k in keys
      invariant forall k :: k in groups ==> groups[k] == GroupOf(xs[..i], key, f, k)
    {
      var item := xs[i];
      var k := key(item);
      KeysStep(xs, key, i);
      ghost var prev := groups;
      if k !in groups {
        NoKeyNoGroup(xs[..i], key, f, k);
        keys := keys + [k];
        groups := groups[k := []];
      }
      groups := groups[k := groups[k] + [f(item)]];
      forall k' | k' in groups
        ensures groups[k'] == GroupOf(xs[..i + 1], key, f, k')
      {
        GroupStepAt(xs, key, f, i, k');
        if k' != k {
          assert k' in prev;
        }
      }
    }
    assert xs[..|xs|] == xs;
  }

  /** One more item: its key is listed if new. */
  lemma KeysStep<T, K>(xs: seq<T>, key: T -> K, i: int)
    requires 0 <= i < |xs|
    ensures KeysOf(xs[..i + 1], key) ==
      if key(xs[i]) in KeysOf(xs[..i], key) then KeysOf(xs[..i], key) else KeysOf(xs[..i], key) + [key(xs[i])]
  {
    assert xs[..i + 1][..i] == xs[..i];
  }

  /** One more item: its image joins the group of its key. */
  lemma GroupStepAt<T, K, U>(xs: seq<T>, key: T -> K, f: T -> U, i: int, k: K)
    requires 0 <= i < |xs|
    ensures GroupOf(xs[..i + 1], key, f, k) ==
      GroupOf(xs[..i], key, f, k) + (if key(xs[i]) == k then [f(xs[i])] else [])
  {
    assert xs[..i + 1][..i] == xs[..i];
  }

  lemma {:induction false} NoKeyNoGroup<T, K, U>(xs: seq<T>, key: T -> K, f: T -> U, k: K)
    requires k !in KeysOf(xs, key)
    ensures GroupOf(xs, key, f, k) == []
    decreases |xs|
  {
    if xs != [] {
      NoKeyNoGroup(xs[..|xs| - 1], key, f, k);
    }
  }

  /** A key is listed exactly when some item has it. */
  lemma {:induction false} KeyListed<T, K>(xs: seq<T>, key: T -> K, k: K)
    ensures k in KeysOf(xs, key) <==> exists i :: 0 <= i < |xs| && key(xs[i]) == k
    decreases |xs|
  {
    if xs != [] {
      var init := xs[..|xs| - 1];
      KeyListed(init, key, k);
      if k in KeysOf(init, key) {
        var i :| 0 <= i < |init| && key(init[i]) == k;
        assert key(xs[i]) == k;
      }
      if exists i :: 0 <= i < |xs| && key(xs[i]) == k {
        var i :| 0 <= i < |xs| && key(xs[i]) == k;
        if i < |xs| - 1 {
          assert key(init[i]) == k;
        }
      }
    }
  }

  /** Each key is listed once. */
  lemma {:induction false} KeysDistinct<T, K>(xs: seq<T>, key: T -> K)
    ensures forall i, j :: 0 <= i < j < |KeysOf(xs, key)| ==> KeysOf(xs, key)[i] != KeysOf(xs, key)[j]
    decreases |xs|
  {
    if xs != [] {
      KeysDistinct(xs[..|xs| - 1], key);
    }
  }

  /** Every item lands in the group of its own key, and every listed key has a
      non-empty group. */
  lemma {:induction false} ItemInItsGroup<T, K, U>(xs: seq<T>, key: T -> K, f: T -> U, i: int)
    requires 0 <= i < |xs|
    ensures key(xs[i]) in KeysOf(xs, key)
    ensures f(xs[i]) in GroupOf(xs, key, f, key(xs[i]))
    decreases |xs|
  {
    KeyListed(xs, key, key(xs[i]));
    var init := xs[..|xs| - 1];
    if i < |xs| - 1 {
      ItemInItsGroup(init, key, f, i);
      assert init[i] == xs[i];
    }
  }

  /** The sum of the sizes of the groups listed in `ks`. */
  function SizeSum<T, K(==), U>(ks: seq<K>, xs: seq<T>, key: T -> K, f: T -> U): nat
    decreases |ks|
  {
    if ks == [] then 0 else |GroupOf(xs, key, f, ks[0])| + SizeSum(ks[1..], xs, key, f)
  }

  lemma {:induction false} SizeSumAppendItem<T, K, U>(ks: seq<K>, xs: seq<T>, key: T -> K, f: T -> U, x: T)
    requires forall i, j :: 0 <= i < j < |ks| ==> ks[i] != ks[j]
    ensures SizeSum(ks, xs + [x], key, f) == SizeSum(ks, xs, key, f) + (if key(x) in ks then 1 else 0)
    decreases |ks|
  {
    if ks != [] {
      assert (xs + [x])[..|xs + [x]| - 1] == xs;
      SizeSumAppendItem(ks[1..], xs, key, f, x);
      assert key(x) in ks <==> key(x) == ks[0] || key(x) in ks[1..];
      if key(x) == ks[0] {
        assert key(x) !in ks[1..];
      }
    }
  }

  lemma {:induction false} SizeSumAppendKey<T, K, U>(ks: seq<K>, k: K, xs: seq<T>, key: T -> K, f: T -> U)
    ensures SizeSum(ks + [k], xs, key, f) == SizeSum(ks, xs, key, f) + |GroupOf(xs, key, f, k)|
    decreases |ks|
  {
    if ks == [] {
      assert ([] + [k])[1..] == [];
    } else {
      assert (ks + [k])[1..] == ks[1..] + [k];
      SizeSumAppendKey(ks[1..], k, xs, key, f);
    }
  }

  /** The group sizes add up to the number of items. */
  lemma {:induction false} GroupSizesSum<T, K, U>(xs: seq<T>, key: T -> K, f: T -> U)
    ensures SizeSum(KeysOf(xs, key), xs, key, f) == |xs|
    decreases |xs|
  {
    if xs != [] {
      var init, x := xs[..|xs| - 1], xs[|xs| - 1];
      assert xs == init + [x];
      var ks := KeysOf(init, key);
      GroupSizesSum(init, key, f);
      KeysDistinct(init, key);
      SizeSumAppendItem(ks, init, key, f, x);
      if key(x) !in ks {
        SizeSumAppendKey(ks, key(x), xs, key, f);
        NoKeyNoGroup(init, key, f, key(x));
      }
    }
  }
}
