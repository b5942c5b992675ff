/** Array helpers of src/utils/array.ts: `unique`, `chunk`, `flatten`,
    `shuffle`, `intersection`, `difference` and `groupBy`. JavaScript arrays
    are modelled as sequences; the library never mutates its inputs. */
module ArrayUtils {
  import opened Seqs

  // ---------------------------------------------------------------------
  // unique

  /** `unique`: a Set keeps the first occurrence of each element,
      in insertion order. */
  function Unique<T(==,!new)>(s: seq<T>): (r: seq<T>)
    ensures NoDuplicates(r)
    ensures forall x :: x in r <==> x in s
  {
    if s == [] then []
    else
      var r := Unique(s[..|s| - 1]);
      var x := s[|s| - 1];
      assert forall y :: y in s <==> y in s[..|s| - 1] || y == x by {
        assert s == s[..|s| - 1] + [x];
      }
      if x in r then r else r + [x]
  }

  /** Index of the first occurrence of x in s. */
  function FirstIndex<T(==)>(s: seq<T>, x: T): (k: nat)
    requires x in s
    ensures k < |s| && s[k] == x && x !in s[..k]
  {
    if s[0] == x then 0 else 1 + FirstIndex(s[1..], x)
  }

  lemma FirstIndexPrefix<T>(s: seq<T>, t: seq<T>, x: T)
    requires x in s
    ensures x in s + t && FirstIndex(s + t, x) == FirstIndex(s, x)
  {
    var k := FirstIndex(s, x);
    assert (s + t)[k] == x;
    assert (s + t)[..k] == s[..k];
  }

  /** `unique` keeps first-occurrence order: an element that comes earlier in
      the result occurs for the first time earlier in the input. */
  lemma {:induction false} UniqueOrder<T(!new)>(s: seq<T>, i: int, j: int)
    requires 0 <= i < j < |Unique(s)|
    ensures FirstIndex(s, Unique(s)[i]) < FirstIndex(s, Unique(s)[j])
  {
    var front, x := s[..|s| - 1], s[|s| - 1];
    assert s == front + [x];
    var r := Unique(front);
    var u := Unique(s);
    FirstIndexPrefix(front, [x], u[i]);
    if j < |r| {
      FirstIndexPrefix(front, [x], u[j]);
      UniqueOrder(front, i, j);
    } else {
      // u[j] == x is new: its first occurrence is the last index
      assert u[j] == x && x !in front;
      assert s[..|s| - 1] == front;
    }
  }

  // ---------------------------------------------------------------------
  // chunk

  function Min(a: int, b: int): int { if a <= b then a else b }

  /** Splits arr into consecutive slices of `size` elements; the last one
      may be shorter. On a non-empty array a size of zero or less makes the
      source loop forever, so there a positive size is required; an empty
      array gives no chunks whatever the size. */
  method Chunk<T>(arr: seq<T>, size: int) returns (chunks: seq<seq<T>>)
    requires size > 0 || arr == []
    ensures Concat(chunks) == arr
    ensures forall k :: 0 <= k < |chunks| - 1 ==> |chunks[k]| == size
    ensures |chunks| > 0 ==> 1 <= |chunks[|chunks| - 1]| <= size
    ensures size > 0 ==> |chunks| == (|arr| + size - 1) / size
    ensures arr == [] ==> chunks == []
  {
    chunks := [];
    var i := 0;
    while i < |arr|
      invariant i == |chunks| * size
      invariant size > 0 ==> i < |arr| + size
      invariant arr == [] ==> chunks == []
      invariant Concat(chunks) == arr[..Min(i, |arr|)]
      invariant forall k :: 0 <= k < |chunks| - 1 ==> |chunks[k]| == size
      invariant |chunks| > 0 ==> 1 <= |chunks[|chunks| - 1]| <= size
      invariant i <= |arr| ==> forall k :: 0 <= k < |chunks| ==> |chunks[k]| == size
      decreases |arr| - i
    {
      var piece := arr[i..Min(i + size, |arr|)];
      ChunkStep(arr, chunks, size, i);
      chunks := chunks + [piece];
      i := i + size;
    }
    assert arr[..Min(i, |arr|)] == arr;
    if size > 0 {
      ChunkCount(|arr|, size, |chunks|);
    }
  }

  /** One pass of the loop: the next slice extends the covered prefix. */
  lemma ChunkStep<T>(arr: seq<T>, chunks: seq<seq<T>>, size: int, i: nat)
    requires size > 0 && i < |arr| && i == |chunks| * size
    requires Concat(chunks) == arr[..i]
    requires forall k :: 0 <= k < |chunks| ==> |chunks[k]| == size
    ensures var piece := arr[i..Min(i + size, |arr|)];
      && Concat(chunks + [piece]) == arr[..Min(i + size, |arr|)]
      && i + size == |chunks + [piece]| * size
      && 1 <= |piece| <= size
      && (i + size <= |arr| ==> |piece| == size)
  {
    var piece := arr[i..Min(i + size, |arr|)];
    ConcatSnoc(chunks, piece);
    assert arr[..Min(i + size, |arr|)] == arr[..i] + piece;
    MulSucc(|chunks|, size);
  }

  lemma ChunkCount(n: nat, size: int, c: nat)
    requires size > 0 && n <= c * size < n + size
    ensures c == (n + size - 1) / size
  {
    var q := (n + size - 1) / size;
    assert q * size <= n + size - 1 < (q + 1) * size;
    MulMono(c, q - 1, size);
    MulMono(q + 1, c, size);
  }

  lemma MulSucc(c: nat, s: int)
    ensures (c + 1) * s == c * s + s
  {
  }

  lemma MulMono(a: int, b: int, s: nat)
    ensures a <= b ==> a * s <= b * s
  {
    assert a * s + (b - a) * s == b * s;
  }

  // ---------------------------------------------------------------------
  // flatten

  /** An element of a nested array: a plain value or a nested array. */
  datatype Nested<T> = Leaf(value: T) | Nest(items: seq<Nested<T>>)

  /** `flatten`: a left fold that concatenates each plain value and the
      flattening of each nested array. */
  function Flatten<T>(arr: seq<Nested<T>>): seq<T>
    decreases arr
  {
    if arr == [] then [] else Flatten(arr[..|arr| - 1]) + Expand(arr[|arr| - 1])
  }

  function Expand<T>(v: Nested<T>): seq<T>
    decreases v
  {
    match v
    case Leaf(x) => [x]
    case Nest(items) => Flatten(items)
  }

  /** Flattening distributes over concatenation. */
  lemma {:induction false} FlattenAppend<T>(a: seq<Nested<T>>, b: seq<Nested<T>>)
    ensures Flatten(a + b) == Flatten(a) + Flatten(b)
  {
    if b == [] {
      assert a + b == a;
    } else {
      var front, last := b[..|b| - 1], b[|b| - 1];
      assert b == front + [last];
      assert (a + b)[..|a + b| - 1] == a + front;
      FlattenAppend(a, front);
    }
  }

  /** The leaves of a nested value, read left to right, independently of
      the fold: the reference definition `flatten` is checked against. */
  function Leaves<T>(v: Nested<T>): seq<T>
    decreases v
  {
    match v
    case Leaf(x) => [x]
    case Nest(items) => LeavesOf(items)
  }

  function LeavesOf<T>(items: seq<Nested<T>>): seq<T>
    decreases items
  {
    if items == [] then [] else Leaves(items[0]) + LeavesOf(items[1..])
  }

  /** `flatten` returns the in-order leaves at every depth. */
  lemma {:induction false} FlattenIsLeaves<T>(arr: seq<Nested<T>>)
    ensures Flatten(arr) == LeavesOf(arr)
    decreases arr
  {
    if arr != [] {
      FlattenAppend([arr[0]], arr[1..]);
      assert arr == [arr[0]] + arr[1..];
      FlattenIsLeaves(arr[1..]);
      assert Flatten([arr[0]]) == Flatten([]) + Expand(arr[0]);
      match arr[0]
      case Leaf(x) =>
      case Nest(items) => FlattenIsLeaves(items);
    }
  }

  /** An already flat array comes back unchanged. */
  lemma {:induction false} FlattenFlat<T>(arr: seq<Nested<T>>)
    requires forall i :: 0 <= i < |arr| ==> arr[i].Leaf?
    ensures Flatten(arr) == seq(|arr|, i requires 0 <= i < |arr| => arr[i].value)
  {
    if arr != [] {
      FlattenFlat(arr[..|arr| - 1]);
    }
  }

  // ---------------------------------------------------------------------
  // shuffle

  /** Fisher-Yates on a copy of arr. `pick[i]` stands for the random index
      `Math.floor(Math.random() * (i + 1))` drawn when the loop is at i,
      so any choice in [0, i] is allowed. The draws fix the result: it is
      `Swaps(arr, pick, |arr| - 1)`. */
  method Shuffle<T>(arr: seq<T>, pick: seq<nat>) returns (r: seq<T>)
    requires |pick| == |arr|
    requires forall i :: 0 < i < |arr| ==> pick[i] <= i
    ensures r == Swaps(arr, pick, |arr| - 1)
    ensures |r| == |arr| && multiset(r) == multiset(arr)
    ensures (forall i :: 0 < i < |arr| ==> pick[i] == i) ==> r == arr
  {
    assert Draws(pick);
    ghost var goal := Swaps(arr, pick, |arr| - 1);
    var result := new T[|arr|](i requires 0 <= i < |arr| => arr[i]);
    assert result[..] == arr;
    var i := |arr| - 1;
    while i > 0
      invariant -1 <= i < |arr|
      invariant |result[..]| == |arr|
      invariant Swaps(result[..], pick, i) == goal
      decreases i
    {
      var j := pick[i];
      ghost var before := result[..];
      result[i], result[j] := result[j], result[i];
      assert result[..] == Swap(before, i, j);
      i := i - 1;
    }
    r := result[..];
    SwapsMultiset(arr, pick, |arr| - 1);
    if forall k :: 0 < k < |arr| ==> pick[k] == k {
      SwapsIdentity(arr, pick, |arr| - 1);
    }
  }

  /** Each draw at i is in [0, i]. */
  predicate Draws(pick: seq<nat>) {
    forall k :: 0 < k < |pick| ==> pick[k] <= k
  }

  /** One exchange of the loop. */
  function Swap<T>(s: seq<T>, i: nat, j: nat): seq<T>
    requires i < |s| && j < |s|
  {
    s[i := s[j]][j := s[i]]
  }

  /** The exchanges the loop makes at i, i - 1, ..., 1, applied to s. */
  function Swaps<T>(s: seq<T>, pick: seq<nat>, i: int): (r: seq<T>)
    requires |pick| == |s| && i < |s| && Draws(pick)
    ensures |r| == |s|
    decreases i
  {
    if i <= 0 then s else Swaps(Swap(s, i, pick[i]), pick, i - 1)
  }

  /** The exchanges only reorder: the result is a permutation of s. */
  lemma {:induction false} SwapsMultiset<T>(s: seq<T>, pick: seq<nat>, i: int)
    requires |pick| == |s| && i < |s| && Draws(pick)
    ensures multiset(Swaps(s, pick, i)) == multiset(s)
    decreases i
  {
    if i > 0 {
      SwapMultiset(s, i, pick[i]);
      SwapsMultiset(Swap(s, i, pick[i]), pick, i - 1);
    }
  }

  /** Draws that always pick the current position leave the order alone. */
  lemma {:induction false} SwapsIdentity<T>(s: seq<T>, pick: seq<nat>, i: int)
    requires |pick| == |s| && i < |s| && Draws(pick)
    requires forall k :: 0 < k <= i ==> pick[k] == k
    ensures Swaps(s, pick, i) == s
    decreases i
  {
    if i > 0 {
      SwapMultiset(s, i, i);
      SwapsIdentity(Swap(s, i, pick[i]), pick, i - 1);
    }
  }

  /** The exchanges at i and below never touch a position above i. */
  lemma {:induction false} SwapsAbove<T>(s: seq<T>, pick: seq<nat>, i: int)
    requires |pick| == |s| && 0 <= i < |s| && Draws(pick)
    ensures forall k :: i < k < |s| ==> Swaps(s, pick, i)[k] == s[k]
    decreases i
  {
    if i > 0 {
      SwapsAbove(Swap(s, i, pick[i]), pick, i - 1);
    }
  }

  /** Position i ends up holding what the draw at i picked from the array
      as the higher draws left it; no later exchange moves it again. */
  lemma ShuffleSettles<T>(s: seq<T>, pick: seq<nat>, i: int)
    requires |pick| == |s| && 0 < i < |s| && Draws(pick)
    ensures Swaps(s, pick, i)[i] == s[pick[i]]
  {
    SwapsAbove(Swap(s, i, pick[i]), pick, i - 1);
  }

  /** Exchanging two elements keeps the multiset; exchanging an element
      with itself changes nothing. */
  lemma SwapMultiset<T>(s: seq<T>, i: nat, j: nat)
    requires i < |s| && j < |s|
    ensures multiset(s[i := s[j]][j := s[i]]) == multiset(s)
    ensures i == j ==> s[i := s[j]][j := s[i]] == s
  {
    if i != j {
      var t := s[i := s[j]];
      assert multiset(t) == multiset(s) - multiset{s[i]} + multiset{s[j]};
      assert multiset(t[j := s[i]]) == multiset(t) - multiset{t[j]} + multiset{s[i]};
    }
  }

  // ---------------------------------------------------------------------
  // intersection and difference

  /** `intersection`: the items of arr1 that occur in arr2, in order. */
  function Intersection<T(==)>(arr1: seq<T>, arr2: seq<T>): seq<T> {
    if arr1 == [] then []
    else
      var x := arr1[|arr1| - 1];
      Intersection(arr1[..|arr1| - 1], arr2) + (if x in arr2 then [x] else [])
  }

  /** `difference`: the items of arr1 that do not occur in arr2, in order. */
  function Difference<T(==)>(arr1: seq<T>, arr2: seq<T>): seq<T> {
    if arr1 == [] then []
    else
      var x := arr1[|arr1| - 1];
      Difference(arr1[..|arr1| - 1], arr2) + (if x !in arr2 then [x] else [])
  }

  /** The two results partition arr1 by membership in arr2: every element
      of arr1 lands in exactly one of them, with all its duplicates. */
  lemma Partition<T>(arr1: seq<T>, arr2: seq<T>)
    ensures multiset(Intersection(arr1, arr2)) + multiset(Difference(arr1, arr2)) == multiset(arr1)
    ensures forall x :: x in Intersection(arr1, arr2) ==> x in arr1 && x in arr2
    ensures forall x :: x in Difference(arr1, arr2) ==> x in arr1 && x !in arr2
    ensures forall x :: x in arr2 ==> Count(Intersection(arr1, arr2), x) == Count(arr1, x)
    ensures forall x :: x !in arr2 ==> Count(Difference(arr1, arr2), x) == Count(arr1, x)
  {
    FilterMultiset(arr1, arr2);
    FilterMembers(arr1, arr2);
  }

  lemma {:induction false} FilterMultiset<T>(arr1: seq<T>, arr2: seq<T>)
    ensures multiset(Intersection(arr1, arr2)) + multiset(Difference(arr1, arr2)) == multiset(arr1)
  {
    if arr1 != [] {
      var front, x := arr1[..|arr1| - 1], arr1[|arr1| - 1];
      FilterMultiset(front, arr2);
      assert arr1 == front + [x];
      assert multiset(arr1) == multiset(front) + multiset([x]);
    }
  }

  lemma {:induction false} FilterMembers<T>(arr1: seq<T>, arr2: seq<T>)
    ensures forall x :: x in Intersection(arr1, arr2) ==> x in arr1 && x in arr2
    ensures forall x :: x in Difference(arr1, arr2) ==> x in arr1 && x !in arr2
  {
    if arr1 != [] {
      var front, x := arr1[..|arr1| - 1], arr1[|arr1| - 1];
      FilterMembers(front, arr2);
      assert arr1 == front + [x];
    }
  }

  /** Both keep arr1's order: they distribute over a split of arr1. */
  lemma FilterAppend<T>(a: seq<T>, b: seq<T>, arr2: seq<T>)
    ensures Intersection(a + b, arr2) == Intersection(a, arr2) + Intersection(b, arr2)
    ensures Difference(a + b, arr2) == Difference(a, arr2) + Difference(b, arr2)
  {
    IntersectionAppend(a, b, arr2);
    DifferenceAppend(a, b, arr2);
  }

  lemma {:induction false} IntersectionAppend<T>(a: seq<T>, b: seq<T>, arr2: seq<T>)
    ensures Intersection(a + b, arr2) == Intersection(a, arr2) + Intersection(b, arr2)
  {
    if b != [] {
      var front := b[..|b| - 1];
      assert (a + b)[..|a + b| - 1] == a + front && (a + b)[|a + b| - 1] == b[|b| - 1];
      IntersectionAppend(a, front, arr2);
    } else {
      assert a + b == a;
    }
  }

  lemma {:induction false} DifferenceAppend<T>(a: seq<T>, b: seq<T>, arr2: seq<T>)
    ensures Difference(a + b, arr2) == Difference(a, arr2) + Difference(b, arr2)
  {
    if b != [] {
      var front := b[..|b| - 1];
      assert (a + b)[..|a + b| - 1] == a + front && (a + b)[|a + b| - 1] == b[|b| - 1];
      DifferenceAppend(a, front, arr2);
    } else {
      assert a + b == a;
    }
  }

  // ---------------------------------------------------------------------
  // groupBy

  /** The items of arr whose key is k, in input order. */
  function WithKey<T, K(==)>(arr: seq<T>, key: T -> K, k: K): seq<T> {
    if arr == [] then []
    else
      var x := arr[|arr| - 1];
      WithKey(arr[..|arr| - 1], key, k) + (if key(x) == k then [x] else [])
  }

  /** `groupBy(arr, key)`: the key is given as a function (a property name
      is the function that reads that property). */
  method GroupBy<T, K(==)>(arr: seq<T>, key: T -> K) returns (groups: map<K, seq<T>>)
    ensures groups.Keys == set x | x in arr :: key(x)
    ensures forall k :: k in groups ==> groups[k] == WithKey(arr, key, k)
  {
    groups := map[];
    for i := 0 to |arr|
      invariant groups.Keys == set x | x in arr[..i] :: key(x)
      invariant forall k :: k in groups ==> groups[k] == WithKey(arr[..i], key, k)
    {
      var item := arr[i];
      var groupKey := key(item);
      assert arr[..i + 1] == arr[..i] + [item];
      assert arr[..i + 1][..i] == arr[..i];
      if groupKey !in groups {
        groups := groups[groupKey := []];
        NoKeyNoItems(arr[..i], key, groupKey);
      }
      groups := groups[groupKey := groups[groupKey] + [item]];
    }
    assert arr[..|arr|] == arr;
  }

  lemma {:induction false} NoKeyNoItems<T, K>(arr: seq<T>, key: T -> K, k: K)
    requires forall x :: x in arr ==> key(x) != k
    ensures WithKey(arr, key, k) == []
  {
    if arr != [] {
      NoKeyNoItems(arr[..|arr| - 1], key, k);
    }
  }

  /** Sum of the group sizes over a list of distinct keys. */
  function SizeSum<T, K(==)>(arr: seq<T>, key: T -> K, ks: seq<K>): nat {
    if ks == [] then 0 else |WithKey(arr, key, ks[0])| + SizeSum(arr, key, ks[1..])
  }

  /** Every item sits in exactly one group: over the distinct group keys the
      group sizes add up to the length of arr. */
  lemma {:induction false} GroupSizes<T, K>(arr: seq<T>, key: T -> K, ks: seq<K>)
    requires NoDuplicates(ks)
    requires forall x :: x in arr ==> key(x) in ks
    ensures SizeSum(arr, key, ks) == |arr|
  {
    if arr == [] {
      EmptySum(key, ks);
    } else {
      var front, x := arr[..|arr| - 1], arr[|arr| - 1];
      assert forall y :: y in front ==> y in arr;
      GroupSizes(front, key, ks);
      SumGrowsByOne(front, x, key, ks);
      assert arr == front + [x];
    }
  }

  lemma {:induction false} EmptySum<T, K>(key: T -> K, ks: seq<K>)
    ensures SizeSum([], key, ks) == 0
  {
    if ks != [] {
      EmptySum(key, ks[1..]);
    }
  }

  lemma {:induction false} SumGrowsByOne<T, K>(arr: seq<T>, x: T, key: T -> K, ks: seq<K>)
    requires NoDuplicates(ks)
    ensures SizeSum(arr + [x], key, ks) == SizeSum(arr, key, ks) + (if key(x) in ks then 1 else 0)
  {
    if ks != [] {
      assert (arr + [x])[..|arr + [x]| - 1] == arr;
      SumGrowsByOne(arr, x, key, ks[1..]);
      assert key(x) in ks <==> key(x) == ks[0] || key(x) in ks[1..];
      assert forall j :: 0 <= j < |ks[1..]| ==> ks[1..][j] == ks[j + 1] != ks[0];
    }
  }
}
