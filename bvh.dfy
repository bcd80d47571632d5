/**
 * `BVHNode::new`: sort the slice in place on a randomly drawn axis by the minimum corner
 * of each hittable's box, split it in halves (or alias a single hittable), recurse, and
 * store the union of the children's boxes. The random draws are a sequence consumed in
 * preorder: one per node, then the left subtree's, then the right subtree's.
 */
module Bvh {
  import opened Options
  import opened Vectors
  import opened Boxes
  import opened Scenes

  /**
   * `(3.0 * random()) as i32` for a draw in [0, 1]: 0 selects x, 1 selects y, anything else z
   * (a draw of exactly 1 truncates to 3 and so selects z).
   */
  function AxisOf(draw: real): (axis: nat)
    requires 0.0 <= draw <= 1.0
    ensures axis < 3
    ensures axis == 0 <==> 3.0 * draw < 1.0
    ensures axis == 2 <==> 2.0 <= 3.0 * draw
  {
    var truncated := (3.0 * draw).Floor;
    if truncated == 0 then 0 else if truncated == 1 then 1 else 2
  }

  /** The draw 1.0 that `random()` can return takes the `_` arm of the match: the z axis. */
  lemma AxisOfOne()
    ensures AxisOf(1.0) == 2
  {
  }

  /** The sort key: the chosen axis of `bounding_box(0, 0).min()`; 0 where there is no box. */
  function Key(h: Hittable, axis: nat): real
    requires axis < 3
  {
    if WellFormed(h) && BoundingBox(h, 0.0, 0.0).Some? then At(BoundingBox(h, 0.0, 0.0).value.min, axis) else 0.0
  }

  /** Non-decreasing under `key`. */
  predicate SortedBy<T>(s: seq<T>, key: T -> real)
  {
    forall i, j | 0 <= i < j < |s| :: key(s[i]) <= key(s[j])
  }

  /** Exchanging two neighbours inside `s[lo..hi]` rearranges only that segment. */
  lemma SwappedSegment<T>(s: seq<T>, lo: nat, hi: nat, j: nat)
    requires lo < j < hi <= |s|
    ensures Rearranged(s, s[j - 1 := s[j]][j := s[j - 1]], lo, hi)
  {
    var t := s[j - 1 := s[j]][j := s[j - 1]];
    assert s[lo..hi] == s[lo..j - 1] + [s[j - 1], s[j]] + s[j + 1..hi];
    assert t[lo..hi] == s[lo..j - 1] + [s[j], s[j - 1]] + s[j + 1..hi];
  }

  /** A swap inside `[lo..hi]` of a rearrangement of `start` is still one. */
  lemma SwappedKeeps<T>(start: seq<T>, s: seq<T>, lo: nat, hi: nat, j: nat)
    requires lo < j < hi <= |s| && Rearranged(start, s, lo, hi)
    ensures Rearranged(start, s[j - 1 := s[j]][j := s[j - 1]], lo, hi)
  {
    SwappedSegment(s, lo, hi, j);
    RearrangedTransitive(start, s, s[j - 1 := s[j]][j := s[j - 1]], lo, hi);
  }

  /** `a.swap(j - 1, j)` inside `a[lo..hi]`, which keeps `a` a rearrangement of `start`. */
  method SwapNeighbours<T>(a: array<T>, lo: nat, hi: nat, j: nat, ghost start: seq<T>)
    requires lo < j < hi <= a.Length && Rearranged(start, a[..], lo, hi)
    modifies a
    ensures a[..] == old(a[..])[j - 1 := old(a[..])[j]][j := old(a[..])[j - 1]]
    ensures Rearranged(start, a[..], lo, hi)
  {
    ghost var before := a[..];
    SwappedKeeps(start, before, lo, hi, j);
    a[j - 1], a[j] := a[j], a[j - 1];
    assert a[..] == before[j - 1 := before[j]][j := before[j - 1]];
  }

  lemma RearrangedTransitive<T>(s0: seq<T>, s1: seq<T>, s2: seq<T>, lo: nat, hi: nat)
    requires Rearranged(s0, s1, lo, hi) && Rearranged(s1, s2, lo, hi)
    ensures Rearranged(s0, s2, lo, hi)
  {
  }

  /** Rearranging `[lo..mid]` rearranges any wider `[lo..hi]`. */
  lemma RearrangedWiden<T>(s0: seq<T>, s1: seq<T>, lo: nat, mid: nat, hi: nat)
    requires mid <= hi <= |s0| && Rearranged(s0, s1, lo, mid)
    ensures Rearranged(s0, s1, lo, hi)
  {
    assert s1[mid..hi] == s1[mid..][..hi - mid] && s0[mid..hi] == s0[mid..][..hi - mid];
    assert s1[hi..] == s1[mid..][hi - mid..] && s0[hi..] == s0[mid..][hi - mid..];
    assert s1[lo..hi] == s1[lo..mid] + s1[mid..hi];
    assert s0[lo..hi] == s0[lo..mid] + s0[mid..hi];
  }

  predicate SortedRange<T>(s: seq<T>, lo: nat, hi: nat, key: T -> real)
    requires lo <= hi <= |s|
  {
    forall k, l | lo <= k < l < hi :: key(s[k]) <= key(s[l])
  }

  lemma SortedSlice<T>(s: seq<T>, lo: nat, hi: nat, key: T -> real)
    requires lo <= hi <= |s| && SortedRange(s, lo, hi, key)
    ensures SortedBy(s[lo..hi], key)
  {
    assert forall k | 0 <= k < hi - lo :: s[lo..hi][k] == s[lo + k];
  }

  /** Midway through an insertion: `s[lo..i + 1]` is sorted but for `s[j]`, which is at most what follows it. */
  predicate Inserting<T>(s: seq<T>, lo: nat, i: nat, j: nat, key: T -> real)
    requires lo <= j <= i < |s|
  {
    && (forall k, l | lo <= k < l <= i && k != j && l != j :: key(s[k]) <= key(s[l]))
    && (forall l | j < l <= i :: key(s[j]) <= key(s[l]))
  }

  lemma InsertStep<T>(s: seq<T>, lo: nat, i: nat, j: nat, key: T -> real)
    requires lo < j <= i < |s| && Inserting(s, lo, i, j, key) && key(s[j - 1]) > key(s[j])
    ensures Inserting(s[j - 1 := s[j]][j := s[j - 1]], lo, i, j - 1, key)
  {
  }

  lemma InsertStart<T>(s: seq<T>, lo: nat, i: nat, key: T -> real)
    requires lo <= i < |s| && SortedRange(s, lo, i, key)
    ensures Inserting(s, lo, i, i, key) && Rearranged(s, s, lo, i + 1)
  {
  }

  lemma InsertDone<T>(s0: seq<T>, s: seq<T>, lo: nat, i: nat, j: nat, hi: nat, key: T -> real)
    requires lo <= j <= i < hi <= |s| && Inserting(s, lo, i, j, key)
    requires j == lo || key(s[j - 1]) <= key(s[j])
    requires Rearranged(s0, s, lo, i + 1)
    ensures SortedRange(s, lo, i + 1, key) && Rearranged(s0, s, lo, hi)
  {
    RearrangedWiden(s0, s, lo, i + 1, hi);
  }

  /** One exchange of the insertion: `a[j]` moves below its larger left neighbour. */
  method SwapDown<T>(a: array<T>, lo: nat, i: nat, j: nat, key: T -> real, ghost start: seq<T>)
    requires lo < j <= i < a.Length && Inserting(a[..], lo, i, j, key) && key(a[j - 1]) > key(a[j])
    requires Rearranged(start, a[..], lo, i + 1)
    modifies a
    ensures Rearranged(start, a[..], lo, i + 1)
    ensures Inserting(a[..], lo, i, j - 1, key)
  {
    InsertStep(a[..], lo, i, j, key);
    SwapNeighbours(a, lo, i + 1, j, start);
  }

  /** One insertion step: moves `a[i]` down into the sorted run `a[lo..i]`. */
  method InsertDown<T>(a: array<T>, lo: nat, i: nat, hi: nat, key: T -> real)
    requires lo <= i < hi <= a.Length && SortedRange(a[..], lo, i, key)
    modifies a
    ensures Rearranged(old(a[..]), a[..], lo, hi)
    ensures SortedRange(a[..], lo, i + 1, key)
  {
    var j := i;
    InsertStart(a[..], lo, i, key);
    while j > lo && key(a[j - 1]) > key(a[j])
      invariant lo <= j <= i
      invariant Rearranged(old(a[..]), a[..], lo, i + 1)
      invariant Inserting(a[..], lo, i, j, key)
    {
      SwapDown(a, lo, i, j, key, old(a[..]));
      j := j - 1;
    }
    InsertDone(old(a[..]), a[..], lo, i, j, hi, key);
  }

  /** `sort_unstable_by` on `a[lo..hi]`, comparing `key` values (an insertion sort). */
  method SortSegment<T>(a: array<T>, lo: nat, hi: nat, key: T -> real)
    requires lo <= hi <= a.Length
    modifies a
    ensures Rearranged(old(a[..]), a[..], lo, hi)
    ensures SortedBy(a[..][lo..hi], key)
  {
    if hi - lo >= 2 {
      for i := lo + 1 to hi
        invariant Rearranged(old(a[..]), a[..], lo, hi)
        invariant SortedRange(a[..], lo, i, key)
      {
        ghost var before := a[..];
        InsertDown(a, lo, i, hi, key);
        RearrangedTransitive(old(a[..]), before, a[..], lo, hi);
      }
    }
    SortedSlice(a[..], lo, hi, key);
  }

  // ---------------------------------------------------------------------------
  // The build.

  /** `len / 2`, where `BVHNode::new` splits. */
  function Half(n: nat): (h: nat)
    ensures n >= 2 ==> 1 <= h < n
    ensures h + h == n || h + h + 1 == n
  {
    n / 2
  }

  /**
   * The leaves a build lists, left to right, given the final order of its segment: a lone
   * hittable appears twice, a pair as is, a longer segment as its halves' layouts.
   */
  function Layout<T>(s: seq<T>): seq<T>
    requires |s| >= 1
    decreases |s|
  {
    if |s| == 1 then [s[0], s[0]]
    else if |s| == 2 then s
    else Layout(s[..Half(|s|)]) + Layout(s[Half(|s|)..])
  }

  /** The hittables a build leaves alone in a one-element segment. */
  function Singles<T>(s: seq<T>): seq<T>
    requires |s| >= 1
    decreases |s|
  {
    if |s| == 1 then s
    else if |s| == 2 then []
    else Singles(s[..Half(|s|)]) + Singles(s[Half(|s|)..])
  }

  lemma MultisetOfHalves<T>(la: seq<T>, lb: seq<T>, a: seq<T>, b: seq<T>, sa: seq<T>, sb: seq<T>)
    requires multiset(la) == multiset(a) + multiset(sa) && multiset(lb) == multiset(b) + multiset(sb)
    ensures multiset(la + lb) == multiset(a) + multiset(b) + multiset(sa + sb)
  {
  }

  lemma MultisetOfSplit<T>(s: seq<T>, k: nat)
    requires k <= |s|
    ensures multiset(s) == multiset(s[..k]) + multiset(s[k..])
  {
    assert s == s[..k] + s[k..];
  }

  /** The leaf multiset is the segment's, with every lone hittable counted once more. */
  lemma {:induction false} LayoutMultiset<T>(s: seq<T>)
    requires |s| >= 1
    ensures multiset(Layout(s)) == multiset(s) + multiset(Singles(s))
    decreases |s|
  {
    if |s| > 2 {
      LayoutMultiset(s[..Half(|s|)]);
      LayoutMultiset(s[Half(|s|)..]);
      LayoutOfHalves(s);
    } else if |s| == 1 {
      LayoutOfOne(s);
    }
  }

  lemma LayoutOfOne<T>(s: seq<T>)
    requires |s| == 1
    ensures multiset(Layout(s)) == multiset(s) + multiset(Singles(s))
  {
    assert Layout(s) == s + s;
  }

  lemma LayoutOfHalves<T>(s: seq<T>)
    requires |s| > 2
    requires var front, back := s[..Half(|s|)], s[Half(|s|)..];
      && multiset(Layout(front)) == multiset(front) + multiset(Singles(front))
      && multiset(Layout(back)) == multiset(back) + multiset(Singles(back))
    ensures multiset(Layout(s)) == multiset(s) + multiset(Singles(s))
  {
    var front, back := s[..Half(|s|)], s[Half(|s|)..];
    LayoutOfParts(s, front, back);
    SinglesOfParts(s, front, back);
    MultisetOfSplit(s, Half(|s|));
    MultisetOfHalves(Layout(front), Layout(back), front, back, Singles(front), Singles(back));
  }

  lemma LayoutOfParts<T>(s: seq<T>, front: seq<T>, back: seq<T>)
    requires |s| > 2 && front == s[..Half(|s|)] && back == s[Half(|s|)..]
    ensures Layout(s) == Layout(front) + Layout(back)
  {
  }

  lemma SinglesOfParts<T>(s: seq<T>, front: seq<T>, back: seq<T>)
    requires |s| > 2 && front == s[..Half(|s|)] && back == s[Half(|s|)..]
    ensures Singles(s) == Singles(front) + Singles(back)
  {
  }

  function Pow2(k: nat): (p: nat)
    ensures p >= 1
  {
    if k == 0 then 1 else 2 * Pow2(k - 1)
  }

  /** A segment of 2^k hittables, k >= 1, splits into pairs only: its leaves are exactly its hittables. */
  lemma {:induction false} NoSinglesInPowerOfTwo<T>(s: seq<T>, k: nat)
    requires k >= 1 && |s| == Pow2(k)
    ensures Singles(s) == []
    decreases k
  {
    if k > 1 {
      assert Pow2(k - 1) == 2 * Pow2(k - 2);
      NoSinglesInPowerOfTwo(s[..Half(|s|)], k - 1);
      NoSinglesInPowerOfTwo(s[Half(|s|)..], k - 1);
    }
  }

  predicate AllBoxed(s: seq<Hittable>)
  {
    forall i | 0 <= i < |s| :: HasBox(s[i])
  }

  /** Rearranging a segment keeps every property its members have. */
  lemma PermutationKeeps(s: seq<Hittable>, t: seq<Hittable>)
    requires multiset(s) == multiset(t)
    ensures AllWellFormed(s) ==> AllWellFormed(t)
    ensures AllBoxed(s) ==> AllBoxed(t)
  {
    forall i | 0 <= i < |t|
      ensures exists k | 0 <= k < |s| :: s[k] == t[i]
    {
      assert t[i] in multiset(s);
    }
  }

  /** The key `BVHNode::new` sorts by when it has drawn `axis`. */
  function AxisKey(axis: nat): Hittable -> real
    requires axis < 3
  {
    h => Key(h, axis)
  }

  /** Every key in `s[..m]` is at most every key in `s[m..]`. */
  predicate SplitBy(s: seq<Hittable>, m: nat, key: Hittable -> real)
    requires m <= |s|
  {
    forall i, j | 0 <= i < m <= j < |s| :: key(s[i]) <= key(s[j])
  }

  /** After sorting and permuting each half within itself, every left key is at most every right key. */
  lemma HalvesStaySplit(s: seq<Hittable>, m: nat, t: seq<Hittable>, key: Hittable -> real)
    requires m <= |s| == |t| && SortedBy(s, key)
    requires multiset(t[..m]) == multiset(s[..m]) && multiset(t[m..]) == multiset(s[m..])
    ensures SplitBy(t, m, key)
  {
    forall i, j | 0 <= i < m <= j < |t|
      ensures key(t[i]) <= key(t[j])
    {
      assert t[i] == t[..m][i] && t[j] == t[m..][j - m];
      assert t[i] in multiset(s[..m]);
      assert t[j] in multiset(s[m..]);
      var x :| 0 <= x < m && s[..m][x] == t[i];
      var y :| 0 <= y < |s| - m && s[m..][y] == t[j];
      assert s[x] == t[i] && s[m + y] == t[j];
    }
  }

  /** A node whose box is the union of its two children's boxes. */
  predicate Joined(node: Hittable, initialTime: real, finalTime: real)
  {
    && node.BvhNode? && WellFormed(node) && HasBox(node)
    && WellFormed(node.left) && WellFormed(node.right)
    && BoundingBox(node.left, initialTime, finalTime).Some?
    && BoundingBox(node.right, initialTime, finalTime).Some?
    && node.box == SurroundingBox(BoundingBox(node.left, initialTime, finalTime).value,
                                  BoundingBox(node.right, initialTime, finalTime).value)
  }

  /** The end of `BVHNode::new`: both children have boxes, and the node stores their union. */
  function Join(left: Hittable, right: Hittable, initialTime: real, finalTime: real): (node: Hittable)
    requires WellFormed(left) && WellFormed(right) && HasBox(left) && HasBox(right)
    ensures Joined(node, initialTime, finalTime) && node.left == left && node.right == right
  {
    BoundingBoxExists(left, initialTime, finalTime);
    BoundingBoxExists(right, initialTime, finalTime);
    var boxLeft := BoundingBox(left, initialTime, finalTime).value;
    var boxRight := BoundingBox(right, initialTime, finalTime).value;
    BvhNode(left, right, SurroundingBox(boxLeft, boxRight))
  }

  /**
   * The slots of a tree built over n hittables, left to right: the two children of a node
   * over at most two hittables, else the slots of the two halves' subtrees.
   */
  function Tips(h: Hittable, n: nat): seq<Hittable>
    decreases n
  {
    if !h.BvhNode? then [h]
    else if n <= 2 then [h.left, h.right]
    else Tips(h.left, Half(n)) + Tips(h.right, n - Half(n))
  }

  /**
   * `h` has the shape a build gives the segment `s` (in its final order): a node whose two
   * children are the lone hittable, or the pair, or the trees of the two halves.
   */
  predicate Shaped(h: Hittable, s: seq<Hittable>)
    requires |s| >= 1
    decreases |s|
  {
    && h.BvhNode?
    && if |s| == 1 then h.left == s[0] && h.right == s[0]
       else if |s| == 2 then h.left == s[0] && h.right == s[1]
       else Shaped(h.left, s[..Half(|s|)]) && Shaped(h.right, s[Half(|s|)..])
  }

  /** The slots of a tree of that shape are the layout of its segment. */
  lemma {:induction false} ShapedTips(h: Hittable, s: seq<Hittable>)
    requires |s| >= 1 && Shaped(h, s)
    ensures Tips(h, |s|) == Layout(s)
    decreases |s|
  {
    if |s| > 2 {
      ShapedTips(h.left, s[..Half(|s|)]);
      ShapedTips(h.right, s[Half(|s|)..]);
    }
  }

  /** The slots of a built tree hold every hittable of its segment once and each lone one twice. */
  lemma BuiltSlots(h: Hittable, s: seq<Hittable>)
    requires |s| >= 1 && Shaped(h, s)
    ensures multiset(Tips(h, |s|)) == multiset(s) + multiset(Singles(s))
  {
    ShapedTips(h, s);
    LayoutMultiset(s);
  }

  /** `after` is `before` with only `[lo..hi]` rearranged. */
  predicate Rearranged<T(==)>(before: seq<T>, after: seq<T>, lo: nat, hi: nat)
  {
    && lo <= hi <= |before| == |after|
    && after[..lo] == before[..lo] && after[hi..] == before[hi..]
    && multiset(after[lo..hi]) == multiset(before[lo..hi])
  }

  /** Rearranging `[lo..mid]` and then `[mid..hi]` rearranges `[lo..hi]`, each half within itself. */
  lemma RearrangedHalves<T>(s0: seq<T>, s1: seq<T>, s2: seq<T>, lo: nat, mid: nat, hi: nat)
    requires lo <= mid <= hi
    requires Rearranged(s0, s1, lo, mid) && Rearranged(s1, s2, mid, hi)
    ensures Rearranged(s0, s2, lo, hi)
    ensures s2[lo..mid] == s1[lo..mid] && s1[mid..hi] == s0[mid..hi]
    ensures s2[lo..hi] == s1[lo..mid] + s2[mid..hi]
    ensures multiset(s2[lo..mid]) == multiset(s0[lo..mid]) && multiset(s2[mid..hi]) == multiset(s0[mid..hi])
  {
    assert s2[lo..mid] == s2[..mid][lo..] && s1[lo..mid] == s1[..mid][lo..];
    assert s1[mid..hi] == s1[mid..][..hi - mid] && s0[mid..hi] == s0[mid..][..hi - mid];
    assert s2[..lo] == s2[..mid][..lo] && s1[..lo] == s1[..mid][..lo];
    assert s2[hi..] == s1[hi..] == s1[mid..][hi - mid..] && s0[hi..] == s0[mid..][hi - mid..];
    assert s2[lo..hi] == s2[lo..mid] + s2[mid..hi];
    assert s0[lo..hi] == s0[lo..mid] + s0[mid..hi];
  }

  lemma SubSlices<T>(s: seq<T>, lo: nat, mid: nat, hi: nat)
    requires lo <= mid <= hi <= |s|
    ensures s[lo..hi][..mid - lo] == s[lo..mid] && s[lo..hi][mid - lo..] == s[mid..hi]
  {
  }

  lemma SameSuffix<T>(s: seq<T>, t: seq<T>, mid: nat, hi: nat)
    requires mid <= hi <= |s| == |t| && s[mid..] == t[mid..]
    ensures s[mid..hi] == t[mid..hi]
  {
    assert s[mid..hi] == s[mid..][..hi - mid] && t[mid..hi] == t[mid..][..hi - mid];
  }

  /**
   * `BVHNode::new` over `a[lo..hi]`, with the draw for this node at `draws[next]`. A
   * hittable without a bounding box makes the source panic; here the result is then none.
   */
  method Build(a: array<Hittable>, lo: nat, hi: nat, initialTime: real, finalTime: real,
               draws: seq<real>, next: nat) returns (node: Option<Hittable>)
    requires lo < hi <= a.Length && AllWellFormed(a[..][lo..hi])
    requires next + 2 * (hi - lo) - 1 <= |draws|
    requires forall k | 0 <= k < |draws| :: 0.0 <= draws[k] <= 1.0
    modifies a
    decreases hi - lo, 3
    ensures Rearranged(old(a[..]), a[..], lo, hi)
    ensures node.None? <==> !AllBoxed(old(a[..])[lo..hi])
    ensures node.Some? ==> Joined(node.value, initialTime, finalTime) && Shaped(node.value, a[..][lo..hi])
    ensures node.Some? && hi - lo >= 2 ==> SplitBy(a[..][lo..hi], Half(hi - lo), AxisKey(AxisOf(draws[next])))
  {
    if !AllBoxed(a[..][lo..hi]) {
      return None;
    }
    var built := BuildBoxed(a, lo, hi, initialTime, finalTime, draws, next);
    return Some(built);
  }

  /** `BVHNode::new` over a segment whose hittables all have a bounding box. */
  method BuildBoxed(a: array<Hittable>, lo: nat, hi: nat, initialTime: real, finalTime: real,
                    draws: seq<real>, next: nat) returns (node: Hittable)
    requires lo < hi <= a.Length && AllWellFormed(a[..][lo..hi]) && AllBoxed(a[..][lo..hi])
    requires next + 2 * (hi - lo) - 1 <= |draws|
    requires forall k | 0 <= k < |draws| :: 0.0 <= draws[k] <= 1.0
    modifies a
    decreases hi - lo, 2
    ensures Rearranged(old(a[..]), a[..], lo, hi)
    ensures Joined(node, initialTime, finalTime) && Shaped(node, a[..][lo..hi])
    ensures hi - lo >= 2 ==> SplitBy(a[..][lo..hi], Half(hi - lo), AxisKey(AxisOf(draws[next])))
  {
    var axis := AxisOf(draws[next]);
    SortBoxes(a, lo, hi, AxisKey(axis));
    ghost var sorted := a[..];
    var left, right := Children(a, lo, hi, initialTime, finalTime, draws, next, AxisKey(axis));
    RearrangedTransitive(old(a[..]), sorted, a[..], lo, hi);
    node := Join(left, right, initialTime, finalTime);
    ShapedOfJoin(node, a[..][lo..hi]);
  }

  /** The sort of `BVHNode::new`, which keeps every hittable well formed and boxed. */
  method SortBoxes(a: array<Hittable>, lo: nat, hi: nat, key: Hittable -> real)
    requires lo < hi <= a.Length && AllWellFormed(a[..][lo..hi]) && AllBoxed(a[..][lo..hi])
    modifies a
    ensures Rearranged(old(a[..]), a[..], lo, hi) && SortedBy(a[..][lo..hi], key)
    ensures AllWellFormed(a[..][lo..hi]) && AllBoxed(a[..][lo..hi])
  {
    SortSegment(a, lo, hi, key);
    PermutationKeeps(old(a[..])[lo..hi], a[..][lo..hi]);
  }

  /** The children a node over the segment `s` has in the build. */
  predicate ChildrenShaped(left: Hittable, right: Hittable, s: seq<Hittable>)
    requires |s| >= 1
  {
    if |s| == 1 then left == s[0] && right == s[0]
    else if |s| == 2 then left == s[0] && right == s[1]
    else Shaped(left, s[..Half(|s|)]) && Shaped(right, s[Half(|s|)..])
  }

  /** A node over the segment `s` has the build's shape when its children do. */
  lemma ShapedOfJoin(node: Hittable, s: seq<Hittable>)
    requires |s| >= 1 && node.BvhNode? && ChildrenShaped(node.left, node.right, s)
    ensures Shaped(node, s)
  {
  }

  /** The `match len` of `BVHNode::new` on a sorted segment of boxed hittables. */
  method Children(a: array<Hittable>, lo: nat, hi: nat, initialTime: real, finalTime: real,
                  draws: seq<real>, next: nat, ghost key: Hittable -> real) returns (left: Hittable, right: Hittable)
    requires lo < hi <= a.Length
    requires AllWellFormed(a[..][lo..hi]) && AllBoxed(a[..][lo..hi]) && SortedBy(a[..][lo..hi], key)
    requires next + 2 * (hi - lo) - 1 <= |draws|
    requires forall k | 0 <= k < |draws| :: 0.0 <= draws[k] <= 1.0
    modifies a
    decreases hi - lo, 1
    ensures Rearranged(old(a[..]), a[..], lo, hi)
    ensures WellFormed(left) && HasBox(left) && WellFormed(right) && HasBox(right)
    ensures ChildrenShaped(left, right, a[..][lo..hi])
    ensures hi - lo >= 2 ==> SplitBy(a[..][lo..hi], Half(hi - lo), key)
  {
    var len := hi - lo;
    ghost var seg := a[..][lo..hi];
    assert seg[0] == a[lo];
    if len == 1 {
      left, right := a[lo], a[lo];
    } else if len == 2 {
      assert seg[1] == a[lo + 1];
      left, right := a[lo], a[lo + 1];
    } else {
      left, right := BuildHalves(a, lo, hi, initialTime, finalTime, draws, next, key);
    }
  }

  /** The `_` arm of `BVHNode::new`: build `[..leHalf(n)]`, then `[leHalf(n)..]`. */
  method BuildHalves(a: array<Hittable>, lo: nat, hi: nat, initialTime: real, finalTime: real,
                     draws: seq<real>, next: nat, ghost key: Hittable -> real) returns (left: Hittable, right: Hittable)
    requires lo + 2 < hi <= a.Length
    requires AllWellFormed(a[..][lo..hi]) && AllBoxed(a[..][lo..hi]) && SortedBy(a[..][lo..hi], key)
    requires next + 2 * (hi - lo) - 1 <= |draws|
    requires forall k | 0 <= k < |draws| :: 0.0 <= draws[k] <= 1.0
    modifies a
    decreases hi - lo, 0
    ensures Rearranged(old(a[..]), a[..], lo, hi)
    ensures Joined(left, initialTime, finalTime) && Joined(right, initialTime, finalTime)
    ensures Shaped(left, a[..][lo..hi][..Half(hi - lo)]) && Shaped(right, a[..][lo..hi][Half(hi - lo)..])
    ensures SplitBy(a[..][lo..hi], Half(hi - lo), key)
  {
    var mid := lo + Half(hi - lo);
    ghost var s0 := a[..];
    HalvesOf(s0, lo, mid, hi);
    var l := Build(a, lo, mid, initialTime, finalTime, draws, next + 1);
    ghost var s1 := a[..];
    SameSuffix(s0, s1, mid, hi);
    var r := Build(a, mid, hi, initialTime, finalTime, draws, next + 2 * (mid - lo));
    ghost var s2 := a[..];
    RearrangedHalves(s0, s1, s2, lo, mid, hi);
    left, right := l.value, r.value;
    SplitOfHalves(s0, s2, lo, mid, hi, key);
    HalfSlices(s2, lo, mid, hi);
  }

  lemma HalfSlices<T>(s: seq<T>, lo: nat, mid: nat, hi: nat)
    requires lo <= hi <= |s| && mid == lo + Half(hi - lo)
    ensures s[lo..hi][..Half(hi - lo)] == s[lo..mid] && s[lo..hi][Half(hi - lo)..] == s[mid..hi]
  {
  }

  /** Sorting the segment and then permuting each half within itself keeps it split at the half. */
  lemma SplitOfHalves(s0: seq<Hittable>, s2: seq<Hittable>, lo: nat, mid: nat, hi: nat, key: Hittable -> real)
    requires lo + 2 < hi <= |s0| == |s2| && mid == lo + Half(hi - lo)
    requires SortedBy(s0[lo..hi], key)
    requires multiset(s2[lo..mid]) == multiset(s0[lo..mid]) && multiset(s2[mid..hi]) == multiset(s0[mid..hi])
    ensures SplitBy(s2[lo..hi], Half(hi - lo), key)
  {
    SubSlices(s2, lo, mid, hi);
    SubSlices(s0, lo, mid, hi);
    HalvesStaySplit(s0[lo..hi], mid - lo, s2[lo..hi], key);
  }

  /** Both halves of a well-formed, boxed segment are well-formed and boxed. */
  lemma HalvesOf(s: seq<Hittable>, lo: nat, mid: nat, hi: nat)
    requires lo <= mid <= hi <= |s| && AllWellFormed(s[lo..hi]) && AllBoxed(s[lo..hi])
    ensures AllWellFormed(s[lo..mid]) && AllBoxed(s[lo..mid]) && AllWellFormed(s[mid..hi]) && AllBoxed(s[mid..hi])
  {
    assert forall i | 0 <= i < mid - lo :: s[lo..mid][i] == s[lo..hi][i];
    assert forall i | 0 <= i < hi - mid :: s[mid..hi][i] == s[lo..hi][i + mid - lo];
  }
}
