/**
In-place quicksort with an explicit stack (`include/lstd/qsort.h`, lines 103-197).
Addresses are element indices; a frame's bounds are both inclusive.
 */
module QuickSort {
  import opened Powers

  type Comparison<!T> = (T, T) -> int

  /** What the sort needs of its comparison: "not greater" is total and transitive. */
  ghost predicate TotalPreorder<T(!new)>(cmp: Comparison<T>) {
    && (forall x, y :: cmp(x, y) <= 0 || cmp(y, x) <= 0)
    && (forall x, y, z :: cmp(x, y) <= 0 && cmp(y, z) <= 0 ==> cmp(x, z) <= 0)
  }

  lemma Total<T(!new)>(cmp: Comparison<T>, x: T, y: T)
    requires TotalPreorder(cmp)
    ensures cmp(x, y) <= 0 || cmp(y, x) <= 0
  {
  }

  lemma Transitive<T(!new)>(cmp: Comparison<T>, x: T, y: T, z: T)
    requires TotalPreorder(cmp) && cmp(x, y) <= 0 && cmp(y, z) <= 0
    ensures cmp(x, z) <= 0
  {
  }

  /** Elements lo..hi (exclusive) are in order. */
  ghost predicate Sorted<T>(s: seq<T>, lo: int, hi: int, cmp: Comparison<T>)
    requires 0 <= lo && hi <= |s|
  {
    forall i, j :: lo <= i < j < hi ==> cmp(s[i], s[j]) <= 0
  }

  /** `t` is `s` with the elements lo..hi (exclusive) rearranged. */
  ghost predicate Rearranged<T>(s: seq<T>, t: seq<T>, lo: int, hi: int) {
    && 0 <= lo <= hi <= |s| == |t|
    && s[..lo] == t[..lo] && s[hi..] == t[hi..]
    && multiset(s[lo..hi]) == multiset(t[lo..hi])
  }

  lemma RearrangedTrans<T>(s: seq<T>, t: seq<T>, u: seq<T>, lo: int, hi: int)
    requires Rearranged(s, t, lo, hi) && Rearranged(t, u, lo, hi)
    ensures Rearranged(s, u, lo, hi)
  {
  }

  /** A rearrangement of a part is one of the whole. */
  lemma RearrangedWider<T>(s: seq<T>, t: seq<T>, lo: int, hi: int, wlo: int, whi: int)
    requires Rearranged(s, t, lo, hi) && 0 <= wlo <= lo && hi <= whi <= |s|
    ensures Rearranged(s, t, wlo, whi)
  {
    assert s[wlo..whi] == s[..lo][wlo..] + s[lo..hi] + s[hi..][..whi - hi];
    assert t[wlo..whi] == t[..lo][wlo..] + t[lo..hi] + t[hi..][..whi - hi];
    assert s[..wlo] == s[..lo][..wlo] == t[..wlo];
    assert s[whi..] == s[hi..][whi - hi..] == t[whi..];
  }

  /** Every element of a rearranged stretch was in it before. */
  lemma RearrangedElement<T>(s: seq<T>, t: seq<T>, lo: int, hi: int, j: int) returns (i: int)
    requires Rearranged(s, t, lo, hi) && lo <= j < hi
    ensures lo <= i < hi && s[i] == t[j]
  {
    assert t[lo..hi][j - lo] in multiset(t[lo..hi]);
    assert t[j] in s[lo..hi];
    var k :| 0 <= k < hi - lo && s[lo..hi][k] == t[j];
    i := lo + k;
  }

  lemma RearrangedOutside<T>(s: seq<T>, t: seq<T>, lo: int, hi: int, j: int)
    requires Rearranged(s, t, lo, hi) && 0 <= j < |s| && !(lo <= j < hi)
    ensures t[j] == s[j]
  {
    if j < lo { assert s[..lo][j] == t[..lo][j]; } else { assert s[hi..][j - hi] == t[hi..][j - hi]; }
  }

  ghost function Swapped<T>(s: seq<T>, i: int, j: int): seq<T>
    requires 0 <= i < |s| && 0 <= j < |s|
  {
    s[i := s[j]][j := s[i]]
  }

  method Swap<T>(a: array<T>, i: int, j: int, ghost lo: int, ghost hi: int)
    requires 0 <= lo <= i < hi <= a.Length && lo <= j < hi
    modifies a
    ensures a[..] == Swapped(old(a[..]), i, j)
    ensures a[i] == old(a[j]) && a[j] == old(a[i])
    ensures forall k :: 0 <= k < a.Length && k != i && k != j ==> a[k] == old(a[k])
    ensures Rearranged(old(a[..]), a[..], lo, hi)
  {
    ghost var s := a[..];
    a[i], a[j] := a[j], a[i];
    SwappedRearranged(s, i, j, lo, hi);
  }

  lemma SwappedRearranged<T>(s: seq<T>, i: int, j: int, lo: int, hi: int)
    requires 0 <= lo <= i < hi <= |s| && lo <= j < hi
    ensures Rearranged(s, Swapped(s, i, j), lo, hi)
  {
    var w := s[lo..hi];
    assert Swapped(s, i, j)[lo..hi] == w[i - lo := w[j - lo]][j - lo := w[i - lo]];
  }

  /** What partitioning establishes around the pivot's final place. */
  ghost predicate Partitioned<T>(s: seq<T>, left: int, store: int, right: int, cmp: Comparison<T>)
    requires 0 <= left <= store <= right < |s|
  {
    && (forall k :: left <= k < store ==> cmp(s[k], s[store]) <= 0)
    && (forall k :: store < k <= right ==> cmp(s[store], s[k]) <= 0)
  }

  /** Partitioning under way: elements before `store` are not greater than the pivot at the end. */
  ghost predicate Divided<T>(s: seq<T>, left: int, store: int, index: int, right: int, cmp: Comparison<T>)
    requires 0 <= left <= store <= index <= right < |s|
  {
    && (forall k :: left <= k < store ==> cmp(s[k], s[right]) <= 0)
    && (forall k :: store <= k < index ==> cmp(s[right], s[k]) <= 0)
  }

  lemma DividedStart<T>(s: seq<T>, left: int, right: int, cmp: Comparison<T>)
    requires 0 <= left <= right < |s|
    ensures Divided(s, left, left, left, right, cmp)
  {
  }

  lemma DividedSkip<T>(s: seq<T>, left: int, store: int, index: int, right: int, cmp: Comparison<T>)
    requires 0 <= left <= store <= index < right < |s| && Divided(s, left, store, index, right, cmp)
    requires cmp(s[right], s[index]) <= 0
    ensures Divided(s, left, store, index + 1, right, cmp)
  {
  }

  lemma DividedSwap<T>(s: seq<T>, left: int, store: int, index: int, right: int, cmp: Comparison<T>)
    requires 0 <= left <= store <= index < right < |s| && Divided(s, left, store, index, right, cmp)
    requires cmp(s[index], s[right]) <= 0
    ensures Divided(Swapped(s, index, store), left, store + 1, index + 1, right, cmp)
  {
  }

  lemma DividedDone<T>(s: seq<T>, left: int, store: int, right: int, cmp: Comparison<T>)
    requires 0 <= left <= store <= right < |s| && Divided(s, left, store, right, right, cmp)
    requires cmp(s[right], s[right]) <= 0
    ensures Partitioned(Swapped(s, right, store), left, store, right, cmp)
  {
  }

  /** The loop of the partition: smaller elements are swapped to the front. */
  method DivideLoop<T(!new)>(a: array<T>, left: int, right: int, cmp: Comparison<T>) returns (store: int)
    requires 0 <= left <= right < a.Length && TotalPreorder(cmp)
    modifies a
    ensures left <= store <= right
    ensures Rearranged(old(a[..]), a[..], left, right + 1)
    ensures Divided(a[..], left, store, right, right, cmp)
    ensures a[right] == old(a[right])
  {
    hide Rearranged, TotalPreorder, Divided, Swapped;
    ghost var s := a[..];
    RearrangedSelf(s, left, right + 1);
    store := left;
    var index := left;
    DividedStart(a[..], left, right, cmp);
    while index < right
      invariant left <= store <= index <= right
      invariant Rearranged(s, a[..], left, right + 1)
      invariant Divided(a[..], left, store, index, right, cmp)
      invariant a[right] == old(a[right])
    {
      ghost var t := a[..];
      if cmp(a[right], a[index]) > 0 {
        Total(cmp, t[right], t[index]);
        DividedSwap(t, left, store, index, right, cmp);
        Swap(a, index, store, left, right + 1);
        RearrangedTrans(s, t, a[..], left, right + 1);
        store := store + 1;
      } else {
        DividedSkip(t, left, store, index, right, cmp);
      }
      index := index + 1;
    }
  }

  /** The middle element becomes the pivot; smaller ones are swapped to the front. */
  method Partition<T(!new)>(a: array<T>, left: int, right: int, cmp: Comparison<T>) returns (store: int)
    requires 0 <= left <= right < a.Length && TotalPreorder(cmp)
    modifies a
    ensures left <= store <= right
    ensures Rearranged(old(a[..]), a[..], left, right + 1)
    ensures Partitioned(a[..], left, store, right, cmp)
    ensures a[store] == old(a[left + (right - left) / 2])
  {
    hide Rearranged, TotalPreorder, Divided, Partitioned, Swapped;
    ghost var s := a[..];
    var middle := left + (right - left) / 2;
    assert left <= middle <= right;
    ghost var pivot := a[middle];
    Swap(a, middle, right, left, right + 1);
    ghost var m := a[..];
    store := DivideLoop(a, left, right, cmp);
    ghost var t := a[..];
    RearrangedTrans(s, m, t, left, right + 1);
    Total(cmp, t[right], t[right]);
    DividedDone(t, left, store, right, cmp);
    assert t[right] == pivot;
    Swap(a, right, store, left, right + 1);
    assert a[store] == pivot;
    RearrangedTrans(s, t, a[..], left, right + 1);
  }

  /** All pairs of elements lo..index (inclusive) are in order, except those ending at `hole`. */
  ghost predicate SortedBut<T>(s: seq<T>, lo: int, index: int, hole: int, cmp: Comparison<T>)
    requires 0 <= lo && index < |s|
  {
    forall i, j :: lo <= i < j <= index && j != hole ==> cmp(s[i], s[j]) <= 0
  }

  /** The inner loop of the insertion sort: the element at `index` sinks to its place. */
  method InsertLast<T(!new)>(a: array<T>, lo: int, index: int, cmp: Comparison<T>, ghost hi: int)
    requires 0 <= lo < index < hi <= a.Length && TotalPreorder(cmp)
    requires Sorted(a[..], lo, index, cmp)
    modifies a
    ensures Rearranged(old(a[..]), a[..], lo, hi)
    ensures Sorted(a[..], lo, index + 1, cmp)
  {
    hide Rearranged, TotalPreorder, SortedBut, Swapped;
    ghost var s := a[..];
    RearrangedSelf(s, lo, hi);
    var trail := index - 1;
    assert SortedBut(a[..], lo, index, index, cmp) by { AllButLast(s, lo, index, cmp); }
    while trail >= lo && cmp(a[trail], a[trail + 1]) > 0
      invariant lo - 1 <= trail < index
      invariant Rearranged(s, a[..], lo, hi)
      invariant SortedBut(a[..], lo, index, trail + 1, cmp)
    {
      ghost var t := a[..];
      Total(cmp, t[trail], t[trail + 1]);
      SinkOnce(t, lo, index, trail, cmp);
      Swap(a, trail, trail + 1, lo, hi);
      RearrangedTrans(s, t, a[..], lo, hi);
      trail := trail - 1;
    }
    SinkDone(a[..], lo, index, trail, cmp);
  }

  lemma AllButLast<T>(s: seq<T>, lo: int, index: int, cmp: Comparison<T>)
    requires 0 <= lo < index < |s| && Sorted(s, lo, index, cmp)
    ensures SortedBut(s, lo, index, index, cmp)
  {
  }

  lemma SinkOnce<T>(s: seq<T>, lo: int, index: int, trail: int, cmp: Comparison<T>)
    requires 0 <= lo <= trail < index < |s| && SortedBut(s, lo, index, trail + 1, cmp)
    requires cmp(s[trail + 1], s[trail]) <= 0
    ensures SortedBut(Swapped(s, trail, trail + 1), lo, index, trail, cmp)
  {
  }

  lemma SinkDone<T(!new)>(s: seq<T>, lo: int, index: int, trail: int, cmp: Comparison<T>)
    requires 0 <= lo && lo - 1 <= trail < index < |s| && SortedBut(s, lo, index, trail + 1, cmp)
    requires TotalPreorder(cmp)
    requires trail >= lo ==> cmp(s[trail], s[trail + 1]) <= 0
    ensures Sorted(s, lo, index + 1, cmp)
  {
    hide TotalPreorder;
    forall i, j | lo <= i < j < index + 1 ensures cmp(s[i], s[j]) <= 0 {
      if j == trail + 1 && i < trail { Transitive(cmp, s[i], s[trail], s[j]); }
    }
  }

  lemma SortedShort<T>(s: seq<T>, lo: int, hi: int, cmp: Comparison<T>)
    requires 0 <= lo <= hi <= |s|
    ensures Sorted(s, lo, if lo + 1 < hi then lo + 1 else hi, cmp)
  {
  }

  /** The insertion-sort tail for the elements lo..hi (exclusive). */
  method InsertionSort<T(!new)>(a: array<T>, lo: int, hi: int, cmp: Comparison<T>)
    requires 0 <= lo <= hi <= a.Length && TotalPreorder(cmp)
    modifies a
    ensures Rearranged(old(a[..]), a[..], lo, hi)
    ensures Sorted(a[..], lo, hi, cmp)
  {
    hide Rearranged, TotalPreorder, Sorted;
    ghost var s := a[..];
    RearrangedSelf(s, lo, hi);
    var index := lo + 1;
    SortedShort(s, lo, hi, cmp);
    while index < hi
      invariant lo < index && (index <= hi || hi <= lo)
      invariant Rearranged(s, a[..], lo, hi)
      invariant Sorted(a[..], lo, if index < hi then index else hi, cmp)
    {
      ghost var t := a[..];
      InsertLast(a, lo, index, cmp, hi);
      RearrangedTrans(s, t, a[..], lo, hi);
      index := index + 1;
    }
  }

  lemma RearrangedSelf<T>(s: seq<T>, lo: int, hi: int)
    requires 0 <= lo <= hi <= |s|
    ensures Rearranged(s, s, lo, hi)
  {
  }

  // The main loop

  datatype Frame = Frame(Left: int, Right: int)

  /** Both positions belong to one pending frame. */
  ghost predicate SameFrame(frames: seq<Frame>, i: int, j: int) {
    exists k :: 0 <= k < |frames| && frames[k].Left <= i && j <= frames[k].Right
  }

  /** Any two elements out of order are still together in a pending frame. */
  ghost predicate Pending<T>(s: seq<T>, frames: seq<Frame>, cmp: Comparison<T>) {
    forall i, j :: 0 <= i < j < |s| ==> SameFrame(frames, i, j) || cmp(s[i], s[j]) <= 0
  }

  /** Frames lie inside the array and do not meet. */
  ghost predicate Apart(frames: seq<Frame>, n: int) {
    && (forall k :: 0 <= k < |frames| ==> 0 <= frames[k].Left <= frames[k].Right < n)
    && (forall k, m :: 0 <= k < |frames| && 0 <= m < |frames| && k != m ==>
         frames[k].Right < frames[m].Left || frames[m].Right < frames[k].Left)
  }

  /** The frame at depth d spans at most n / 2^d elements. */
  ghost predicate Halving(frames: seq<Frame>, n: int) {
    forall d :: 0 <= d < |frames| ==> (frames[d].Right - frames[d].Left + 1) * Pow(2, d) <= n
  }

  /** The elements still pending. */
  ghost function PendingSize(frames: seq<Frame>): int {
    if |frames| == 0 then 0
    else PendingSize(frames[..|frames| - 1]) + frames[|frames| - 1].Right - frames[|frames| - 1].Left + 1
  }

  /** Rearranging inside the top frame keeps everything outside in order. */
  lemma PendingRearranged<T>(s: seq<T>, t: seq<T>, rest: seq<Frame>, f: Frame, cmp: Comparison<T>)
    requires Apart(rest + [f], |s|) && Pending(s, rest + [f], cmp)
    requires Rearranged(s, t, f.Left, f.Right + 1)
    ensures Pending(t, rest + [f], cmp)
  {
    hide Rearranged, SameFrame;
    var frames := rest + [f];
    assert frames[|rest|] == f;
    forall i, j | 0 <= i < j < |t| ensures SameFrame(frames, i, j) || cmp(t[i], t[j]) <= 0 {
      RearrangedSizes(s, t, f.Left, f.Right + 1);
      var i', j' := i, j;
      if f.Left <= i <= f.Right {
        i' := RearrangedElement(s, t, f.Left, f.Right + 1, i);
      } else {
        RearrangedOutside(s, t, f.Left, f.Right + 1, i);
      }
      if f.Left <= j <= f.Right {
        j' := RearrangedElement(s, t, f.Left, f.Right + 1, j);
      } else {
        RearrangedOutside(s, t, f.Left, f.Right + 1, j);
      }
      MovedTogether(rest, f, |s|, i, j, i', j');
    }
  }

  lemma RearrangedSizes<T>(s: seq<T>, t: seq<T>, lo: int, hi: int)
    requires Rearranged(s, t, lo, hi)
    ensures |s| == |t|
  {
  }

  /** Moving positions within the top frame does not change which frame a pair shares. */
  lemma MovedTogether(rest: seq<Frame>, f: Frame, n: int, i: int, j: int, i': int, j': int)
    requires Apart(rest + [f], n) && i < j
    requires if f.Left <= i <= f.Right then f.Left <= i' <= f.Right else i' == i
    requires if f.Left <= j <= f.Right then f.Left <= j' <= f.Right else j' == j
    ensures SameFrame(rest + [f], i, j) || (i' < j' && !SameFrame(rest + [f], i', j'))
  {
    var frames := rest + [f];
    assert frames[|rest|] == f;
    if f.Left <= i && j <= f.Right {
      assert SameFrame(frames, i, j);
    } else if SameFrame(frames, i', j') {
      var k :| 0 <= k < |frames| && frames[k].Left <= i' && j' <= frames[k].Right;
      assert frames[k].Left <= i && j <= frames[k].Right;
    }
  }

  function Size(f: Frame): int {
    f.Right - f.Left + 1
  }

  /** The frames pushed for a side: none if the insertion sort has dealt with it. */
  function Pushed(side: Frame): seq<Frame> {
    if Size(side) > 4 then [side] else []
  }

  /** `f` without its pivot is the two sides, in either order. */
  ghost predicate Sides(f: Frame, store: int, big: Frame, small: Frame) {
    && f.Left <= store <= f.Right && Size(small) <= Size(big)
    && ((big == Frame(f.Left, store - 1) && small == Frame(store + 1, f.Right))
        || (small == Frame(f.Left, store - 1) && big == Frame(store + 1, f.Right)))
  }

  lemma FramesApart(rest: seq<Frame>, f: Frame, store: int, big: Frame, small: Frame, n: int)
    requires Apart(rest + [f], n) && Sides(f, store, big, small)
    ensures Apart(rest + Pushed(big) + Pushed(small), n)
  {
    var frames, next := rest + [f], rest + Pushed(big) + Pushed(small);
    assert frames[|rest|] == f && forall k :: 0 <= k < |rest| ==> frames[k] == rest[k];
    forall k, m | 0 <= k < |next| && 0 <= m < |next| && k != m
      ensures next[k].Right < next[m].Left || next[m].Right < next[k].Left
    {
      if k < |rest| { assert frames[k] == next[k]; }
      if m < |rest| { assert frames[m] == next[m]; }
    }
  }

  /** The smaller side is at most half of the frame, so it may go one level deeper. */
  lemma FramesHalve(rest: seq<Frame>, f: Frame, store: int, big: Frame, small: Frame, n: int)
    requires Halving(rest + [f], n) && Sides(f, store, big, small)
    ensures Halving(rest + Pushed(big) + Pushed(small), n)
  {
    hide Pow;
    var frames, next, d0 := rest + [f], rest + Pushed(big) + Pushed(small), |rest|;
    assert frames[d0] == f;
    forall d | 0 <= d < |next| ensures Size(next[d]) * Pow(2, d) <= n {
      PowAdd(2, d0, 1);
      Pow2Half(d0);
      if d < d0 {
        assert frames[d] == next[d];
      } else if d == d0 {
        MulMono(Size(next[d]), Size(f), Pow(2, d0));
      } else {
        assert d == d0 + 1 && next[d] == small;
        MulMono(2 * Size(small), Size(f), Pow(2, d0));
        MulAssoc(2, Size(small), Pow(2, d0));
        MulSwap(2, Size(small), Pow(2, d0));
      }
    }
  }

  lemma Pow2Half(d: nat)
    ensures Pow(2, d + 1) == 2 * Pow(2, d) && Pow(2, d) >= 1
  {
  }

  lemma FramesShrink(rest: seq<Frame>, f: Frame, store: int, big: Frame, small: Frame)
    requires Sides(f, store, big, small)
    ensures PendingSize(rest + Pushed(big) + Pushed(small)) < PendingSize(rest + [f])
  {
    PendingPush(rest, f);
    var one := rest + Pushed(big);
    if Size(big) > 4 { PendingPush(rest, big); } else { assert one == rest; }
    if Size(small) > 4 { PendingPush(one, small); } else { assert one + Pushed(small) == one; }
  }

  lemma PendingPush(frames: seq<Frame>, f: Frame)
    ensures PendingSize(frames + [f]) == PendingSize(frames) + Size(f)
  {
    assert (frames + [f])[..|frames|] == frames;
  }

  /** A frame of depth d that is worth pushing keeps d below the size of the stack. */
  lemma DepthFits(size: int, d: nat, n: int)
    requires size >= 1 && size * Pow(2, d) <= n < 0x8000_0000_0000_0000
    ensures d < 63
  {
    hide Pow;
    MulMono(1, size, Pow(2, d));
    if d >= 63 {
      PowMonotone(2, 63, d);
      Pow2Half(63);
      Pow2Word();
    }
  }

  /** Once both sides are sorted or pushed, only their own elements are still pending. */
  lemma PendingSplit<T(!new)>(s: seq<T>, rest: seq<Frame>, f: Frame, store: int, big: Frame, small: Frame,
                              cmp: Comparison<T>)
    requires Apart(rest + [f], |s|) && Pending(s, rest + [f], cmp) && Sides(f, store, big, small)
    requires 0 <= f.Left <= f.Right < |s| && TotalPreorder(cmp)
    requires Partitioned(s, f.Left, store, f.Right, cmp)
    requires Size(big) <= 4 ==> Sorted(s, big.Left, big.Right + 1, cmp)
    requires Size(small) <= 4 ==> Sorted(s, small.Left, small.Right + 1, cmp)
    ensures Pending(s, rest + Pushed(big) + Pushed(small), cmp)
  {
    hide TotalPreorder, SameFrame, Apart, Partitioned, Sides;
    var frames, next := rest + [f], rest + Pushed(big) + Pushed(small);
    forall i, j | 0 <= i < j < |s| ensures SameFrame(next, i, j) || cmp(s[i], s[j]) <= 0 {
      if cmp(s[i], s[j]) > 0 {
        assert SameFrame(frames, i, j);
        StillTogether(s, rest, f, store, big, small, cmp, i, j);
      }
    }
  }

  /** Two elements out of order are on the same side, and that side has been pushed. */
  lemma StillTogether<T(!new)>(s: seq<T>, rest: seq<Frame>, f: Frame, store: int, big: Frame, small: Frame,
                               cmp: Comparison<T>, i: int, j: int)
    requires Sides(f, store, big, small) && 0 <= f.Left <= f.Right < |s| && TotalPreorder(cmp)
    requires Partitioned(s, f.Left, store, f.Right, cmp)
    requires Size(big) <= 4 ==> Sorted(s, big.Left, big.Right + 1, cmp)
    requires Size(small) <= 4 ==> Sorted(s, small.Left, small.Right + 1, cmp)
    requires 0 <= i < j < |s| && SameFrame(rest + [f], i, j) && cmp(s[i], s[j]) > 0
    ensures SameFrame(rest + Pushed(big) + Pushed(small), i, j)
  {
    hide TotalPreorder;
    var frames, next := rest + [f], rest + Pushed(big) + Pushed(small);
    var k :| 0 <= k < |frames| && frames[k].Left <= i && j <= frames[k].Right;
    if k < |rest| {
      assert next[k] == frames[k];
    } else {
      if i < store < j { Transitive(cmp, s[i], s[store], s[j]); }
      if big.Left <= i && j <= big.Right {
        assert next[|rest|] == big;
      } else {
        assert small.Left <= i && j <= small.Right;
        assert next[|next| - 1] == small;
      }
    }
  }

  /** Sorting one side keeps the partition. */
  lemma PartitionedKept<T>(s: seq<T>, t: seq<T>, left: int, store: int, right: int, lo: int, hi: int,
                           cmp: Comparison<T>)
    requires 0 <= left <= store <= right < |s| && Partitioned(s, left, store, right, cmp)
    requires |s| == |t| && Rearranged(s, t, lo, hi)
    requires (left <= lo && hi <= store) || (store < lo && hi <= right + 1)
    ensures Partitioned(t, left, store, right, cmp)
  {
    hide Rearranged;
    forall k | left <= k <= right ensures k < store ==> cmp(t[k], t[store]) <= 0
      ensures store < k ==> cmp(t[store], t[k]) <= 0
    {
      if !(lo <= store < hi) { RearrangedOutside(s, t, lo, hi, store); }
      if lo <= k < hi {
        var i := RearrangedElement(s, t, lo, hi, k);
      } else {
        RearrangedOutside(s, t, lo, hi, k);
      }
    }
  }

  /** `SORT_LEFT` and `SORT_RIGHT`: a short side is sorted at once, a longer one is pushed. */
  method SortSide<T(!new)>(a: array<T>, stack: array<Frame>, rec: int, side: Frame, cmp: Comparison<T>)
      returns (top: int)
    requires (a as object) != stack && stack.Length == 64 && -1 <= rec < 64 && TotalPreorder(cmp)
    requires 0 <= side.Left <= side.Right + 1 <= a.Length
    requires Size(side) > 4 ==> rec + 1 < 64
    modifies a, stack
    ensures -1 <= top < 64 && stack[..top + 1] == old(stack[..rec + 1]) + Pushed(side)
    ensures Rearranged(old(a[..]), a[..], side.Left, side.Right + 1)
    ensures Size(side) <= 4 ==> Sorted(a[..], side.Left, side.Right + 1, cmp)
    ensures Size(side) > 4 ==> a[..] == old(a[..])
  {
    hide Rearranged, TotalPreorder, Sorted;
    top := rec;
    if Size(side) <= 4 {
      InsertionSort(a, side.Left, side.Right + 1, cmp);
    } else {
      RearrangedSelf(a[..], side.Left, side.Right + 1);
      if side.Left < side.Right {
        top := rec + 1;
        stack[top] := side;
      }
    }
  }

  /** Everything the loop keeps: what is pending, and that the stack cannot overflow. */
  ghost predicate LoopInvariant<T(!new)>(s: seq<T>, frames: seq<Frame>, cmp: Comparison<T>) {
    Apart(frames, |s|) && Pending(s, frames, cmp) && Halving(frames, |s|)
  }

  /** Sorting the larger side first and the smaller one after it keeps the invariant. */
  lemma InvariantKept<T(!new)>(s: seq<T>, m: seq<T>, t: seq<T>, u: seq<T>, rest: seq<Frame>, f: Frame, store: int,
                               big: Frame, small: Frame, cmp: Comparison<T>)
    requires LoopInvariant(s, rest + [f], cmp) && TotalPreorder(cmp) && Sides(f, store, big, small)
    requires 0 <= f.Left <= f.Right < |m| == |t| == |u| == |s|
    requires Rearranged(s, m, f.Left, f.Right + 1) && Partitioned(m, f.Left, store, f.Right, cmp)
    requires Rearranged(m, t, big.Left, big.Right + 1) && Rearranged(t, u, small.Left, small.Right + 1)
    requires Size(big) <= 4 ==> Sorted(t, big.Left, big.Right + 1, cmp)
    requires Size(small) <= 4 ==> Sorted(u, small.Left, small.Right + 1, cmp)
    ensures LoopInvariant(u, rest + Pushed(big) + Pushed(small), cmp)
    ensures Rearranged(s, u, f.Left, f.Right + 1)
    ensures PendingSize(rest + Pushed(big) + Pushed(small)) < PendingSize(rest + [f])
  {
    hide Rearranged, TotalPreorder, Sorted, Partitioned, Pending, Halving, Apart, PendingSize;
    SidesDone(m, t, u, f, store, big.Left, big.Right + 1, small.Left, small.Right + 1, cmp);
    RearrangedTrans(s, m, u, f.Left, f.Right + 1);
    PendingRearranged(s, u, rest, f, cmp);
    PendingSplit(u, rest, f, store, big, small, cmp);
    FramesApart(rest, f, store, big, small, |s|);
    FramesHalve(rest, f, store, big, small, |s|);
    FramesShrink(rest, f, store, big, small);
  }

  /** Elements lo..hi (exclusive) lie on one side of the pivot. */
  ghost predicate OnOneSide(f: Frame, store: int, lo: int, hi: int) {
    lo <= hi && ((f.Left <= lo && hi <= store) || (store < lo && hi <= f.Right + 1))
  }

  /** After both sides have been dealt with the partition still holds, and so does the first sort. */
  lemma SidesDone<T>(m: seq<T>, t: seq<T>, u: seq<T>, f: Frame, store: int,
                     blo: int, bhi: int, slo: int, shi: int, cmp: Comparison<T>)
    requires 0 <= f.Left <= store <= f.Right < |m| == |t| == |u|
    requires OnOneSide(f, store, blo, bhi) && OnOneSide(f, store, slo, shi) && (bhi <= slo || shi <= blo)
    requires Partitioned(m, f.Left, store, f.Right, cmp)
    requires Rearranged(m, t, blo, bhi) && Rearranged(t, u, slo, shi)
    ensures Partitioned(u, f.Left, store, f.Right, cmp) && Rearranged(m, u, f.Left, f.Right + 1)
    ensures Sorted(t, blo, bhi, cmp) ==> Sorted(u, blo, bhi, cmp)
  {
    hide Rearranged, Sorted, Partitioned;
    PartitionedKept(m, t, f.Left, store, f.Right, blo, bhi, cmp);
    PartitionedKept(t, u, f.Left, store, f.Right, slo, shi, cmp);
    RearrangedWider(m, t, blo, bhi, f.Left, f.Right + 1);
    RearrangedWider(t, u, slo, shi, f.Left, f.Right + 1);
    RearrangedTrans(m, t, u, f.Left, f.Right + 1);
    if Sorted(t, blo, bhi, cmp) { SortedKept(t, u, blo, bhi, slo, shi, cmp); }
  }

  lemma SortedKept<T>(s: seq<T>, t: seq<T>, lo: int, hi: int, xlo: int, xhi: int, cmp: Comparison<T>)
    requires |s| == |t| && 0 <= lo && hi <= |s| && Rearranged(s, t, xlo, xhi) && (hi <= xlo || xhi <= lo)
    requires Sorted(s, lo, hi, cmp)
    ensures Sorted(t, lo, hi, cmp)
  {
    hide Rearranged;
    forall i | lo <= i < hi ensures t[i] == s[i] { RearrangedOutside(s, t, xlo, xhi, i); }
  }

  /** One turn of the main loop: the top frame is partitioned, its sides sorted or pushed. */
  method SortFrame<T(!new)>(a: array<T>, stack: array<Frame>, rec: int, cmp: Comparison<T>) returns (top: int)
    requires (a as object) != stack && stack.Length == 64 && 0 <= rec < 64
    requires TotalPreorder(cmp) && a.Length < 0x8000_0000_0000_0000
    requires LoopInvariant(a[..], stack[..rec + 1], cmp)
    modifies a, stack
    ensures -1 <= top < 64 && LoopInvariant(a[..], stack[..top + 1], cmp)
    ensures Rearranged(old(a[..]), a[..], 0, a.Length)
    ensures PendingSize(stack[..top + 1]) < PendingSize(old(stack[..rec + 1]))
  {
    hide Rearranged, TotalPreorder, Sorted, Partitioned, LoopInvariant, PendingSize;
    ghost var s, rest := a[..], stack[..rec];
    var f := stack[rec];
    assert stack[..rec + 1] == rest + [f];
    TopFrame(s, rest, f, cmp);
    var store := Partition(a, f.Left, f.Right, cmp);
    ghost var m := a[..];
    var left, right := Frame(f.Left, store - 1), Frame(store + 1, f.Right);
    var big, small := left, right;
    if Size(left) < Size(right) { big, small := right, left; }
    SmallFits(rest, f, small, a.Length);
    top := SortSide(a, stack, rec - 1, big, cmp);
    ghost var t := a[..];
    top := SortSide(a, stack, top, small, cmp);
    InvariantKept(s, m, t, a[..], rest, f, store, big, small, cmp);
    RearrangedWider(s, a[..], f.Left, f.Right + 1, 0, a.Length);
  }

  lemma TopFrame<T(!new)>(s: seq<T>, rest: seq<Frame>, f: Frame, cmp: Comparison<T>)
    requires LoopInvariant(s, rest + [f], cmp)
    ensures 0 <= f.Left <= f.Right < |s| && Size(f) * Pow(2, |rest|) <= |s|
  {
    assert (rest + [f])[|rest|] == f;
  }

  lemma SmallFits(rest: seq<Frame>, f: Frame, small: Frame, n: int)
    requires Size(f) * Pow(2, |rest|) <= n < 0x8000_0000_0000_0000
    requires Size(f) >= 1 && 2 * Size(small) <= Size(f)
    ensures Size(small) > 4 ==> |rest| + 1 < 63
  {
    hide Pow;
    if Size(small) > 4 {
      Pow2Half(|rest|);
      MulMono(2 * Size(small), Size(f), Pow(2, |rest|));
      MulAssoc(2, Size(small), Pow(2, |rest|));
      MulSwap(2, Size(small), Pow(2, |rest|));
      DepthFits(Size(small), |rest| + 1, n);
    }
  }

  /**
  `quick_sort`: a sorted rearrangement of any array that is not empty, for any
  comparison that is a total preorder; 64 stack frames are always enough.
   */
  method QuickSort<T(!new)>(a: array<T>, cmp: Comparison<T>)
    requires 1 <= a.Length < 0x8000_0000_0000_0000 && TotalPreorder(cmp)
    modifies a
    ensures multiset(a[..]) == multiset(old(a[..]))
    ensures forall i, j :: 0 <= i < j < a.Length ==> cmp(a[i], a[j]) <= 0
  {
    hide Rearranged, TotalPreorder, LoopInvariant, PendingSize;
    ghost var s := a[..];
    RearrangedSelf(s, 0, a.Length);
    var stack := new Frame[64](_ => Frame(0, 0));
    var rec := 0;
    stack[0] := Frame(0, a.Length - 1);
    assert stack[..1] == [Frame(0, a.Length - 1)];
    InvariantStart(s, cmp);
    while rec >= 0
      invariant -1 <= rec < 64 && stack.Length == 64 && fresh(stack)
      invariant LoopInvariant(a[..], stack[..rec + 1], cmp)
      invariant Rearranged(s, a[..], 0, a.Length)
      decreases if rec >= 0 then PendingSize(stack[..rec + 1]) else -1
    {
      ghost var t := a[..];
      PendingPositive(t, stack[..rec + 1], cmp);
      rec := SortFrame(a, stack, rec, cmp);
      RearrangedTrans(s, t, a[..], 0, a.Length);
      PendingPositive(a[..], stack[..rec + 1], cmp);
    }
    assert stack[..rec + 1] == [];
    AllSorted(s, a[..], cmp);
  }

  lemma InvariantStart<T(!new)>(s: seq<T>, cmp: Comparison<T>)
    requires |s| >= 1
    ensures LoopInvariant(s, [Frame(0, |s| - 1)], cmp)
  {
    var frames := [Frame(0, |s| - 1)];
    forall i, j | 0 <= i < j < |s| ensures SameFrame(frames, i, j) {
      assert frames[0].Left <= i && j <= frames[0].Right;
    }
  }

  lemma {:induction false} PendingPositive<T(!new)>(s: seq<T>, frames: seq<Frame>, cmp: Comparison<T>)
    requires LoopInvariant(s, frames, cmp)
    ensures PendingSize(frames) >= 0
  {
    FrameSizes(frames, |s|);
  }

  lemma {:induction false} FrameSizes(frames: seq<Frame>, n: int)
    requires Apart(frames, n)
    ensures PendingSize(frames) >= 0
  {
    if |frames| > 0 { FrameSizes(frames[..|frames| - 1], n); }
  }

  lemma AllSorted<T(!new)>(s: seq<T>, t: seq<T>, cmp: Comparison<T>)
    requires LoopInvariant(t, [], cmp) && Rearranged(s, t, 0, |s|)
    ensures forall i, j :: 0 <= i < j < |t| ==> cmp(t[i], t[j]) <= 0
    ensures multiset(s) == multiset(t)
  {
    assert s[0..|s|] == s && t[0..|s|] == t;
    forall i, j | 0 <= i < j < |t| ensures cmp(t[i], t[j]) <= 0 {
      assert !SameFrame([], i, j);
    }
  }
}
