/**
Searching a subarray, replacing a range and replacing all occurrences in a dynamic array
(`include/lstd/array_like.h`, lines 337-354 and 436-622). The searched and the replacing
elements are values: they do not alias the array.
 */
module ReplaceAll {
  import opened PowersOfTwo

  predicate MatchAt<T(==)>(s: seq<T>, p: seq<T>, i: int) {
    0 <= i && i + |p| <= |s| && s[i..i + |p|] == p
  }

  /** Leftmost occurrences that do not overlap, each replaced; inserted elements are not searched. */
  function Replaced<T(==)>(s: seq<T>, p: seq<T>, r: seq<T>): seq<T>
    requires |p| > 0
    decreases |s|
  {
    if s == [] then []
    else if MatchAt(s, p, 0) then r + Replaced(s[|p|..], p, r)
    else [s[0]] + Replaced(s[1..], p, r)
  }

  lemma ReplacedUnfold<T>(s: seq<T>, p: seq<T>, r: seq<T>)
    requires |p| > 0
    ensures Replaced([], p, r) == []
    ensures MatchAt(s, p, 0) ==> Replaced(s, p, r) == r + Replaced(s[|p|..], p, r)
    ensures s != [] && !MatchAt(s, p, 0) ==> Replaced(s, p, r) == [s[0]] + Replaced(s[1..], p, r)
  {
  }

  /** Up to the first occurrence, and to the end if there is none, nothing changes. */
  lemma {:induction false} ReplacedFirst<T>(s: seq<T>, p: seq<T>, r: seq<T>, i: nat)
    requires |p| > 0 && i <= |s|
    requires forall j :: 0 <= j < i ==> !MatchAt(s, p, j)
    ensures Replaced(s, p, r) == s[..i] + Replaced(s[i..], p, r)
    ensures MatchAt(s, p, i) ==> Replaced(s, p, r) == s[..i] + r + Replaced(s[i + |p|..], p, r)
    decreases i
  {
    hide Replaced, MatchAt;
    ReplacedUnfold(s, p, r);
    if i > 0 {
      var t := s[1..];
      forall j: nat | j < i - 1 ensures !MatchAt(t, p, j) {
        MatchInRest(s, p, 1, j);
      }
      ReplacedFirst(t, p, r, i - 1);
      assert !MatchAt(s, p, 0);
      assert t[i - 1..] == s[i..];
      assert s[..i] == [s[0]] + t[..i - 1];
    } else {
      assert s[..0] == [] && s[0..] == s;
    }
    var u := s[i..];
    MatchInRest(s, p, i, 0);
    if MatchAt(s, p, i) {
      Reaches(s, p, i);
      ReplacedUnfold(u, p, r);
      assert u[|p|..] == s[i + |p|..];
      assert s[..i] + (r + Replaced(u[|p|..], p, r)) == s[..i] + r + Replaced(u[|p|..], p, r);
    }
  }

  /** What is done and what is left to do make up the result. */
  ghost predicate Under<T>(now: seq<T>, i: nat, p: seq<T>, r: seq<T>, result: seq<T>)
    requires |p| > 0
  {
    i <= |now| && now[..i] + Replaced(now[i..], p, r) == result
  }

  /** The next occurrence is at `i + k`; after replacing it the search goes on behind it. */
  lemma UnderReplaced<T>(now: seq<T>, i: nat, k: nat, p: seq<T>, r: seq<T>, result: seq<T>)
    requires |p| > 0 && Under(now, i, p, r, result) && i + k <= |now|
    requires forall j :: 0 <= j < k ==> !MatchAt(now[i..], p, j)
    ensures Under(now, i + k, p, r, result)
    ensures MatchAt(now[i..], p, k) ==>
      i + k + |p| <= |now|
      && Under(now[..i + k] + r + now[i + k + |p|..], i + k + |r|, p, r, result)
  {
    hide Replaced, MatchAt;
    var rest := now[i..];
    ReplacedFirst(rest, p, r, k);
    assert rest[k..] == now[i + k..] && now[..i] + rest[..k] == now[..i + k];
    if MatchAt(rest, p, k) {
      Reaches(rest, p, k);
      var next := now[..i + k] + r + now[i + k + |p|..];
      assert next[..i + k + |r|] == now[..i + k] + r;
      assert next[i + k + |r|..] == now[i + k + |p|..] == rest[k + |p|..];
    }
  }

  lemma Matches<T>(s: seq<T>, p: seq<T>, i: nat)
    requires i + |p| <= |s| && forall k :: 0 <= k < |p| ==> s[i..][k] == p[k]
    ensures MatchAt(s, p, i)
  {
    var t := s[i..i + |p|];
    assert forall k :: 0 <= k < |p| ==> t[k] == s[i..][k];
    assert t == p;
  }

  lemma Reaches<T>(s: seq<T>, p: seq<T>, k: nat)
    requires MatchAt(s, p, k)
    ensures k + |p| <= |s|
  {
  }

  lemma UnderStart<T>(s: seq<T>, p: seq<T>, r: seq<T>)
    requires |p| > 0
    ensures Under(s, 0, p, r, Replaced(s, p, r))
  {
    assert s[0..] == s;
  }

  lemma UnderEnd<T>(now: seq<T>, p: seq<T>, r: seq<T>, result: seq<T>)
    requires |p| > 0 && Under(now, |now|, p, r, result)
    ensures now == result
  {
  }

  lemma MatchInRest<T>(s: seq<T>, p: seq<T>, i: nat, j: nat)
    requires i <= |s|
    ensures MatchAt(s[i..], p, j) == MatchAt(s, p, i + j)
  {
    if i + j + |p| <= |s| { assert s[i..][j..j + |p|] == s[i + j..i + j + |p|]; }
  }

  /** `translate_negative_index`: negative indices count from the end. */
  function Translated(index: int, count: nat): (r: int)
    ensures index >= 0 ==> r == index
    ensures index < 0 <= count + index ==> 0 <= r < count && count - r == 0 - index
  {
    if index < 0 then count + index else index
  }

  /** Powers of two for small numbers. */
  lemma AtMostEight(n: nat)
    ensures if n <= 8 then CeilPow2(n) <= 8 else CeilPow2(n) > 8
  {
    hide CeilPow2;
    if n <= 8 {
      Pow2OnePowers();
      if CeilPow2(n) > 8 { PowerBetween(8, CeilPow2(n)); }
    }
  }

  class DynamicArray<T(==, 0)> {
    var Data: array<T>
    var Count: nat

    ghost predicate Valid()
      reads this
    {
      Count <= Data.Length
    }

    ghost function Contents(): (s: seq<T>)
      requires Valid()
      reads this, Data
      ensures |s| == Count
    {
      Data[..Count]
    }

    constructor ()
      ensures Valid() && Contents() == [] && fresh(Data)
    {
      Data := new T[0];
      Count := 0;
    }

    /** `maybe_grow` and `reserve`: room for `fit` more elements. */
    method MaybeGrow(fit: nat)
      requires Valid()
      modifies this`Data
      ensures Valid() && Contents() == old(Contents())
      ensures Data.Length >= Count + fit
      ensures if old(Data.Length) >= Count + fit then Data == old(Data) else fresh(Data)
      ensures old(Data.Length) < Count + fit ==>
        var n := Count + fit + 1; if n <= 8 then Data.Length == 8 else IsCeilPow2(Data.Length, n)
    {
      hide CeilPow2;
      if Count + fit <= Data.Length { return; }
      AtMostEight(Count + fit + 1);
      var target := CeilPowerOf2(Count + fit + 1);
      if target < 8 { target := 8; }
      var filler: T := *;
      var old_, n := Data, Count;
      var data := new T[target](i requires 0 <= i reads old_ => if i < n && i < old_.Length then old_[i] else filler);
      assert data[..n] == old_[..n];
      Data := data;
    }

    /** `replace_range`. */
    method ReplaceRange(from: int, to: int, replace: seq<T>)
      requires Valid() && 0 <= Translated(from, Count) < Count
      requires Translated(from, Count) <= Translated(to, Count) <= Count
      modifies this, Data
      ensures Valid()
      ensures Contents() == old(Contents()[..Translated(from, Count)] + replace + Contents()[Translated(to, Count)..])
      ensures Data == old(Data) || fresh(Data)
    {
      ghost var s := Contents();
      var begin: nat, end: nat := Translated(from, Count), Translated(to, Count);
      var whereSize := end - begin;
      var diff := |replace| - whereSize;
      if diff > 0 { MaybeGrow(diff); }
      assert Data[..][..Count] == s;
      PrefixParts(Data[..], Count, begin, end);
      Splice(Data, begin, end, Count, replace);
      Count := Count + diff;
    }

    /** The inner loop of `search_opt`: whether `search` is found at `at`. */
    method FoundAt(search: seq<T>, at: nat) returns (found: bool)
      requires Valid() && |search| > 0 && at <= Count
      ensures found == MatchAt(Contents(), search, at)
    {
      var progress := 0;
      while progress != |search| && at + progress < Count
        invariant progress <= |search| && at + progress <= Count
        invariant forall k :: 0 <= k < progress ==> Contents()[at..][k] == search[k]
      {
        if Data[at + progress] != search[progress] { break; }
        progress := progress + 1;
      }
      found := progress == |search|;
      if found {
        Matches(Contents(), search, at);
      } else if at + |search| <= Count {
        assert Contents()[at..at + |search|][progress] == Data[at + progress];
      }
    }

    /** `search_opt` for a subarray: the first occurrence from `start` on, or, reversed, the last one
        up to `start`; -1 if there is none, or nothing to search or to look for. */
    method Search(search: seq<T>, start: int, reversed: bool) returns (i: int)
      requires Valid() && (Count > 0 && |search| > 0 ==> 0 <= Translated(start, Count) < Count)
      ensures Count == 0 || |search| == 0 ==> i == -1
      ensures i == -1 || (0 <= i < Count && MatchAt(Contents(), search, i))
      ensures Count > 0 && |search| > 0 && !reversed ==>
        var at := Translated(start, Count);
        (i == -1 || at <= i) && forall j :: at <= j < (if i == -1 then Count else i) ==> !MatchAt(Contents(), search, j)
      ensures Count > 0 && |search| > 0 && reversed ==>
        var at := Translated(start, Count);
        i <= at && forall j: nat :: i < j <= at ==> !MatchAt(Contents(), search, j)
    {
      hide MatchAt;
      if Count == 0 || |search| == 0 { return -1; }
      var at: nat := Translated(start, Count);
      if reversed {
        for it := at + 1 downto 0
          invariant forall j :: it <= j <= at ==> !MatchAt(Contents(), search, j)
        {
          var found := FoundAt(search, it);
          if found { return it; }
        }
      } else {
        for it := at to Count
          invariant forall j :: at <= j < it ==> !MatchAt(Contents(), search, j)
        {
          var found := FoundAt(search, it);
          if found { return it; }
        }
      }
      return -1;
    }

    /** The splice branch of `replace_all`. */
    method ReplaceAllBySplicing(search: seq<T>, replace: seq<T>)
      requires Valid() && |search| > 0
      modifies this, Data
      ensures Valid() && Contents() == Replaced(old(Contents()), search, replace)
      ensures Data == old(Data) || fresh(Data)
    {
      hide Replaced, MatchAt, Under;
      ghost var result := Replaced(Contents(), search, replace);
      UnderStart(Contents(), search, replace);
      var i: nat := 0;
      while i < Count
        invariant Valid() && i <= Count && (Data == old(Data) || fresh(Data))
        invariant Under(Contents(), i, search, replace, result)
        decreases Count - i
      {
        var found := Search(search, i, false);
        NextMatch(Contents(), i, if found == -1 then Count - i else found - i, search, replace, result);
        if found == -1 {
          UnderEnd(Contents(), search, replace, result);
          return;
        }
        i := found;
        Reaches(Contents(), search, i);
        ReplaceRange(i, i + |search|, replace);
        i := i + |replace|;
      }
      UnderEnd(Contents(), search, replace, result);
    }

    /** The overwriting branch of `replace_all`, for replacements of the same length. */
    method ReplaceAllInPlace(search: seq<T>, replace: seq<T>)
      requires Valid() && |search| == |replace| > 0
      modifies Data
      ensures Valid() && Contents() == Replaced(old(Contents()), search, replace)
    {
      hide Replaced, MatchAt, Under;
      ghost var result := Replaced(Contents(), search, replace);
      UnderStart(Contents(), search, replace);
      var p := 0;
      while p != Count
        invariant p <= Count && Under(Contents(), p, search, replace, result)
        decreases Count - p
      {
        var found := false;
        if Data[p] == search[0] { found := FoundAt(search, p); } else { FirstDiffers(Contents(), search, p); }
        if found {
          NextMatch(Contents(), p, 0, search, replace, result);
          Reaches(Contents(), search, p);
          Overwrite(p, replace);
          p := p + |replace|;
        } else {
          NextMatch(Contents(), p, 1, search, replace, result);
          p := p + 1;
        }
      }
      UnderEnd(Contents(), search, replace, result);
    }

    /** The `memcpy` of the overwriting branch. */
    method Overwrite(at: nat, s: seq<T>)
      requires Valid() && at + |s| <= Count
      modifies Data
      ensures Contents() == old(Contents()[..at] + s + Contents()[at + |s|..])
    {
      ghost var s0, n := Data[..], |s|;
      PutElements(Data, at, s);
      ghost var s2 := Data[..];
      assert s2[at..at + n] == s && s2[..at] == s0[..at] && s2[at + n..] == s0[at + n..];
      Spliced(s0, s0, s2, at, at + n, Count, s);
      assert Data[..Count] == s2[..Count];
      assert s0[..at] == s0[..Count][..at] && s0[at + n..Count] == s0[..Count][at + n..];
    }

    /** `replace_all`. */
    method ReplaceAll(search: seq<T>, replace: seq<T>)
      requires Valid() && (Contents() == [] || |search| > 0)
      modifies this, Data
      ensures Valid() && (Data == old(Data) || fresh(Data))
      ensures old(Contents()) == [] ==> Contents() == []
      ensures |search| > 0 ==> Contents() == Replaced(old(Contents()), search, replace)
    {
      if Count == 0 { return; }
      if |search| == |replace| {
        ReplaceAllInPlace(search, replace);
      } else {
        ReplaceAllBySplicing(search, replace);
      }
    }
  }

  lemma PrefixParts<T>(d: seq<T>, count: nat, begin: nat, end: nat)
    requires begin <= end <= count <= |d|
    ensures d[..begin] == d[..count][..begin] && d[end..count] == d[..count][end..]
  {
  }

  /** The two `memcpy` of `replace_range`. */
  method Splice<T>(a: array<T>, begin: nat, end: nat, count: nat, r: seq<T>)
    requires begin <= end <= count <= a.Length && begin + |r| + (count - end) <= a.Length
    modifies a
    ensures a[..begin + |r| + (count - end)] == old(a[..][..begin] + r + a[..][end..count])
  {
    var n := begin + |r|;
    ghost var s0 := a[..];
    MoveElements(a, n, end, count - end);
    ghost var s1 := a[..];
    assert s1[n..n + (count - end)] == s0[end..end + (count - end)] && s1[..n] == s0[..n];
    PutElements(a, begin, r);
    ghost var s2 := a[..];
    assert s2[begin..n] == r && s2[..begin] == s1[..begin] && s2[n..] == s1[n..];
    Spliced(s0, s1, s2, begin, end, count, r);
    assert a[..n + (count - end)] == s2[..n + (count - end)];
  }

  /** The first occurrence from `i` on is at `i + k`, or there is none before `i + k`. */
  lemma NextMatch<T>(now: seq<T>, i: nat, k: nat, p: seq<T>, r: seq<T>, result: seq<T>)
    requires |p| > 0 && Under(now, i, p, r, result) && i + k <= |now|
    requires forall j :: i <= j < i + k ==> !MatchAt(now, p, j)
    ensures Under(now, i + k, p, r, result)
    ensures MatchAt(now, p, i + k) ==>
      i + k + |p| <= |now|
      && Under(now[..i + k] + r + now[i + k + |p|..], i + k + |r|, p, r, result)
  {
    hide Replaced, MatchAt, Under;
    forall j: nat | j <= k ensures MatchAt(now[i..], p, j) == MatchAt(now, p, i + j) {
      MatchInRest(now, p, i, j);
    }
    UnderReplaced(now, i, k, p, r, result);
  }

  lemma FirstDiffers<T>(s: seq<T>, p: seq<T>, i: nat)
    requires |p| > 0 && i < |s| && s[i] != p[0]
    ensures !MatchAt(s, p, i)
  {
    if i + |p| <= |s| { assert s[i..i + |p|][0] == s[i]; }
  }

  /** Moving the tail and writing the replacement into the gap. */
  lemma Spliced<T>(s0: seq<T>, s1: seq<T>, s2: seq<T>, begin: nat, end: nat, count: nat, r: seq<T>)
    requires begin <= end <= count <= |s0| == |s1| == |s2| && begin + |r| + (count - end) <= |s0|
    requires s1[begin + |r|..begin + |r| + (count - end)] == s0[end..count]
    requires s1[..begin + |r|] == s0[..begin + |r|]
    requires s2[begin..begin + |r|] == r && s2[..begin] == s1[..begin]
    requires s2[begin + |r|..] == s1[begin + |r|..]
    ensures s2[..begin + |r| + (count - end)] == s0[..begin] + r + s0[end..count]
  {
    var n := begin + |r|;
    assert s1[..n][..begin] == s1[..begin] && s0[..n][..begin] == s0[..begin];
    assert s2[n..][..count - end] == s2[n..n + (count - end)];
    assert s1[n..][..count - end] == s1[n..n + (count - end)];
    assert s2[..n + (count - end)] == s2[..begin] + s2[begin..n] + s2[n..n + (count - end)];
  }

  /** `memcpy` to the same array, as `memmove`. */
  method MoveElements<T>(a: array<T>, to: nat, from: nat, n: nat)
    requires from + n <= a.Length && to + n <= a.Length
    modifies a
    ensures a[to..to + n] == old(a[from..from + n])
    ensures a[..to] == old(a[..to]) && a[to + n..] == old(a[to + n..])
  {
    forall k | 0 <= k < n { a[to + k] := a[from + k]; }
  }

  method PutElements<T>(a: array<T>, to: nat, s: seq<T>)
    requires to + |s| <= a.Length
    modifies a
    ensures a[to..to + |s|] == s
    ensures a[..to] == old(a[..to]) && a[to + |s|..] == old(a[to + |s|..])
  {
    forall k | 0 <= k < |s| { a[to + k] := s[k]; }
  }
}
