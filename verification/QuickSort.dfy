/** quick_sort.c: quicksort in place, with a partition that carries a hole from one
    end of the segment to the other and steps over runs of duplicates. */
module QuickSort {

  /** s with x in the hole at i. */
  function Filled(s: seq<int>, i: nat, x: int): seq<int>
    requires i < |s|
  {
    s[i := x]
  }

  /** Moving the element at j into the hole at i leaves a hole at j. */
  lemma MoveHole(s: seq<int>, i: nat, j: nat, key: int)
    requires i < |s| && j < |s|
    ensures multiset(Filled(s[i := s[j]], j, key)) == multiset(Filled(s, i, key))
  {
  }

  predicate SortedFrom(s: seq<int>, lo: int, hi: int)
    requires 0 <= lo && hi < |s|
  {
    forall i, j :: lo <= i < j <= hi ==> s[i] <= s[j]
  }

  /** t is a permutation of s that differs at most between lo and hi. */
  ghost predicate Rearranged(s: seq<int>, t: seq<int>, lo: int, hi: int)
  {
    && |s| == |t| && multiset(s) == multiset(t)
    && forall i :: 0 <= i < |s| && !(lo <= i <= hi) ==> t[i] == s[i]
  }

  lemma SameRest(a: multiset<int>, x: multiset<int>, y: multiset<int>, c: multiset<int>)
    requires a + x + c == a + y + c
    ensures x == y
  {
    forall e: int ensures x[e] == y[e] {
      assert a[e] + x[e] + c[e] == (a + x + c)[e] == (a + y + c)[e] == a[e] + y[e] + c[e];
    }
  }

  /** A rearranged segment is itself a permutation. */
  lemma RearrangedSegment(s: seq<int>, t: seq<int>, lo: nat, hi: int)
    requires lo <= hi + 1 && hi < |s| && Rearranged(s, t, lo, hi)
    ensures multiset(s[lo..hi + 1]) == multiset(t[lo..hi + 1])
  {
    assert s == s[..lo] + s[lo..hi + 1] + s[hi + 1..];
    assert t == t[..lo] + t[lo..hi + 1] + t[hi + 1..];
    assert s[..lo] == t[..lo] && s[hi + 1..] == t[hi + 1..];
    var a, c, x, y := multiset(s[..lo]), multiset(s[hi + 1..]), multiset(s[lo..hi + 1]), multiset(t[lo..hi + 1]);
    assert multiset(s) == a + x + c && multiset(t) == a + y + c;
    SameRest(a, x, y, c);
  }

  /** So what bounds all elements of a segment still does after rearranging it. */
  lemma RearrangedBound(s: seq<int>, t: seq<int>, lo: nat, hi: int, b: int)
    requires lo <= hi + 1 && hi < |s| && Rearranged(s, t, lo, hi)
    ensures (forall i :: lo <= i <= hi ==> s[i] <= b) ==> forall i :: lo <= i <= hi ==> t[i] <= b
    ensures (forall i :: lo <= i <= hi ==> s[i] >= b) ==> forall i :: lo <= i <= hi ==> t[i] >= b
  {
    RearrangedSegment(s, t, lo, hi);
    forall i | lo <= i <= hi ensures exists j :: lo <= j <= hi && s[j] == t[i] {
      assert t[i] == t[lo..hi + 1][i - lo];
      assert t[i] in multiset(t[lo..hi + 1]);
      assert t[i] in s[lo..hi + 1];
    }
  }

  /** What lies outside low and high is on its side of key. */
  ghost predicate Sides(s: seq<int>, t: seq<int>, left: nat, right: nat, low: nat, high: nat, key: int)
  {
    && |s| == |t| && left <= low <= high <= right < |s|
    && (forall i :: 0 <= i < |s| && !(left <= i <= right) ==> t[i] == s[i])
    && (forall i :: left <= i < low ==> t[i] < key)
    && (forall i :: high < i <= right ==> key <= t[i])
  }

  /** With key in the hole at low the array is a permutation. */
  ghost predicate HoleLow(s: seq<int>, t: seq<int>, left: nat, right: nat, low: nat, high: nat, key: int)
  {
    Sides(s, t, left, right, low, high, key) && multiset(Filled(t, low, key)) == multiset(s)
  }

  ghost predicate HoleHigh(s: seq<int>, t: seq<int>, left: nat, right: nat, low: nat, high: nat, key: int)
  {
    Sides(s, t, left, right, low, high, key) && multiset(Filled(t, high, key)) == multiset(s)
  }

  lemma ToHigh(s: seq<int>, t: seq<int>, left: nat, right: nat, low: nat, high: nat, key: int)
    requires HoleLow(s, t, left, right, low, high, key)
    ensures HoleHigh(s, t[low := t[high]], left, right, low, high, key)
  {
    MoveHole(t, low, high, key);
  }

  lemma ToLow(s: seq<int>, t: seq<int>, left: nat, right: nat, low: nat, high: nat, key: int)
    requires HoleHigh(s, t, left, right, low, high, key)
    ensures HoleLow(s, t[high := t[low]], left, right, low, high, key)
  {
    MoveHole(t, high, low, key);
  }

  lemma HighDown(s: seq<int>, t: seq<int>, left: nat, right: nat, low: nat, high: nat, key: int)
    requires HoleLow(s, t, left, right, low, high, key) && low < high && t[high] >= key
    ensures HoleLow(s, t, left, right, low, high - 1, key)
  {
  }

  lemma LowUp(s: seq<int>, t: seq<int>, left: nat, right: nat, low: nat, high: nat, key: int)
    requires HoleHigh(s, t, left, right, low, high, key) && low < high && t[low] < key
    ensures HoleHigh(s, t, left, right, low + 1, high, key)
  {
  }

  lemma HoleClosed(s: seq<int>, t: seq<int>, left: nat, right: nat, low: nat, key: int)
    requires HoleLow(s, t, left, right, low, low, key)
    ensures Rearranged(s, Filled(t, low, key), left, right)
    ensures forall i :: left <= i < low ==> t[i] < key
    ensures forall i :: low < i <= right ==> key <= t[i]
  {
  }

  /** The partition loop of quick_sort. */
  method Partition(data: array<int>, left: nat, right: nat) returns (low: nat)
    requires left < right < data.Length
    modifies data
    ensures left <= low <= right && Rearranged(old(data[..]), data[..], left, right)
    ensures data[low] == old(data[left])
    ensures forall i :: left <= i < low ==> data[i] < data[low]
    ensures forall i :: low < i <= right ==> data[low] <= data[i]
  {
    hide HoleLow, HoleHigh, Rearranged;
    var key := data[left];
    low := left;
    var high := right;
    ghost var s := data[..];
    HoleOpened(s, left, right);
    while low < high
      invariant left <= low <= high <= right
      invariant HoleLow(s, data[..], left, right, low, high, key)
      decreases high - low
    {
      var tmpLow, tmpHigh := low, high;
      while low < high && data[high] > key
        invariant left <= low <= high <= tmpHigh
        invariant HoleLow(s, data[..], left, right, low, high, key)
        decreases high
      {
        HighDown(s, data[..], left, right, low, high, key);
        high := high - 1;
      }
      ToHigh(s, data[..], left, right, low, high, key);
      ghost var t := data[..];
      data[low] := data[high];
      assert data[..] == t[low := t[high]];
      while low < high && data[low] < key
        invariant tmpLow <= low <= high
        invariant HoleHigh(s, data[..], left, right, low, high, key)
      {
        LowUp(s, data[..], left, right, low, high, key);
        low := low + 1;
      }
      ToLow(s, data[..], left, right, low, high, key);
      t := data[..];
      data[high] := data[low];
      assert data[..] == t[high := t[low]];
      if high == tmpHigh && low == tmpLow {
        HighDown(s, data[..], left, right, low, high, key);
        high := high - 1;
      }
    }
    HoleClosed(s, data[..], left, right, low, key);
    ghost var t := data[..];
    data[low] := key;
    assert data[..] == Filled(t, low, key);
  }

  lemma HoleOpened(s: seq<int>, left: nat, right: nat)
    requires left < right < |s|
    ensures HoleLow(s, s, left, right, left, right, s[left])
  {
    assert Filled(s, left, s[left]) == s;
  }

  method Sort(data: array?<int>, left: int, right: int) returns (ok: bool)
    requires data != null && left < right ==> 0 <= left && right < data.Length
    modifies data
    ensures ok == (data != null)
    ensures data != null && left < right ==>
              && SortedFrom(data[..], left, right) && Rearranged(old(data[..]), data[..], left, right)
              && multiset(data[left..right + 1]) == multiset(old(data[left..right + 1]))
    ensures data != null && left >= right ==> data[..] == old(data[..])
    decreases right - left
  {
    hide Rearranged, SortedFrom;
    if data == null {
      return false;
    }
    if left >= right {
      return true;
    }
    ghost var s := data[..];
    var low: int := Partition(data, left, right);
    ghost var p := data[..];
    ok := Sort(data, left, low - 1);
    ghost var q := data[..];
    ok := Sort(data, low + 1, right);
    SortedParts(s, p, q, data[..], left, right, low);
  }

  /** A segment is sorted once the parts on either side of the pivot are. */
  lemma SortedParts(s: seq<int>, p: seq<int>, q: seq<int>, t: seq<int>, left: nat, right: nat, low: nat)
    requires left <= low <= right < |s| == |p| && Rearranged(s, p, left, right)
    requires forall i :: left <= i < low ==> p[i] < p[low]
    requires forall i :: low < i <= right ==> p[low] <= p[i]
    requires if left < low - 1 then Rearranged(p, q, left, low - 1) && SortedFrom(q, left, low - 1) else q == p
    requires if low + 1 < right then Rearranged(q, t, low + 1, right) && SortedFrom(t, low + 1, right) else t == q
    ensures SortedFrom(t, left, right) && Rearranged(s, t, left, right)
    ensures multiset(t[left..right + 1]) == multiset(s[left..right + 1])
  {
    if left < low - 1 { RearrangedBound(p, q, left, low - 1, p[low]); }
    if low + 1 < right { RearrangedBound(q, t, low + 1, right, p[low]); }
    assert t[low] == p[low];
    assert forall i :: left <= i < low ==> t[i] == q[i] && t[i] <= p[low];
    assert forall i :: low < i <= right ==> p[low] <= t[i];
    RearrangedSegment(s, t, left, right);
  }
}
