/** The free-offset search of the IP address manager (`_first_free_offset`).

    The code sorts and merges the blocked intervals, then walks the merged list
    twice. Its reference here is the naive scan that asks, offset by offset,
    whether any interval covers it. */
module FirstFree {
  import opened Wrappers

  /** A closed interval of offsets; empty when `high < low`. */
  datatype Interval = Interval(low: int, high: int)

  predicate Covers(iv: Interval, k: int) {
    iv.low <= k <= iv.high
  }

  predicate Covered(blocked: seq<Interval>, k: int) {
    exists i :: 0 <= i < |blocked| && Covers(blocked[i], k)
  }

  /** Offset `k` is inside the pool and some interval covers it. */
  predicate Taken(size: int, blocked: seq<Interval>, k: int) {
    0 <= k < size && Covered(blocked, k)
  }

  // ----- the naive scan ---------------------------------------------------

  /** The smallest offset in `lo..hi` (both ends included) that is not taken. */
  function FirstUntaken(size: int, blocked: seq<Interval>, lo: int, hi: int): (r: Option<int>)
    ensures r.Some? ==> lo <= r.value <= hi && !Taken(size, blocked, r.value)
    ensures r.Some? ==> forall k :: lo <= k < r.value ==> Taken(size, blocked, k)
    ensures r.None? ==> forall k :: lo <= k <= hi ==> Taken(size, blocked, k)
    decreases hi - lo
  {
    if lo > hi then None
    else if !Taken(size, blocked, lo) then Some(lo)
    else FirstUntaken(size, blocked, lo + 1, hi)
  }

  /** First fit from `start` upwards, then from 0 up to `start`. */
  function CyclicScan(size: int, start: int, blocked: seq<Interval>): Option<int> {
    var high := FirstUntaken(size, blocked, start, size - 1);
    if high.Some? then high else FirstUntaken(size, blocked, 0, start - 1)
  }

  /** How far a search that starts at `start` walks before it looks at `k`. */
  function Distance(size: int, start: int, k: int): int {
    if k >= start then k - start else size - start + k
  }

  /** What the naive scan means for a cursor inside the pool: a free offset that no
      free offset precedes in cyclic order, and nothing exactly when all are taken. */
  lemma CyclicScanIsFirstFit(size: int, start: int, blocked: seq<Interval>)
    requires 0 <= start <= size
    ensures var r := CyclicScan(size, start, blocked);
      && (r.None? <==> forall k :: 0 <= k < size ==> Covered(blocked, k))
      && (r.Some? ==>
            && 0 <= r.value < size && !Covered(blocked, r.value)
            && forall k :: 0 <= k < size && !Covered(blocked, k) ==>
                 Distance(size, start, r.value) <= Distance(size, start, k))
  {
    var r := CyclicScan(size, start, blocked);
    forall k | 0 <= k < size && !Covered(blocked, k)
      ensures r.Some? && Distance(size, start, r.value) <= Distance(size, start, k)
    {
      assert !Taken(size, blocked, k);
    }
    if r.Some? {
      assert !Taken(size, blocked, r.value);
    }
  }

  /** The search stays inside the pool for every list of intervals exactly when the
      cursor does: this is what the cursor invariant of the pools is needed for. */
  lemma InsidePoolIffCursorInside(size: int, start: int)
    requires size >= 0
    ensures (forall blocked ::
               var r := CyclicScan(size, start, blocked); r.Some? ==> 0 <= r.value < size)
            <==> 0 <= start <= size
  {
    if 0 <= start <= size {
      forall blocked
        ensures var r := CyclicScan(size, start, blocked); r.Some? ==> 0 <= r.value < size
      {
        CyclicScanIsFirstFit(size, start, blocked);
      }
    } else if start < 0 {
      assert !Taken(size, [], start);
      assert CyclicScan(size, start, []) == Some(start);
    } else {
      var all := [Interval(0, size - 1)];
      assert !Taken(size, all, size);
      assert forall k :: 0 <= k < size ==> Covers(all[0], k);
      var r := CyclicScan(size, start, all);
      assert r.Some?;
      assert !Taken(size, all, r.value);
    }
  }

  // ----- sorting ------------------------------------------------------------

  predicate Before(a: Interval, b: Interval) {
    a.low < b.low || (a.low == b.low && a.high <= b.high)
  }

  predicate SortedByLow(s: seq<Interval>) {
    forall i, j :: 0 <= i < j < |s| ==> s[i].low <= s[j].low
  }

  function Insert(x: Interval, s: seq<Interval>): (r: seq<Interval>)
    ensures multiset(r) == multiset(s) + multiset{x}
  {
    if s == [] then [x]
    else if Before(x, s[0]) then [x] + s
    else
      assert s == [s[0]] + s[1..];
      [s[0]] + Insert(x, s[1..])
  }

  /** Python's `sorted` on pairs. */
  function Sorted(s: seq<Interval>): (r: seq<Interval>)
    ensures multiset(r) == multiset(s)
  {
    if s == [] then []
    else
      assert s == [s[0]] + s[1..];
      Insert(s[0], Sorted(s[1..]))
  }

  lemma {:induction false} InsertKeepsOrder(x: Interval, s: seq<Interval>)
    requires SortedByLow(s)
    ensures SortedByLow(Insert(x, s))
  {
    if s != [] && !Before(x, s[0]) {
      InsertKeepsOrder(x, s[1..]);
      var r := Insert(x, s[1..]);
      forall i | 0 <= i < |r|
        ensures s[0].low <= r[i].low
      {
        assert r[i] in multiset(r);
        assert r[i] == x || r[i] in s[1..];
      }
    }
  }

  lemma {:induction false} SortedIsOrdered(s: seq<Interval>)
    ensures SortedByLow(Sorted(s))
  {
    if s != [] {
      SortedIsOrdered(s[1..]);
      InsertKeepsOrder(s[0], Sorted(s[1..]));
    }
  }

  lemma SortedCoversTheSame(s: seq<Interval>, k: int)
    ensures Covered(Sorted(s), k) <==> Covered(s, k)
  {
    var r := Sorted(s);
    if Covered(r, k) {
      var i :| 0 <= i < |r| && Covers(r[i], k);
      assert r[i] in multiset(r);
      assert r[i] in s;
    }
    if Covered(s, k) {
      var i :| 0 <= i < |s| && Covers(s[i], k);
      assert s[i] in multiset(s);
      assert s[i] in r;
    }
  }

  // ----- the merge ------------------------------------------------------------

  predicate NonEmpty(s: seq<Interval>) {
    forall i :: 0 <= i < |s| ==> s[i].low <= s[i].high
  }

  /** Non-empty pieces of `[0, size)`, in order, with a gap between neighbours. */
  predicate Separated(size: int, s: seq<Interval>) {
    && (forall i :: 0 <= i < |s| ==> 0 <= s[i].low <= s[i].high < size)
    && (forall i :: 0 < i < |s| ==> s[i - 1].high + 1 < s[i].low)
  }

  lemma CoveredSnoc(s: seq<Interval>, x: Interval, k: int)
    ensures Covered(s + [x], k) <==> Covered(s, k) || Covers(x, k)
  {
    var t := s + [x];
    if Covers(x, k) {
      assert Covers(t[|s|], k);
    }
    if Covered(s, k) {
      var i :| 0 <= i < |s| && Covers(s[i], k);
      assert Covers(t[i], k);
    }
  }

  /** The part of `iv` inside `[0, size)`. */
  function Clip(size: int, iv: Interval): Interval {
    Interval(if iv.low < 0 then 0 else iv.low, if size - 1 < iv.high then size - 1 else iv.high)
  }

  /** The merged list after one more piece: glued to its last element, or put behind it. */
  function Absorb(merged: seq<Interval>, piece: Interval): seq<Interval> {
    var n := |merged|;
    if n > 0 && piece.low <= merged[n - 1].high + 1 then
      var last := merged[n - 1];
      merged[..n - 1] + [Interval(last.low, if last.high < piece.high then piece.high else last.high)]
    else merged + [piece]
  }

  /** Every piece still to come starts no earlier than the last merged one. */
  predicate InOrder(merged: seq<Interval>, piece: Interval) {
    merged == [] || merged[|merged| - 1].low <= piece.low
  }

  lemma AbsorbCovers(merged: seq<Interval>, piece: Interval, k: int)
    requires InOrder(merged, piece)
    ensures Covered(Absorb(merged, piece), k) <==> Covered(merged, k) || Covers(piece, k)
  {
    var n := |merged|;
    if n > 0 && piece.low <= merged[n - 1].high + 1 {
      var last := merged[n - 1];
      assert merged == merged[..n - 1] + [last];
      CoveredSnoc(merged[..n - 1], last, k);
      CoveredSnoc(merged[..n - 1],
                  Interval(last.low, if last.high < piece.high then piece.high else last.high), k);
    } else {
      CoveredSnoc(merged, piece, k);
    }
  }

  lemma AbsorbKeepsOrder(merged: seq<Interval>, piece: Interval)
    requires SortedByLow(merged) && InOrder(merged, piece)
    ensures SortedByLow(Absorb(merged, piece))
  {
  }

  lemma AbsorbKeepsGaps(size: int, merged: seq<Interval>, piece: Interval)
    requires Separated(size, merged) && InOrder(merged, piece) && 0 <= piece.low <= piece.high < size
    ensures Separated(size, Absorb(merged, piece))
  {
  }

  /** Absorbing moves the last low end up to the new piece's, no further. */
  lemma AbsorbStaysBehind(merged: seq<Interval>, piece: Interval, later: Interval)
    requires InOrder(merged, later) && piece.low <= later.low
    ensures InOrder(Absorb(merged, piece), later)
  {
  }

  lemma NothingTaken(size: int)
    ensures forall k :: !Covered([], k) && !Taken(size, [], k)
  {
  }

  lemma SortedHasSameMembers(s: seq<Interval>)
    ensures NonEmpty(s) ==> NonEmpty(Sorted(s))
    ensures forall k :: Covered(Sorted(s), k) <==> Covered(s, k)
  {
    forall i | 0 <= i < |Sorted(s)|
      ensures Sorted(s)[i] in s
    {
      assert Sorted(s)[i] in multiset(Sorted(s));
    }
    forall k
      ensures Covered(Sorted(s), k) <==> Covered(s, k)
    {
      SortedCoversTheSame(s, k);
    }
  }

  /** The next interval of the sorted list, clipped and absorbed, or skipped as foreign. */
  lemma AbsorbStep(size: int, ordered: seq<Interval>, i: int, before: seq<Interval>, after: seq<Interval>, k: int)
    requires 0 <= i < |ordered|
    requires InOrder(before, Clip(size, ordered[i]))
    requires after == if ordered[i].high < 0 || ordered[i].low >= size then before
                      else Absorb(before, Clip(size, ordered[i]))
    requires Covered(before, k) <==> Taken(size, ordered[..i], k)
    ensures Covered(after, k) <==> Taken(size, ordered[..i + 1], k)
  {
    assert ordered[..i + 1] == ordered[..i] + [ordered[i]];
    CoveredSnoc(ordered[..i], ordered[i], k);
    AbsorbCovers(before, Clip(size, ordered[i]), k);
  }

  /** The first half of `_first_free_offset`: clip to the pool, sort, merge in place. */
  method MergeBlocked(size: int, blocked: seq<Interval>) returns (merged: seq<Interval>)
    ensures forall k :: Covered(merged, k) <==> Taken(size, blocked, k)
    ensures SortedByLow(merged)
    ensures NonEmpty(blocked) && size > 0 ==> Separated(size, merged)
  {
    merged := [];
    var ordered := Sorted(blocked);
    SortedIsOrdered(blocked);
    SortedHasSameMembers(blocked);
    NothingTaken(size);
    hide Sorted, Covered, Separated;
    assert ordered[..0] == [];
    EmptyIsSeparated(size);
    for i := 0 to |ordered|
      invariant forall k :: Covered(merged, k) <==> Taken(size, ordered[..i], k)
      invariant SortedByLow(merged)
      invariant forall j :: i <= j < |ordered| ==> InOrder(merged, Clip(size, ordered[j]))
      invariant NonEmpty(ordered) && size > 0 ==> Separated(size, merged)
    {
      var low, high := ordered[i].low, ordered[i].high;
      ghost var before := merged;
      if !(high < 0 || low >= size) {
        low, high := if low < 0 then 0 else low, if size - 1 < high then size - 1 else high;
        ghost var piece := Interval(low, high);
        AbsorbKeepsOrder(before, piece);
        if NonEmpty(ordered) && size > 0 {
          AbsorbKeepsGaps(size, before, piece);
        }
        if merged != [] && low <= merged[|merged| - 1].high + 1 {
          var last := merged[|merged| - 1];
          merged := merged[..|merged| - 1] + [Interval(last.low, if last.high < high then high else last.high)];
        } else {
          merged := merged + [Interval(low, high)];
        }
        assert merged == Absorb(before, piece);
        hide Absorb;
        forall j | i + 1 <= j < |ordered|
          ensures InOrder(merged, Clip(size, ordered[j]))
        {
          AbsorbStaysBehind(before, piece, Clip(size, ordered[j]));
        }
      }
      forall k
        ensures Covered(merged, k) <==> Taken(size, ordered[..i + 1], k)
      {
        AbsorbStep(size, ordered, i, before, merged, k);
      }
    }
    assert ordered[..|ordered|] == ordered;
  }

  lemma EmptyIsSeparated(size: int)
    ensures Separated(size, [])
  {
  }

  // ----- the walk -----------------------------------------------------------

  /** One pass of the second half: the first offset of `lo..hi` outside the merged list. */
  method ScanRange(size: int, blocked: seq<Interval>, merged: seq<Interval>, lo: int, hi: int)
    returns (r: Option<int>)
    requires forall k :: Covered(merged, k) <==> Taken(size, blocked, k)
    requires SortedByLow(merged)
    ensures r == FirstUntaken(size, blocked, lo, hi)
  {
    var cursor := lo;
    if cursor > hi {
      return None;
    }
    var i := 0;
    while i < |merged|
      invariant 0 <= i <= |merged|
      invariant lo <= cursor <= hi
      invariant forall k :: lo <= k < cursor ==> Covered(merged, k)
      invariant forall j :: 0 <= j < i ==> merged[j].high < cursor
    {
      var low, high := merged[i].low, merged[i].high;
      if high < cursor {
        i := i + 1;
        continue;
      }
      if low > hi {
        break;
      }
      if low > cursor {
        assert !Covered(merged, cursor);
        return Some(cursor);
      }
      forall k | cursor <= k <= high
        ensures Covered(merged, k)
      {
        assert Covers(merged[i], k);
      }
      cursor := if cursor < high + 1 then high + 1 else cursor;
      if cursor > hi {
        break;
      }
      i := i + 1;
    }
    if cursor <= hi {
      assert !Covered(merged, cursor);
      return Some(cursor);
    }
    return None;
  }

  /** `_first_free_offset` returns what the naive cyclic scan returns, for every size,
      cursor and list of intervals: unsorted, overlapping, out of range or empty. */
  method FirstFreeOffset(size: int, start: int, blocked: seq<Interval>) returns (r: Option<int>)
    ensures r == CyclicScan(size, start, blocked)
  {
    var merged := MergeBlocked(size, blocked);
    r := ScanRange(size, blocked, merged, start, size - 1);
    if r.None? {
      r := ScanRange(size, blocked, merged, 0, start - 1);
    }
  }
}
