/**
 * The order `sortBlogsByDate` puts the posts in: a stable sort (as
 * `Array.prototype.sort` is) under the date comparator, ascending when the
 * sort direction is "asc" and descending for any other direction.
 */
module DateSort {
  import opened Posts
  import opened Sequences

  const Ascending := "asc"
  const Descending := "desc"

  /** The comparator handed to `sort`: positive when `a` must come after `b`. */
  function Compare(a: Post, b: Post, sortByDate: string): int
  {
    if sortByDate == Ascending then a.date - b.date else b.date - a.date
  }

  /** Every earlier element compares at most equal to every later one. */
  ghost predicate SortedBy(s: seq<Post>, sortByDate: string)
  {
    forall i, j :: 0 <= i < j < |s| ==> Compare(s[i], s[j], sortByDate) <= 0
  }

  /**
   * Inserts `x` into sorted `s`, moving it in front of the trailing elements that
   * must come after it and no further: it lands after every element it ties with.
   */
  function Insert(s: seq<Post>, x: Post, sortByDate: string): seq<Post>
  {
    if s == [] then [x]
    else if Compare(s[|s| - 1], x, sortByDate) > 0 then Insert(s[..|s| - 1], x, sortByDate) + [s[|s| - 1]]
    else s + [x]
  }

  /**
   * Where `Insert` puts `x`: right after the last post that does not compare
   * greater than it, provided every post from index j on does compare greater.
   */
  lemma {:induction false} InsertLandsAt(s: seq<Post>, x: Post, sortByDate: string, j: nat)
    requires j <= |s| && (j == 0 || Compare(s[j - 1], x, sortByDate) <= 0)
    requires forall k :: j <= k < |s| ==> Compare(s[k], x, sortByDate) > 0
    ensures Insert(s, x, sortByDate) == s[..j] + [x] + s[j..]
    decreases |s|
  {
    if j < |s| {
      var n := |s| - 1;
      InsertLandsAt(s[..n], x, sortByDate, j);
      assert s[..n][..j] == s[..j];
      assert s[j..] == s[..n][j..] + [s[n]];
    }
  }

  /** The stable sort of `s` under the date comparator (insertion sort, element by element). */
  function SortByDate(s: seq<Post>, sortByDate: string): seq<Post>
  {
    if s == [] then [] else Insert(SortByDate(s[..|s| - 1], sortByDate), s[|s| - 1], sortByDate)
  }

  function HasDate(date: int): Post -> bool
  {
    (p: Post) => p.date == date
  }

  /** The posts of `s` dated `date`, in the order `s` has them. */
  function WithDate(s: seq<Post>, date: int): seq<Post>
  {
    Filter(s, HasDate(date))
  }

  lemma WithDateAppend(a: seq<Post>, b: seq<Post>, date: int)
    ensures WithDate(a + b, date) == WithDate(a, date) + WithDate(b, date)
  {
    FilterAppend(a, b, HasDate(date));
  }

  lemma WithDateSingle(x: Post, date: int)
    ensures WithDate([x], date) == if x.date == date then [x] else []
  {
    assert [x][1..] == [];
  }

  lemma {:induction false} InsertPermutes(s: seq<Post>, x: Post, sortByDate: string)
    ensures multiset(Insert(s, x, sortByDate)) == multiset(s) + multiset{x}
  {
    if s != [] && Compare(s[|s| - 1], x, sortByDate) > 0 {
      InsertPermutes(s[..|s| - 1], x, sortByDate);
      assert s == s[..|s| - 1] + [s[|s| - 1]];
    }
  }

  /** Sorting only rearranges: the result is a permutation of the input. */
  lemma {:induction false} SortByDatePermutes(s: seq<Post>, sortByDate: string)
    ensures multiset(SortByDate(s, sortByDate)) == multiset(s)
  {
    if s != [] {
      var init := s[..|s| - 1];
      var last := s[|s| - 1];
      var sortedInit := SortByDate(init, sortByDate);
      calc {
        multiset(SortByDate(s, sortByDate));
        multiset(Insert(sortedInit, last, sortByDate));
        { InsertPermutes(sortedInit, last, sortByDate); }
        multiset(sortedInit) + multiset{last};
        { SortByDatePermutes(init, sortByDate); }
        multiset(init) + multiset{last};
        multiset(init + [last]);
        { assert init + [last] == s; }
        multiset(s);
      }
    }
  }

  /** Appending a post that every post of sorted `s` compares at most equal to keeps it sorted. */
  lemma AppendSorted(s: seq<Post>, y: Post, sortByDate: string)
    requires SortedBy(s, sortByDate)
    requires forall k :: 0 <= k < |s| ==> Compare(s[k], y, sortByDate) <= 0
    ensures SortedBy(s + [y], sortByDate)
  {
    var r := s + [y];
    forall i, j | 0 <= i < j < |r| ensures Compare(r[i], r[j], sortByDate) <= 0 {
      assert r[i] == s[i];
      if j < |s| {
        assert r[j] == s[j];
      }
    }
  }

  /** If `x` and every post of `s` compare at most equal to `y`, so does every post of `Insert(s, x)`. */
  lemma {:induction false} InsertBelow(s: seq<Post>, x: Post, sortByDate: string, y: Post)
    requires forall k :: 0 <= k < |s| ==> Compare(s[k], y, sortByDate) <= 0
    requires Compare(x, y, sortByDate) <= 0
    ensures forall k :: 0 <= k < |Insert(s, x, sortByDate)| ==> Compare(Insert(s, x, sortByDate)[k], y, sortByDate) <= 0
  {
    if s != [] && Compare(s[|s| - 1], x, sortByDate) > 0 {
      var init := s[..|s| - 1];
      InsertBelow(init, x, sortByDate, y);
      assert Insert(s, x, sortByDate) == Insert(init, x, sortByDate) + [s[|s| - 1]];
    }
  }

  /** Inserting into a sorted sequence keeps it sorted. */
  lemma {:induction false} InsertSorted(s: seq<Post>, x: Post, sortByDate: string)
    requires SortedBy(s, sortByDate)
    ensures SortedBy(Insert(s, x, sortByDate), sortByDate)
  {
    if s != [] {
      var n := |s| - 1;
      var init := s[..n];
      if Compare(s[n], x, sortByDate) > 0 {
        assert SortedBy(init, sortByDate) by {
          assert forall k :: 0 <= k < n ==> init[k] == s[k];
        }
        InsertSorted(init, x, sortByDate);
        InsertBelow(init, x, sortByDate, s[n]);
        AppendSorted(Insert(init, x, sortByDate), s[n], sortByDate);
      } else {
        forall k | 0 <= k < |s| ensures Compare(s[k], x, sortByDate) <= 0 {
          if k < n {
            assert Compare(s[k], s[n], sortByDate) <= 0;
          }
        }
        AppendSorted(s, x, sortByDate);
      }
    }
  }

  /** The result is ordered by the comparator: non-decreasing dates for "asc", non-increasing otherwise. */
  lemma {:induction false} SortByDateSorted(s: seq<Post>, sortByDate: string)
    ensures SortedBy(SortByDate(s, sortByDate), sortByDate)
  {
    if s != [] {
      SortByDateSorted(s[..|s| - 1], sortByDate);
      InsertSorted(SortByDate(s[..|s| - 1], sortByDate), s[|s| - 1], sortByDate);
    }
  }

  /** What SortedBy means for each direction, in terms of dates. */
  lemma SortedByMeansDateOrder(s: seq<Post>, sortByDate: string)
    requires SortedBy(s, sortByDate)
    ensures sortByDate == Ascending ==> forall i, j :: 0 <= i < j < |s| ==> s[i].date <= s[j].date
    ensures sortByDate != Ascending ==> forall i, j :: 0 <= i < j < |s| ==> s[i].date >= s[j].date
  {
    forall i, j | 0 <= i < j < |s| ensures Compare(s[i], s[j], sortByDate) <= 0 {
    }
  }

  /** Two adjacent posts with different dates can trade places without changing any date's run. */
  lemma WithDateSwap(u: seq<Post>, a: Post, b: Post, date: int)
    requires a.date != b.date
    ensures WithDate(u + [a] + [b], date) == WithDate(u + [b] + [a], date)
  {
    WithDateSingle(a, date);
    WithDateSingle(b, date);
    calc {
      WithDate(u + [a] + [b], date);
      { WithDateAppend(u + [a], [b], date); }
      WithDate(u + [a], date) + WithDate([b], date);
      { WithDateAppend(u, [a], date); }
      WithDate(u, date) + WithDate([a], date) + WithDate([b], date);
      // at most one of `a` and `b` carries `date`, so one of these two runs is empty
      WithDate(u, date) + WithDate([b], date) + WithDate([a], date);
      { WithDateAppend(u, [b], date); }
      WithDate(u + [b], date) + WithDate([a], date);
      { WithDateAppend(u + [b], [a], date); }
      WithDate(u + [b] + [a], date);
    }
  }

  /** Insertion passes `x` only over posts with a different date. */
  lemma {:induction false} InsertKeepsTies(s: seq<Post>, x: Post, sortByDate: string, date: int)
    ensures WithDate(Insert(s, x, sortByDate), date) == WithDate(s + [x], date)
  {
    if s != [] && Compare(s[|s| - 1], x, sortByDate) > 0 {
      var init := s[..|s| - 1];
      var last := s[|s| - 1];
      assert Insert(s, x, sortByDate) == Insert(init, x, sortByDate) + [last];
      InsertKeepsTies(init, x, sortByDate, date);
      WithDateAppend(Insert(init, x, sortByDate), [last], date);
      WithDateAppend(init + [x], [last], date);
      WithDateSwap(init, x, last, date);
      assert s == init + [last];
    }
  }

  /**
   * The sort is stable: for every date, the posts carrying it appear in the
   * same relative order as in the input.
   */
  lemma {:induction false} SortByDateStable(s: seq<Post>, sortByDate: string, date: int)
    ensures WithDate(SortByDate(s, sortByDate), date) == WithDate(s, date)
  {
    if s != [] {
      var init := s[..|s| - 1];
      var last := s[|s| - 1];
      var sortedInit := SortByDate(init, sortByDate);
      assert SortByDate(s, sortByDate) == Insert(sortedInit, last, sortByDate);
      SortByDateStable(init, sortByDate, date);
      InsertKeepsTies(sortedInit, last, sortByDate, date);
      WithDateAppend(sortedInit, [last], date);
      WithDateAppend(init, [last], date);
      assert s == init + [last];
    }
  }
}
