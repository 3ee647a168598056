/**
 * The date-to-count table and the two views the screen derives from it:
 * the history list (entries, newest date first) and the average per day.
 */
module Tally {
  import opened DateOrder

  /** One row of the history list. */
  datatype Entry = Entry(date: string, count: real)

  /** `counts[date] || 0`: the count stored for `date`, 0 when there is none. */
  function Lookup(counts: map<string, real>, date: string): real
  {
    if date in counts then counts[date] else 0.0
  }

  /** Every entry of `h` sorts strictly after the entries that follow it. */
  predicate NewestFirst(h: seq<Entry>)
  {
    forall i, j :: 0 <= i < j < |h| ==> Precedes(h[j].date, h[i].date)
  }

  /** Each entry of `h` is a (date, count) pair of the table. */
  ghost predicate FromTable(h: seq<Entry>, counts: map<string, real>)
  {
    forall i :: 0 <= i < |h| ==> h[i].date in counts && h[i].count == counts[h[i].date]
  }

  /** Each (date, count) pair of the table is in `h`. */
  ghost predicate CoversTable(h: seq<Entry>, counts: map<string, real>)
  {
    forall d :: d in counts ==> Entry(d, counts[d]) in h
  }

  /** `h` lists exactly the entries of the table. */
  ghost predicate ListsEntries(h: seq<Entry>, counts: map<string, real>)
  {
    FromTable(h, counts) && CoversTable(h, counts)
  }

  lemma ConsFromTable(counts: map<string, real>, d: string, rest: seq<Entry>)
    requires d in counts && FromTable(rest, counts - {d})
    ensures FromTable([Entry(d, counts[d])] + rest, counts)
  {
    var h := [Entry(d, counts[d])] + rest;
    forall i | 0 <= i < |h|
      ensures h[i].date in counts && h[i].count == counts[h[i].date]
    {
      if i > 0 {
        assert h[i] == rest[i - 1];
      }
    }
  }

  lemma ConsCoversTable(counts: map<string, real>, d: string, rest: seq<Entry>)
    requires d in counts && CoversTable(rest, counts - {d})
    ensures CoversTable([Entry(d, counts[d])] + rest, counts)
  {
    var h := [Entry(d, counts[d])] + rest;
    forall k | k in counts
      ensures Entry(k, counts[k]) in h
    {
      if k != d {
        assert k in counts - {d};
        assert Entry(k, counts[k]) in rest;
      }
    }
  }

  lemma ConsNewestFirst(counts: map<string, real>, d: string, rest: seq<Entry>)
    requires d in counts
    requires forall k :: k in counts && k != d ==> Precedes(k, d)
    requires FromTable(rest, counts - {d}) && NewestFirst(rest)
    ensures NewestFirst([Entry(d, counts[d])] + rest)
  {
    var h := [Entry(d, counts[d])] + rest;
    forall i, j | 0 <= i < j < |h|
      ensures Precedes(h[j].date, h[i].date)
    {
      var later := rest[j - 1].date;
      assert h[j].date == later;
      if i > 0 {
        assert h[i].date == rest[i - 1].date;
        assert Precedes(later, rest[i - 1].date);
      } else {
        assert h[i].date == d;
        assert later in counts - {d};
        assert later in counts && later != d;
      }
    }
  }

  /** The history list: the table's entries sorted by date, newest first. */
  function History(counts: map<string, real>): seq<Entry>
    decreases |counts|
  {
    if |counts| == 0 then []
    else
      var d := Newest(counts.Keys);
      assert |counts - {d}| < |counts| by { assert (counts - {d}).Keys == counts.Keys - {d}; }
      [Entry(d, counts[d])] + History(counts - {d})
  }

  /**
   * The history list holds every entry of the table and nothing else,
   * newest date first, so no date twice.
   */
  lemma {:induction false} HistoryListsEntries(counts: map<string, real>)
    ensures |History(counts)| == |counts|
    ensures ListsEntries(History(counts), counts)
    ensures NewestFirst(History(counts))
    decreases |counts|
  {
    if |counts| > 0 {
      var d := Newest(counts.Keys);
      var rest := counts - {d};
      assert rest.Keys == counts.Keys - {d};
      HistoryListsEntries(rest);
      ConsFromTable(counts, d, History(rest));
      ConsCoversTable(counts, d, History(rest));
      ConsNewestFirst(counts, d, History(rest));
    }
  }

  /** In a newest-first list of the table's entries, the newest entry comes first. */
  lemma NewestComesFirst(counts: map<string, real>, h: seq<Entry>)
    requires |counts| > 0
    requires ListsEntries(h, counts) && NewestFirst(h)
    ensures |h| > 0 && h[0] == Entry(Newest(counts.Keys), counts[Newest(counts.Keys)])
  {
    var d := Newest(counts.Keys);
    var i :| 0 <= i < |h| && h[i] == Entry(d, counts[d]);
    PrecedesIrreflexive(d);
    PrecedesAsymmetric(d, h[0].date);
    assert i == 0;
  }

  /** Taking the newest entry off the front leaves entries of the other dates, still newest first. */
  lemma RestFromTable(counts: map<string, real>, h: seq<Entry>, d: string)
    requires FromTable(h, counts) && NewestFirst(h)
    requires |h| > 0 && h[0].date == d
    ensures FromTable(h[1..], counts - {d}) && NewestFirst(h[1..])
  {
    var tail := h[1..];
    forall j | 0 <= j < |tail|
      ensures tail[j].date in counts - {d} && tail[j].count == counts[tail[j].date]
    {
      assert tail[j] == h[j + 1];
      PrecedesIrreflexive(d);
    }
  }

  /** Taking the newest entry off the front leaves every entry of the other dates. */
  lemma RestCoversTable(counts: map<string, real>, h: seq<Entry>, d: string)
    requires CoversTable(h, counts)
    requires d in counts && |h| > 0 && h[0] == Entry(d, counts[d])
    ensures CoversTable(h[1..], counts - {d})
  {
    var rest, tail := counts - {d}, h[1..];
    forall k | k in rest
      ensures Entry(k, rest[k]) in tail
    {
      var j :| 0 <= j < |h| && h[j] == Entry(k, counts[k]);
      assert tail[j - 1] == h[j];
    }
  }

  /**
   * Sorting the table's entries newest first has only one outcome: any list
   * that holds exactly the entries, newest date first, is the history list.
   */
  lemma {:induction false} SortedEntriesAreHistory(counts: map<string, real>, h: seq<Entry>)
    requires ListsEntries(h, counts) && NewestFirst(h)
    ensures h == History(counts)
    decreases |counts|
  {
    if |counts| == 0 {
      assert h == [];
    } else {
      var d := Newest(counts.Keys);
      var rest := counts - {d};
      assert |h| > 0 && h[0] == Entry(d, counts[d]) && h[1..] == History(rest) by {
        assert rest.Keys == counts.Keys - {d};
        NewestComesFirst(counts, h);
        RestFromTable(counts, h, d);
        RestCoversTable(counts, h, d);
        SortedEntriesAreHistory(rest, h[1..]);
      }
      assert h == [h[0]] + h[1..];
    }
  }

  /** The sum of the counts of a list of entries, first to last. */
  function SumCounts(h: seq<Entry>): real
  {
    if h == [] then 0.0 else h[0].count + SumCounts(h[1..])
  }

  /**
   * The sum of all counts in the table, in no particular order: a reference
   * definition that takes any key first.
   */
  ghost function Total(counts: map<string, real>): real
    decreases |counts|
  {
    if counts == map[] then 0.0
    else
      var d :| d in counts;
      assert (counts - {d}).Keys == counts.Keys - {d};
      counts[d] + Total(counts - {d})
  }

  /** `updateAverage`: the counts added up and divided by how many there are; 0 for an empty table. */
  function Average(counts: map<string, real>): real
  {
    if |counts| == 0 then 0.0 else SumCounts(History(counts)) / (|counts| as real)
  }

  // ---------------------------------------------------------------------------
  // The total does not depend on the order the counts are added in.

  lemma {:induction false} TotalRemove(counts: map<string, real>, d: string)
    requires d in counts
    ensures Total(counts) == counts[d] + Total(counts - {d})
    decreases |counts|
  {
    var x :| x in counts && Total(counts) == counts[x] + Total(counts - {x});
    if x != d {
      var both := counts - {x} - {d};
      assert (counts - {x}).Keys == counts.Keys - {x};
      assert (counts - {d}).Keys == counts.Keys - {d};
      TotalRemove(counts - {x}, d);
      assert counts - {x} - {d} == both;
      TotalRemove(counts - {d}, x);
      assert counts - {d} - {x} == both;
    }
  }

  /** The counts of the history list add up to the table's total. */
  lemma {:induction false} HistorySum(counts: map<string, real>)
    ensures SumCounts(History(counts)) == Total(counts)
    decreases |counts|
  {
    if |counts| > 0 {
      var d := Newest(counts.Keys);
      var rest := counts - {d};
      assert rest.Keys == counts.Keys - {d};
      HistorySum(rest);
      TotalRemove(counts, d);
    }
  }

  /** The average is the mean of the counts, whatever order they are added in; 0 for an empty table. */
  lemma AverageIsMean(counts: map<string, real>)
    ensures |counts| == 0 ==> Average(counts) == 0.0
    ensures |counts| > 0 ==> Average(counts) == Total(counts) / (|counts| as real)
  {
    HistorySum(counts);
  }

  /** Setting one date's count moves the total by the difference. */
  lemma TotalUpdate(counts: map<string, real>, d: string, v: real)
    ensures Total(counts[d := v]) == Total(counts) - Lookup(counts, d) + v
  {
    var updated := counts[d := v];
    TotalRemove(updated, d);
    if d in counts {
      TotalRemove(counts, d);
      assert updated - {d} == counts - {d};
    } else {
      assert updated - {d} == counts;
    }
  }

  /** Removing a date takes its count out of the total. */
  lemma TotalDelete(counts: map<string, real>, d: string)
    ensures Total(counts - {d}) == Total(counts) - Lookup(counts, d)
  {
    if d in counts {
      TotalRemove(counts, d);
    } else {
      assert counts - {d} == counts;
    }
  }

  /** `n` days counted `x` each: `x` added up `n` times. */
  ghost function Repeated(n: nat, x: real): real
  {
    if n == 0 then 0.0 else x + Repeated(n - 1, x)
  }

  lemma {:induction false} RepeatedIsProduct(n: nat, x: real)
    ensures Repeated(n, x) == (n as real) * x
  {
    if n > 0 {
      RepeatedIsProduct(n - 1, x);
    }
  }

  /** A total of counts that all lie between `lo` and `hi` lies between `|counts|` times each. */
  lemma {:induction false} TotalBounds(counts: map<string, real>, lo: real, hi: real)
    requires forall d :: d in counts ==> lo <= counts[d] <= hi
    ensures Repeated(|counts|, lo) <= Total(counts) <= Repeated(|counts|, hi)
    decreases |counts|
  {
    if counts != map[] {
      var d :| d in counts;
      TotalRemove(counts, d);
      var rest := counts - {d};
      assert rest.Keys == counts.Keys - {d};
      assert |counts| == |rest| + 1;
      TotalBounds(rest, lo, hi);
    }
  }

  /** A total between `n` times `lo` and `n` times `hi`, shared out over `n` days, is between `lo` and `hi`. */
  lemma MeanBetween(n: nat, total: real, lo: real, hi: real)
    requires n > 0
    requires Repeated(n, lo) <= total <= Repeated(n, hi)
    ensures lo <= total / (n as real) <= hi
  {
    RepeatedIsProduct(n, lo);
    RepeatedIsProduct(n, hi);
    var m := n as real;
    assert m * lo <= total <= m * hi;
    MulDiv(lo, m);
    MulDiv(hi, m);
    DivMono(m * lo, total, m);
    DivMono(total, m * hi, m);
  }

  lemma MulDiv(x: real, m: real)
    requires m > 0.0
    ensures (m * x) / m == x
  {
  }

  /** Dividing by the same positive number keeps the order. */
  lemma DivMono(a: real, b: real, m: real)
    requires m > 0.0 && a <= b
    ensures a / m <= b / m
  {
    assert b / m - a / m == (b - a) / m;
  }

  /** The average lies between the smallest and the largest count. */
  lemma AverageBounds(counts: map<string, real>, lo: real, hi: real)
    requires |counts| > 0
    requires forall d :: d in counts ==> lo <= counts[d] <= hi
    ensures lo <= Average(counts) <= hi
  {
    AverageIsMean(counts);
    TotalBounds(counts, lo, hi);
    MeanBetween(|counts|, Total(counts), lo, hi);
  }

  lemma TwoDaysTotal(counts: map<string, real>, d1: string, d2: string, a: real, b: real)
    requires d1 != d2 && counts == map[d1 := a, d2 := b]
    ensures |counts| == 2 && Total(counts) == a + b
  {
    TotalRemove(counts, d1);
    var rest := counts - {d1};
    assert rest == map[d2 := b];
    TotalRemove(rest, d2);
    assert rest - {d2} == map[];
    assert counts.Keys == {d1, d2};
  }

  /** Two days average half their sum: days counted 2 and 4 average 3. */
  lemma AverageOfTwoDays(d1: string, d2: string, a: real, b: real)
    requires d1 != d2
    ensures Average(map[d1 := a, d2 := b]) == (a + b) / 2.0
  {
    var counts := map[d1 := a, d2 := b];
    TwoDaysTotal(counts, d1, d2, a, b);
    AverageIsMean(counts);
  }
}
