/**
 * The counter screen's state and its handlers: tap, save (add or edit a
 * day), delete a day, and the start-up load. The clock is not read here:
 * each handler is given the current date as `today`.
 */
module App {
  import opened Wrappers
  import opened Tally
  import JsNumber

  class TallyStore {
    /** The date-to-count table. */
    var counts: map<string, real>
    /** The count shown for today. */
    var todayCount: real
    /** The average per day shown on screen. */
    var average: real
    /** What local storage holds under the key `chromebook_counts`: `None` until a table is first written. */
    var saved: Option<map<string, real>>

    /** The average on screen is always the mean of the table. */
    ghost predicate Valid()
      reads this
    {
      average == Average(counts)
    }

    /** The count on screen is the one the table holds for `today`. */
    ghost predicate ShowsToday(today: string)
      reads this
    {
      todayCount == Lookup(counts, today)
    }

    /** Storage holds exactly the table in memory. */
    ghost predicate Persisted()
      reads this
    {
      saved == Some(counts)
    }

    /** The screen before the load: an empty table, both figures 0, and whatever storage already holds. */
    constructor (stored: Option<map<string, real>>)
      ensures Valid()
      ensures counts == map[] && todayCount == 0.0 && average == 0.0 && saved == stored
    {
      counts := map[];
      todayCount := 0.0;
      average := 0.0;
      saved := stored;
    }

    /** The start-up effect: when storage holds a table, show it, today's count from it, and its average. */
    method Load(today: string)
      requires Valid()
      modifies this
      ensures Valid() && saved == old(saved)
      ensures old(saved).None? ==> counts == old(counts) && todayCount == old(todayCount)
      ensures old(saved).Some? ==> counts == old(saved).value && Persisted() && ShowsToday(today)
    {
      match saved
      case Some(stored) =>
        counts := stored;
        todayCount := Lookup(stored, today);
        average := Average(stored);
      case None =>
    }

    /** `handleTap`: one more for today, written to storage, average recomputed. */
    method Tap(today: string)
      requires Valid()
      modifies this
      ensures counts == old(counts)[today := Lookup(old(counts), today) + 1.0]
      ensures todayCount == Lookup(old(counts), today) + 1.0
      ensures Valid() && Persisted() && ShowsToday(today)
    {
      var newCount := Lookup(counts, today) + 1.0;
      var newCounts := counts[today := newCount];
      counts := newCounts;
      todayCount := newCount;
      saved := Some(newCounts);
      average := Average(newCounts);
    }

    /**
     * `saveAdd` and `saveEdit`: with a non-empty date and a count text that
     * converts to a number, set that date's count (adding or overwriting it);
     * otherwise do nothing at all.
     */
    method Save(date: string, countText: string, today: string)
      requires Valid()
      modifies this
      ensures Valid()
      ensures date == [] || JsNumber.ToNumber(countText).None? ==> unchanged(this)
      ensures date != [] && JsNumber.ToNumber(countText).Some? ==>
        var n := JsNumber.ToNumber(countText).value;
        && counts == old(counts)[date := n]
        && todayCount == (if date == today then n else old(todayCount))
        && Persisted()
      ensures old(ShowsToday(today)) ==> ShowsToday(today)
    {
      var parsed := JsNumber.ToNumber(countText);
      if date == [] || parsed.None? {
        return;
      }
      var n := parsed.value;
      var newCounts := counts[date := n];
      counts := newCounts;
      if date == today {
        todayCount := n;
      }
      saved := Some(newCounts);
      average := Average(newCounts);
    }

    /** `deleteDay`: drop the date (if it is there), written to storage; deleting today shows 0. */
    method Delete(date: string, today: string)
      requires Valid()
      modifies this
      ensures counts == old(counts) - {date}
      ensures todayCount == if date == today then 0.0 else old(todayCount)
      ensures Valid() && Persisted()
      ensures date !in old(counts) ==> counts == old(counts) && average == old(average)
      ensures old(ShowsToday(today)) ==> ShowsToday(today)
    {
      var newCounts := counts - {date};
      if date !in counts {
        assert newCounts == counts;
      }
      counts := newCounts;
      if date == today {
        todayCount := 0.0;
      }
      saved := Some(newCounts);
      average := Average(newCounts);
    }
  }
}
