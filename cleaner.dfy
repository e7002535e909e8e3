/**
 * The expiry filter run after scraping: it walks the stored contest
 * records and drops the ones with no start date and the ones whose start
 * date has already passed, keeping everything else in order. Reading and
 * writing the JSON file and the wall clock are outside the model: the
 * records and `today` are parameters.
 */
module Cleaner {
  import opened Wrappers
  import opened Json
  import opened Dates

  /** What the filter does with one record, and why. */
  datatype Verdict =
    | RemovedEmpty     // `start_date` missing, null or falsy
    | RemovedExpired   // `start_date` parses to a day strictly before today
    | KeptUnparsed     // `start_date` present but does not parse: kept on error
    | KeptOpen         // `start_date` is today or later

  function Classify(entry: Record, today: Date): (v: Verdict)
    ensures v.RemovedEmpty? <==> IsFalsy(Get(entry, START_DATE))
    ensures v.RemovedExpired? ==> StrToDate(Get(entry, START_DATE)).Some? && Before(StrToDate(Get(entry, START_DATE)).value, today)
    ensures v.KeptOpen? ==> StrToDate(Get(entry, START_DATE)).Some? && !Before(StrToDate(Get(entry, START_DATE)).value, today)
    ensures v.KeptUnparsed? || v.RemovedEmpty? <==> StrToDate(Get(entry, START_DATE)).None?
  {
    var startDate := Get(entry, START_DATE);
    if IsFalsy(startDate) then RemovedEmpty
    else
      match StrToDate(startDate)
      case None => KeptUnparsed
      case Some(d) => if Before(d, today) then RemovedExpired else KeptOpen
  }

  predicate IsKept(entry: Record, today: Date)
  {
    Classify(entry, today).KeptUnparsed? || Classify(entry, today).KeptOpen?
  }

  /** The records the filter keeps, in their original order. */
  function Cleaned(entries: seq<Record>, today: Date): (r: seq<Record>)
    ensures |r| <= |entries|
    decreases |entries|
  {
    if entries == [] then []
    else
      var last := entries[|entries| - 1];
      Cleaned(entries[..|entries| - 1], today) + (if IsKept(last, today) then [last] else [])
  }

  /** How many records receive verdict `v`. */
  function Count(entries: seq<Record>, today: Date, v: Verdict): (n: nat)
    ensures n <= |entries|
    decreases |entries|
  {
    if entries == [] then 0
    else
      var last := entries[|entries| - 1];
      Count(entries[..|entries| - 1], today, v) + (if Classify(last, today) == v then 1 else 0)
  }

  /**
   * The loop of `clean_data`: the kept records and the two removal counters.
   * The three counters add up to the number of records read.
   */
  method CleanData(entries: seq<Record>, today: Date)
    returns (cleaned: seq<Record>, removedEmpty: nat, removedExpired: nat)
    ensures cleaned == Cleaned(entries, today)
    ensures removedEmpty == Count(entries, today, RemovedEmpty)
    ensures removedExpired == Count(entries, today, RemovedExpired)
    ensures |entries| == removedEmpty + removedExpired + |cleaned|
  {
    cleaned, removedEmpty, removedExpired := [], 0, 0;
    for i := 0 to |entries|
      invariant cleaned == Cleaned(entries[..i], today)
      invariant removedEmpty == Count(entries[..i], today, RemovedEmpty)
      invariant removedExpired == Count(entries[..i], today, RemovedExpired)
    {
      var entry := entries[i];
      assert entries[..i + 1][..i] == entries[..i];
      var startDate := Get(entry, START_DATE);
      if IsFalsy(startDate) {
        removedEmpty := removedEmpty + 1;
      } else {
        match StrToDate(startDate)
        case None =>
          cleaned := cleaned + [entry];
        case Some(d) =>
          if Before(d, today) {
            removedExpired := removedExpired + 1;
          } else {
            cleaned := cleaned + [entry];
          }
      }
    }
    assert entries[..|entries|] == entries;
    Conservation(entries, today);
  }

  // ---------------------------------------------------------------------
  // What each record's verdict is

  /**
   * A record whose `start_date` spells a real date is removed exactly when
   * that date is strictly before today; one dated today is kept.
   */
  lemma ClassifyDated(entry: Record, today: Date, d: Date, ds: Style, ms: Style)
    requires ValidDate(d) && DayStyleFits(ds, d.day) && MonthStyleFits(ms, d.month)
    requires START_DATE in entry && entry[START_DATE] == Str(Spelling(d, ds, ms))
    ensures Classify(entry, today) == if Before(d, today) then RemovedExpired else KeptOpen
  {
    ParseSpelling(d, ds, ms);
  }

  /** The record written with today's date in "DD/MM/YYYY" form stays. */
  lemma DatedTodayIsKept(entry: Record, today: Date)
    requires ValidDate(today)
    requires START_DATE in entry && entry[START_DATE] == Str(FormatDate(today))
    ensures Classify(entry, today) == KeptOpen
  {
    ClassifyDated(entry, today, today, Padded, Padded);
  }

  /**
   * A present, truthy `start_date` that is not the text of any real date
   * (or is not a string at all) makes the parse fail, and the record is kept.
   */
  lemma ClassifyUnparsable(entry: Record, today: Date)
    requires START_DATE in entry && !IsFalsy(entry[START_DATE])
    requires entry[START_DATE].Str? ==>
               forall d: Date, ds: Style, ms: Style ::
                 ValidDate(d) && DayStyleFits(ds, d.day) && MonthStyleFits(ms, d.month)
                 ==> entry[START_DATE].s != Spelling(d, ds, ms)
    ensures Classify(entry, today) == KeptUnparsed
  {
    var v := entry[START_DATE];
    if v.Str? && ParseDate(v.s).Some? {
      ParsedIsSpelling(v.s);
      assert false;
    }
  }

  // ---------------------------------------------------------------------
  // Properties of the whole pass

  /** Kept records are appended unchanged: the output is a subsequence of the input. */
  lemma {:induction false} CleanedIsSubsequence(entries: seq<Record>, today: Date)
    ensures IsSubsequence(Cleaned(entries, today), entries)
    decreases |entries|
  {
    if entries != [] {
      var init := entries[..|entries| - 1];
      var last := entries[|entries| - 1];
      CleanedIsSubsequence(init, today);
      var c := Cleaned(init, today);
      if IsKept(last, today) {
        assert Cleaned(entries, today) == c + [last];
        assert (c + [last])[..|c|] == c;
      } else {
        assert Cleaned(entries, today) == c;
      }
    }
  }

  /**
   * Every record occurs in the output as often as in the input when it is
   * kept, and not at all when it is removed.
   */
  lemma {:induction false} CleanedMultiplicity(entries: seq<Record>, today: Date, e: Record)
    ensures multiset(Cleaned(entries, today))[e] == if IsKept(e, today) then multiset(entries)[e] else 0
    decreases |entries|
  {
    if entries != [] {
      var init := entries[..|entries| - 1];
      var last := entries[|entries| - 1];
      assert entries == init + [last];
      CleanedMultiplicity(init, today, e);
    }
  }

  /** A record is in the output exactly when it is in the input and kept. */
  lemma CleanedMembers(entries: seq<Record>, today: Date, e: Record)
    ensures e in Cleaned(entries, today) <==> e in entries && IsKept(e, today)
  {
    CleanedMultiplicity(entries, today, e);
  }

  /** Every record read is removed as empty, removed as expired, or kept. */
  lemma {:induction false} Conservation(entries: seq<Record>, today: Date)
    ensures |entries| == Count(entries, today, RemovedEmpty) + Count(entries, today, RemovedExpired)
                         + |Cleaned(entries, today)|
    decreases |entries|
  {
    if entries != [] {
      Conservation(entries[..|entries| - 1], today);
    }
  }

  /** Every record is counted under its own verdict. */
  lemma {:induction false} CountedUnderVerdict(entries: seq<Record>, today: Date, k: nat)
    requires k < |entries|
    ensures Count(entries, today, Classify(entries[k], today)) >= 1
    decreases |entries|
  {
    if k < |entries| - 1 {
      var init := entries[..|entries| - 1];
      assert init[k] == entries[k];
      CountedUnderVerdict(init, today, k);
    }
  }

  /** A record with a missing, null or empty `start_date` is removed and counted in `removed_empty`. */
  lemma EmptyStartDateIsRemoved(entries: seq<Record>, today: Date, k: nat)
    requires k < |entries| && IsFalsy(Get(entries[k], START_DATE))
    ensures entries[k] !in Cleaned(entries, today)
    ensures Count(entries, today, RemovedEmpty) >= 1
  {
    CleanedMembers(entries, today, entries[k]);
    CountedUnderVerdict(entries, today, k);
  }

  /**
   * A record whose `start_date` spells a real date strictly before today is
   * removed and counted in `removed_expired`.
   */
  lemma ExpiredIsRemoved(entries: seq<Record>, today: Date, k: nat, d: Date, ds: Style, ms: Style)
    requires k < |entries|
    requires ValidDate(d) && DayStyleFits(ds, d.day) && MonthStyleFits(ms, d.month) && Before(d, today)
    requires START_DATE in entries[k] && entries[k][START_DATE] == Str(Spelling(d, ds, ms))
    ensures entries[k] !in Cleaned(entries, today)
    ensures Count(entries, today, RemovedExpired) >= 1
  {
    ClassifyDated(entries[k], today, d, ds, ms);
    CleanedMembers(entries, today, entries[k]);
    CountedUnderVerdict(entries, today, k);
  }

  lemma {:induction false} CleanedOfKept(entries: seq<Record>, today: Date)
    requires forall i :: 0 <= i < |entries| ==> IsKept(entries[i], today)
    ensures Cleaned(entries, today) == entries
    ensures Count(entries, today, RemovedEmpty) == 0 && Count(entries, today, RemovedExpired) == 0
    decreases |entries|
  {
    if entries != [] {
      var init := entries[..|entries| - 1];
      CleanedOfKept(init, today);
      assert init + [entries[|entries| - 1]] == entries;
    }
  }

  /** Filtering the output again with the same `today` removes nothing. */
  lemma CleanedIdempotent(entries: seq<Record>, today: Date)
    ensures Cleaned(Cleaned(entries, today), today) == Cleaned(entries, today)
    ensures Count(Cleaned(entries, today), today, RemovedEmpty) == 0
    ensures Count(Cleaned(entries, today), today, RemovedExpired) == 0
  {
    var c := Cleaned(entries, today);
    forall i | 0 <= i < |c| ensures IsKept(c[i], today) {
      CleanedMembers(entries, today, c[i]);
    }
    CleanedOfKept(c, today);
  }

  /** `a` is `b` with some elements left out, the rest in their order. */
  ghost predicate IsSubsequence<T>(a: seq<T>, b: seq<T>)
    decreases |b|
  {
    if a == [] then true
    else if b == [] then false
    else
      (a[|a| - 1] == b[|b| - 1] && IsSubsequence(a[..|a| - 1], b[..|b| - 1]))
      || IsSubsequence(a, b[..|b| - 1])
  }
}
