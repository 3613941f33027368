/**
 * The journal of daily.py (`Daily`): turns a date token into a date key,
 * finds the most recent date with entries within a fixed window, reads the
 * entries of a date with a fallback to that most recent date, and passes
 * adding, deleting and editing through to the entry store.
 *
 * The clock is a parameter: `today` is what `date.today()` returns while
 * the operation runs.
 */
module Journal {
  import opened Wrappers
  import opened Calendar
  import opened Resolver
  import opened Store

  /** How many days, today included, the search for the latest entry covers. */
  const Lookback: int := 30

  /** `compute_date(-i)`: the key of the day `i` days before `today`. */
  function DayBack(today: Date, i: int): string
    requires ValidDate(today)
  {
    ComputeDate(today, -i)
  }

  /** The first of the days `i`, `i + 1`, ..., `Lookback - 1` back from
      `today` whose date has entries. */
  function LatestFrom(files: map<string, string>, today: Date, i: int): (r: Option<string>)
    requires ValidDate(today) && 0 <= i
    ensures r.Some? ==> Has(files, r.value) && r.value != ""
    decreases Lookback - i
  {
    if i >= Lookback then None
    else if Has(files, DayBack(today, i)) then Some(DayBack(today, i))
    else LatestFrom(files, today, i + 1)
  }

  /** What `get_latest_entry` finds. */
  function Latest(files: map<string, string>, today: Date): (r: Option<string>)
    requires ValidDate(today)
    ensures r.Some? ==> Has(files, r.value) && r.value != ""
  {
    LatestFrom(files, today, 0)
  }

  /** Nothing is found from day `i` on exactly when none of those days has
      entries. */
  lemma {:induction false} LatestFromNone(files: map<string, string>, today: Date, i: int)
    requires ValidDate(today) && 0 <= i <= Lookback
    ensures LatestFrom(files, today, i).None? <==>
              forall j :: i <= j < Lookback ==> !Has(files, DayBack(today, j))
    decreases Lookback - i
  {
    if i == Lookback {
    } else if Has(files, DayBack(today, i)) {
      assert LatestFrom(files, today, i).Some?;
      assert !(forall j :: i <= j < Lookback ==> !Has(files, DayBack(today, j))) by {
        assert i <= i < Lookback && Has(files, DayBack(today, i));
      }
    } else {
      LatestFromNone(files, today, i + 1);
      assert LatestFrom(files, today, i) == LatestFrom(files, today, i + 1);
      if LatestFrom(files, today, i).None? {
        forall j | i <= j < Lookback ensures !Has(files, DayBack(today, j)) {
        }
      }
    }
  }

  /** What is found from day `i` on is the first of those days with entries. */
  lemma {:induction false} LatestFromSome(files: map<string, string>, today: Date, i: int) returns (j: int)
    requires ValidDate(today) && 0 <= i <= Lookback && LatestFrom(files, today, i).Some?
    ensures i <= j < Lookback && LatestFrom(files, today, i).value == DayBack(today, j)
    ensures Has(files, DayBack(today, j))
    ensures forall m :: i <= m < j ==> !Has(files, DayBack(today, m))
    decreases Lookback - i
  {
    var here := DayBack(today, i);
    if Has(files, here) {
      j := i;
    } else {
      var rest := LatestFrom(files, today, i + 1);
      assert LatestFrom(files, today, i) == rest;
      j := LatestFromSome(files, today, i + 1);
      forall m | i <= m < j ensures !Has(files, DayBack(today, m)) {
        if m == i {
          assert DayBack(today, m) == here;
        }
      }
    }
  }

  /** The latest entry is the first day, walking back from today, whose date
      has entries; there is none exactly when no day of the window has any. */
  lemma LatestIsFirstEntry(files: map<string, string>, today: Date)
    requires ValidDate(today)
    ensures Latest(files, today).None? <==>
              forall j :: 0 <= j < Lookback ==> !Has(files, DayBack(today, j))
    ensures Latest(files, today).Some? ==>
              exists j :: 0 <= j < Lookback && Latest(files, today).value == DayBack(today, j) &&
                          Has(files, DayBack(today, j)) &&
                          forall m :: 0 <= m < j ==> !Has(files, DayBack(today, m))
  {
    LatestFromNone(files, today, 0);
    if Latest(files, today).Some? {
      var j := LatestFromSome(files, today, 0);
    }
  }

  /** A day `Lookback` or more days back is never found, even when its date
      has entries (for days Python's calendar can represent). */
  lemma NeverOlderThanLookback(files: map<string, string>, today: Date, j: int)
    requires ValidDate(today) && today.year <= 9999
    requires Lookback <= j && 0 <= AddDays(today, -j).year
    ensures Latest(files, today) != Some(DayBack(today, j))
  {
    if Latest(files, today).Some? {
      var i := LatestFromSome(files, today, 0);
      var near, far := AddDays(today, -i), AddDays(today, -j);
      FurtherBackIsEarlier(today, i, j);
      assert near == today || Before(near, today);
      assert Before(far, near);
      FormatInjective(near, far);
    }
  }

  /** The two outcomes of `translate_date`: a date key (none when `last`
      finds nothing), or the `IllegalDateException` of `_validate_date`. */
  datatype Resolution = Resolved(date: Option<string>) | Rejected(error: DateError)

  const NoEntriesWarning: string := "No entries found for the last 30 days"

  function FallbackWarning(d: string, latest: string): string {
    "Nothing found for " + d + ", showing results for " + latest
  }

  class Daily {
    const driver: FsDriver

    constructor (driver: FsDriver)
      ensures this.driver == driver
    {
      this.driver := driver;
    }

    predicate HasEntry(d: string)
      reads driver
    {
      Has(driver.files, d)
    }

    /** `translate_date`. */
    method TranslateDate(token: string, today: Date) returns (r: Resolution)
      requires ValidDate(today)
      ensures Normalize(token) in TodayWords ==> r == Resolved(Some(ComputeDate(today, 0)))
      ensures Normalize(token) in YesterdayWords ==> r == Resolved(Some(ComputeDate(today, -1)))
      ensures Normalize(token) in LastWords ==> r == Resolved(Latest(driver.files, today))
      ensures !IsKeyword(Normalize(token)) ==>
                (r == Resolved(Some(Normalize(token))) <==> IsDateShape(Normalize(token)))
      ensures !IsKeyword(Normalize(token)) && Normalize(token) == "" ==> r == Rejected(EmptyDate)
      ensures !IsKeyword(Normalize(token)) && Normalize(token) != "" && !IsDateShape(Normalize(token)) ==>
                r == Rejected(BadFormat(Normalize(token)))
    {
      var t := Normalize(token);
      if t in TodayWords {
        return Resolved(Some(ComputeDate(today, 0)));
      }
      if t in YesterdayWords {
        return Resolved(Some(ComputeDate(today, -1)));
      }
      if t in LastWords {
        var latest := GetLatestEntry(today);
        return Resolved(latest);
      }
      StripIdempotent(Lower(token));
      var error := ValidateDate(t);
      if error.Some? {
        return Rejected(error.value);
      }
      return Resolved(Some(t));
    }

    /** `get_latest_entry`: walks back from today, at most `Lookback` days. */
    method GetLatestEntry(today: Date) returns (r: Option<string>)
      requires ValidDate(today)
      ensures r == Latest(driver.files, today)
    {
      var i := 0;
      while i < Lookback
        invariant 0 <= i <= Lookback
        invariant LatestFrom(driver.files, today, i) == Latest(driver.files, today)
      {
        var d := ComputeDate(today, -i);
        var found := HasEntry(d);
        if found {
          return Some(d);
        }
        i := i + 1;
      }
      return None;
    }

    /** `get_entry`: the entries of `d`, or else those of the latest date
        with a warning, or else nothing and a warning. */
    method GetEntry(d: string, today: Date) returns (r: Result)
      requires ValidDate(today)
      ensures Has(driver.files, d) ==> r == Result(Items(driver.files, d), [], d)
      ensures !Has(driver.files, d) && Latest(driver.files, today).Some? ==>
                var latest := Latest(driver.files, today).value;
                r == Result(Items(driver.files, latest), [FallbackWarning(d, latest)], latest)
      ensures !Has(driver.files, d) && Latest(driver.files, today).None? ==>
                r == Result([], [NoEntriesWarning], "")
    {
      r := EmptyResult;
      var date := d;
      var present := HasEntry(d);
      if !present {
        var latest := GetLatestEntry(today);
        if latest.None? || latest.value == "" {
          r := r.(warnings := r.warnings + [NoEntriesWarning]);
          return;
        }
        r := r.(warnings := r.warnings + [FallbackWarning(d, latest.value)]);
        date := latest.value;
      }
      var items := driver.GetEntry(date);
      r := r.(items := items, dailyDate := date);
    }

    method NukeEntries(d: string) returns (removed: bool)
      modifies driver
      ensures removed == old(Has(driver.files, d))
      ensures driver.files == old(driver.files) - {FileName(d)}
    {
      removed := driver.NukeEntries(d);
    }

    method EditEntry(d: string, edited: string) returns (r: Result)
      modifies driver
      ensures !old(Has(driver.files, d)) ==>
                driver.files == old(driver.files) && r == Result([], [NoEntryWarning(d)], "")
      ensures old(Has(driver.files, d)) && edited == "" ==>
                driver.files == old(driver.files) - {FileName(d)} && r == Result([], [DeletedWarning(d)], "")
      ensures old(Has(driver.files, d)) && edited != "" ==>
                driver.files == old(driver.files)[FileName(d) := edited] && r == EmptyResult
    {
      r := driver.EditEntry(d, edited);
    }

    method AddEntry(d: string, content: string)
      modifies driver
      ensures driver.files == old(driver.files)[FileName(d) := old(TextOf(driver.files, d)) + content + driver.linesep]
    {
      driver.AddEntry(d, content);
    }
  }
}
