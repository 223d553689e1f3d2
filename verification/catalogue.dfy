/**
  The catalogue: the files of a directory tree grouped by the year and
  month (`YYYY-MM`) found in each directory's path, and the lines of the
  description that grouping gets, by what each line says.
 */
module Catalogue {
  import opened Wrappers
  import opened Text

  // ---------------------------------------------------------------------------
  // Finding `YYYY-MM` in a directory path
  // ---------------------------------------------------------------------------

  /** Four digits, a hyphen and two digits start at `i`. */
  predicate DateAt(s: string, i: int) {
    0 <= i && i + 7 <= |s| && AllDigits(s[i..i + 4]) && s[i + 4] == '-' && AllDigits(s[i + 5..i + 7])
  }

  /** The first position at or after `from` where a date starts. */
  function FirstDateFrom(s: string, from: nat): (r: Option<nat>)
    requires from <= |s|
    ensures r.Some? ==> from <= r.value && DateAt(s, r.value)
    ensures r.Some? ==> forall j :: from <= j < r.value ==> !DateAt(s, j)
    ensures r.None? ==> forall j :: from <= j ==> !DateAt(s, j)
    decreases |s| - from
  {
    if from + 7 > |s| then None
    else if DateAt(s, from) then Some(from)
    else FirstDateFrom(s, from + 1)
  }

  /** A year and a month, as the digit strings found. */
  datatype YearMonth = YearMonth(year: string, month: string)

  /** `re.search(r"(\d{4})-(\d{2})", root)`: the groups of the leftmost match, if any. */
  function SearchYearMonth(s: string): (r: Option<YearMonth>)
    ensures r.None? <==> forall i :: !DateAt(s, i)
    ensures r.Some? ==> exists i :: DateAt(s, i) && (forall j :: 0 <= j < i ==> !DateAt(s, j))
                                   && r.value == YearMonth(s[i..i + 4], s[i + 5..i + 7])
    ensures r.Some? ==> |r.value.year| == 4 && AllDigits(r.value.year) && |r.value.month| == 2 && AllDigits(r.value.month)
  {
    match FirstDateFrom(s, 0)
    case None => None
    case Some(i) => Some(YearMonth(s[i..i + 4], s[i + 5..i + 7]))
  }

  // ---------------------------------------------------------------------------
  // Collecting the files of a directory walk
  // ---------------------------------------------------------------------------

  /** One step of the walk: a directory's path and the names of the files directly in it. */
  datatype Dir = Dir(root: string, files: seq<string>)

  /** The files of one month, in the order they were met. */
  datatype MonthBucket = MonthBucket(month: string, files: seq<string>)

  /** The months of one year, in the order they were first met. */
  datatype YearBucket = YearBucket(year: string, months: seq<MonthBucket>)

  /**
    What the walk collects: `year_structure` (dictionaries keep insertion
    order), `undated_files`, and every file name met (`all_files`, kept
    as a list; only its set of names is ever used).
   */
  datatype Collected = Collected(years: seq<YearBucket>, undated: seq<string>, allFiles: seq<string>)

  function MonthKeys(ms: seq<MonthBucket>): (r: seq<string>)
    ensures |r| == |ms| && forall i :: 0 <= i < |ms| ==> r[i] == ms[i].month
  {
    if |ms| == 0 then [] else [ms[0].month] + MonthKeys(ms[1..])
  }

  function YearKeys(ys: seq<YearBucket>): (r: seq<string>)
    ensures |r| == |ys| && forall i :: 0 <= i < |ys| ==> r[i] == ys[i].year
  {
    if |ys| == 0 then [] else [ys[0].year] + YearKeys(ys[1..])
  }

  /** `year_structure[year][month]`, if both keys are there. */
  function LookupMonth(ms: seq<MonthBucket>, m: string): Option<seq<string>> {
    if |ms| == 0 then None
    else if ms[0].month == m then Some(ms[0].files)
    else LookupMonth(ms[1..], m)
  }

  function LookupYear(ys: seq<YearBucket>, y: string): Option<seq<MonthBucket>> {
    if |ys| == 0 then None
    else if ys[0].year == y then Some(ys[0].months)
    else LookupYear(ys[1..], y)
  }

  function Lookup(c: Collected, y: string, m: string): Option<seq<string>> {
    match LookupYear(c.years, y)
    case None => None
    case Some(ms) => LookupMonth(ms, m)
  }

  /** Creates the month's list if it is new, then appends the files to it. */
  function AddToMonths(ms: seq<MonthBucket>, m: string, files: seq<string>): (r: seq<MonthBucket>)
    ensures MonthKeys(r) == MonthKeys(ms) + (if m in MonthKeys(ms) then [] else [m])
  {
    if |ms| == 0 then [MonthBucket(m, files)]
    else if ms[0].month == m then [ms[0].(files := ms[0].files + files)] + ms[1..]
    else
      var r := [ms[0]] + AddToMonths(ms[1..], m, files);
      assert MonthKeys(ms) == [ms[0].month] + MonthKeys(ms[1..]);
      assert m in MonthKeys(ms) <==> m in MonthKeys(ms[1..]);
      r
  }

  /** Creates the year's and the month's entries if they are new, then appends the files. */
  function AddToYears(ys: seq<YearBucket>, y: string, m: string, files: seq<string>): (r: seq<YearBucket>)
    ensures YearKeys(r) == YearKeys(ys) + (if y in YearKeys(ys) then [] else [y])
  {
    if |ys| == 0 then [YearBucket(y, [MonthBucket(m, files)])]
    else if ys[0].year == y then [ys[0].(months := AddToMonths(ys[0].months, m, files))] + ys[1..]
    else
      var r := [ys[0]] + AddToYears(ys[1..], y, m, files);
      assert YearKeys(ys) == [ys[0].year] + YearKeys(ys[1..]);
      assert y in YearKeys(ys) <==> y in YearKeys(ys[1..]);
      r
  }

  /** One step of the walk: the directory's files go to its month, or to the undated list. */
  function AddDir(c: Collected, d: Dir): Collected {
    match SearchYearMonth(d.root)
    case Some(ym) => c.(years := AddToYears(c.years, ym.year, ym.month, d.files), allFiles := c.allFiles + d.files)
    case None => c.(undated := c.undated + d.files, allFiles := c.allFiles + d.files)
  }

  /** The whole walk, directory by directory in the order given. */
  function Collect(walk: seq<Dir>): (c: Collected)
    ensures multiset(c.undated) <= multiset(c.allFiles)
  {
    if |walk| == 0 then Collected([], [], [])
    else AddDir(Collect(walk[..|walk| - 1]), Last(walk))
  }

  /** Adding files to a month extends that month's list and no other. */
  lemma {:induction false} LookupAddToMonths(ms: seq<MonthBucket>, m: string, files: seq<string>, m': string)
    ensures LookupMonth(AddToMonths(ms, m, files), m') ==
              if m' == m then Some(LookupMonth(ms, m).GetOr([]) + files) else LookupMonth(ms, m')
  {
    if |ms| > 0 {
      var r := AddToMonths(ms, m, files);
      assert r[0] == if ms[0].month == m then ms[0].(files := ms[0].files + files) else ms[0];
      assert r[1..] == if ms[0].month == m then ms[1..] else AddToMonths(ms[1..], m, files);
      if ms[0].month != m {
        LookupAddToMonths(ms[1..], m, files, m');
      }
    } else {
      assert [MonthBucket(m, files)][1..] == [];
      assert [] + files == files;
    }
  }

  /** Adding files to a year's month changes that year's months only. */
  lemma {:induction false} LookupAddToYears(ys: seq<YearBucket>, y: string, m: string, files: seq<string>, y': string)
    ensures LookupYear(AddToYears(ys, y, m, files), y') ==
              if y' == y then Some(AddToMonths(LookupYear(ys, y).GetOr([]), m, files)) else LookupYear(ys, y')
  {
    if |ys| > 0 {
      var r := AddToYears(ys, y, m, files);
      assert r[0] == if ys[0].year == y then ys[0].(months := AddToMonths(ys[0].months, m, files)) else ys[0];
      assert r[1..] == if ys[0].year == y then ys[1..] else AddToYears(ys[1..], y, m, files);
      if ys[0].year != y {
        LookupAddToYears(ys[1..], y, m, files, y');
      }
    }
  }

  /** A directory dated (y, m) extends the list of (y, m); any other directory leaves it alone. */
  lemma {:induction false} LookupAddDir(c: Collected, d: Dir, y: string, m: string)
    ensures Lookup(AddDir(c, d), y, m) ==
              if SearchYearMonth(d.root) == Some(YearMonth(y, m)) then Some(Lookup(c, y, m).GetOr([]) + d.files)
              else Lookup(c, y, m)
  {
    match SearchYearMonth(d.root) {
      case None =>
      case Some(ym) =>
        LookupAddToYears(c.years, ym.year, ym.month, d.files, y);
        if ym.year == y {
          LookupAddToMonths(LookupYear(c.years, y).GetOr([]), ym.month, d.files, m);
        }
    }
  }

  /** The directories of the walk dated (y, m). */
  predicate DatedAs(d: Dir, y: string, m: string) {
    SearchYearMonth(d.root) == Some(YearMonth(y, m))
  }

  /** The files of the directories dated (y, m), in walk order. */
  function FilesDatedAs(walk: seq<Dir>, y: string, m: string): seq<string> {
    if |walk| == 0 then []
    else FilesDatedAs(walk[..|walk| - 1], y, m) + (if DatedAs(Last(walk), y, m) then Last(walk).files else [])
  }

  /** The files of the directories without a date, in walk order. */
  function UndatedFiles(walk: seq<Dir>): seq<string> {
    if |walk| == 0 then []
    else UndatedFiles(walk[..|walk| - 1]) + (if SearchYearMonth(Last(walk).root).None? then Last(walk).files else [])
  }

  /** Some directory of the walk is dated (y, m). */
  predicate AnyDated(walk: seq<Dir>, y: string, m: string) {
    exists i :: 0 <= i < |walk| && DatedAs(walk[i], y, m)
  }

  lemma {:induction false} AnyDatedSnoc(walk: seq<Dir>, y: string, m: string)
    requires |walk| > 0
    ensures AnyDated(walk, y, m) <==> AnyDated(walk[..|walk| - 1], y, m) || DatedAs(Last(walk), y, m)
  {
    var front := walk[..|walk| - 1];
    assert forall i :: 0 <= i < |front| ==> front[i] == walk[i];
    if AnyDated(walk, y, m) {
      var i :| 0 <= i < |walk| && DatedAs(walk[i], y, m);
      assert i < |front| ==> DatedAs(front[i], y, m);
    }
    if AnyDated(front, y, m) {
      var i :| 0 <= i < |front| && DatedAs(front[i], y, m);
      assert DatedAs(walk[i], y, m);
    }
  }

  /**
    The month (y, m) is listed exactly when some directory of the walk is
    dated (y, m), even one without files, and it lists the files of those
    directories in walk order.
   */
  lemma {:induction false} CollectBuckets(walk: seq<Dir>, y: string, m: string)
    ensures Lookup(Collect(walk), y, m) == if AnyDated(walk, y, m) then Some(FilesDatedAs(walk, y, m)) else None
    ensures !AnyDated(walk, y, m) ==> FilesDatedAs(walk, y, m) == []
  {
    if |walk| > 0 {
      var front := walk[..|walk| - 1];
      var c, d := Collect(front), Last(walk);
      CollectBuckets(front, y, m);
      LookupAddDir(c, d, y, m);
      AnyDatedSnoc(walk, y, m);
      assert Collect(walk) == AddDir(c, d);
      if DatedAs(d, y, m) {
        assert FilesDatedAs(walk, y, m) == FilesDatedAs(front, y, m) + d.files;
        assert [] + d.files == d.files;
      } else {
        assert FilesDatedAs(walk, y, m) == FilesDatedAs(front, y, m) + [];
        assert FilesDatedAs(front, y, m) + [] == FilesDatedAs(front, y, m);
      }
    }
  }

  /** The undated list holds the files of the undated directories, in walk order. */
  lemma {:induction false} CollectUndated(walk: seq<Dir>)
    ensures Collect(walk).undated == UndatedFiles(walk)
  {
    if |walk| > 0 {
      CollectUndated(walk[..|walk| - 1]);
    }
  }

  /** Every file of every directory is met, and nothing else. */
  lemma {:induction false} CollectAll(walk: seq<Dir>)
    ensures forall f :: f in Collect(walk).allFiles <==> exists i :: 0 <= i < |walk| && f in walk[i].files
  {
    if |walk| > 0 {
      var front := walk[..|walk| - 1];
      CollectAll(front);
      assert forall i :: 0 <= i < |front| ==> front[i] == walk[i];
      forall f | f in Collect(walk).allFiles
        ensures exists i :: 0 <= i < |walk| && f in walk[i].files
      {
        if f !in Last(walk).files {
          assert f in Collect(front).allFiles;
        }
      }
    }
  }

  /** Keys are unique and every year has a month, as in the nested dictionaries. */
  predicate WellFormed(c: Collected) {
    Distinct(YearKeys(c.years)) && forall i :: 0 <= i < |c.years| ==> MonthsOk(c.years[i])
  }

  /** Appending a new element keeps a list free of repeats. */
  lemma {:induction false} DistinctSnoc(s: seq<string>, x: string)
    requires Distinct(s) && x !in s
    ensures Distinct(s + [x])
  {
    forall i | 0 <= i < |s|
      ensures (s + [x])[i] != x
    {
      assert (s + [x])[i] == s[i];
    }
  }

  /** `s` is a numeral of `n` digits. */
  predicate IsNumeral(s: string, n: nat) {
    |s| == n && AllDigits(s)
  }

  /** A year's bucket: a four-digit year and at least one month, months unique and two-digit. */
  predicate MonthsOk(yb: YearBucket) {
    && IsNumeral(yb.year, 4)
    && |yb.months| > 0
    && Distinct(MonthKeys(yb.months))
    && forall k :: 0 <= k < |yb.months| ==> IsNumeral(yb.months[k].month, 2)
  }

  /** Adding files to a month of a good bucket keeps it good. */
  lemma {:induction false} AddToMonthsOk(yb: YearBucket, m: string, files: seq<string>)
    requires MonthsOk(yb) && IsNumeral(m, 2)
    ensures MonthsOk(yb.(months := AddToMonths(yb.months, m, files)))
  {
    var ms := yb.months;
    var ms' := AddToMonths(ms, m, files);
    if m !in MonthKeys(ms) {
      DistinctSnoc(MonthKeys(ms), m);
    }
    forall k | 0 <= k < |ms'|
      ensures IsNumeral(ms'[k].month, 2)
    {
      assert ms'[k].month == MonthKeys(ms')[k];
      if k < |ms| {
        assert MonthKeys(ms')[k] == MonthKeys(ms)[k];
      }
    }
  }

  lemma {:induction false} AddToYearsMonthsOk(ys: seq<YearBucket>, y: string, m: string, files: seq<string>)
    requires IsNumeral(y, 4) && IsNumeral(m, 2)
    requires forall i :: 0 <= i < |ys| ==> MonthsOk(ys[i])
    ensures forall i :: 0 <= i < |AddToYears(ys, y, m, files)| ==> MonthsOk(AddToYears(ys, y, m, files)[i])
  {
    var r := AddToYears(ys, y, m, files);
    if |ys| == 0 {
      assert MonthKeys(r[0].months) == [m];
    } else if ys[0].year == y {
      AddToMonthsOk(ys[0], m, files);
      assert forall i :: 0 < i < |r| ==> r[i] == ys[i];
    } else {
      var rest := AddToYears(ys[1..], y, m, files);
      assert forall i :: 0 <= i < |ys[1..]| ==> MonthsOk(ys[1..][i]) by {
        forall i | 0 <= i < |ys[1..]| ensures MonthsOk(ys[1..][i]) {
          assert ys[1..][i] == ys[i + 1];
        }
      }
      AddToYearsMonthsOk(ys[1..], y, m, files);
      assert r == [ys[0]] + rest;
      forall i | 0 <= i < |r|
        ensures MonthsOk(r[i])
      {
        if i > 0 {
          assert r[i] == rest[i - 1];
        }
      }
    }
  }

  lemma {:induction false} AddToYearsWellFormed(ys: seq<YearBucket>, y: string, m: string, files: seq<string>)
    requires IsNumeral(y, 4) && IsNumeral(m, 2)
    requires WellFormed(Collected(ys, [], []))
    ensures WellFormed(Collected(AddToYears(ys, y, m, files), [], []))
  {
    if y !in YearKeys(ys) {
      DistinctSnoc(YearKeys(ys), y);
    }
    assert forall i :: 0 <= i < |ys| ==> MonthsOk(ys[i]);
    AddToYearsMonthsOk(ys, y, m, files);
  }

  /** The walk builds well-formed nested dictionaries. */
  lemma {:induction false} CollectWellFormed(walk: seq<Dir>)
    ensures WellFormed(Collect(walk))
  {
    if |walk| > 0 {
      var c := Collect(walk[..|walk| - 1]);
      CollectWellFormed(walk[..|walk| - 1]);
      match SearchYearMonth(Last(walk).root) {
        case None =>
        case Some(ym) =>
          AddToYearsWellFormed(c.years, ym.year, ym.month, Last(walk).files);
      }
    }
  }

  // ---------------------------------------------------------------------------
  // The descriptive text: what each line says
  // ---------------------------------------------------------------------------

  /** One line of the description, by what it says; `Spell` gives its exact wording. */
  datatype Line =
    | SingleFile(year: string, month: string, file: string)   // case 1
    | YearHeader(year: string, months: seq<string>)           // case 2, opening sentence
    | MonthFiles(month: string, files: seq<string>)           // case 2, one month
    | Undated(names: seq<string>)                             // case 3
    | Closing(names: seq<string>)                             // the full listing

  /** The files of month `m` of a year (`year_structure[year][m]`). */
  function FilesOf(yb: YearBucket, m: string): seq<string> {
    LookupMonth(yb.months, m).GetOr([])
  }

  /** The year has a single month, and that month a single file. */
  predicate SingleFileYear(yb: YearBucket) {
    var ms := SortDistinct(MonthKeys(yb.months));
    |ms| == 1 && |FilesOf(yb, ms[0])| == 1
  }

  /** The lines of one year: one sentence in case 1, else a header and a line per month in ascending order. */
  function YearLines(yb: YearBucket): (r: seq<Line>)
    ensures SingleFileYear(yb) ==> |r| == 1
    ensures !SingleFileYear(yb) ==> |r| == 1 + |SortDistinct(MonthKeys(yb.months))|
  {
    var ms := SortDistinct(MonthKeys(yb.months));
    if |ms| == 1 && |FilesOf(yb, ms[0])| == 1 then
      [SingleFile(yb.year, ms[0], FilesOf(yb, ms[0])[0])]
    else
      [YearHeader(yb.year, ms)] + seq(|ms|, i requires 0 <= i < |ms| => MonthFiles(ms[i], FilesOf(yb, ms[i])))
  }

  /** The year's bucket (`year_structure[year]`). */
  function BucketOf(ys: seq<YearBucket>, y: string): YearBucket {
    YearBucket(y, LookupYear(ys, y).GetOr([]))
  }

  /** The lines of the given years, in the order given. */
  function DatedLines(ys: seq<YearBucket>, years: seq<string>): seq<Line> {
    if |years| == 0 then [] else YearLines(BucketOf(ys, years[0])) + DatedLines(ys, years[1..])
  }

  /** Case 3: one line for the files outside dated folders, each name once, if there are any. */
  function UndatedLines(undated: seq<string>): (r: seq<Line>)
    ensures |r| == if |undated| == 0 then 0 else 1
  {
    if |undated| == 0 then [] else [Undated(Dedupe(undated))]
  }

  /** All lines of the description, in order. */
  function Lines(c: Collected): seq<Line> {
    DatedLines(c.years, SortDistinct(YearKeys(c.years))) + UndatedLines(c.undated) + [Closing(SortDistinct(c.allFiles))]
  }

  /** The file names a line names. */
  function NamedFiles(l: Line): seq<string> {
    match l
    case SingleFile(_, _, f) => [f]
    case YearHeader(_, _) => []
    case MonthFiles(_, files) => files
    case Undated(names) => names
    case Closing(names) => names
  }

  // ---------------------------------------------------------------------------
  // Where each file is described
  // ---------------------------------------------------------------------------

  lemma {:induction false} LookupMonthKey(ms: seq<MonthBucket>, m: string)
    ensures LookupMonth(ms, m).Some? <==> m in MonthKeys(ms)
  {
    if |ms| > 0 {
      LookupMonthKey(ms[1..], m);
      assert MonthKeys(ms) == [ms[0].month] + MonthKeys(ms[1..]);
    }
  }

  lemma {:induction false} LookupYearKey(ys: seq<YearBucket>, y: string)
    ensures LookupYear(ys, y).Some? <==> y in YearKeys(ys)
  {
    if |ys| > 0 {
      LookupYearKey(ys[1..], y);
      assert YearKeys(ys) == [ys[0].year] + YearKeys(ys[1..]);
    }
  }

  /** Case 1: the year's only line names its only file, under its only month. */
  lemma {:induction false} SingleFileYearLine(yb: YearBucket, m: string, f: string)
    requires SingleFileYear(yb) && m in SortDistinct(MonthKeys(yb.months)) && f in FilesOf(yb, m)
    ensures YearLines(yb) == [SingleFile(yb.year, m, f)]
  {
    var ms := SortDistinct(MonthKeys(yb.months));
    assert ms == [ms[0]];
    var files := FilesOf(yb, m);
    assert files == [files[0]];
  }

  /** Case 2: after the header, the k-th line is the k-th month's, in ascending month order. */
  lemma {:induction false} MonthLineOfYear(yb: YearBucket, k: nat)
    requires !SingleFileYear(yb) && k < |SortDistinct(MonthKeys(yb.months))|
    ensures var ms := SortDistinct(MonthKeys(yb.months));
            YearLines(yb)[k + 1] == MonthFiles(ms[k], FilesOf(yb, ms[k]))
  {
    var ms := SortDistinct(MonthKeys(yb.months));
    var perMonth := seq(|ms|, i requires 0 <= i < |ms| => MonthFiles(ms[i], FilesOf(yb, ms[i])));
    assert YearLines(yb) == [YearHeader(yb.year, ms)] + perMonth;
  }

  /** Each file of a month is named by its year's lines: by the single sentence, or by the month's own line. */
  lemma {:induction false} YearLinesNameFiles(yb: YearBucket, m: string, f: string)
    requires f in FilesOf(yb, m)
    ensures exists j :: 0 <= j < |YearLines(yb)| && f in NamedFiles(YearLines(yb)[j])
              && (YearLines(yb)[j] == SingleFile(yb.year, m, f) || YearLines(yb)[j] == MonthFiles(m, FilesOf(yb, m)))
  {
    var ms := SortDistinct(MonthKeys(yb.months));
    LookupMonthKey(yb.months, m);
    assert m in ms;
    if SingleFileYear(yb) {
      SingleFileYearLine(yb, m, f);
      assert f in NamedFiles(YearLines(yb)[0]);
    } else {
      var k :| 0 <= k < |ms| && ms[k] == m;
      MonthLineOfYear(yb, k);
      assert f in NamedFiles(YearLines(yb)[k + 1]);
    }
  }

  /** Every line of a listed year is a line of the dated part. */
  lemma {:induction false} DatedLinesInclude(ys: seq<YearBucket>, years: seq<string>, k: nat, j: nat)
    requires k < |years| && j < |YearLines(BucketOf(ys, years[k]))|
    ensures YearLines(BucketOf(ys, years[k]))[j] in DatedLines(ys, years)
  {
    var first := YearLines(BucketOf(ys, years[0]));
    assert DatedLines(ys, years) == first + DatedLines(ys, years[1..]);
    if k == 0 {
      assert first[j] in first;
    } else {
      assert years[1..][k - 1] == years[k];
      DatedLinesInclude(ys, years[1..], k - 1, j);
    }
  }

  lemma {:induction false} FilesDatedAsInclude(walk: seq<Dir>, i: nat, f: string)
    requires i < |walk| && f in walk[i].files
    requires SearchYearMonth(walk[i].root).Some?
    ensures var ym := SearchYearMonth(walk[i].root).value;
            f in FilesDatedAs(walk, ym.year, ym.month)
  {
    var front := walk[..|walk| - 1];
    if i < |front| {
      assert front[i] == walk[i];
      FilesDatedAsInclude(front, i, f);
    }
  }

  /** The lines of every collected year are lines of the description. */
  lemma {:induction false} YearLinesInLines(c: Collected, y: string, j: nat)
    requires y in YearKeys(c.years) && j < |YearLines(BucketOf(c.years, y))|
    ensures exists j' :: 0 <= j' < |Lines(c)| && Lines(c)[j'] == YearLines(BucketOf(c.years, y))[j]
  {
    var years := SortDistinct(YearKeys(c.years));
    var k :| 0 <= k < |years| && years[k] == y;
    DatedLinesInclude(c.years, years, k, j);
    var dated := DatedLines(c.years, years);
    var j' :| 0 <= j' < |dated| && dated[j'] == YearLines(BucketOf(c.years, y))[j];
    assert Lines(c)[j'] == dated[j'];
  }

  /**
    Every file of a directory dated (y, m) is named by a line about month m
    of year y: the year's single sentence, or month m's own line.
   */
  lemma {:induction false} DatedFileDescribed(walk: seq<Dir>, i: nat, f: string)
    requires i < |walk| && f in walk[i].files
    requires SearchYearMonth(walk[i].root).Some?
    ensures var ym := SearchYearMonth(walk[i].root).value;
            exists j :: 0 <= j < |Lines(Collect(walk))| && f in NamedFiles(Lines(Collect(walk))[j])
              && (Lines(Collect(walk))[j] == SingleFile(ym.year, ym.month, f)
                  || Lines(Collect(walk))[j] == MonthFiles(ym.month, FilesDatedAs(walk, ym.year, ym.month)))
  {
    var c := Collect(walk);
    var ym := SearchYearMonth(walk[i].root).value;
    var y, m := ym.year, ym.month;
    assert DatedAs(walk[i], y, m);
    CollectBuckets(walk, y, m);
    FilesDatedAsInclude(walk, i, f);
    LookupYearKey(c.years, y);
    var yb := BucketOf(c.years, y);
    assert FilesOf(yb, m) == FilesDatedAs(walk, y, m);
    YearLinesNameFiles(yb, m, f);
    var j :| 0 <= j < |YearLines(yb)| && f in NamedFiles(YearLines(yb)[j])
              && (YearLines(yb)[j] == SingleFile(y, m, f) || YearLines(yb)[j] == MonthFiles(m, FilesOf(yb, m)));
    YearLinesInLines(c, y, j);
  }

  lemma {:induction false} UndatedFilesInclude(walk: seq<Dir>, i: nat, f: string)
    requires i < |walk| && f in walk[i].files
    requires SearchYearMonth(walk[i].root).None?
    ensures f in UndatedFiles(walk)
  {
    var front := walk[..|walk| - 1];
    if i < |front| {
      assert front[i] == walk[i];
      UndatedFilesInclude(front, i, f);
    }
  }

  /**
    The undated files get one line, right after the dated part, naming each
    of them once; there is no such line when there are none.
   */
  lemma {:induction false} UndatedLine(walk: seq<Dir>)
    ensures var c := Collect(walk);
            var d := |DatedLines(c.years, SortDistinct(YearKeys(c.years)))|;
            && |Lines(c)| == d + (if |UndatedFiles(walk)| == 0 then 1 else 2)
            && (|UndatedFiles(walk)| > 0 ==>
                  && Lines(c)[d].Undated?
                  && Distinct(Lines(c)[d].names)
                  && forall f :: f in Lines(c)[d].names <==> f in UndatedFiles(walk))
  {
    CollectUndated(walk);
  }

  /** Every file of an undated directory is named by the undated line. */
  lemma {:induction false} UndatedFileDescribed(walk: seq<Dir>, i: nat, f: string)
    requires i < |walk| && f in walk[i].files
    requires SearchYearMonth(walk[i].root).None?
    ensures exists j :: 0 <= j < |Lines(Collect(walk))| && Lines(Collect(walk))[j].Undated? && f in Lines(Collect(walk))[j].names
  {
    UndatedFilesInclude(walk, i, f);
    UndatedLine(walk);
  }

  /**
    The closing line lists every file met anywhere in the walk, each name
    once, in ascending order, and nothing else.
   */
  lemma {:induction false} ClosingLineListsAllFiles(walk: seq<Dir>)
    ensures Last(Lines(Collect(walk))).Closing?
    ensures StrictlySorted(Last(Lines(Collect(walk))).names)
    ensures forall f :: f in Last(Lines(Collect(walk))).names <==> exists i :: 0 <= i < |walk| && f in walk[i].files
  {
    CollectAll(walk);
  }

  /** The years are described in chronological order. */
  lemma {:induction false} YearsChronological(walk: seq<Dir>)
    ensures var years := SortDistinct(YearKeys(Collect(walk).years));
            && (forall i :: 0 <= i < |years| ==> IsNumeral(years[i], 4))
            && forall i, j :: 0 <= i < j < |years| ==> DecimalValue(years[i]) < DecimalValue(years[j])
  {
    var c := Collect(walk);
    var years := SortDistinct(YearKeys(c.years));
    CollectWellFormed(walk);
    forall i | 0 <= i < |years|
      ensures IsNumeral(years[i], 4)
    {
      assert years[i] in YearKeys(c.years);
      var k :| 0 <= k < |c.years| && YearKeys(c.years)[k] == years[i];
      assert MonthsOk(c.years[k]);
    }
    forall i, j | 0 <= i < j < |years|
      ensures DecimalValue(years[i]) < DecimalValue(years[j])
    {
      LessOnNumerals(years[i], years[j]);
    }
  }

  /** Within a year, the months are described in calendar order. */
  lemma {:induction false} MonthsChronological(yb: YearBucket)
    requires MonthsOk(yb)
    ensures var ms := SortDistinct(MonthKeys(yb.months));
            && (forall i :: 0 <= i < |ms| ==> IsNumeral(ms[i], 2))
            && forall i, j :: 0 <= i < j < |ms| ==> DecimalValue(ms[i]) < DecimalValue(ms[j])
  {
    var ms := SortDistinct(MonthKeys(yb.months));
    forall i | 0 <= i < |ms|
      ensures IsNumeral(ms[i], 2)
    {
      assert ms[i] in MonthKeys(yb.months);
      var k :| 0 <= k < |yb.months| && MonthKeys(yb.months)[k] == ms[i];
    }
    forall i, j | 0 <= i < j < |ms|
      ensures DecimalValue(ms[i]) < DecimalValue(ms[j])
    {
      LessOnNumerals(ms[i], ms[j]);
    }
  }
}
