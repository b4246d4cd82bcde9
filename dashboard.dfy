/**
 * The derived views of the dashboard page (src/pages/Dashboard.tsx): the
 * filtered and sorted report list, the per-type distribution, the distinct
 * types, the active-code count and the per-row status, and the delete action.
 * `localeCompare` is modelled as code-unit lexicographic order.
 */
module DashboardPage {
  import opened Types
  import opened Text
  import opened Seqs
  import opened Storage

  // ---------------------------------------------------------------------------
  // Filtering
  // ---------------------------------------------------------------------------

  /** The filter callback `report => report.reportType === filterType`. */
  function OfType(filterType: string): Report -> bool {
    (r: Report) => r.reportType == filterType
  }

  /** The filter callback `report => report.reportDate.startsWith(filterDate)`. */
  function DatedIn(filterDate: string): Report -> bool {
    (r: Report) => StartsWith(r.reportDate, filterDate)
  }

  /** An empty filter value switches that filter off. */
  predicate Selected(r: Report, filterType: string, filterDate: string) {
    (filterType == "" || r.reportType == filterType) &&
    (filterDate == "" || StartsWith(r.reportDate, filterDate))
  }

  /** The two filters of `filteredReports`, applied in the page's order. */
  function FilterReports(reports: seq<Report>, filterType: string, filterDate: string): (view: seq<Report>)
    ensures |view| <= |reports|
    ensures forall r :: r in view <==> r in reports && Selected(r, filterType, filterDate)
  {
    var byType := if filterType != "" then Filter(reports, OfType(filterType)) else reports;
    if filterDate != "" then Filter(byType, DatedIn(filterDate)) else byType
  }

  /** The filtered list holds exactly the selected reports, each as often as
      in `reports`, in their original order; with both filters off it is
      `reports` itself. */
  lemma FilterReportsSelectsInOrder(reports: seq<Report>, filterType: string, filterDate: string)
    ensures var view := FilterReports(reports, filterType, filterDate);
      && (forall r :: r in view <==> r in reports && Selected(r, filterType, filterDate))
      && (forall r :: multiset(view)[r] ==
            if Selected(r, filterType, filterDate) then multiset(reports)[r] else 0)
      && IsSubsequence(view, reports)
      && (filterType == "" && filterDate == "" ==> view == reports)
  {
    var byType := if filterType != "" then Filter(reports, OfType(filterType)) else reports;
    if filterType != "" {
      FilterCounts(reports, OfType(filterType));
      FilterIsSubsequence(reports, OfType(filterType));
    } else {
      SubsequenceReflexive(reports);
    }
    if filterDate != "" {
      FilterCounts(byType, DatedIn(filterDate));
      FilterIsSubsequence(byType, DatedIn(filterDate));
      SubsequenceTransitive(Filter(byType, DatedIn(filterDate)), byType, reports);
    }
  }

  // ---------------------------------------------------------------------------
  // Sorting
  // ---------------------------------------------------------------------------

  /** The comparator passed to `filtered.sort`: newest upload first for
      'uploadDate', ascending name or type for 'patientName' and
      'reportType', and 0 (keep the order) for any other key. */
  function Compare(sortBy: string, a: Report, b: Report): (c: int)
    ensures sortBy == "uploadDate" ==> (c < 0 <==> a.uploadDate > b.uploadDate)
    ensures sortBy == "patientName" ==> (c == 0 <==> a.patientName == b.patientName)
    ensures sortBy == "reportType" ==> (c == 0 <==> a.reportType == b.reportType)
    ensures sortBy != "uploadDate" && sortBy != "patientName" && sortBy != "reportType" ==> c == 0
  {
    if sortBy == "uploadDate" then b.uploadDate - a.uploadDate
    else if sortBy == "patientName" then StrCompare(a.patientName, b.patientName)
    else if sortBy == "reportType" then StrCompare(a.reportType, b.reportType)
    else 0
  }

  lemma CompareFlip(sortBy: string, a: Report, b: Report)
    ensures Compare(sortBy, b, a) == -Compare(sortBy, a, b)
  {
    StrCompareFlip(a.patientName, b.patientName);
    StrCompareFlip(a.reportType, b.reportType);
  }

  lemma CompareTransitive(sortBy: string, a: Report, b: Report, c: Report)
    requires Compare(sortBy, a, b) <= 0 && Compare(sortBy, b, c) <= 0
    ensures Compare(sortBy, a, c) <= 0
  {
    if sortBy == "patientName" {
      StrCompareTransitive(a.patientName, b.patientName, c.patientName);
    } else if sortBy == "reportType" {
      StrCompareTransitive(a.reportType, b.reportType, c.reportType);
    }
  }

  predicate SortedBy(s: seq<Report>, sortBy: string) {
    forall i, j :: 0 <= i < j < |s| ==> Compare(sortBy, s[i], s[j]) <= 0
  }

  /** Places `x` before the first element it does not compare above. */
  function Insert(x: Report, s: seq<Report>, sortBy: string): seq<Report> {
    if s == [] then [x]
    else if Compare(sortBy, x, s[0]) <= 0 then [x] + s
    else [s[0]] + Insert(x, s[1..], sortBy)
  }

  /** The stable sort `Array.prototype.sort` performs with the comparator. */
  function Sort(s: seq<Report>, sortBy: string): seq<Report> {
    if s == [] then []
    else Insert(s[0], Sort(s[1..], sortBy), sortBy)
  }

  /** Insertion adds `x` and loses nothing. */
  lemma {:induction false} InsertPermutes(x: Report, s: seq<Report>, sortBy: string)
    ensures multiset(Insert(x, s, sortBy)) == multiset(s) + multiset{x}
  {
    if s != [] && Compare(sortBy, x, s[0]) > 0 {
      InsertPermutes(x, s[1..], sortBy);
      assert s == [s[0]] + s[1..];
    }
  }

  lemma {:induction false} InsertKeepsSorted(x: Report, s: seq<Report>, sortBy: string)
    requires SortedBy(s, sortBy)
    ensures SortedBy(Insert(x, s, sortBy), sortBy)
  {
    if s == [] {
    } else if Compare(sortBy, x, s[0]) <= 0 {
      forall j | 0 <= j < |s| ensures Compare(sortBy, x, s[j]) <= 0 {
        if j > 0 {
          CompareTransitive(sortBy, x, s[0], s[j]);
        }
      }
    } else {
      var rest := Insert(x, s[1..], sortBy);
      InsertKeepsSorted(x, s[1..], sortBy);
      InsertPermutes(x, s[1..], sortBy);
      CompareFlip(sortBy, x, s[0]);
      forall k | 0 <= k < |rest| ensures Compare(sortBy, s[0], rest[k]) <= 0 {
        assert rest[k] in multiset(rest);
        if rest[k] != x {
          assert rest[k] in multiset(s[1..]);
          var j :| 0 <= j < |s[1..]| && s[1..][j] == rest[k];
          assert s[j + 1] == rest[k];
        }
      }
    }
  }

  /** Sorting yields a permutation that is ordered by the comparator. */
  lemma {:induction false} SortSorts(s: seq<Report>, sortBy: string)
    ensures SortedBy(Sort(s, sortBy), sortBy)
    ensures multiset(Sort(s, sortBy)) == multiset(s)
  {
    if s != [] {
      SortSorts(s[1..], sortBy);
      InsertKeepsSorted(s[0], Sort(s[1..], sortBy), sortBy);
      InsertPermutes(s[0], Sort(s[1..], sortBy), sortBy);
      assert s == [s[0]] + s[1..];
    }
  }

  /** A list already in order comes back unchanged. */
  lemma {:induction false} SortOfSortedIsIdentity(s: seq<Report>, sortBy: string)
    requires SortedBy(s, sortBy)
    ensures Sort(s, sortBy) == s
  {
    if s != [] {
      SortOfSortedIsIdentity(s[1..], sortBy);
      if |s| > 1 {
        assert Compare(sortBy, s[0], s[1..][0]) <= 0;
      }
    }
  }

  /** The reports that compare equal to `y`: its ties under the sort key. */
  function Ties(y: Report, sortBy: string): Report -> bool {
    (x: Report) => Compare(sortBy, x, y) == 0
  }

  /** Two reports that both tie with `y` tie with each other. */
  lemma TiesAreEqual(x: Report, z: Report, y: Report, sortBy: string)
    requires Ties(y, sortBy)(x) && Ties(y, sortBy)(z)
    ensures Compare(sortBy, x, z) == 0
  {
    CompareFlip(sortBy, z, y);
    CompareTransitive(sortBy, x, y, z);
    CompareTransitive(sortBy, z, y, x);
    CompareFlip(sortBy, x, z);
  }

  /** Insertion moves `x` only past elements it compares strictly above, so
      the ties of any report keep their relative order. */
  lemma {:induction false} InsertStable(x: Report, s: seq<Report>, sortBy: string, y: Report)
    ensures Filter(Insert(x, s, sortBy), Ties(y, sortBy)) == Filter([x] + s, Ties(y, sortBy))
  {
    var tie := Ties(y, sortBy);
    if s != [] && Compare(sortBy, x, s[0]) > 0 {
      var rest := s[1..];
      assert s == [s[0]] + rest;
      InsertStable(x, rest, sortBy, y);
      FilterCons(s[0], Insert(x, rest, sortBy), tie);
      FilterCons(x, rest, tie);
      FilterCons(x, s, tie);
      FilterCons(s[0], rest, tie);
      if tie(x) && tie(s[0]) {
        TiesAreEqual(x, s[0], y, sortBy);
      }
      var hx := if tie(x) then [x] else [];
      var h0 := if tie(s[0]) then [s[0]] else [];
      assert h0 + hx == hx + h0;
      AppendAssociative(h0, hx, Filter(rest, tie));
      AppendAssociative(hx, h0, Filter(rest, tie));
    }
  }

  /** The sort is stable: reports that compare equal (the same name, the
      same type, the same upload time) keep the order they had. */
  lemma {:induction false} SortStable(s: seq<Report>, sortBy: string, y: Report)
    ensures Filter(Sort(s, sortBy), Ties(y, sortBy)) == Filter(s, Ties(y, sortBy))
  {
    if s != [] {
      var tie := Ties(y, sortBy);
      SortStable(s[1..], sortBy, y);
      InsertStable(s[0], Sort(s[1..], sortBy), sortBy, y);
      FilterCons(s[0], Sort(s[1..], sortBy), tie);
      FilterCons(s[0], s[1..], tie);
      assert s == [s[0]] + s[1..];
    }
  }

  /** By upload date, the newest report comes first. */
  lemma SortByUploadDateIsNewestFirst(s: seq<Report>)
    ensures var r := Sort(s, "uploadDate");
      forall i, j :: 0 <= i < j < |r| ==> r[i].uploadDate >= r[j].uploadDate
  {
    SortSorts(s, "uploadDate");
  }

  /** Uploads at T1 < T2 < T3 are listed as T3, T2, T1. */
  lemma SortByUploadDateExample(a: Report, b: Report, c: Report)
    requires a.uploadDate < b.uploadDate < c.uploadDate
    ensures Sort([a, b, c], "uploadDate") == [c, b, a]
  {
    var key := "uploadDate";
    var one := Sort([c], key);
    assert one == [c] by {
      SortStep([c], key);
      assert [c][1..] == [];
    }
    var two := Sort([b, c], key);
    assert two == [c, b] by {
      SortStep([b, c], key);
      assert [b, c][1..] == [c];
      InsertBehind(b, [c], key);
      assert [c][1..] == [];
    }
    SortStep([a, b, c], key);
    assert [a, b, c][1..] == [b, c];
    InsertBehind(a, [c, b], key);
    assert [c, b][1..] == [b];
    InsertBehind(a, [b], key);
    assert [b][1..] == [];
  }

  /** One step of the sort: the head is inserted into the sorted tail. */
  lemma SortStep(s: seq<Report>, sortBy: string)
    requires s != []
    ensures Sort(s, sortBy) == Insert(s[0], Sort(s[1..], sortBy), sortBy)
  {
  }

  /** An element that compares above the head goes behind it. */
  lemma InsertBehind(x: Report, s: seq<Report>, sortBy: string)
    requires s != [] && Compare(sortBy, x, s[0]) > 0
    ensures Insert(x, s, sortBy) == [s[0]] + Insert(x, s[1..], sortBy)
  {
  }

  /** An unrecognised key compares everything equal, so the order is kept. */
  lemma SortByUnknownKeyKeepsOrder(s: seq<Report>, sortBy: string)
    requires sortBy != "uploadDate" && sortBy != "patientName" && sortBy != "reportType"
    ensures Sort(s, sortBy) == s
  {
    assert SortedBy(s, sortBy);
    SortOfSortedIsIdentity(s, sortBy);
  }

  // ---------------------------------------------------------------------------
  // Report types and their counts
  // ---------------------------------------------------------------------------

  /** `reports.map(r => r.reportType)`. */
  function TypesOf(reports: seq<Report>): seq<string> {
    seq(|reports|, i requires 0 <= i < |reports| => reports[i].reportType)
  }

  predicate NoDuplicates(xs: seq<string>) {
    forall i, j :: 0 <= i < j < |xs| ==> xs[i] != xs[j]
  }

  /** `Array.from(new Set(reports.map(r => r.reportType)))`: each type once,
      in order of first appearance. */
  function UniqueReportTypes(reports: seq<Report>): (types: seq<string>)
    ensures NoDuplicates(types)
    ensures forall t :: t in types <==> t in TypesOf(reports)
  {
    if reports == [] then []
    else
      var init := reports[..|reports| - 1];
      var t := reports[|reports| - 1].reportType;
      var seen := UniqueReportTypes(init);
      assert TypesOf(reports) == TypesOf(init) + [t];
      if t in seen then seen else seen + [t]
  }

  /** Every element of `types` occurs in `all`, each first occurring after
      the one before it. */
  predicate InFirstAppearanceOrder(types: seq<string>, all: seq<string>) {
    && (forall i :: 0 <= i < |types| ==> types[i] in all)
    && (forall i, j :: 0 <= i < j < |types| ==>
          FirstIndexOf(all, types[i]) < FirstIndexOf(all, types[j]))
  }

  /** The distinct types come in the order in which each first occurs among
      the reports, as a `Set` keeps insertion order. */
  lemma {:induction false} UniqueTypesInFirstAppearanceOrder(reports: seq<Report>)
    ensures InFirstAppearanceOrder(UniqueReportTypes(reports), TypesOf(reports))
  {
    if reports != [] {
      var init := reports[..|reports| - 1];
      var t := reports[|reports| - 1].reportType;
      var seen := UniqueReportTypes(init);
      var types := UniqueReportTypes(reports);
      var all := TypesOf(reports);
      assert all == TypesOf(init) + [t];
      UniqueTypesInFirstAppearanceOrder(init);
      assert types == if t in seen then seen else seen + [t];
      forall i | 0 <= i < |types| ensures types[i] in all {
        assert types[i] in types;
      }
      forall i, j | 0 <= i < j < |types|
        ensures FirstIndexOf(all, types[i]) < FirstIndexOf(all, types[j])
      {
        assert types[i] == seen[i] && seen[i] in seen;
        FirstIndexOfAppend(TypesOf(init), t, seen[i]);
        if j < |seen| {
          assert types[j] == seen[j] && seen[j] in seen;
          FirstIndexOfAppend(TypesOf(init), t, seen[j]);
        } else {
          assert types[j] == t && t !in TypesOf(init);
          assert all[..|all| - 1] == TypesOf(init);
        }
      }
    }
  }

  /** The number of reports of type `t`, counted as the `reduce` does. */
  function CountType(reports: seq<Report>, t: string): nat {
    if reports == [] then 0
    else
      CountType(reports[..|reports| - 1], t) +
      (if reports[|reports| - 1].reportType == t then 1 else 0)
  }

  /** The count is the multiplicity of `t` among the report types. */
  lemma {:induction false} CountTypeIsMultiplicity(reports: seq<Report>, t: string)
    ensures CountType(reports, t) == multiset(TypesOf(reports))[t]
  {
    if reports != [] {
      var init := reports[..|reports| - 1];
      CountTypeIsMultiplicity(init, t);
      assert TypesOf(reports) == TypesOf(init) + [reports[|reports| - 1].reportType];
    }
  }

  /** `Math.round((count / total) * 100)` in exact arithmetic: the whole
      percentage nearest to `count / total`, halves rounded up, that is
      `p - 1/2 <= 100 * count / total < p + 1/2`. An empty list
      has no entries, so `total` is never 0 where the page computes it. */
  function Percentage(count: nat, total: nat): (p: nat)
    ensures total > 0 ==> 2 * p * total <= 200 * count + total < 2 * p * total + 2 * total
    ensures count <= total ==> p <= 100
  {
    if total == 0 then 0
    else
      var p := (200 * count + total) / (2 * total);
      RoundingBounds(200 * count + total, 2 * total, p);
      assert p * (2 * total) == 2 * p * total;
      if count <= total then
        PercentageCap(count, total);
        p
      else p
  }

  /** A share of at most the whole rounds to at most 100. */
  lemma PercentageCap(count: nat, total: nat)
    requires 0 < total && count <= total
    ensures (200 * count + total) / (2 * total) <= 100
  {
    var q := (200 * count + total) / (2 * total);
    RoundingBounds(200 * count + total, 2 * total, q);
    if q > 100 {
      MultiplyMonotone(101, q, 2 * total);
    }
  }

  /** The quotient of `a` by `b` lies within one `b` below `a`. */
  lemma RoundingBounds(a: nat, b: nat, q: nat)
    requires b > 0 && q == a / b
    ensures q * b <= a < q * b + b
  {
  }

  lemma MultiplyMonotone(x: nat, y: nat, b: nat)
    requires x <= y
    ensures x * b <= y * b
  {
  }

  datatype TypeStat = TypeStat(reportType: string, count: nat, percentage: nat)

  /** One entry per distinct type, in first-appearance order, with its count. */
  function TypeCounts(reports: seq<Report>): seq<TypeStat> {
    var types := UniqueReportTypes(reports);
    seq(|types|, k requires 0 <= k < |types| => TypeStat(types[k], CountType(reports, types[k]),
      Percentage(CountType(reports, types[k]), |reports|)))
  }

  /** `reportTypeStats`: the `reduce` into a record keyed by type, then
      `Object.entries` with each count's rounded share of all reports. */
  method ReportTypeStats(reports: seq<Report>) returns (stats: seq<TypeStat>)
    ensures stats == TypeCounts(reports)
    ensures |stats| == |UniqueReportTypes(reports)|
    ensures forall k :: 0 <= k < |stats| ==> stats[k].count == CountType(reports, stats[k].reportType)
  {
    var acc: map<string, nat> := map[];
    var keys: seq<string> := [];
    for i := 0 to |reports|
      invariant keys == UniqueReportTypes(reports[..i])
      invariant forall t :: t in acc <==> t in keys
      invariant forall t :: t in acc ==> acc[t] == CountType(reports[..i], t)
    {
      assert reports[..i + 1][..i] == reports[..i];
      var t := reports[i].reportType;
      var prior := if t in acc then acc[t] else 0;
      if t !in acc {
        keys := keys + [t];
      }
      ghost var before := acc;
      acc := acc[t := prior + 1];
      forall u | u in acc ensures acc[u] == CountType(reports[..i + 1], u) {
        assert CountType(reports[..i + 1], u) ==
          CountType(reports[..i], u) + (if t == u then 1 else 0);
        if u != t {
          assert u in before && acc[u] == before[u];
        } else if t !in before {
          assert t !in UniqueReportTypes(reports[..i]);
          assert t !in TypesOf(reports[..i]);
          CountTypeIsMultiplicity(reports[..i], t);
        }
      }
    }
    assert reports[..|reports|] == reports;
    stats := seq(|keys|, k requires 0 <= k < |keys| => TypeStat(keys[k], acc[keys[k]], Percentage(acc[keys[k]], |reports|)));
  }

  function SumCounts(stats: seq<TypeStat>): nat {
    if stats == [] then 0 else SumCounts(stats[..|stats| - 1]) + stats[|stats| - 1].count
  }

  /** The counts of the given types, for the report list `reports`. */
  function CountsOf(types: seq<string>, reports: seq<Report>): seq<TypeStat> {
    seq(|types|, k requires 0 <= k < |types| => TypeStat(types[k], CountType(reports, types[k]),
      Percentage(CountType(reports, types[k]), |reports|)))
  }

  /** Adding one report raises the sum over distinct types by one exactly
      when its type is among them. */
  lemma {:induction false} SumCountsStep(types: seq<string>, reports: seq<Report>, x: Report)
    requires NoDuplicates(types)
    ensures SumCounts(CountsOf(types, reports + [x])) ==
      SumCounts(CountsOf(types, reports)) + (if x.reportType in types then 1 else 0)
  {
    if types != [] {
      var init := types[..|types| - 1];
      SumCountsStep(init, reports, x);
      assert CountsOf(types, reports + [x])[..|init|] == CountsOf(init, reports + [x]);
      assert CountsOf(types, reports)[..|init|] == CountsOf(init, reports);
      assert (reports + [x])[..|reports|] == reports;
      assert x.reportType in types <==> x.reportType in init || x.reportType == types[|types| - 1];
    }
  }

  /** The per-type counts add up to the number of reports. */
  lemma {:induction false} TypeCountsSumToTotal(reports: seq<Report>)
    ensures SumCounts(TypeCounts(reports)) == |reports|
  {
    if reports != [] {
      var init := reports[..|reports| - 1];
      var x := reports[|reports| - 1];
      var seen := UniqueReportTypes(init);
      TypeCountsSumToTotal(init);
      assert reports == init + [x];
      SumCountsStep(seen, init, x);
      assert TypeCounts(init) == CountsOf(seen, init);
      if x.reportType !in seen {
        var types := seen + [x.reportType];
        assert CountsOf(types, reports)[..|seen|] == CountsOf(seen, reports);
        CountTypeIsMultiplicity(init, x.reportType);
        assert x.reportType !in multiset(TypesOf(init));
      }
    }
  }

  /** A list without repeats has as many elements as its set of elements. */
  lemma {:induction false} DistinctCardinality(xs: seq<string>)
    requires NoDuplicates(xs)
    ensures |set x | x in xs| == |xs|
  {
    if xs != [] {
      var init := xs[..|xs| - 1];
      var last := xs[|xs| - 1];
      DistinctCardinality(init);
      assert (set x | x in xs) == (set x | x in init) + {last};
      assert last !in (set x | x in init);
    }
  }

  /** There are as many distribution entries as distinct report types. */
  lemma StatsCountDistinctTypes(reports: seq<Report>)
    ensures |TypeCounts(reports)| == |UniqueReportTypes(reports)|
      == |set r | r in reports :: r.reportType|
  {
    var types := UniqueReportTypes(reports);
    DistinctCardinality(types);
    assert (set x | x in types) == (set r | r in reports :: r.reportType) by {
      forall x | x in types ensures x in (set r | r in reports :: r.reportType) {
        assert x in TypesOf(reports);
        var i :| 0 <= i < |reports| && TypesOf(reports)[i] == x;
        assert reports[i] in reports;
      }
      forall r | r in reports ensures r.reportType in types {
        var i :| 0 <= i < |reports| && reports[i] == r;
        assert TypesOf(reports)[i] == r.reportType;
      }
    }
  }

  // ---------------------------------------------------------------------------
  // Active codes and row status
  // ---------------------------------------------------------------------------

  /** The filter callback `r => new Date(r.expiresAt) > new Date()`. */
  function ActiveAt(now: int): Report -> bool {
    (r: Report) => r.expiresAt > now
  }

  /** The "Active Codes" card. */
  function ActiveCount(reports: seq<Report>, now: int): (n: nat)
    ensures n <= |reports|
  {
    |Filter(reports, ActiveAt(now))|
  }

  /** A row is labelled "Expired" when its expiry lies strictly in the past. */
  predicate IsExpired(r: Report, now: int): (expired: bool)
    ensures expired ==> !ActiveAt(now)(r)
  {
    r.expiresAt < now
  }

  /** Every report is either counted active, labelled expired, or, at the
      very instant of expiry, neither. */
  lemma {:induction false} ActiveCountPartition(reports: seq<Report>, now: int)
    ensures ActiveCount(reports, now)
      + |Filter(reports, (r: Report) => IsExpired(r, now))|
      + |Filter(reports, (r: Report) => r.expiresAt == now)| == |reports|
  {
    if reports != [] {
      ActiveCountPartition(reports[1..], now);
    }
  }

  /** The row label agrees with the store: a report that is the first holder
      of its code is found by a lookup exactly when its row does not say
      "Expired". At the instant of expiry it is found, labelled active, yet
      not counted among the active codes. */
  lemma StatusAgreesWithLookup(reports: seq<Report>, i: nat, now: int)
    requires i < |reports|
    requires forall j :: 0 <= j < i ==> reports[j].accessCode != reports[i].accessCode
    ensures LookupByCode(reports, reports[i].accessCode, now).found == Some(reports[i])
      <==> !IsExpired(reports[i], now)
    ensures reports[i].expiresAt == now ==>
      !ActiveAt(now)(reports[i]) && !IsExpired(reports[i], now) &&
      LookupByCode(reports, reports[i].accessCode, now).found == Some(reports[i])
  {
    var code := reports[i].accessCode;
    if now <= reports[i].expiresAt {
      LiveFirstMatchIsFound(reports, code, now, i);
    } else {
      ExpiredFirstMatchPurgesCode(reports, code, now, i);
    }
  }

  // ---------------------------------------------------------------------------
  // The page state
  // ---------------------------------------------------------------------------

  class Dashboard {
    var reports: seq<Report>
    var filterType: string
    var filterDate: string
    var sortBy: string

    /** The page loads every stored report, with no filter and newest first. */
    constructor (store: ReportStore)
      ensures reports == store.Reports()
      ensures filterType == "" && filterDate == "" && sortBy == "uploadDate"
    {
      reports := store.Reports();
      filterType, filterDate, sortBy := "", "", "uploadDate";
    }

    method SetFilterType(value: string)
      modifies this`filterType
      ensures filterType == value
    {
      filterType := value;
    }

    method SetFilterDate(value: string)
      modifies this`filterDate
      ensures filterDate == value
    {
      filterDate := value;
    }

    method SetSortBy(value: string)
      modifies this`sortBy
      ensures sortBy == value
    {
      sortBy := value;
    }

    /** `filteredReports`: filter, then sort in place. With both filters off,
        the array being sorted is the `reports` state itself, so the page's
        own list is reordered too. */
    method FilteredReports() returns (view: seq<Report>)
      modifies this`reports
      ensures view == Sort(FilterReports(old(reports), filterType, filterDate), sortBy)
      ensures reports == if filterType == "" && filterDate == "" then view else old(reports)
    {
      var filtered := reports;
      if filterType != "" {
        filtered := Filter(filtered, OfType(filterType));
      }
      if filterDate != "" {
        filtered := Filter(filtered, DatedIn(filterDate));
      }
      view := Sort(filtered, sortBy);
      if filterType == "" && filterDate == "" {
        reports := view;
      }
    }

    /** `handleDelete`: once confirmed, delete from the store and reload the
        list from it; otherwise nothing happens. */
    method HandleDelete(store: ReportStore, id: string, confirmed: bool)
      modifies this`reports, store
      ensures confirmed ==> store.stored == Some(WithoutId(old(store.Reports()), id))
      ensures confirmed ==> reports == store.Reports()
      ensures !confirmed ==> reports == old(reports) && store.stored == old(store.stored)
    {
      if confirmed {
        store.DeleteReport(id);
        reports := store.GetReports();
      }
    }
  }
}
