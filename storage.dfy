/**
 * The report store of src/utils/storage.ts: one persisted array of reports
 * under a single storage key, read whole, changed in memory and written back
 * whole. The key-value storage becomes the field `stored` of a ReportStore
 * (None while the key has never been written); JSON encoding is not modelled.
 * The clock (`new Date()`) and `Math.random` are parameters.
 */
module Storage {
  import opened Types
  import opened Seqs
  import opened Text

  // ---------------------------------------------------------------------------
  // Pure specification of the store operations
  // ---------------------------------------------------------------------------

  /** `reports.find(r => r.accessCode === code)`, as a position: the first
      report, in insertion order, whose code equals `code` exactly. */
  function FindByCode(reports: seq<Report>, code: string): (i: Option<nat>)
    ensures i.Some? ==> i.value < |reports| && reports[i.value].accessCode == code
    ensures i.Some? ==> forall j :: 0 <= j < i.value ==> reports[j].accessCode != code
    ensures i.None? ==> forall j :: 0 <= j < |reports| ==> reports[j].accessCode != code
  {
    if reports == [] then None
    else if reports[0].accessCode == code then Some(0)
    else match FindByCode(reports[1..], code)
      case None => None
      case Some(k) => Some(k + 1)
  }

  /** The filter callback `r => r.accessCode !== code`. */
  function OtherCode(code: string): Report -> bool {
    (r: Report) => r.accessCode != code
  }

  /** The filter callback `r => r.id !== id`. */
  function OtherId(id: string): Report -> bool {
    (r: Report) => r.id != id
  }

  /** `reports.filter(r => r.accessCode !== code)`. */
  function WithoutCode(reports: seq<Report>, code: string): seq<Report> {
    Filter(reports, OtherCode(code))
  }

  /** `reports.filter(r => r.id !== id)`. */
  function WithoutId(reports: seq<Report>, id: string): seq<Report> {
    Filter(reports, OtherId(id))
  }

  /** What a lookup answers and what the store holds afterwards. */
  datatype Lookup = Lookup(found: Option<Report>, remaining: seq<Report>)

  /** `getReportByCode(code)` at time `now`: the first report with the code,
      unless `now` is past its expiry, in which case every report carrying
      that code is dropped and nothing is found. */
  function LookupByCode(reports: seq<Report>, code: string, now: int): (l: Lookup)
    ensures l.found.Some? ==>
      l.remaining == reports && l.found.value in reports &&
      l.found.value.accessCode == code && now <= l.found.value.expiresAt
    ensures l.found.None? ==> forall r :: r in l.remaining ==> r in reports
  {
    match FindByCode(reports, code)
    case None => Lookup(None, reports)
    case Some(i) =>
      if now > reports[i].expiresAt then Lookup(None, WithoutCode(reports, code))
      else Lookup(Some(reports[i]), reports)
  }

  // ---------------------------------------------------------------------------
  // The store
  // ---------------------------------------------------------------------------

  class ReportStore {
    /** The array persisted under the storage key; None while the key is absent. */
    var stored: Option<seq<Report>>

    /** A browser whose storage has never held the key. */
    constructor ()
      ensures stored == None
    {
      stored := None;
    }

    /** The reports the store holds: none while the key is absent. */
    function Reports(): seq<Report>
      reads this
    {
      match stored
      case None => []
      case Some(reports) => reports
    }

    /** `getReports`: a missing key reads as the empty list; reading changes
        nothing. */
    method GetReports() returns (reports: seq<Report>)
      ensures stored.None? ==> reports == []
      ensures stored.Some? ==> reports == stored.value
    {
      match stored
      case None => reports := [];
      case Some(rs) => reports := rs;
    }

    /** `saveReport`: the report goes at the end; everything before it stays
        where it was. */
    method SaveReport(report: Report)
      modifies this
      ensures stored == Some(old(Reports()) + [report])
      ensures |Reports()| == |old(Reports())| + 1 && Reports()[|Reports()| - 1] == report
      ensures forall i :: 0 <= i < |old(Reports())| ==> Reports()[i] == old(Reports())[i]
    {
      var reports := GetReports();
      reports := reports + [report];
      stored := Some(reports);
    }

    /** `getReportByCode` with lazy expiry: the store is written back only
        when the first match has expired. */
    method GetReportByCode(code: string, now: int) returns (found: Option<Report>)
      modifies this
      ensures found == LookupByCode(old(Reports()), code, now).found
      ensures Reports() == LookupByCode(old(Reports()), code, now).remaining
      ensures found.Some? ==> stored == old(stored)
      ensures FindByCode(old(Reports()), code).None? ==> stored == old(stored)
    {
      var reports := GetReports();
      var index := FindByCode(reports, code);
      if index.None? {
        return None;
      }
      var report := reports[index.value];
      if now > report.expiresAt {
        stored := Some(WithoutCode(reports, code));
        return None;
      }
      return Some(report);
    }

    /** `deleteReport`: keeps exactly the reports with another id, and always
        writes the key back. */
    method DeleteReport(id: string)
      modifies this
      ensures stored == Some(WithoutId(old(Reports()), id))
    {
      var reports := GetReports();
      stored := Some(WithoutId(reports, id));
    }
  }

  // ---------------------------------------------------------------------------
  // Access codes
  // ---------------------------------------------------------------------------

  const CodeAlphabet: string := "ABCDEFGHIJKLMNOPQRSTUVWXYZ0123456789"
  const CodeLength: nat := 6

  predicate IsAccessCode(code: string) {
    |code| == CodeLength && forall i :: 0 <= i < |code| ==> code[i] in CodeAlphabet
  }

  /** What `Math.floor(Math.random() * chars.length)` can deliver, six times. */
  predicate AreDraws(draws: seq<nat>) {
    |draws| == CodeLength && forall i :: 0 <= i < |draws| ==> draws[i] < |CodeAlphabet|
  }

  /** `code` is the alphabet characters the draws pick, in order. */
  predicate Spells(code: string, draws: seq<nat>)
    requires AreDraws(draws)
  {
    |code| == CodeLength && forall i :: 0 <= i < CodeLength ==> code[i] == CodeAlphabet[draws[i]]
  }

  /** `generateAccessCode`: one alphabet character per random draw. */
  method GenerateAccessCode(draws: seq<nat>) returns (code: string)
    requires AreDraws(draws)
    ensures IsAccessCode(code) && Spells(code, draws)
  {
    code := "";
    for i := 0 to CodeLength
      invariant |code| == i
      invariant forall k :: 0 <= k < i ==> code[k] == CodeAlphabet[draws[k]]
    {
      code := code + [CodeAlphabet[draws[i]]];
    }
  }

  /** The position of an alphabet character. */
  function AlphabetIndex(c: char): (k: nat)
    requires c in CodeAlphabet
    ensures k < |CodeAlphabet| && CodeAlphabet[k] == c
  {
    if 'A' <= c <= 'Z' then c as int - 'A' as int
    else
      assert '0' <= c <= '9' by {
        var j :| 0 <= j < |CodeAlphabet| && CodeAlphabet[j] == c;
        assert 26 <= j || 'A' <= c <= 'Z';
      }
      26 + (c as int - '0' as int)
  }

  /** Every well-formed code is one the generator can produce. */
  lemma EveryAccessCodeIsGenerable(code: string)
    requires IsAccessCode(code)
    ensures exists draws :: AreDraws(draws) && Spells(code, draws)
  {
    var draws := seq(CodeLength, i requires 0 <= i < CodeLength => AlphabetIndex(code[i]));
    assert AreDraws(draws);
  }

  /** Access codes contain no lower-case letter, so upper-casing one leaves it
      as it is. */
  lemma AccessCodeIsUpperCase(code: string)
    requires IsAccessCode(code)
    ensures ToUpper(code) == code
  {
    forall i | 0 <= i < |code| ensures !IsLowerAscii(code[i]) {
      var j :| 0 <= j < |CodeAlphabet| && CodeAlphabet[j] == code[i];
    }
    ToUpperNormalises(code);
  }

  // ---------------------------------------------------------------------------
  // Properties of lookup and deletion
  // ---------------------------------------------------------------------------

  /** A report that is found carries the code, has not expired and is the
      first report with that code; finding it changes nothing. */
  lemma FoundIsLiveFirstMatch(reports: seq<Report>, code: string, now: int)
    ensures var l := LookupByCode(reports, code, now);
      l.found.Some? ==>
        l.remaining == reports &&
        exists i :: 0 <= i < |reports| && reports[i] == l.found.value &&
          l.found.value.accessCode == code && now <= l.found.value.expiresAt &&
          forall j :: 0 <= j < i ==> reports[j].accessCode != code
  {
    var l := LookupByCode(reports, code, now);
    if l.found.Some? {
      var i := FindByCode(reports, code).value;
      assert reports[i] == l.found.value;
    }
  }

  /** The first report with the code is returned, unchanged store, whenever
      the clock has not passed its expiry, including at the very instant. */
  lemma LiveFirstMatchIsFound(reports: seq<Report>, code: string, now: int, i: nat)
    requires i < |reports| && reports[i].accessCode == code
    requires forall j :: 0 <= j < i ==> reports[j].accessCode != code
    requires now <= reports[i].expiresAt
    ensures LookupByCode(reports, code, now) == Lookup(Some(reports[i]), reports)
  {
    var f := FindByCode(reports, code);
    assert f.Some? && f.value == i;
  }

  /** An expired first match is not returned, and afterwards no report with
      that code is left; the reports with other codes all stay, in order. */
  lemma ExpiredFirstMatchPurgesCode(reports: seq<Report>, code: string, now: int, i: nat)
    requires i < |reports| && reports[i].accessCode == code
    requires forall j :: 0 <= j < i ==> reports[j].accessCode != code
    requires now > reports[i].expiresAt
    ensures var l := LookupByCode(reports, code, now);
      && l.found == None
      && l.remaining == WithoutCode(reports, code)
      && (forall r :: r in l.remaining <==> r in reports && r.accessCode != code)
      && IsSubsequence(l.remaining, reports)
      && |l.remaining| < |reports|
  {
    var f := FindByCode(reports, code);
    assert f.Some? && f.value == i;
    FilterIsSubsequence(reports, OtherCode(code));
    FilterCounts(reports, OtherCode(code));
    var rest := WithoutCode(reports, code);
    assert multiset(rest)[reports[i]] == 0;
    assert multiset(reports)[reports[i]] > 0;
    assert multiset(rest) != multiset(reports);
    assert |rest| != |reports| by {
      if |rest| == |reports| {
        FilterSameLengthIsIdentity(reports, OtherCode(code));
      }
    }
  }

  /** A code nobody carries is a miss that changes nothing; in particular a
      second lookup right after an expiry purge misses too. */
  lemma MissLeavesStoreAlone(reports: seq<Report>, code: string, now: int)
    ensures (forall r :: r in reports ==> r.accessCode != code) ==>
      LookupByCode(reports, code, now) == Lookup(None, reports)
    ensures var after := WithoutCode(reports, code);
      LookupByCode(after, code, now) == Lookup(None, after)
  {
    var after := WithoutCode(reports, code);
    var f := FindByCode(reports, code);
    forall j | 0 <= j < |after| ensures after[j].accessCode != code {
      assert after[j] in after;
    }
  }

  /** Right after a report with a fresh code is saved, looking its code up
      returns it until its expiry; after that, it is the one report dropped. */
  lemma LookupAfterSave(reports: seq<Report>, report: Report, now: int)
    requires forall r :: r in reports ==> r.accessCode != report.accessCode
    ensures now <= report.expiresAt ==>
      LookupByCode(reports + [report], report.accessCode, now) == Lookup(Some(report), reports + [report])
    ensures now > report.expiresAt ==>
      LookupByCode(reports + [report], report.accessCode, now) == Lookup(None, reports)
  {
    var all := reports + [report];
    var code := report.accessCode;
    var i := |reports|;
    forall j | 0 <= j < i ensures all[j].accessCode != code {
      assert all[j] == reports[j] && reports[j] in reports;
    }
    if now <= report.expiresAt {
      LiveFirstMatchIsFound(all, code, now, i);
    } else {
      ExpiredFirstMatchPurgesCode(all, code, now, i);
      FilterAppend(reports, [report], OtherCode(code));
      forall j | 0 <= j < |reports| ensures reports[j].accessCode != code {
        assert reports[j] in reports;
      }
      FilterKeepsAll(reports, OtherCode(code));
    }
  }

  /** Codes are not checked for uniqueness: a report saved under a code that
      an earlier report already carries is never found while the earlier one
      is live, and is deleted, though itself unexpired, once the earlier one
      has expired and its code is looked up. */
  lemma EarlierNamesakeShadowsSave(reports: seq<Report>, report: Report, now: int, i: nat)
    requires i < |reports| && reports[i].accessCode == report.accessCode
    ensures var code := report.accessCode;
      var before := LookupByCode(reports, code, now);
      var after := LookupByCode(reports + [report], code, now);
      && after.found == before.found
      && after.remaining == (if before.found.Some? then reports + [report] else before.remaining)
  {
    var code := report.accessCode;
    var all := reports + [report];
    var f := FindByCode(reports, code);
    assert f.Some?;
    var k := f.value;
    forall j | 0 <= j < k ensures all[j].accessCode != code {
      assert all[j] == reports[j];
    }
    assert all[k] == reports[k];
    if now <= reports[k].expiresAt {
      LiveFirstMatchIsFound(all, code, now, k);
    } else {
      ExpiredFirstMatchPurgesCode(all, code, now, k);
      FilterAppend(reports, [report], OtherCode(code));
    }
  }

  /** `deleteReport` keeps exactly the reports with another id, each as often
      as before and in the same order; an absent id changes nothing, and
      deleting twice is deleting once. */
  lemma DeleteKeepsExactlyOthers(reports: seq<Report>, id: string)
    ensures forall r :: r in WithoutId(reports, id) <==> r in reports && r.id != id
    ensures forall r ::
      multiset(WithoutId(reports, id))[r] == if r.id != id then multiset(reports)[r] else 0
    ensures IsSubsequence(WithoutId(reports, id), reports)
    ensures (forall r :: r in reports ==> r.id != id) ==> WithoutId(reports, id) == reports
    ensures WithoutId(WithoutId(reports, id), id) == WithoutId(reports, id)
  {
    FilterCounts(reports, OtherId(id));
    FilterIsSubsequence(reports, OtherId(id));
    FilterIdempotent(reports, OtherId(id));
    if forall r :: r in reports ==> r.id != id {
      forall j | 0 <= j < |reports| ensures reports[j].id != id {
        assert reports[j] in reports;
      }
      FilterKeepsAll(reports, OtherId(id));
    }
  }
}
