/**
 * Worked runs of the cleanup over one-file directories: the retention
 * boundary, the skip token and the dry run.
 */
module Scenarios {

  import opened Wrappers
  import opened Text
  import opened Calendar
  import opened DatePatterns
  import opened FileNames
  import opened Candidates
  import opened Retention

  /** An old report, named after the day it was written. */
  const ReportName: string := "report_" + "20250101" + ".json"
  const ReportPath: Path := "cache" + "/" + ReportName
  const Today: Date := Date(2025, 1, 10)

  lemma ReportDate()
    ensures '/' !in ReportName
    ensures ExtractDate(ReportName) == Some(Date(2025, 1, 1))
  {
    ReportGroups();
    CompactSoleDate("report_", "20250101", ".json");
  }

  lemma ReportGroups()
    ensures MatchesAt("20250101", Compact, 0) && Groups("20250101", Compact, 0) == Date(2025, 1, 1)
    ensures NoDigit("report_") && NoDigit(".json")
    ensures MakeDate(2025, 1, 1) == Some(Date(2025, 1, 1))
  {
  }

  lemma ReportSuffix()
    ensures LowerStr(Suffix(ReportName)) == ".json"
  {
    assert ReportName[16..] == "json";
    SuffixAt(ReportName, 15);
    assert ReportName[15..] == ".json";
  }

  lemma ReportNotSkipped()
    ensures !ShouldSkip(ReportName, ["latest"])
  {
    NotSkippedWithoutInitial(ReportName, "latest");
  }

  /** `report_20250101.json` is the one candidate of its directory. */
  lemma ReportCandidate()
    ensures GatherCandidates([Entry(ReportPath, true)], [".json"], ["latest"]) == [Candidate(ReportPath, Date(2025, 1, 1))]
  {
    ReportDate();
    BaseNameOfJoin("cache", ReportName);
    ReportSuffix();
    ReportNotSkipped();
    GatherOne(Entry(ReportPath, true), [".json"], ["latest"]);
  }

  /**
   * Nine days old on 2025-01-10: the report is deleted exactly when the
   * window is shorter than nine days (kept at nine, deleted at five).
   */
  lemma RetentionBoundaryScenario(keepDays: int)
    ensures ExpiredPaths(GatherCandidates([Entry(ReportPath, true)], [".json"], ["latest"]), Today, keepDays)
         == if keepDays < 9 then [ReportPath] else []
  {
    ReportCandidate();
    ReportExpiry(keepDays);
  }

  /** The report's one candidate is listed exactly when its nine days exceed the window. */
  lemma ReportExpiry(keepDays: int)
    ensures ExpiredPaths([Candidate(ReportPath, Date(2025, 1, 1))], Today, keepDays)
         == if 9 > keepDays then [ReportPath] else []
  {
    var c := Candidate(ReportPath, Date(2025, 1, 1));
    ExpiredPathsSnoc([], c, Today, keepDays);
    assert [] + [c] == [c];
    AgeWithinMonth();
  }

  /**
   * A file whose name holds the default skip token, as `data_latest_20250101.json`
   * does, is never deleted, whatever its date, today or the window.
   */
  lemma LatestNeverDeleted(pre: string, post: string, today: Date, keepDays: int)
    requires '/' !in pre && '/' !in post && ValidDate(today)
    ensures var entry := Entry("cache" + "/" + (pre + "latest" + post), true);
      && AllDated(GatherCandidates([entry], [".json"], ["latest"]))
      && ExpiredPaths(GatherCandidates([entry], [".json"], ["latest"]), today, keepDays) == []
  {
    var name := pre + "latest" + post;
    var path := "cache" + "/" + name;
    assert '/' !in name;
    SkippedWhenHolding(pre, "latest", post, ["latest"]);
    BaseNameOfJoin("cache", name);
    SkippedNeverDeleted([Entry(path, true)], today, keepDays, [".json"], ["latest"], path);
    GatherOne(Entry(path, true), [".json"], ["latest"]);
  }

  /** A dry run over a directory with one old report reports it and counts it, and leaves it on disk. */
  method DryRunScenario() returns (deleted: nat, paths: seq<Path>, remaining: set<Path>)
    ensures deleted == 1 && paths == [ReportPath]
    ensures remaining == {ReportPath}
  {
    RetentionBoundaryScenario(5);
    var fs := new FileSystem({ReportPath});
    deleted, paths := Cleanup(fs, [Entry(ReportPath, true)], Today, 5, [".json"], ["latest"], true);
    remaining := fs.files;
  }

  /** The same run for real removes the report. */
  method RealRunScenario() returns (deleted: nat, paths: seq<Path>, remaining: set<Path>)
    ensures deleted == 1 && paths == [ReportPath]
    ensures remaining == {}
  {
    RetentionBoundaryScenario(5);
    var fs := new FileSystem({ReportPath});
    deleted, paths := Cleanup(fs, [Entry(ReportPath, true)], Today, 5, [".json"], ["latest"], false);
    assert ReportPath in Elements(paths);
    remaining := fs.files;
  }
}
