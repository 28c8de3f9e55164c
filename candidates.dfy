/**
 * `gather_candidates`: the files of the directory walk that the cleanup
 * considers, each with the date its name carries. The walk (`root.rglob("*")`
 * with `is_file()`) is given as the sequence of entries it yields, in order.
 */
module Candidates {

  import opened Wrappers
  import opened Text
  import opened Calendar
  import opened DatePatterns
  import opened FileNames

  /** One path yielded by the directory walk, and whether it is a regular file. */
  datatype Entry = Entry(path: Path, isFile: bool)

  /** A pair the generator yields: a file and the date in its name. */
  datatype Candidate = Candidate(path: Path, date: Date)

  /** The four tests an entry must pass, in the order the generator applies them. */
  predicate Admitted(e: Entry, extensions: seq<string>, skipTokens: seq<string>) {
    && e.isFile
    && LowerStr(Suffix(BaseName(e.path))) in extensions
    && !ShouldSkip(BaseName(e.path), skipTokens)
    && ExtractDate(BaseName(e.path)).Some?
  }

  /** The candidate an admitted entry yields. */
  function CandidateOf(e: Entry, extensions: seq<string>, skipTokens: seq<string>): Candidate
    requires Admitted(e, extensions, skipTokens)
  {
    Candidate(e.path, ExtractDate(BaseName(e.path)).value)
  }

  /**
   * `gather_candidates`: walks the entries in order and yields
   * `(path, date)` for each that is a regular file, whose lower-cased suffix is
   * an allowed extension, that no skip token matches and whose name has a date.
   */
  function GatherCandidates(entries: seq<Entry>, extensions: seq<string>, skipTokens: seq<string>): (r: seq<Candidate>)
    ensures |r| <= |entries|
    ensures forall c :: c in r ==> ValidDate(c.date)
  {
    if entries == [] then []
    else
      var e := entries[0];
      var rest := GatherCandidates(entries[1..], extensions, skipTokens);
      if !e.isFile then rest
      else if LowerStr(Suffix(BaseName(e.path))) !in extensions then rest
      else if ShouldSkip(BaseName(e.path), skipTokens) then rest
      else
        match ExtractDate(BaseName(e.path))
        case None => rest
        case Some(date) => [Candidate(e.path, date)] + rest
  }

  /**
   * Every yielded pair is a regular file of the walk whose suffix is allowed,
   * that no skip token matches, paired with the date of its name.
   */
  lemma {:induction false} GatherSound(entries: seq<Entry>, extensions: seq<string>, skipTokens: seq<string>)
    ensures forall c :: c in GatherCandidates(entries, extensions, skipTokens) ==>
      && Entry(c.path, true) in entries
      && LowerStr(Suffix(BaseName(c.path))) in extensions
      && !ShouldSkip(BaseName(c.path), skipTokens)
      && ExtractDate(BaseName(c.path)) == Some(c.date)
  {
    if entries != [] {
      GatherSound(entries[1..], extensions, skipTokens);
      assert forall x :: x in entries[1..] ==> x in entries;
    }
  }

  /** Every entry that passes the four tests is yielded. */
  lemma {:induction false} GatherComplete(entries: seq<Entry>, extensions: seq<string>, skipTokens: seq<string>)
    ensures forall e :: e in entries && Admitted(e, extensions, skipTokens) ==>
      CandidateOf(e, extensions, skipTokens) in GatherCandidates(entries, extensions, skipTokens)
  {
    if entries != [] {
      GatherComplete(entries[1..], extensions, skipTokens);
      assert forall x :: x in entries ==> x == entries[0] || x in entries[1..];
    }
  }

  /**
   * The generator keeps the walk's order: gathering from two stretches of
   * the walk gives the two results one after the other.
   */
  lemma {:induction false} GatherAppend(a: seq<Entry>, b: seq<Entry>, extensions: seq<string>, skipTokens: seq<string>)
    ensures GatherCandidates(a + b, extensions, skipTokens)
         == GatherCandidates(a, extensions, skipTokens) + GatherCandidates(b, extensions, skipTokens)
  {
    if a == [] {
      assert a + b == b;
    } else {
      assert (a + b)[1..] == a[1..] + b;
      GatherAppend(a[1..], b, extensions, skipTokens);
    }
  }

  /** One entry yields its candidate exactly when it passes the four tests. */
  lemma GatherOne(e: Entry, extensions: seq<string>, skipTokens: seq<string>)
    ensures GatherCandidates([e], extensions, skipTokens)
         == if Admitted(e, extensions, skipTokens) then [CandidateOf(e, extensions, skipTokens)] else []
  {
    assert [e][1..] == [];
  }

  /** A name that a skip token matches never becomes a candidate, whatever its date. */
  lemma SkippedNeverCandidate(entries: seq<Entry>, extensions: seq<string>, skipTokens: seq<string>, p: Path)
    requires ShouldSkip(BaseName(p), skipTokens)
    ensures forall c :: c in GatherCandidates(entries, extensions, skipTokens) ==> c.path != p
  {
    GatherSound(entries, extensions, skipTokens);
  }

  /** A file name whose extension is upper case, built around one `YYYY-MM-DD`. */
  const ExampleName: string := "Report-" + "2025-01-01" + ".JSON"

  /** An upper-case extension is admitted against the normalised `.json`. */
  lemma ExtensionCaseExample()
    ensures Admitted(Entry("reports" + "/" + ExampleName, true), NormalizeExtensions([".json"]), ["latest"])
    ensures CandidateOf(Entry("reports" + "/" + ExampleName, true), NormalizeExtensions([".json"]), ["latest"]).date
         == Date(2025, 1, 1)
  {
    ExampleDate();
    BaseNameOfJoin("reports", ExampleName);
    ExampleSuffix();
    ExampleNotSkipped();
  }

  lemma ExampleDate()
    ensures '/' !in ExampleName
    ensures ExtractDate(ExampleName) == Some(Date(2025, 1, 1))
  {
    ExampleGroups();
    HyphenatedSoleDate("Report-", "2025-01-01", ".JSON");
  }

  lemma ExampleGroups()
    ensures MatchesAt("2025-01-01", Hyphenated, 0) && Groups("2025-01-01", Hyphenated, 0) == Date(2025, 1, 1)
    ensures NoDigit("Report-") && NoDigit(".JSON")
    ensures MakeDate(2025, 1, 1) == Some(Date(2025, 1, 1))
  {
  }

  lemma ExampleSuffix()
    ensures LowerStr(Suffix(ExampleName)) in NormalizeExtensions([".json"])
  {
    assert ExampleName[18..] == "JSON";
    SuffixAt(ExampleName, 17);
    assert ExampleName[17..] == ".JSON";
    assert LowerStr(".JSON") == ".json";
    assert NormalizeExtension(".json") == ".json";
    assert NormalizeExtensions([".json"]) == [".json"];
  }

  lemma ExampleNotSkipped()
    ensures !ShouldSkip(ExampleName, ["latest"])
  {
    NotSkippedWithoutInitial(ExampleName, "latest");
  }
}
