/**
 * The retention decision and the deletion loop of `cleanup`, and the part
 * of `main` that decides whether and with which window it runs. The clock
 * read (`datetime.now().date()`) is the parameter `today`; the directory
 * walk is the entry sequence of module Candidates; the files on disk are a
 * FileSystem object whose set of paths `unlink` shrinks.
 */
module Retention {

  import opened Calendar
  import opened FileNames
  import opened Candidates

  /** The regular files present on disk, by path. */
  class FileSystem {
    var files: set<Path>

    constructor (files: set<Path>)
      ensures this.files == files
    {
      this.files := files;
    }

    /** `path.unlink(missing_ok=True)`: removing a path that is already gone does nothing. */
    method Unlink(path: Path)
      modifies this
      ensures files == old(files) - {path}
    {
      files := files - {path};
    }
  }

  /** The paths listed in `s`, as a set. */
  function Elements(s: seq<Path>): set<Path> {
    set p | p in s
  }

  /** Listing one more path adds exactly that path. */
  lemma ElementsSnoc(s: seq<Path>, p: Path)
    ensures Elements(s + [p]) == Elements(s) + {p}
  {
    assert forall q :: q in s + [p] <==> q in s || q == p;
  }

  /** Every candidate carries a calendar-valid date, as GatherCandidates guarantees. */
  predicate AllDated(candidates: seq<Candidate>) {
    forall k :: 0 <= k < |candidates| ==> ValidDate(candidates[k].date)
  }

  /** A candidate the loop deletes: its age is strictly greater than the window. */
  predicate Expired(c: Candidate, today: Date, keepDays: int)
    requires ValidDate(today) && ValidDate(c.date)
  {
    Age(today, c.date) > keepDays
  }

  /**
   * The `deleted_paths` list: the paths of the expired candidates, in the
   * order the loop meets them.
   */
  function ExpiredPaths(candidates: seq<Candidate>, today: Date, keepDays: int): (r: seq<Path>)
    requires ValidDate(today) && AllDated(candidates)
    ensures |r| <= |candidates|
  {
    if candidates == [] then []
    else
      var init := candidates[..|candidates| - 1];
      var last := candidates[|candidates| - 1];
      assert forall c :: c in init ==> c in candidates;
      ExpiredPaths(init, today, keepDays) + (if Expired(last, today, keepDays) then [last.path] else [])
  }

  /** Every listed path belongs to a candidate that is expired. */
  lemma {:induction false} ExpiredPathsSound(candidates: seq<Candidate>, today: Date, keepDays: int)
    requires ValidDate(today) && AllDated(candidates)
    ensures forall p :: p in ExpiredPaths(candidates, today, keepDays) ==>
      exists c :: c in candidates && c.path == p && Expired(c, today, keepDays)
  {
    if candidates != [] {
      var init := candidates[..|candidates| - 1];
      assert forall c :: c in init ==> c in candidates;
      ExpiredPathsSound(init, today, keepDays);
    }
  }

  /** Every expired candidate has its path listed. */
  lemma {:induction false} ExpiredPathsComplete(candidates: seq<Candidate>, today: Date, keepDays: int)
    requires ValidDate(today) && AllDated(candidates)
    ensures forall c :: c in candidates && Expired(c, today, keepDays) ==>
      c.path in ExpiredPaths(candidates, today, keepDays)
  {
    if candidates != [] {
      var init := candidates[..|candidates| - 1];
      assert forall c :: c in candidates ==> c in init || c == candidates[|candidates| - 1];
      assert forall c :: c in init ==> c in candidates;
      ExpiredPathsComplete(init, today, keepDays);
    }
  }

  /** One more candidate adds its path to the list exactly when it is expired. */
  lemma ExpiredPathsSnoc(candidates: seq<Candidate>, c: Candidate, today: Date, keepDays: int)
    requires ValidDate(today) && AllDated(candidates) && ValidDate(c.date)
    ensures AllDated(candidates + [c])
    ensures ExpiredPaths(candidates + [c], today, keepDays)
         == ExpiredPaths(candidates, today, keepDays) + (if Expired(c, today, keepDays) then [c.path] else [])
  {
    assert (candidates + [c])[..|candidates|] == candidates;
  }

  /** One step of the loop over `candidates`: the prefix grows by the candidate at `i`. */
  lemma ExpiredPathsPrefix(candidates: seq<Candidate>, i: nat, today: Date, keepDays: int)
    requires ValidDate(today) && AllDated(candidates) && i < |candidates|
    ensures ValidDate(candidates[i].date) && AllDated(candidates[..i]) && AllDated(candidates[..i + 1])
    ensures ExpiredPaths(candidates[..i + 1], today, keepDays)
         == ExpiredPaths(candidates[..i], today, keepDays)
            + (if Expired(candidates[i], today, keepDays) then [candidates[i].path] else [])
  {
    assert candidates[..i + 1] == candidates[..i] + [candidates[i]];
    ExpiredPathsSnoc(candidates[..i], candidates[i], today, keepDays);
  }

  /** Selection keeps the candidates' order: it distributes over concatenation. */
  lemma {:induction false} ExpiredPathsAppend(a: seq<Candidate>, b: seq<Candidate>, today: Date, keepDays: int)
    requires ValidDate(today) && AllDated(a) && AllDated(b)
    ensures AllDated(a + b)
    ensures ExpiredPaths(a + b, today, keepDays) == ExpiredPaths(a, today, keepDays) + ExpiredPaths(b, today, keepDays)
    decreases |b|
  {
    if b == [] {
      assert a + b == a;
    } else {
      var init := b[..|b| - 1];
      assert (a + b)[..|a + b| - 1] == a + init;
      ExpiredPathsAppend(a, init, today, keepDays);
    }
  }

  /** With a window of at least zero, a file dated after today is always kept. */
  lemma FutureRetained(c: Candidate, today: Date, keepDays: int)
    requires ValidDate(today) && ValidDate(c.date) && keepDays >= 0
    requires Before(today, c.date)
    ensures !Expired(c, today, keepDays)
  {
    AgeSign(today, c.date);
  }

  /**
   * The window's edge: a file `keepDays + 1` days old is deleted, and a file
   * dated one day later, exactly `keepDays` old, is kept.
   */
  lemma BoundaryRetained(c: Candidate, today: Date, keepDays: int)
    requires ValidDate(today) && ValidDate(c.date) && c.date != Date(MaxYear, 12, 31)
    requires Age(today, c.date) == keepDays + 1
    ensures Expired(c, today, keepDays)
    ensures ValidDate(NextDay(c.date)) && Age(today, NextDay(c.date)) == keepDays
    ensures !Expired(Candidate(c.path, NextDay(c.date)), today, keepDays)
  {
    OrdinalNextDay(c.date);
  }

  /** A file whose name a skip token matches is never deleted. */
  lemma SkippedNeverDeleted(entries: seq<Entry>, today: Date, keepDays: int, extensions: seq<string>,
                            skipTokens: seq<string>, p: Path)
    requires ValidDate(today) && ShouldSkip(BaseName(p), skipTokens)
    ensures AllDated(GatherCandidates(entries, extensions, skipTokens))
    ensures p !in ExpiredPaths(GatherCandidates(entries, extensions, skipTokens), today, keepDays)
  {
    SkippedNeverCandidate(entries, extensions, skipTokens, p);
    ExpiredPathsSound(GatherCandidates(entries, extensions, skipTokens), today, keepDays);
  }

  /** `max(args.days, 0)`: the retention window `main` passes on is never negative. */
  function RetentionWindow(days: int): (w: nat)
    ensures w >= days
    ensures w == days || w == 0
  {
    if days > 0 then days else 0
  }

  /**
   * `cleanup`: for each candidate in turn, one whose age exceeds the window
   * is counted and listed, and removed unless this is a dry run. The list is
   * the same in both modes; only the files on disk differ.
   */
  method Cleanup(fs: FileSystem, entries: seq<Entry>, today: Date, keepDays: int,
                 extensions: seq<string>, skipTokens: seq<string>, dryRun: bool)
    returns (deleted: nat, deletedPaths: seq<Path>)
    requires ValidDate(today)
    modifies fs
    ensures deleted == |deletedPaths|
    ensures deletedPaths == ExpiredPaths(GatherCandidates(entries, extensions, skipTokens), today, keepDays)
    ensures dryRun ==> fs.files == old(fs.files)
    ensures !dryRun ==> fs.files == old(fs.files) - Elements(deletedPaths)
  {
    var candidates := GatherCandidates(entries, extensions, skipTokens);
    deleted, deletedPaths := DeleteExpired(fs, candidates, today, keepDays, dryRun);
  }

  /** The loop of `cleanup` over the candidates the generator yields. */
  method DeleteExpired(fs: FileSystem, candidates: seq<Candidate>, today: Date, keepDays: int, dryRun: bool)
    returns (deleted: nat, deletedPaths: seq<Path>)
    requires ValidDate(today) && AllDated(candidates)
    modifies fs
    ensures deleted == |deletedPaths|
    ensures deletedPaths == ExpiredPaths(candidates, today, keepDays)
    ensures dryRun ==> fs.files == old(fs.files)
    ensures !dryRun ==> fs.files == old(fs.files) - Elements(deletedPaths)
  {
    deleted := 0;
    deletedPaths := [];
    var i := 0;
    while i < |candidates|
      invariant 0 <= i <= |candidates|
      invariant deleted == |deletedPaths|
      invariant deletedPaths == ExpiredPaths(candidates[..i], today, keepDays)
      invariant dryRun ==> fs.files == old(fs.files)
      invariant !dryRun ==> fs.files == old(fs.files) - Elements(deletedPaths)
    {
      ExpiredPathsPrefix(candidates, i, today, keepDays);
      var c := candidates[i];
      var ageDays := Age(today, c.date);
      if ageDays > keepDays {
        if !dryRun {
          fs.Unlink(c.path);
        }
        deleted := deleted + 1;
        ElementsSnoc(deletedPaths, c.path);
        deletedPaths := deletedPaths + [c.path];
      }
      i := i + 1;
    }
    assert candidates[..i] == candidates;
  }

  /**
   * `main` after argument parsing: a missing root does nothing; otherwise
   * the extensions are normalised, the window is clamped at zero and
   * `cleanup` runs. (`main` itself discards the result; it is returned here
   * so that the contract can speak of it.)
   */
  method Run(fs: FileSystem, rootExists: bool, entries: seq<Entry>, today: Date, days: int,
             extensions: seq<string>, skipTokens: seq<string>, dryRun: bool)
    returns (deleted: nat, deletedPaths: seq<Path>)
    requires ValidDate(today)
    modifies fs
    ensures !rootExists ==> deleted == 0 && deletedPaths == [] && fs.files == old(fs.files)
    ensures rootExists ==> deletedPaths == ExpiredPaths(
      GatherCandidates(entries, NormalizeExtensions(extensions), skipTokens), today, RetentionWindow(days))
    ensures deleted == |deletedPaths|
    ensures dryRun ==> fs.files == old(fs.files)
    ensures !dryRun ==> fs.files == old(fs.files) - Elements(deletedPaths)
  {
    if !rootExists {
      return 0, [];
    }
    var normalized := NormalizeExtensions(extensions);
    deleted, deletedPaths := Cleanup(fs, entries, today, RetentionWindow(days), normalized, skipTokens, dryRun);
  }
}
