/**
 * Tests on file names: normalising the extension list (`normalize_extensions`),
 * the skip-token test (`should_skip`), and the two parts of a path the
 * filters read, `Path.name` and `Path.suffix`.
 */
module FileNames {

  import opened Text

  /** A path as the directory walk yields it, components separated by `/`. */
  type Path = string

  /** One entry of `normalize_extensions`: lower-cased, with a leading dot added when missing. */
  function NormalizeExtension(ext: string): (r: string)
    ensures |r| > 0 && r[0] == '.'
    ensures NoUpper(r)
    ensures StartsWith(ext, ".") ==> r == LowerStr(ext)
    ensures !StartsWith(ext, ".") ==> r == "." + LowerStr(ext)
  {
    LowerStrIdempotent(ext);
    if StartsWith(ext, ".") then LowerStr(ext) else "." + LowerStr(ext)
  }

  /** `normalize_extensions`: entry by entry, in the given order. */
  function NormalizeExtensions(exts: seq<string>): (r: seq<string>)
    ensures |r| == |exts|
    ensures forall i :: 0 <= i < |r| ==> r[i] == NormalizeExtension(exts[i])
    ensures forall i :: 0 <= i < |r| ==> |r[i]| > 0 && r[i][0] == '.' && NoUpper(r[i])
  {
    seq(|exts|, i requires 0 <= i < |exts| => NormalizeExtension(exts[i]))
  }

  /** Normalising an already normalised extension changes nothing. */
  lemma NormalizeExtensionIdempotent(ext: string)
    ensures NormalizeExtension(NormalizeExtension(ext)) == NormalizeExtension(ext)
  {
    var r := NormalizeExtension(ext);
    assert StartsWith(r, ".");
    LowerStrOfNoUpper(r);
  }

  /** Normalising the list twice gives the list normalised once. */
  lemma NormalizeExtensionsIdempotent(exts: seq<string>)
    ensures NormalizeExtensions(NormalizeExtensions(exts)) == NormalizeExtensions(exts)
  {
    forall i | 0 <= i < |exts| {
      NormalizeExtensionIdempotent(exts[i]);
    }
  }

  /**
   * Normalisation ignores case and a missing dot: an entry and its lower-cased
   * form normalise alike, and so do an entry without a dot and the same entry
   * with one (`JSON`, `.Json` and `.json` all give `.json`).
   */
  lemma NormalizeExtensionIgnoresCase(ext: string)
    ensures NormalizeExtension(LowerStr(ext)) == NormalizeExtension(ext)
    ensures !StartsWith(ext, ".") ==> NormalizeExtension("." + ext) == NormalizeExtension(ext)
  {
    LowerStrIdempotent(ext);
    if !StartsWith(ext, ".") {
      LowerStrConcat(".", ext);
      assert LowerStr(".") == ".";
    }
  }

  /**
   * `should_skip`: `any(token.lower() in name.lower() for token in tokens)`,
   * tried token by token.
   */
  function ShouldSkip(name: string, tokens: seq<string>): (b: bool)
    ensures b <==> exists i :: 0 <= i < |tokens| && Contains(LowerStr(name), LowerStr(tokens[i]))
  {
    if tokens == [] then false
    else if Contains(LowerStr(name), LowerStr(tokens[0])) then true
    else
      var b := ShouldSkip(name, tokens[1..]);
      assert forall i :: 1 <= i < |tokens| ==> tokens[1..][i - 1] == tokens[i];
      b
  }

  /** A name that holds one of the tokens verbatim is skipped. */
  lemma SkippedWhenHolding(pre: string, token: string, post: string, tokens: seq<string>)
    requires token in tokens
    ensures ShouldSkip(pre + token + post, tokens)
  {
    var low := LowerStr(pre + token + post);
    LowerStrConcat(pre + token, post);
    LowerStrConcat(pre, token);
    assert low[|pre|..] == LowerStr(token) + LowerStr(post);
    assert LowerStr(token) <= low[|pre|..];
    var i :| 0 <= i < |tokens| && tokens[i] == token;
    assert Contains(low, LowerStr(tokens[i]));
  }

  /**
   * A name in which the first letter of a token does not occur, in either
   * case, is not skipped by that token.
   */
  lemma NotSkippedWithoutInitial(name: string, token: string)
    requires token != [] && Lower(token[0]) !in LowerStr(name)
    ensures !ShouldSkip(name, [token])
  {
    var lowered := LowerStr(name);
    forall k | 0 <= k <= |lowered|
      ensures !(LowerStr(token) <= lowered[k..])
    {
      if k < |lowered| {
        assert lowered[k..][0] == lowered[k];
      }
    }
  }

  /** No tokens skip nothing; an empty token skips every name. */
  lemma ShouldSkipEdges(name: string, tokens: seq<string>)
    ensures !ShouldSkip(name, [])
    ensures "" in tokens ==> ShouldSkip(name, tokens)
  {
    if "" in tokens {
      var i :| 0 <= i < |tokens| && tokens[i] == "";
      ContainsEmpty(LowerStr(name));
      assert LowerStr(tokens[i]) == "";
    }
  }

  /** The skip test ignores the case of the name. */
  lemma ShouldSkipIgnoresCase(name: string, tokens: seq<string>)
    ensures ShouldSkip(LowerStr(name), tokens) == ShouldSkip(name, tokens)
  {
    LowerStrIdempotent(name);
  }

  /** `Path.name`: the text after the last `/` (the whole path when there is none). */
  function BaseName(path: Path): (r: string)
    ensures '/' !in r
    ensures |r| <= |path| && r == path[|path| - |r|..]
    ensures |r| < |path| ==> path[|path| - |r| - 1] == '/'
  {
    var i := RFind(path, '/');
    path[i + 1..]
  }

  /** The name of a path joined from a directory and a name without `/` is that name. */
  lemma BaseNameOfJoin(dir: Path, name: string)
    requires '/' !in name
    ensures BaseName(dir + "/" + name) == name
  {
    var p := dir + "/" + name;
    assert p[|dir|] == '/';
    assert forall j :: |dir| < j < |p| ==> p[j] == name[j - |dir| - 1];
    assert RFind(p, '/') == |dir|;
    assert p[|dir| + 1..] == name;
  }

  /**
   * `Path.suffix`: the text from the last `.` of the name, when that dot is
   * neither the first nor the last character; otherwise empty.
   */
  function Suffix(name: string): (r: string)
    ensures r != [] ==> 2 <= |r| < |name| && r == name[|name| - |r|..]
    ensures r != [] ==> r[0] == '.' && '.' !in r[1..]
    ensures r != [] <==> exists k :: 0 < k < |name| - 1 && name[k] == '.' && '.' !in name[k + 1..]
  {
    var i := RFind(name, '.');
    if 0 < i < |name| - 1 then
      assert name[i..][1..] == name[i + 1..];
      name[i..]
    else
      forall k | 0 < k < |name| - 1 && name[k] == '.'
        ensures '.' in name[k + 1..]
      {
        assert name[k + 1..][i - k - 1] == '.';
      }
      []
  }

  /** The suffix starts at the last dot of the name, when that dot is inside it. */
  lemma SuffixAt(name: string, k: int)
    requires 0 < k < |name| - 1 && name[k] == '.' && '.' !in name[k + 1..]
    ensures Suffix(name) == name[k..]
  {
    var i := RFind(name, '.');
    assert i <= k;
  }

  /** Worked cases of `Path.suffix`. */
  lemma SuffixExamples()
    ensures Suffix("Report-2025-01-01.JSON") == ".JSON"
    ensures Suffix("archive.tar.gz") == ".gz"
    ensures Suffix(".json") == ""
    ensures Suffix("notes.") == ""
    ensures Suffix("README") == ""
  {
    SuffixAt("Report-2025-01-01.JSON", 17);
    SuffixAt("archive.tar.gz", 11);
  }
}
