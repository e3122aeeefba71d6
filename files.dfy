/** File names, directory listings and the per-file failure oracle shared by
    the three batch scripts. A directory is a map from file name to contents;
    the listing `readdirSync` returns is an input, in whatever order the host
    enumerates it. */
module Files {
  type Directory = map<string, seq<char>>

  /** `String.prototype.endsWith`. */
  predicate EndsWith(s: string, suffix: string) {
    |suffix| <= |s| && s[|s| - |suffix|..] == suffix
  }

  /** `String.prototype.startsWith`. */
  predicate StartsWith(s: string, prefix: string) {
    |prefix| <= |s| && s[..|prefix|] == prefix
  }

  /** The names the build processes. */
  predicate IsHtmlName(f: string) {
    EndsWith(f, ".html")
  }

  /** The names the migration converter backs up and rewrites. */
  predicate IsConvertCandidate(f: string) {
    EndsWith(f, ".html") && !StartsWith(f, "example-") && !StartsWith(f, "build-test")
  }

  /** The names the duplicate cleanup visits: example pages included. */
  predicate IsCleanupCandidate(f: string) {
    EndsWith(f, ".html") && !StartsWith(f, "build-test")
  }

  /** The cleanup visits every page the converter visits, and more. */
  lemma ConvertCandidatesAreCleanupCandidates(f: string)
    ensures IsConvertCandidate(f) ==> IsCleanupCandidate(f)
    ensures IsCleanupCandidate(f) ==> IsHtmlName(f)
    ensures IsCleanupCandidate(f) && !IsConvertCandidate(f) <==> IsHtmlName(f) && StartsWith(f, "example-") && !StartsWith(f, "build-test")
  {
  }

  predicate Distinct(names: seq<string>) {
    forall i, j :: 0 <= i < j < |names| ==> names[i] != names[j]
  }

  /** A loop over `names` that has visited `names[..i]` visits `names[i]`
      next, for the first time. */
  lemma {:induction false} PrefixStep(names: seq<string>, i: nat)
    requires Distinct(names) && i < |names|
    ensures names[..i + 1] == names[..i] + [names[i]]
    ensures names[i] !in names[..i]
  {
    assert names[..i + 1] == names[..i] + [names[i]];
  }

  /** `Array.prototype.filter`: the names satisfying `keep`, in listing order. */
  function Select(names: seq<string>, keep: string -> bool): (r: seq<string>)
    ensures forall f :: f in r <==> f in names && keep(f)
    ensures |r| <= |names|
    ensures Distinct(names) ==> Distinct(r)
  {
    if names == [] then []
    else
      var rest := Select(names[1..], keep);
      if keep(names[0]) then [names[0]] + rest else rest
  }

  /** Per-file failures of the file-system calls: reading a file, writing
      it, and copying it into the backup directory. A name the listing
      yields that is not a regular file (`f !in dir`) fails to read and to
      copy as well. */
  datatype Faults = Faults(read: set<string>, write: set<string>, copy: set<string>)

  /** `readFileSync(f)` returns the file's contents. */
  predicate Readable(dir: Directory, faults: Faults, f: string) {
    f in dir && f !in faults.read
  }
}
