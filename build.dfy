/** The batch build (build.js): recreate `dist`, then write every HTML page
    of the working directory into it, with the placeholders substituted when
    the page has any. */
module Build {
  import opened Text
  import opened Substitution
  import opened Files

  /** The content written to `dist` for one page: guarded by the presence of
      a placeholder, then the three replacements. */
  function BuildContent(t: Templates, s: seq<char>): (r: seq<char>)
    requires Expandable(t)
  {
    BuildContentWith(Inserted(t), s)
  }

  /** The same with the inserted texts already expanded: `replace` expands
      the `$` patterns of a template the same way on every page. */
  function BuildContentWith(ins: Templates, s: seq<char>): (r: seq<char>) {
    if HasPlaceholder(s) then ReplaceAll(ReplaceAll(ReplaceAll(s, HEAD_TOKEN, ins.head), HEADER_TOKEN, ins.header), FOOTER_TOKEN, ins.footer)
    else s
  }

  /** The guard only saves work: running the three replacements on every
      page gives the same output. */
  lemma GuardRedundant(t: Templates, s: seq<char>)
    requires Expandable(t)
    ensures BuildContent(t, s) == Substitute(t, s)
  {
    if !HasPlaceholder(s) {
      SubstitutePassThrough(t, s);
    }
  }

  /** A page without placeholders is copied byte for byte. */
  lemma BuildCopiesPlainPage(t: Templates, s: seq<char>)
    requires Expandable(t) && !HasPlaceholder(s)
    ensures BuildContent(t, s) == s
  {
  }

  /** With safe templates no placeholder reaches `dist`. */
  lemma BuildLeavesNoPlaceholder(t: Templates, s: seq<char>)
    requires Expandable(t) && SafeTemplates(t)
    ensures !HasPlaceholder(BuildContent(t, s))
  {
    if HasPlaceholder(s) {
      SubstituteComplete(t, s);
    }
  }

  /** The names the build visits, in listing order. */
  function HtmlFiles(listing: seq<string>): (r: seq<string>)
    ensures forall f :: f in r <==> f in listing && IsHtmlName(f)
    ensures Distinct(listing) ==> Distinct(r)
  {
    Select(listing, IsHtmlName)
  }

  /** A page the build writes into `dist`: listed, an HTML name, read and
      written without failure. */
  predicate Built(cwd: Directory, listing: seq<string>, faults: Faults, f: string) {
    f in listing && IsHtmlName(f) && Readable(cwd, faults, f) && f !in faults.write
  }

  /** One page as the loop body computes it: `content` is reassigned by
      each replacement when the page holds a placeholder. */
  method BuildPage(ins: Templates, page: seq<char>) returns (content: seq<char>)
    ensures content == BuildContentWith(ins, page)
  {
    content := page;
    if Contains(content, HEAD_TOKEN) || Contains(content, HEADER_TOKEN) || Contains(content, FOOTER_TOKEN) {
      content := ReplaceAll(content, HEAD_TOKEN, ins.head);
      content := ReplaceAll(content, HEADER_TOKEN, ins.header);
      content := ReplaceAll(content, FOOTER_TOKEN, ins.footer);
    }
  }

  /** `out` holds the content the loop body computes for every page of
      `cwd`. */
  ghost predicate BuildOutcomes(ins: Templates, cwd: Directory, out: map<string, seq<char>>) {
    out.Keys == cwd.Keys && forall f {:trigger BuildRecorded(ins, cwd, out, f)} :: BuildRecorded(ins, cwd, out, f)
  }

  /** `out` holds the content the loop body computes for page `f`. */
  ghost predicate BuildRecorded(ins: Templates, cwd: Directory, out: map<string, seq<char>>, f: string) {
    f in cwd && f in out ==> out[f] == BuildContentWith(ins, cwd[f])
  }

  ghost function BuildOutcomeMap(ins: Templates, cwd: Directory): (out: map<string, seq<char>>)
    ensures BuildOutcomes(ins, cwd, out)
  {
    map f | f in cwd :: BuildContentWith(ins, cwd[f])
  }

  /** One iteration of the loop: read the page, substitute, and write the
      result into `dist`. A failed read or write leaves `dist` as it was. */
  method BuildFile(ins: Templates, cwd: Directory, dist: Directory, faults: Faults, file: string, ghost out: map<string, seq<char>>)
    returns (dist': Directory, written: bool)
    requires BuildOutcomes(ins, cwd, out)
    ensures written <==> Readable(cwd, faults, file) && file !in faults.write
    ensures dist' == if written then dist[file := out[file]] else dist
  {
    dist', written := dist, false;
    if Readable(cwd, faults, file) {
      var content := BuildPage(ins, cwd[file]);
      assert BuildRecorded(ins, cwd, out, file);
      if file !in faults.write {
        dist' := dist[file := content];
        written := true;
      }
    }
  }

  /** The build script. `oldDist` is whatever `dist` held before; it is
      removed and recreated empty before any page is written. Each page is
      processed in its own `try`: a failed read or write is reported and the
      loop goes on with the next page. Returns the new `dist` and
      `processedCount`. */
  method BuildSite(cwd: Directory, listing: seq<string>, t: Templates, faults: Faults, oldDist: Directory)
    returns (dist: Directory, processedCount: nat)
    requires Expandable(t)
    requires Distinct(listing)
    ensures forall f :: f in dist <==> Built(cwd, listing, faults, f)
    ensures forall f :: f in dist ==> f in cwd && dist[f] == BuildContent(t, cwd[f])
    ensures processedCount == |dist|
    ensures forall f :: f in oldDist && !Built(cwd, listing, faults, f) ==> f !in dist
  {
    var htmlFiles := HtmlFiles(listing);
    var ins := Inserted(t);
    ghost var out := BuildOutcomeMap(ins, cwd);
    dist, processedCount := BuildPages(ins, cwd, htmlFiles, faults, out);
    forall f | f in dist ensures f in cwd && dist[f] == BuildContent(t, cwd[f]) {
      assert BuildRecorded(ins, cwd, out, f);
    }
  }

  /** After `i` names, `dist` holds exactly the pages among them that were
      read and written, with the loop body's content. */
  ghost predicate BuiltSoFar(cwd: Directory, files: seq<string>, faults: Faults, out: map<string, seq<char>>, i: nat, dist: Directory)
    requires i <= |files|
  {
    && (forall f :: f in dist ==> f in files[..i] && Readable(cwd, faults, f) && f !in faults.write)
    && (forall f :: f in files[..i] && Readable(cwd, faults, f) && f !in faults.write ==> f in dist)
    && (forall f :: f in dist ==> f in out && dist[f] == out[f])
  }

  /** One iteration keeps `BuiltSoFar` and adds at most the name it visits. */
  lemma {:induction false} BuildStep(cwd: Directory, files: seq<string>, faults: Faults, out: map<string, seq<char>>,
                                     i: nat, dist: Directory, dist': Directory, written: bool)
    requires i < |files| && Distinct(files) && out.Keys == cwd.Keys && BuiltSoFar(cwd, files, faults, out, i, dist)
    requires written <==> Readable(cwd, faults, files[i]) && files[i] !in faults.write
    requires dist' == if written then dist[files[i] := out[files[i]]] else dist
    ensures BuiltSoFar(cwd, files, faults, out, i + 1, dist')
    ensures |dist'| == if written then |dist| + 1 else |dist|
  {
    PrefixStep(files, i);
    if written {
      assert files[i] !in dist;
    }
  }

  /** The loop over the HTML names, starting from the empty `dist`. */
  method BuildPages(ins: Templates, cwd: Directory, files: seq<string>, faults: Faults, ghost out: map<string, seq<char>>)
    returns (dist: Directory, processedCount: nat)
    requires BuildOutcomes(ins, cwd, out) && Distinct(files)
    ensures forall f :: f in dist <==> f in files && Readable(cwd, faults, f) && f !in faults.write
    ensures forall f :: f in dist ==> f in out && dist[f] == out[f]
    ensures processedCount == |dist|
  {
    dist := map[];
    processedCount := 0;
    var i := 0;
    while i < |files|
      invariant 0 <= i <= |files|
      invariant BuiltSoFar(cwd, files, faults, out, i, dist)
      invariant processedCount == |dist|
    {
      var file := files[i];
      var written;
      ghost var before := dist;
      dist, written := BuildFile(ins, cwd, dist, faults, file, out);
      BuildStep(cwd, files, faults, out, i, before, dist, written);
      if written {
        processedCount := processedCount + 1;
      }
      i := i + 1;
    }
    assert files[..i] == files;
  }
}
