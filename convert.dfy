/** The migration converter (convert-to-templates.js): every candidate page
    is first copied into `html-backup`, then the head, navigation and footer
    steps rewrite it in that order, and a page is written back only when a
    step raised `modified`. */
module Convert {
  import opened Text
  import opened Substitution
  import opened Regions
  import opened Files

  /** One page through the three steps. `modified` is raised when any step
      raised it; a step whose pattern does not match passes the page on
      unchanged and the next step still runs. */
  function ConvertDocument(s: seq<char>): (r: Step)
    ensures !r.modified <==> HeadStep(s).text == s && NavStep(s).text == s && FooterStep(s).text == s
    ensures !r.modified ==> r.text == s
  {
    var h := HeadStep(s);
    var n := NavStep(h.text);
    var f := FooterStep(n.text);
    Step(f.text, h.modified || n.modified || f.modified)
  }

  // ---------------------------------------------------------------------------
  // A page in three parts

  /** A page made of a head part `p` that the head pattern covers up to its
      final `</head>`, a part `q` holding at most one navigation landmark
      whose block, with the whitespace after it, ends before the part's
      closing `>`, and a rest `r` with no navigation landmark and at most one
      footer landmark. Neither landmark occurs before `q`, and the footer
      landmark does not occur in `q`. */
  ghost predicate Layout(p: seq<char>, q: seq<char>, r: seq<char>) {
    Parts(p, q, r) && AtMostOne(q, NAV_MARK, true) && AtMostOne(r, FOOTER_MARK, true)
  }

  /** The shape of `Layout` without the landmark counts. */
  predicate Parts(p: seq<char>, q: seq<char>, r: seq<char>) {
    && HeadMatchOf(p).Some? && HeadMatchOf(p).value.closeHead + |HEAD_CLOSE| == |p|
    && Absent(p, NAV_MARK, true) && Absent(p, FOOTER_MARK, true)
    && BodyPart(q) && Absent(r, NAV_MARK, true)
  }

  /** The middle part: it ends with `>`, after the navigation match if it
      has a landmark, and holds no footer landmark. */
  predicate BodyPart(q: seq<char>) {
    && |q| > 0 && q[|q| - 1] == '>' && Absent(q, FOOTER_MARK, true)
    && (Absent(q, NAV_MARK, true) || (NavMatch(q).Some? && NavMatch(q).value.end < |q|))
  }

  /** On such a page each step rewrites its own part only. */
  lemma {:induction false} ConvertSplits(p: seq<char>, q: seq<char>, r: seq<char>)
    requires Parts(p, q, r)
    ensures ConvertDocument(p + q + r)
      == Step(HeadStep(p).text + NavStep(q).text + FooterStep(r).text,
              HeadStep(p).modified || NavStep(q).modified || FooterStep(r).modified)
  {
    var h := HeadStep(p);
    var p1 := h.text;
    TagLiterals();
    assert p + q + r == p + (q + r);
    HeadStepSuffix(p, q + r);
    HeadStepKeepsEnd(p);
    HeadStepKeepsEnd(p1);
    HeadStepKeepsAbsent(p, NAV_MARK);
    HeadStepKeepsAbsent(p, FOOTER_MARK);
    BodyAndRest(p1, q, r);
  }

  /** The navigation and footer steps behind a head part. */
  lemma {:induction false} BodyAndRest(p1: seq<char>, q: seq<char>, r: seq<char>)
    requires |p1| > 0 && p1[|p1| - 1] == '>'
    requires Absent(p1, NAV_MARK, true) && Absent(p1, FOOTER_MARK, true)
    requires BodyPart(q) && Absent(r, NAV_MARK, true)
    ensures var n := NavStep(p1 + (q + r)); var f := FooterStep(n.text);
      n == Step(p1 + NavStep(q).text + r, NavStep(q).modified)
      && f == Step(p1 + NavStep(q).text + FooterStep(r).text, FooterStep(r).modified)
  {
    var n := NavStep(q);
    var q1 := n.text;
    TagLiterals();
    MarksClosedBy();
    NavStepShift(p1, q + r);
    NavStepSuffix(q, r);
    assert p1 + (q1 + r) == (p1 + q1) + r;
    NavStepKeepsEnd(q);
    NavStepKeepsAbsent(q, FOOTER_MARK);
    AbsentJoin(p1, q1, FOOTER_MARK, true);
    FooterStepShift(p1 + q1, r);
  }

  /** The three steps keep the page in that shape: the head part still ends
      with its match, and each landmark the navigation and footer steps met
      has been replaced. */
  lemma {:induction false} ConvertKeepsLayout(p: seq<char>, q: seq<char>, r: seq<char>)
    requires Layout(p, q, r)
    ensures Layout(HeadStep(p).text, NavStep(q).text, FooterStep(r).text)
  {
    var n := NavStep(q);
    var f := FooterStep(r);
    TagLiterals();
    HeadStepKeepsEnd(p);
    HeadStepKeepsAbsent(p, NAV_MARK);
    HeadStepKeepsAbsent(p, FOOTER_MARK);
    NavStepKeepsEnd(q);
    NavStepKeepsAbsent(q, FOOTER_MARK);
    if n.modified {
      NavStepLeavesNoMark(q);
      AbsentAtMostOne(n.text, NAV_MARK, true);
    }
    FooterStepKeepsAbsent(r, NAV_MARK);
    if f.modified {
      FooterStepLeavesNoMark(r);
      AbsentAtMostOne(f.text, FOOTER_MARK, true);
    }
  }

  /** Converting a converted page again changes nothing. */
  lemma {:induction false} ConvertIdempotent(p: seq<char>, q: seq<char>, r: seq<char>)
    requires Layout(p, q, r)
    ensures var c := ConvertDocument(p + q + r); ConvertDocument(c.text) == Step(c.text, false)
  {
    var h := HeadStep(p);
    var n := NavStep(q);
    var f := FooterStep(r);
    ConvertSplits(p, q, r);
    ConvertKeepsLayout(p, q, r);
    ConvertSplits(h.text, n.text, f.text);
    HeadStepIdempotent(p);
    NavStepIdempotent(q);
    FooterStepIdempotent(r);
  }

  // ---------------------------------------------------------------------------
  // Landmarks and ends across the steps

  /** A text without occurrences of `lit` has at most one. */
  lemma {:induction false} AbsentAtMostOne(s: seq<char>, lit: seq<char>, ci: bool)
    requires Absent(s, lit, ci)
    ensures AtMostOne(s, lit, ci)
  {
    FindFromSpec(s, lit, ci, 0);
  }

  /** A guarded edit inserting a placeholder line forms no pattern literal. */
  lemma {:induction false} GuardedEditKeepsAbsent(s: seq<char>, i: nat, j: nat, k: nat, ins: seq<char>, tok: seq<char>, lit: seq<char>)
    requires i <= j <= k <= |s| && HoldsToken(ins, tok)
    requires IsInsertShape(ins) && IsTagLiteral(lit) && Absent(s, lit, true)
    ensures Absent(GuardedEdit(s, i, j, k, ins, tok).text, lit, true)
  {
    SealedByShape(ins, lit, true);
    AbsentAfterEdit(s, i, j, ins, lit, true);
  }

  lemma {:induction false} HeadStepKeepsAbsent(s: seq<char>, lit: seq<char>)
    requires IsTagLiteral(lit) && Absent(s, lit, true)
    ensures Absent(HeadStep(s).text, lit, true)
  {
    if HeadMatchOf(s).Some? {
      var m := HeadMatchOf(s).value;
      var te := m.closeTitle + |TITLE_CLOSE|;
      HeadStepAt(s, m, te, m.closeHead);
      InsertShapes();
      GuardedEditKeepsAbsent(s, te, m.closeHead, m.closeHead, HEAD_INSERT, HEAD_TOKEN, lit);
    }
  }

  lemma {:induction false} NavStepKeepsAbsent(s: seq<char>, lit: seq<char>)
    requires IsTagLiteral(lit) && Absent(s, lit, true)
    ensures Absent(NavStep(s).text, lit, true)
  {
    if NavMatch(s).Some? {
      var n := NavMatch(s).value;
      NavStepAt(s, n.start, n.mark, n.close, n.end);
      InsertShapes();
      GuardedEditKeepsAbsent(s, n.start, n.end, n.end, NAV_INSERT, HEADER_TOKEN, lit);
    }
  }

  lemma {:induction false} FooterStepKeepsAbsent(s: seq<char>, lit: seq<char>)
    requires IsTagLiteral(lit) && Absent(s, lit, true)
    ensures Absent(FooterStep(s).text, lit, true)
  {
    if FooterMatch(s).Some? {
      var f := FooterMatch(s).value;
      FooterStepAt(s, f.start, f.mark, f.close, f.end);
      InsertShapes();
      GuardedEditKeepsAbsent(s, f.start, f.close, f.end, FOOTER_INSERT, FOOTER_TOKEN, lit);
    }
  }

  /** When the navigation step rewrites a page with one landmark, none is
      left. */
  lemma {:induction false} NavStepLeavesNoMark(s: seq<char>)
    requires AtMostOne(s, NAV_MARK, true) && NavStep(s).modified
    ensures Absent(NavStep(s).text, NAV_MARK, true)
  {
    var n := NavMatch(s).value;
    NavMatchSpec(s);
    InsertShapes();
    TagLiterals();
    SealedByShape(NAV_INSERT, NAV_MARK, true);
    EditRemovesOnly(s, n.start, n.end, NAV_INSERT, NAV_MARK, true, n.mark);
    FindFromNone(NavStep(s).text, NAV_MARK, true, 0);
  }

  /** When the footer step rewrites a page with one landmark, none is left. */
  lemma {:induction false} FooterStepLeavesNoMark(s: seq<char>)
    requires AtMostOne(s, FOOTER_MARK, true) && FooterStep(s).modified
    ensures Absent(FooterStep(s).text, FOOTER_MARK, true)
  {
    var f := FooterMatch(s).value;
    FooterMatchSpec(s);
    InsertShapes();
    TagLiterals();
    SealedByShape(FOOTER_INSERT, FOOTER_MARK, true);
    EditRemovesOnly(s, f.start, f.close, FOOTER_INSERT, FOOTER_MARK, true, f.mark);
    FindFromNone(FooterStep(s).text, FOOTER_MARK, true, 0);
  }

  /** The navigation step keeps the part's closing `>` when its match ends
      before it. */
  lemma {:induction false} NavStepKeepsEnd(q: seq<char>)
    requires |q| > 0 && q[|q| - 1] == '>'
    requires Absent(q, NAV_MARK, true) || (NavMatch(q).Some? && NavMatch(q).value.end < |q|)
    ensures var q1 := NavStep(q).text; |q1| > 0 && q1[|q1| - 1] == '>'
  {
    if NavMatch(q).Some? && NavStep(q).modified {
      var n := NavMatch(q).value;
      NavStepAt(q, n.start, n.mark, n.close, n.end);
      var q1 := q[..n.start] + NAV_INSERT + q[n.end..];
      assert q1[|q1| - 1] == q[n.end..][|q| - 1 - n.end];
    }
  }

  // ---------------------------------------------------------------------------
  // The script

  /** `copyFileSync(file, backup)` succeeds. */
  predicate Copyable(dir: Directory, faults: Faults, f: string) {
    f in dir && f !in faults.copy
  }

  /** A page the script rewrites: a candidate that is read, that some step
      changes, and whose write succeeds. */
  predicate Converted(cwd: Directory, listing: seq<string>, faults: Faults, f: string) {
    && f in listing && IsConvertCandidate(f) && Readable(cwd, faults, f)
    && ConvertDocument(cwd[f]).modified && f !in faults.write
  }

  function ConvertedNames(cwd: Directory, listing: seq<string>, faults: Faults): (r: set<string>) {
    set f | f in listing && Converted(cwd, listing, faults, f)
  }

  /** One page through the three steps as the script runs them: `content`
      is reassigned after each step and each callback that rewrites raises
      the shared `modified` flag. */
  method ConvertPage(page: seq<char>) returns (content: seq<char>, modified: bool)
    ensures Step(content, modified) == ConvertDocument(page)
  {
    content := page;
    modified := false;
    var h := HeadStep(content);
    content := h.text;
    if h.modified { modified := true; }
    var n := NavStep(content);
    content := n.text;
    if n.modified { modified := true; }
    var f := FooterStep(content);
    content := f.text;
    if f.modified { modified := true; }
  }

  /** The backup loop: each candidate in turn is copied into the backup
      directory; the first copy that fails stops the loop (`ok` false). */
  method BackUp(cwd: Directory, files: seq<string>, faults: Faults, oldBackup: Directory)
    returns (backup: Directory, ok: bool)
    ensures ok <==> forall k :: 0 <= k < |files| ==> Copyable(cwd, faults, files[k])
    ensures forall f :: f in backup ==>
      (f in files && f in cwd && backup[f] == cwd[f]) || (f in oldBackup && backup[f] == oldBackup[f])
    ensures ok ==> forall f :: f in backup <==> f in oldBackup || f in files
    ensures ok ==> forall f :: f in files ==> f in cwd && backup[f] == cwd[f]
    ensures ok ==> forall f :: f in backup && f !in files ==> backup[f] == oldBackup[f]
  {
    backup := oldBackup;
    var i := 0;
    while i < |files|
      invariant 0 <= i <= |files|
      invariant forall k :: 0 <= k < i ==> Copyable(cwd, faults, files[k])
      invariant forall f :: f in backup <==> f in oldBackup || f in files[..i]
      invariant forall f :: f in backup && f in files[..i] ==> f in cwd && backup[f] == cwd[f]
      invariant forall f :: f in backup && f !in files[..i] ==> backup[f] == oldBackup[f]
    {
      var file := files[i];
      assert files[..i + 1] == files[..i] + [file];
      if !Copyable(cwd, faults, file) {
        ok := false;
        return;
      }
      backup := backup[file := cwd[file]];
      i := i + 1;
    }
    assert files[..i] == files;
    ok := true;
  }

  /** `out` holds the outcome of the three steps on every page of `cwd`. */
  ghost predicate Outcomes(cwd: Directory, out: map<string, Step>) {
    out.Keys == cwd.Keys && forall f {:trigger Recorded(cwd, out, f)} :: Recorded(cwd, out, f)
  }

  /** The outcome of the three steps on every page of `cwd`. */
  ghost function OutcomeMap(cwd: Directory): (out: map<string, Step>)
    ensures Outcomes(cwd, out)
  {
    map f | f in cwd :: ConvertDocument(cwd[f])
  }

  /** What the conversion loop rewrote is what the script rewrites. */
  lemma {:induction false} RewrittenAreConverted(cwd: Directory, listing: seq<string>, files: seq<string>,
                                                 faults: Faults, out: map<string, Step>, done: set<string>)
    requires forall f :: f in files <==> f in listing && IsConvertCandidate(f)
    requires Outcomes(cwd, out)
    requires forall f :: f in done <==> f in files && f in cwd && f !in faults.read && out[f].modified && f !in faults.write
    ensures done == ConvertedNames(cwd, listing, faults)
    ensures forall f :: f in cwd ==> (f in done <==> Converted(cwd, listing, faults, f))
    ensures forall f :: f in done ==> out[f].text == ConvertDocument(cwd[f]).text
  {
    forall f | f in cwd ensures (f in done <==> Converted(cwd, listing, faults, f)) && (f in done ==> out[f] == ConvertDocument(cwd[f])) {
      assert Recorded(cwd, out, f);
    }
  }

  /** `out` holds the outcome of the three steps on page `f`. */
  ghost predicate Recorded(cwd: Directory, out: map<string, Step>, f: string) {
    f in cwd && f in out ==> out[f] == ConvertDocument(cwd[f])
  }

  /** One iteration of the conversion loop: read the page, run the steps,
      and write the result back when a step raised `modified`. A failed
      read or write leaves the directory as it was. */
  method ConvertFile(cwd: Directory, dir: Directory, faults: Faults, file: string, ghost out: map<string, Step>)
    returns (dir': Directory, counted: bool)
    requires Outcomes(cwd, out)
    requires file in dir ==> file in cwd && dir[file] == cwd[file]
    ensures counted <==> Readable(dir, faults, file) && out[file].modified && file !in faults.write
    ensures dir' == if counted then dir[file := out[file].text] else dir
  {
    dir', counted := dir, false;
    if Readable(dir, faults, file) {
      var content, modified := ConvertPage(dir[file]);
      assert Recorded(cwd, out, file);
      if modified && file !in faults.write {
        dir' := dir[file := content];
        counted := true;
      }
    }
  }

  /** The conversion loop: each page in its own `try`, written back and
      counted only when a step raised `modified`. */
  method ConvertAll(cwd: Directory, files: seq<string>, faults: Faults, ghost out: map<string, Step>)
    returns (dir: Directory, convertedCount: nat, ghost done: set<string>)
    requires Distinct(files) && Outcomes(cwd, out)
    ensures forall f :: f in dir <==> f in cwd
    ensures forall f :: f in done <==> f in files && f in cwd && f !in faults.read && out[f].modified && f !in faults.write
    ensures forall f :: f in done ==> dir[f] == out[f].text
    ensures forall f :: f in dir && f !in done ==> dir[f] == cwd[f]
    ensures convertedCount == |done|
  {
    dir := cwd;
    convertedCount := 0;
    done := {};
    var i := 0;
    while i < |files|
      invariant 0 <= i <= |files|
      invariant forall f :: f in dir <==> f in cwd
      invariant forall f :: f in done <==> f in files[..i] && f in cwd && f !in faults.read && out[f].modified && f !in faults.write
      invariant forall f :: f in done ==> dir[f] == out[f].text
      invariant forall f :: f in dir && f !in done ==> dir[f] == cwd[f]
      invariant convertedCount == |done|
    {
      var file := files[i];
      PrefixStep(files, i);
      var counted;
      dir, counted := ConvertFile(cwd, dir, faults, file, out);
      if counted {
        convertedCount := convertedCount + 1;
        done := done + {file};
      }
      i := i + 1;
    }
    assert files[..i] == files;
  }

  /** The converter script. `oldBackup` is what `html-backup` held before.
      The backup loop runs outside any `try`: the first copy that fails ends
      the script (`crashed`) before any page is converted. Otherwise every
      candidate is in the backup, copied before any page was read for
      conversion, and `convertedCount` is the number of pages rewritten. */
  method ConvertSite(cwd: Directory, listing: seq<string>, faults: Faults, oldBackup: Directory)
    returns (dir: Directory, backup: Directory, convertedCount: nat, crashed: bool)
    requires Distinct(listing)
    ensures crashed <==> exists f :: f in listing && IsConvertCandidate(f) && !Copyable(cwd, faults, f)
    ensures crashed ==> dir == cwd && convertedCount == 0
    ensures forall f :: f in backup ==>
      (f in listing && IsConvertCandidate(f) && f in cwd && backup[f] == cwd[f])
      || (f in oldBackup && backup[f] == oldBackup[f])
    ensures !crashed ==> forall f :: f in backup <==> f in oldBackup || (f in listing && IsConvertCandidate(f))
    ensures !crashed ==> forall f :: f in listing && IsConvertCandidate(f) ==> f in cwd && backup[f] == cwd[f]
    ensures !crashed ==> forall f :: f in backup && !(f in listing && IsConvertCandidate(f)) ==> backup[f] == oldBackup[f]
    ensures forall f :: f in dir <==> f in cwd
    ensures !crashed ==> forall f :: Converted(cwd, listing, faults, f) ==> dir[f] == ConvertDocument(cwd[f]).text
    ensures forall f :: f in cwd && !Converted(cwd, listing, faults, f) ==> dir[f] == cwd[f]
    ensures !crashed ==> convertedCount == |ConvertedNames(cwd, listing, faults)|
  {
    var files := Select(listing, IsConvertCandidate);
    var ok;
    backup, ok := BackUp(cwd, files, faults, oldBackup);
    if !ok {
      ghost var k :| 0 <= k < |files| && !Copyable(cwd, faults, files[k]);
      assert files[k] in files;
      return cwd, backup, 0, true;
    }
    crashed := false;
    ghost var out := OutcomeMap(cwd);
    ghost var done;
    dir, convertedCount, done := ConvertAll(cwd, files, faults, out);
    RewrittenAreConverted(cwd, listing, files, faults, out, done);
  }
}
