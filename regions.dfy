/** The three region rewrites of the migration converter
    (convert-to-templates.js). Each pattern is used without the `g` flag, so
    `replace` rewrites its leftmost match only; the callback keeps the match
    when it already holds the placeholder and otherwise returns the
    placeholder text, raising `modified`. Every pattern carries the `i` flag:
    its literals are written here in lower case and matched with `ci`. */
module Regions {
  import opened Text
  import opened Substitution

  const TITLE_OPEN := "<title>"
  const TITLE_CLOSE := "</title>"
  const HEAD_CLOSE := "</head>"
  const NAV_MARK := "<!-- navigation -->"
  const NAV_CLOSE := "</nav>"
  const FOOTER_MARK := "<!-- footer -->"
  const BODY_CLOSE := "</body>"
  const HTML_CLOSE := "</html>"

  /** The texts the callbacks put in place of a region. */
  const HEAD_INSERT := "\n    <%= head %>\n"
  const NAV_INSERT := "\n    <%= header %>\n\n    "
  const FOOTER_INSERT := "\n    <%= footer %>\n"

  /** No line terminator in `s[from..to]`: what `.*?` may run over. */
  predicate OnLine(s: seq<char>, from: nat, to: nat) {
    from <= to <= |s| && forall x :: from <= x < to ==> !IsLineTerminator(s[x])
  }

  /** Only `\s` characters in `s[from..to]`. */
  predicate AllWs(s: seq<char>, from: nat, to: nat) {
    from <= to <= |s| && forall x :: from <= x < to ==> IsWs(s[x])
  }

  // ---------------------------------------------------------------------------
  // The head pattern: the title element on one line, then anything, lazily,
  // up to `</head>`; three groups, used without `g`

  /** A match of the head pattern: `<title>` at `i`, `</title>` at `j` on the
      same line, and `</head>` at `k` anywhere after it. */
  predicate IsHeadMatch(s: seq<char>, i: nat, j: nat, k: nat) {
    && MatchesAt(s, i, TITLE_OPEN, true)
    && OnLine(s, i + |TITLE_OPEN|, j)
    && MatchesAt(s, j, TITLE_CLOSE, true)
    && j + |TITLE_CLOSE| <= k
    && MatchesAt(s, k, HEAD_CLOSE, true)
  }

  /** The positions of `<title>`, `</title>` and `</head>` in the match. */
  datatype HeadMatch = HeadMatch(start: nat, closeTitle: nat, closeHead: nat)

  /** The match the pattern finds when it is tried at `i`: both lazy
      quantifiers take the shortest run that lets the rest match. */
  function HeadAt(s: seq<char>, i: nat): (r: Option<HeadMatch>)
    ensures r.Some? ==> r.value.start == i && i + |TITLE_OPEN| <= r.value.closeTitle
    ensures r.Some? ==> r.value.closeTitle + |TITLE_CLOSE| <= r.value.closeHead && r.value.closeHead + |HEAD_CLOSE| <= |s|
  {
    if !MatchesAt(s, i, TITLE_OPEN, true) then None
    else
      match FindOnLine(s, TITLE_CLOSE, true, i + |TITLE_OPEN|)
      case None => None
      case Some(j) =>
        match FindFrom(s, HEAD_CLOSE, true, j + |TITLE_CLOSE|)
        case None => None
        case Some(k) => Some(HeadMatch(i, j, k))
  }

  /** `HeadAt` finds the match at `i` whose lazy runs are shortest, or
      reports that no match starts at `i`. */
  lemma {:induction false} HeadAtSpec(s: seq<char>, i: nat)
    ensures var r := HeadAt(s, i); r.Some? ==> IsHeadMatch(s, i, r.value.closeTitle, r.value.closeHead)
    ensures var r := HeadAt(s, i); r.Some? ==>
      forall j: nat, k: nat :: IsHeadMatch(s, i, j, k) ==> r.value.closeTitle <= j && r.value.closeHead <= k
    ensures HeadAt(s, i).None? ==> forall j: nat, k: nat :: !IsHeadMatch(s, i, j, k)
  {
    if MatchesAt(s, i, TITLE_OPEN, true) {
      var fj := FindOnLine(s, TITLE_CLOSE, true, i + |TITLE_OPEN|);
      if fj.Some? {
        FindFromSpec(s, HEAD_CLOSE, true, fj.value + |TITLE_CLOSE|);
      }
    }
  }

  /** The leftmost match at or after `from`. */
  function HeadFrom(s: seq<char>, from: nat): (r: Option<HeadMatch>)
    decreases |s| + 1 - from
    ensures r.Some? ==> from <= r.value.start && r.value.start + |TITLE_OPEN| <= r.value.closeTitle
    ensures r.Some? ==> r.value.closeTitle + |TITLE_CLOSE| <= r.value.closeHead && r.value.closeHead + |HEAD_CLOSE| <= |s|
  {
    if from > |s| then None
    else
      match HeadAt(s, from)
      case Some(m) => Some(m)
      case None => HeadFrom(s, from + 1)
  }

  /** `HeadFrom` finds the leftmost match at or after `from`, and at its
      start the one with the shortest lazy runs; with no result there is no
      match at or after `from`. */
  lemma {:induction false} HeadFromSpec(s: seq<char>, from: nat)
    ensures var r := HeadFrom(s, from); r.Some? ==> IsHeadMatch(s, r.value.start, r.value.closeTitle, r.value.closeHead)
    ensures var r := HeadFrom(s, from); r.Some? ==>
      forall i: nat, j: nat, k: nat :: from <= i < r.value.start ==> !IsHeadMatch(s, i, j, k)
    ensures var r := HeadFrom(s, from); r.Some? ==> forall j: nat, k: nat :: IsHeadMatch(s, r.value.start, j, k) ==>
      r.value.closeTitle <= j && r.value.closeHead <= k
    ensures HeadFrom(s, from).None? ==> forall i: nat, j: nat, k: nat :: from <= i ==> !IsHeadMatch(s, i, j, k)
  {
    HeadFromFound(s, from);
    HeadFromNoneBefore(s, from);
    var r := HeadFrom(s, from);
    if r.Some? {
      HeadAtSpec(s, r.value.start);
    }
    forall i: nat, j: nat, k: nat | from <= i && (r.None? || i < r.value.start)
      ensures !IsHeadMatch(s, i, j, k)
    {
      if i <= |s| {
        HeadAtSpec(s, i);
      }
    }
  }

  /** What `HeadFrom` finds is the match tried at its start. */
  lemma {:induction false} HeadFromFound(s: seq<char>, from: nat)
    ensures HeadFrom(s, from).Some? ==> HeadAt(s, HeadFrom(s, from).value.start) == HeadFrom(s, from)
    decreases |s| + 1 - from
  {
    if from <= |s| && HeadAt(s, from).None? {
      HeadFromFound(s, from + 1);
    }
  }

  /** No match is tried successfully between `from` and what `HeadFrom`
      finds, or up to the end when it finds nothing. */
  lemma {:induction false} HeadFromNoneBefore(s: seq<char>, from: nat)
    ensures var r := HeadFrom(s, from);
      forall i: nat :: from <= i <= |s| && (r.None? || i < r.value.start) ==> HeadAt(s, i).None?
    decreases |s| + 1 - from
  {
    if from <= |s| && HeadAt(s, from).None? {
      HeadFromNoneBefore(s, from + 1);
    }
  }

  /** The match `headPattern` finds in the document. */
  function HeadMatchOf(s: seq<char>): (r: Option<HeadMatch>) {
    HeadFrom(s, 0)
  }

  /** `HeadMatchOf` finds the leftmost match, and at its start the one with
      the shortest lazy runs; with no result the pattern does not match. */
  lemma {:induction false} HeadMatchSpec(s: seq<char>)
    ensures var r := HeadMatchOf(s); r.Some? ==> IsHeadMatch(s, r.value.start, r.value.closeTitle, r.value.closeHead)
    ensures var r := HeadMatchOf(s); r.Some? ==>
      forall i: nat, j: nat, k: nat :: i < r.value.start ==> !IsHeadMatch(s, i, j, k)
    ensures var r := HeadMatchOf(s); r.Some? ==> forall j: nat, k: nat :: IsHeadMatch(s, r.value.start, j, k) ==>
      r.value.closeTitle <= j && r.value.closeHead <= k
    ensures HeadMatchOf(s).None? ==> forall i: nat, j: nat, k: nat :: !IsHeadMatch(s, i, j, k)
  {
    HeadFromSpec(s, 0);
  }

  // ---------------------------------------------------------------------------
  // The navigation pattern: optional whitespace, the navigation comment,
  // anything up to the first `</nav>`, optional whitespace

  /** A match begins at `p`, has its landmark at `l` after whitespace only,
      and reaches `</nav>` at `e`. */
  predicate IsNavMatch(s: seq<char>, p: nat, l: nat, e: nat) {
    && AllWs(s, p, l)
    && MatchesAt(s, l, NAV_MARK, true)
    && l + |NAV_MARK| <= e
    && MatchesAt(s, e, NAV_CLOSE, true)
  }

  /** A matched span: where it starts, its landmark, its closing tag and
      where it ends. */
  datatype Span = Span(start: nat, mark: nat, close: nat, end: nat)

  /** The leftmost match: the whitespace run before the first landmark, up
      to the first `</nav>` after it, and the whitespace after that. */
  function NavMatch(s: seq<char>): (r: Option<Span>)
    ensures r.Some? ==> r.value.start <= r.value.mark && r.value.mark + |NAV_MARK| <= r.value.close
    ensures r.Some? ==> r.value.close + |NAV_CLOSE| <= r.value.end <= |s|
  {
    match FindFrom(s, NAV_MARK, true, 0)
    case None => None
    case Some(l) =>
      match FindFrom(s, NAV_CLOSE, true, l + |NAV_MARK|)
      case None => None
      case Some(e) => Some(Span(WsStart(s, l), l, e, WsEnd(s, e + |NAV_CLOSE|)))
  }

  /** `NavMatch` finds a match of the navigation pattern; no match starts
      before it, the landmark and `</nav>` are the first possible, and a
      match starting inside its leading whitespace uses the same landmark;
      the greedy trailing whitespace takes the whole run after `</nav>`;
      with no result there is no match at all. */
  lemma {:induction false} NavMatchSpec(s: seq<char>)
    ensures var r := NavMatch(s); r.Some? ==> IsNavMatch(s, r.value.start, r.value.mark, r.value.close)
    ensures var r := NavMatch(s); r.Some? ==> forall p: nat, l: nat, e: nat :: IsNavMatch(s, p, l, e) ==>
      r.value.start <= p && r.value.mark <= l && r.value.close <= e && (p <= r.value.mark ==> l == r.value.mark)
    ensures var r := NavMatch(s); r.Some? ==>
      && r.value.end == WsEnd(s, r.value.close + |NAV_CLOSE|)
      && AllWs(s, r.value.close + |NAV_CLOSE|, r.value.end)
      && (r.value.end < |s| ==> !IsWs(s[r.value.end]))
    ensures NavMatch(s).None? ==> forall p: nat, l: nat, e: nat :: !IsNavMatch(s, p, l, e)
  {
    NavMatchLeftmost(s);
    NavMatchEnd(s);
  }

  /** The start, landmark and closing tag of `NavMatch`'s result. */
  lemma {:induction false} NavMatchLeftmost(s: seq<char>)
    ensures var r := NavMatch(s); r.Some? ==> IsNavMatch(s, r.value.start, r.value.mark, r.value.close)
    ensures var r := NavMatch(s); r.Some? ==> forall p: nat, l: nat, e: nat :: IsNavMatch(s, p, l, e) ==>
      r.value.start <= p && r.value.mark <= l && r.value.close <= e && (p <= r.value.mark ==> l == r.value.mark)
    ensures NavMatch(s).None? ==> forall p: nat, l: nat, e: nat :: !IsNavMatch(s, p, l, e)
  {
    var fl := FindFrom(s, NAV_MARK, true, 0);
    FindFromSpec(s, NAV_MARK, true, 0);
    if fl.Some? {
      LeadingMarkForced(s, fl.value, NAV_MARK);
      WsStartSpec(s, fl.value);
      FindFromSpec(s, NAV_CLOSE, true, fl.value + |NAV_MARK|);
    }
  }

  /** The end of `NavMatch`'s result: the whole whitespace run after
      `</nav>`. */
  lemma {:induction false} NavMatchEnd(s: seq<char>)
    ensures var r := NavMatch(s); r.Some? ==>
      && r.value.end == WsEnd(s, r.value.close + |NAV_CLOSE|)
      && AllWs(s, r.value.close + |NAV_CLOSE|, r.value.end)
      && (r.value.end < |s| ==> !IsWs(s[r.value.end]))
  {
    var r := NavMatch(s);
    if r.Some? {
      WsEndSpec(s, r.value.close + |NAV_CLOSE|);
    }
  }

  /** A whitespace run before a landmark can only lead to the first landmark
      when it starts at or before it, and starts no earlier than `WsStart`. */
  lemma {:induction false} LeadingMarkForced(s: seq<char>, first: nat, mark: seq<char>)
    requires |mark| > 0 && mark[0] == '<'
    requires first <= |s| && MatchesAt(s, first, mark, true)
    requires forall q: nat :: q < first ==> !MatchesAt(s, q, mark, true)
    ensures forall p: nat, l: nat :: AllWs(s, p, l) && MatchesAt(s, l, mark, true) ==>
      WsStart(s, first) <= p && first <= l && (p <= first ==> l == first)
  {
    WsStartSpec(s, first);
    forall p: nat, l: nat | AllWs(s, p, l) && MatchesAt(s, l, mark, true)
      ensures WsStart(s, first) <= p && first <= l && (p <= first ==> l == first)
    {
      if p <= first < l {
        OpensAt(s, first, mark);
      }
    }
  }

  // ---------------------------------------------------------------------------
  // The footer pattern: optional whitespace, the footer comment, anything up
  // to the first `</body>` that whitespace and `</html>` follow (group 1)

  /** `</body>`, whitespace, `</html>` at `b`. */
  predicate ClosingAt(s: seq<char>, b: nat) {
    MatchesAt(s, b, BODY_CLOSE, true) && MatchesAt(s, WsEnd(s, b + |BODY_CLOSE|), HTML_CLOSE, true)
  }

  /** Closing tags found at `at`, ending (after `</html>`) at `end`. */
  datatype Closing = Closing(at: nat, end: nat)

  /** The first closing tags at or after `from`. */
  function FindClosing(s: seq<char>, from: nat): (r: Option<Closing>)
    decreases |s| - from
    ensures r.Some? ==> from <= r.value.at && r.value.at + |BODY_CLOSE| <= r.value.end <= |s|
  {
    if from + |BODY_CLOSE| > |s| then None
    else if ClosingAt(s, from) then Some(Closing(from, WsEnd(s, from + |BODY_CLOSE|) + |HTML_CLOSE|))
    else FindClosing(s, from + 1)
  }

  /** What `FindClosing` finds are closing tags, and the end it reports is
      after the whitespace and `</html>` that follow `</body>`. */
  lemma {:induction false} FindClosingEnd(s: seq<char>, from: nat)
    ensures FindClosing(s, from).Some? ==> ClosingAt(s, FindClosing(s, from).value.at)
    ensures FindClosing(s, from).Some? ==> FindClosing(s, from).value.end == WsEnd(s, FindClosing(s, from).value.at + |BODY_CLOSE|) + |HTML_CLOSE|
    decreases |s| - from
  {
    if from + |BODY_CLOSE| <= |s| && !ClosingAt(s, from) {
      FindClosingEnd(s, from + 1);
    }
  }

  /** `FindClosing` finds closing tags (`</body>`, whitespace, `</html>`),
      reports their end after `</html>`, and no closing tags lie before
      them; with no result there are none at or after `from`. */
  lemma {:induction false} FindClosingSpec(s: seq<char>, from: nat)
    ensures FindClosing(s, from).Some? ==> ClosingAt(s, FindClosing(s, from).value.at)
    ensures FindClosing(s, from).Some? ==> FindClosing(s, from).value.end == WsEnd(s, FindClosing(s, from).value.at + |BODY_CLOSE|) + |HTML_CLOSE|
    ensures FindClosing(s, from).Some? ==> forall c: nat :: from <= c < FindClosing(s, from).value.at ==> !ClosingAt(s, c)
    ensures FindClosing(s, from).None? ==> forall c: nat :: from <= c ==> !ClosingAt(s, c)
  {
    FindClosingEnd(s, from);
    FindClosingFirst(s, from);
  }

  /** No closing tags lie before the ones `FindClosing` finds, and none at
      all when it finds nothing. */
  lemma {:induction false} FindClosingFirst(s: seq<char>, from: nat)
    ensures FindClosing(s, from).Some? ==> forall c: nat :: from <= c < FindClosing(s, from).value.at ==> !ClosingAt(s, c)
    ensures FindClosing(s, from).None? ==> forall c: nat :: from <= c ==> !ClosingAt(s, c)
    decreases |s| - from
  {
    if from + |BODY_CLOSE| <= |s| && !ClosingAt(s, from) {
      FindClosingFirst(s, from + 1);
    }
  }

  /** A match begins at `p`, has its landmark at `f` after whitespace only,
      and reaches the closing tags at `b`. */
  predicate IsFooterMatch(s: seq<char>, p: nat, f: nat, b: nat) {
    && AllWs(s, p, f)
    && MatchesAt(s, f, FOOTER_MARK, true)
    && f + |FOOTER_MARK| <= b
    && ClosingAt(s, b)
  }

  /** The leftmost match: the whitespace run before the first landmark, up
      to and including the first `</body>ws</html>` after it. */
  function FooterMatch(s: seq<char>): (r: Option<Span>)
    ensures r.Some? ==> r.value.start <= r.value.mark && r.value.mark + |FOOTER_MARK| <= r.value.close
    ensures r.Some? ==> r.value.close + |BODY_CLOSE| <= r.value.end <= |s|
  {
    match FindFrom(s, FOOTER_MARK, true, 0)
    case None => None
    case Some(f) =>
      match FindClosing(s, f + |FOOTER_MARK|)
      case None => None
      case Some(c) => Some(Span(WsStart(s, f), f, c.at, c.end))
  }

  /** `FooterMatch` finds a match of the footer pattern, ending after
      `</html>`; no match starts before it, the landmark and the closing tags
      are the first possible, and a match starting inside its leading
      whitespace uses the same landmark; with no result there is no match at
      all. */
  lemma {:induction false} FooterMatchSpec(s: seq<char>)
    ensures var r := FooterMatch(s); r.Some? ==> IsFooterMatch(s, r.value.start, r.value.mark, r.value.close)
    ensures var r := FooterMatch(s); r.Some? ==> r.value.end == WsEnd(s, r.value.close + |BODY_CLOSE|) + |HTML_CLOSE|
    ensures var r := FooterMatch(s); r.Some? ==> forall p: nat, f: nat, b: nat :: IsFooterMatch(s, p, f, b) ==>
      r.value.start <= p && r.value.mark <= f && r.value.close <= b && (p <= r.value.mark ==> f == r.value.mark)
    ensures FooterMatch(s).None? ==> forall p: nat, f: nat, b: nat :: !IsFooterMatch(s, p, f, b)
  {
    var ff := FindFrom(s, FOOTER_MARK, true, 0);
    FindFromSpec(s, FOOTER_MARK, true, 0);
    if ff.Some? {
      LeadingMarkForced(s, ff.value, FOOTER_MARK);
      WsStartSpec(s, ff.value);
      FindClosingEnd(s, ff.value + |FOOTER_MARK|);
      FindClosingFirst(s, ff.value + |FOOTER_MARK|);
    }
  }

  // ---------------------------------------------------------------------------
  // The three steps

  /** A step's result: the new text and whether the callback raised
      `modified`. */
  datatype Step = Step(text: seq<char>, modified: bool)

  /** The guarded replacement each step's callback performs: unless the
      matched text from `i` to `k` already holds `tok`, the part from `i` to
      `j` is replaced by `ins` and `modified` is raised. */
  function GuardedEdit(s: seq<char>, i: nat, j: nat, k: nat, ins: seq<char>, tok: seq<char>): (r: Step)
    requires i <= j <= k <= |s| && HoldsToken(ins, tok)
    ensures r.modified <==> r.text != s
  {
    if Contains(s[i..k], tok) then Step(s, false)
    else
      InsertChanges(s, i, j, ins, k, tok);
      Step(s[..i] + ins + s[j..], true)
  }

  /** Step 1: the text between `</title>` and `</head>` becomes the head
      placeholder on a line of its own, unless it already holds one. The
      title element and `</head>` are kept as they were written. */
  function HeadStep(s: seq<char>): (r: Step)
    ensures r.modified <==> r.text != s
  {
    match HeadMatchOf(s)
    case None => Step(s, false)
    case Some(m) =>
      InsertsCarryTokens();
      var te := m.closeTitle + |TITLE_CLOSE|;
      GuardedEdit(s, te, m.closeHead, m.closeHead, HEAD_INSERT, HEAD_TOKEN)
  }

  /** Step 2: the whole matched span becomes the header placeholder, unless
      it already holds one. */
  function NavStep(s: seq<char>): (r: Step)
    ensures r.modified <==> r.text != s
  {
    match NavMatch(s)
    case None => Step(s, false)
    case Some(n) =>
      InsertsCarryTokens();
      GuardedEdit(s, n.start, n.end, n.end, NAV_INSERT, HEADER_TOKEN)
  }

  /** Step 3: the span up to the closing tags becomes the footer placeholder,
      unless the match already holds one; the closing tags are kept as they
      were written. */
  function FooterStep(s: seq<char>): (r: Step)
    ensures r.modified <==> r.text != s
  {
    match FooterMatch(s)
    case None => Step(s, false)
    case Some(f) =>
      InsertsCarryTokens();
      GuardedEdit(s, f.start, f.close, f.end, FOOTER_INSERT, FOOTER_TOKEN)
  }

  /** A step whose pattern matches nowhere passes the page on unchanged
      and does not raise `modified`. */
  lemma {:induction false} HeadStepPassThrough(s: seq<char>)
    requires forall i: nat, j: nat, k: nat :: !IsHeadMatch(s, i, j, k)
    ensures HeadStep(s) == Step(s, false)
  {
    HeadMatchSpec(s);
  }

  lemma {:induction false} NavStepPassThrough(s: seq<char>)
    requires forall p: nat, l: nat, e: nat :: !IsNavMatch(s, p, l, e)
    ensures NavStep(s) == Step(s, false)
  {
    NavMatchLeftmost(s);
  }

  lemma {:induction false} FooterStepPassThrough(s: seq<char>)
    requires forall p: nat, f: nat, b: nat :: !IsFooterMatch(s, p, f, b)
    ensures FooterStep(s) == Step(s, false)
  {
    FooterMatchSpec(s);
  }

  /** `ins` holds the placeholder `tok` five characters in, after its
      leading newline and indentation. */
  predicate HoldsToken(ins: seq<char>, tok: seq<char>) {
    5 + |tok| <= |ins| && ins[5..5 + |tok|] == tok
  }

  /** Each inserted text holds its placeholder. */
  lemma {:induction false} InsertsCarryTokens()
    ensures HoldsToken(HEAD_INSERT, HEAD_TOKEN)
    ensures HoldsToken(NAV_INSERT, HEADER_TOKEN)
    ensures HoldsToken(FOOTER_INSERT, FOOTER_TOKEN)
  {
    HeadInsertCarriesToken();
    NavInsertCarriesToken();
    FooterInsertCarriesToken();
  }

  lemma {:induction false} HeadInsertCarriesToken()
    ensures HoldsToken(HEAD_INSERT, HEAD_TOKEN)
  {
    assert HEAD_INSERT[5..16] == HEAD_TOKEN;
  }

  lemma {:induction false} NavInsertCarriesToken()
    ensures HoldsToken(NAV_INSERT, HEADER_TOKEN)
  {
    assert NAV_INSERT[5..18] == HEADER_TOKEN;
  }

  lemma {:induction false} FooterInsertCarriesToken()
    ensures HoldsToken(FOOTER_INSERT, FOOTER_TOKEN)
  {
    assert FOOTER_INSERT[5..18] == FOOTER_TOKEN;
  }

  /** A text holding a placeholder contains it. */
  lemma {:induction false} HoldsContains(ins: seq<char>, tok: seq<char>)
    requires HoldsToken(ins, tok)
    ensures Contains(ins, tok)
  {
    ContainsAt(ins, 5, tok);
  }

  /** Replacing `s[a..b]` by a text holding `tok` changes a document whose
      `s[a..c]` does not hold it. */
  lemma {:induction false} InsertChanges(s: seq<char>, a: nat, b: nat, ins: seq<char>, c: nat, tok: seq<char>)
    requires a <= b <= c <= |s| && HoldsToken(ins, tok) && !Contains(s[a..c], tok)
    ensures s[..a] + ins + s[b..] != s
  {
    var t := s[..a] + ins + s[b..];
    if t == s {
      assert |ins| == b - a && t[a..b] == ins;
      assert s[a..c][5..5 + |tok|] == s[a + 5..a + 5 + |tok|] == s[a..b][5..5 + |tok|];
      ContainsAt(s[a..c], 5, tok);
    }
  }

  // ---------------------------------------------------------------------------
  // No pattern literal can overlap an inserted text

  /** A pattern literal that starts with `<`, has no `%` second and no
      newline. */
  predicate IsTagLiteral(lit: seq<char>) {
    |lit| >= 2 && lit[0] == '<' && lit[1] != '%' && '\n' !in lit
  }

  /** An inserted text: a newline first, and a single `<`, five characters
      in, followed by `%`. */
  predicate IsInsertShape(ins: seq<char>) {
    |ins| > 6 && ins[0] == '\n' && ins[5] == '<' && ins[6] == '%'
    && forall o :: 0 <= o < |ins| && o != 5 ==> ins[o] != '<'
  }

  lemma {:induction false} SealedByShape(ins: seq<char>, lit: seq<char>, ci: bool)
    requires IsInsertShape(ins) && IsTagLiteral(lit)
    ensures Sealed(ins, lit, ci)
  {
    forall x | 0 <= x < |lit| ensures lit[x] != '\n' {
      assert lit[x] in lit;
    }
  }

  lemma {:induction false} InsertShapes()
    ensures IsInsertShape(HEAD_INSERT) && IsInsertShape(NAV_INSERT) && IsInsertShape(FOOTER_INSERT)
  {
  }

  lemma {:induction false} TagLiterals()
    ensures IsTagLiteral(TITLE_OPEN) && IsTagLiteral(TITLE_CLOSE) && IsTagLiteral(HEAD_CLOSE)
    ensures IsTagLiteral(NAV_MARK) && IsTagLiteral(NAV_CLOSE) && IsTagLiteral(FOOTER_MARK)
    ensures IsTagLiteral(BODY_CLOSE) && IsTagLiteral(HTML_CLOSE)
  {
  }

  // ---------------------------------------------------------------------------
  // Running a step again

  /** `lit` occurs at most once in `s`. */
  ghost predicate AtMostOne(s: seq<char>, lit: seq<char>, ci: bool) {
    forall q1: nat, q2: nat :: MatchesAt(s, q1, lit, ci) && MatchesAt(s, q2, lit, ci) ==> q1 == q2
  }

  /** Replacing a span that holds the only occurrence of `lit` by a sealed
      text leaves no occurrence. */
  lemma {:induction false} EditRemovesOnly(s: seq<char>, a: nat, b: nat, ins: seq<char>, lit: seq<char>, ci: bool, m: nat)
    requires a <= m < b <= |s| && MatchesAt(s, m, lit, ci) && AtMostOne(s, lit, ci)
    requires Sealed(ins, lit, ci)
    ensures forall q: nat :: !MatchesAt(s[..a] + ins + s[b..], q, lit, ci)
  {
    forall q: nat ensures !MatchesAt(s[..a] + ins + s[b..], q, lit, ci) {
      EditMatchesAt(s, a, b, ins, lit, ci, q);
    }
  }

  /** The head step's own output is left alone: its match is found again,
      now around the inserted placeholder. */
  lemma {:induction false} HeadStepIdempotent(s: seq<char>)
    ensures HeadStep(HeadStep(s).text) == Step(HeadStep(s).text, false)
  {
    var r := HeadStep(s);
    if r.modified {
      var m := HeadMatchOf(s).value;
      var te := m.closeTitle + |TITLE_CLOSE|;
      var k := te + |HEAD_INSERT|;
      HeadStepAt(s, m, te, m.closeHead);
      var t := s[..te] + HEAD_INSERT + s[m.closeHead..];
      HeadMatchAfterEdit(s, m, te, k);
      HeadStepAt(t, HeadMatch(m.start, m.closeTitle, k), te, k);
      assert t[te..k] == HEAD_INSERT;
      HoldsContains(HEAD_INSERT, HEAD_TOKEN);
    }
  }

  /** After the head step the head pattern matches the same title, and its
      `</head>` directly after the inserted text. */
  lemma {:induction false} HeadMatchAfterEdit(s: seq<char>, m: HeadMatch, te: nat, k: nat)
    requires HeadMatchOf(s) == Some(m) && te == m.closeTitle + |TITLE_CLOSE| && k == te + |HEAD_INSERT|
    ensures HeadMatchOf(s[..te] + HEAD_INSERT + s[m.closeHead..]) == Some(HeadMatch(m.start, m.closeTitle, k))
  {
    var t := s[..te] + HEAD_INSERT + s[m.closeHead..];
    HeadMatchSpec(s);
    HeadMatchKept(s, m, te, k);
    HeadMatchSpec(t);
    var m' := HeadMatchOf(t).value;
    HeadMatchReturns(s, m, te, k, m'.start, m'.closeTitle, m'.closeHead);
  }

  lemma {:induction false} HeadInsertSealed()
    ensures Sealed(HEAD_INSERT, TITLE_OPEN, true) && Sealed(HEAD_INSERT, TITLE_CLOSE, true)
    ensures Sealed(HEAD_INSERT, HEAD_CLOSE, true)
  {
    InsertShapes();
    TagLiterals();
    SealedByShape(HEAD_INSERT, TITLE_OPEN, true);
    SealedByShape(HEAD_INSERT, TITLE_CLOSE, true);
    SealedByShape(HEAD_INSERT, HEAD_CLOSE, true);
  }

  /** The match of `s` is still a match after the head step. */
  lemma {:induction false} HeadMatchKept(s: seq<char>, m: HeadMatch, te: nat, k: nat)
    requires IsHeadMatch(s, m.start, m.closeTitle, m.closeHead)
    requires te == m.closeTitle + |TITLE_CLOSE| && k == te + |HEAD_INSERT|
    ensures IsHeadMatch(s[..te] + HEAD_INSERT + s[m.closeHead..], m.start, m.closeTitle, k)
  {
    HeadInsertSealed();
    EditMatchesAt(s, te, m.closeHead, HEAD_INSERT, TITLE_OPEN, true, m.start);
    EditMatchesAt(s, te, m.closeHead, HEAD_INSERT, TITLE_CLOSE, true, m.closeTitle);
    EditMatchesAfter(s, te, m.closeHead, HEAD_INSERT, HEAD_CLOSE, true, k, m.closeHead);
  }

  /** The leftmost match after the head step is the old one, with
      `</head>` after the inserted text. */
  lemma {:induction false} HeadMatchReturns(s: seq<char>, m: HeadMatch, te: nat, k': nat, i: nat, j: nat, k: nat)
    requires HeadMatchOf(s) == Some(m) && te == m.closeTitle + |TITLE_CLOSE| && k' == te + |HEAD_INSERT|
    requires HeadMatchOf(s[..te] + HEAD_INSERT + s[m.closeHead..]) == Some(HeadMatch(i, j, k))
    ensures i == m.start && j == m.closeTitle && k == k'
  {
    HeadMatchSpec(s);
    HeadMatchSpec(s[..te] + HEAD_INSERT + s[m.closeHead..]);
    HeadMatchKept(s, m, te, k');
    HeadMatchPullBack(s, m, te, k', i, j, k);
  }

  /** A match after the head step that starts no later than the old one
      lies, up to its `</head>`, in the unchanged prefix, and its `</head>`
      is not before the inserted text's end if it closes the same title. */
  lemma {:induction false} HeadMatchPullBack(s: seq<char>, m: HeadMatch, te: nat, k': nat, i: nat, j: nat, k: nat)
    requires IsHeadMatch(s, m.start, m.closeTitle, m.closeHead) && i <= m.start
    requires te == m.closeTitle + |TITLE_CLOSE| && k' == te + |HEAD_INSERT|
    requires IsHeadMatch(s[..te] + HEAD_INSERT + s[m.closeHead..], i, j, k)
    ensures IsHeadMatch(s, i, j, m.closeHead)
    ensures j == m.closeTitle ==> k >= k'
  {
    HeadInsertSealed();
    EditMatchesAt(s, te, m.closeHead, HEAD_INSERT, TITLE_OPEN, true, i);
    TitleCloseBeforeEdit(s, m, te, i, j);
    EditMatchesAt(s, te, m.closeHead, HEAD_INSERT, TITLE_CLOSE, true, j);
    EditMatchesAt(s, te, m.closeHead, HEAD_INSERT, HEAD_CLOSE, true, k);
  }

  /** The newline the head step inserts ends the title's line. */
  lemma {:induction false} TitleCloseBeforeEdit(s: seq<char>, m: HeadMatch, te: nat, i: nat, j: nat)
    requires te == m.closeTitle + |TITLE_CLOSE| <= m.closeHead <= |s|
    requires var t := s[..te] + HEAD_INSERT + s[m.closeHead..];
      i + |TITLE_OPEN| <= te && OnLine(t, i + |TITLE_OPEN|, j) && MatchesAt(t, j, TITLE_CLOSE, true)
    ensures j + |TITLE_CLOSE| <= te && OnLine(s, i + |TITLE_OPEN|, j)
  {
    var t := s[..te] + HEAD_INSERT + s[m.closeHead..];
    HeadInsertSealed();
    EditMatchesAt(s, te, m.closeHead, HEAD_INSERT, TITLE_CLOSE, true, j);
    assert t[te] == '\n';
    assert forall x :: 0 <= x < te ==> t[x] == s[x];
  }

  /** The navigation step's own output is left alone when the document has
      at most one navigation landmark: the step removed it. */
  lemma {:induction false} NavStepIdempotent(s: seq<char>)
    requires AtMostOne(s, NAV_MARK, true)
    ensures NavStep(NavStep(s).text) == Step(NavStep(s).text, false)
  {
    var r := NavStep(s);
    if r.modified {
      var n := NavMatch(s).value;
      NavMatchSpec(s);
      InsertShapes();
      TagLiterals();
      SealedByShape(NAV_INSERT, NAV_MARK, true);
      EditRemovesOnly(s, n.start, n.end, NAV_INSERT, NAV_MARK, true, n.mark);
      FindFromNone(r.text, NAV_MARK, true, 0);
    }
  }

  /** The footer step's own output is left alone when the document has at
      most one footer landmark: the step removed it. */
  lemma {:induction false} FooterStepIdempotent(s: seq<char>)
    requires AtMostOne(s, FOOTER_MARK, true)
    ensures FooterStep(FooterStep(s).text) == Step(FooterStep(s).text, false)
  {
    var r := FooterStep(s);
    if r.modified {
      var f := FooterMatch(s).value;
      FooterMatchSpec(s);
      InsertShapes();
      TagLiterals();
      SealedByShape(FOOTER_INSERT, FOOTER_MARK, true);
      EditRemovesOnly(s, f.start, f.close, FOOTER_INSERT, FOOTER_MARK, true, f.mark);
      FindFromNone(r.text, FOOTER_MARK, true, 0);
    }
  }

  // ---------------------------------------------------------------------------
  // Steps on a document made of parts

  lemma {:induction false} MarksClosedBy()
    ensures ClosedBy(NAV_MARK) && ClosedBy(FOOTER_MARK)
  {
  }

  /** The head pattern's result is the match that is leftmost and, at its
      start, shortest. */
  lemma {:induction false} HeadMatchOfIs(s: seq<char>, m: HeadMatch)
    requires IsHeadMatch(s, m.start, m.closeTitle, m.closeHead)
    requires forall i: nat, j: nat, k: nat :: i < m.start ==> !IsHeadMatch(s, i, j, k)
    requires forall j: nat, k: nat :: IsHeadMatch(s, m.start, j, k) ==> m.closeTitle <= j && m.closeHead <= k
    ensures HeadMatchOf(s) == Some(m)
  {
    HeadMatchSpec(s);
  }

  /** A document part ending in `</head>`, found by the head pattern, keeps
      its match whatever follows it. */
  lemma {:induction false} HeadMatchSuffix(p: seq<char>, x: seq<char>)
    requires HeadMatchOf(p).Some? && HeadMatchOf(p).value.closeHead + |HEAD_CLOSE| == |p|
    ensures HeadMatchOf(p + x) == HeadMatchOf(p)
  {
    var m := HeadMatchOf(p).value;
    HeadMatchSpec(p);
    HeadMatchExtends(p, x, m.start, m.closeTitle, m.closeHead);
    forall i: nat, j: nat, k: nat | i < m.start
      ensures !IsHeadMatch(p + x, i, j, k)
    {
      if IsHeadMatch(p + x, i, j, k) {
        HeadMatchInPart(p, x, m, i, j, k);
      }
    }
    forall j: nat, k: nat | IsHeadMatch(p + x, m.start, j, k)
      ensures m.closeTitle <= j && m.closeHead <= k
    {
      HeadMatchInPart(p, x, m, m.start, j, k);
    }
    HeadMatchOfIs(p + x, m);
  }

  /** A match in `p + x` starting no later than `p`'s match has a
      counterpart in `p`, with the title closed no later. */
  lemma {:induction false} HeadMatchInPart(p: seq<char>, x: seq<char>, m: HeadMatch, i: nat, j: nat, k: nat)
    requires IsHeadMatch(p, m.start, m.closeTitle, m.closeHead) && m.closeHead + |HEAD_CLOSE| == |p|
    requires IsHeadMatch(p + x, i, j, k) && i <= m.start
    ensures IsHeadMatch(p, i, if j <= m.closeTitle then j else m.closeTitle, m.closeHead)
    ensures k + |HEAD_CLOSE| <= |p| ==> IsHeadMatch(p, i, j, k)
  {
    var t := p + x;
    HeadMatchExtends(p, x, m.start, m.closeTitle, m.closeHead);
    if j <= m.closeTitle {
      HeadMatchRestricts(p, x, i, j, m.closeHead);
    } else {
      assert OnLine(t, i + |TITLE_OPEN|, m.closeTitle);
      HeadMatchRestricts(p, x, i, m.closeTitle, m.closeHead);
    }
    if k + |HEAD_CLOSE| <= |p| {
      HeadMatchRestricts(p, x, i, j, k);
    }
  }

  /** A match inside `p` is a match in `p + x`. */
  lemma {:induction false} HeadMatchExtends(p: seq<char>, x: seq<char>, i: nat, j: nat, k: nat)
    requires IsHeadMatch(p, i, j, k)
    ensures IsHeadMatch(p + x, i, j, k)
  {
    var t := p + x;
    assert t[..|p|] == p;
    MatchesAtPrefix(t, |p|, i, TITLE_OPEN, true);
    MatchesAtPrefix(t, |p|, j, TITLE_CLOSE, true);
    MatchesAtPrefix(t, |p|, k, HEAD_CLOSE, true);
  }

  /** A match in `p + x` that ends inside `p` is a match in `p`. */
  lemma {:induction false} HeadMatchRestricts(p: seq<char>, x: seq<char>, i: nat, j: nat, k: nat)
    requires IsHeadMatch(p + x, i, j, k) && k + |HEAD_CLOSE| <= |p|
    ensures IsHeadMatch(p, i, j, k)
  {
    var t := p + x;
    assert t[..|p|] == p;
    MatchesAtPrefix(t, |p|, i, TITLE_OPEN, true);
    MatchesAtPrefix(t, |p|, j, TITLE_CLOSE, true);
    MatchesAtPrefix(t, |p|, k, HEAD_CLOSE, true);
  }

  /** The head step on such a part followed by anything acts on the part. */
  lemma {:induction false} HeadStepSuffix(p: seq<char>, x: seq<char>)
    requires HeadMatchOf(p).Some? && HeadMatchOf(p).value.closeHead + |HEAD_CLOSE| == |p|
    ensures HeadStep(p + x) == Step(HeadStep(p).text + x, HeadStep(p).modified)
  {
    HeadMatchSuffix(p, x);
    var m := HeadMatchOf(p).value;
    var te := m.closeTitle + |TITLE_CLOSE|;
    HeadStepAt(p, m, te, m.closeHead);
    HeadStepAt(p + x, m, te, m.closeHead);
    GuardedEditSuffix(p, x, te, m.closeHead, m.closeHead, HEAD_INSERT, HEAD_TOKEN);
  }

  /** The head step once the head match is known. */
  lemma {:induction false} HeadStepAt(s: seq<char>, m: HeadMatch, te: nat, k: nat)
    requires HeadMatchOf(s) == Some(m) && te == m.closeTitle + |TITLE_CLOSE| && k == m.closeHead
    ensures te <= k <= |s| && HoldsToken(HEAD_INSERT, HEAD_TOKEN)
    ensures HeadStep(s) == GuardedEdit(s, te, k, k, HEAD_INSERT, HEAD_TOKEN)
  {
    InsertsCarryTokens();
  }

  /** After the head step the part still ends with its head match's
      `</head>`, and with `>`. */
  lemma {:induction false} HeadStepKeepsEnd(p: seq<char>)
    requires HeadMatchOf(p).Some? && HeadMatchOf(p).value.closeHead + |HEAD_CLOSE| == |p|
    ensures var p1 := HeadStep(p).text;
      HeadMatchOf(p1).Some? && HeadMatchOf(p1).value.closeHead + |HEAD_CLOSE| == |p1|
    ensures p[|p| - 1] == '>'
  {
    var m := HeadMatchOf(p).value;
    HeadMatchSpec(p);
    MatchCovers(p, m.closeHead, HEAD_CLOSE, true, |p| - 1);
    if HeadStep(p).modified {
      var te := m.closeTitle + |TITLE_CLOSE|;
      HeadStepAt(p, m, te, m.closeHead);
      HeadMatchAfterEdit(p, m, te, te + |HEAD_INSERT|);
    }
  }

  /** `sp` moved `d` characters to the right. */
  function ShiftSpan(sp: Option<Span>, d: nat): (r: Option<Span>) {
    match sp
    case None => None
    case Some(n) => Some(Span(d + n.start, d + n.mark, d + n.close, d + n.end))
  }

  /** No occurrence of a landmark starts inside a landmark-free part ending
      with `>`. */
  lemma {:induction false} NoMarkInFront(a: seq<char>, b: seq<char>, lit: seq<char>)
    requires |a| > 0 && a[|a| - 1] == '>' && Absent(a, lit, true) && ClosedBy(lit)
    ensures forall q: nat :: q < |a| ==> !MatchesAt(a + b, q, lit, true)
  {
    FindFromSpec(a, lit, true, 0);
    forall q: nat | q < |a| ensures !MatchesAt(a + b, q, lit, true) {
      if q + |lit| <= |a| {
        assert (a + b)[..|a|] == a;
        MatchesAtPrefix(a + b, |a|, q, lit, true);
      } else {
        NoMatchAcross(a, b, lit, true, q);
      }
    }
  }

  /** Behind such a part the navigation pattern matches where it matches
      in the rest. */
  lemma {:induction false} NavMatchShift(a: seq<char>, b: seq<char>)
    requires |a| > 0 && a[|a| - 1] == '>' && Absent(a, NAV_MARK, true)
    ensures NavMatch(a + b) == ShiftSpan(NavMatch(b), |a|)
  {
    MarksClosedBy();
    var fl := FindFrom(b, NAV_MARK, true, 0);
    if fl.None? {
      MarkPastPartNone(a, b, NAV_MARK);
      NavMatchNoMark(b);
      NavMatchNoMark(a + b);
    } else {
      var l := fl.value;
      MarkPastPartSome(a, b, NAV_MARK, l, |a| + l);
      NavMatchShiftMarked(a, b, l, l + |NAV_MARK|, |a| + l);
    }
  }

  /** Behind the part, the navigation pattern once the landmark is known. */
  lemma {:induction false} NavMatchShiftMarked(a: seq<char>, b: seq<char>, l: nat, from: nat, l': nat)
    requires |a| > 0 && a[|a| - 1] == '>'
    requires FindFrom(b, NAV_MARK, true, 0) == Some(l) && from == l + |NAV_MARK|
    requires FindFrom(a + b, NAV_MARK, true, 0) == Some(l') && l' == |a| + l
    ensures NavMatch(a + b) == ShiftSpan(NavMatch(b), |a|)
  {
    var fe := FindFrom(b, NAV_CLOSE, true, from);
    var from' := |a| + from;
    if fe.None? {
      FindFromShiftNone(a, b, NAV_CLOSE, true, from, from');
      NavMatchNone(b, l, from);
      NavMatchNone(a + b, l', from');
    } else {
      var e := fe.value;
      var e' := |a| + e;
      FindFromShiftSome(a, b, NAV_CLOSE, true, from, e, from', e');
      NavMatchShiftSome(a, b, l, from, e, l', from', e');
    }
  }

  /** Without a landmark the navigation pattern fails. */
  lemma {:induction false} NavMatchNoMark(s: seq<char>)
    requires FindFrom(s, NAV_MARK, true, 0).None?
    ensures NavMatch(s).None?
  {
  }

  /** The navigation pattern fails when `</nav>` never follows the first
      landmark. */
  lemma {:induction false} NavMatchNone(s: seq<char>, l: nat, from: nat)
    requires FindFrom(s, NAV_MARK, true, 0) == Some(l) && from == l + |NAV_MARK|
    requires FindFrom(s, NAV_CLOSE, true, from).None?
    ensures NavMatch(s).None?
  {
  }

  /** The shifted match once both searches are known in `b` and in `a + b`. */
  lemma {:induction false} NavMatchShiftSome(a: seq<char>, b: seq<char>, l: nat, from: nat, e: nat, l': nat, from': nat, e': nat)
    requires |a| > 0 && a[|a| - 1] == '>'
    requires FindFrom(b, NAV_MARK, true, 0) == Some(l) && from == l + |NAV_MARK|
    requires FindFrom(b, NAV_CLOSE, true, from) == Some(e)
    requires FindFrom(a + b, NAV_MARK, true, 0) == Some(l')
    requires FindFrom(a + b, NAV_CLOSE, true, from') == Some(e')
    requires l' == |a| + l && from' == |a| + from && e' == |a| + e
    ensures NavMatch(a + b) == ShiftSpan(NavMatch(b), |a|)
  {
    var x := e + |NAV_CLOSE|;
    var x' := |a| + x;
    WsStartShift(a, b, l, l');
    WsEndShift(a, b, x, x');
    NavMatchIs(b, l, from, e, x);
    NavMatchIs(a + b, l', from', e', x');
    SpanShifted(NavMatch(b), NavMatch(a + b), |a|);
  }

  lemma {:induction false} SpanShifted(n: Option<Span>, m: Option<Span>, d: nat)
    requires n.Some? && m.Some?
    requires m.value.start == d + n.value.start && m.value.mark == d + n.value.mark
    requires m.value.close == d + n.value.close && m.value.end == d + n.value.end
    ensures m == ShiftSpan(n, d)
  {
  }

  /** The first landmark in such a part followed by a rest is the rest's
      first landmark. */
  lemma {:induction false} MarkPastPartSome(a: seq<char>, b: seq<char>, lit: seq<char>, l: nat, l': nat)
    requires |a| > 0 && a[|a| - 1] == '>' && Absent(a, lit, true) && ClosedBy(lit)
    requires FindFrom(b, lit, true, 0) == Some(l) && l' == |a| + l
    ensures FindFrom(a + b, lit, true, 0) == Some(l')
  {
    NoMarkInFront(a, b, lit);
    FindFromJump(a + b, lit, true, 0, |a|);
    FindFromShiftSome(a, b, lit, true, 0, l, |a|, l');
  }

  /** Such a part followed by a landmark-free rest has no landmark. */
  lemma {:induction false} MarkPastPartNone(a: seq<char>, b: seq<char>, lit: seq<char>)
    requires |a| > 0 && a[|a| - 1] == '>' && Absent(a, lit, true) && ClosedBy(lit)
    requires FindFrom(b, lit, true, 0).None?
    ensures FindFrom(a + b, lit, true, 0).None?
  {
    NoMarkInFront(a, b, lit);
    FindFromJump(a + b, lit, true, 0, |a|);
    FindFromShiftNone(a, b, lit, true, 0, |a|);
  }

  /** The navigation pattern's result once its two searches are known. */
  lemma {:induction false} NavMatchIs(s: seq<char>, l: nat, from: nat, e: nat, x: nat)
    requires from == l + |NAV_MARK| && x == e + |NAV_CLOSE|
    requires FindFrom(s, NAV_MARK, true, 0) == Some(l)
    requires FindFrom(s, NAV_CLOSE, true, from) == Some(e)
    ensures NavMatch(s) == Some(Span(WsStart(s, l), l, e, WsEnd(s, x)))
  {
  }

  /** The navigation step behind such a part acts on the rest. */
  lemma {:induction false} NavStepShift(a: seq<char>, b: seq<char>)
    requires |a| > 0 && a[|a| - 1] == '>' && Absent(a, NAV_MARK, true)
    ensures NavStep(a + b) == Step(a + NavStep(b).text, NavStep(b).modified)
  {
    NavMatchShift(a, b);
    if NavMatch(b).Some? {
      NavStepShiftSome(a, b, NavMatch(b).value, NavMatch(a + b).value);
    } else {
      NavStepNone(b);
      NavStepNone(a + b);
    }
  }

  lemma {:induction false} NavStepShiftSome(a: seq<char>, b: seq<char>, n: Span, m: Span)
    requires NavMatch(b) == Some(n) && NavMatch(a + b) == Some(m)
    requires m.start == |a| + n.start && m.end == |a| + n.end
    ensures NavStep(a + b) == Step(a + NavStep(b).text, NavStep(b).modified)
  {
    NavStepAt(b, n.start, n.mark, n.close, n.end);
    NavStepAt(a + b, m.start, m.mark, m.close, m.end);
    GuardedEditShift(a, b, n.start, n.end, n.end, m.start, m.end, m.end, NAV_INSERT, HEADER_TOKEN);
    StepShifted(a, NavStep(b), NavStep(a + b),
      GuardedEdit(b, n.start, n.end, n.end, NAV_INSERT, HEADER_TOKEN),
      GuardedEdit(a + b, m.start, m.end, m.end, NAV_INSERT, HEADER_TOKEN));
  }

  /** Steps equal to two edits, one the other behind `a`, are too. */
  lemma {:induction false} StepShifted(a: seq<char>, x: Step, y: Step, ex: Step, ey: Step)
    requires x == ex && y == ey && ey == Step(a + ex.text, ex.modified)
    ensures y == Step(a + x.text, x.modified)
  {
  }

  /** Without a match the navigation step changes nothing. */
  lemma {:induction false} NavStepNone(s: seq<char>)
    requires NavMatch(s).None?
    ensures NavStep(s) == Step(s, false)
  {
  }

  /** The navigation step once its match is known. */
  lemma {:induction false} NavStepAt(s: seq<char>, start: nat, mark: nat, close: nat, end: nat)
    requires NavMatch(s) == Some(Span(start, mark, close, end))
    ensures start <= end <= |s| && HoldsToken(NAV_INSERT, HEADER_TOKEN)
    ensures NavStep(s) == GuardedEdit(s, start, end, end, NAV_INSERT, HEADER_TOKEN)
  {
    InsertsCarryTokens();
  }

  /** A guarded edit of `b` seen through `a + b`. */
  lemma {:induction false} GuardedEditShift(a: seq<char>, b: seq<char>, i: nat, j: nat, k: nat,
                                            i': nat, j': nat, k': nat, ins: seq<char>, tok: seq<char>)
    requires i <= j <= k <= |b| && HoldsToken(ins, tok)
    requires i' == |a| + i && j' == |a| + j && k' == |a| + k
    ensures GuardedEdit(a + b, i', j', k', ins, tok)
      == Step(a + GuardedEdit(b, i, j, k, ins, tok).text, GuardedEdit(b, i, j, k, ins, tok).modified)
  {
    assert (a + b)[i'..k'] == b[i..k];
    assert (a + b)[..i'] == a + b[..i];
    assert (a + b)[j'..] == b[j..];
  }

  /** A guarded edit inside `p` seen through `p + x`. */
  lemma {:induction false} GuardedEditSuffix(p: seq<char>, x: seq<char>, i: nat, j: nat, k: nat, ins: seq<char>, tok: seq<char>)
    requires i <= j <= k <= |p| && HoldsToken(ins, tok)
    ensures GuardedEdit(p + x, i, j, k, ins, tok)
      == Step(GuardedEdit(p, i, j, k, ins, tok).text + x, GuardedEdit(p, i, j, k, ins, tok).modified)
  {
    assert (p + x)[i..k] == p[i..k];
    assert (p + x)[..i] == p[..i];
    assert (p + x)[j..] == p[j..] + x;
  }

  /** The navigation pattern keeps a match that ends before the end of its
      part whatever follows the part. */
  lemma {:induction false} NavMatchSuffix(q: seq<char>, r: seq<char>)
    requires NavMatch(q).Some? && NavMatch(q).value.end < |q|
    ensures NavMatch(q + r) == NavMatch(q)
  {
    var n := NavMatch(q).value;
    NavMatchSuffixAt(q, r, n.mark, n.mark + |NAV_MARK|, n.close, n.close + |NAV_CLOSE|);
  }

  lemma {:induction false} NavMatchSuffixAt(q: seq<char>, r: seq<char>, l: nat, from: nat, e: nat, x: nat)
    requires from == l + |NAV_MARK| && x == e + |NAV_CLOSE|
    requires FindFrom(q, NAV_MARK, true, 0) == Some(l)
    requires FindFrom(q, NAV_CLOSE, true, from) == Some(e)
    requires WsEnd(q, x) < |q|
    ensures NavMatch(q + r) == NavMatch(q)
  {
    var t := q + r;
    assert t[..|q|] == q[..|q|];
    FindFromSame(q, t, NAV_MARK, true, 0, |q|);
    FindFromSame(q, t, NAV_CLOSE, true, from, |q|);
    WsStartPrefix(q, r, l);
    WsEndPrefix(q, r, x);
    NavMatchIs(q, l, from, e, x);
    NavMatchIs(t, l, from, e, x);
  }

  /** The navigation step on a part that ends with `>` after its match (or
      has no landmark), followed by a landmark-free rest, acts on the part. */
  lemma {:induction false} NavStepSuffix(q: seq<char>, r: seq<char>)
    requires |q| > 0 && q[|q| - 1] == '>' && Absent(r, NAV_MARK, true)
    requires Absent(q, NAV_MARK, true) || (NavMatch(q).Some? && NavMatch(q).value.end < |q|)
    ensures NavStep(q + r) == Step(NavStep(q).text + r, NavStep(q).modified)
  {
    if Absent(q, NAV_MARK, true) {
      MarksClosedBy();
      AbsentJoin(q, r, NAV_MARK, true);
    } else {
      NavMatchSuffix(q, r);
      var n := NavMatch(q).value;
      InsertsCarryTokens();
      GuardedEditSuffix(q, r, n.start, n.end, n.end, NAV_INSERT, HEADER_TOKEN);
    }
  }

  /** The closing tags are recognised at the same places behind a prefix. */
  lemma {:induction false} ClosingAtShift(a: seq<char>, b: seq<char>, x: nat, x': nat)
    requires x' == |a| + x
    ensures ClosingAt(a + b, x') == ClosingAt(b, x)
  {
    MatchesAtShift(a, b, x, x', BODY_CLOSE, true);
    if x + |BODY_CLOSE| <= |b| {
      WsEndShift(a, b, x + |BODY_CLOSE|, x' + |BODY_CLOSE|);
      MatchesAtShift(a, b, WsEnd(b, x + |BODY_CLOSE|), WsEnd(a + b, x' + |BODY_CLOSE|), HTML_CLOSE, true);
    }
  }

  /** Searching for the closing tags from a position inside `b` is
      searching `b`. */
  lemma {:induction false} FindClosingShiftSome(a: seq<char>, b: seq<char>, from: nat, c: Closing, from': nat, at': nat, end': nat)
    requires FindClosing(b, from) == Some(c)
    requires from' == |a| + from && at' == |a| + c.at && end' == |a| + c.end
    ensures FindClosing(a + b, from') == Some(Closing(at', end'))
  {
    FindClosingShiftAt(a, b, from, c.at, from', at');
    var x, x' := c.at + |BODY_CLOSE|, at' + |BODY_CLOSE|;
    ClosingEndShift(a, b, from, c, x, x');
    FindClosingAt(a + b, at', end', x');
  }

  /** The end of closing tags found in `b`, seen from `a + b`. */
  lemma {:induction false} ClosingEndShift(a: seq<char>, b: seq<char>, from: nat, c: Closing, x: nat, x': nat)
    requires FindClosing(b, from) == Some(c) && x == c.at + |BODY_CLOSE| && x' == |a| + x
    ensures |a| + c.end == WsEnd(a + b, x') + |HTML_CLOSE|
  {
    FindClosingEnd(b, from);
    WsEndShift(a, b, x, x');
  }

  /** The search in `a + b` stops at the shifted position of the one in `b`. */
  lemma {:induction false} FindClosingShiftAt(a: seq<char>, b: seq<char>, from: nat, c: nat, from': nat, c': nat)
    requires FindClosing(b, from).Some? && FindClosing(b, from).value.at == c
    requires from' == |a| + from && c' == |a| + c
    ensures ClosingAt(a + b, c') && FindClosing(a + b, from') == FindClosing(a + b, c')
  {
    FindClosingFirst(b, from);
    FindClosingEnd(b, from);
    forall x: nat | from' <= x <= c' ensures ClosingAt(a + b, x) == ClosingAt(b, x - |a|) {
      ClosingAtShift(a, b, x - |a|, x);
    }
    FindClosingIs(a + b, from', c');
  }

  lemma {:induction false} FindClosingShiftNone(a: seq<char>, b: seq<char>, from: nat, from': nat)
    requires FindClosing(b, from).None? && from' == |a| + from
    ensures FindClosing(a + b, from').None?
  {
    FindClosingFirst(b, from);
    forall x: nat | from' <= x ensures !ClosingAt(a + b, x) {
      ClosingAtShift(a, b, x - |a|, x);
    }
    FindClosingNone(a + b, from');
  }

  /** Closing tags with none before them are the ones found. */
  lemma {:induction false} FindClosingIs(s: seq<char>, from: nat, c: nat)
    requires from <= c && ClosingAt(s, c)
    requires forall c': nat :: from <= c' < c ==> !ClosingAt(s, c')
    ensures FindClosing(s, from) == FindClosing(s, c)
    decreases c - from
  {
    if from < c {
      FindClosingIs(s, from + 1, c);
    }
  }

  /** The search starting at closing tags finds them. */
  lemma {:induction false} FindClosingAt(s: seq<char>, c: nat, e: nat, x: nat)
    requires ClosingAt(s, c) && x == c + |BODY_CLOSE| && e == WsEnd(s, x) + |HTML_CLOSE|
    ensures FindClosing(s, c) == Some(Closing(c, e))
  {
  }

  lemma {:induction false} FindClosingNone(s: seq<char>, from: nat)
    requires forall c: nat :: from <= c ==> !ClosingAt(s, c)
    ensures FindClosing(s, from) == None
  {
    FindClosingFirst(s, from);
    FindClosingEnd(s, from);
  }

  /** Behind a footer-landmark-free part ending with `>` the footer pattern
      matches where it matches in the rest. */
  lemma {:induction false} FooterMatchShift(a: seq<char>, b: seq<char>)
    requires |a| > 0 && a[|a| - 1] == '>' && Absent(a, FOOTER_MARK, true)
    ensures FooterMatch(a + b) == ShiftSpan(FooterMatch(b), |a|)
  {
    MarksClosedBy();
    var ff := FindFrom(b, FOOTER_MARK, true, 0);
    if ff.None? {
      MarkPastPartNone(a, b, FOOTER_MARK);
      FooterMatchNoMark(b);
      FooterMatchNoMark(a + b);
    } else {
      var f := ff.value;
      MarkPastPartSome(a, b, FOOTER_MARK, f, |a| + f);
      FooterMatchShiftMarked(a, b, f, f + |FOOTER_MARK|, |a| + f);
    }
  }

  /** Behind the part, the footer pattern once the landmark is known. */
  lemma {:induction false} FooterMatchShiftMarked(a: seq<char>, b: seq<char>, f: nat, from: nat, f': nat)
    requires |a| > 0 && a[|a| - 1] == '>'
    requires FindFrom(b, FOOTER_MARK, true, 0) == Some(f) && from == f + |FOOTER_MARK|
    requires FindFrom(a + b, FOOTER_MARK, true, 0) == Some(f') && f' == |a| + f
    ensures FooterMatch(a + b) == ShiftSpan(FooterMatch(b), |a|)
  {
    var fb := FindClosing(b, from);
    var from' := |a| + from;
    if fb.None? {
      FindClosingShiftNone(a, b, from, from');
      FooterMatchNone(b, f, from);
      FooterMatchNone(a + b, f', from');
    } else {
      var c := fb.value;
      FooterMatchShiftSome(a, b, f, from, c, f', from', |a| + c.at, |a| + c.end);
    }
  }

  /** Without a landmark the footer pattern fails. */
  lemma {:induction false} FooterMatchNoMark(s: seq<char>)
    requires FindFrom(s, FOOTER_MARK, true, 0).None?
    ensures FooterMatch(s).None?
  {
  }

  /** The footer pattern fails when the closing tags never follow the first
      landmark. */
  lemma {:induction false} FooterMatchNone(s: seq<char>, f: nat, from: nat)
    requires FindFrom(s, FOOTER_MARK, true, 0) == Some(f) && from == f + |FOOTER_MARK|
    requires FindClosing(s, from).None?
    ensures FooterMatch(s).None?
  {
  }

  /** The footer pattern's result once its two searches are known. */
  lemma {:induction false} FooterMatchIs(s: seq<char>, f: nat, from: nat, c: Closing, w: nat)
    requires FindFrom(s, FOOTER_MARK, true, 0) == Some(f) && from == f + |FOOTER_MARK|
    requires FindClosing(s, from) == Some(c) && w == WsStart(s, f)
    ensures FooterMatch(s) == Some(Span(w, f, c.at, c.end))
  {
  }

  lemma {:induction false} FooterMatchShiftSome(a: seq<char>, b: seq<char>, f: nat, from: nat, c: Closing, f': nat, from': nat, at': nat, end': nat)
    requires |a| > 0 && a[|a| - 1] == '>'
    requires FindFrom(b, FOOTER_MARK, true, 0) == Some(f) && from == f + |FOOTER_MARK|
    requires FindClosing(b, from) == Some(c)
    requires FindFrom(a + b, FOOTER_MARK, true, 0) == Some(f')
    requires f' == |a| + f && from' == |a| + from && at' == |a| + c.at && end' == |a| + c.end
    ensures FooterMatch(a + b) == ShiftSpan(FooterMatch(b), |a|)
  {
    FindClosingShiftSome(a, b, from, c, from', at', end');
    var w := WsStart(b, f);
    WsStartShift(a, b, f, f');
    FooterMatchIs(b, f, from, c, w);
    FooterMatchIs(a + b, f', from', Closing(at', end'), |a| + w);
    SpanShifted(FooterMatch(b), FooterMatch(a + b), |a|);
  }

  /** The footer step behind such a part acts on the rest. */
  lemma {:induction false} FooterStepShift(a: seq<char>, b: seq<char>)
    requires |a| > 0 && a[|a| - 1] == '>' && Absent(a, FOOTER_MARK, true)
    ensures FooterStep(a + b) == Step(a + FooterStep(b).text, FooterStep(b).modified)
  {
    FooterMatchShift(a, b);
    if FooterMatch(b).Some? {
      FooterStepShiftSome(a, b, FooterMatch(b).value, FooterMatch(a + b).value);
    } else {
      FooterStepNone(b);
      FooterStepNone(a + b);
    }
  }

  lemma {:induction false} FooterStepShiftSome(a: seq<char>, b: seq<char>, f: Span, g: Span)
    requires FooterMatch(b) == Some(f) && FooterMatch(a + b) == Some(g)
    requires g.start == |a| + f.start && g.close == |a| + f.close && g.end == |a| + f.end
    ensures FooterStep(a + b) == Step(a + FooterStep(b).text, FooterStep(b).modified)
  {
    FooterStepAt(b, f.start, f.mark, f.close, f.end);
    FooterStepAt(a + b, g.start, g.mark, g.close, g.end);
    GuardedEditShift(a, b, f.start, f.close, f.end, g.start, g.close, g.end, FOOTER_INSERT, FOOTER_TOKEN);
    StepShifted(a, FooterStep(b), FooterStep(a + b),
      GuardedEdit(b, f.start, f.close, f.end, FOOTER_INSERT, FOOTER_TOKEN),
      GuardedEdit(a + b, g.start, g.close, g.end, FOOTER_INSERT, FOOTER_TOKEN));
  }

  /** Without a match the footer step changes nothing. */
  lemma {:induction false} FooterStepNone(s: seq<char>)
    requires FooterMatch(s).None?
    ensures FooterStep(s) == Step(s, false)
  {
  }

  /** The footer step once its match is known. */
  lemma {:induction false} FooterStepAt(s: seq<char>, start: nat, mark: nat, close: nat, end: nat)
    requires FooterMatch(s) == Some(Span(start, mark, close, end))
    ensures start <= close <= end <= |s| && HoldsToken(FOOTER_INSERT, FOOTER_TOKEN)
    ensures FooterStep(s) == GuardedEdit(s, start, close, end, FOOTER_INSERT, FOOTER_TOKEN)
  {
    InsertsCarryTokens();
  }
}
