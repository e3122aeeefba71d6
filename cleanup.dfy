/** The duplicate-meta cleanup (cleanup-duplicates.js): in every page that
    uses the head placeholder, remove the `<meta charset>` and
    `<meta name="viewport">` tags written between `<head>` and `<title>`,
    the head template now supplying them. */
module Cleanup {
  import opened Text
  import opened Substitution
  import opened Regions
  import opened Files

  // ---------------------------------------------------------------------------
  // The cleanup pattern: `<head>`, whitespace, the UTF-8 charset tag,
  // whitespace, the opening of the viewport tag up to its first `>`,
  // whitespace and `<title>`. Group 1 is `<head>` with the whitespace after
  // it, group 2 is `<title>` with whitespace before it. The pattern carries
  // the flags `g` and `i` and each match is replaced by the two groups.
  // Literals are in lower case.

  const HEAD_OPEN := "<head>"
  const CHARSET_META := "<meta charset=\"utf-8\">"
  const VIEWPORT_META := "<meta name=\"viewport\""

  /** Where the parts of one match lie: `<head>` at `start`, the charset tag
      at `keep` (the end of group 1), the viewport tag at `viewport`, the `>`
      that closes it at `gt`, and `<title>` (group 2) at `title`. */
  datatype MetaMatch = MetaMatch(start: nat, keep: nat, viewport: nat, gt: nat, title: nat)

  /** No `>` in `s[from..to]`: what `[^>]*` runs over. */
  predicate NoGt(s: seq<char>, from: nat, to: nat) {
    from <= to <= |s| && forall x :: from <= x < to ==> s[x] != '>'
  }

  /** The parts of a match follow each other, inside `s`. */
  predicate Ordered(s: seq<char>, m: MetaMatch) {
    && m.start + |HEAD_OPEN| <= m.keep
    && m.keep + |CHARSET_META| <= m.viewport
    && m.viewport + |VIEWPORT_META| <= m.gt < m.title
    && m.title + |TITLE_OPEN| <= |s|
  }

  /** `m` is a match of the pattern in `s`, described by what each part of
      the pattern matches. */
  predicate IsMetaMatch(s: seq<char>, m: MetaMatch) {
    MetaHead(s, m) && MetaTail(s, m)
  }

  /** The part of a match up to the viewport tag: `<head>`, whitespace, the
      charset tag, whitespace. */
  predicate MetaHead(s: seq<char>, m: MetaMatch) {
    && MatchesAt(s, m.start, HEAD_OPEN, true)
    && AllWs(s, m.start + |HEAD_OPEN|, m.keep)
    && MatchesAt(s, m.keep, CHARSET_META, true)
    && AllWs(s, m.keep + |CHARSET_META|, m.viewport)
  }

  /** The rest of a match: the viewport tag up to its first `>`, whitespace,
      `<title>`. */
  predicate MetaTail(s: seq<char>, m: MetaMatch) {
    && MatchesAt(s, m.viewport, VIEWPORT_META, true)
    && NoGt(s, m.viewport + |VIEWPORT_META|, m.gt)
    && m.gt < |s| && s[m.gt] == '>'
    && AllWs(s, m.gt + 1, m.title)
    && MatchesAt(s, m.title, TITLE_OPEN, true)
  }

  /** The first `>` at or after `from`: where `[^>]*>` ends. */
  function GtFrom(s: seq<char>, from: nat): (r: Option<nat>)
    decreases |s| - from
    ensures r.Some? ==> from <= r.value < |s| && s[r.value] == '>'
  {
    if from >= |s| then None
    else if s[from] == '>' then Some(from)
    else GtFrom(s, from + 1)
  }

  lemma {:induction false} GtFromSpec(s: seq<char>, from: nat)
    requires from <= |s|
    ensures GtFrom(s, from).Some? ==> NoGt(s, from, GtFrom(s, from).value)
    ensures GtFrom(s, from).None? ==> NoGt(s, from, |s|)
    decreases |s| - from
  {
    if from < |s| && s[from] != '>' {
      GtFromSpec(s, from + 1);
    }
  }

  lemma {:induction false} GtFromIs(s: seq<char>, from: nat, g: nat)
    requires NoGt(s, from, g) && g < |s| && s[g] == '>'
    ensures GtFrom(s, from) == Some(g)
    decreases g - from
  {
    if from < g {
      GtFromIs(s, from + 1, g);
    }
  }

  /** The match that the regular expression finds when it is tried at `p`.
      Each `\s*` is greedy and is followed by a literal that starts with `<`,
      and `[^>]*` cannot run past a `>`, so no backtracking ever changes
      where a part ends: the match at `p`, if any, is unique. */
  function MetaAt(s: seq<char>, p: nat): (r: Option<MetaMatch>)
    ensures r.Some? ==> r.value.start == p && Ordered(s, r.value)
  {
    if MatchesAt(s, p, HEAD_OPEN, true) then AfterHead(s, p, WsEnd(s, p + |HEAD_OPEN|)) else None
  }

  /** The rest of the match once group 1 ends at `k`. */
  function AfterHead(s: seq<char>, p: nat, k: nat): (r: Option<MetaMatch>)
    requires p + |HEAD_OPEN| <= k <= |s|
    ensures r.Some? ==> r.value.start == p && r.value.keep == k && Ordered(s, r.value)
  {
    if MatchesAt(s, k, CHARSET_META, true) then AfterCharset(s, p, k, WsEnd(s, k + |CHARSET_META|)) else None
  }

  /** The rest of the match once the viewport tag is due at `v`. */
  function AfterCharset(s: seq<char>, p: nat, k: nat, v: nat): (r: Option<MetaMatch>)
    requires p + |HEAD_OPEN| <= k && k + |CHARSET_META| <= v <= |s|
    ensures r.Some? ==> r.value.start == p && r.value.keep == k && r.value.viewport == v && Ordered(s, r.value)
  {
    if !MatchesAt(s, v, VIEWPORT_META, true) then None
    else
      match GtFrom(s, v + |VIEWPORT_META|)
      case None => None
      case Some(g) => AfterViewport(s, p, k, v, g, WsEnd(s, g + 1))
  }

  /** The rest of the match once `<title>` is due at `t`. */
  function AfterViewport(s: seq<char>, p: nat, k: nat, v: nat, g: nat, t: nat): (r: Option<MetaMatch>)
    requires p + |HEAD_OPEN| <= k && k + |CHARSET_META| <= v && v + |VIEWPORT_META| <= g < t <= |s|
    ensures r.Some? ==> r.value == MetaMatch(p, k, v, g, t) && Ordered(s, r.value)
  {
    if MatchesAt(s, t, TITLE_OPEN, true) then Some(MetaMatch(p, k, v, g, t)) else None
  }

  /** A literal that starts with `<` and has no other `<`. */
  predicate OpensTag(lit: seq<char>) {
    |lit| > 1 && lit[0] == '<' && forall i :: 1 <= i < |lit| ==> lit[i] != '<'
  }

  /** Facts about the pattern's literals that the proofs use. */
  lemma CleanLiterals()
    ensures OpensTag(HEAD_OPEN) && OpensTag(CHARSET_META) && OpensTag(VIEWPORT_META) && OpensTag(TITLE_OPEN)
    ensures HEAD_OPEN[1] == 'h' && CHARSET_META[1] == 'm' && VIEWPORT_META[1] == 'm' && TITLE_OPEN[1] == 't'
    ensures HEAD_OPEN[5] == '>' && '>' !in VIEWPORT_META && VIEWPORT_META[20] == '"' && '"' !in HEAD_OPEN
  {
  }

  /** What `MetaAt` finds is a match. */
  lemma {:induction false} MetaAtSound(s: seq<char>, p: nat)
    requires MetaAt(s, p).Some?
    ensures IsMetaMatch(s, MetaAt(s, p).value)
  {
    var k := WsEnd(s, p + |HEAD_OPEN|);
    WsEndSpec(s, p + |HEAD_OPEN|);
    CharsetSound(s, p, k);
  }

  lemma {:induction false} CharsetSound(s: seq<char>, p: nat, k: nat)
    requires p + |HEAD_OPEN| <= k <= |s| && AfterHead(s, p, k).Some?
    ensures MatchesAt(s, k, CHARSET_META, true)
    ensures var m := AfterHead(s, p, k).value;
      && AllWs(s, m.keep + |CHARSET_META|, m.viewport)
      && MatchesAt(s, m.viewport, VIEWPORT_META, true)
      && NoGt(s, m.viewport + |VIEWPORT_META|, m.gt)
      && m.gt < |s| && s[m.gt] == '>'
      && AllWs(s, m.gt + 1, m.title)
      && MatchesAt(s, m.title, TITLE_OPEN, true)
  {
    var v := WsEnd(s, k + |CHARSET_META|);
    AfterHeadSome(s, p, k, v);
    assert AfterHead(s, p, k).value.keep == k && AfterHead(s, p, k).value.viewport == v;
    WsEndSpec(s, k + |CHARSET_META|);
    ViewportSound(s, p, k, v);
  }

  lemma {:induction false} AfterHeadSome(s: seq<char>, p: nat, k: nat, v: nat)
    requires p + |HEAD_OPEN| <= k <= |s| && AfterHead(s, p, k).Some? && v == WsEnd(s, k + |CHARSET_META|)
    ensures MatchesAt(s, k, CHARSET_META, true) && k + |CHARSET_META| <= v <= |s|
    ensures AfterHead(s, p, k) == AfterCharset(s, p, k, v)
  {
  }

  lemma {:induction false} ViewportSound(s: seq<char>, p: nat, k: nat, v: nat)
    requires p + |HEAD_OPEN| <= k && k + |CHARSET_META| <= v <= |s| && AfterCharset(s, p, k, v).Some?
    ensures MatchesAt(s, v, VIEWPORT_META, true)
    ensures var m := AfterCharset(s, p, k, v).value;
      && NoGt(s, m.viewport + |VIEWPORT_META|, m.gt)
      && m.gt < |s| && s[m.gt] == '>'
      && AllWs(s, m.gt + 1, m.title)
      && MatchesAt(s, m.title, TITLE_OPEN, true)
  {
    var g := GtFrom(s, v + |VIEWPORT_META|).value;
    GtFromSpec(s, v + |VIEWPORT_META|);
    WsEndSpec(s, g + 1);
  }

  /** Every match is the one `MetaAt` finds at its start. */
  lemma {:induction false} MetaAtComplete(s: seq<char>, m: MetaMatch)
    requires IsMetaMatch(s, m)
    ensures MetaAt(s, m.start) == Some(m)
  {
    OpensAt(s, m.keep, CHARSET_META);
    WsEndIs(s, m.start + |HEAD_OPEN|, m.keep);
    CharsetComplete(s, m);
  }

  lemma {:induction false} CharsetComplete(s: seq<char>, m: MetaMatch)
    requires Ordered(s, m) && MatchesAt(s, m.keep, CHARSET_META, true)
    requires AllWs(s, m.keep + |CHARSET_META|, m.viewport) && MetaTail(s, m)
    ensures AfterHead(s, m.start, m.keep) == Some(m)
  {
    OpensAt(s, m.viewport, VIEWPORT_META);
    WsEndIs(s, m.keep + |CHARSET_META|, m.viewport);
    AfterHeadIs(s, m.start, m.keep, m.viewport);
    ViewportComplete(s, m);
  }

  lemma {:induction false} AfterHeadIs(s: seq<char>, p: nat, k: nat, v: nat)
    requires p + |HEAD_OPEN| <= k && k + |CHARSET_META| <= v <= |s|
    requires MatchesAt(s, k, CHARSET_META, true) && WsEnd(s, k + |CHARSET_META|) == v
    ensures AfterHead(s, p, k) == AfterCharset(s, p, k, v)
  {
  }

  lemma {:induction false} ViewportComplete(s: seq<char>, m: MetaMatch)
    requires Ordered(s, m) && MetaTail(s, m)
    ensures AfterCharset(s, m.start, m.keep, m.viewport) == Some(m)
  {
    GtFromIs(s, m.viewport + |VIEWPORT_META|, m.gt);
    OpensAt(s, m.title, TITLE_OPEN);
    WsEndIs(s, m.gt + 1, m.title);
    AfterCharsetIs(s, m.start, m.keep, m.viewport, m.gt, m.title);
    assert AfterViewport(s, m.start, m.keep, m.viewport, m.gt, m.title) == Some(m);
  }

  lemma {:induction false} AfterCharsetIs(s: seq<char>, p: nat, k: nat, v: nat, g: nat, t: nat)
    requires p + |HEAD_OPEN| <= k && k + |CHARSET_META| <= v && v + |VIEWPORT_META| <= g < t <= |s|
    requires MatchesAt(s, v, VIEWPORT_META, true) && GtFrom(s, v + |VIEWPORT_META|) == Some(g) && WsEnd(s, g + 1) == t
    ensures AfterCharset(s, p, k, v) == AfterViewport(s, p, k, v, g, t)
  {
  }

  /** The pattern matches at `p` exactly when `MetaAt` finds a match there. */
  lemma MetaAtSpec(s: seq<char>, m: MetaMatch)
    ensures MetaAt(s, m.start) == Some(m) <==> IsMetaMatch(s, m)
  {
    if MetaAt(s, m.start) == Some(m) {
      MetaAtSound(s, m.start);
    }
    if IsMetaMatch(s, m) {
      MetaAtComplete(s, m);
    }
  }

  /** The leftmost match starting at or after `from`: the search the global
      flag makes after each match. */
  function MetaFrom(s: seq<char>, from: nat): (r: Option<MetaMatch>)
    decreases |s| - from
    ensures r.Some? ==> from <= r.value.start && Ordered(s, r.value)
  {
    if from >= |s| then None
    else
      match MetaAt(s, from)
      case Some(m) => Some(m)
      case None => MetaFrom(s, from + 1)
  }

  lemma {:induction false} MetaFromFound(s: seq<char>, from: nat)
    requires MetaFrom(s, from).Some?
    ensures MetaAt(s, MetaFrom(s, from).value.start) == MetaFrom(s, from)
    decreases |s| - from
  {
    if MetaAt(s, from).None? {
      MetaFromFound(s, from + 1);
    }
  }

  lemma {:induction false} MetaFromNoneBefore(s: seq<char>, from: nat, p: nat)
    requires from <= p
    requires MetaFrom(s, from).None? || p < MetaFrom(s, from).value.start
    ensures MetaAt(s, p).None?
    decreases p - from
  {
    if from < p && from < |s| {
      MetaFromNoneBefore(s, from + 1, p);
    }
  }

  lemma {:induction false} MetaFromNone(s: seq<char>, from: nat)
    requires forall p: nat :: from <= p ==> MetaAt(s, p).None?
    ensures MetaFrom(s, from).None?
    decreases |s| - from
  {
    if from < |s| {
      MetaFromNone(s, from + 1);
    }
  }

  /** The global replacement by the two groups, from position `from` on: each match
      keeps `<head>` and the whitespace after it, and `<title>`, and loses
      what lies between. */
  function CleanFrom(s: seq<char>, from: nat): (r: seq<char>)
    requires from <= |s|
    decreases |s| - from, 1
  {
    match MetaFrom(s, from)
    case None => s[from..]
    case Some(m) => Spliced(s, from, m) + CleanAfter(s, m)
  }

  /** The text from `from` up to the end of match `m` once `m` is replaced
      by `$1$2`: what precedes the match, then `<head>` with the whitespace
      after it (group 1), then `<title>` (group 2, whose leading `\s*` is
      always empty because the `\s*` before it is greedy). */
  function Spliced(s: seq<char>, from: nat, m: MetaMatch): (r: seq<char>)
    requires from <= m.keep <= m.title && m.title + |TITLE_OPEN| <= |s|
  {
    s[from..m.keep] + s[m.title..m.title + |TITLE_OPEN|]
  }

  /** The scan resumes after the `<title>` of the match it replaced. */
  function CleanAfter(s: seq<char>, m: MetaMatch): (r: seq<char>)
    requires m.start < m.title && m.title + |TITLE_OPEN| <= |s|
    decreases |s| - m.start, 0
  {
    CleanFrom(s, m.title + |TITLE_OPEN|)
  }

  function CleanAll(s: seq<char>): (r: seq<char>) {
    CleanFrom(s, 0)
  }

  /** Each replacement shortens the text. */
  lemma {:induction false} CleanFromShrinks(s: seq<char>, from: nat)
    requires from <= |s|
    ensures |CleanFrom(s, from)| <= |s| - from
    ensures MetaFrom(s, from).Some? ==> |CleanFrom(s, from)| < |s| - from
    decreases |s| - from
  {
    if MetaFrom(s, from).Some? {
      var m := MetaFrom(s, from).value;
      var e := m.title + |TITLE_OPEN|;
      CleanFromShrinks(s, e);
      CleanFromStep(s, from, m, e);
    }
  }

  /** One replacement and the rest of the scan. */
  lemma {:induction false} CleanFromStep(s: seq<char>, from: nat, m: MetaMatch, e: nat)
    requires from <= |s| && MetaFrom(s, from) == Some(m) && e == m.title + |TITLE_OPEN|
    ensures CleanFrom(s, from) == Spliced(s, from, m) + CleanFrom(s, e)
    ensures |CleanFrom(s, from)| == (m.keep - from) + |TITLE_OPEN| + |CleanFrom(s, e)|
  {
    CleanFromUnfold(s, from, m);
    CleanAfterIs(s, m, e);
    SplicedLength(s, from, m);
  }

  lemma {:induction false} CleanAfterIs(s: seq<char>, m: MetaMatch, e: nat)
    requires m.start < m.title && m.title + |TITLE_OPEN| <= |s| && e == m.title + |TITLE_OPEN|
    ensures CleanAfter(s, m) == CleanFrom(s, e)
  {
  }

  lemma {:induction false} SplicedLength(s: seq<char>, from: nat, m: MetaMatch)
    requires from <= m.keep <= m.title && m.title + |TITLE_OPEN| <= |s|
    ensures |Spliced(s, from, m)| == (m.keep - from) + |TITLE_OPEN|
  {
  }

  lemma {:induction false} CleanFromUnfold(s: seq<char>, from: nat, m: MetaMatch)
    requires from <= |s| && MetaFrom(s, from) == Some(m)
    ensures CleanFrom(s, from) == Spliced(s, from, m) + CleanAfter(s, m)
  {
  }

  /** What a replacement keeps in front of `$1` is the text before it. */
  lemma {:induction false} SplicedKeepsPrefix(s: seq<char>, from: nat, m: MetaMatch, rest: seq<char>)
    requires from <= m.keep <= m.title && m.title + |TITLE_OPEN| <= |s|
    ensures (Spliced(s, from, m) + rest)[..m.keep - from] == s[from..m.keep]
  {
    var kept := s[from..m.keep];
    assert Spliced(s, from, m) == kept + s[m.title..m.title + |TITLE_OPEN|];
    assert (Spliced(s, from, m) + rest)[..|kept|] == kept;
  }

  /** The replacement changes the page exactly when the pattern occurs in
      it, and then only after the start of the first match. */
  lemma CleanChangesIffMatch(s: seq<char>)
    ensures CleanAll(s) == s <==> forall p: nat :: MetaAt(s, p).None?
    ensures MetaFrom(s, 0).Some? ==> CleanAll(s)[..MetaFrom(s, 0).value.keep] == s[..MetaFrom(s, 0).value.keep]
  {
    CleanFromShrinks(s, 0);
    if MetaFrom(s, 0).Some? {
      var m := MetaFrom(s, 0).value;
      MetaFromFound(s, 0);
      CleanFromStep(s, 0, m, m.title + |TITLE_OPEN|);
      SplicedKeepsPrefix(s, 0, m, CleanFrom(s, m.title + |TITLE_OPEN|));
      assert s[0..m.keep] == s[..m.keep];
    } else {
      forall p: nat ensures MetaAt(s, p).None? {
        MetaFromNoneBefore(s, 0, p);
      }
      assert CleanAll(s) == s[0..];
    }
  }

  // ---------------------------------------------------------------------------
  // Running the cleanup twice

  /** `x` lies inside the viewport tag that starts at `v`, before the `>`
      that closes it. */
  predicate InViewportTag(s: seq<char>, v: nat, x: nat) {
    MatchesAt(s, v, VIEWPORT_META, true) && NoGt(s, v + |VIEWPORT_META|, x) && x < |s|
  }

  /** No `<` inside a viewport tag: each one is closed by its own `>`
      before any other tag begins. */
  ghost predicate ViewportTagsClosed(s: seq<char>) {
    forall v: nat, x: nat {:trigger InViewportTag(s, v, x)} :: InViewportTag(s, v, x) ==> s[x] != '<'
  }

  /** `a[lo..hi]` is the text of `b` that starts at `lo + d`. */
  predicate SameText(a: seq<char>, b: seq<char>, lo: nat, hi: nat, d: int) {
    lo <= hi <= |a| && 0 <= lo + d && hi + d <= |b| && forall x :: lo <= x < hi ==> a[x] == b[x + d]
  }

  lemma {:induction false} MatchesAtMoved(a: seq<char>, b: seq<char>, lo: nat, hi: nat, d: int,
                                          q: nat, q': nat, lit: seq<char>, ci: bool)
    requires SameText(a, b, lo, hi, d) && lo <= q && q + |lit| <= hi && q' == q + d
    ensures MatchesAt(a, q, lit, ci) == MatchesAt(b, q', lit, ci)
  {
    assert a[q..q + |lit|] == b[q'..q' + |lit|];
  }

  lemma {:induction false} AllWsMoved(a: seq<char>, b: seq<char>, lo: nat, hi: nat, d: int,
                                      x: nat, y: nat, x': nat, y': nat)
    requires SameText(a, b, lo, hi, d) && lo <= x && y <= hi && x' == x + d && y' == y + d
    ensures AllWs(a, x, y) == AllWs(b, x', y')
  {
    if AllWs(a, x, y) {
      forall z | x' <= z < y' ensures IsWs(b[z]) {
        assert a[z - d] == b[z];
      }
    }
    if AllWs(b, x', y') {
      forall z | x <= z < y ensures IsWs(a[z]) {
        assert a[z] == b[z + d];
      }
    }
  }

  lemma {:induction false} NoGtMoved(a: seq<char>, b: seq<char>, lo: nat, hi: nat, d: int,
                                     x: nat, y: nat, x': nat, y': nat)
    requires SameText(a, b, lo, hi, d) && lo <= x && y <= hi && x' == x + d && y' == y + d
    ensures NoGt(a, x, y) == NoGt(b, x', y')
  {
    if NoGt(a, x, y) {
      forall z | x' <= z < y' ensures b[z] != '>' {
        assert a[z - d] == b[z];
      }
    }
    if NoGt(b, x', y') {
      forall z | x <= z < y ensures a[z] != '>' {
        assert a[z] == b[z + d];
      }
    }
  }

  /** Equal slices are the same text. */
  lemma {:induction false} SliceSameText(a: seq<char>, b: seq<char>, lo: nat, hi: nat, lo': nat, hi': nat)
    requires lo <= hi <= |a| && lo' <= hi' <= |b| && a[lo..hi] == b[lo'..hi']
    ensures SameText(a, b, lo, hi, lo' - lo)
  {
    forall x | lo <= x < hi ensures a[x] == b[x + (lo' - lo)] {
      assert a[lo..hi][x - lo] == a[x];
      assert b[lo'..hi'][x - lo] == b[x + (lo' - lo)];
    }
  }

  /** What a closed viewport tag does not contain. */
  lemma {:induction false} InsideViewportTag(s: seq<char>, v: nat, x: nat)
    requires ViewportTagsClosed(s) && MatchesAt(s, v, VIEWPORT_META, true) && NoGt(s, v + |VIEWPORT_META|, x) && x < |s|
    ensures s[x] != '<'
  {
    assert InViewportTag(s, v, x);
  }

  /** A match depends only on the text it covers. */
  lemma {:induction false} MetaMatchMoved(a: seq<char>, b: seq<char>, lo: nat, hi: nat, d: int, m: MetaMatch, m': MetaMatch)
    requires SameText(a, b, lo, hi, d) && lo <= m.start <= m.viewport <= m.title && m.title + |TITLE_OPEN| <= hi
    requires m'.start == m.start + d && m'.keep == m.keep + d && m'.viewport == m.viewport + d
    requires m'.gt == m.gt + d && m'.title == m.title + d
    ensures IsMetaMatch(a, m) <==> IsMetaMatch(b, m')
  {
    MetaHeadMoved(a, b, lo, hi, d, m, m');
    MetaTailMoved(a, b, lo, hi, d, m, m');
  }

  lemma {:induction false} MetaHeadMoved(a: seq<char>, b: seq<char>, lo: nat, hi: nat, d: int, m: MetaMatch, m': MetaMatch)
    requires SameText(a, b, lo, hi, d) && lo <= m.start && m.viewport <= hi
    requires m'.start == m.start + d && m'.keep == m.keep + d && m'.viewport == m.viewport + d
    ensures MetaHead(a, m) <==> MetaHead(b, m')
  {
    if MetaHead(a, m) || MetaHead(b, m') {
      MatchesAtMoved(a, b, lo, hi, d, m.start, m'.start, HEAD_OPEN, true);
      AllWsMoved(a, b, lo, hi, d, m.start + |HEAD_OPEN|, m.keep, m'.start + |HEAD_OPEN|, m'.keep);
      MatchesAtMoved(a, b, lo, hi, d, m.keep, m'.keep, CHARSET_META, true);
      AllWsMoved(a, b, lo, hi, d, m.keep + |CHARSET_META|, m.viewport, m'.keep + |CHARSET_META|, m'.viewport);
    }
  }

  lemma {:induction false} MetaTailMoved(a: seq<char>, b: seq<char>, lo: nat, hi: nat, d: int, m: MetaMatch, m': MetaMatch)
    requires SameText(a, b, lo, hi, d) && lo <= m.viewport && m.title + |TITLE_OPEN| <= hi
    requires m'.viewport == m.viewport + d && m'.gt == m.gt + d && m'.title == m.title + d
    ensures MetaTail(a, m) <==> MetaTail(b, m')
  {
    if MetaTail(a, m) || MetaTail(b, m') {
      MatchesAtMoved(a, b, lo, hi, d, m.viewport, m'.viewport, VIEWPORT_META, true);
      NoGtMoved(a, b, lo, hi, d, m.viewport + |VIEWPORT_META|, m.gt, m'.viewport + |VIEWPORT_META|, m'.gt);
      AllWsMoved(a, b, lo, hi, d, m.gt + 1, m.title, m'.gt + 1, m'.title);
      MatchesAtMoved(a, b, lo, hi, d, m.title, m'.title, TITLE_OPEN, true);
    }
  }

  /** Where no match was found, none is found in what is left of the text. */
  lemma {:induction false} NoMatchInSuffix(s: seq<char>, from: nat, q: nat)
    requires from <= |s| && MetaFrom(s, from).None?
    ensures MetaAt(s[from..], q).None?
  {
    var u := s[from..];
    if MetaAt(u, q).Some? {
      var m := MetaAt(u, q).value;
      MetaAtSound(u, q);
      var m' := MetaMatch(m.start + from, m.keep + from, m.viewport + from, m.gt + from, m.title + from);
      MetaMatchMoved(u, s, 0, |u|, from, m, m');
      MetaAtComplete(s, m');
      MetaFromNoneBefore(s, from, m'.start);
    }
  }

  /** A match after the kept `<title>` would be a match in the rest of the
      output. */
  lemma {:induction false} NoMatchAfterTitle(a: seq<char>, rest: seq<char>, m: MetaMatch)
    requires forall q: nat :: MetaAt(rest, q).None?
    requires |a| <= m.start
    ensures !IsMetaMatch(a + rest, m)
  {
    if IsMetaMatch(a + rest, m) {
      var d := |a|;
      var m' := MetaMatch(m.start - d, m.keep - d, m.viewport - d, m.gt - d, m.title - d);
      assert SameText(rest, a + rest, 0, |rest|, d);
      MetaMatchMoved(rest, a + rest, 0, |rest|, d, m', m);
      MetaAtComplete(rest, m');
    }
  }

  /** No match starts inside the kept `<title>`. */
  lemma {:induction false} NoMatchInTitle(o: seq<char>, j: nat, q: nat)
    requires MatchesAt(o, j, TITLE_OPEN, true) && j <= q < j + |TITLE_OPEN|
    ensures !MatchesAt(o, q, HEAD_OPEN, true)
  {
    CleanLiterals();
    if MatchesAt(o, q, HEAD_OPEN, true) {
      if q == j {
        MatchCovers(o, j, TITLE_OPEN, true, j + 1);
        MatchCovers(o, q, HEAD_OPEN, true, j + 1);
      } else {
        MatchCovers(o, j, TITLE_OPEN, true, q);
        MatchCovers(o, q, HEAD_OPEN, true, q);
      }
    }
  }

  /** The output of one replacement: the text before the match and its
      `<head>` with the whitespace after it, then its `<title>`, then `rest`.
      A match of the output that lies before the kept `<title>` would be a
      match of the input starting in the same place; the leftmost match
      of the input contains no other `<`, so that place is the input
      match's own start, whose match runs past that `<title>`. */
  lemma {:induction false} NoMatchBeforeTitle(s: seq<char>, from: nat, m: MetaMatch, o: seq<char>, mo: MetaMatch)
    requires from <= |s| && MetaFrom(s, from) == Some(m) && IsMetaMatch(s, m)
    requires from <= m.keep && SameText(o, s, 0, m.keep - from, from)
    requires mo.title + |TITLE_OPEN| <= m.keep - from && mo.start <= mo.viewport <= mo.title
    ensures !IsMetaMatch(o, mo)
  {
    if IsMetaMatch(o, mo) {
      var j := m.keep - from;
      var ms := MetaMatch(mo.start + from, mo.keep + from, mo.viewport + from, mo.gt + from, mo.title + from);
      MetaMatchMoved(o, s, 0, j, from, mo, ms);
      MetaAtComplete(s, ms);
      OpensAt(s, ms.start, HEAD_OPEN);
      if ms.start < m.start {
        MetaFromNoneBefore(s, from, ms.start);
      } else {
        FirstMatchAlone(s, m, ms.start);
        MetaFromFound(s, from);
      }
    }
  }

  /** The only `<` from the start of a match to its charset tag is the
      first. */
  lemma {:induction false} FirstMatchAlone(s: seq<char>, m: MetaMatch, p: nat)
    requires IsMetaMatch(s, m) && m.start <= p < m.keep && s[p] == '<'
    ensures p == m.start
  {
    if m.start < p < m.start + |HEAD_OPEN| {
      CleanLiterals();
      MatchCovers(s, m.start, HEAD_OPEN, true, p);
    }
  }

  /** A match of the output that starts before the kept `<title>` and ends
      after its first character can only end with that `<title>`, after
      the whitespace that follows the kept `<head>`; its viewport tag then
      lies before that `<head>`, with no `>` in between. */
  lemma {:induction false} AcrossTitle(o: seq<char>, h: nat, j: nat, mo: MetaMatch)
    requires MatchesAt(o, h, HEAD_OPEN, true) && AllWs(o, h + |HEAD_OPEN|, j) && MatchesAt(o, j, TITLE_OPEN, true)
    requires mo.start < j < mo.title + |TITLE_OPEN|
    ensures IsMetaMatch(o, mo) ==> mo.title == j && mo.viewport + |VIEWPORT_META| <= h && NoGt(o, mo.viewport + |VIEWPORT_META|, h)
  {
    if IsMetaMatch(o, mo) {
      CleanLiterals();
      MatchCovers(o, j, TITLE_OPEN, true, j);
      MatchCovers(o, j, TITLE_OPEN, true, j + 1);
      MatchCovers(o, h, HEAD_OPEN, true, h + 5);
      NotAcrossHead(o, j, mo);
      NotAcrossViewport(o, h, j, mo);
      NotAcrossTail(o, j, mo);
      AcrossAtTitle(o, h, j, mo);
    }
  }

  /** The kept `<title>` does not start inside the head part of a match. */
  lemma {:induction false} NotAcrossHead(o: seq<char>, j: nat, mo: MetaMatch)
    requires MetaHead(o, mo) && j + 1 < |o| && o[j] == '<' && Lower(o[j + 1]) == 't'
    ensures !(mo.start < j < mo.viewport)
  {
    if mo.start < j < mo.viewport {
      CleanLiterals();
      if j < mo.start + |HEAD_OPEN| {
        MatchCovers(o, mo.start, HEAD_OPEN, true, j);
      } else if j < mo.keep {
      } else if j == mo.keep {
        MatchCovers(o, mo.keep, CHARSET_META, true, j + 1);
      } else if j < mo.keep + |CHARSET_META| {
        MatchCovers(o, mo.keep, CHARSET_META, true, j);
      }
    }
  }

  /** Nor inside the viewport tag, whose `[^>]*` cannot run over the `>`
      of the kept `<head>`. */
  lemma {:induction false} NotAcrossViewport(o: seq<char>, h: nat, j: nat, mo: MetaMatch)
    requires MetaTail(o, mo) && j + 1 < |o| && o[j] == '<' && Lower(o[j + 1]) == 't'
    requires AllWs(o, h + |HEAD_OPEN|, j) && o[h + 5] == '>'
    ensures !(mo.viewport <= j <= mo.gt)
  {
    var v := mo.viewport;
    if v <= j <= mo.gt {
      CleanLiterals();
      if j == v {
        MatchCovers(o, v, VIEWPORT_META, true, j + 1);
      } else if j < v + |VIEWPORT_META| {
        MatchCovers(o, v, VIEWPORT_META, true, j);
      } else if j < mo.gt {
        if v + |VIEWPORT_META| <= h + 5 {
        } else if v <= h + 5 {
          MatchCovers(o, v, VIEWPORT_META, true, h + 5);
        }
      }
    }
  }

  /** Nor after the viewport tag, except as the match's own `<title>`. */
  lemma {:induction false} NotAcrossTail(o: seq<char>, j: nat, mo: MetaMatch)
    requires MetaTail(o, mo) && j < |o| && o[j] == '<'
    ensures !(mo.gt < j < mo.title) && !(mo.title < j < mo.title + |TITLE_OPEN|)
  {
    if mo.title < j < mo.title + |TITLE_OPEN| {
      CleanLiterals();
      MatchCovers(o, mo.title, TITLE_OPEN, true, j);
    }
  }

  /** The case where the match ends with the kept `<title>`. */
  lemma {:induction false} AcrossAtTitle(o: seq<char>, h: nat, j: nat, mo: MetaMatch)
    requires MatchesAt(o, h, HEAD_OPEN, true) && AllWs(o, h + |HEAD_OPEN|, j) && MatchesAt(o, j, TITLE_OPEN, true)
    requires IsMetaMatch(o, mo) && mo.title == j && o[h + 5] == '>'
    ensures mo.viewport + |VIEWPORT_META| <= h && NoGt(o, mo.viewport + |VIEWPORT_META|, h)
  {
    CleanLiterals();
    var v := mo.viewport;
    if mo.gt != h + 5 {
    } else if h < v + |VIEWPORT_META| {
      MatchCovers(o, v, VIEWPORT_META, true, v + 20);
      MatchCovers(o, h, HEAD_OPEN, true, v + 20);
    }
  }

  /** A match of the output that ends with the kept `<title>` reaches
      back, inside an input viewport tag, to the `<` of the kept `<head>`;
      with every viewport tag closed that cannot be. */
  lemma {:induction false} NoMatchAcrossTitle(s: seq<char>, from: nat, m: MetaMatch, o: seq<char>, mo: MetaMatch, j: nat)
    requires from <= |s| && IsMetaMatch(s, m) && from <= m.start && ViewportTagsClosed(s)
    requires j == m.keep - from && SameText(o, s, 0, j, from)
    requires SameText(o, s, j, j + |TITLE_OPEN|, m.title - j)
    requires mo.start < j < mo.title + |TITLE_OPEN|
    ensures !IsMetaMatch(o, mo)
  {
    if IsMetaMatch(o, mo) {
      var h := m.start - from;
      JunctionText(s, from, m, o, j, h);
      AcrossTitle(o, h, j, mo);
      NoOpenViewportBeforeHead(s, from, o, mo.viewport, h, j);
    }
  }

  /** At the junction the output reads `<head>`, whitespace, `<title>`, as
      the input did around the match. */
  lemma {:induction false} JunctionText(s: seq<char>, from: nat, m: MetaMatch, o: seq<char>, j: nat, h: nat)
    requires IsMetaMatch(s, m) && from <= m.start && h == m.start - from && j == m.keep - from
    requires SameText(o, s, 0, j, from) && SameText(o, s, j, j + |TITLE_OPEN|, m.title - j)
    ensures MatchesAt(o, h, HEAD_OPEN, true) && AllWs(o, h + |HEAD_OPEN|, j) && MatchesAt(o, j, TITLE_OPEN, true)
  {
    MatchesAtMoved(o, s, 0, j, from, h, m.start, HEAD_OPEN, true);
    AllWsMoved(o, s, 0, j, from, h + |HEAD_OPEN|, j, m.start + |HEAD_OPEN|, m.keep);
    MatchesAtMoved(o, s, j, j + |TITLE_OPEN|, m.title - j, j, m.title, TITLE_OPEN, true);
  }

  /** In the copied text no viewport tag is still open at the kept
      `<head>`. */
  lemma {:induction false} NoOpenViewportBeforeHead(s: seq<char>, from: nat, o: seq<char>, v: nat, h: nat, j: nat)
    requires ViewportTagsClosed(s) && SameText(o, s, 0, j, from)
    requires MatchesAt(o, h, HEAD_OPEN, true) && h + |HEAD_OPEN| <= j
    ensures !(v + |VIEWPORT_META| <= h && MatchesAt(o, v, VIEWPORT_META, true) && NoGt(o, v + |VIEWPORT_META|, h))
  {
    if v + |VIEWPORT_META| <= h && MatchesAt(o, v, VIEWPORT_META, true) && NoGt(o, v + |VIEWPORT_META|, h) {
      var v' := v + from;
      var x := h + from;
      OpensAt(o, h, HEAD_OPEN);
      MatchesAtMoved(o, s, 0, j, from, v, v', VIEWPORT_META, true);
      NoGtMoved(o, s, 0, j, from, v + |VIEWPORT_META|, h, v' + |VIEWPORT_META|, x);
      InsideViewportTag(s, v', x);
    }
  }

  /** One replacement forms no new match, given that the rest of the output
      has none. */
  lemma {:induction false} NoMatchAfterStep(s: seq<char>, from: nat, m: MetaMatch, rest: seq<char>, q: nat)
    requires from <= |s| && MetaFrom(s, from) == Some(m) && ViewportTagsClosed(s)
    requires forall p: nat :: MetaAt(rest, p).None?
    ensures MetaAt(Spliced(s, from, m) + rest, q).None?
  {
    MetaFromFound(s, from);
    MetaAtSound(s, m.start);
    var a := Spliced(s, from, m);
    var o := a + rest;
    var j := m.keep - from;
    SplicedText(s, from, m, a, rest, o, j);
    if MetaAt(o, q).Some? {
      var mo := MetaAt(o, q).value;
      MetaAtSound(o, q);
      if j + |TITLE_OPEN| <= q {
        NoMatchAfterTitle(a, rest, mo);
      } else {
        NoMatchInsideStep(s, from, m, o, mo, j);
      }
    }
  }

  /** Where the text of one replacement's output comes from in the input. */
  lemma {:induction false} SplicedText(s: seq<char>, from: nat, m: MetaMatch, a: seq<char>, rest: seq<char>, o: seq<char>, j: nat)
    requires from <= m.keep <= m.title && m.title + |TITLE_OPEN| <= |s| && j == m.keep - from
    requires a == Spliced(s, from, m) && o == a + rest
    ensures |a| == j + |TITLE_OPEN|
    ensures SameText(o, s, 0, j, from) && SameText(o, s, j, j + |TITLE_OPEN|, m.title - j)
  {
    assert a == s[from..m.keep] + s[m.title..m.title + |TITLE_OPEN|];
    forall x | 0 <= x < j ensures o[x] == s[x + from] {
      assert o[x] == a[x] == s[from..m.keep][x];
    }
    forall x | j <= x < j + |TITLE_OPEN| ensures o[x] == s[x + (m.title - j)] {
      assert o[x] == a[x] == s[m.title..m.title + |TITLE_OPEN|][x - j];
    }
  }

  /** No match of the output starts inside the `<title>` a replacement
      kept. */
  lemma {:induction false} NoMatchInKeptTitle(s: seq<char>, m: MetaMatch, o: seq<char>, mo: MetaMatch, j: nat)
    requires IsMetaMatch(s, m) && SameText(o, s, j, j + |TITLE_OPEN|, m.title - j)
    requires j <= mo.start < j + |TITLE_OPEN|
    ensures !IsMetaMatch(o, mo)
  {
    MatchesAtMoved(o, s, j, j + |TITLE_OPEN|, m.title - j, j, m.title, TITLE_OPEN, true);
    NoMatchInTitle(o, j, mo.start);
  }

  /** No match of the output starts in the part one replacement produced. */
  lemma {:induction false} NoMatchInsideStep(s: seq<char>, from: nat, m: MetaMatch, o: seq<char>, mo: MetaMatch, j: nat)
    requires from <= |s| && MetaFrom(s, from) == Some(m) && IsMetaMatch(s, m) && from <= m.start
    requires ViewportTagsClosed(s) && Ordered(s, m) && Ordered(o, mo)
    requires j == m.keep - from && SameText(o, s, 0, j, from)
    requires SameText(o, s, j, j + |TITLE_OPEN|, m.title - j)
    requires mo.start < j + |TITLE_OPEN|
    ensures !IsMetaMatch(o, mo)
  {
    if j <= mo.start {
      NoMatchInKeptTitle(s, m, o, mo, j);
    } else if mo.title + |TITLE_OPEN| <= j {
      NoMatchBeforeTitle(s, from, m, o, mo);
    } else {
      NoMatchAcrossTitle(s, from, m, o, mo, j);
    }
  }

  /** The output of the scan from `from` has no match at all. */
  lemma {:induction false} CleanFromLeavesNoMatch(s: seq<char>, from: nat)
    requires from <= |s| && ViewportTagsClosed(s)
    ensures forall q: nat :: MetaAt(CleanFrom(s, from), q).None?
    decreases |s| - from
  {
    if MetaFrom(s, from).None? {
      forall q: nat ensures MetaAt(CleanFrom(s, from), q).None? {
        NoMatchInSuffix(s, from, q);
      }
    } else {
      var m := MetaFrom(s, from).value;
      var e := m.title + |TITLE_OPEN|;
      CleanFromStep(s, from, m, e);
      CleanFromLeavesNoMatch(s, e);
      forall q: nat ensures MetaAt(CleanFrom(s, from), q).None? {
        NoMatchAfterStep(s, from, m, CleanFrom(s, e), q);
      }
    }
  }

  /** With every viewport tag closed, the replacement leaves no match, so
      running the cleanup on its own output changes nothing. */
  lemma CleanIdempotent(s: seq<char>)
    requires ViewportTagsClosed(s)
    ensures forall p: nat :: MetaAt(CleanAll(s), p).None?
    ensures CleanAll(CleanAll(s)) == CleanAll(s)
  {
    CleanFromLeavesNoMatch(s, 0);
    CleanChangesIffMatch(CleanAll(s));
  }

  // ---------------------------------------------------------------------------
  // The script

  /** What the loop body does to one page's text: nothing unless the page
      uses the head placeholder; `modified` when the replacement changed it. */
  function CleanOutcome(s: seq<char>): (r: Step)
    ensures r.modified <==> r.text != s
    ensures !Contains(s, HEAD_TOKEN) ==> r.text == s
  {
    if Contains(s, HEAD_TOKEN) then Step(CleanAll(s), CleanAll(s) != s) else Step(s, false)
  }

  /** A page is modified exactly when it uses the head placeholder and the
      pattern occurs in it. */
  lemma CleanOutcomeModified(s: seq<char>)
    ensures CleanOutcome(s).modified <==> Contains(s, HEAD_TOKEN) && exists p: nat :: MetaAt(s, p).Some?
  {
    CleanChangesIffMatch(s);
  }

  /** One page as the loop body handles it: `content` is reassigned by the
      replacement and compared with the original. */
  method CleanPage(page: seq<char>) returns (content: seq<char>, modified: bool)
    ensures Step(content, modified) == CleanOutcome(page)
  {
    content := page;
    modified := false;
    if Contains(content, HEAD_TOKEN) {
      var original := content;
      content := CleanAll(content);
      if content != original {
        modified := true;
      }
    }
  }

  /** A page the cleanup rewrites: listed, a candidate, read without
      failure, changed by the loop body and written without failure. */
  predicate Cleaned(cwd: Directory, listing: seq<string>, faults: Faults, f: string) {
    && f in listing && IsCleanupCandidate(f) && Readable(cwd, faults, f)
    && CleanOutcome(cwd[f]).modified && f !in faults.write
  }

  function CleanedNames(cwd: Directory, listing: seq<string>, faults: Faults): (r: set<string>) {
    set f | f in listing && Cleaned(cwd, listing, faults, f)
  }

  /** `out` holds the loop body's outcome on every page of `cwd`. */
  ghost predicate CleanOutcomes(cwd: Directory, out: map<string, Step>) {
    out.Keys == cwd.Keys && forall f {:trigger CleanRecorded(cwd, out, f)} :: CleanRecorded(cwd, out, f)
  }

  /** `out` holds the loop body's outcome on page `f`. */
  ghost predicate CleanRecorded(cwd: Directory, out: map<string, Step>, f: string) {
    f in cwd && f in out ==> out[f] == CleanOutcome(cwd[f])
  }

  ghost function CleanOutcomeMap(cwd: Directory): (out: map<string, Step>)
    ensures CleanOutcomes(cwd, out)
  {
    map f | f in cwd :: CleanOutcome(cwd[f])
  }

  /** One iteration of the loop: read the page, run the replacement, and
      write it back when it changed. A failed read or write leaves the
      directory as it was. */
  method CleanFile(cwd: Directory, dir: Directory, faults: Faults, file: string, ghost out: map<string, Step>)
    returns (dir': Directory, counted: bool)
    requires CleanOutcomes(cwd, out)
    requires file in dir ==> file in cwd && dir[file] == cwd[file]
    ensures counted <==> Readable(dir, faults, file) && out[file].modified && file !in faults.write
    ensures dir' == if counted then dir[file := out[file].text] else dir
  {
    dir', counted := dir, false;
    if Readable(dir, faults, file) {
      var content, modified := CleanPage(dir[file]);
      assert CleanRecorded(cwd, out, file);
      if modified && file !in faults.write {
        dir' := dir[file := content];
        counted := true;
      }
    }
  }

  /** What the loop rewrote is what the script rewrites. */
  lemma {:induction false} DoneAreCleaned(cwd: Directory, listing: seq<string>, files: seq<string>,
                                          faults: Faults, out: map<string, Step>, done: set<string>)
    requires forall f :: f in files <==> f in listing && IsCleanupCandidate(f)
    requires CleanOutcomes(cwd, out)
    requires forall f :: f in done <==> f in files && f in cwd && f !in faults.read && out[f].modified && f !in faults.write
    ensures done == CleanedNames(cwd, listing, faults)
    ensures forall f :: f in cwd ==> (f in done <==> Cleaned(cwd, listing, faults, f))
    ensures forall f :: f in done ==> out[f].text == CleanAll(cwd[f])
  {
    forall f | f in cwd ensures (f in done <==> Cleaned(cwd, listing, faults, f)) && (f in done ==> out[f] == CleanOutcome(cwd[f])) {
      assert CleanRecorded(cwd, out, f);
    }
  }

  /** The loop over the candidates, each page in its own `try`. */
  method CleanPages(cwd: Directory, files: seq<string>, faults: Faults, ghost out: map<string, Step>)
    returns (dir: Directory, cleanedCount: nat, ghost done: set<string>)
    requires Distinct(files) && CleanOutcomes(cwd, out)
    ensures forall f :: f in dir <==> f in cwd
    ensures forall f :: f in done <==> f in files && f in cwd && f !in faults.read && out[f].modified && f !in faults.write
    ensures forall f :: f in done ==> dir[f] == out[f].text
    ensures forall f :: f in dir && f !in done ==> dir[f] == cwd[f]
    ensures cleanedCount == |done|
  {
    dir := cwd;
    cleanedCount := 0;
    done := {};
    var i := 0;
    while i < |files|
      invariant 0 <= i <= |files|
      invariant forall f :: f in dir <==> f in cwd
      invariant forall f :: f in done <==> f in files[..i] && f in cwd && f !in faults.read && out[f].modified && f !in faults.write
      invariant forall f :: f in done ==> dir[f] == out[f].text
      invariant forall f :: f in dir && f !in done ==> dir[f] == cwd[f]
      invariant cleanedCount == |done|
    {
      var file := files[i];
      PrefixStep(files, i);
      var counted;
      dir, counted := CleanFile(cwd, dir, faults, file, out);
      if counted {
        cleanedCount := cleanedCount + 1;
        done := done + {file};
      }
      i := i + 1;
    }
    assert files[..i] == files;
  }

  /** The cleanup script: the candidates in listing order, each page
      rewritten in place when the loop body changed it; `cleanedCount` is the
      number of pages rewritten. */
  method CleanupSite(cwd: Directory, listing: seq<string>, faults: Faults) returns (dir: Directory, cleanedCount: nat)
    requires Distinct(listing)
    ensures forall f :: f in dir <==> f in cwd
    ensures forall f :: Cleaned(cwd, listing, faults, f) ==> dir[f] == CleanAll(cwd[f])
    ensures forall f :: f in cwd && !Cleaned(cwd, listing, faults, f) ==> dir[f] == cwd[f]
    ensures cleanedCount == |CleanedNames(cwd, listing, faults)|
  {
    var files := Select(listing, IsCleanupCandidate);
    ghost var out := CleanOutcomeMap(cwd);
    ghost var done;
    dir, cleanedCount, done := CleanPages(cwd, files, faults, out);
    DoneAreCleaned(cwd, listing, files, faults, out, done);
  }
}
