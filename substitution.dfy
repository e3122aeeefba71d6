/** Placeholder substitution: the three global `replace` calls that both the
    batch build (build.js) and the development server (vite.config.js) apply
    to a page, each replacing every occurrence of one fixed token by the text
    of one template fragment. */
module Substitution {
  import opened Text

  const HEAD_TOKEN := "<%= head %>"
  const HEADER_TOKEN := "<%= header %>"
  const FOOTER_TOKEN := "<%= footer %>"

  /** `s.replace(/tok/g, frag)` for a token without regex metacharacters and
      a replacement text without `$`: scanning left to right, every
      occurrence of `tok` not overlapping an earlier replaced one becomes
      `frag`, and scanning resumes after it. */
  function ReplaceAll(s: seq<char>, tok: seq<char>, frag: seq<char>): (r: seq<char>)
    requires |tok| > 0
    decreases |s|
  {
    if s == [] then []
    else if MatchesAt(s, 0, tok, false) then frag + ReplaceAll(s[|tok|..], tok, frag)
    else [s[0]] + ReplaceAll(s[1..], tok, frag)
  }

  /** The number of occurrences `ReplaceAll` replaces. */
  function Count(s: seq<char>, tok: seq<char>): (r: nat)
    requires |tok| > 0
    decreases |s|
  {
    if s == [] then 0
    else if MatchesAt(s, 0, tok, false) then 1 + Count(s[|tok|..], tok)
    else Count(s[1..], tok)
  }

  /** The text before the first occurrence is kept verbatim, that occurrence
      becomes exactly `frag`, and the rest is processed the same way; with no
      occurrence the text is returned unchanged. */
  lemma {:induction false} ReplaceAllSplit(s: seq<char>, tok: seq<char>, frag: seq<char>)
    requires |tok| > 0
    ensures FindFrom(s, tok, false, 0).None? ==> ReplaceAll(s, tok, frag) == s
    ensures FindFrom(s, tok, false, 0).Some? ==>
      ReplaceAll(s, tok, frag) == SplitAt(s, FindFrom(s, tok, false, 0).value, tok, frag)
    decreases |s|
  {
    if s == [] {
    } else if MatchesAt(s, 0, tok, false) {
      FindFromIs(s, tok, false, 0, 0);
      assert s[..0] == [];
    } else {
      ReplaceAllSplit(s[1..], tok, frag);
      SplitSkip(s, tok, frag);
    }
  }

  /** `s` with the occurrence of `tok` at `k` replaced and the rest of `s`
      after it processed by `ReplaceAll`. */
  function SplitAt(s: seq<char>, k: nat, tok: seq<char>, frag: seq<char>): (r: seq<char>)
    requires |tok| > 0 && k + |tok| <= |s|
  {
    s[..k] + frag + ReplaceAll(s[k + |tok|..], tok, frag)
  }

  /** The inductive step of `ReplaceAllSplit` when `s` does not start with `tok`. */
  lemma {:induction false} SplitSkip(s: seq<char>, tok: seq<char>, frag: seq<char>)
    requires |tok| > 0 && s != [] && !MatchesAt(s, 0, tok, false)
    requires FindFrom(s[1..], tok, false, 0).None? ==> ReplaceAll(s[1..], tok, frag) == s[1..]
    requires FindFrom(s[1..], tok, false, 0).Some? ==>
      ReplaceAll(s[1..], tok, frag) == SplitAt(s[1..], FindFrom(s[1..], tok, false, 0).value, tok, frag)
    ensures FindFrom(s, tok, false, 0).None? ==> ReplaceAll(s, tok, frag) == s
    ensures FindFrom(s, tok, false, 0).Some? ==>
      ReplaceAll(s, tok, frag) == SplitAt(s, FindFrom(s, tok, false, 0).value, tok, frag)
  {
    var t := s[1..];
    FindFromSkip(s, tok, false, 0);
    assert s == [s[0]] + t;
    FindFromShift([s[0]], t, tok, false, 0);
    var r := FindFrom(t, tok, false, 0);
    if r.Some? {
      SplitSkipAt(s, tok, frag, r.value);
    }
  }

  /** `SplitAt` one character further in. */
  lemma {:induction false} SplitSkipAt(s: seq<char>, tok: seq<char>, frag: seq<char>, k: nat)
    requires |tok| > 0 && s != [] && k + 1 + |tok| <= |s|
    ensures [s[0]] + SplitAt(s[1..], k, tok, frag) == SplitAt(s, k + 1, tok, frag)
  {
    var t := s[1..];
    assert [s[0]] + t[..k] == s[..k + 1];
    assert t[k + |tok|..] == s[k + 1 + |tok|..];
  }

  /** A text that is exactly the token becomes exactly the fragment. */
  lemma {:induction false} WholeTokenReplaced(tok: seq<char>, frag: seq<char>)
    requires |tok| > 0
    ensures ReplaceAll(tok, tok, frag) == frag
  {
    MatchesAtExact(tok, 0, tok);
    assert tok[0..|tok|] == tok;
    var rest := tok[|tok|..];
    assert rest == [];
    assert ReplaceAll(tok, tok, frag) == frag + ReplaceAll(rest, tok, frag);
  }

  lemma {:induction false} NoTokenUnchanged(s: seq<char>, tok: seq<char>, frag: seq<char>)
    requires |tok| > 0 && !Contains(s, tok)
    ensures ReplaceAll(s, tok, frag) == s
  {
    ReplaceAllSplit(s, tok, frag);
  }

  /** Each replaced occurrence changes the length by `|frag| - |tok|`. */
  lemma {:induction false} ReplaceAllLength(s: seq<char>, tok: seq<char>, frag: seq<char>)
    requires |tok| > 0
    ensures |ReplaceAll(s, tok, frag)| == |s| + Count(s, tok) * (|frag| - |tok|)
    decreases |s|
  {
    if s == [] {
    } else if MatchesAt(s, 0, tok, false) {
      ReplaceAllLength(s[|tok|..], tok, frag);
      OneMore(Count(s[|tok|..], tok), |frag| - |tok|);
    } else {
      ReplaceAllLength(s[1..], tok, frag);
    }
  }

  lemma {:induction false} OneMore(c: int, d: int)
    ensures (1 + c) * d == c * d + d
  {
  }

  /** `Count` is zero exactly when the token does not occur. */
  lemma {:induction false} CountZero(s: seq<char>, tok: seq<char>)
    requires |tok| > 0
    ensures Count(s, tok) == 0 <==> !Contains(s, tok)
    decreases |s|
  {
    if s == [] {
    } else if MatchesAt(s, 0, tok, false) {
      FindFromIs(s, tok, false, 0, 0);
    } else {
      CountZero(s[1..], tok);
      FindFromSkip(s, tok, false, 0);
      assert s == [s[0]] + s[1..];
      FindFromShift([s[0]], s[1..], tok, false, 0);
    }
  }

  /** A fragment that cannot take part in an occurrence of `tok`: it is not
      empty, does not contain `tok`, starts with a character that `tok` has
      only at its first position (if at all) and ends with one that `tok` has
      only at its last position (if at all). Template files that start with
      `<` or a newline and end with `>` or a newline qualify for all three
      tokens. */
  predicate Inert(frag: seq<char>, tok: seq<char>) {
    && |frag| > 0 && |tok| > 0
    && !Contains(frag, tok)
    && frag[0] !in tok[1..]
    && frag[|frag| - 1] !in tok[..|tok| - 1]
  }

  /** After `ReplaceAll(s, tok, frag)` no occurrence of `other` remains: when
      `other` is `tok` itself, or when `s` had none to begin with, provided
      `frag` is inert for `other` (no occurrence is formed across the edges
      of an inserted fragment). */
  lemma {:induction false} ReplaceAllLeavesNone(s: seq<char>, tok: seq<char>, frag: seq<char>, other: seq<char>)
    requires |tok| > 0 && Inert(frag, other)
    requires other == tok || !Contains(s, other)
    ensures !Contains(ReplaceAll(s, tok, frag), other)
    decreases |s|
  {
    ReplaceAllSplit(s, tok, frag);
    var f := FindFrom(s, tok, false, 0);
    if f.Some? {
      var k := f.value;
      var rest := s[k + |tok|..];
      if other != tok && Contains(rest, other) {
        ContainsSuffix(s, k + |tok|, other);
      }
      ReplaceAllLeavesNone(rest, tok, frag, other);
      var r2 := ReplaceAll(rest, tok, frag);
      FindFromSpec(s, tok, false, 0);
      FindFromSpec(s, other, false, 0);
      NoOccurrenceAround(s, k, tok, frag, r2, other);
    }
  }

  /** The case analysis behind `ReplaceAllLeavesNone`: an occurrence of
      `other` in `s[..k] + frag + r2` lies in `s[..k]`, straddles an edge of
      `frag`, lies in `frag` or lies in `r2`. */
  lemma {:induction false} NoOccurrenceAround(s: seq<char>, k: nat, tok: seq<char>, frag: seq<char>, r2: seq<char>, other: seq<char>)
    requires |tok| > 0 && Inert(frag, other) && k <= |s|
    requires forall q: nat :: q + |other| <= k ==> !MatchesAt(s, q, other, false)
    requires !Contains(r2, other)
    ensures !Contains(s[..k] + frag + r2, other)
  {
    var r := s[..k] + frag + r2;
    var pf := s[..k] + frag;
    assert r == pf + r2;
    FindFromSpec(frag, other, false, 0);
    FindFromSpec(r2, other, false, 0);
    forall q: nat ensures !MatchesAt(r, q, other, false) {
      if q + |other| <= k {
        assert r[..k] == s[..k];
        MatchesAtPrefix(r, k, q, other, false);
        MatchesAtPrefix(s, k, q, other, false);
      } else if q < k {
        if MatchesAt(r, q, other, false) {
          MatchCovers(r, q, other, false, k);
        }
      } else if q < k + |frag| {
        if q + |other| <= k + |frag| {
          assert r[..|pf|] == pf;
          MatchesAtPrefix(r, |pf|, q, other, false);
          MatchesAtShift(s[..k], frag, q - k, q, other, false);
        } else if MatchesAt(r, q, other, false) {
          var x := k + |frag| - 1;
          MatchCovers(r, q, other, false, x);
        }
      } else {
        MatchesAtShift(pf, r2, q - |pf|, q, other, false);
      }
    }
    FindFromNone(r, other, false, 0);
  }

  /** A counterexample to "fragments without placeholder text leave no
      placeholder": an empty fragment joins the text around a token. */
  lemma {:induction false} EmptyFragmentJoinsNeighbours()
    ensures ReplaceAll("<%= he" + HEAD_TOKEN + "ad %>", HEAD_TOKEN, "") == HEAD_TOKEN
  {
    var s := "<%= he" + HEAD_TOKEN + "ad %>";
    TokenFirstAtSix(s);
    ReplaceAllSplit(s, HEAD_TOKEN, "");
    assert s[17..] == "ad %>";
    ShortTextUnchanged("ad %>", HEAD_TOKEN, "");
    assert s[..6] + "" + "ad %>" == HEAD_TOKEN;
  }

  lemma {:induction false} TokenFirstAtSix(s: seq<char>)
    requires s == "<%= he" + HEAD_TOKEN + "ad %>"
    ensures FindFrom(s, HEAD_TOKEN, false, 0) == Some(6)
  {
    assert s == "<%= he<%= head %>ad %>";
    NoTokenAtStart(s);
    NoTokenBeforeSix(s);
    TokenAtSix(s);
    FindFromIs(s, HEAD_TOKEN, false, 0, 6);
  }

  lemma {:induction false} NoTokenBeforeSix(s: seq<char>)
    requires s == "<%= he<%= head %>ad %>"
    ensures forall q: nat :: 0 < q < 6 ==> !MatchesAt(s, q, HEAD_TOKEN, false)
  {
    forall q: nat | 0 < q < 6 ensures !MatchesAt(s, q, HEAD_TOKEN, false) {
      assert s[q] != '<';
      assert s[q..q + 11][0] == s[q];
    }
  }

  lemma {:induction false} TokenAtSix(s: seq<char>)
    requires s == "<%= he<%= head %>ad %>"
    ensures MatchesAt(s, 6, HEAD_TOKEN, false)
  {
    MatchesAtExact(s, 6, HEAD_TOKEN);
    assert s[6..17] == HEAD_TOKEN;
  }

  lemma {:induction false} NoTokenAtStart(s: seq<char>)
    requires s == "<%= he<%= head %>ad %>"
    ensures !MatchesAt(s, 0, HEAD_TOKEN, false)
  {
    MatchesAtExact(s, 0, HEAD_TOKEN);
    assert s[0..11][6] == '<';
  }

  lemma {:induction false} ShortTextUnchanged(s: seq<char>, tok: seq<char>, frag: seq<char>)
    requires 0 < |s| < |tok|
    ensures ReplaceAll(s, tok, frag) == s
  {
    FindFromNone(s, tok, false, 0);
    ReplaceAllSplit(s, tok, frag);
  }

  /** The replacement text inserted for one match of a pattern without
      capture groups (the GetSubstitution operation of ECMA-262, section
      22.1.3.19.1 of the 2024 edition): `$$` stands for `$`, `$&` for the
      matched text, and `$` followed by anything else (digits and `<`
      included, as there are no groups to refer to) is copied literally.
      `$\`` and `$'` insert text around the match, which this model does not
      cover: `None`. */
  function Expand(r: seq<char>, matched: seq<char>): (e: Option<seq<char>>)
    decreases |r|
  {
    if r == [] then Some([])
    else if r[0] == '$' && |r| >= 2 && (r[1] == '`' || r[1] == '\'') then None
    else if r[0] == '$' && |r| >= 2 && r[1] == '$' then Prepend("$", Expand(r[2..], matched))
    else if r[0] == '$' && |r| >= 2 && r[1] == '&' then Prepend(matched, Expand(r[2..], matched))
    else Prepend([r[0]], Expand(r[1..], matched))
  }

  function Prepend(p: seq<char>, e: Option<seq<char>>): (r: Option<seq<char>>)
    ensures r.Some? <==> e.Some?
    ensures r.Some? ==> r.value == p + e.value
  {
    if e.Some? then Some(p + e.value) else None
  }

  /** A replacement text without `$` is inserted verbatim. */
  lemma {:induction false} ExpandLiteral(r: seq<char>, matched: seq<char>)
    requires '$' !in r
    ensures Expand(r, matched) == Some(r)
    decreases |r|
  {
    if r != [] {
      assert r[0] != '$';
      assert r == [r[0]] + r[1..];
      ExpandLiteral(r[1..], matched);
    }
  }

  /** The replacement text that inserts `r` verbatim: every `$` doubled. */
  function Escape(r: seq<char>): (e: seq<char>)
    decreases |r|
  {
    if r == [] then []
    else if r[0] == '$' then "$$" + Escape(r[1..])
    else [r[0]] + Escape(r[1..])
  }

  /** `$$` collapses to a single dollar sign: expanding an escaped text
      gives the text back, whatever the matched token. */
  lemma {:induction false} ExpandEscaped(r: seq<char>, matched: seq<char>)
    ensures Expand(Escape(r), matched) == Some(r)
    decreases |r|
  {
    if r != [] {
      var e := Escape(r[1..]);
      ExpandEscaped(r[1..], matched);
      if r[0] == '$' {
        assert Escape(r) == "$$" + e;
        assert ("$$" + e)[2..] == e;
      } else {
        assert Escape(r) == [r[0]] + e;
        assert ([r[0]] + e)[1..] == e;
      }
      assert r == [r[0]] + r[1..];
    }
  }

  /** The three template files: the contents read from `templates/head.html`,
      `templates/header.html` and `templates/footer.html`. */
  datatype Templates = Templates(head: seq<char>, header: seq<char>, footer: seq<char>)

  /** Every template's replacement text is covered by `Expand`. */
  predicate Expandable(t: Templates) {
    && Expand(t.head, HEAD_TOKEN).Some?
    && Expand(t.header, HEADER_TOKEN).Some?
    && Expand(t.footer, FOOTER_TOKEN).Some?
  }

  /** The texts actually inserted for the three placeholders. */
  function Inserted(t: Templates): (r: Templates)
    requires Expandable(t)
  {
    Templates(Expand(t.head, HEAD_TOKEN).value, Expand(t.header, HEADER_TOKEN).value,
              Expand(t.footer, FOOTER_TOKEN).value)
  }

  /** Templates without `$` are inserted verbatim. */
  lemma {:induction false} InsertedLiteral(t: Templates)
    requires '$' !in t.head && '$' !in t.header && '$' !in t.footer
    ensures Expandable(t) && Inserted(t) == t
  {
    ExpandLiteral(t.head, HEAD_TOKEN);
    ExpandLiteral(t.header, HEADER_TOKEN);
    ExpandLiteral(t.footer, FOOTER_TOKEN);
  }

  /** The three replacements, in the order head, header, footer. */
  function Substitute(t: Templates, s: seq<char>): (r: seq<char>)
    requires Expandable(t)
  {
    var i := Inserted(t);
    ReplaceAll(ReplaceAll(ReplaceAll(s, HEAD_TOKEN, i.head), HEADER_TOKEN, i.header), FOOTER_TOKEN, i.footer)
  }

  /** The page contains at least one of the three placeholders. */
  predicate HasPlaceholder(s: seq<char>) {
    Contains(s, HEAD_TOKEN) || Contains(s, HEADER_TOKEN) || Contains(s, FOOTER_TOKEN)
  }

  /** The inserted texts cannot form a placeholder that a later replacement
      would not remove: each inserted text is inert for its own token and for
      the tokens replaced before it. */
  predicate SafeTemplates(t: Templates)
    requires Expandable(t)
  {
    var i := Inserted(t);
    && Inert(i.head, HEAD_TOKEN)
    && Inert(i.header, HEAD_TOKEN) && Inert(i.header, HEADER_TOKEN)
    && Inert(i.footer, HEAD_TOKEN) && Inert(i.footer, HEADER_TOKEN) && Inert(i.footer, FOOTER_TOKEN)
  }

  /** A page without placeholders is returned unchanged. */
  lemma {:induction false} SubstitutePassThrough(t: Templates, s: seq<char>)
    requires Expandable(t) && !HasPlaceholder(s)
    ensures Substitute(t, s) == s
  {
    var i := Inserted(t);
    NoTokenUnchanged(s, HEAD_TOKEN, i.head);
    NoTokenUnchanged(s, HEADER_TOKEN, i.header);
    NoTokenUnchanged(s, FOOTER_TOKEN, i.footer);
  }

  /** With safe templates no placeholder survives the substitution. */
  lemma {:induction false} SubstituteComplete(t: Templates, s: seq<char>)
    requires Expandable(t) && SafeTemplates(t)
    ensures !HasPlaceholder(Substitute(t, s))
  {
    var i := Inserted(t);
    var s1 := ReplaceAll(s, HEAD_TOKEN, i.head);
    var s2 := ReplaceAll(s1, HEADER_TOKEN, i.header);
    var s3 := ReplaceAll(s2, FOOTER_TOKEN, i.footer);
    ReplaceAllLeavesNone(s, HEAD_TOKEN, i.head, HEAD_TOKEN);
    ReplaceAllLeavesNone(s1, HEADER_TOKEN, i.header, HEAD_TOKEN);
    ReplaceAllLeavesNone(s1, HEADER_TOKEN, i.header, HEADER_TOKEN);
    ReplaceAllLeavesNone(s2, FOOTER_TOKEN, i.footer, HEAD_TOKEN);
    ReplaceAllLeavesNone(s2, FOOTER_TOKEN, i.footer, HEADER_TOKEN);
    ReplaceAllLeavesNone(s2, FOOTER_TOKEN, i.footer, FOOTER_TOKEN);
  }

  /** With safe templates, substituting twice is substituting once. */
  lemma {:induction false} SubstituteIdempotent(t: Templates, s: seq<char>)
    requires Expandable(t) && SafeTemplates(t)
    ensures Substitute(t, Substitute(t, s)) == Substitute(t, s)
  {
    SubstituteComplete(t, s);
    SubstitutePassThrough(t, Substitute(t, s));
  }
}
