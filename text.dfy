/** Character classes and literal matching shared by every script of the site.

    A document is a `seq<char>`. The scripts' regular expressions only ever use
    fixed literals, `\s`, `.` and `[^>]`, so they are modelled here by explicit
    "find the first position" functions rather than by a regex engine. */
module Text {

  datatype Option<T> = None | Some(value: T)

  /** ECMAScript LineTerminator: the characters that `.` does not match. */
  predicate IsLineTerminator(c: char) {
    c == '\n' || c == '\r' || c == '\U{2028}' || c == '\U{2029}'
  }

  /** ECMAScript `\s`: WhiteSpace (including every Zs space) and LineTerminator. */
  predicate IsWs(c: char) {
    || c == '\t' || c == '\U{B}' || c == '\U{C}' || c == ' ' || c == '\U{A0}'
    || c == '\U{1680}' || ('\U{2000}' <= c <= '\U{200A}') || c == '\U{202F}'
    || c == '\U{205F}' || c == '\U{3000}' || c == '\U{FEFF}'
    || IsLineTerminator(c)
  }

  /** ASCII lower-casing. Under the `i` flag (without `u`) a pattern character
      that is ASCII only ever matches ASCII characters, so this is the whole of
      the case folding the scripts' patterns need. */
  function Lower(c: char): (r: char) {
    if 'A' <= c <= 'Z' then (c as int + 32) as char else c
  }

  /** Document character `c` matches pattern character `l`; with `ci` the
      pattern character is written in lower case. */
  predicate CharMatches(c: char, l: char, ci: bool) {
    if ci then Lower(c) == l else c == l
  }

  /** The text `u` is the literal `lit`, character by character. */
  predicate Matches(u: seq<char>, lit: seq<char>, ci: bool)
    decreases |u|
  {
    |u| == |lit| && (|u| == 0 || (CharMatches(u[0], lit[0], ci) && Matches(u[1..], lit[1..], ci)))
  }

  lemma {:induction false} MatchesChar(u: seq<char>, lit: seq<char>, ci: bool, k: nat)
    requires Matches(u, lit, ci) && k < |u|
    ensures CharMatches(u[k], lit[k], ci)
    decreases k
  {
    if k > 0 {
      MatchesChar(u[1..], lit[1..], ci, k - 1);
    }
  }

  /** Exact matching is equality. */
  lemma {:induction false} MatchesExact(u: seq<char>, lit: seq<char>)
    ensures Matches(u, lit, false) <==> u == lit
    decreases |u|
  {
    if |u| > 0 && |u| == |lit| {
      MatchesExact(u[1..], lit[1..]);
      assert u == [u[0]] + u[1..];
      assert lit == [lit[0]] + lit[1..];
    }
  }

  /** The literal `lit` occurs in `s` at position `q`. */
  predicate MatchesAt(s: seq<char>, q: nat, lit: seq<char>, ci: bool) {
    q + |lit| <= |s| && Matches(s[q..q + |lit|], lit, ci)
  }

  /** Exact matching at a position is equality of the slice. */
  lemma {:induction false} MatchesAtExact(s: seq<char>, q: nat, lit: seq<char>)
    ensures MatchesAt(s, q, lit, false) <==> q + |lit| <= |s| && s[q..q + |lit|] == lit
  {
    if q + |lit| <= |s| {
      MatchesExact(s[q..q + |lit|], lit);
    }
  }

  /** First occurrence of `lit` in `s` at or after `from`. */
  function FindFrom(s: seq<char>, lit: seq<char>, ci: bool, from: nat): (r: Option<nat>)
    decreases |s| - from
    ensures r.Some? ==> from <= r.value && r.value + |lit| <= |s|
  {
    if from + |lit| > |s| then None
    else if MatchesAt(s, from, lit, ci) then Some(from)
    else FindFrom(s, lit, ci, from + 1)
  }

  /** `FindFrom` finds an occurrence with none before it, or reports that
      there is none at all. */
  lemma {:induction false} FindFromSpec(s: seq<char>, lit: seq<char>, ci: bool, from: nat)
    ensures FindFrom(s, lit, ci, from).Some? ==> MatchesAt(s, FindFrom(s, lit, ci, from).value, lit, ci)
    ensures FindFrom(s, lit, ci, from).Some? ==>
      forall q: nat :: from <= q < FindFrom(s, lit, ci, from).value ==> !MatchesAt(s, q, lit, ci)
    ensures FindFrom(s, lit, ci, from).None? ==> forall q: nat :: from <= q ==> !MatchesAt(s, q, lit, ci)
    decreases |s| - from
  {
    if from + |lit| <= |s| && !MatchesAt(s, from, lit, ci) {
      FindFromSpec(s, lit, ci, from + 1);
    }
  }

  /** `String.prototype.includes`: exact, case-sensitive containment. */
  predicate Contains(s: seq<char>, lit: seq<char>) {
    FindFrom(s, lit, false, 0).Some?
  }

  /** End of the run of `\s` characters that starts at `from` (greedy `\s*`). */
  function WsEnd(s: seq<char>, from: nat): (r: nat)
    requires from <= |s|
    decreases |s| - from
    ensures from <= r <= |s|
  {
    if from == |s| || !IsWs(s[from]) then from else WsEnd(s, from + 1)
  }

  /** The run `WsEnd` skips is whitespace, and ends at a character that is
      not. */
  lemma {:induction false} WsEndSpec(s: seq<char>, from: nat)
    requires from <= |s|
    ensures forall x :: from <= x < WsEnd(s, from) ==> IsWs(s[x])
    ensures WsEnd(s, from) < |s| ==> !IsWs(s[WsEnd(s, from)])
    decreases |s| - from
  {
    if from < |s| && IsWs(s[from]) {
      WsEndSpec(s, from + 1);
    }
  }

  /** Start of the run of `\s` characters that ends at `p`: the leftmost start
      from which a greedy `\s*` reaches `p`. */
  function WsStart(s: seq<char>, p: nat): (r: nat)
    requires p <= |s|
    ensures r <= p
  {
    if p == 0 || !IsWs(s[p - 1]) then p else WsStart(s, p - 1)
  }

  /** The run before `p` from `WsStart` is whitespace, and follows a
      character that is not. */
  lemma {:induction false} WsStartSpec(s: seq<char>, p: nat)
    requires p <= |s|
    ensures forall x :: WsStart(s, p) <= x < p ==> IsWs(s[x])
    ensures WsStart(s, p) > 0 ==> !IsWs(s[WsStart(s, p) - 1])
  {
    if p > 0 && IsWs(s[p - 1]) {
      WsStartSpec(s, p - 1);
    }
  }

  /** First line terminator at or after `from`, or the end of `s`. */
  function LineEnd(s: seq<char>, from: nat): (r: nat)
    requires from <= |s|
    decreases |s| - from
    ensures from <= r <= |s|
  {
    if from == |s| || IsLineTerminator(s[from]) then from else LineEnd(s, from + 1)
  }

  /** No line terminator lies before `LineEnd`, and one lies at it unless
      it is the end of `s`. */
  lemma {:induction false} LineEndSpec(s: seq<char>, from: nat)
    requires from <= |s|
    ensures forall x :: from <= x < LineEnd(s, from) ==> !IsLineTerminator(s[x])
    ensures LineEnd(s, from) < |s| ==> IsLineTerminator(s[LineEnd(s, from)])
    decreases |s| - from
  {
    if from < |s| && !IsLineTerminator(s[from]) {
      LineEndSpec(s, from + 1);
    }
  }

  /** `.*?` followed by `lit`: the first occurrence of `lit` at or after `from`
      such that no line terminator lies between `from` and it. */
  function FindOnLine(s: seq<char>, lit: seq<char>, ci: bool, from: nat): (r: Option<nat>)
    requires from <= |s|
    ensures r.Some? ==> from <= r.value && MatchesAt(s, r.value, lit, ci)
    ensures r.Some? ==> forall x :: from <= x < r.value ==> !IsLineTerminator(s[x])
    ensures r.Some? ==> forall q: nat :: from <= q < r.value ==> !MatchesAt(s, q, lit, ci)
    ensures r.None? ==> forall q: nat ::
      from <= q && MatchesAt(s, q, lit, ci) ==> exists x :: from <= x < q && IsLineTerminator(s[x])
  {
    var e := LineEnd(s, from);
    LineEndSpec(s, from);
    FindFromSpec(s, lit, ci, from);
    match FindFrom(s, lit, ci, from)
    case None => None
    case Some(q) =>
      if q <= e then Some(q)
      else
        assert forall q': nat :: from <= q' && MatchesAt(s, q', lit, ci) ==> q' >= q > e && from <= e < q';
        None
  }

  // ---------------------------------------------------------------------------
  // Helper lemmas about literal matching. They characterise the search
  // functions above by their contracts and relate matches in different texts.

  /** The occurrence with none before it is the one `FindFrom` finds. */
  lemma {:induction false} FindFromIs(s: seq<char>, lit: seq<char>, ci: bool, from: nat, q: nat)
    requires from <= q && MatchesAt(s, q, lit, ci)
    requires forall q': nat :: from <= q' < q ==> !MatchesAt(s, q', lit, ci)
    ensures FindFrom(s, lit, ci, from) == Some(q)
    decreases q - from
  {
    if from < q {
      FindFromIs(s, lit, ci, from + 1, q);
    }
  }

  /** A search that does not match at `from` continues at `from + 1`. */
  lemma {:induction false} FindFromSkip(s: seq<char>, lit: seq<char>, ci: bool, from: nat)
    requires !MatchesAt(s, from, lit, ci)
    ensures FindFrom(s, lit, ci, from) == FindFrom(s, lit, ci, from + 1)
  {
  }

  /** What a suffix contains, the whole text contains. */
  lemma {:induction false} ContainsSuffix(s: seq<char>, n: nat, lit: seq<char>)
    requires n <= |s| && Contains(s[n..], lit)
    ensures Contains(s, lit)
  {
    assert s == s[..n] + s[n..];
    FindFromShift(s[..n], s[n..], lit, false, 0);
    FindFromSpec(s, lit, false, n);
    FindFromSpec(s, lit, false, 0);
  }

  /** With no occurrence at or after `from` the search finds none. */
  lemma {:induction false} FindFromNone(s: seq<char>, lit: seq<char>, ci: bool, from: nat)
    requires forall q: nat :: from <= q ==> !MatchesAt(s, q, lit, ci)
    ensures FindFrom(s, lit, ci, from) == None
  {
    FindFromSpec(s, lit, ci, from);
  }

  /** A match only reads the characters it covers. */
  lemma {:induction false} MatchesAtSame(s: seq<char>, t: seq<char>, q: nat, lit: seq<char>, ci: bool)
    requires q + |lit| <= |s| && q + |lit| <= |t|
    requires s[q..q + |lit|] == t[q..q + |lit|]
    ensures MatchesAt(s, q, lit, ci) == MatchesAt(t, q, lit, ci)
  {
  }

  /** Matching in `a + b` at or after `|a|` is matching in `b`. */
  lemma {:induction false} MatchesAtShift(a: seq<char>, b: seq<char>, q: nat, q': nat, lit: seq<char>, ci: bool)
    requires q' == |a| + q
    ensures MatchesAt(a + b, q', lit, ci) == MatchesAt(b, q, lit, ci)
  {
    if q + |lit| <= |b| {
      assert (a + b)[q'..q' + |lit|] == b[q..q + |lit|];
    }
  }

  /** Matching in a prefix `s[..n]` is matching in `s`, for matches inside it. */
  lemma {:induction false} MatchesAtPrefix(s: seq<char>, n: nat, q: nat, lit: seq<char>, ci: bool)
    requires n <= |s|
    ensures MatchesAt(s[..n], q, lit, ci) == (q + |lit| <= n && MatchesAt(s, q, lit, ci))
  {
    if q + |lit| <= n {
      assert s[..n][q..q + |lit|] == s[q..q + |lit|];
    }
  }

  /** A match covers only characters that match the literal at that offset. */
  lemma {:induction false} MatchCovers(s: seq<char>, q: nat, lit: seq<char>, ci: bool, x: nat)
    requires MatchesAt(s, q, lit, ci) && q <= x < q + |lit|
    ensures CharMatches(s[x], lit[x - q], ci)
  {
    MatchesChar(s[q..q + |lit|], lit, ci, x - q);
    assert s[q..q + |lit|][x - q] == s[x];
  }

  /** A literal opening a tag starts at a `<`, which is not whitespace. */
  lemma {:induction false} OpensAt(s: seq<char>, q: nat, lit: seq<char>)
    requires |lit| > 0 && lit[0] == '<' && MatchesAt(s, q, lit, true)
    ensures s[q] == '<' && !IsWs(s[q])
  {
    MatchCovers(s, q, lit, true, q);
  }

  /** Searches agree in two texts that agree up to the end of the match found. */
  lemma {:induction false} FindFromSame(s: seq<char>, t: seq<char>, lit: seq<char>, ci: bool, from: nat, n: nat)
    requires n <= |s| && n <= |t| && s[..n] == t[..n]
    requires FindFrom(s, lit, ci, from).Some? && FindFrom(s, lit, ci, from).value + |lit| <= n
    ensures FindFrom(t, lit, ci, from) == FindFrom(s, lit, ci, from)
  {
    var q := FindFrom(s, lit, ci, from).value;
    FindFromSpec(s, lit, ci, from);
    forall q': nat | from <= q' <= q ensures MatchesAt(s, q', lit, ci) == MatchesAt(t, q', lit, ci) {
      assert s[q'..q' + |lit|] == s[..n][q'..q' + |lit|];
      assert t[q'..q' + |lit|] == t[..n][q'..q' + |lit|];
      MatchesAtSame(s, t, q', lit, ci);
    }
    FindFromIs(t, lit, ci, from, q);
  }

  /** Searching `a + b` from a position inside `b` is searching `b`. */
  lemma {:induction false} FindFromShift(a: seq<char>, b: seq<char>, lit: seq<char>, ci: bool, from: nat)
    ensures FindFrom(b, lit, ci, from).None? ==> FindFrom(a + b, lit, ci, |a| + from).None?
    ensures FindFrom(b, lit, ci, from).Some? ==>
      FindFrom(a + b, lit, ci, |a| + from) == Some(|a| + FindFrom(b, lit, ci, from).value)
  {
    if FindFrom(b, lit, ci, from).None? {
      FindFromShiftNone(a, b, lit, ci, from, |a| + from);
    } else {
      var q := FindFrom(b, lit, ci, from).value;
      FindFromShiftSome(a, b, lit, ci, from, q, |a| + from, |a| + q);
    }
  }

  lemma {:induction false} FindFromShiftNone(a: seq<char>, b: seq<char>, lit: seq<char>, ci: bool, from: nat, from': nat)
    requires FindFrom(b, lit, ci, from).None? && from' == |a| + from
    ensures FindFrom(a + b, lit, ci, from').None?
  {
    FindFromSpec(b, lit, ci, from);
    NoMatchShifted(a, b, lit, ci, from, |b| + 1, from');
    FindFromNone(a + b, lit, ci, from');
  }

  lemma {:induction false} FindFromShiftSome(a: seq<char>, b: seq<char>, lit: seq<char>, ci: bool, from: nat, q: nat, from': nat, q': nat)
    requires FindFrom(b, lit, ci, from) == Some(q) && from' == |a| + from && q' == |a| + q
    ensures FindFrom(a + b, lit, ci, from') == Some(q')
  {
    FindFromSpec(b, lit, ci, from);
    NoMatchShifted(a, b, lit, ci, from, q, from');
    MatchesAtShift(a, b, q, q', lit, ci);
    FindFromIs(a + b, lit, ci, from', q');
  }

  lemma {:induction false} NoMatchShifted(a: seq<char>, b: seq<char>, lit: seq<char>, ci: bool, from: nat, bound: nat, from': nat)
    requires from' == |a| + from
    requires forall q: nat :: from <= q < bound ==> !MatchesAt(b, q, lit, ci)
    requires bound > |b| ==> forall q: nat :: from <= q ==> !MatchesAt(b, q, lit, ci)
    ensures forall q: nat :: from' <= q < |a| + bound ==> !MatchesAt(a + b, q, lit, ci)
    ensures bound > |b| ==> forall q: nat :: from' <= q ==> !MatchesAt(a + b, q, lit, ci)
  {
    forall q: nat | from' <= q && (q < |a| + bound || bound > |b|)
      ensures !MatchesAt(a + b, q, lit, ci)
    {
      MatchesAtShift(a, b, q - |a|, q, lit, ci);
    }
  }

  /** A whitespace run from `from` to a non-whitespace character (or the
      end) is the one `WsEnd` skips. */
  lemma {:induction false} WsEndIs(s: seq<char>, from: nat, r: nat)
    requires from <= r <= |s|
    requires forall x :: from <= x < r ==> IsWs(s[x])
    requires r < |s| ==> !IsWs(s[r])
    ensures WsEnd(s, from) == r
    decreases r - from
  {
    if from < r {
      WsEndIs(s, from + 1, r);
    }
  }

  /** A whitespace run up to `p` after a non-whitespace character (or the
      start) is the one `WsStart` finds. */
  lemma {:induction false} WsStartIs(s: seq<char>, p: nat, r: nat)
    requires r <= p <= |s|
    requires forall x :: r <= x < p ==> IsWs(s[x])
    requires r > 0 ==> !IsWs(s[r - 1])
    ensures WsStart(s, p) == r
    decreases p - r
  {
    if r < p {
      WsStartIs(s, p - 1, r);
    }
  }

  /** What a prefix contains, the whole text contains. */
  lemma {:induction false} ContainsPrefix(s: seq<char>, n: nat, lit: seq<char>)
    requires n <= |s| && Contains(s[..n], lit)
    ensures Contains(s, lit)
  {
    FindFromSpec(s[..n], lit, false, 0);
    var q := FindFrom(s[..n], lit, false, 0).value;
    MatchesAtPrefix(s, n, q, lit, false);
    FindFromSpec(s, lit, false, 0);
  }

  /** An inserted text that no occurrence of `lit` can touch: it starts with
      a newline, which `lit` does not contain, and each `<` in it is followed
      by a character that cannot come second in `lit`, which starts with `<`.
      An occurrence covering the inserted text's first character, or
      starting inside it, is then impossible. */
  predicate Sealed(ins: seq<char>, lit: seq<char>, ci: bool) {
    && |ins| > 0 && ins[0] == '\n'
    && |lit| >= 2 && lit[0] == '<'
    && (forall x :: 0 <= x < |lit| ==> lit[x] != '\n')
    && (forall o :: 0 <= o < |ins| && ins[o] == '<' ==> o + 1 < |ins| && !CharMatches(ins[o + 1], lit[1], ci))
  }

  /** The occurrences of `lit` in `s[..a] + ins + s[b..]`, for a sealed
      `ins`, are those of `s` that lie wholly before `a`, and those of `s` at
      or after `b`, moved by the change in length. */
  lemma {:induction false} EditMatchesAt(s: seq<char>, a: nat, b: nat, ins: seq<char>, lit: seq<char>, ci: bool, q: nat)
    requires a <= b <= |s| && Sealed(ins, lit, ci)
    ensures MatchesAt(s[..a] + ins + s[b..], q, lit, ci) <==>
      (q + |lit| <= a && MatchesAt(s, q, lit, ci)) ||
      (a + |ins| <= q && MatchesAt(s, q - a - |ins| + b, lit, ci))
  {
    var t := s[..a] + ins + s[b..];
    var pre := s[..a] + ins;
    assert t == pre + s[b..];
    if q + |lit| <= a {
      assert t[q..q + |lit|] == s[q..q + |lit|];
      MatchesAtSame(t, s, q, lit, ci);
    } else if q < a {
      if MatchesAt(t, q, lit, ci) {
        MatchCovers(t, q, lit, ci, a);
      }
    } else if q < a + |ins| {
      if MatchesAt(t, q, lit, ci) {
        MatchCovers(t, q, lit, ci, q);
        MatchCovers(t, q, lit, ci, q + 1);
      }
    } else {
      EditMatchesAfter(s, a, b, ins, lit, ci, q, q - a - |ins| + b);
    }
  }

  /** Past the inserted text, the occurrences are those of `s` from `b`
      on, moved by the change in length. */
  lemma {:induction false} EditMatchesAfter(s: seq<char>, a: nat, b: nat, ins: seq<char>, lit: seq<char>, ci: bool, q: nat, q0: nat)
    requires a <= b <= |s| && a + |ins| <= q && q0 == q - a - |ins| + b
    ensures MatchesAt(s[..a] + ins + s[b..], q, lit, ci) == MatchesAt(s, q0, lit, ci)
  {
    var pre := s[..a] + ins;
    assert s[..a] + ins + s[b..] == pre + s[b..];
    MatchesAtShift(pre, s[b..], q - |pre|, q, lit, ci);
    assert s == s[..b] + s[b..];
    MatchesAtShift(s[..b], s[b..], q - |pre|, q0, lit, ci);
  }

  /** A text holding `lit` at `q` contains it. */
  lemma {:induction false} ContainsAt(s: seq<char>, q: nat, lit: seq<char>)
    requires q + |lit| <= |s| && s[q..q + |lit|] == lit
    ensures Contains(s, lit)
  {
    MatchesAtExact(s, q, lit);
    FindFromSpec(s, lit, false, 0);
  }

  /** A search skips a stretch without occurrences. */
  lemma {:induction false} FindFromJump(s: seq<char>, lit: seq<char>, ci: bool, from: nat, upto: nat)
    requires from <= upto
    requires forall q: nat :: from <= q < upto ==> !MatchesAt(s, q, lit, ci)
    ensures FindFrom(s, lit, ci, from) == FindFrom(s, lit, ci, upto)
    decreases upto - from
  {
    if from < upto {
      FindFromSkip(s, lit, ci, from);
      FindFromJump(s, lit, ci, from + 1, upto);
    }
  }

  /** A whitespace run inside `b` ends at the same place in `a + b`. */
  lemma {:induction false} WsEndShift(a: seq<char>, b: seq<char>, x: nat, x': nat)
    requires x <= |b| && x' == |a| + x
    ensures WsEnd(a + b, x') == |a| + WsEnd(b, x)
  {
    var s, r := a + b, WsEnd(b, x);
    var p, q := x', |a| + r;
    WsEndSpec(b, x);
    forall y | p <= y < q ensures IsWs(s[y]) {
      assert s[y] == b[y - |a|];
    }
    if q < |s| {
      assert s[q] == b[r];
    }
    WsEndIs(s, p, q);
  }

  /** A whitespace run that ends inside `a` ends there in `a + b` too. */
  lemma {:induction false} WsEndPrefix(a: seq<char>, b: seq<char>, x: nat)
    requires x <= |a| && WsEnd(a, x) < |a|
    ensures WsEnd(a + b, x) == WsEnd(a, x)
  {
    WsEndSpec(a, x);
    WsEndIs(a + b, x, WsEnd(a, x));
  }

  /** A whitespace run before a position in `b` starts at the same place in
      `a + b` when `a` does not end with whitespace. */
  lemma {:induction false} WsStartShift(a: seq<char>, b: seq<char>, x: nat, x': nat)
    requires x <= |b| && x' == |a| + x && (|a| == 0 || !IsWs(a[|a| - 1]))
    ensures WsStart(a + b, x') == |a| + WsStart(b, x)
  {
    var s, r := a + b, WsStart(b, x);
    var p, q := x', |a| + r;
    WsStartSpec(b, x);
    forall y | q <= y < p ensures IsWs(s[y]) {
      assert s[y] == b[y - |a|];
    }
    if q > 0 {
      if r > 0 {
        assert s[q - 1] == b[r - 1];
      } else {
        assert s[q - 1] == a[|a| - 1];
      }
    }
    WsStartIs(s, p, q);
  }

  /** A whitespace run before a position in `a` starts at the same place in
      `a + b`. */
  lemma {:induction false} WsStartPrefix(a: seq<char>, b: seq<char>, x: nat)
    requires x <= |a|
    ensures WsStart(a + b, x) == WsStart(a, x)
  {
    WsStartSpec(a, x);
    WsStartIs(a + b, x, WsStart(a, x));
  }

  /** `lit` does not occur in `s` at all. */
  predicate Absent(s: seq<char>, lit: seq<char>, ci: bool) {
    FindFrom(s, lit, ci, 0).None?
  }

  /** A literal whose only `>` is its last character. */
  predicate ClosedBy(lit: seq<char>) {
    |lit| > 0 && lit[|lit| - 1] == '>' && '>' !in lit[..|lit| - 1]
  }

  /** No occurrence of such a literal runs across the end of a text that
      ends with `>`. */
  lemma {:induction false} NoMatchAcross(a: seq<char>, b: seq<char>, lit: seq<char>, ci: bool, q: nat)
    requires |a| > 0 && a[|a| - 1] == '>' && ClosedBy(lit) && q < |a| < q + |lit|
    ensures !MatchesAt(a + b, q, lit, ci)
  {
    if MatchesAt(a + b, q, lit, ci) {
      MatchCovers(a + b, q, lit, ci, |a| - 1);
    }
  }

  /** Joining two texts without occurrences, the first ending with `>`,
      forms none. */
  lemma {:induction false} AbsentJoin(a: seq<char>, b: seq<char>, lit: seq<char>, ci: bool)
    requires Absent(a, lit, ci) && Absent(b, lit, ci)
    requires |a| > 0 && a[|a| - 1] == '>' && ClosedBy(lit)
    ensures Absent(a + b, lit, ci)
  {
    FindFromSpec(a, lit, ci, 0);
    FindFromSpec(b, lit, ci, 0);
    forall q: nat ensures !MatchesAt(a + b, q, lit, ci) {
      if q + |lit| <= |a| {
        assert (a + b)[..|a|] == a;
        MatchesAtPrefix(a + b, |a|, q, lit, ci);
      } else if q < |a| {
        NoMatchAcross(a, b, lit, ci, q);
      } else {
        MatchesAtShift(a, b, q - |a|, q, lit, ci);
      }
    }
    FindFromNone(a + b, lit, ci, 0);
  }

  /** A sealed replacement forms no occurrence in a text that had none. */
  lemma {:induction false} AbsentAfterEdit(s: seq<char>, a: nat, b: nat, ins: seq<char>, lit: seq<char>, ci: bool)
    requires a <= b <= |s| && Absent(s, lit, ci) && Sealed(ins, lit, ci)
    ensures Absent(s[..a] + ins + s[b..], lit, ci)
  {
    FindFromSpec(s, lit, ci, 0);
    forall q: nat ensures !MatchesAt(s[..a] + ins + s[b..], q, lit, ci) {
      EditMatchesAt(s, a, b, ins, lit, ci, q);
    }
    FindFromNone(s[..a] + ins + s[b..], lit, ci, 0);
  }
}
