/** The development server's `inject-templates` plugin (vite.config.js): its
    `transformIndexHtml` handler applies the three replacements to every
    page it serves, with the templates read once when the configuration is
    loaded. */
module DevServer {
  import opened Text
  import opened Substitution
  import opened Build

  /** `handler(html)`: a function of the page alone, the templates being
      fixed at load time. */
  function Handler(t: Templates, html: seq<char>): (r: seq<char>)
    requires Expandable(t)
  {
    Substitute(t, html)
  }

  /** The server shows each page exactly as the build writes it. */
  lemma HandlerAgreesWithBuild(t: Templates, html: seq<char>)
    requires Expandable(t)
    ensures Handler(t, html) == BuildContent(t, html)
  {
    GuardRedundant(t, html);
  }

  /** A page without placeholders is served unchanged. */
  lemma HandlerPassThrough(t: Templates, html: seq<char>)
    requires Expandable(t) && !HasPlaceholder(html)
    ensures Handler(t, html) == html
  {
    SubstitutePassThrough(t, html);
  }

  /** With safe templates every placeholder is replaced. */
  lemma HandlerComplete(t: Templates, html: seq<char>)
    requires Expandable(t) && SafeTemplates(t)
    ensures !HasPlaceholder(Handler(t, html))
  {
    SubstituteComplete(t, html);
  }

  /** With safe templates, transforming a served page again changes nothing. */
  lemma HandlerIdempotent(t: Templates, html: seq<char>)
    requires Expandable(t) && SafeTemplates(t)
    ensures Handler(t, Handler(t, html)) == Handler(t, html)
  {
    SubstituteIdempotent(t, html);
  }

  /** Templates without placeholder text are not enough for idempotence: an
      empty head template joins `<%= he` and `ad %>` into a new placeholder,
      which the next transformation removes. */
  lemma HandlerNotIdempotentForEmptyHead()
    ensures var t := Templates("", ">", ">");
      && Expandable(t) && !HasPlaceholder(t.head) && !HasPlaceholder(t.header) && !HasPlaceholder(t.footer)
      && Handler(t, "<%= he" + HEAD_TOKEN + "ad %>") == HEAD_TOKEN
      && Handler(t, HEAD_TOKEN) == []
  {
    var t := Templates("", ">", ">");
    InsertedLiteral(t);
    NoPlaceholderInShort(t.head);
    NoPlaceholderInShort(t.header);
    EmptyFragmentJoinsNeighbours();
    NoPlaceholderInShort(HEAD_TOKEN);
    NoTokenUnchanged(HEAD_TOKEN, HEADER_TOKEN, ">");
    NoTokenUnchanged(HEAD_TOKEN, FOOTER_TOKEN, ">");
    HeadTokenErased();
    NoPlaceholderInShort([]);
    NoTokenUnchanged([], HEADER_TOKEN, ">");
    NoTokenUnchanged([], FOOTER_TOKEN, ">");
  }

  /** A text shorter than the header and footer placeholders contains
      neither. */
  lemma NoPlaceholderInShort(s: seq<char>)
    requires |s| <= |HEAD_TOKEN|
    ensures !Contains(s, HEADER_TOKEN) && !Contains(s, FOOTER_TOKEN)
    ensures |s| < |HEAD_TOKEN| ==> !Contains(s, HEAD_TOKEN)
  {
  }

  lemma HeadTokenErased()
    ensures ReplaceAll(HEAD_TOKEN, HEAD_TOKEN, []) == []
  {
    WholeTokenReplaced(HEAD_TOKEN, []);
  }
}
