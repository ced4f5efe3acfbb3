/**
 * The `with_search_links` template filter: every hashtag- or username-like
 * token in a string becomes a link to a search for that token.
 *
 * The filter is one regular-expression substitution with the pattern
 * `[@|#]\w+` and a callback. Here the substitution is split in two: a
 * tokenizer that cuts the input into plain characters and matched tokens
 * (leftmost-first, greedy, non-overlapping, as the regular-expression engine
 * finds them), and a renderer that copies plain characters and turns each
 * token into an anchor element.
 */
module SearchLinks {

  // ---------------------------------------------------------------------------
  // The pattern `[@|#]\w+`
  // ---------------------------------------------------------------------------

  /** The `\w` class, restricted to ASCII: letters, digits and underscore. */
  predicate IsWordChar(c: char)
    ensures IsWordChar(c) ==> c != '@' && c != '#' && c != '|' && c != '<'
  {
    ('a' <= c <= 'z') || ('A' <= c <= 'Z') || ('0' <= c <= '9') || c == '_'
  }

  /** The class `[@|#]`: inside brackets `|` is a literal, not an alternation. */
  predicate IsPrefixChar(c: char)
    ensures IsPrefixChar(c) ==> !IsWordChar(c)
  {
    c == '@' || c == '|' || c == '#'
  }

  /** `t` is a whole match of `[@|#]\w+`. */
  predicate IsToken(t: string)
    ensures IsToken(t) ==> |t| >= 2 && !IsWordChar(t[0]) && forall k :: 0 <= k < |t| ==> t[k] != '<'
  {
    |t| >= 2 && IsPrefixChar(t[0]) && forall k :: 1 <= k < |t| ==> IsWordChar(t[k])
  }

  /** A match of the pattern begins at the first character of `s`. */
  predicate StartsToken(s: string)
  {
    |s| >= 2 && IsPrefixChar(s[0]) && IsWordChar(s[1])
  }

  lemma WordCharFacts()
    ensures forall c :: ('a' <= c <= 'z' || 'A' <= c <= 'Z' || '0' <= c <= '9' || c == '_') ==> IsWordChar(c)
    ensures !IsWordChar('@') && !IsWordChar('#') && !IsWordChar('|')
    ensures forall c :: IsPrefixChar(c) <==> (c == '@' || c == '#' || c == '|')
  {
  }

  /** Length of the longest run of word characters at the start of `s` (what `\w+` consumes greedily). */
  function WordRunLength(s: string): (n: nat)
    ensures n <= |s|
    ensures forall k :: 0 <= k < n ==> IsWordChar(s[k])
    ensures n == |s| || !IsWordChar(s[n])
  {
    if s == [] || !IsWordChar(s[0]) then 0 else 1 + WordRunLength(s[1..])
  }

  /** Length of the greedy match of `[@|#]\w+` anchored at the start of `s`; 0 when there is none. */
  function MatchLength(s: string): (n: nat)
    ensures n == 0 <==> !StartsToken(s)
    ensures n != 0 ==> n <= |s| && IsToken(s[..n]) && (n == |s| || !IsWordChar(s[n]))
  {
    if StartsToken(s) then 1 + WordRunLength(s[1..]) else 0
  }

  /** A token that begins `s` and is not followed by a word character is the greedy match there. */
  lemma MatchLengthOfMaximalToken(s: string, t: string)
    requires IsToken(t) && t <= s && (|t| == |s| || !IsWordChar(s[|t|]))
    ensures MatchLength(s) == |t|
  {
    assert s[0] == t[0] && s[1] == t[1];
  }

  // ---------------------------------------------------------------------------
  // Tokenizer
  // ---------------------------------------------------------------------------

  /** A piece of the input: one character outside every match, or one whole match. */
  datatype Segment = Plain(c: char) | Tag(token: string)

  /** The input text a segment covers. */
  function Text(seg: Segment): string {
    match seg
    case Plain(c) => [c]
    case Tag(t) => t
  }

  function Flatten(segs: seq<Segment>): string {
    if segs == [] then [] else Text(segs[0]) + Flatten(segs[1..])
  }

  /** Number of matches in a segmentation. */
  function TagCount(segs: seq<Segment>): nat {
    if segs == [] then 0 else (if segs[0].Tag? then 1 else 0) + TagCount(segs[1..])
  }

  /**
   * `segs` cuts `s` the way a left-to-right substitution does: scanning from
   * the left, a character is copied when no match begins at it, and otherwise
   * the longest match beginning there is taken whole and scanning resumes
   * after it.
   */
  predicate Conforms(segs: seq<Segment>, s: string)
    decreases |segs|
  {
    if segs == [] then s == []
    else match segs[0]
      case Plain(c) =>
        s != [] && s[0] == c && !StartsToken(s) && Conforms(segs[1..], s[1..])
      case Tag(t) =>
        IsToken(t) && t <= s && (|t| == |s| || !IsWordChar(s[|t|])) && Conforms(segs[1..], s[|t|..])
  }

  /** The segmentation `re.sub` walks through: leftmost match first, greedy, no overlap. */
  function Tokenize(s: string): (segs: seq<Segment>)
    ensures Flatten(segs) == s
    decreases |s|
  {
    if s == [] then []
    else
      var n := MatchLength(s);
      if n == 0 then
        assert [s[0]] + s[1..] == s;
        [Plain(s[0])] + Tokenize(s[1..])
      else
        assert s[..n] + s[n..] == s;
        [Tag(s[..n])] + Tokenize(s[n..])
  }

  lemma {:induction false} TokenizeConforms(s: string)
    ensures Conforms(Tokenize(s), s)
    decreases |s|
  {
    if s != [] {
      var n := MatchLength(s);
      if n == 0 {
        TokenizeConforms(s[1..]);
        assert Tokenize(s)[1..] == Tokenize(s[1..]);
      } else {
        TokenizeConforms(s[n..]);
        assert Tokenize(s)[1..] == Tokenize(s[n..]);
      }
    }
  }

  /** There is exactly one leftmost-greedy segmentation of a string, and Tokenize computes it. */
  lemma {:induction false} ConformsUnique(segs: seq<Segment>, s: string)
    requires Conforms(segs, s)
    ensures segs == Tokenize(s)
    decreases |segs|
  {
    if segs != [] {
      match segs[0]
      case Plain(c) =>
        ConformsUnique(segs[1..], s[1..]);
        assert segs == [segs[0]] + segs[1..];
      case Tag(t) =>
        MatchLengthOfMaximalToken(s, t);
        assert s[..|t|] == t;
        ConformsUnique(segs[1..], s[|t|..]);
        assert segs == [segs[0]] + segs[1..];
    }
  }

  // ---------------------------------------------------------------------------
  // Link rendering
  // ---------------------------------------------------------------------------

  /** `url_for(endpoint, **{param: value})`, left uninterpreted. */
  type UrlFor = (string, string, string) -> string

  const POSTS_PATH_COMPONENT: string := "posts"
  const USERNAME_QUERY_PARAM: string := "username"
  const SEARCH_CONTENT_QUERY_PARAM: string := "search_content"

  /** Target of a token's link: a username search for `@…`, a content search for anything else. */
  function SearchUrl(token: string, urlFor: UrlFor): (url: string)
    ensures |token| > 0 && token[0] == '@' ==> url == urlFor("posts", "username", token)
    ensures |token| > 0 && token[0] != '@' ==> url == urlFor("posts", "search_content", token)
  {
    if |token| > 0 && token[0] == '@' then
      urlFor(POSTS_PATH_COMPONENT, USERNAME_QUERY_PARAM, token)
    else
      urlFor(POSTS_PATH_COMPONENT, SEARCH_CONTENT_QUERY_PARAM, token)
  }

  /** `SEARCH_LINK_TEMPLATE` filled with the token's url and the token itself as link text. */
  function SearchLink(token: string, urlFor: UrlFor): (link: string)
    ensures |link| == |SearchUrl(token, urlFor)| + |token| + 15
    ensures link[..9] == "<a href=\""
    ensures link[9..9 + |SearchUrl(token, urlFor)|] == SearchUrl(token, urlFor)
    ensures link[9 + |SearchUrl(token, urlFor)|..|link| - |token| - 4] == "\">"
    ensures link[|link| - |token| - 4..|link| - 4] == token
    ensures link[|link| - 4..] == "</a>"
  {
    "<a href=\"" + SearchUrl(token, urlFor) + "\">" + token + "</a>"
  }

  /** Plain pieces are copied, matches become links; with no match the input text comes back. */
  function Render(segs: seq<Segment>, urlFor: UrlFor): (r: string)
    ensures TagCount(segs) == 0 ==> r == Flatten(segs)
  {
    if segs == [] then []
    else
      (match segs[0]
       case Plain(c) => [c]
       case Tag(t) => SearchLink(t, urlFor))
      + Render(segs[1..], urlFor)
  }

  /** The filter: an empty string comes back as it is, otherwise every match is replaced by its link. */
  function WithSearchLinks(s: string, urlFor: UrlFor): (r: string)
    ensures s == [] ==> r == []
  {
    if s == [] then s else Render(Tokenize(s), urlFor)
  }

  // ---------------------------------------------------------------------------
  // Properties of the filter
  // ---------------------------------------------------------------------------

  /** A character at which no match begins is copied, and scanning goes on with the next one. */
  lemma PlainStep(s: string, urlFor: UrlFor)
    requires s != [] && !StartsToken(s)
    ensures WithSearchLinks(s, urlFor) == [s[0]] + WithSearchLinks(s[1..], urlFor)
  {
    var segs := Tokenize(s);
    assert segs == [Plain(s[0])] + Tokenize(s[1..]);
    assert segs[1..] == Tokenize(s[1..]);
    assert Render(segs, urlFor) == [s[0]] + Render(segs[1..], urlFor);
    if s[1..] == [] {
      assert Tokenize(s[1..]) == [];
    }
  }

  /** A string in which no match begins anywhere is returned verbatim. */
  lemma {:induction false} NoTokenUnchanged(s: string, urlFor: UrlFor)
    requires forall i :: 0 <= i < |s| ==> !StartsToken(s[i..])
    ensures WithSearchLinks(s, urlFor) == s
    decreases |s|
  {
    if s != [] {
      assert s[0..] == s;
      PlainStep(s, urlFor);
      forall i | 0 <= i < |s[1..]| ensures !StartsToken(s[1..][i..]) {
        assert s[1..][i..] == s[i + 1..];
      }
      NoTokenUnchanged(s[1..], urlFor);
      assert [s[0]] + s[1..] == s;
    }
  }

  /** No match begins at any of the first `k` characters of `s`. */
  predicate NoMatchBefore(s: string, k: nat)
    requires k <= |s|
  {
    forall i :: 0 <= i < k ==> !StartsToken(s[i..])
  }

  /** `f` copies the character at position `i` of `s` and goes on with the rest. */
  predicate CopiesAt(f: string -> string, s: string, i: nat)
    requires i < |s|
  {
    f(s[i..]) == [s[i]] + f(s[i + 1..])
  }

  /** A string transformer that copies each of the characters `j` to `k` of `s` copies that run whole. */
  lemma {:induction false} CopiedRun(f: string -> string, s: string, j: nat, k: nat)
    requires j <= k <= |s|
    requires forall i :: j <= i < k ==> CopiesAt(f, s, i)
    ensures f(s[j..]) == s[j..k] + f(s[k..])
    decreases k - j
  {
    if j < k {
      CopiedRun(f, s, j + 1, k);
      assert CopiesAt(f, s, j);
      assert s[j..k] == [s[j]] + s[j + 1..k];
    }
  }

  /** The first `k` characters of `s` are copied when no match begins among them. */
  lemma PlainRunKept(s: string, k: nat, urlFor: UrlFor)
    requires k <= |s| && NoMatchBefore(s, k)
    ensures WithSearchLinks(s, urlFor) == s[..k] + WithSearchLinks(s[k..], urlFor)
  {
    var f := x => WithSearchLinks(x, urlFor);
    forall i | 0 <= i < k ensures CopiesAt(f, s, i) {
      assert !StartsToken(s[i..]);
      PlainStep(s[i..], urlFor);
      assert s[i..][1..] == s[i + 1..];
    }
    CopiedRun(f, s, 0, k);
    assert s[0..] == s && s[0..k] == s[..k];
  }

  /**
   * Text in front of the first match is copied unchanged: when no match
   * begins in `p`, the output is `p` followed by the output for `q`. No word
   * boundary is needed in front of a match, so `p` may end in a word character.
   */
  lemma PlainPrefixKept(p: string, q: string, urlFor: UrlFor)
    requires forall i :: 0 <= i < |p| ==> !StartsToken((p + q)[i..])
    ensures WithSearchLinks(p + q, urlFor) == p + WithSearchLinks(q, urlFor)
  {
    var s := p + q;
    assert NoMatchBefore(s, |p|);
    PlainRunKept(s, |p|, urlFor);
    assert s[..|p|] == p && s[|p|..] == q;
  }

  /**
   * A match is replaced by its link and scanning resumes right after it: a
   * token not followed by a word character is rewritten whole, and the rest
   * of the string is treated on its own.
   */
  lemma TokenReplaced(t: string, q: string, urlFor: UrlFor)
    requires IsToken(t)
    requires q == [] || !IsWordChar(q[0])
    ensures WithSearchLinks(t + q, urlFor) ==
      "<a href=\"" +
      (if t[0] == '@' then urlFor("posts", "username", t) else urlFor("posts", "search_content", t)) +
      "\">" + t + "</a>" + WithSearchLinks(q, urlFor)
  {
    var s := t + q;
    assert t <= s;
    MatchLengthOfMaximalToken(s, t);
    assert s[..|t|] == t && s[|t|..] == q;
    var segs := Tokenize(s);
    assert segs == [Tag(t)] + Tokenize(q);
    assert segs[1..] == Tokenize(q);
    assert Render(segs, urlFor) == SearchLink(t, urlFor) + Render(Tokenize(q), urlFor);
  }

  function CountChar(s: string, c: char): nat {
    if s == [] then 0 else (if s[0] == c then 1 else 0) + CountChar(s[1..], c)
  }

  lemma {:induction false} CountCharAppend(a: string, b: string, c: char)
    ensures CountChar(a + b, c) == CountChar(a, c) + CountChar(b, c)
    decreases |a|
  {
    if a == [] {
      assert a + b == b;
    } else {
      assert (a + b)[0] == a[0];
      assert (a + b)[1..] == a[1..] + b;
      CountCharAppend(a[1..], b, c);
    }
  }

  lemma {:induction false} CountCharAbsent(s: string, c: char)
    requires forall k :: 0 <= k < |s| ==> s[k] != c
    ensures CountChar(s, c) == 0
    decreases |s|
  {
    if s != [] {
      assert forall k :: 0 <= k < |s[1..]| ==> s[1..][k] == s[k + 1];
      CountCharAbsent(s[1..], c);
    }
  }

  /** A string that starts with `c` and holds no other `c` contains it once. */
  lemma CountCharLeadingOnly(s: string, c: char)
    requires s != [] && s[0] == c
    requires forall k :: 1 <= k < |s| ==> s[k] != c
    ensures CountChar(s, c) == 1
  {
    CountCharAbsent(s[1..], c);
  }

  lemma CountCharAppend5(a: string, b: string, d: string, e: string, g: string, c: char)
    ensures CountChar(a + b + d + e + g, c) ==
      CountChar(a, c) + CountChar(b, c) + CountChar(d, c) + CountChar(e, c) + CountChar(g, c)
  {
    CountCharAppend(a, b, c);
    CountCharAppend(a + b, d, c);
    CountCharAppend(a + b + d, e, c);
    CountCharAppend(a + b + d + e, g, c);
  }

  /** The fixed parts of the link template hold two `<`: one in `<a href="`, one in `</a>`. */
  lemma TemplateAngles()
    ensures CountChar("<a href=\"", '<') == 1
    ensures CountChar("\">", '<') == 0
    ensures CountChar("</a>", '<') == 1
  {
    CountCharLeadingOnly("<a href=\"", '<');
    CountCharAbsent("\">", '<');
    CountCharLeadingOnly("</a>", '<');
  }

  /** Each link contributes exactly two `<`: the opening `<a` and the closing `</a>`. */
  lemma SearchLinkAngles(t: string, urlFor: UrlFor)
    requires IsToken(t)
    requires CountChar(SearchUrl(t, urlFor), '<') == 0
    ensures CountChar(SearchLink(t, urlFor), '<') == 2
  {
    var url := SearchUrl(t, urlFor);
    TemplateAngles();
    CountCharAbsent(t, '<');
    CountCharAppend5("<a href=\"", url, "\">", t, "</a>", '<');
  }


  lemma {:induction false} RenderAngleCount(segs: seq<Segment>, urlFor: UrlFor)
    requires forall e, p, v :: CountChar(urlFor(e, p, v), '<') == 0
    requires forall k :: 0 <= k < |segs| && segs[k].Tag? ==> IsToken(segs[k].token)
    ensures CountChar(Render(segs, urlFor), '<') == CountChar(Flatten(segs), '<') + 2 * TagCount(segs)
    decreases |segs|
  {
    if segs != [] {
      assert forall k :: 0 <= k < |segs[1..]| ==> segs[1..][k] == segs[k + 1];
      RenderAngleCount(segs[1..], urlFor);
      var rest := Render(segs[1..], urlFor);
      CountCharAppend(Text(segs[0]), Flatten(segs[1..]), '<');
      match segs[0]
      case Plain(c) =>
        assert Render(segs, urlFor) == [c] + rest;
        CountCharAppend([c], rest, '<');
      case Tag(t) =>
        assert Render(segs, urlFor) == SearchLink(t, urlFor) + rest;
        CountCharAppend(SearchLink(t, urlFor), rest, '<');
        SearchLinkAngles(t, urlFor);
        CountCharAbsent(t, '<');
    }
  }

  /** Every piece Tokenize marks as a match is a whole token `[@|#]\w+`. */
  lemma {:induction false} TokenizeTagsAreTokens(s: string)
    ensures forall k :: 0 <= k < |Tokenize(s)| && Tokenize(s)[k].Tag? ==> IsToken(Tokenize(s)[k].token)
    decreases |s|
  {
    if s != [] {
      var n := MatchLength(s);
      var rest := if n == 0 then s[1..] else s[n..];
      TokenizeTagsAreTokens(rest);
      assert Tokenize(s)[1..] == Tokenize(rest);
      forall k | 1 <= k < |Tokenize(s)|
        ensures Tokenize(s)[k] == Tokenize(rest)[k - 1]
      {
      }
    }
  }

  /**
   * One link per match: when the url builder never emits `<`, the output
   * holds exactly two more `<` per match than the input (the `<a` and the
   * `</a>` of each link), so the links introduced are as many as the matches.
   */
  lemma LinkCount(s: string, urlFor: UrlFor)
    requires forall e, p, v :: CountChar(urlFor(e, p, v), '<') == 0
    ensures CountChar(WithSearchLinks(s, urlFor), '<') == CountChar(s, '<') + 2 * TagCount(Tokenize(s))
  {
    if s != [] {
      TokenizeTagsAreTokens(s);
      RenderAngleCount(Tokenize(s), urlFor);
    }
  }

  // ---------------------------------------------------------------------------
  // Small cases
  // ---------------------------------------------------------------------------

  /** A prefix character alone, or followed by a non-word character, is not a match. */
  lemma LonePrefixNotToken(urlFor: UrlFor)
    ensures WithSearchLinks("@", urlFor) == "@"
    ensures WithSearchLinks("# x", urlFor) == "# x"
  {
    NoTokenUnchanged("@", urlFor);
    var s := "# x";
    assert s[1..] == " x" && s[2..] == "x";
    NoTokenUnchanged(s, urlFor);
  }

  /**
   * No word boundary is needed in front of a match: in `a@b`, say, the
   * token right after the word character is still rewritten.
   */
  lemma NoWordBoundaryNeeded(c: char, t: string, urlFor: UrlFor)
    requires IsWordChar(c) && IsToken(t)
    ensures WithSearchLinks([c] + t, urlFor) == [c] + WithSearchLinks(t, urlFor)
    ensures WithSearchLinks(t, urlFor) ==
      "<a href=\"" +
      (if t[0] == '@' then urlFor("posts", "username", t) else urlFor("posts", "search_content", t)) +
      "\">" + t + "</a>"
  {
    assert !StartsToken(([c] + t)[0..]);
    PlainPrefixKept([c], t, urlFor);
    assert t + [] == t;
    TokenReplaced(t, [], urlFor);
  }

  /** `|` in the class is literal: `|x` is a match and links to a content search. */
  lemma PipeIsContentSearch(urlFor: UrlFor)
    ensures WithSearchLinks("|x", urlFor) ==
      "<a href=\"" + urlFor("posts", "search_content", "|x") + "\">|x</a>"
  {
    assert "|x" == "|x" + [];
    TokenReplaced("|x", [], urlFor);
  }
}
