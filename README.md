# Search links and user search, modelled in Dafny

This project models two pieces of a small web front end over a document store of posts and users.

- **`with_search_links`** (`SearchLinks`, `search_links.dfy`) is a template filter. It finds every token of the form `[@|#]\w+` in a piece of text and replaces it with `<a href="{url}">{token}</a>`. A token starting with `@` links to a search of posts by that username. Any other token links to a search of post content. That includes `#tag` and also `|word`, because `|` is a literal character inside the bracket class.
  - The regular-expression substitution is modelled as a tokenizer (`Tokenize`) and a renderer (`Render`).
  - `Conforms` states independently how a left-to-right substitution cuts its input: leftmost match first, greedy, no overlap.
  - `ConformsUnique` and `TokenizeConforms` prove that `Tokenize` is the one and only segmentation with that shape.
  - `PlainStep`, `PlainPrefixKept` and `TokenReplaced` state what the output is: characters outside matches are copied through in order, and each match becomes its link.
- **`get_users`** (`UserSearch`, `user_search.dfy`) fetches one page of users. It computes `skip = page * PAGE_LIMIT` with `PAGE_LIMIT = 20`. It builds the filter `{"$or": [{"name": R}, {"username": R}]}` with `R = {"$regex": "^" + term + "*", "$options": "i"}`, where the term is inserted verbatim. It then returns the store's answer cut to its first `PAGE_LIMIT` documents.
  - The store's `find` is a function-typed parameter, so the documents and their order are the store's. It answers with documents or with an error; `get_users` does not catch the error, so the model passes it on to the caller.
  - `url_for` is a function-typed parameter (`UrlFor`) and is never interpreted.

Some facts about the code that the model keeps:
- The user pattern is `^term*`. The term is spliced in as it is: it is neither escaped nor trimmed, so it can carry regular-expression syntax of its own.
- `get_users` returns only the list of users. It returns no page count and no total.
- src/api.py holds no query builder for posts, no search executor and no highlighting; only `get_users` and `render_users` are defined there.

## Model

| member | source | states |
|---|---|---|
| `SearchLinks.IsWordChar` | src/templatefilters.py:15 | `\w`: a word character is never `@`, `#`, `\|` or `<` |
| `SearchLinks.IsPrefixChar` | src/templatefilters.py:15 | `[@\|#]`: a prefix character is never a word character, so a match cannot start inside a run of word characters and then swallow the prefix |
| `SearchLinks.IsToken` | src/templatefilters.py:15 | a whole match of `[@\|#]\w+` has at least two characters, does not start with a word character and contains no `<` |
| `SearchLinks.StartsToken` | src/templatefilters.py:15 | a match can begin at a position exactly when a prefix character there is followed by a word character; its contract is stated by `SearchLinks.MatchLength` |
| `SearchLinks.WordCharFacts` | src/templatefilters.py:15 | every ASCII letter, digit and `_` is a word character; `@`, `#` and `\|` are not; and a character is a prefix character exactly when it is `@`, `#` or `\|` |
| `SearchLinks.WordRunLength` | src/templatefilters.py:15 | `\w+` is greedy: the run it takes is all word characters and is followed by the end of the text or a non-word character |
| `SearchLinks.MatchLength` | src/templatefilters.py:15 | a match begins exactly where a prefix character is followed by a word character; the match taken there is a whole token and is maximal |
| `SearchLinks.MatchLengthOfMaximalToken` | src/templatefilters.py:15 | any token at the start of the text that is not followed by a word character is exactly the match found there |
| `SearchLinks.Tokenize` | src/templatefilters.py:28 | the pieces the substitution walks through, concatenated back, give the input exactly |
| `SearchLinks.TokenizeConforms` | src/templatefilters.py:15-28 | Tokenize is a leftmost-first, greedy, non-overlapping segmentation: copied characters are never the start of a match, and each token is a maximal match |
| `SearchLinks.ConformsUnique` | src/templatefilters.py:15-28 | every leftmost-greedy segmentation of the text equals Tokenize's, so the matches found are determined uniquely |
| `SearchLinks.SearchUrl` | src/templatefilters.py:33-47 | a token starting with `@` links to `url_for("posts", username=token)`, any other token to `url_for("posts", search_content=token)`, the token passed whole |
| `SearchLinks.SearchLink` | src/templatefilters.py:13 | the filled template is `<a href="`, then the url, then `">` closing the attribute, then the token verbatim as link text, then `</a>` |
| `SearchLinks.Render` | src/templatefilters.py:28 | with no match among the pieces, rendering gives back exactly the text the pieces cover |
| `SearchLinks.WithSearchLinks` | src/templatefilters.py:25-26 | an empty string is returned unchanged |
| `SearchLinks.PlainStep` | src/templatefilters.py:28 | a character at which no match begins is copied to the output, and the rest is processed after it |
| `SearchLinks.NoTokenUnchanged` | src/templatefilters.py:28 | a text in which no match begins anywhere is returned verbatim |
| `SearchLinks.PlainRunKept` | src/templatefilters.py:28 | when no match begins among the first `k` characters, those characters are copied and the rest is processed on its own |
| `SearchLinks.PlainPrefixKept` | src/templatefilters.py:15-28 | text before the first match is copied unchanged and in order, with no word boundary required before a match |
| `SearchLinks.TokenReplaced` | src/templatefilters.py:13-47 | a maximal token becomes `<a href="` + url + `">` + token + `</a>`. The url is `url_for("posts", username=token)` when the token starts with `@`, otherwise `url_for("posts", search_content=token)`, with the prefix kept in the value. Scanning resumes right after the token |
| `SearchLinks.TemplateAngles` | src/templatefilters.py:13 | the fixed parts of the link template hold exactly two `<`, one opening the anchor and one closing it |
| `SearchLinks.SearchLinkAngles` | src/templatefilters.py:13 | one filled link template contains exactly two `<`, when the url contains none |
| `SearchLinks.RenderAngleCount` | src/templatefilters.py:28-47 | rendering adds exactly two `<` per token to those already in the copied text |
| `SearchLinks.TokenizeTagsAreTokens` | src/templatefilters.py:15 | every piece Tokenize marks as a match is a token `[@\|#]\w+` |
| `SearchLinks.LinkCount` | src/templatefilters.py:28-47 | the number of links introduced equals the number of matches in the input, counted by `<` when `url_for` emits none |
| `SearchLinks.LonePrefixNotToken` | src/templatefilters.py:15 | `@` alone, or `#` followed by a space, is not a match and is left as it is |
| `SearchLinks.NoWordBoundaryNeeded` | src/templatefilters.py:15-47 | a token right after a word character (as `@b` in `a@b`) is still rewritten: the word character is copied and the token becomes its search link |
| `SearchLinks.PipeIsContentSearch` | src/templatefilters.py:40-47 | `\|x` is a match and links to a content search |
| `UserSearch.Skip` | src/api.py:11 | skip is a multiple of PAGE_LIMIT = 20 whose quotient is the page, and it is non-negative exactly when the page is |
| `UserSearch.PagesAdjacent` | src/api.py:11 | consecutive pages are adjacent windows of 20 documents, and later pages start strictly further on |
| `UserSearch.UserPattern` | src/api.py:12-15 | the pattern is `^`, then the term verbatim, then `*` |
| `UserSearch.PatternRoundTrip` | src/api.py:13 | the search term is recovered unchanged from the pattern, so it was not escaped or trimmed |
| `UserSearch.UsersFilter` | src/api.py:12-25 | the filter is an `$or` of exactly two clauses, `name` then `username`, each with the term's pattern and options `i` |
| `UserSearch.UsersFilterInjective` | src/api.py:17-25 | different search terms give different filters |
| `UserSearch.ToList` | src/api.py:29 | `to_list(length=n)` keeps a prefix of the cursor of length min(n, cursor length) |
| `UserSearch.GetUsers` | src/api.py:10-31 | the store is asked with that filter, skip = page * 20 and limit 20. A store error is passed on unchanged. Otherwise the result is exactly the first min(20, answer length) users of the store's answer, in the store's order |

## Left out

- `SearchLinks.IsWordChar`: `\w` on Python strings also matches non-ASCII letters and digits; the model covers ASCII letters, digits and `_` only.
- `SearchLinks.LinkCount`: counts links by the `<` character, so it assumes `url_for` never emits `<`; with an arbitrary url builder a link count in the output text is not well defined.
- `url_for` and its query-string encoding are a parameter and are not interpreted.
- The `Markup` wrapper (src/templatefilters.py:30) only marks the string as safe HTML; the model returns the plain string.
- `register_filters` (src/templatefilters.py:50-57) and `render_users` (src/api.py:34-35) are thin calls into the web framework's template engine.
- The asynchronous store driver: `find` is a parameter, and how the store matches the `$regex` patterns, orders documents, or decides to refuse a query is not modelled. That covers an invalid pattern from an unescaped term such as `(`, and a negative skip. The regex pattern is kept as an uninterpreted string.
- src/app.py, src/connection.py and src/constants.py hold a static route, connection set-up and string constants; the three constants the filter uses are inlined.
- The post-query builder and the result highlighting that tests/test_api.py, src/tests/test_api.py and tests/test_app.py exercise are not modelled: their implementation is not in src/api.py or src/templatefilters.py.
