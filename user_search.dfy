/**
 * `get_users`: one page of users whose name or username matches a search
 * term, read from the document store's `users` collection.
 *
 * The store's `find(filter, skip=…, limit=…)` is a function-typed parameter:
 * what documents it returns, and in which order, is the store's business, and
 * so is refusing a query (a search term that is not a valid regular
 * expression, for one); `get_users` does not catch that refusal, so it reaches
 * the caller.
 * What this module fixes is the query sent to it (the filter, the skip and
 * the limit) and what happens to the answer (`to_list(length=PAGE_LIMIT)`).
 */
module UserSearch {

  datatype Option<T> = None | Some(value: T)

  /** What the store answers a query with: documents, or an error raised by the query. */
  datatype Result<T> = Success(value: T) | Failure(error: string)

  /** Number of users on one page of results. */
  const PAGE_LIMIT: nat := 20

  /** A user document; this module looks at none of its fields. */
  datatype User = User(name: string, username: string, avatar: string)

  /** One clause of the filter: `{field: {"$regex": pattern, "$options": options}}`. */
  datatype RegexLeaf = RegexLeaf(field: string, pattern: string, options: string)

  /** The filter document `{"$or": [clause, …]}`. */
  datatype Filter = Or(clauses: seq<RegexLeaf>)

  /** The arguments of one `find` call on the users collection. */
  datatype FindQuery = FindQuery(filter: Filter, skip: int, limit: int)

  /** The store's `users.find(…)`, run: the cursor of documents it answers a query with, or its error. */
  type Find = FindQuery -> Result<seq<User>>

  /** Number of documents to pass over before page `page` starts. */
  function Skip(page: int): (skip: int)
    ensures skip % PAGE_LIMIT == 0 && skip / PAGE_LIMIT == page
    ensures page >= 0 <==> skip >= 0
  {
    page * PAGE_LIMIT
  }

  /** Consecutive pages are consecutive, non-overlapping windows of PAGE_LIMIT documents. */
  lemma PagesAdjacent(page: int, later: int)
    requires page < later
    ensures Skip(page) + PAGE_LIMIT <= Skip(later)
    ensures Skip(page + 1) == Skip(page) + PAGE_LIMIT
  {
    assert (later - page) * PAGE_LIMIT >= PAGE_LIMIT;
  }

  /** The regular expression `^{term}*`, with the term spliced in verbatim. */
  function UserPattern(term: string): (p: string)
    ensures |p| == |term| + 2
    ensures p[0] == '^' && p[|p| - 1] == '*'
    ensures p[1..|p| - 1] == term
  {
    "^" + term + "*"
  }

  /** The term a pattern of the shape `^…*` was built from. */
  function PatternTerm(p: string): Option<string> {
    if |p| >= 2 && p[0] == '^' && p[|p| - 1] == '*' then Some(p[1..|p| - 1]) else None
  }

  /** No escaping and no trimming: the term comes back out of the pattern unchanged. */
  lemma PatternRoundTrip(term: string)
    ensures PatternTerm(UserPattern(term)) == Some(term)
  {
  }

  const CASE_INSENSITIVE: string := "i"

  /** The `$or` over `name` and `username`, both matched case-insensitively against the same pattern. */
  function UsersFilter(term: string): (f: Filter)
    ensures |f.clauses| == 2
    ensures f.clauses[0].field == "name" && f.clauses[1].field == "username"
    ensures forall k :: 0 <= k < |f.clauses| ==>
      PatternTerm(f.clauses[k].pattern) == Some(term) && f.clauses[k].options == "i"
  {
    var pattern := UserPattern(term);
    PatternRoundTrip(term);
    Or([RegexLeaf("name", pattern, CASE_INSENSITIVE), RegexLeaf("username", pattern, CASE_INSENSITIVE)])
  }

  /** Different terms give different filters. */
  lemma UsersFilterInjective(a: string, b: string)
    requires UsersFilter(a) == UsersFilter(b)
    ensures a == b
  {
    assert Some(a) == PatternTerm(UsersFilter(a).clauses[0].pattern);
  }

  /** `cursor.to_list(length=…)`: the first `length` documents of the cursor, or all of them if fewer. */
  function ToList(cursor: seq<User>, length: nat): (r: seq<User>)
    ensures r <= cursor
    ensures |r| == if |cursor| < length then |cursor| else length
  {
    if |cursor| <= length then cursor else cursor[..length]
  }

  /**
   * `get_users`: asks the store for the page `page` of users matching the
   * filter for `searchTerm`, and returns what the store answers, in the
   * store's order, cut to the first PAGE_LIMIT documents. An error raised by
   * the store is passed on unchanged.
   */
  method GetUsers(find: Find, searchTerm: string, page: int) returns (results: Result<seq<User>>)
    ensures var answer := find(FindQuery(UsersFilter(searchTerm), Skip(page), PAGE_LIMIT));
      (answer.Failure? <==> results.Failure?) &&
      (answer.Failure? ==> results == answer) &&
      (answer.Success? ==>
        results.value <= answer.value &&
        |results.value| == (if |answer.value| < PAGE_LIMIT then |answer.value| else PAGE_LIMIT))
  {
    var skip := Skip(page);
    var filter := UsersFilter(searchTerm);
    var answer := find(FindQuery(filter, skip, PAGE_LIMIT));
    match answer
    case Failure(e) =>
      results := Failure(e);
    case Success(cursor) =>
      results := Success(ToList(cursor, PAGE_LIMIT));
  }
}
