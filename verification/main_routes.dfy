/** The public routes of `server/routes/main.js` that shape a query: the
    paginated home listing and the search. The database calls become
    functions over the post collection; only the shape of the query is kept. */
module MainRoutes {
  import opened Wrappers
  import opened Sequences
  import opened Store
  import opened Text

  // ------------------------------------------------------------- ordering

  /** `{ $sort: { createdAt: -1 } }`: newest post first. */
  predicate NewestFirst(s: seq<Post>) {
    forall i, j :: 0 <= i < j < |s| ==> s[i].createdAt >= s[j].createdAt
  }

  /** Putting a post no older than any of a newest-first sequence in front keeps it newest-first. */
  lemma NewestInFront(q: Post, s: seq<Post>)
    requires NewestFirst(s)
    requires forall k :: 0 <= k < |s| ==> q.createdAt >= s[k].createdAt
    ensures NewestFirst([q] + s)
  {
    var r := [q] + s;
    forall i, j | 0 <= i < j < |r| ensures r[i].createdAt >= r[j].createdAt {
      assert r[j] == s[j - 1];
      if i > 0 {
        assert r[i] == s[i - 1];
      }
    }
  }

  /** A bound on the creation times of `s` and of `p` bounds every post of a
      sequence holding exactly `s` and `p`. */
  lemma BoundByContents(q: Post, p: Post, s: seq<Post>, r: seq<Post>)
    requires multiset(r) == multiset(s) + multiset{p}
    requires q.createdAt >= p.createdAt
    requires forall k :: 0 <= k < |s| ==> q.createdAt >= s[k].createdAt
    ensures forall k :: 0 <= k < |r| ==> q.createdAt >= r[k].createdAt
  {
    forall k | 0 <= k < |r| ensures q.createdAt >= r[k].createdAt {
      assert r[k] in multiset(r);
      if r[k] != p {
        assert r[k] in multiset(s);
        var m :| 0 <= m < |s| && s[m] == r[k];
      }
    }
  }

  /** Insert one post into a newest-first sequence. */
  function InsertByDate(p: Post, s: seq<Post>): (r: seq<Post>)
    requires NewestFirst(s)
    ensures NewestFirst(r)
    ensures multiset(r) == multiset(s) + multiset{p}
  {
    if |s| == 0 then [p]
    else if p.createdAt >= s[0].createdAt then
      NewestInFront(p, s);
      [p] + s
    else
      var rest := InsertByDate(p, s[1..]);
      assert s == [s[0]] + s[1..];
      BoundByContents(s[0], p, s[1..], rest);
      NewestInFront(s[0], rest);
      [s[0]] + rest
  }

  /** The collection in the order the home page lists it. MongoDB leaves the
      relative order of posts with equal `createdAt` unspecified; this
      arrangement is one of the orders it may return. */
  function SortNewestFirst(s: seq<Post>): (r: seq<Post>)
    ensures NewestFirst(r)
    ensures multiset(r) == multiset(s)
  {
    if |s| == 0 then []
    else
      assert s == [s[0]] + s[1..];
      InsertByDate(s[0], SortNewestFirst(s[1..]))
  }

  // ----------------------------------------------------------- pagination

  /** `perPage` of the home listing. */
  const PerPage: nat := 10

  /** `perPage * page - perPage`: how many posts the page skips. */
  function Skip(page: int): int {
    PerPage * page - PerPage
  }

  /** The database takes a skip only as a non-negative signed 64-bit integer. */
  const SkipLimit: int := 0x8000_0000_0000_0000

  /** The last page whose skip the database still takes. */
  const LastPage: int := 922_337_203_685_477_581

  /** `LastPage` is the last page whose skip stays below the 64-bit limit. */
  lemma LastPageIsLast()
    ensures 0 <= Skip(LastPage) < SkipLimit <= Skip(LastPage + 1)
  {
  }

  /** `Math.ceil(count / perPage)`: the number of pages. */
  function PageCount(count: nat): (r: nat)
    ensures PerPage * r >= count
    ensures PerPage * (r - 1) < count
  {
    (count + PerPage - 1) / PerPage
  }

  /** `parseInt(page) + 1 <= Math.ceil(count / perPage)`. */
  predicate HasNextPage(count: nat, page: int) {
    page + 1 <= PageCount(count)
  }

  /** `.skip(skip).limit(perPage)` over an already sorted collection. */
  function Window(sorted: seq<Post>, skip: nat): (w: seq<Post>)
    ensures |w| <= PerPage
    ensures |w| == if skip + PerPage <= |sorted| then PerPage
                   else if skip <= |sorted| then |sorted| - skip
                   else 0
    ensures forall i :: 0 <= i < |w| ==> skip + i < |sorted| && w[i] == sorted[skip + i]
  {
    var lo := if skip <= |sorted| then skip else |sorted|;
    var hi := if skip + PerPage <= |sorted| then skip + PerPage else |sorted|;
    sorted[lo..hi]
  }

  /** What the home page renders: the page of posts, the current page, and
      the next page number when there is one (`null` otherwise). */
  datatype Listing = Listing(data: seq<Post>, current: int, nextPage: Option<int>)

  /** GET `/`. `page` is `req.query.page`, absent (or empty) as `None`.
      A page below 1 gives a negative skip, and a page beyond `LastPage` a
      skip that does not fit in 64 bits; the database rejects both, the
      handler then only logs the error, and no listing is rendered. */
  function Home(posts: seq<Post>, page: Option<int>): (r: Option<Listing>)
    ensures r.None? <==> page.GetOr(1) < 1 || page.GetOr(1) > LastPage
    ensures r.Some? ==> r.value.current == page.GetOr(1)
    ensures r.Some? ==> |r.value.data| <= PerPage && NewestFirst(r.value.data)
    ensures r.Some? ==> forall i :: 0 <= i < |r.value.data| ==> r.value.data[i] in posts
    ensures r.Some? ==> (r.value.nextPage.Some? <==> PerPage * page.GetOr(1) < |posts|)
    ensures r.Some? && r.value.nextPage.Some? ==> r.value.nextPage.value == page.GetOr(1) + 1
  {
    var p := page.GetOr(1);
    if Skip(p) < 0 || Skip(p) >= SkipLimit then None
    else
      var sorted := SortNewestFirst(posts);
      var data := Window(sorted, Skip(p));
      assert forall x :: x in sorted <==> x in posts by {
        assert forall x :: x in sorted <==> x in multiset(sorted);
        assert forall x :: x in posts <==> x in multiset(posts);
      }
      Some(Listing(data, p, if HasNextPage(|posts|, p) then Some(p + 1) else None))
  }

  /** The has-next-page test is `page < ceil(count / perPage)`, which is the
      same as "some post lies beyond this page". */
  lemma HasNextPageIff(count: nat, page: int)
    ensures HasNextPage(count, page) <==> page < PageCount(count)
    ensures HasNextPage(count, page) <==> PerPage * page < count
  {
    var n: int := PageCount(count);
    if page < n {
      assert PerPage * page <= PerPage * (n - 1);
    } else {
      assert PerPage * page >= PerPage * n;
    }
  }

  /** Page `p` lists the posts at positions `10*(p-1)` to `10*p - 1` of the
      newest-first order, as many of them as exist. */
  lemma HomeWindow(posts: seq<Post>, p: int)
    requires 1 <= p <= LastPage
    ensures Home(posts, Some(p)).Some?
    ensures Home(posts, Some(p)).value.data ==
      var sorted := SortNewestFirst(posts);
      var lo := PerPage * (p - 1);
      if lo >= |sorted| then [] else sorted[lo..if lo + PerPage <= |sorted| then lo + PerPage else |sorted|]
  {
  }

  /** A next page is announced iff the next page would list at least one post. */
  lemma NextPageNonEmpty(posts: seq<Post>, p: int)
    requires 1 <= p < LastPage
    ensures Home(posts, Some(p)).value.nextPage.Some? <==> Home(posts, Some(p + 1)).value.data != []
  {
    HomeWindow(posts, p + 1);
    assert |SortNewestFirst(posts)| == |posts| by {
      assert |multiset(SortNewestFirst(posts))| == |multiset(posts)|;
    }
  }

  /** Page 10^18 asks the database to skip more than 2^63 - 1 posts, so
      nothing is rendered, however many posts there are. */
  lemma HugePageRendersNothing(posts: seq<Post>)
    ensures Home(posts, Some(1_000_000_000_000_000_000)) == None
  {
  }

  /** An empty collection: page 1 (asked for or defaulted) lists nothing and has no next page. */
  lemma EmptyCollectionFirstPage(page: Option<int>)
    requires page == None || page == Some(1)
    ensures Home([], page) == Some(Listing([], 1, None))
  {
  }

  // ---------------------------------------------------------------- search

  /** `{ $or: [ { title: re }, { body: re } ] }` with `re = new RegExp(term, 'i')`. */
  predicate PostMatches(p: Post, term: string) {
    MatchesIgnoringCase(term, p.title) || MatchesIgnoringCase(term, p.body)
  }

  /** `Post.find(filter)`: the matching posts, in collection order. */
  function FindMatching(posts: seq<Post>, term: string): (r: seq<Post>)
    ensures forall p :: p in r <==> p in posts && PostMatches(p, term)
    ensures forall p :: multiset(r)[p] == if PostMatches(p, term) then multiset(posts)[p] else 0
    ensures IsSubsequence(r, posts)
  {
    if |posts| == 0 then []
    else
      assert posts == [posts[0]] + posts[1..];
      if PostMatches(posts[0], term) then
        var rest := FindMatching(posts[1..], term);
        assert ([posts[0]] + rest)[1..] == rest;
        [posts[0]] + rest
      else FindMatching(posts[1..], term)
  }

  /** POST `/search`: sanitise the submitted term, then find the posts whose
      title or body contains it, ignoring case. */
  function Search(posts: seq<Post>, searchTerm: string): (r: seq<Post>)
    ensures forall p :: p in r <==> p in posts && PostMatches(p, Sanitize(searchTerm))
    ensures forall p :: multiset(r)[p] == if PostMatches(p, Sanitize(searchTerm)) then multiset(posts)[p] else 0
    ensures IsSubsequence(r, posts)
  {
    FindMatching(posts, Sanitize(searchTerm))
  }

  /** A post is found iff the sanitised term, lower-cased, occurs at some
      position of its lower-cased title or body. */
  lemma SearchFinds(posts: seq<Post>, searchTerm: string, p: Post)
    ensures p in Search(posts, searchTerm) <==>
      p in posts &&
      (Contains(Lower(Sanitize(searchTerm)), Lower(p.title)) ||
       Contains(Lower(Sanitize(searchTerm)), Lower(p.body)))
  {
    OccursIff(Lower(Sanitize(searchTerm)), Lower(p.title));
    OccursIff(Lower(Sanitize(searchTerm)), Lower(p.body));
  }

  /** The search depends on the term only through its lower-cased form. */
  lemma {:induction false} FindMatchingCaseBlind(posts: seq<Post>, a: string, b: string)
    requires Lower(a) == Lower(b)
    ensures FindMatching(posts, a) == FindMatching(posts, b)
  {
    if |posts| > 0 {
      FindMatchingCaseBlind(posts[1..], a, b);
    }
  }

  /** Searching is case-blind in the term too: typing it in lower case finds
      the same posts in the same order. */
  lemma SearchIgnoresTermCase(posts: seq<Post>, searchTerm: string)
    ensures Search(posts, Lower(searchTerm)) == Search(posts, searchTerm)
  {
    LowerSanitize(searchTerm);
    LowerIdempotent(Sanitize(searchTerm));
    FindMatchingCaseBlind(posts, Sanitize(Lower(searchTerm)), Sanitize(searchTerm));
  }

  /** A term with nothing left after sanitising matches every post. */
  lemma {:induction false} EmptyTermFindsAll(posts: seq<Post>, searchTerm: string)
    requires Sanitize(searchTerm) == ""
    ensures Search(posts, searchTerm) == posts
  {
    EmptyFindsAll(posts);
  }

  lemma {:induction false} EmptyFindsAll(posts: seq<Post>)
    ensures FindMatching(posts, "") == posts
  {
    if |posts| > 0 {
      EmptyMatchesAll(posts[0].title);
      EmptyFindsAll(posts[1..]);
      assert posts == [posts[0]] + posts[1..];
    }
  }
}
