/** Pagination: `fetch_all_users` asks for page 1, 2, 3, ... and stops at the first
    empty page, returning everything before it in order. The HTTP call is modelled
    as a function from requests to responses. */
module Fetcher {
  import opened Wrappers
  import opened Users

  /** Number of users asked for per page. */
  const PerPage: nat := 100

  /** The query parameters of one page request. */
  datatype Request = Request(page: nat, perPage: nat)

  /** What one request yields: a batch of users, or a failure (a non-success
      status, a transport error or an undecodable body), which aborts the fetch. */
  datatype Response = Page(batch: seq<User>) | Failed

  datatype FetchError = TransportError(page: nat)

  /** The response to the request for page `n`. */
  function PageAt(source: Request -> Response, n: nat): Response {
    source(Request(n, PerPage))
  }

  /** A response after which no further page is requested. */
  predicate Ends(r: Response) {
    r.Failed? || r.batch == []
  }

  /** `k` is the first page, counting from 1, after which fetching stops. */
  ghost predicate IsFirstEnd(source: Request -> Response, k: nat) {
    k >= 1 && Ends(PageAt(source, k)) && forall j :: 1 <= j < k ==> !Ends(PageAt(source, j))
  }

  /** The users of pages 1 .. n-1, page after page, each page in its own order. */
  function Collected(source: Request -> Response, n: nat): seq<User>
    requires forall j :: 1 <= j < n ==> !Ends(PageAt(source, j))
  {
    if n <= 1 then []
    else
      assert !Ends(PageAt(source, n - 1));
      Collected(source, n - 1) + PageAt(source, n - 1).batch
  }

  /** The sum of the sizes of pages 1 .. n-1. */
  function TotalSize(source: Request -> Response, n: nat): nat
    requires forall j :: 1 <= j < n ==> !Ends(PageAt(source, j))
  {
    if n <= 1 then 0
    else
      assert !Ends(PageAt(source, n - 1));
      TotalSize(source, n - 1) + |PageAt(source, n - 1).batch|
  }

  /** A page source that ends somewhere ends at a first page. */
  lemma {:induction false} FirstEndExists(source: Request -> Response, k: nat)
    requires k >= 1 && Ends(PageAt(source, k))
    ensures exists f :: 1 <= f <= k && IsFirstEnd(source, f)
  {
    if !IsFirstEnd(source, k) {
      var j :| 1 <= j < k && Ends(PageAt(source, j));
      FirstEndExists(source, j);
    }
  }

  /** There is only one first end. */
  lemma FirstEndUnique(source: Request -> Response, f: nat, g: nat)
    requires IsFirstEnd(source, f) && IsFirstEnd(source, g)
    ensures f == g
  {
  }

  /** A page that ends the fetch with no end before it is the one first end. */
  lemma FirstEndAt(source: Request -> Response, n: nat)
    requires n >= 1 && Ends(PageAt(source, n))
    requires forall j :: 1 <= j < n ==> !Ends(PageAt(source, j))
    ensures IsFirstEnd(source, n)
    ensures forall k :: IsFirstEnd(source, k) ==> k == n
  {
    forall k | IsFirstEnd(source, k) ensures k == n {
      FirstEndUnique(source, k, n);
    }
  }

  /** The collected list is as long as the pages together. */
  lemma {:induction false} CollectedLength(source: Request -> Response, n: nat)
    requires forall j :: 1 <= j < n ==> !Ends(PageAt(source, j))
    ensures |Collected(source, n)| == TotalSize(source, n)
  {
    if n > 1 { CollectedLength(source, n - 1); }
  }

  /** Page order and order within a page are kept: the `i`-th user of page `j` sits
      right after the users of the pages before `j`. */
  lemma {:induction false} CollectedAt(source: Request -> Response, n: nat, j: nat, i: nat)
    requires forall m :: 1 <= m < n ==> !Ends(PageAt(source, m))
    requires 1 <= j < n && PageAt(source, j).Page? && i < |PageAt(source, j).batch|
    ensures TotalSize(source, j) + i < |Collected(source, n)|
    ensures Collected(source, n)[TotalSize(source, j) + i] == PageAt(source, j).batch[i]
  {
    CollectedLength(source, n);
    CollectedLength(source, n - 1);
    if j < n - 1 {
      CollectedAt(source, n - 1, j, i);
    } else {
      CollectedLength(source, j);
    }
  }

  /** Fetch every page in turn until the first empty one. `requests` records, in
      order, every request made. */
  method FetchAllUsers(source: Request -> Response)
      returns (result: Result<seq<User>, FetchError>, ghost requests: seq<Request>)
    requires exists k :: k >= 1 && Ends(PageAt(source, k))
    ensures forall k :: IsFirstEnd(source, k) ==>
      && (PageAt(source, k).Failed? ==> result == Failure(TransportError(k)))
      && (PageAt(source, k).Page? ==> result == Success(Collected(source, k)))
    ensures PageAt(source, 1) == Page([]) ==> result == Success([])
    ensures IsFirstEnd(source, |requests|)
    ensures forall i :: 0 <= i < |requests| ==> requests[i] == Request(i + 1, PerPage)
  {
    ghost var bound :| bound >= 1 && Ends(PageAt(source, bound));
    var users: seq<User> := [];
    var page: nat := 1;
    requests := [];
    while true
      invariant page >= 1
      invariant forall j :: 1 <= j < page ==> !Ends(PageAt(source, j))
      invariant users == Collected(source, page)
      invariant |requests| == page - 1
      invariant forall i :: 0 <= i < |requests| ==> requests[i] == Request(i + 1, PerPage)
      decreases bound - page
    {
      var response := source(Request(page, PerPage));
      requests := requests + [Request(page, PerPage)];
      if response.Failed? {
        FirstEndAt(source, page);
        result := Failure(TransportError(page));
        return;
      }
      var batch := response.batch;
      if batch == [] {
        break;
      }
      users := users + batch;
      page := page + 1;
    }
    FirstEndAt(source, page);
    result := Success(users);
  }
}
