/** The catalog loader (`fetchAllCharacters`): a do/while loop that requests page 1,
    2, ... of the remote listing, appends each page's `results`, reads the page
    count from every response and stops once the counter passes it. */
module Loader {
  import opened Characters

  /** What one page request gives back: the page's records and the page count the
      server reports (`info.pages`), or a failure (network error, non-success status). */
  datatype Response = Page(results: seq<Character>, pages: int) | Failure

  /** How a load ends. `Unfinished` stands for a loop that would still be requesting
      pages once the request budget of the model is spent. */
  datatype Outcome = Loaded(catalog: seq<Character>) | LoadFailed | Unfinished

  /** A load: the page numbers requested, in order, and how it ended. */
  datatype Run = Run(requested: seq<int>, outcome: Outcome)

  /** The integers lo, lo+1, ..., hi-1. */
  function Range(lo: int, hi: int): (r: seq<int>)
    ensures |r| == if lo <= hi then hi - lo else 0
    ensures forall i :: 0 <= i < |r| ==> r[i] == lo + i
    decreases hi - lo
  {
    if lo < hi then [lo] + Range(lo + 1, hi) else []
  }

  /** The response for `page` lets the loop go on: it succeeded and the counter
      after it is still within the reported page count. */
  predicate Continues(fetch: int -> Response, page: int)
  {
    fetch(page).Page? && page + 1 <= fetch(page).pages
  }

  /** The response for `page` ends the loop normally: it succeeded and the counter
      after it exceeds the reported page count. */
  predicate Stops(fetch: int -> Response, page: int)
  {
    fetch(page).Page? && page + 1 > fetch(page).pages
  }

  /** The records of pages lo .. hi-1 concatenated in page order (a failed page
      contributes nothing). */
  function Gather(fetch: int -> Response, lo: int, hi: int): seq<Character>
    decreases hi - lo
  {
    if lo < hi then
      (if fetch(lo).Page? then fetch(lo).results else []) + Gather(fetch, lo + 1, hi)
    else []
  }

  /** What a run of the loop from `page`, with `acc` gathered and a budget of
      `fuel` requests, must look like: it requests consecutive pages starting at
      `page`, at least one when the budget allows; every request but the last
      succeeded and let the loop go on; it fails exactly when the last request
      failed, finishes exactly when the last page reported no further page, and
      then returns `acc` followed by the records of every requested page in order;
      it is left unfinished only once the whole budget has been spent. */
  ghost predicate Explains(fetch: int -> Response, page: int, acc: seq<Character>, fuel: nat, r: Run)
  {
    var n := |r.requested|;
    && n <= fuel
    && (fuel > 0 ==> n > 0)
    && (forall i :: 0 <= i < n ==> r.requested[i] == page + i)
    && (forall i :: 0 <= i < n - 1 ==> Continues(fetch, r.requested[i]))
    && (r.outcome.LoadFailed? <==> n > 0 && fetch(page + n - 1).Failure?)
    && (r.outcome.Loaded? <==> n > 0 && Stops(fetch, page + n - 1))
    && (r.outcome.Loaded? ==> r.outcome.catalog == acc + Gather(fetch, page, page + n))
    && (r.outcome.Unfinished? ==> n == fuel)
  }

  /** One more successful, continuing request in front of a run keeps it explained. */
  lemma ExplainsStep(fetch: int -> Response, page: int, acc: seq<Character>, fuel: nat, rest: Run)
    requires fuel > 0
    requires Continues(fetch, page)
    requires Explains(fetch, page + 1, acc + fetch(page).results, fuel - 1, rest)
    ensures Explains(fetch, page, acc, fuel, Run([page] + rest.requested, rest.outcome))
  {
    var n := |rest.requested|;
    var requested := [page] + rest.requested;
    assert forall i :: 1 <= i < |requested| ==> requested[i] == rest.requested[i - 1];
    assert Gather(fetch, page, page + 1 + n) == fetch(page).results + Gather(fetch, page + 1, page + 1 + n);
    assert acc + fetch(page).results + Gather(fetch, page + 1, page + 1 + n)
        == acc + Gather(fetch, page, page + 1 + n);
  }

  /** The loop from the iteration that requests `page`, with `acc` the records
      gathered so far and `fuel` the number of requests the model still allows. */
  function LoadFrom(fetch: int -> Response, page: int, acc: seq<Character>, fuel: nat): (r: Run)
    ensures Explains(fetch, page, acc, fuel, r)
    decreases fuel
  {
    if fuel == 0 then Run([], Unfinished)
    else
      match fetch(page)
      case Failure => Run([page], LoadFailed)
      case Page(results, pages) =>
        var acc' := acc + results;
        if page + 1 <= pages then
          var rest := LoadFrom(fetch, page + 1, acc', fuel - 1);
          ExplainsStep(fetch, page, acc, fuel, rest);
          Run([page] + rest.requested, rest.outcome)
        else
          assert Gather(fetch, page, page + 1) == results;
          Run([page], Loaded(acc'))
  }

  /** `fetchAllCharacters`: start at page 1 with nothing gathered. */
  function Load(fetch: int -> Response, fuel: nat): (r: Run)
    ensures Explains(fetch, 1, [], fuel, r)
  {
    LoadFrom(fetch, 1, [], fuel)
  }

  /** Every page 1..n succeeds and reports `n` pages. */
  ghost predicate ServesPages(fetch: int -> Response, n: int)
  {
    n >= 1 && forall p :: 1 <= p <= n ==> fetch(p).Page? && fetch(p).pages == n
  }

  /** From any page up to `n`, the loop requests the remaining pages once each in
      order and appends their records. */
  lemma {:induction false} LoadFromServedPages(fetch: int -> Response, n: int, page: int,
                                               acc: seq<Character>, fuel: nat)
    requires ServesPages(fetch, n)
    requires 1 <= page <= n
    requires fuel >= n - page + 1
    ensures LoadFrom(fetch, page, acc, fuel) == Run(Range(page, n + 1), Loaded(acc + Gather(fetch, page, n + 1)))
    decreases n - page
  {
    assert fetch(page).Page? && fetch(page).pages == n;
    var results := fetch(page).results;
    assert Gather(fetch, page, n + 1) == results + Gather(fetch, page + 1, n + 1);
    assert Range(page, n + 1) == [page] + Range(page + 1, n + 1);
    if page < n {
      LoadFromServedPages(fetch, n, page + 1, acc + results, fuel - 1);
      assert acc + results + Gather(fetch, page + 1, n + 1) == acc + Gather(fetch, page, n + 1);
    } else {
      assert Gather(fetch, page + 1, n + 1) == [];
      assert acc + results == acc + Gather(fetch, page, n + 1);
    }
  }

  /** With pages 1..n all succeeding and reporting `n` pages, the loader requests
      exactly pages 1, 2, ..., n, each once, in that order, and returns their
      records concatenated in page order. */
  lemma LoadServedPages(fetch: int -> Response, n: int, fuel: nat)
    requires ServesPages(fetch, n)
    requires fuel >= n
    ensures Load(fetch, fuel) == Run(Range(1, n + 1), Loaded(Gather(fetch, 1, n + 1)))
  {
    LoadFromServedPages(fetch, n, 1, [], fuel);
  }

  /** The concatenation of a list of pages. */
  function Flatten(pages: seq<seq<Character>>): (r: seq<Character>)
  {
    if pages == [] then [] else pages[0] + Flatten(pages[1..])
  }

  /** A well-behaved server holding `pages`: page p (1-based) answers with the
      p-th list and the page count; any other page number fails. */
  function Server(pages: seq<seq<Character>>): int -> Response
  {
    p => if 1 <= p <= |pages| then Page(pages[p - 1], |pages|) else Failure
  }

  /** What the server's pages from `lo` on hold, in page order. */
  lemma {:induction false} GatherServer(pages: seq<seq<Character>>, lo: int)
    requires 1 <= lo <= |pages| + 1
    ensures Gather(Server(pages), lo, |pages| + 1) == Flatten(pages[lo - 1..])
    decreases |pages| + 1 - lo
  {
    if lo <= |pages| {
      GatherServer(pages, lo + 1);
      assert pages[lo - 1..][1..] == pages[lo..];
    }
  }

  /** Loading from a server holding a non-empty list of pages yields exactly the
      records of all pages in order, after one request per page. */
  lemma LoadServer(pages: seq<seq<Character>>, fuel: nat)
    requires |pages| >= 1
    requires fuel >= |pages|
    ensures Load(Server(pages), fuel) == Run(Range(1, |pages| + 1), Loaded(Flatten(pages)))
  {
    LoadServedPages(Server(pages), |pages|, fuel);
    GatherServer(pages, 1);
    assert pages[0..] == pages;
  }

  /** If pages 1..k-1 succeed and each lets the loop go on, but page k fails, the
      load requests pages 1..k and produces no catalog, whatever the earlier pages
      held. */
  lemma {:induction false} FailureAbortsLoad(fetch: int -> Response, k: int, fuel: nat)
    requires k >= 1
    requires forall p :: 1 <= p < k ==> Continues(fetch, p)
    requires fetch(k).Failure?
    requires fuel >= k
    ensures Load(fetch, fuel) == Run(Range(1, k + 1), LoadFailed)
  {
    FailureAbortsLoadFrom(fetch, k, 1, [], fuel);
  }

  /** The same from any page up to the failing one, whatever was gathered so far. */
  lemma {:induction false} FailureAbortsLoadFrom(fetch: int -> Response, k: int, page: int,
                                                 acc: seq<Character>, fuel: nat)
    requires 1 <= page <= k
    requires forall p :: page <= p < k ==> Continues(fetch, p)
    requires fetch(k).Failure?
    requires fuel >= k - page + 1
    ensures LoadFrom(fetch, page, acc, fuel) == Run(Range(page, k + 1), LoadFailed)
    decreases k - page
  {
    if page < k {
      assert Continues(fetch, page);
      FailureAbortsLoadFrom(fetch, k, page + 1, acc + fetch(page).results, fuel - 1);
    }
  }

  /** Even a first response reporting no pages at all costs one request. */
  lemma FirstRequestAlwaysMade(fetch: int -> Response, fuel: nat)
    requires fuel >= 1
    ensures |Load(fetch, fuel).requested| >= 1 && Load(fetch, fuel).requested[0] == 1
  {
  }
}
