/** `github_search_repos`: paging through the repository search results. The
    requests are not modelled; the answer to the request for each page number is an
    input, with the single retry after a 403 folded into `Http.Exchange`. */
module Search {

  import opened Http

  /** One search hit; the crawler only reads the full name. */
  datatype Repo = Repo(fullName: string, stars: int)

  /** The search API serves at most 1000 results, 100 to a page. */
  const MAX_PAGES := 10
  const PER_PAGE := 100

  /** `min(10, (max_repos + 99) // 100)`: the pages the loop may request. Python's `//`
      rounds toward negative infinity, as Dafny's `/` does for a positive divisor. */
  function PagesNeeded(maxRepos: int): (r: int)
    ensures r <= MAX_PAGES
    ensures maxRepos <= 0 ==> r <= 0
    ensures -PER_PAGE < maxRepos <= 0 ==> r == 0
    ensures 0 < maxRepos <= MAX_PAGES * PER_PAGE ==> (r - 1) * PER_PAGE < maxRepos <= r * PER_PAGE
    ensures maxRepos > MAX_PAGES * PER_PAGE ==> r == MAX_PAGES
  {
    var ceiling := (maxRepos + 99) / 100;
    if ceiling < 10 then ceiling else 10
  }

  /** A page the loop goes on after: status 200 and at least one item (a body
      without an `items` field reads as no items). */
  predicate PageOk(response: Response<seq<Repo>>) {
    response.status == OK && response.body != []
  }

  /** The items of pages `1 .. upto - 1`, in page order. */
  function Items(pages: int -> Exchange<seq<Repo>>, upto: int): seq<Repo>
    decreases upto
  {
    if upto <= 1 then [] else Items(pages, upto - 1) + Final(pages(upto - 1)).body
  }

  /** Reading more pages never changes what earlier pages gave. */
  lemma {:induction false} ItemsGrow(pages: int -> Exchange<seq<Repo>>, m: int, n: int)
    requires m <= n
    ensures Items(pages, m) <= Items(pages, n)
    decreases n - m
  {
    if m < n {
      ItemsGrow(pages, m, n - 1);
      if n > 1 {
        assert Items(pages, n - 1) <= Items(pages, n);
      }
    }
  }

  /** `github_search_repos(license_key, language, max_repos)`: `requested` lists the
      page numbers asked for, in order. Pages 1, 2, ... are requested while fewer than
      `PagesNeeded` have been; the first page that is not a 200 or has no items stops
      the loop, and the items of the pages before it are kept. */
  method SearchRepos(maxRepos: int, pages: int -> Exchange<seq<Repo>>)
    returns (repos: seq<Repo>, requested: seq<int>)
    ensures |requested| <= if PagesNeeded(maxRepos) < 0 then 0 else PagesNeeded(maxRepos)
    ensures forall k :: 0 <= k < |requested| ==> requested[k] == k + 1
    ensures forall p :: 1 <= p < |requested| ==> PageOk(Final(pages(p)))
    ensures |requested| < PagesNeeded(maxRepos) ==>
      |requested| >= 1 && !PageOk(Final(pages(|requested|)))
    ensures |requested| > 0 && !PageOk(Final(pages(|requested|))) ==> repos == Items(pages, |requested|)
    ensures |requested| > 0 && PageOk(Final(pages(|requested|))) ==> repos == Items(pages, |requested| + 1)
    ensures |requested| == 0 ==> repos == []
  {
    repos := [];
    requested := [];
    var pagesNeeded := PagesNeeded(maxRepos);
    var page := 1;
    while page <= pagesNeeded
      invariant 1 <= page && (page <= pagesNeeded + 1 || page == 1)
      invariant |requested| == page - 1
      invariant forall k :: 0 <= k < |requested| ==> requested[k] == k + 1
      invariant forall p :: 1 <= p < page ==> PageOk(Final(pages(p)))
      invariant repos == Items(pages, page)
    {
      requested := requested + [page];
      var response := Final(pages(page));
      if response.status != OK {
        break;
      }
      var items := response.body;
      if items == [] {
        break;
      }
      repos := repos + items;
      page := page + 1;
    }
  }
}
