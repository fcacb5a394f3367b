/**
 * The state of the recipe page: the listing of one page of recipes fetched
 * from `/get-all-recipes`, the page counters of the Previous and Next
 * buttons, and the recipe shown in the modal.
 */
module RecipesPage {
  import opened Wrappers
  import opened Catalogue

  /** The number of recipes the page asks for: `limit=20`. */
  const PageSize := 20

  const NoRecipesMessage := "No recipes available for this page."
  const FetchFailedMessage := "Failed to fetch recipes. Please try again later."

  /**
   * How a request ends: with an error thrown by the transport or by reading
   * the answer, or with the body's `recipes`, `total_pages` (absent is
   * `None`) and `total_recipes`.
   */
  datatype FetchOutcome =
    | Failure
    | Success(recipes: seq<Recipe>, totalPages: Option<int>, totalRecipes: int)

  /** JavaScript's `Math.ceil(x / d)` for an integer `x` and a positive `d`. */
  function CeilDiv(x: int, d: int): (r: int)
    requires d >= 1
  {
    -((-x) / d)
  }

  /** `CeilDiv(x, d)` is the least `r` with `x <= r * d`. */
  lemma {:induction false} CeilDivSpec(x: int, d: int)
    requires d >= 1
    ensures var r := CeilDiv(x, d); (r - 1) * d < x <= r * d
  {
    var q := (-x) / d;
    assert q * d <= -x < q * d + d;
    NegatedProducts(q, d);
  }

  lemma NegatedProducts(q: int, d: int)
    ensures (-q) * d == -(q * d) && (-q - 1) * d == -(q * d) - d
  {
  }

  /** `data.total_pages || Math.ceil(data.total_recipes / 20)`: an absent or zero count falls back on the ceiling. */
  function PageCount(totalPages: Option<int>, totalRecipes: int): (r: int)
    ensures totalPages.Some? && totalPages.value != 0 ==> r == totalPages.value
    ensures totalPages.None? || totalPages.value == 0 ==> (r - 1) * PageSize < totalRecipes <= r * PageSize
  {
    CeilDivSpec(totalRecipes, PageSize);
    if totalPages.Some? && totalPages.value != 0 then totalPages.value else CeilDiv(totalRecipes, PageSize)
  }

  /** The updater of Previous, `Math.max(prev - 1, 1)`. */
  function PreviousPage(page: int): (r: int)
    ensures r >= 1
    ensures page > 1 ==> r == page - 1
    ensures page <= 1 ==> r == 1
  {
    if page - 1 >= 1 then page - 1 else 1
  }

  /** The updater of Next, `page < totalPages ? prev + 1 : totalPages`. */
  function NextPage(page: int, totalPages: int): (r: int)
    ensures r <= totalPages
    ensures page < totalPages ==> r == page + 1
    ensures page >= totalPages ==> r == totalPages
  {
    if page < totalPages then page + 1 else totalPages
  }

  /** Previous is disabled on the first page. */
  predicate PreviousEnabled(page: int) {
    page != 1
  }

  /** Next is disabled from the last page on. */
  predicate NextEnabled(page: int, totalPages: int) {
    page < totalPages
  }

  /** A click on an enabled Previous moves one page back and stays on a page from 1 on. */
  lemma PreviousClick(page: int)
    requires page >= 1 && PreviousEnabled(page)
    ensures PreviousPage(page) == page - 1 >= 1
  {
  }

  /** A click on an enabled Next moves one page on without leaving the page count. */
  lemma NextClick(page: int, totalPages: int)
    requires page >= 1 && NextEnabled(page, totalPages)
    ensures NextPage(page, totalPages) == page + 1 <= totalPages
  {
  }

  /**
   * The request `?page=<page>&limit=20`. It carries no search, so the
   * backend answers it with the 404 for an empty catalogue and otherwise
   * with the listing of page `page` of the whole catalogue, 20 to a page.
   */
  function PageRequest(page: int): (q: Query)
    ensures q.search.None? && q.page == Some(page) && q.limit == Some(PageSize)
    ensures forall catalogue :: GetAllRecipes(catalogue, q) ==
              if catalogue == [] then NotFound else Respond(catalogue, page, PageSize)
  {
    Query(None, Some(page), Some(PageSize))
  }

  /**
   * What the page makes of an answer of `/get-all-recipes`: a listing is a
   * success; the 404 and the failing page count are errors of the transport.
   */
  function OutcomeOf(response: Response): (o: FetchOutcome)
    ensures o.Failure? <==> !response.Listing?
    ensures response.Listing? ==>
              o == Success(response.recipes, Some(response.totalPages), response.totalRecipes)
  {
    if response.Listing? then Success(response.recipes, Some(response.totalPages), response.totalRecipes)
    else Failure
  }

  /**
   * Asking the backend for page `page >= 1` of a catalogue fails exactly
   * when the catalogue is empty; otherwise it yields that page of the
   * catalogue sorted by name, and a non-empty page sets the page count to
   * the catalogue's, which is at least `page`, so that Next is enabled
   * exactly when a further page exists.
   */
  lemma FetchPage(catalogue: seq<Recipe>, page: int)
    requires page >= 1
    ensures var o := OutcomeOf(GetAllRecipes(catalogue, PageRequest(page)));
            && (o.Failure? <==> catalogue == [])
            && (o.Success? ==>
                  o.recipes == PageSlice(SortByName(catalogue), page, PageSize)
                  && o.totalRecipes == |catalogue|)
            && (o.Success? && o.recipes != [] ==>
                  var t := PageCount(o.totalPages, o.totalRecipes);
                  t == TotalPages(|catalogue|, PageSize) && 1 <= page <= t)
  {
    if catalogue != [] {
      BlankSearchKeepsAll(catalogue, None);
      assert GetAllRecipes(catalogue, PageRequest(page)) == Respond(catalogue, page, PageSize);
      ListingOutcome(catalogue, page);
    }
  }

  /** The outcome of the listing of page `page >= 1` of some records. */
  lemma ListingOutcome(found: seq<Recipe>, page: int)
    requires page >= 1
    ensures var o := OutcomeOf(Respond(found, page, PageSize));
            && o.Success?
            && o.recipes == PageSlice(SortByName(found), page, PageSize)
            && o.totalRecipes == |found|
            && (o.recipes != [] ==>
                  var t := PageCount(o.totalPages, o.totalRecipes);
                  t == TotalPages(|found|, PageSize) && page <= t)
  {
    var sorted := SortByName(found);
    if PageSlice(sorted, page, PageSize) != [] {
      SortByLength(SortKey, found);
      NonEmptyPage(sorted, page, PageSize);
      TotalPagesSpec(|found|, PageSize);
    }
  }

  /** A non-empty page of a list is one of its `total_pages` pages. */
  lemma NonEmptyPage<T>(xs: seq<T>, page: int, limit: int)
    requires page >= 1 && limit >= 1 && PageSlice(xs, page, limit) != []
    ensures page <= TotalPages(|xs|, limit)
  {
    PageSliceSpec(xs, page, limit);
    TotalPagesSpec(|xs|, limit);
    PageWithinCount(page, TotalPages(|xs|, limit), |xs|, limit);
  }

  /** A page that starts before the `n`-th record is no later than the last of `t` pages holding them. */
  lemma PageWithinCount(page: int, t: int, n: int, d: int)
    requires d >= 1 && (page - 1) * d < n <= t * d
    ensures page <= t
  {
    if t <= page - 1 {
      MultiplyMonotone(t, page - 1, d);
    }
  }

  /** The view of `RecipesPage`, one field per state hook. */
  class RecipesView {
    var recipes: seq<Recipe>
    var error: Option<string>
    var page: int
    var totalPages: int
    var loading: bool
    var selectedRecipe: Option<Recipe>
    var showDirections: bool

    /** The page counter never drops below the first page. */
    ghost predicate Valid()
      reads this
    {
      page >= 1
    }

    /** The initial values of the hooks: loading page 1 of 1, nothing shown. */
    constructor ()
      ensures Valid()
      ensures recipes == [] && error == None && page == 1 && totalPages == 1 && loading
      ensures selectedRecipe == None && !showDirections
    {
      recipes := [];
      error := None;
      page := 1;
      totalPages := 1;
      loading := true;
      selectedRecipe := None;
      showDirections := false;
    }

    /**
     * The start of `fetchRecipes(page)`, run after every change of the page:
     * loading, no error, and the request it sends.
     */
    method BeginFetch() returns (request: Query)
      requires Valid()
      modifies this
      ensures Valid()
      ensures request == PageRequest(page)
      ensures loading && error == None
      ensures recipes == old(recipes) && page == old(page) && totalPages == old(totalPages)
      ensures selectedRecipe == old(selectedRecipe) && showDirections == old(showDirections)
    {
      loading := true;
      error := None;
      request := Query(None, Some(page), Some(PageSize));
    }

    /**
     * The end of `fetchRecipes`: a non-empty list replaces the recipes and
     * the page count; an empty one clears the recipes with the "no recipes"
     * error; a failure keeps both with the "failed" error. Loading ends in
     * every case, and the page and the modal are left alone.
     */
    method FinishFetch(outcome: FetchOutcome)
      requires Valid()
      modifies this
      ensures Valid()
      ensures !loading
      ensures page == old(page) && selectedRecipe == old(selectedRecipe) && showDirections == old(showDirections)
      ensures outcome.Success? && outcome.recipes != [] ==>
                recipes == outcome.recipes
                && totalPages == PageCount(outcome.totalPages, outcome.totalRecipes)
                && error == old(error)
      ensures outcome.Success? && outcome.recipes == [] ==>
                recipes == [] && error == Some(NoRecipesMessage) && totalPages == old(totalPages)
      ensures outcome.Failure? ==>
                recipes == old(recipes) && error == Some(FetchFailedMessage) && totalPages == old(totalPages)
    {
      if outcome.Success? {
        if |outcome.recipes| > 0 {
          recipes := outcome.recipes;
          totalPages := PageCount(outcome.totalPages, outcome.totalRecipes);
        } else {
          recipes := [];
          error := Some(NoRecipesMessage);
        }
      } else {
        error := Some(FetchFailedMessage);
      }
      loading := false;
    }

    /** A click on Previous, which does nothing while the button is disabled. */
    method Previous()
      requires Valid()
      modifies this
      ensures Valid()
      ensures page == if PreviousEnabled(old(page)) then PreviousPage(old(page)) else old(page)
      ensures old(page) > 1 ==> page == old(page) - 1
      ensures recipes == old(recipes) && error == old(error) && totalPages == old(totalPages) && loading == old(loading)
      ensures selectedRecipe == old(selectedRecipe) && showDirections == old(showDirections)
    {
      if PreviousEnabled(page) {
        page := PreviousPage(page);
      }
    }

    /** A click on Next, which does nothing while the button is disabled. */
    method Next()
      requires Valid()
      modifies this
      ensures Valid()
      ensures page == if NextEnabled(old(page), old(totalPages)) then NextPage(old(page), old(totalPages)) else old(page)
      ensures old(page) < old(totalPages) ==> page == old(page) + 1 <= totalPages
      ensures recipes == old(recipes) && error == old(error) && totalPages == old(totalPages) && loading == old(loading)
      ensures selectedRecipe == old(selectedRecipe) && showDirections == old(showDirections)
    {
      if NextEnabled(page, totalPages) {
        page := NextPage(page, totalPages);
      }
    }

    /** `handleRecipeClick`: the recipe opens in the modal with its directions hidden. */
    method SelectRecipe(recipe: Recipe)
      requires Valid()
      modifies this
      ensures Valid()
      ensures selectedRecipe == Some(recipe) && !showDirections
      ensures recipes == old(recipes) && error == old(error) && page == old(page)
      ensures totalPages == old(totalPages) && loading == old(loading)
    {
      selectedRecipe := Some(recipe);
      showDirections := false;
    }

    /** Show More: the directions of the open recipe are shown. */
    method ShowMore()
      requires Valid()
      modifies this
      ensures Valid()
      ensures showDirections
      ensures recipes == old(recipes) && error == old(error) && page == old(page)
      ensures totalPages == old(totalPages) && loading == old(loading) && selectedRecipe == old(selectedRecipe)
    {
      showDirections := true;
    }

    /** Close: the modal closes. */
    method Close()
      requires Valid()
      modifies this
      ensures Valid()
      ensures selectedRecipe == None
      ensures recipes == old(recipes) && error == old(error) && page == old(page)
      ensures totalPages == old(totalPages) && loading == old(loading) && showDirections == old(showDirections)
    {
      selectedRecipe := None;
    }
  }
}
