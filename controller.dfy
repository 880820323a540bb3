/**
 * The search page's state and its handlers. Every HTTP request is replaced by its
 * outcome, passed in as a parameter: the data the endpoint sent, or a failure.
 */
module Controller {
  import opened Text
  import opened Lists
  import Categories
  import Makes

  /** The outcome of one request: the response body, or a failed request. */
  datatype Fetch<T> = Success(data: T) | Failure

  datatype Option<T> = None | Some(value: T)

  /** A product row of the products endpoint; the page only passes it on to the result list. */
  datatype Product = Product(fields: map<string, string>)

  /** The message the page shows when a search request fails. */
  const FetchFailedMessage := "Failed to fetch data. Please try again later."

  // ---------------------------------------------------------------------------
  // The year options
  // ---------------------------------------------------------------------------

  /** The years offered in the year selector: 103 consecutive years starting at 1922. */
  function YearOptions(): (ys: seq<int>)
    ensures |ys| == 103
  {
    seq(103, i requires 0 <= i < 103 => 1922 + i)
  }

  /** The options run from 1922 to 2024 in strictly increasing order, and a year is offered exactly when it lies in that range. */
  lemma YearOptionsRange(y: int)
    ensures YearOptions()[0] == 1922 && YearOptions()[102] == 2024
    ensures forall i, j :: 0 <= i < j < 103 ==> YearOptions()[i] < YearOptions()[j]
    ensures y in YearOptions() <==> 1922 <= y <= 2024
  {
    var ys := YearOptions();
    if 1922 <= y <= 2024 {
      assert ys[y - 1922] == y;
    }
  }

  // ---------------------------------------------------------------------------
  // The products query
  // ---------------------------------------------------------------------------

  /** The query of a products request: the five facets, in this order, each as the page holds it. */
  function SearchQuery(make: string, year: string, model: string, category: string, keyword: string): (q: seq<(string, string)>)
    ensures |q| == 5
  {
    [("make", make), ("year", year), ("model", model), ("category", category), ("keyword", keyword)]
  }

  /** The names of the parameters of a query, in order. */
  function Keys(q: seq<(string, string)>): (ks: seq<string>)
    ensures |ks| == |q| && forall i :: 0 <= i < |q| ==> ks[i] == q[i].0
  {
    if q == [] then [] else [q[0].0] + Keys(q[1..])
  }

  /** The value of the first parameter named key, if there is one. */
  function Lookup(q: seq<(string, string)>, key: string): Option<string> {
    if q == [] then None
    else if q[0].0 == key then Some(q[0].1)
    else Lookup(q[1..], key)
  }

  /** A query has a value for a name exactly when one of its parameters has that name, and the value is paired with the name. */
  lemma {:induction false} LookupFinds(q: seq<(string, string)>, key: string)
    ensures Lookup(q, key).None? <==> key !in Keys(q)
    ensures Lookup(q, key).Some? ==> exists i :: 0 <= i < |q| && q[i] == (key, Lookup(q, key).value)
  {
    if q != [] {
      LookupFinds(q[1..], key);
      assert Keys(q) == [q[0].0] + Keys(q[1..]);
      if q[0].0 != key && Lookup(q, key).Some? {
        var i :| 0 <= i < |q[1..]| && q[1..][i] == (key, Lookup(q, key).value);
        assert q[i + 1] == q[1..][i];
      }
    }
  }

  /** A products query names exactly make, year, model, category and keyword, in this order, and never a SKU. */
  lemma SearchQueryKeys(make: string, year: string, model: string, category: string, keyword: string)
    ensures var ks := Keys(SearchQuery(make, year, model, category, keyword));
      ks == ["make", "year", "model", "category", "keyword"] && "sku" !in ks && "SKU" !in ks
  {
  }

  /** The value found for a name is the one paired with its first occurrence. */
  lemma {:induction false} LookupAt(q: seq<(string, string)>, i: nat)
    requires i < |q| && forall j :: 0 <= j < i ==> q[j].0 != q[i].0
    ensures Lookup(q, q[i].0) == Some(q[i].1)
    decreases i
  {
    if i > 0 {
      assert q[1..][i - 1] == q[i];
      assert forall j :: 0 <= j < i - 1 ==> q[1..][j] == q[j + 1];
      LookupAt(q[1..], i - 1);
    }
  }

  /** A products query carries each facet as the page holds it, the empty ones too. */
  lemma SearchQueryValues(make: string, year: string, model: string, category: string, keyword: string)
    ensures var q := SearchQuery(make, year, model, category, keyword);
      Lookup(q, "make") == Some(make) && Lookup(q, "year") == Some(year)
      && Lookup(q, "model") == Some(model) && Lookup(q, "category") == Some(category)
      && Lookup(q, "keyword") == Some(keyword)
  {
    var q := SearchQuery(make, year, model, category, keyword);
    LookupAt(q, 0);
    LookupAt(q, 1);
    LookupAt(q, 2);
    LookupAt(q, 3);
    LookupAt(q, 4);
  }

  // ---------------------------------------------------------------------------
  // The page
  // ---------------------------------------------------------------------------

  /** The state of the search page: one field per `useState` hook of the component. */
  class SearchPage {
    var searchResults: seq<Product>
    var make: string
    var model: string
    var year: string
    var keyword: string
    var category: string
    var categories: seq<string>
    var loading: bool
    var error: string
    var makes: seq<string>
    var models: seq<string>

    /**
     * What every handler keeps: the error is empty or the failure message, and it is empty
     * while a search is running; the category and make lists are normalised.
     */
    ghost predicate Valid()
      reads this
    {
      (error == "" || error == FetchFailedMessage)
      && (loading ==> error == "")
      && NoDup(categories) && (forall i :: 0 <= i < |categories| ==> IsTrimmed(categories[i]))
      && NoDup(makes) && (forall i :: 0 <= i < |makes| ==> ',' !in makes[i] && IsTrimmed(makes[i]))
    }

    /** The state of a freshly mounted page, before any effect has run. */
    constructor ()
      ensures Valid()
      ensures searchResults == [] && categories == [] && makes == [] && models == []
      ensures make == "" && model == "" && year == "" && keyword == "" && category == ""
      ensures !loading && error == ""
    {
      searchResults, categories, makes, models := [], [], [], [];
      make, model, year, keyword, category := "", "", "", "", "";
      loading, error := false, "";
    }

    /** handleMakeClick: the chosen make becomes the current make; nothing else changes. */
    method HandleMakeClick(selected: string)
      requires Valid()
      modifies this`make
      ensures make == selected && Valid()
    {
      make := selected;
    }

    /** handleModelClick: the chosen model becomes the current model; nothing else changes. */
    method HandleModelClick(selected: string)
      requires Valid()
      modifies this`model
      ensures model == selected && Valid()
    {
      model := selected;
    }

    /** The year selector's change handler. */
    method SetYear(value: string)
      requires Valid()
      modifies this`year
      ensures year == value && Valid()
    {
      year := value;
    }

    /** The category selector's change handler. */
    method SetCategory(value: string)
      requires Valid()
      modifies this`category
      ensures category == value && Valid()
    {
      category := value;
    }

    /** The keyword input's change handler. */
    method SetKeyword(value: string)
      requires Valid()
      modifies this`keyword
      ensures keyword == value && Valid()
    {
      keyword := value;
    }

    /**
     * The mount effect: the raw category strings, when they arrive, become the category
     * list; a failed request leaves the list as it was.
     */
    method LoadCategories(response: Fetch<seq<string>>)
      requires Valid()
      modifies this`categories
      ensures response.Success? ==> categories == Categories.Normalise(response.data)
      ensures response.Failure? ==> categories == old(categories)
      ensures Valid()
    {
      if response.Success? {
        var formatted := Categories.Normalise(response.data);
        Categories.NormaliseShape(response.data);
        categories := formatted;
      }
    }

    /**
     * The effect that runs when the make changes: it asks for the makes matching the current
     * make (the returned term), and the raw make strings, when they arrive, become the make
     * list; a failed request leaves the list as it was.
     */
    method RefreshMakes(response: Fetch<seq<string>>) returns (term: string)
      requires Valid()
      modifies this`makes
      ensures term == make
      ensures response.Success? ==> makes == Makes.NormaliseMakes(response.data)
      ensures response.Failure? ==> makes == old(makes)
      ensures Valid()
    {
      term := make;
      if response.Success? {
        var formatted := Makes.NormaliseMakes(response.data);
        Makes.NormaliseMakesShape(response.data);
        makes := formatted;
      }
    }

    /**
     * The other effect that runs when the make changes: with no make the model list is
     * emptied and nothing is requested; otherwise the models of the make are requested (the
     * returned make), and the response, when it arrives, replaces the list; a failed request
     * leaves the list as it was.
     */
    method RefreshModels(response: Fetch<seq<string>>) returns (request: Option<string>)
      requires Valid()
      modifies this`models
      ensures make == "" ==> request == None && models == []
      ensures make != "" ==> request == Some(make)
      ensures make != "" && response.Success? ==> models == response.data
      ensures make != "" && response.Failure? ==> models == old(models)
      ensures Valid()
    {
      if make != "" {
        request := Some(make);
        if response.Success? {
          models := response.data;
        }
      } else {
        request := None;
        models := [];
      }
    }

    /**
     * The page after mounting: the categories effect runs, then the two effects that depend
     * on the make; on a fresh page the make is empty, so no models are requested.
     */
    method Mount(categoriesResponse: Fetch<seq<string>>, makesResponse: Fetch<seq<string>>,
                 modelsResponse: Fetch<seq<string>>)
      requires Valid()
      modifies this`categories, this`makes, this`models
      ensures categoriesResponse.Success? ==> categories == Categories.Normalise(categoriesResponse.data)
      ensures categoriesResponse.Failure? ==> categories == old(categories)
      ensures makesResponse.Success? ==> makes == Makes.NormaliseMakes(makesResponse.data)
      ensures makesResponse.Failure? ==> makes == old(makes)
      ensures make == "" ==> models == []
      ensures make != "" && modelsResponse.Success? ==> models == modelsResponse.data
      ensures make != "" && modelsResponse.Failure? ==> models == old(models)
      ensures Valid()
    {
      LoadCategories(categoriesResponse);
      var _ := RefreshMakes(makesResponse);
      var _ := RefreshModels(modelsResponse);
    }

    /**
     * Choosing a make in the selector: the click handler, then, when the make actually
     * changed, the two effects that depend on it. The model and the year are kept.
     */
    method SelectMake(selected: string, makesResponse: Fetch<seq<string>>, modelsResponse: Fetch<seq<string>>)
      requires Valid()
      modifies this`make, this`makes, this`models
      ensures make == selected
      ensures selected == old(make) ==> makes == old(makes) && models == old(models)
      ensures selected != old(make) && makesResponse.Success? ==> makes == Makes.NormaliseMakes(makesResponse.data)
      ensures selected != old(make) && makesResponse.Failure? ==> makes == old(makes)
      ensures selected != old(make) && selected == "" ==> models == []
      ensures selected != old(make) && selected != "" && modelsResponse.Success? ==> models == modelsResponse.data
      ensures selected != old(make) && selected != "" && modelsResponse.Failure? ==> models == old(models)
      ensures Valid()
    {
      var previous := make;
      HandleMakeClick(selected);
      if selected != previous {
        var _ := RefreshMakes(makesResponse);
        var _ := RefreshModels(modelsResponse);
      }
    }

    /** handleSearch up to the request: a search is running, the error is cleared, and the query is built. */
    method BeginSearch() returns (query: seq<(string, string)>)
      requires Valid()
      modifies this`loading, this`error
      ensures loading && error == ""
      ensures query == SearchQuery(make, year, model, category, keyword)
      ensures Valid()
    {
      loading := true;
      error := "";
      query := SearchQuery(make, year, model, category, keyword);
    }

    /**
     * handleSearch after the request: the products replace the results, or a failure sets
     * the failure message and keeps the results; either way the search is over.
     */
    method EndSearch(response: Fetch<seq<Product>>)
      requires Valid()
      modifies this`searchResults, this`loading, this`error
      ensures response.Success? ==> searchResults == response.data && error == old(error)
      ensures response.Failure? ==> searchResults == old(searchResults) && error == FetchFailedMessage
      ensures !loading
      ensures Valid()
    {
      if response.Success? {
        searchResults := response.data;
      } else {
        error := FetchFailedMessage;
      }
      loading := false;
    }

    /**
     * handleSearch as a whole: the products request carries the five facets; on success the
     * products replace the results and no error is shown, on failure the results are kept
     * and the failure message is shown; the search is over afterwards.
     */
    method HandleSearch(response: Fetch<seq<Product>>) returns (query: seq<(string, string)>)
      requires Valid()
      modifies this`searchResults, this`loading, this`error
      ensures query == SearchQuery(make, year, model, category, keyword)
      ensures response.Success? ==> searchResults == response.data && error == ""
      ensures response.Failure? ==> searchResults == old(searchResults) && error == FetchFailedMessage
      ensures !loading
      ensures Valid()
    {
      query := BeginSearch();
      EndSearch(response);
    }
  }
}
