/**
 * The application's state: the favorites list and its toggle, the search
 * life cycle (idle, loading, success, error) and the flags the page derives
 * from them.
 */
module App {
  import opened Wrappers
  import opened Types
  import opened GeminiService

  // ---------------------------------------------------------------------------
  // The favorites list

  /** `list.some(f => f.id === id)`: the id is among the list's ids. */
  predicate HasId(list: seq<Restaurant>, id: string): (b: bool)
    ensures b <==> id in Ids(list)
  {
    exists i :: 0 <= i < |list| && list[i].id == id
  }

  /** The ids occurring in a list. */
  function Ids(list: seq<Restaurant>): set<string>
  {
    set i | 0 <= i < |list| :: list[i].id
  }

  /** No id occurs twice. */
  predicate UniqueIds(list: seq<Restaurant>)
  {
    forall i, j :: 0 <= i < j < |list| ==> list[i].id != list[j].id
  }

  /** `a` is `b` with some of its entries left out, the others kept in their order. */
  predicate IsSubsequence(a: seq<Restaurant>, b: seq<Restaurant>)
    decreases |b|
  {
    a == [] || (b != [] && ((a[0] == b[0] && IsSubsequence(a[1..], b[1..])) || IsSubsequence(a, b[1..])))
  }

  /** `list.filter(f => f.id !== id)`: every entry with another id, in order. */
  function WithoutId(list: seq<Restaurant>, id: string): (r: seq<Restaurant>)
    ensures |r| <= |list|
    ensures forall x :: x in r <==> x in list && x.id != id
    ensures IsSubsequence(r, list)
  {
    if list == [] then []
    else
      var rest := WithoutId(list[1..], id);
      assert forall x :: x in list <==> x == list[0] || x in list[1..];
      if list[0].id == id then rest
      else
        assert ([list[0]] + rest)[1..] == rest;
        [list[0]] + rest
  }

  /** Filtering out an id that does not occur changes nothing. */
  lemma {:induction false} WithoutAbsentId(list: seq<Restaurant>, id: string)
    requires !HasId(list, id)
    ensures WithoutId(list, id) == list
  {
    if list != [] {
      AbsentFromTail(list, id);
      WithoutAbsentId(list[1..], id);
      assert list[0].id != id;
      assert [list[0]] + list[1..] == list;
    }
  }

  /** An id missing from a list is missing from its tail. */
  lemma AbsentFromTail(list: seq<Restaurant>, id: string)
    requires list != [] && !HasId(list, id)
    ensures !HasId(list[1..], id)
  {
    forall i | 0 <= i < |list[1..]|
      ensures list[1..][i].id != id
    {
      assert list[1..][i] == list[i + 1];
    }
  }

  /** The tail of a list with unique ids has unique ids. */
  lemma UniqueTail(list: seq<Restaurant>)
    requires list != [] && UniqueIds(list)
    ensures UniqueIds(list[1..])
  {
    forall i, j | 0 <= i < j < |list[1..]|
      ensures list[1..][i].id != list[1..][j].id
    {
      assert list[1..][i] == list[i + 1] && list[1..][j] == list[j + 1];
    }
  }

  /** An entry in front of a list with unique ids, whose id the list lacks, keeps the ids unique. */
  lemma UniqueCons(x: Restaurant, rest: seq<Restaurant>)
    requires UniqueIds(rest) && forall k :: 0 <= k < |rest| ==> rest[k].id != x.id
    ensures UniqueIds([x] + rest)
  {
    var r := [x] + rest;
    forall i, j | 0 <= i < j < |r|
      ensures r[i].id != r[j].id
    {
      assert r[j] == rest[j - 1];
      if i > 0 {
        assert r[i] == rest[i - 1];
      }
    }
  }

  /** Filtering out an id that occurs makes the list shorter. */
  lemma {:induction false} WithoutPresentIdShrinks(list: seq<Restaurant>, id: string)
    requires HasId(list, id)
    ensures |WithoutId(list, id)| < |list|
  {
    if list[0].id != id {
      var i :| 0 <= i < |list| && list[i].id == id;
      assert list[1..][i - 1].id == id;
      WithoutPresentIdShrinks(list[1..], id);
    }
  }

  /** The new favorites list after `toggleFavorite(restaurant)`. */
  function Toggled(favorites: seq<Restaurant>, restaurant: Restaurant): (r: seq<Restaurant>)
    // A restaurant whose id is saved is taken out, every entry with that id with it.
    ensures HasId(favorites, restaurant.id) ==> !HasId(r, restaurant.id) && |r| < |favorites|
    // Otherwise it is added at the end, behind the saved entries in their order.
    ensures !HasId(favorites, restaurant.id) ==> |r| == |favorites| + 1 && r[..|favorites|] == favorites
                                                 && r[|favorites|] == restaurant
  {
    if HasId(favorites, restaurant.id) then
      WithoutPresentIdShrinks(favorites, restaurant.id);
      var r := WithoutId(favorites, restaurant.id);
      forall i | 0 <= i < |r|
        ensures r[i].id != restaurant.id
      {
        assert r[i] in r;
      }
      r
    else
      assert (favorites + [restaurant])[..|favorites|] == favorites;
      favorites + [restaurant]
  }

  /** The ids of a list with one more entry at the end. */
  lemma IdsAppend(list: seq<Restaurant>, x: Restaurant)
    ensures Ids(list + [x]) == Ids(list) + {x.id}
  {
    var l := list + [x];
    assert forall i :: 0 <= i < |list| ==> l[i] == list[i];
    assert l[|list|] == x;
    forall id | id in Ids(l)
      ensures id in Ids(list) + {x.id}
    {
      var i :| 0 <= i < |l| && l[i].id == id;
      if i < |list| {
        assert list[i].id == id;
      }
    }
  }

  /** Filtering out an id removes exactly that id from the ids. */
  lemma IdsWithout(list: seq<Restaurant>, id: string)
    ensures Ids(WithoutId(list, id)) == Ids(list) - {id}
  {
    var r := WithoutId(list, id);
    forall x | x in Ids(r)
      ensures x in Ids(list) - {id}
    {
      var i :| 0 <= i < |r| && r[i].id == x;
      assert r[i] in list;
      var j :| 0 <= j < |list| && list[j] == r[i];
    }
    forall x | x in Ids(list) - {id}
      ensures x in Ids(r)
    {
      var j :| 0 <= j < |list| && list[j].id == x;
      assert list[j] in r;
      var i :| 0 <= i < |r| && r[i] == list[j];
    }
  }

  /** Filtering distributes over concatenation. */
  lemma {:induction false} WithoutIdAppend(a: seq<Restaurant>, b: seq<Restaurant>, id: string)
    ensures WithoutId(a + b, id) == WithoutId(a, id) + WithoutId(b, id)
    decreases |a|
  {
    if a == [] {
      assert a + b == b;
    } else {
      assert (a + b)[0] == a[0];
      assert (a + b)[1..] == a[1..] + b;
      WithoutIdAppend(a[1..], b, id);
    }
  }

  /** Filtering keeps unique ids unique. */
  lemma {:induction false} WithoutIdUnique(list: seq<Restaurant>, id: string)
    requires UniqueIds(list)
    ensures UniqueIds(WithoutId(list, id))
    decreases |list|
  {
    if list != [] {
      var rest := WithoutId(list[1..], id);
      UniqueTail(list);
      WithoutIdUnique(list[1..], id);
      if list[0].id != id {
        forall k | 0 <= k < |rest|
          ensures rest[k].id != list[0].id
        {
          assert rest[k] in list[1..];
          var m :| 0 <= m < |list[1..]| && list[1..][m] == rest[k];
          assert list[m + 1] == rest[k];
        }
        UniqueCons(list[0], rest);
      }
    }
  }

  /** Toggling an absent restaurant and then toggling it again gives back the list. */
  lemma ToggleTwiceFromAbsent(favorites: seq<Restaurant>, restaurant: Restaurant)
    requires !HasId(favorites, restaurant.id)
    ensures Toggled(Toggled(favorites, restaurant), restaurant) == favorites
  {
    var once := favorites + [restaurant];
    assert once[|favorites|].id == restaurant.id;
    WithoutIdAppend(favorites, [restaurant], restaurant.id);
    WithoutAbsentId(favorites, restaurant.id);
    assert WithoutId([restaurant], restaurant.id) == [];
    assert WithoutId(favorites, restaurant.id) + [] == favorites;
  }

  /** Toggling a saved restaurant twice keeps the set of ids; the entry moves to the end. */
  lemma ToggleTwiceFromPresent(favorites: seq<Restaurant>, restaurant: Restaurant)
    requires HasId(favorites, restaurant.id)
    ensures Toggled(Toggled(favorites, restaurant), restaurant) == WithoutId(favorites, restaurant.id) + [restaurant]
    ensures Ids(Toggled(Toggled(favorites, restaurant), restaurant)) == Ids(favorites)
  {
    var once := WithoutId(favorites, restaurant.id);
    IdsAppend(once, restaurant);
    IdsWithout(favorites, restaurant.id);
  }

  /** The ids after a toggle: the id is taken out when saved and put in otherwise. */
  lemma ToggledIds(favorites: seq<Restaurant>, restaurant: Restaurant)
    ensures HasId(favorites, restaurant.id) ==> Ids(Toggled(favorites, restaurant)) == Ids(favorites) - {restaurant.id}
    ensures !HasId(favorites, restaurant.id) ==> Ids(Toggled(favorites, restaurant)) == Ids(favorites) + {restaurant.id}
  {
    if HasId(favorites, restaurant.id) {
      IdsWithout(favorites, restaurant.id);
    } else {
      IdsAppend(favorites, restaurant);
    }
  }

  /** The entries with other ids are the same, in the same order, before and after a toggle. */
  lemma ToggleKeepsOthers(favorites: seq<Restaurant>, restaurant: Restaurant)
    ensures WithoutId(Toggled(favorites, restaurant), restaurant.id) == WithoutId(favorites, restaurant.id)
  {
    if !HasId(favorites, restaurant.id) {
      WithoutIdAppend(favorites, [restaurant], restaurant.id);
      assert WithoutId([restaurant], restaurant.id) == [];
      assert WithoutId(favorites, restaurant.id) + [] == WithoutId(favorites, restaurant.id);
    } else {
      WithoutAbsentId(Toggled(favorites, restaurant), restaurant.id);
    }
  }

  /** A list with unique ids keeps them unique through a toggle. */
  lemma ToggleKeepsUnique(favorites: seq<Restaurant>, restaurant: Restaurant)
    requires UniqueIds(favorites)
    ensures UniqueIds(Toggled(favorites, restaurant))
  {
    if HasId(favorites, restaurant.id) {
      WithoutIdUnique(favorites, restaurant.id);
    } else {
      var r := favorites + [restaurant];
      forall i, j | 0 <= i < j < |r|
        ensures r[i].id != r[j].id
      {
        assert r[i] == favorites[i];
        if j < |favorites| {
          assert r[j] == favorites[j];
        }
      }
    }
  }

  /** A card's favorite flag flips with every toggle of its restaurant. */
  lemma ToggleFlipsFlag(favorites: seq<Restaurant>, restaurant: Restaurant)
    ensures HasId(Toggled(favorites, restaurant), restaurant.id) <==> !HasId(favorites, restaurant.id)
  {
    if !HasId(favorites, restaurant.id) {
      var r := Toggled(favorites, restaurant);
      assert r[|favorites|].id == restaurant.id;
    }
  }

  // ---------------------------------------------------------------------------
  // The page state

  /** The message shown when a search fails. */
  const SearchErrorMessage: string := "We couldn't retrieve the culinary secrets of that city. Please try again."

  /** The state the page component keeps (theme and settings menu aside). */
  class AppState {
    var loadingState: LoadingState
    var restaurants: seq<Restaurant>
    var currentCity: string
    var errorMsg: string
    var favorites: seq<Restaurant>
    var isFavoritesOpen: bool
    /** Searches begun so far, and those whose result has not arrived yet. */
    ghost var started: nat
    ghost var pending: nat

    /** What holds between any two events, whatever the order the results arrive in. */
    ghost predicate Valid()
      reads this
    {
      && pending <= started
      && (loadingState == Idle <==> started == 0)
      && (loadingState == Idle ==> restaurants == [] && currentCity == [])
      && (loadingState == Loading ==> pending > 0 && restaurants == [] && errorMsg == [])
      && (loadingState == Error ==> errorMsg == SearchErrorMessage)
      && (errorMsg == [] || errorMsg == SearchErrorMessage)
    }

    /** The first render: idle, no results, favorites view closed, the saved favorites loaded. */
    constructor(savedFavorites: seq<Restaurant>)
      ensures Valid() && started == 0
      ensures loadingState == Idle && restaurants == [] && currentCity == [] && errorMsg == []
      ensures favorites == savedFavorites && !isFavoritesOpen
    {
      loadingState := Idle;
      restaurants := [];
      currentCity := [];
      errorMsg := [];
      favorites := savedFavorites;
      isFavoritesOpen := false;
      started := 0;
      pending := 0;
    }

    /** `toggleFavorite(restaurant)`. */
    method ToggleFavorite(restaurant: Restaurant)
      requires Valid()
      modifies this
      ensures Valid()
      ensures favorites == Toggled(old(favorites), restaurant)
      ensures IsFavorite(restaurant) == !old(IsFavorite(restaurant))
      ensures loadingState == old(loadingState) && restaurants == old(restaurants) && currentCity == old(currentCity)
      ensures errorMsg == old(errorMsg) && isFavoritesOpen == old(isFavoritesOpen)
      ensures started == old(started) && pending == old(pending)
      // The favorites view shows the new list at once; the results view is unaffected.
      ensures isFavoritesOpen ==> DisplayedRestaurants() == Toggled(old(favorites), restaurant)
      ensures !isFavoritesOpen ==> DisplayedRestaurants() == old(DisplayedRestaurants())
    {
      ToggleFlipsFlag(favorites, restaurant);
      favorites := Toggled(favorites, restaurant);
    }

    /** The favorites button: opens or closes the favorites view. */
    method ToggleFavoritesView()
      requires Valid()
      modifies this
      ensures Valid()
      ensures isFavoritesOpen == !old(isFavoritesOpen)
      ensures loadingState == old(loadingState) && restaurants == old(restaurants) && currentCity == old(currentCity)
      ensures errorMsg == old(errorMsg) && favorites == old(favorites)
      ensures started == old(started) && pending == old(pending)
      // Opening shows the favorites, closing shows the search results again.
      ensures !old(isFavoritesOpen) ==> DisplayedRestaurants() == favorites
      ensures old(isFavoritesOpen) ==> DisplayedRestaurants() == restaurants
    {
      isFavoritesOpen := !isFavoritesOpen;
    }

    /** "Go Discover" on the empty favorites view: closes it. */
    method CloseFavoritesView()
      requires Valid()
      modifies this
      ensures Valid()
      ensures !isFavoritesOpen
      ensures loadingState == old(loadingState) && restaurants == old(restaurants) && currentCity == old(currentCity)
      ensures errorMsg == old(errorMsg) && favorites == old(favorites)
      ensures started == old(started) && pending == old(pending)
      ensures DisplayedRestaurants() == restaurants && !IsFavoritesEmpty()
    {
      isFavoritesOpen := false;
    }

    /** The synchronous part of `handleSearch(city)`, before the request is awaited. */
    method BeginSearch(city: string)
      requires Valid()
      modifies this
      ensures Valid()
      ensures loadingState == Loading && restaurants == [] && errorMsg == []
      ensures currentCity == city && !isFavoritesOpen && favorites == old(favorites)
      ensures started == old(started) + 1 && pending == old(pending) + 1
      // The page shows an empty results view while the search runs.
      ensures DisplayedRestaurants() == [] && !IsFavoritesEmpty()
    {
      loadingState := Loading;
      restaurants := [];
      errorMsg := [];
      currentCity := city;
      isFavoritesOpen := false;
      started := started + 1;
      pending := pending + 1;
    }

    /** The rest of `handleSearch`, once the awaited call resolves or throws. Results may
        arrive in any order when searches overlap, so only a pending search is required. */
    method FinishSearch(outcome: Result<seq<Restaurant>, FetchError>)
      requires Valid() && pending > 0
      modifies this
      ensures Valid()
      ensures outcome.Ok? ==> loadingState == Success && restaurants == outcome.value && errorMsg == old(errorMsg)
      ensures outcome.Err? ==> loadingState == Error && restaurants == old(restaurants) && errorMsg == SearchErrorMessage
      ensures currentCity == old(currentCity) && isFavoritesOpen == old(isFavoritesOpen) && favorites == old(favorites)
      ensures started == old(started) && pending == old(pending) - 1
      // Without an overlapping search, success leaves no message and failure no results.
      ensures old(loadingState) == Loading && outcome.Ok? ==> errorMsg == []
      ensures old(loadingState) == Loading && outcome.Err? ==> restaurants == []
      // Outside the favorites view, the results appear as soon as they arrive.
      ensures !isFavoritesOpen && outcome.Ok? ==> DisplayedRestaurants() == outcome.value
    {
      pending := pending - 1;
      match outcome
      case Ok(results) =>
        restaurants := results;
        loadingState := Success;
      case Err(_) =>
        loadingState := Error;
        errorMsg := SearchErrorMessage;
    }

    /** `handleSearch(city)` run to completion: the fetch is given the key, the
        model's reply and the JSON parser, and its outcome decides the new state. */
    method HandleSearch(city: string, apiKey: Option<string>, reply: Result<Option<string>, string>,
                        parse: string -> Result<seq<Restaurant>, string>)
      requires Valid()
      modifies this
      ensures Valid()
      ensures currentCity == city && !isFavoritesOpen && favorites == old(favorites)
      ensures loadingState != Idle && loadingState != Loading
      ensures var outcome := FetchTopRestaurants(apiKey, city, reply, parse).result;
              && (outcome.Ok? ==> loadingState == Success && restaurants == outcome.value && errorMsg == [])
              && (outcome.Err? ==> loadingState == Error && restaurants == [] && errorMsg == SearchErrorMessage)
      ensures !IsTruthy(apiKey) ==> loadingState == Error
      ensures started == old(started) + 1 && pending == old(pending)
      // What the page shows afterwards: the fetched list, or nothing after a failure.
      ensures var outcome := FetchTopRestaurants(apiKey, city, reply, parse).result;
              && (outcome.Ok? ==> DisplayedRestaurants() == outcome.value)
              && (outcome.Err? ==> DisplayedRestaurants() == [])
      ensures !IsFavoritesEmpty()
    {
      BeginSearch(city);
      var outcome := FetchTopRestaurants(apiKey, city, reply, parse).result;
      FinishSearch(outcome);
    }

    /** `displayedRestaurants`: the favorites in the favorites view, the search results otherwise. */
    function DisplayedRestaurants(): seq<Restaurant>
      reads this
    {
      if isFavoritesOpen then favorites else restaurants
    }

    /** `isFavoritesEmpty`: the favorites view is open and shows nothing. */
    function IsFavoritesEmpty(): (r: bool)
      reads this
      ensures r <==> isFavoritesOpen && DisplayedRestaurants() == []
    {
      isFavoritesOpen && |favorites| == 0
    }

    /** A card's `isFavorite` flag: its restaurant's id is saved. */
    function IsFavorite(restaurant: Restaurant): (r: bool)
      reads this
      ensures r <==> restaurant.id in Ids(favorites)
    {
        HasId(favorites, restaurant.id)
    }
  }

  /** Once a search has begun the page is never idle again. */
  lemma NeverIdleAgain(s: AppState)
    requires s.Valid() && s.started > 0
    ensures s.loadingState != Idle
  {
  }
}
