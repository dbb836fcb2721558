/**
  The catalog queries of `AnimeService`: `getAllAnimes` loads the whole
  catalog, keeps the anime matching the optional title and subtype
  parameters, sorts them when asked to, then keeps those matching the
  optional status parameter; `getAnimeById` looks one anime up.
  The catalog is the sequence of stored anime in the order `findAll` yields.
 */
module Catalog {
  import opened Entities
  import opened Text
  import opened Seqs

  /** No two stored anime share an id (the primary key). */
  predicate IdsDistinct(catalog: seq<Anime>)
  {
    forall i, j :: 0 <= i < j < |catalog| ==> catalog[i].id != catalog[j].id
  }

  /** `getAnimeById`: the stored anime with that id, or `None` (null) when there is none. */
  function GetAnimeById(catalog: seq<Anime>, id: int): (r: Option<Anime>)
    ensures r.Some? ==> r.value in catalog && r.value.id == id
    ensures r.None? ==> forall k :: 0 <= k < |catalog| ==> catalog[k].id != id
  {
    if catalog == [] then None
    else if catalog[0].id == id then Some(catalog[0])
    else GetAnimeById(catalog[1..], id)
  }

  /** With a proper primary key, the lookup returns the stored row carrying the id. */
  lemma {:induction false} GetAnimeByIdFindsRow(catalog: seq<Anime>, k: int)
    requires IdsDistinct(catalog)
    requires 0 <= k < |catalog|
    ensures GetAnimeById(catalog, catalog[k].id) == Some(catalog[k])
  {
    if k > 0 {
      assert catalog[0].id != catalog[k].id;
      assert IdsDistinct(catalog[1..]) by {
        forall i, j | 0 <= i < j < |catalog[1..]|
          ensures catalog[1..][i].id != catalog[1..][j].id
        {
          assert catalog[1..][i] == catalog[i + 1] && catalog[1..][j] == catalog[j + 1];
        }
      }
      GetAnimeByIdFindsRow(catalog[1..], k - 1);
    }
  }

  /** The query parameters of `getAllAnimes`. */
  type Parameters = map<string, string>

  /**
    `parameters.get(name)`, with "" standing for a missing entry: a missing
    and an empty value both switch the step off.
   */
  function Param(params: Parameters, name: string): string
  {
    if name in params then params[name] else ""
  }

  /** The lower-cased title contains the lower-cased query. */
  predicate TitleMatches(anime: Anime, title: string)
  {
    Contains(Lower(anime.title), Lower(title))
  }

  predicate SubtypeMatches(anime: Anime, subtype: string)
  {
    EqualsIgnoreCase(anime.subtype, subtype)
  }

  predicate StatusMatches(anime: Anime, status: string)
  {
    EqualsIgnoreCase(anime.status, status)
  }

  /** The anime passes every filter whose parameter is given. */
  predicate Selected(anime: Anime, params: Parameters)
  {
    var title, subtype, status := Param(params, "title"), Param(params, "subtype"), Param(params, "status");
    && (title == "" || TitleMatches(anime, title))
    && (subtype == "" || SubtypeMatches(anime, subtype))
    && (status == "" || StatusMatches(anime, status))
  }

  /** The four recognised values of `sortBy`. */
  datatype SortOrder = Oldest | Newest | Lowest | Highest

  /** `sortBy` is compared exactly (case-sensitively); any other value sorts nothing. */
  function ParseSortBy(sortBy: string): Option<SortOrder>
  {
    if sortBy == "oldest" then Some(Oldest)
    else if sortBy == "newest" then Some(Newest)
    else if sortBy == "lowest" then Some(Lowest)
    else if sortBy == "highest" then Some(Highest)
    else None
  }

  /**
    The comparator of each order as an ascending integer key: start date or
    episode count, negated for the `.reversed()` comparators.
   */
  function OrderKey(order: SortOrder): Anime -> int
  {
    match order
    case Oldest => (a: Anime) => a.startDate
    case Newest => (a: Anime) => -a.startDate
    case Lowest => (a: Anime) => a.episodeCount
    case Highest => (a: Anime) => -a.episodeCount
  }

  /** What each order promises, stated on the anime's own fields. */
  predicate InOrder(s: seq<Anime>, order: SortOrder)
  {
    match order
    case Oldest => forall i, j :: 0 <= i < j < |s| ==> s[i].startDate <= s[j].startDate
    case Newest => forall i, j :: 0 <= i < j < |s| ==> s[i].startDate >= s[j].startDate
    case Lowest => forall i, j :: 0 <= i < j < |s| ==> s[i].episodeCount <= s[j].episodeCount
    case Highest => forall i, j :: 0 <= i < j < |s| ==> s[i].episodeCount >= s[j].episodeCount
  }

  lemma OrderKeyMeansInOrder(s: seq<Anime>, order: SortOrder)
    requires SortedByKey(s, OrderKey(order))
    ensures InOrder(s, order)
  {
    var key := OrderKey(order);
    forall i, j | 0 <= i < j < |s|
      ensures key(s[i]) <= key(s[j])
    {
    }
  }

  /**
    The result of `getAllAnimes(params)` over the stored catalog: each stage
    only drops or reorders anime, so the result is drawn from the catalog.
   */
  function Query(catalog: seq<Anime>, params: Parameters): (r: seq<Anime>)
    ensures multiset(r) <= multiset(catalog)
  {
    var title := Param(params, "title");
    FilterSubMultiset(catalog, a => TitleMatches(a, title));
    var byTitle := if title == "" then catalog else Filter(catalog, a => TitleMatches(a, title));
    var subtype := Param(params, "subtype");
    FilterSubMultiset(byTitle, a => SubtypeMatches(a, subtype));
    var bySubtype := if subtype == "" then byTitle else Filter(byTitle, a => SubtypeMatches(a, subtype));
    var sorted :=
      match ParseSortBy(Param(params, "sortBy"))
      case None => bySubtype
      case Some(order) => (SortPermutes(bySubtype, OrderKey(order)); SortByKey(bySubtype, OrderKey(order)));
    var status := Param(params, "status");
    FilterSubMultiset(sorted, a => StatusMatches(a, status));
    if status == "" then sorted else Filter(sorted, a => StatusMatches(a, status))
  }

  /**
    Every anime occurs in the result as often as in the catalog when it passes
    the given filters, and not at all otherwise.
   */
  lemma QueryCount(catalog: seq<Anime>, params: Parameters, x: Anime)
    ensures multiset(Query(catalog, params))[x] == if Selected(x, params) then multiset(catalog)[x] else 0
  {
    var title := Param(params, "title");
    var byTitle := if title == "" then catalog else Filter(catalog, a => TitleMatches(a, title));
    if title != "" {
      FilterCount(catalog, a => TitleMatches(a, title), x);
    }
    var subtype := Param(params, "subtype");
    var bySubtype := if subtype == "" then byTitle else Filter(byTitle, a => SubtypeMatches(a, subtype));
    if subtype != "" {
      FilterCount(byTitle, a => SubtypeMatches(a, subtype), x);
    }
    var sorted :=
      match ParseSortBy(Param(params, "sortBy"))
      case None => bySubtype
      case Some(order) => SortByKey(bySubtype, OrderKey(order));
    if ParseSortBy(Param(params, "sortBy")).Some? {
      SortPermutes(bySubtype, OrderKey(ParseSortBy(Param(params, "sortBy")).value));
    }
    var status := Param(params, "status");
    if status != "" {
      FilterCount(sorted, a => StatusMatches(a, status), x);
    }
  }

  /**
    The result is a permutation of exactly the catalog entries that pass all
    given filters: nothing is lost, nothing is duplicated.
   */
  lemma QuerySelectsExactly(catalog: seq<Anime>, params: Parameters)
    ensures multiset(Query(catalog, params)) == multiset(Filter(catalog, a => Selected(a, params)))
    ensures forall x :: x in Query(catalog, params) <==> x in catalog && Selected(x, params)
  {
    var selected := Filter(catalog, a => Selected(a, params));
    forall x
      ensures multiset(Query(catalog, params))[x] == multiset(selected)[x]
    {
      QueryCount(catalog, params, x);
      FilterCount(catalog, a => Selected(a, params), x);
    }
    forall x
      ensures x in Query(catalog, params) <==> x in catalog && Selected(x, params)
    {
      QueryCount(catalog, params, x);
      assert x in Query(catalog, params) <==> x in multiset(Query(catalog, params));
    }
  }

  /**
    A recognised `sortBy` puts the result in its order; the status filter,
    applied after sorting, keeps that order.
   */
  lemma QueryIsOrdered(catalog: seq<Anime>, params: Parameters, order: SortOrder)
    requires ParseSortBy(Param(params, "sortBy")) == Some(order)
    ensures InOrder(Query(catalog, params), order)
  {
    var title := Param(params, "title");
    var byTitle := if title == "" then catalog else Filter(catalog, a => TitleMatches(a, title));
    var subtype := Param(params, "subtype");
    var bySubtype := if subtype == "" then byTitle else Filter(byTitle, a => SubtypeMatches(a, subtype));
    var sorted := SortByKey(bySubtype, OrderKey(order));
    SortIsSorted(bySubtype, OrderKey(order));
    var status := Param(params, "status");
    if status != "" {
      FilterKeepsSorted(sorted, a => StatusMatches(a, status), OrderKey(order));
    }
    OrderKeyMeansInOrder(Query(catalog, params), order);
  }

  /** A step switched off by an empty parameter is the same as a filter by the step's pass condition. */
  lemma {:induction false} StageIsFilter(s: seq<Anime>, off: bool, test: Anime -> bool, passes: Anime -> bool)
    requires forall a :: passes(a) == (off || test(a))
    ensures (if off then s else Filter(s, test)) == Filter(s, passes)
  {
    if s != [] {
      StageIsFilter(s[1..], off, test, passes);
    }
  }

  /**
    Without a recognised `sortBy` the result keeps the catalog order: it is
    the catalog filtered by all given filters.
   */
  lemma QueryUnsortedKeepsOrder(catalog: seq<Anime>, params: Parameters)
    requires ParseSortBy(Param(params, "sortBy")) == None
    ensures Query(catalog, params) == Filter(catalog, a => Selected(a, params))
  {
    var title, subtype, status := Param(params, "title"), Param(params, "subtype"), Param(params, "status");
    var byTitle := if title == "" then catalog else Filter(catalog, a => TitleMatches(a, title));
    var passesTitle := a => title == "" || TitleMatches(a, title);
    StageIsFilter(catalog, title == "", a => TitleMatches(a, title), passesTitle);

    var bySubtype := if subtype == "" then byTitle else Filter(byTitle, a => SubtypeMatches(a, subtype));
    var passesSubtype := a => subtype == "" || SubtypeMatches(a, subtype);
    StageIsFilter(byTitle, subtype == "", a => SubtypeMatches(a, subtype), passesSubtype);
    var passesBoth := a => passesTitle(a) && passesSubtype(a);
    FilterFilter(catalog, passesTitle, passesSubtype, passesBoth);

    var passesStatus := a => status == "" || StatusMatches(a, status);
    StageIsFilter(bySubtype, status == "", a => StatusMatches(a, status), passesStatus);
    FilterFilter(catalog, passesBoth, passesStatus, a => Selected(a, params));
  }

  /** With no parameter given (or all empty), the catalog comes back unchanged and in its stored order. */
  lemma QueryWithoutParameters(catalog: seq<Anime>, params: Parameters)
    requires Param(params, "title") == "" && Param(params, "subtype") == ""
    requires Param(params, "sortBy") == "" && Param(params, "status") == ""
    ensures Query(catalog, params) == catalog
  {
    QueryUnsortedKeepsOrder(catalog, params);
    FilterAll(catalog, a => Selected(a, params));
  }

  /** `Collections.sort` on the working list: copy it into an array, sort in place, read it back. */
  method SortList(s: seq<Anime>, key: Anime -> int) returns (r: seq<Anime>)
    ensures r == SortByKey(s, key)
  {
    var buffer := new Anime[|s|](i requires 0 <= i < |s| => s[i]);
    assert buffer[..] == s;
    SortInPlace(buffer, key);
    r := buffer[..];
  }

  /** `getAllAnimes`, step by step as the service reassigns its working list. */
  method GetAllAnimes(catalog: seq<Anime>, params: Parameters) returns (animes: seq<Anime>)
    ensures animes == Query(catalog, params)
  {
    animes := catalog;

    var title := Param(params, "title");
    if title != "" {
      animes := Filter(animes, a => TitleMatches(a, title));
    }

    var subtype := Param(params, "subtype");
    if subtype != "" {
      animes := Filter(animes, a => SubtypeMatches(a, subtype));
    }

    var sortBy := Param(params, "sortBy");
    if sortBy != "" {
      if sortBy == "oldest" {
        animes := SortList(animes, OrderKey(Oldest));
      } else if sortBy == "newest" {
        animes := SortList(animes, OrderKey(Newest));
      } else if sortBy == "lowest" {
        animes := SortList(animes, OrderKey(Lowest));
      } else if sortBy == "highest" {
        animes := SortList(animes, OrderKey(Highest));
      }
    }

    var status := Param(params, "status");
    if status != "" {
      animes := Filter(animes, a => StatusMatches(a, status));
    }
  }
}
