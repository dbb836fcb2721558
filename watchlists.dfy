/**
  `WatchlistService`: each user has at most one watchlist, a set of anime
  from the catalog; anime are added and removed one at a time, and the
  service answers whether an anime is on the current user's list.

  Anime on a watchlist are compared as values. `Anime` does not override
  `equals`, but within one persistence context a stored anime is a single
  instance per id, and the catalog never changes a stored anime, so
  comparing values of catalog rows is comparing ids.
 */
module Watchlists {
  import opened Entities
  import opened Seqs
  import Catalog

  /**
    The watchlist table: generated ids are distinct and below the next one,
    and no user owns two watchlists.
   */
  predicate ValidTable(rows: seq<Watchlist>, nextId: int)
  {
    && (forall i, j :: 0 <= i < j < |rows| ==> rows[i].id != rows[j].id && rows[i].owner != rows[j].owner)
    && (forall i :: 0 <= i < |rows| ==> rows[i].id < nextId)
  }

  /** Every anime on a watchlist is a row of the catalog. */
  predicate MembersFromCatalog(rows: seq<Watchlist>, catalog: seq<Anime>)
  {
    forall i, a :: 0 <= i < |rows| && a in rows[i].animes ==> a in catalog
  }

  function OwnedBy(userId: int): Watchlist -> bool
  {
    (w: Watchlist) => w.owner == userId
  }

  /** The anime on the user's watchlist (`findByUser_Id`); none when the user has no watchlist. */
  function AnimesOf(rows: seq<Watchlist>, userId: int): (r: set<Anime>)
    ensures (forall k :: 0 <= k < |rows| ==> rows[k].owner != userId) ==> r == {}
    ensures forall a :: a in r ==> exists k :: 0 <= k < |rows| && rows[k].owner == userId && a in rows[k].animes
  {
    match FirstIndex(rows, OwnedBy(userId))
    case None => {}
    case Some(i) => rows[i].animes
  }

  /** The watchlist a call saved, and the table and id counter after the save. */
  datatype Updated = Updated(watchlist: Watchlist, rows: seq<Watchlist>, nextId: int)

  /**
    `addToWatchlist`: the anime must exist; it is added to the user's
    watchlist, which is created under the next generated id when the user
    has none; an anime already on the list is refused.
   */
  function AddToWatchlistStep(rows: seq<Watchlist>, nextId: int, catalog: seq<Anime>, userId: int, animeId: int): (r: Result<Updated, Error>)
    ensures r == Failure(NotFound(AnimeEntity)) <==> Catalog.GetAnimeById(catalog, animeId).None?
    ensures r == Failure(AlreadyInWatchlist) <==>
              Catalog.GetAnimeById(catalog, animeId).Some? && Catalog.GetAnimeById(catalog, animeId).value in AnimesOf(rows, userId)
    ensures r.Success? ==>
              && r.value.watchlist.owner == userId
              && r.value.watchlist.animes == AnimesOf(rows, userId) + {Catalog.GetAnimeById(catalog, animeId).value}
  {
    match Catalog.GetAnimeById(catalog, animeId)
    case None => Failure(NotFound(AnimeEntity))
    case Some(anime) =>
      match FirstIndex(rows, OwnedBy(userId))
      case Some(i) =>
        if anime in rows[i].animes then Failure(AlreadyInWatchlist)
        else
          var w := rows[i].(animes := rows[i].animes + {anime});
          Success(Updated(w, rows[i := w], nextId))
      case None =>
        var w := Watchlist(nextId, userId, {anime});
        Success(Updated(w, rows + [w], nextId + 1))
  }

  /**
    `removeFromWatchlist`: the anime must exist, the user must have a
    watchlist and the anime must be on it; it is then taken off.
   */
  function RemoveFromWatchlistStep(rows: seq<Watchlist>, nextId: int, catalog: seq<Anime>, userId: int, animeId: int): (r: Result<Updated, Error>)
    ensures r == Failure(NotFound(AnimeEntity)) <==> Catalog.GetAnimeById(catalog, animeId).None?
    ensures r == Failure(NotFound(WatchlistEntity)) <==>
              Catalog.GetAnimeById(catalog, animeId).Some? && forall k :: 0 <= k < |rows| ==> rows[k].owner != userId
    ensures r == Failure(NotInWatchlist) <==>
              && Catalog.GetAnimeById(catalog, animeId).Some?
              && (exists k :: 0 <= k < |rows| && rows[k].owner == userId)
              && Catalog.GetAnimeById(catalog, animeId).value !in AnimesOf(rows, userId)
    ensures r.Success? ==>
              && r.value.watchlist.owner == userId
              && Catalog.GetAnimeById(catalog, animeId).value in AnimesOf(rows, userId)
              && r.value.watchlist.animes == AnimesOf(rows, userId) - {Catalog.GetAnimeById(catalog, animeId).value}
              && r.value.nextId == nextId
  {
    match Catalog.GetAnimeById(catalog, animeId)
    case None => Failure(NotFound(AnimeEntity))
    case Some(anime) =>
      match FirstIndex(rows, OwnedBy(userId))
      case None => Failure(NotFound(WatchlistEntity))
      case Some(i) =>
        if anime !in rows[i].animes then Failure(NotInWatchlist)
        else
          var w := rows[i].(animes := rows[i].animes - {anime});
          Success(Updated(w, rows[i := w], nextId))
  }

  /**
    Replacing the user's own watchlist row by one with the same owner
    changes the user's anime to the new row's and nobody else's.
   */
  lemma {:induction false} ReplaceOwnRow(rows: seq<Watchlist>, i: nat, w: Watchlist, userId: int)
    requires FirstIndex(rows, OwnedBy(userId)) == Some(i) && w.owner == userId
    ensures AnimesOf(rows[i := w], userId) == w.animes
    ensures forall u :: u != userId ==> AnimesOf(rows[i := w], u) == AnimesOf(rows, u)
  {
    var after := rows[i := w];
    assert FirstIndex(after, OwnedBy(userId)) == Some(i) by {
      assert OwnedBy(userId)(after[i]);
    }
    forall u | u != userId
      ensures AnimesOf(after, u) == AnimesOf(rows, u)
    {
      assert forall k :: 0 <= k < |rows| ==> (OwnedBy(u)(after[k]) <==> OwnedBy(u)(rows[k]));
      var f, g := FirstIndex(after, OwnedBy(u)), FirstIndex(rows, OwnedBy(u));
      if g.Some? {
        assert OwnedBy(u)(after[g.value]);
      }
      if f.Some? {
        assert OwnedBy(u)(rows[f.value]);
      }
      assert f == g;
    }
  }

  /** Appending a watchlist for a user who had none gives that user its anime and nobody else anything new. */
  lemma {:induction false} AppendNewRow(rows: seq<Watchlist>, w: Watchlist, userId: int)
    requires FirstIndex(rows, OwnedBy(userId)).None? && w.owner == userId
    ensures AnimesOf(rows + [w], userId) == w.animes
    ensures forall u :: u != userId ==> AnimesOf(rows + [w], u) == AnimesOf(rows, u)
  {
    var after := rows + [w];
    assert FirstIndex(after, OwnedBy(userId)) == Some(|rows|) by {
      assert OwnedBy(userId)(after[|rows|]);
    }
    forall u | u != userId
      ensures AnimesOf(after, u) == AnimesOf(rows, u)
    {
      assert !OwnedBy(u)(after[|rows|]);
      var f, g := FirstIndex(after, OwnedBy(u)), FirstIndex(rows, OwnedBy(u));
      if g.Some? {
        assert OwnedBy(u)(after[g.value]);
      }
      if f.Some? {
        assert f.value < |rows| && OwnedBy(u)(rows[f.value]);
      }
      assert f == g;
    }
  }

  /**
    A successful `addToWatchlist` puts the anime on the user's watchlist and
    leaves every other user's watchlist as it was.
   */
  lemma AddToWatchlistEffect(rows: seq<Watchlist>, nextId: int, catalog: seq<Anime>, userId: int, animeId: int)
    requires AddToWatchlistStep(rows, nextId, catalog, userId, animeId).Success?
    ensures var after := AddToWatchlistStep(rows, nextId, catalog, userId, animeId).value.rows;
            var anime := Catalog.GetAnimeById(catalog, animeId).value;
            && AnimesOf(after, userId) == AnimesOf(rows, userId) + {anime}
            && forall u :: u != userId ==> AnimesOf(after, u) == AnimesOf(rows, u)
  {
    var r := AddToWatchlistStep(rows, nextId, catalog, userId, animeId).value;
    match FirstIndex(rows, OwnedBy(userId))
    case Some(i) => ReplaceOwnRow(rows, i, r.watchlist, userId);
    case None => AppendNewRow(rows, r.watchlist, userId);
  }

  /**
    A successful `removeFromWatchlist` takes the anime off the user's
    watchlist and leaves every other user's watchlist as it was.
   */
  lemma RemoveFromWatchlistEffect(rows: seq<Watchlist>, nextId: int, catalog: seq<Anime>, userId: int, animeId: int)
    requires RemoveFromWatchlistStep(rows, nextId, catalog, userId, animeId).Success?
    ensures var after := RemoveFromWatchlistStep(rows, nextId, catalog, userId, animeId).value.rows;
            var anime := Catalog.GetAnimeById(catalog, animeId).value;
            && AnimesOf(after, userId) == AnimesOf(rows, userId) - {anime}
            && forall u :: u != userId ==> AnimesOf(after, u) == AnimesOf(rows, u)
  {
    var r := RemoveFromWatchlistStep(rows, nextId, catalog, userId, animeId).value;
    var i := FirstIndex(rows, OwnedBy(userId)).value;
    ReplaceOwnRow(rows, i, r.watchlist, userId);
  }

  /** Adding and removing keep the table valid: in particular no user ever gets a second watchlist. */
  lemma StepsKeepValid(rows: seq<Watchlist>, nextId: int, catalog: seq<Anime>, userId: int, animeId: int)
    requires ValidTable(rows, nextId)
    ensures var r := AddToWatchlistStep(rows, nextId, catalog, userId, animeId);
            r.Success? ==> ValidTable(r.value.rows, r.value.nextId)
    ensures var r := RemoveFromWatchlistStep(rows, nextId, catalog, userId, animeId);
            r.Success? ==> ValidTable(r.value.rows, r.value.nextId)
  {
    var found := FirstIndex(rows, OwnedBy(userId));
    var add := AddToWatchlistStep(rows, nextId, catalog, userId, animeId);
    if add.Success? {
      if found.Some? {
        assert add.value.rows == rows[found.value := add.value.watchlist];
      } else {
        assert add.value.rows == rows + [add.value.watchlist];
      }
    }
    var remove := RemoveFromWatchlistStep(rows, nextId, catalog, userId, animeId);
    if remove.Success? {
      assert remove.value.rows == rows[found.value := remove.value.watchlist];
    }
  }

  /** Adding and removing only ever put catalog rows on a watchlist. */
  lemma StepsKeepMembersFromCatalog(rows: seq<Watchlist>, nextId: int, catalog: seq<Anime>, userId: int, animeId: int)
    requires MembersFromCatalog(rows, catalog)
    ensures var r := AddToWatchlistStep(rows, nextId, catalog, userId, animeId);
            r.Success? ==> MembersFromCatalog(r.value.rows, catalog)
    ensures var r := RemoveFromWatchlistStep(rows, nextId, catalog, userId, animeId);
            r.Success? ==> MembersFromCatalog(r.value.rows, catalog)
  {
    var found := FirstIndex(rows, OwnedBy(userId));
    var add := AddToWatchlistStep(rows, nextId, catalog, userId, animeId);
    if add.Success? {
      var after := add.value.rows;
      var anime := Catalog.GetAnimeById(catalog, animeId).value;
      forall i, a | 0 <= i < |after| && a in after[i].animes
        ensures a in catalog
      {
        if found.Some? && i == found.value {
          assert a in rows[i].animes || a == anime;
        } else if i < |rows| {
          assert after[i] == rows[i];
        } else {
          assert a == anime;
        }
      }
    }
    var remove := RemoveFromWatchlistStep(rows, nextId, catalog, userId, animeId);
    if remove.Success? {
      var after := remove.value.rows;
      forall i, a | 0 <= i < |after| && a in after[i].animes
        ensures a in catalog
      {
        assert a in rows[i].animes;
      }
    }
  }

  /**
    `isInWatchlist`: false without an authenticated user; otherwise whether
    an anime with that id is on the user's watchlist.
   */
  function IsInWatchlist(rows: seq<Watchlist>, principal: Option<User>, animeId: int): (r: bool)
    ensures r <==> principal.Some? && exists a :: a in AnimesOf(rows, principal.value.id) && a.id == animeId
  {
    if principal.None? then false
    else
      match FirstIndex(rows, OwnedBy(principal.value.id))
      case None => false
      case Some(i) => exists a :: a in rows[i].animes && a.id == animeId
  }

  /** After a successful `addToWatchlist`, `isInWatchlist` answers true for that anime and user. */
  lemma InWatchlistAfterAdd(rows: seq<Watchlist>, nextId: int, catalog: seq<Anime>, user: User, animeId: int)
    requires AddToWatchlistStep(rows, nextId, catalog, user.id, animeId).Success?
    ensures IsInWatchlist(AddToWatchlistStep(rows, nextId, catalog, user.id, animeId).value.rows, Some(user), animeId)
  {
    AddToWatchlistEffect(rows, nextId, catalog, user.id, animeId);
    var anime := Catalog.GetAnimeById(catalog, animeId).value;
    assert anime in AnimesOf(AddToWatchlistStep(rows, nextId, catalog, user.id, animeId).value.rows, user.id);
  }

  /**
    After a successful `removeFromWatchlist`, `isInWatchlist` answers false
    for that anime and user, provided the catalog ids are distinct and the
    watchlists hold catalog rows only.
   */
  lemma NotInWatchlistAfterRemove(rows: seq<Watchlist>, nextId: int, catalog: seq<Anime>, user: User, animeId: int)
    requires Catalog.IdsDistinct(catalog) && MembersFromCatalog(rows, catalog)
    requires RemoveFromWatchlistStep(rows, nextId, catalog, user.id, animeId).Success?
    ensures !IsInWatchlist(RemoveFromWatchlistStep(rows, nextId, catalog, user.id, animeId).value.rows, Some(user), animeId)
  {
    RemoveFromWatchlistEffect(rows, nextId, catalog, user.id, animeId);
    var anime := Catalog.GetAnimeById(catalog, animeId).value;
    var after := RemoveFromWatchlistStep(rows, nextId, catalog, user.id, animeId).value.rows;
    var i := FirstIndex(rows, OwnedBy(user.id)).value;
    forall a | a in AnimesOf(after, user.id)
      ensures a.id != animeId
    {
      assert a in rows[i].animes && a != anime;
      assert a in catalog && anime in catalog;
      var k :| 0 <= k < |catalog| && catalog[k] == a;
      var j :| 0 <= j < |catalog| && catalog[j] == anime;
      assert k != j;
    }
  }

  /** Adding an anime and removing it again gives the user back the watchlist contents they had. */
  lemma AddThenRemove(rows: seq<Watchlist>, nextId: int, catalog: seq<Anime>, userId: int, animeId: int)
    requires AddToWatchlistStep(rows, nextId, catalog, userId, animeId).Success?
    ensures var added := AddToWatchlistStep(rows, nextId, catalog, userId, animeId).value;
            var removed := RemoveFromWatchlistStep(added.rows, added.nextId, catalog, userId, animeId);
            && removed.Success?
            && AnimesOf(removed.value.rows, userId) == AnimesOf(rows, userId)
  {
    var added := AddToWatchlistStep(rows, nextId, catalog, userId, animeId).value;
    AddToWatchlistEffect(rows, nextId, catalog, userId, animeId);
    var anime := Catalog.GetAnimeById(catalog, animeId).value;
    assert anime in AnimesOf(added.rows, userId);
    assert exists k :: 0 <= k < |added.rows| && added.rows[k].owner == userId by {
      var i := FirstIndex(added.rows, OwnedBy(userId));
      assert i.Some?;
      assert OwnedBy(userId)(added.rows[i.value]);
    }
    RemoveFromWatchlistEffect(added.rows, added.nextId, catalog, userId, animeId);
  }

  /** All anime of the given watchlists, each counted once per list it is on. */
  function Gathered(watchlists: seq<Watchlist>): multiset<Anime>
  {
    if watchlists == [] then multiset{}
    else Gathered(watchlists[..|watchlists| - 1]) + multiset(watchlists[|watchlists| - 1].animes)
  }

  /** The total number of anime over the given watchlists. */
  function TotalSize(watchlists: seq<Watchlist>): nat
  {
    if watchlists == [] then 0
    else TotalSize(watchlists[..|watchlists| - 1]) + |watchlists[|watchlists| - 1].animes|
  }

  /** Gathering counts each watchlist's anime once, so its size is the sum of the watchlist sizes. */
  lemma {:induction false} GatheredSize(watchlists: seq<Watchlist>)
    ensures |Gathered(watchlists)| == TotalSize(watchlists)
  {
    if watchlists != [] {
      GatheredSize(watchlists[..|watchlists| - 1]);
    }
  }

  /**
    With one watchlist per user, gathering the user's watchlists yields the
    anime of their watchlist, each exactly once.
   */
  lemma GatheredOfValid(rows: seq<Watchlist>, nextId: int, userId: int)
    requires ValidTable(rows, nextId)
    ensures Gathered(Filter(rows, OwnedBy(userId))) == multiset(AnimesOf(rows, userId))
  {
    match FirstIndex(rows, OwnedBy(userId))
    case None =>
      FilterNone(rows, OwnedBy(userId));
    case Some(i) =>
      FilterSingle(rows, OwnedBy(userId), i);
      assert Gathered([rows[i]]) == Gathered([]) + multiset(rows[i].animes);
  }

  /** The elements of a set, each once, in some order: iterating over a `HashSet`. */
  method Enumerate(elements: set<Anime>) returns (r: seq<Anime>)
    ensures multiset(r) == multiset(elements)
  {
    var pending := elements;
    r := [];
    while pending != {}
      invariant pending <= elements
      invariant multiset(r) + multiset(pending) == multiset(elements)
      decreases |pending|
    {
      var a :| a in pending;
      r := r + [a];
      pending := pending - {a};
    }
  }

  /** The watchlist repository as the service changes it: the stored rows and the next generated id. */
  class WatchlistService {
    var rows: seq<Watchlist>
    var nextId: int

    ghost predicate Valid()
      reads this
    {
      ValidTable(rows, nextId)
    }

    /** An empty repository: no rows yet, and generated ids start at 1. */
    constructor ()
      ensures Valid() && rows == [] && nextId == 1
    {
      rows := [];
      nextId := 1;
    }

    /** `addToWatchlist(animeId, principal)` for the user with id `userId`. */
    method AddToWatchlist(catalog: seq<Anime>, userId: int, animeId: int) returns (r: Result<Watchlist, Error>)
      requires Valid()
      modifies this
      ensures Valid()
      ensures var step := AddToWatchlistStep(old(rows), old(nextId), catalog, userId, animeId);
              step.Failure? ==> r == Failure(step.error) && rows == old(rows) && nextId == old(nextId)
      ensures var step := AddToWatchlistStep(old(rows), old(nextId), catalog, userId, animeId);
              step.Success? ==> r == Success(step.value.watchlist) && rows == step.value.rows && nextId == step.value.nextId
    {
      StepsKeepValid(rows, nextId, catalog, userId, animeId);
      var anime := Catalog.GetAnimeById(catalog, animeId);
      if anime.None? {
        return Failure(NotFound(AnimeEntity));
      }
      var found := FirstIndex(rows, OwnedBy(userId));
      var watchlist: Watchlist;
      if found.Some? {
        watchlist := rows[found.value];
        if anime.value in watchlist.animes {
          return Failure(AlreadyInWatchlist);
        }
        watchlist := watchlist.(animes := watchlist.animes + {anime.value});
        rows := rows[found.value := watchlist];
      } else {
        watchlist := Watchlist(nextId, userId, {anime.value});
        rows := rows + [watchlist];
        nextId := nextId + 1;
      }
      r := Success(watchlist);
    }

    /** `removeFromWatchlist(animeId, principal)` for the user with id `userId`. */
    method RemoveFromWatchlist(catalog: seq<Anime>, userId: int, animeId: int) returns (r: Result<Watchlist, Error>)
      requires Valid()
      modifies this
      ensures Valid() && nextId == old(nextId)
      ensures var step := RemoveFromWatchlistStep(old(rows), old(nextId), catalog, userId, animeId);
              step.Failure? ==> r == Failure(step.error) && rows == old(rows)
      ensures var step := RemoveFromWatchlistStep(old(rows), old(nextId), catalog, userId, animeId);
              step.Success? ==> r == Success(step.value.watchlist) && rows == step.value.rows
    {
      var anime := Catalog.GetAnimeById(catalog, animeId);
      if anime.None? {
        return Failure(NotFound(AnimeEntity));
      }
      var found := FirstIndex(rows, OwnedBy(userId));
      if found.None? {
        return Failure(NotFound(WatchlistEntity));
      }
      var watchlist := rows[found.value];
      if anime.value !in watchlist.animes {
        return Failure(NotInWatchlist);
      }
      watchlist := watchlist.(animes := watchlist.animes - {anime.value});
      rows := rows[found.value := watchlist];
      r := Success(watchlist);
    }

    /**
      `getWatchlistByUserId`: the anime of every watchlist of the user, each
      list appended in its set's iteration order.
     */
    method GetWatchlistByUserId(userId: int) returns (animes: seq<Anime>)
      ensures multiset(animes) == Gathered(Filter(rows, OwnedBy(userId)))
      ensures |animes| == TotalSize(Filter(rows, OwnedBy(userId)))
    {
      var watchlists := Filter(rows, OwnedBy(userId));
      animes := [];
      for i := 0 to |watchlists|
        invariant multiset(animes) == Gathered(watchlists[..i])
      {
        var added := Enumerate(watchlists[i].animes);
        assert watchlists[..i + 1][..i] == watchlists[..i];
        animes := animes + added;
      }
      assert watchlists[..|watchlists|] == watchlists;
      GatheredSize(watchlists);
    }
  }
}
