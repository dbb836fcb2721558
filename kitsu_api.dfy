/**
  `KitsuApiService.addAnime`: an administrator imports an anime into the
  local catalog, unless an anime with the same title is already stored.
 */
module KitsuApi {
  import opened Entities
  import Catalog

  /** `findByTitle(title) != null`: a stored anime has exactly this title. */
  predicate TitleTaken(animes: seq<Anime>, title: string)
  {
    exists k :: 0 <= k < |animes| && animes[k].title == title
  }

  /**
    The exception `addAnime` raises, if any: the duplicate-title check runs
    first, the role check second.
   */
  function AddAnimeRejection(animes: seq<Anime>, title: string, role: string): (r: Option<Error>)
    ensures r.None? <==> !TitleTaken(animes, title) && role == "ADMIN"
    ensures r.Some? ==> r.value == AnimeAlreadyExists || r.value == Unauthorized
  {
    if TitleTaken(animes, title) then Some(AnimeAlreadyExists)
    else if role != "ADMIN" then Some(Unauthorized)
    else None
  }

  /**
    A duplicate title is reported as such whatever the caller's role; a new
    title from anyone but an administrator is refused as unauthorized.
   */
  lemma RejectionOrder(animes: seq<Anime>, title: string, role: string)
    ensures TitleTaken(animes, title) ==> AddAnimeRejection(animes, title, role) == Some(AnimeAlreadyExists)
    ensures !TitleTaken(animes, title) && role != "ADMIN" ==> AddAnimeRejection(animes, title, role) == Some(Unauthorized)
  {
  }

  /** Once an anime is stored, adding any anime with its title is rejected as a duplicate. */
  lemma StoredTitleIsTaken(animes: seq<Anime>, stored: Anime, title: string, role: string)
    requires title == stored.title
    ensures TitleTaken(animes + [stored], title)
    ensures AddAnimeRejection(animes + [stored], title, role) == Some(AnimeAlreadyExists)
  {
    assert (animes + [stored])[|animes|] == stored;
  }

  /** The anime repository as `addAnime` sees it: the stored rows and the next generated id. */
  class KitsuApiService {
    var animes: seq<Anime>
    var nextId: int

    ghost predicate Valid()
      reads this
    {
      && Catalog.IdsDistinct(animes)
      && forall k :: 0 <= k < |animes| ==> animes[k].id < nextId
    }

    /** An empty repository: no rows yet, and generated ids start at 1. */
    constructor ()
      ensures Valid() && animes == [] && nextId == 1
    {
      animes := [];
      nextId := 1;
    }

    /**
      `addAnime(anime, role)`: the incoming anime is new (no id yet); saving it
      gives it the next generated id.
     */
    method AddAnime(anime: Anime, role: string) returns (r: Result<Anime, Error>)
      requires Valid()
      modifies this
      ensures Valid()
      ensures TitleTaken(old(animes), anime.title) ==>
                r == Failure(AnimeAlreadyExists) && animes == old(animes) && nextId == old(nextId)
      ensures !TitleTaken(old(animes), anime.title) && role != "ADMIN" ==>
                r == Failure(Unauthorized) && animes == old(animes) && nextId == old(nextId)
      ensures !TitleTaken(old(animes), anime.title) && role == "ADMIN" ==>
                && r == Success(anime.(id := old(nextId)))
                && animes == old(animes) + [r.value]
                && nextId == old(nextId) + 1
      ensures r.Success? ==> TitleTaken(animes, anime.title)
    {
      var rejection := AddAnimeRejection(animes, anime.title, role);
      if rejection.Some? {
        return Failure(rejection.value);
      }
      var stored := anime.(id := nextId);
      StoredTitleIsTaken(animes, stored, anime.title, role);
      animes := animes + [stored];
      nextId := nextId + 1;
      r := Success(stored);
    }
  }
}
