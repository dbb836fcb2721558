/**
  The persistent entities of the anime catalog application (the JPA entities
  Anime, User, Rating, Comment and Watchlist), reduced to the fields that the
  service layer reads or writes, and the errors the services raise.
 */
module Entities {

  datatype Option<+T> = None | Some(value: T)

  datatype Result<+T, +E> = Success(value: T) | Failure(error: E)

  /** A call that returns nothing (Java `void`) either passes or raises an error. */
  datatype Outcome<+E> = Pass | Fail(error: E)

  /** The entity whose lookup failed in a `NotFoundException`. */
  datatype Entity = AnimeEntity | RatingEntity | CommentEntity | WatchlistEntity

  /** The exceptions raised by the service layer. */
  datatype Error =
    | NotFound(entity: Entity)   // NotFoundException
    | Unauthorized               // UnauthorizedException
    | NullReference              // NullPointerException on an association that is null
    | AlreadyInWatchlist         // IllegalArgumentException "Anime already exists in the watchlist"
    | NotInWatchlist             // IllegalArgumentException "Anime does not exist in the watchlist"
    | AnimeAlreadyExists         // KitsuApiService.AnimeAlreadyExistsException
    | ConstraintViolation        // a bean-validation constraint of the entity rejects the save
    | UpdateFailed               // RuntimeException "Failed to update comment"

  /** The `Role` enum of a user. */
  datatype Role = USER | ADMIN

  /** `Role.toString()`, the string the services compare with "ADMIN". */
  function RoleName(role: Role): string
  {
    match role
    case USER => "USER"
    case ADMIN => "ADMIN"
  }

  /**
    An anime of the local catalog. Dates are day numbers (a `LocalDate`
    compares like its epoch day); every field is non-null in this model.
   */
  datatype Anime = Anime(
    id: int,
    title: string,
    image: string,
    synopsis: string,
    startDate: int,
    endDate: int,
    episodeCount: int,
    episodeLength: int,
    subtype: string,
    status: string,
    ageRatingGuide: string)

  /** The part of a registered user that the services read. */
  datatype User = User(id: int, username: string, role: Role)

  /**
    A rating of one anime by one user. `anime` is `None` when the rating was
    stored for an anime id that the catalog did not know (the service then
    binds it to a null anime). `userAnimeKey` is the derived uniqueness key.
   */
  datatype Rating = Rating(id: int, value: int, userId: int, anime: Option<Anime>, userAnimeKey: string)

  /** A comment; `createdAt` is the instant it was posted, as a number. */
  datatype Comment = Comment(id: int, createdAt: int, content: string, user: User, anime: Anime)

  /** A watchlist: its owner's user id and the set of anime on it. */
  datatype Watchlist = Watchlist(id: int, owner: int, animes: set<Anime>)
}
