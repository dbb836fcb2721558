# AnimeKodo service layer in Dafny

A model of the service layer of AnimeKodo, a Spring Boot application that
keeps a local catalog of anime. Users rate anime, comment on them and keep a
watchlist. Each JPA repository is modelled as a sequence of rows in storage
order, together with the next generated identity value. Each service that
changes a repository is a class holding those two fields. Its methods are
tied to pure functions, and the properties are proved about those functions.

- `Entities` (entities.dfy): the entities `Anime`, `User`, `Rating`, `Comment`
  and `Watchlist`, plus the exceptions the services raise.
- `Text` (text.dfy): `toLowerCase`, `contains`, `equalsIgnoreCase` and the
  decimal rendering of integers.
- `Seqs` (seqs.dfy):
  - the stream `filter`;
  - the stable sort of `Collections.sort` and `Stream.sorted` under a
    one-key comparator, given as a function and as an in-place insertion
    sort on an array;
  - the first-match lookup of a repository `findBy...`.
- `Catalog` (catalog.dfy): `AnimeService.getAllAnimes` and `getAnimeById`.
- `KitsuApi` (kitsu_api.dfy): `KitsuApiService.addAnime`.
- `Ratings` (ratings.dfy): `RatingService`, covering:
  - the upsert on the key `userId + "_" + animeId`;
  - update and delete gated by the owner check;
  - the top five ratings;
  - the average in exact hundredths.
- `Watchlists` (watchlists.dfy): `WatchlistService`.
- `Comments` (comments.dfy): `CommentService`.

Dates are day numbers. The caller is passed in already resolved: for the
principal, `User` (id, username, role); otherwise its id, username or role
name, as each service method uses it. The clock reading of `addComment` is
the parameter `now`.

## Model

| member | source | states |
|---|---|---|
| Catalog.GetAnimeById | src/main/java/fr/kitsuapirest/service/AnimeService.java:104-106 | returns a stored anime that carries the id, or None exactly when no stored anime carries it |
| Catalog.GetAnimeByIdFindsRow | src/main/java/fr/kitsuapirest/service/AnimeService.java:104-106 | with distinct primary keys, looking up a stored anime's id returns that anime |
| Catalog.Query | src/main/java/fr/kitsuapirest/service/AnimeService.java:58-95 | the query result is drawn from the catalog: no anime occurs in it more often than in the catalog (the filters and the order it applies are the lemmas below) |
| Catalog.QueryCount | src/main/java/fr/kitsuapirest/service/AnimeService.java:58-95 | an anime occurs in the result as often as in the catalog if it passes every given filter, otherwise not at all |
| Catalog.QuerySelectsExactly | src/main/java/fr/kitsuapirest/service/AnimeService.java:58-95 | the result is a permutation of the catalog entries passing all given filters (title contains the query ignoring case, subtype and status equal ignoring case); an anime is in it iff it is stored and selected |
| Catalog.QueryIsOrdered | src/main/java/fr/kitsuapirest/service/AnimeService.java:75-93 | for a recognised sortBy the result is in that order (oldest: start date non-decreasing, newest: non-increasing, lowest/highest: episode count non-decreasing/non-increasing), also after the status filter |
| Catalog.QueryUnsortedKeepsOrder | src/main/java/fr/kitsuapirest/service/AnimeService.java:75-86 | with a missing, empty or unrecognised sortBy the result is the catalog filtered by all given filters, in stored order |
| Catalog.QueryWithoutParameters | src/main/java/fr/kitsuapirest/service/AnimeService.java:59-95 | with every parameter missing or empty the catalog comes back unchanged and in stored order |
| Catalog.OrderKeyMeansInOrder | src/main/java/fr/kitsuapirest/service/AnimeService.java:77-84 | ascending order of a comparator's key (negated for the reversed comparators) is the field order that sortBy value promises |
| Catalog.SortList | src/main/java/fr/kitsuapirest/service/AnimeService.java:78-84 | sorting the working list in place gives the stable sort of the list by the comparator key |
| Catalog.GetAllAnimes | src/main/java/fr/kitsuapirest/service/AnimeService.java:58-95 | the step-by-step filtering and in-place sorting returns exactly the specified query result |
| Text.Lower | src/main/java/fr/kitsuapirest/service/AnimeService.java:64 | lower-casing keeps the length and lower-cases each character |
| Text.EqualsIgnoreCaseIsLowerEquality | src/main/java/fr/kitsuapirest/service/AnimeService.java:71 | two strings are equal ignoring case iff their lower-cased forms are equal |
| Text.IntToString | src/main/java/fr/kitsuapirest/service/RatingService.java:62 | the rendering is non-empty, all digits except a leading minus, and starts with a minus iff the number is negative; that the digits are the decimal value is Text.IntToStringValue |
| Text.NatToStringValue | src/main/java/fr/kitsuapirest/service/RatingService.java:62 | reading the digits of a natural number's rendering back in base ten gives the number |
| Text.IntToStringValue | src/main/java/fr/kitsuapirest/service/RatingService.java:62 | reading an integer's rendering back as a signed decimal gives the integer |
| Text.NatToStringInjective | src/main/java/fr/kitsuapirest/service/RatingService.java:62 | distinct natural numbers render as distinct digit strings, as a consequence of the round trip |
| Text.IntToStringInjective | src/main/java/fr/kitsuapirest/service/RatingService.java:62 | distinct integers render as distinct strings |
| Seqs.FirstIndex | src/main/java/fr/kitsuapirest/service/RatingService.java:103-104 | the lookup returns the first position holding a matching row, or None exactly when no row matches |
| Seqs.FilterMembers | src/main/java/fr/kitsuapirest/service/AnimeService.java:63-65 | an element is kept by the filter iff it is in the list and passes the predicate |
| Seqs.FilterCount | src/main/java/fr/kitsuapirest/service/AnimeService.java:63-65 | the filter keeps every occurrence of a passing element and none of a failing one |
| Seqs.FilterSubMultiset | src/main/java/fr/kitsuapirest/service/AnimeService.java:63-65 | the filtered list is drawn from the input (a sub-multiset) and every element of it passes the predicate |
| Seqs.FilterKeepsSorted | src/main/java/fr/kitsuapirest/service/AnimeService.java:88-93 | filtering a sorted list leaves it sorted |
| Seqs.SortPermutes | src/main/java/fr/kitsuapirest/service/AnimeService.java:78 | sorting neither loses nor duplicates an element |
| Seqs.SortIsSorted | src/main/java/fr/kitsuapirest/service/AnimeService.java:78 | the sorted list has non-decreasing keys |
| Seqs.SortSorted | src/main/java/fr/kitsuapirest/service/AnimeService.java:78 | sorting a list already in key order leaves it unchanged |
| Seqs.SortStable | src/main/java/fr/kitsuapirest/service/AnimeService.java:78-84 | the sort is stable: the elements of any one key come out in the order in which they went in |
| Seqs.SortInPlace | src/main/java/fr/kitsuapirest/service/AnimeService.java:78 | after the in-place sort the array holds the stable sort of its previous contents |
| KitsuApi.AddAnimeRejection | src/main/java/fr/kitsuapirest/service/KitsuApiService.java:92-100 | the checks pass iff the title is new and the role is "ADMIN"; a refusal is either AnimeAlreadyExists or Unauthorized |
| KitsuApi.RejectionOrder | src/main/java/fr/kitsuapirest/service/KitsuApiService.java:92-100 | a taken title is refused as a duplicate whatever the role (the duplicate check runs first); a new title from a non-ADMIN role is refused as Unauthorized |
| KitsuApi.StoredTitleIsTaken | src/main/java/fr/kitsuapirest/service/KitsuApiService.java:92-102 | once an anime is stored, a later addAnime with its title is refused as a duplicate |
| KitsuApi.KitsuApiService.AddAnime | src/main/java/fr/kitsuapirest/service/KitsuApiService.java:91-103 | duplicate title: AnimeAlreadyExists; new title with a non-ADMIN role: Unauthorized; in both cases the repository is unchanged. Otherwise exactly the anime is appended with the next id, the primary key stays unique, and its title is taken afterwards |
| Ratings.UserAnimeKey | src/main/java/fr/kitsuapirest/service/RatingService.java:89 | the pair's key: the user id in decimal, an underscore, the anime id in decimal (its properties are the lemmas below) |
| Ratings.UserAnimeKeyReadsBack | src/main/java/fr/kitsuapirest/service/RatingService.java:62 | splitting a pair's key at its first underscore and reading both sides as signed decimals gives back the user id and the anime id |
| Ratings.UserAnimeKeyExample | src/test/java/fr/kitsuapirest/test/service/RatingServiceTest.java:100 | user 1 and anime 1 give the key "1_1" |
| Ratings.UserAnimeKeyInjective | src/main/java/fr/kitsuapirest/service/RatingService.java:72 | equal keys come from equal (user, anime) pairs, for all integer ids, so the unique key column allows one rating per pair |
| Ratings.GetRatingByUserAndAnime | src/main/java/fr/kitsuapirest/service/RatingService.java:86-91 | returns a stored rating carrying the pair's key, or None exactly when no rating carries it |
| Ratings.AddRatingStep | src/main/java/fr/kitsuapirest/service/RatingService.java:57-77 | an existing rating of the pair gets only the new value (same id, user, anime and key; no new row); otherwise a new rating bound to the user, the looked-up anime and the key is appended with the next id; rows of other keys are unchanged |
| Ratings.AddRatingKeepsValid | src/main/java/fr/kitsuapirest/model/Rating.java:32-33 | the upsert keeps ids and keys unique and values within 1..5; afterwards exactly one row carries the pair's key |
| Ratings.AddRatingThenGet | src/main/java/fr/kitsuapirest/service/RatingService.java:62-76 | after the upsert, getRatingByUserAndAnime returns the saved rating |
| Ratings.AddRatingIdempotent | src/main/java/fr/kitsuapirest/service/RatingService.java:62-76 | repeating the upsert with the same value leaves table and id counter unchanged |
| Ratings.AddRatingLastValueWins | src/main/java/fr/kitsuapirest/service/RatingService.java:64-68 | a second rating of the same pair adds no row and keeps the rating's id, holding the second value |
| Ratings.RatingsOfAnime | src/main/java/fr/kitsuapirest/service/RatingService.java:45-47 | the listed ratings are drawn from the stored ones and each is bound to an anime with that id |
| Ratings.RatingsOfAnimeMembers | src/main/java/fr/kitsuapirest/service/RatingService.java:45-47 | a rating is listed for the anime iff it is stored and bound to an anime with that id |
| Ratings.CheckAccess | src/main/java/fr/kitsuapirest/service/RatingService.java:103-108 | NotFound iff no rating has the id; success only for a rating with that id whose anime has the given id and whose user is the caller |
| Ratings.CheckAccessExact | src/main/java/fr/kitsuapirest/service/RatingService.java:103-108 | with distinct ids, a stored rating with a null anime fails with NullReference; an anime or user mismatch fails with Unauthorized; otherwise access is granted on that row |
| Ratings.CheckAccessAsWritten | src/main/java/fr/kitsuapirest/service/RatingService.java:103-108 | with the Integer/Long comparison as written: NotFound iff no rating has the id, and every call fails |
| Ratings.AccessAsWrittenNeverGranted | src/main/java/fr/kitsuapirest/service/RatingService.java:106 | with the Integer/Long comparison as written, update and delete are refused for every caller; the written check rejects wherever the intended one does, with the same error |
| Ratings.OwnerRefusedAsWritten | src/main/java/fr/kitsuapirest/service/RatingService.java:126 | the owner of rating 7 on anime 3 passes the intended check but is refused Unauthorized by the written one |
| Ratings.TopRatings | src/main/java/fr/kitsuapirest/service/RatingService.java:144-150 | the top list has min(5, number of ratings) elements |
| Ratings.TopRatedAnimes | src/main/java/fr/kitsuapirest/service/RatingService.java:139-157 | returns min(5, n) anime, each (possibly null) the anime of the top rating at the same position |
| Ratings.TopRatingsOrdered | src/main/java/fr/kitsuapirest/service/RatingService.java:144-146 | the top ratings come in non-increasing order of value |
| Ratings.TopRatingsDominate | src/main/java/fr/kitsuapirest/service/RatingService.java:144-150 | the top ratings are drawn from the user's ratings, and every omitted rating's value is at most the last included value |
| Ratings.RatingsOfUser | src/main/java/fr/kitsuapirest/service/RatingService.java:142 | the user's ratings are drawn from the stored ones and each was given by that user |
| Ratings.UserTopRatedAnimes | src/main/java/fr/kitsuapirest/service/RatingService.java:139-157 | the user's top-rated list has at most five entries |
| Ratings.UserTopRatings | src/main/java/fr/kitsuapirest/service/RatingService.java:139-157 | the top ratings behind getTopRatedAnimes are stored ratings of that user, and every stored rating of the user left out has a value no greater than the last one taken |
| Ratings.RoundedHundredths | src/main/java/fr/kitsuapirest/service/RatingService.java:176-177 | the result h is the mean in hundredths rounded half up: h - 1/2 <= 100 sum / n < h + 1/2 |
| Ratings.AverageHundredths | src/main/java/fr/kitsuapirest/service/RatingService.java:167-169 | the average of no ratings is 0 |
| Ratings.AverageExamples | src/main/java/fr/kitsuapirest/service/RatingService.java:176-177 | ratings 4 and 5 average 450 hundredths; 1, 2 and 2 average 167 |
| Ratings.MinValue | src/main/java/fr/kitsuapirest/service/RatingService.java:171-177 | the lowest value: no rating is lower and some rating has it |
| Ratings.MaxValue | src/main/java/fr/kitsuapirest/service/RatingService.java:171-177 | the highest value: no rating is higher and some rating has it |
| Ratings.AverageBetweenExtremes | src/main/java/fr/kitsuapirest/service/RatingService.java:171-177 | a non-empty average lies between 100 times the lowest and 100 times the highest rating value |
| Ratings.AverageWithinBounds | src/main/java/fr/kitsuapirest/service/RatingService.java:171-177 | valid ratings (1 to 5) average between 100 and 500 hundredths, derived from the bounds by the lowest and highest value |
| Ratings.Sum | src/main/java/fr/kitsuapirest/service/RatingService.java:171-174 | the summing loop returns the sum of the rating values |
| Ratings.RatingService.AddRating | src/main/java/fr/kitsuapirest/service/RatingService.java:57-77 | the saved rating and the new table are those of the upsert step, and the table stays valid |
| Ratings.RatingService.UpdateRating | src/main/java/fr/kitsuapirest/service/RatingService.java:102-113 | a failed check returns its error and saves nothing; otherwise only that rating's value changes and the updated rating is returned |
| Ratings.RatingService.DeleteRating | src/main/java/fr/kitsuapirest/service/RatingService.java:122-131 | a failed check returns its error and deletes nothing; otherwise exactly that row is removed, the others keep their order, and no row with that id remains |
| Ratings.RatingService.GetAverageRatingByAnimeId | src/main/java/fr/kitsuapirest/service/RatingService.java:165-180 | the summing loop returns the rounded average, in hundredths, of the ratings bound to the anime |
| Watchlists.AddToWatchlistStep | src/main/java/fr/kitsuapirest/service/WatchlistService.java:46-68 | unknown anime: NotFound(anime); anime already listed: AlreadyInWatchlist; otherwise the saved watchlist is the user's and holds the old set plus the anime (exactly that anime for a new watchlist) |
| Watchlists.RemoveFromWatchlistStep | src/main/java/fr/kitsuapirest/service/WatchlistService.java:79-96 | unknown anime: NotFound(anime); no watchlist: NotFound(watchlist); anime not listed: NotInWatchlist; otherwise the saved watchlist holds the old set minus the anime |
| Watchlists.AddToWatchlistEffect | src/main/java/fr/kitsuapirest/service/WatchlistService.java:57-67 | after a successful add the user's set is the old set plus the anime, and every other user's set is unchanged |
| Watchlists.RemoveFromWatchlistEffect | src/main/java/fr/kitsuapirest/service/WatchlistService.java:89-95 | after a successful remove the user's set is the old set minus the anime, and every other user's set is unchanged |
| Watchlists.StepsKeepValid | src/main/java/fr/kitsuapirest/service/WatchlistService.java:53-65 | add and remove keep ids unique and never give a user a second watchlist |
| Watchlists.StepsKeepMembersFromCatalog | src/main/java/fr/kitsuapirest/service/WatchlistService.java:50-65 | add and remove put only catalog anime on watchlists |
| Watchlists.AnimesOf | src/main/java/fr/kitsuapirest/service/WatchlistService.java:128-133 | a user without a watchlist has no anime listed, and every listed anime is on a watchlist that user owns |
| Watchlists.IsInWatchlist | src/main/java/fr/kitsuapirest/service/WatchlistService.java:120-135 | true iff there is a principal and some anime on their watchlist has the id (false without a principal or a watchlist) |
| Watchlists.InWatchlistAfterAdd | src/main/java/fr/kitsuapirest/service/WatchlistService.java:120-135 | after a successful add, isInWatchlist is true for that user and anime |
| Watchlists.NotInWatchlistAfterRemove | src/main/java/fr/kitsuapirest/service/WatchlistService.java:120-135 | after a successful remove, isInWatchlist is false for that user and anime (catalog ids distinct, watchlists hold catalog anime) |
| Watchlists.AddThenRemove | src/main/java/fr/kitsuapirest/service/WatchlistService.java:46-96 | a successful add followed by a remove of the same anime succeeds and restores the user's original set |
| Watchlists.GatheredSize | src/main/java/fr/kitsuapirest/service/WatchlistService.java:104-111 | the gathered anime number the sum of the watchlists' sizes |
| Watchlists.GatheredOfValid | src/main/java/fr/kitsuapirest/service/WatchlistService.java:104-111 | with one watchlist per user, gathering the user's watchlists gives each anime of their set exactly once |
| Watchlists.Enumerate | src/main/java/fr/kitsuapirest/service/WatchlistService.java:108 | iterating a set yields each of its elements exactly once |
| Watchlists.WatchlistService.AddToWatchlist | src/main/java/fr/kitsuapirest/service/WatchlistService.java:46-68 | a failure returns its error and leaves the table unchanged; a success stores the step's watchlist; the table stays valid |
| Watchlists.WatchlistService.RemoveFromWatchlist | src/main/java/fr/kitsuapirest/service/WatchlistService.java:79-96 | a failure returns its error and leaves the table unchanged; a success stores the step's watchlist; the table stays valid |
| Watchlists.WatchlistService.GetWatchlistByUserId | src/main/java/fr/kitsuapirest/service/WatchlistService.java:104-111 | the result holds the anime of all the user's watchlists, each as often as it is listed, and its length is the sum of their sizes |
| Comments.CommentsOfAnime | src/main/java/fr/kitsuapirest/service/CommentService.java:50-52 | the listed comments are drawn from the stored ones and each is on an anime with that id |
| Comments.CommentsOfAnimeExactly | src/main/java/fr/kitsuapirest/service/CommentService.java:50-52 | a comment is listed iff it is stored and on an anime with that id, as often as it is stored |
| Comments.GetCommentByIdUserForUpdate | src/main/java/fr/kitsuapirest/service/CommentService.java:169-179 | NotFound iff no comment has the id; other failures are Unauthorized; success only with a stored comment of that id on that anime written by that user |
| Comments.GetCommentByIdUserForDelete | src/main/java/fr/kitsuapirest/service/CommentService.java:146-157 | NotFound iff no comment has the id; other failures are Unauthorized; success only with a stored comment of that id on that anime, written by that user or requested with role "ADMIN" |
| Comments.ChecksExact | src/main/java/fr/kitsuapirest/service/CommentService.java:146-179 | with distinct ids the update check passes exactly for the author on the comment's anime, and the delete check exactly for the author or an administrator on it; a wrong anime is refused whatever the role |
| Comments.UpdatePermissionImpliesDelete | src/main/java/fr/kitsuapirest/service/CommentService.java:150-176 | whoever passes the update check passes the delete check with any role and gets the same comment |
| Comments.GetCommentById | src/main/java/fr/kitsuapirest/service/CommentService.java:83-93 | NotFound iff no comment has the id; success only with a stored comment of that id on an anime with the given id |
| Comments.GetCommentByIdAsWritten | src/main/java/fr/kitsuapirest/service/CommentService.java:83-93 | with the Anime/Long comparison as written: NotFound iff no comment has the id, and every call fails |
| Comments.GetCommentByIdAsWrittenNeverSucceeds | src/main/java/fr/kitsuapirest/service/CommentService.java:88 | as written the lookup never succeeds; it gives NotFound exactly when the intended one does, and Unauthorized wherever the intended one succeeds |
| Comments.CommentRefusedAsWritten | src/main/java/fr/kitsuapirest/service/CommentService.java:83-93 | comment 5 on anime 2, asked for through anime 2, is found by the intended lookup and refused by the written one |
| Comments.CommentService.AddComment | src/main/java/fr/kitsuapirest/service/CommentService.java:62-72 | with a known anime and non-empty content, exactly one comment bound to the caller, that anime and the instant now is appended under the next id; otherwise the save is refused and nothing changes; the incoming comment is always inserted as a new row (see Left out) |
| Comments.CommentService.UpdateComment | src/main/java/fr/kitsuapirest/service/CommentService.java:106-118 | a failed check returns its error and changes nothing; empty content fails the update and changes nothing; otherwise only that comment's content changes |
| Comments.CommentService.DeleteComment | src/main/java/fr/kitsuapirest/service/CommentService.java:128-133 | the delete check uses the caller's role name; a failure removes nothing; a success removes exactly that comment and no comment with that id remains |

## Left out

- Controllers, views, the self-calls through RestTemplate, the security configuration, and the calls to kitsu.io (`searchAnimeByTitle`, trending and upcoming anime): glue or network I/O.
- `UserService`: the model receives the user already resolved from the principal or username. A user that cannot be found, and a null principal outside `isInWatchlist`, are not modelled.
- Persistence internals: each repository is a sequence of rows with distinct generated ids. Transactions, lazy loading and flushing are not modelled.
- A `findByTitle` or `findByUser_Id` query that matches several rows throws in Spring Data. The model takes the first match. For watchlists the model proves that at most one row per user exists.
- An incoming `Anime`, `Rating` or `Comment` (the request body of `addComment`) is treated as new: any id it carries is ignored, and the save assigns the next generated id. In Spring Data a body carrying the id of a stored row would be merged into that row instead.
- Null fields of a stored anime (title, subtype, status, start date, episode count) would raise NullPointerException in `getAllAnimes`. In the model every field is present.
- Null parameters such as a null role in `addAnime` or a null id in `getAnimeById` are not modelled.
- Case mapping covers ASCII letters only. Java maps the full Unicode range.
- Concurrency: the read-then-write races on the rating upsert and on the watchlists are out of scope.
- Ratings.RatingService.AddRating: requires a value in 1..5 rather than modelling the bean-validation failure of the save.
- Ratings.RatingService.UpdateRating: requires a value in 1..5, for the same reason.
- Ratings.RatingService.GetAverageRatingByAnimeId: returns exact hundredths, not a `double`. Binary floating point can round differently at exact .5 ties.
- Ratings.TopRatedAnimes: takes the user's ratings in a given order, and Ratings.UserTopRatedAnimes passes them in storage order; the source iterates over a `HashSet`. The proved properties hold for every order. Only the order among equal values depends on it, because the sort is stable.
- Watchlists.WatchlistService.GetWatchlistByUserId: states the result as a multiset, not a sequence, because the order of each `HashSet` iteration is unspecified.
- Watchlists: anime on a watchlist are compared as values. Java compares them by identity, which within one persistence context is the same as comparing ids.
- Comments.CommentService.UpdateComment: of the exceptions the save can raise (which the service rethrows as a failed update), only the empty-content constraint is modelled.

## Findings

| source | as written | input that shows it | evidently intended | confidence | as-written member | corrected member |
|---|---|---|---|---|---|---|
| src/main/java/fr/kitsuapirest/service/RatingService.java:106 | the stored user id (an `Integer`) is compared with the `Long` argument through `equals`, which is false for any `Long`; the same test is at line 126 | the owner (user 1) of rating 7 on anime 3 calls update or delete with user id 1 and anime id 3: refused as Unauthorized | compare the two ids as numbers, so the owner passes | high; not executed | Ratings.OwnerRefusedAsWritten | Ratings.CheckAccess |
| src/main/java/fr/kitsuapirest/service/CommentService.java:88 | the comment's `Anime` object is compared with the `Long` anime id through `equals`, which is always false | comment 5 on anime 2 requested with anime id 2 and comment id 5: refused as Unauthorized | compare the anime's id with the argument | high; not executed | Comments.CommentRefusedAsWritten | Comments.GetCommentById |
