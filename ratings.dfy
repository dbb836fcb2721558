/**
  `RatingService`: a user's 1-to-5 rating of an anime, kept unique per
  (user, anime) pair through the derived key `userId + "_" + animeId`;
  updates and deletions restricted to the rating's owner; the user's five
  best-rated anime; and an anime's average rating rounded to hundredths.
 */
module Ratings {
  import opened Entities
  import opened Text
  import opened Seqs
  import Catalog

  /**
    Reads a key back: the signed decimal numbers before and after its first
    underscore; None when it holds no underscore.
   */
  function KeyParts(key: string): Option<(int, int)>
  {
    match FirstIndex(key, (c: char) => c == '_')
    case None => None
    case Some(i) => Some((SignedValue(key[..i]), SignedValue(key[i + 1..])))
  }

  /** The uniqueness key of a (user, anime) pair: both ids in decimal, joined by an underscore. */
  function UserAnimeKey(userId: int, animeId: int): string
  {
    IntToString(userId) + "_" + IntToString(animeId)
  }

  /** Reading a pair's key back gives the pair: the key is the ids' decimal text. */
  lemma UserAnimeKeyReadsBack(userId: int, animeId: int)
    ensures KeyParts(UserAnimeKey(userId, animeId)) == Some((userId, animeId))
  {
    var u, a := IntToString(userId), IntToString(animeId);
    IntToStringValue(userId);
    IntToStringValue(animeId);
    var key := UserAnimeKey(userId, animeId);
    assert key[|u|] == '_' && key[..|u|] == u && key[|u| + 1..] == a;
    assert forall k :: 0 <= k < |u| ==> key[k] == u[k] != '_';
    assert FirstIndex(key, (c: char) => c == '_') == Some(|u|);
  }

  /** The key of user 1 and anime 1 reads "1_1". */
  lemma UserAnimeKeyExample()
    ensures UserAnimeKey(1, 1) == "1_1"
  {
    assert IntToString(1) == "1";
  }

  /** Different (user, anime) pairs get different keys, so the key identifies the pair. */
  lemma UserAnimeKeyInjective(u1: int, a1: int, u2: int, a2: int)
    requires UserAnimeKey(u1, a1) == UserAnimeKey(u2, a2)
    ensures u1 == u2 && a1 == a2
  {
    UserAnimeKeyReadsBack(u1, a1);
    UserAnimeKeyReadsBack(u2, a2);
  }

  /**
    The rating table: generated ids are distinct and below the next one, the
    unique column `userAnimeKey` holds no duplicate, and every value passed
    the 1-to-5 bean-validation bounds.
   */
  predicate ValidTable(rows: seq<Rating>, nextId: int)
  {
    && (forall i, j :: 0 <= i < j < |rows| ==> rows[i].id != rows[j].id)
    && (forall i, j :: 0 <= i < j < |rows| ==> rows[i].userAnimeKey != rows[j].userAnimeKey)
    && (forall i :: 0 <= i < |rows| ==> rows[i].id < nextId && 1 <= rows[i].value <= 5)
  }

  function HasKey(key: string): Rating -> bool
  {
    (r: Rating) => r.userAnimeKey == key
  }

  function HasId(id: int): Rating -> bool
  {
    (r: Rating) => r.id == id
  }

  /** `getRatingByUserAndAnime`: the rating stored under the pair's key, or none (null). */
  function GetRatingByUserAndAnime(rows: seq<Rating>, userId: int, animeId: int): (r: Option<Rating>)
    ensures r.Some? ==> r.value in rows && r.value.userAnimeKey == UserAnimeKey(userId, animeId)
    ensures r.None? <==> forall k :: 0 <= k < |rows| ==> rows[k].userAnimeKey != UserAnimeKey(userId, animeId)
  {
    match FirstIndex(rows, HasKey(UserAnimeKey(userId, animeId)))
    case None => None
    case Some(i) => Some(rows[i])
  }

  /** The rating `addRating` saved, and the table and id counter after the save. */
  datatype Saved = Saved(rating: Rating, rows: seq<Rating>, nextId: int)

  /**
    `addRating`: an existing rating of the pair gets the new value and keeps
    its id and row; otherwise a new rating bound to the user, to the anime
    `getAnimeById` returns (possibly none) and to the pair's key is saved
    under the next generated id. No other row changes.
   */
  function AddRatingStep(rows: seq<Rating>, nextId: int, catalog: seq<Anime>, userId: int, animeId: int, value: int): (s: Saved)
    ensures s.rating in s.rows && s.rating.value == value
    ensures s.rating.userAnimeKey == UserAnimeKey(userId, animeId)
    ensures var found := GetRatingByUserAndAnime(rows, userId, animeId);
            found.Some? ==> s.rating == found.value.(value := value) && |s.rows| == |rows| && s.nextId == nextId
    ensures GetRatingByUserAndAnime(rows, userId, animeId).None? ==>
              && s.rating == Rating(nextId, value, userId, Catalog.GetAnimeById(catalog, animeId), UserAnimeKey(userId, animeId))
              && s.rows == rows + [s.rating]
              && s.nextId == nextId + 1
    ensures forall k :: 0 <= k < |rows| && rows[k].userAnimeKey != UserAnimeKey(userId, animeId) ==> s.rows[k] == rows[k]
  {
    var key := UserAnimeKey(userId, animeId);
    match FirstIndex(rows, HasKey(key))
    case Some(i) =>
      var updated := rows[i].(value := value);
      var changed := rows[i := updated];
      assert changed[i] == updated;
      Saved(updated, changed, nextId)
    case None =>
      var created := Rating(nextId, value, userId, Catalog.GetAnimeById(catalog, animeId), key);
      Saved(created, rows + [created], nextId + 1)
  }

  /**
    `addRating` keeps the table valid, and afterwards the pair's key is carried
    by exactly one row: the saved rating.
   */
  lemma AddRatingKeepsValid(rows: seq<Rating>, nextId: int, catalog: seq<Anime>, userId: int, animeId: int, value: int)
    requires ValidTable(rows, nextId) && 1 <= value <= 5
    ensures var s := AddRatingStep(rows, nextId, catalog, userId, animeId, value);
            && ValidTable(s.rows, s.nextId)
            && forall k :: 0 <= k < |s.rows| && s.rows[k].userAnimeKey == UserAnimeKey(userId, animeId) ==> s.rows[k] == s.rating
  {
    var s := AddRatingStep(rows, nextId, catalog, userId, animeId, value);
    var key := UserAnimeKey(userId, animeId);
    match FirstIndex(rows, HasKey(key))
    case Some(i) =>
      assert s.rows == rows[i := s.rating];
    case None =>
  }

  /** After `addRating`, looking the pair up finds the saved rating. */
  lemma AddRatingThenGet(rows: seq<Rating>, nextId: int, catalog: seq<Anime>, userId: int, animeId: int, value: int)
    ensures var s := AddRatingStep(rows, nextId, catalog, userId, animeId, value);
            GetRatingByUserAndAnime(s.rows, userId, animeId) == Some(s.rating)
  {
    var s := AddRatingStep(rows, nextId, catalog, userId, animeId, value);
    var key := UserAnimeKey(userId, animeId);
    match FirstIndex(rows, HasKey(key))
    case Some(i) =>
      assert s.rows == rows[i := s.rating];
      assert FirstIndex(s.rows, HasKey(key)) == Some(i) by {
        var f := FirstIndex(s.rows, HasKey(key));
        assert HasKey(key)(s.rows[i]);
      }
    case None =>
      assert FirstIndex(s.rows, HasKey(key)) == Some(|rows|) by {
        var f := FirstIndex(s.rows, HasKey(key));
        assert s.rows[|rows|] == s.rating;
      }
  }

  /** Repeating `addRating` with the same value changes nothing: the upsert is idempotent. */
  lemma AddRatingIdempotent(rows: seq<Rating>, nextId: int, catalog: seq<Anime>, userId: int, animeId: int, value: int)
    ensures var s := AddRatingStep(rows, nextId, catalog, userId, animeId, value);
            AddRatingStep(s.rows, s.nextId, catalog, userId, animeId, value) == s
  {
    var s := AddRatingStep(rows, nextId, catalog, userId, animeId, value);
    AddRatingThenGet(rows, nextId, catalog, userId, animeId, value);
    var key := UserAnimeKey(userId, animeId);
    var i := FirstIndex(s.rows, HasKey(key)).value;
    assert s.rows[i] == s.rating;
    assert s.rows[i := s.rating] == s.rows;
  }

  /**
    Rating the same anime twice leaves one rating of the pair, with the same
    id, holding the second value; no row is added by the second call.
   */
  lemma AddRatingLastValueWins(rows: seq<Rating>, nextId: int, catalog: seq<Anime>, userId: int, animeId: int, first: int, second: int)
    ensures var s1 := AddRatingStep(rows, nextId, catalog, userId, animeId, first);
            var s2 := AddRatingStep(s1.rows, s1.nextId, catalog, userId, animeId, second);
            && |s2.rows| == |s1.rows| && s2.nextId == s1.nextId
            && s2.rating == s1.rating.(value := second)
            && GetRatingByUserAndAnime(s2.rows, userId, animeId) == Some(s2.rating)
  {
    var s1 := AddRatingStep(rows, nextId, catalog, userId, animeId, first);
    AddRatingThenGet(rows, nextId, catalog, userId, animeId, first);
    AddRatingThenGet(s1.rows, s1.nextId, catalog, userId, animeId, second);
  }

  /** `getRatingsByAnimeId` (`findByAnimeId`): the ratings bound to the anime with that id, in storage order. */
  function RatingsOfAnime(rows: seq<Rating>, animeId: int): (r: seq<Rating>)
    ensures multiset(r) <= multiset(rows)
    ensures forall k :: 0 <= k < |r| ==> r[k].anime.Some? && r[k].anime.value.id == animeId
  {
    FilterSubMultiset(rows, (r: Rating) => r.anime.Some? && r.anime.value.id == animeId);
    Filter(rows, (r: Rating) => r.anime.Some? && r.anime.value.id == animeId)
  }

  /** A rating belongs to the anime's list exactly when it is stored and bound to that anime. */
  lemma RatingsOfAnimeMembers(rows: seq<Rating>, animeId: int, r: Rating)
    ensures r in RatingsOfAnime(rows, animeId) <==> r in rows && r.anime.Some? && r.anime.value.id == animeId
  {
    FilterMembers(rows, (r: Rating) => r.anime.Some? && r.anime.value.id == animeId, r);
  }

  /** The ownership test on a rating's user id, as intended: the ids are equal numbers. */
  predicate SameUser(storedUserId: int, userId: int)
  {
    storedUserId == userId
  }

  /**
    The ownership test as written: the stored id is an `Integer` and the
    caller's id a `Long`, and `Integer.equals` is false for any `Long`.
   */
  predicate SameUserAsWritten(storedUserId: int, userId: int)
  {
    false
  }

  /**
    The checks shared by `updateRating` and `deleteRating`: the rating must
    exist, then its anime is dereferenced (null fails), then it must belong
    to that anime and to that user. Succeeds with the rating's position.
    The user test is the intended numeric comparison `SameUser`; the test as
    written is `SameUserAsWritten`, under which access is never granted
    (`AccessAsWrittenNeverGranted`).
   */
  function CheckAccess(rows: seq<Rating>, animeId: int, ratingId: int, userId: int): (r: Result<nat, Error>)
    ensures r == Failure(NotFound(RatingEntity)) <==> forall k :: 0 <= k < |rows| ==> rows[k].id != ratingId
    ensures r.Success? ==>
              && r.value < |rows| && rows[r.value].id == ratingId
              && rows[r.value].anime.Some? && rows[r.value].anime.value.id == animeId
              && rows[r.value].userId == userId
  {
    match FirstIndex(rows, HasId(ratingId))
    case None => Failure(NotFound(RatingEntity))
    case Some(i) =>
      if rows[i].anime.None? then Failure(NullReference)
      else if rows[i].anime.value.id != animeId || !SameUser(rows[i].userId, userId) then Failure(Unauthorized)
      else Success(i)
  }

  /**
    With distinct rating ids, the check on a stored rating fails on a null
    anime, refuses a mismatching anime or user, and grants access otherwise.
   */
  lemma CheckAccessExact(rows: seq<Rating>, k: int, animeId: int, userId: int)
    requires forall i, j :: 0 <= i < j < |rows| ==> rows[i].id != rows[j].id
    requires 0 <= k < |rows|
    ensures CheckAccess(rows, animeId, rows[k].id, userId) ==
              if rows[k].anime.None? then Failure(NullReference)
              else if rows[k].anime.value.id != animeId || rows[k].userId != userId then Failure(Unauthorized)
              else Success(k)
  {
    assert HasId(rows[k].id)(rows[k]);
    assert FirstIndex(rows, HasId(rows[k].id)) == Some(k);
  }

  /**
    The same checks with the ownership test as written: an unknown rating is
    still NotFound, but no call ever gets past the checks.
   */
  function CheckAccessAsWritten(rows: seq<Rating>, animeId: int, ratingId: int, userId: int): (r: Result<nat, Error>)
    ensures r == Failure(NotFound(RatingEntity)) <==> forall k :: 0 <= k < |rows| ==> rows[k].id != ratingId
    ensures r.Failure?
  {
    match FirstIndex(rows, HasId(ratingId))
    case None => Failure(NotFound(RatingEntity))
    case Some(i) =>
      if rows[i].anime.None? then Failure(NullReference)
      else if rows[i].anime.value.id != animeId || !SameUserAsWritten(rows[i].userId, userId) then Failure(Unauthorized)
      else Success(i)
  }

  /**
    As written, no caller ever passes the check: where the intended check
    rejects, the written one rejects with the same error, and where the
    intended check grants access (the owner, on the right anime) the written
    one answers Unauthorized.
   */
  lemma AccessAsWrittenNeverGranted(rows: seq<Rating>, animeId: int, ratingId: int, userId: int)
    ensures CheckAccessAsWritten(rows, animeId, ratingId, userId).Failure?
    ensures CheckAccess(rows, animeId, ratingId, userId).Failure? ==>
              CheckAccessAsWritten(rows, animeId, ratingId, userId) == CheckAccess(rows, animeId, ratingId, userId)
    ensures CheckAccess(rows, animeId, ratingId, userId).Success? ==>
              CheckAccessAsWritten(rows, animeId, ratingId, userId) == Failure(Unauthorized)
  {
  }

  /** A concrete witness: the owner of rating 7 on anime 3 is refused by the check as written. */
  lemma OwnerRefusedAsWritten()
    ensures var rows := [Rating(7, 4, 1, Some(Anime(3, "A", "", "", 0, 0, 1, 24, "TV", "finished", "")), "1_3")];
            && CheckAccess(rows, 3, 7, 1) == Success(0)
            && CheckAccessAsWritten(rows, 3, 7, 1) == Failure(Unauthorized)
  {
    var rows := [Rating(7, 4, 1, Some(Anime(3, "A", "", "", 0, 0, 1, 24, "TV", "finished", "")), "1_3")];
    assert FirstIndex(rows, HasId(7)) == Some(0);
  }

  /** `getTopRatedAnimes` sorts by the rating value, reversed: ascending negated value. */
  function ByValueDescending(r: Rating): int
  {
    -r.value
  }

  function Min(a: int, b: int): int
  {
    if a < b then a else b
  }

  /** The first five of the ratings stably sorted by non-increasing value. */
  function TopRatings(ratings: seq<Rating>): (top: seq<Rating>)
    ensures |top| == Min(5, |ratings|)
  {
    SortByKey(ratings, ByValueDescending)[..Min(5, |ratings|)]
  }

  /** `getTopRatedAnimes`: the anime (possibly null) of each of the top five ratings, in order. */
  function TopRatedAnimes(ratings: seq<Rating>): (animes: seq<Option<Anime>>)
    ensures |animes| == Min(5, |ratings|)
    ensures forall i :: 0 <= i < |animes| ==> animes[i] == TopRatings(ratings)[i].anime
  {
    var top := TopRatings(ratings);
    seq(|top|, i requires 0 <= i < |top| => top[i].anime)
  }

  /** The top ratings come in non-increasing order of value. */
  lemma TopRatingsOrdered(ratings: seq<Rating>)
    ensures forall i, j :: 0 <= i < j < |TopRatings(ratings)| ==> TopRatings(ratings)[i].value >= TopRatings(ratings)[j].value
  {
    var sorted := SortByKey(ratings, ByValueDescending);
    SortIsSorted(ratings, ByValueDescending);
    forall i, j | 0 <= i < j < |TopRatings(ratings)|
      ensures TopRatings(ratings)[i].value >= TopRatings(ratings)[j].value
    {
      assert TopRatings(ratings)[i] == sorted[i] && TopRatings(ratings)[j] == sorted[j];
      assert ByValueDescending(sorted[i]) <= ByValueDescending(sorted[j]);
    }
  }

  /**
    The top ratings are drawn from the user's ratings, and every rating left
    out has a value no greater than the last one taken.
   */
  lemma TopRatingsDominate(ratings: seq<Rating>)
    ensures multiset(TopRatings(ratings)) <= multiset(ratings)
    ensures ratings != [] ==>
              forall x :: x in multiset(ratings) - multiset(TopRatings(ratings)) ==>
                x.value <= TopRatings(ratings)[|TopRatings(ratings)| - 1].value
  {
    var sorted := SortByKey(ratings, ByValueDescending);
    var m := Min(5, |ratings|);
    var top := TopRatings(ratings);
    SortPermutes(ratings, ByValueDescending);
    SortIsSorted(ratings, ByValueDescending);
    assert sorted == top + sorted[m..];
    assert multiset(sorted) == multiset(top) + multiset(sorted[m..]);
    if ratings != [] {
      forall x | x in multiset(ratings) - multiset(top)
        ensures x.value <= top[m - 1].value
      {
        assert x in multiset(sorted[m..]);
        var j :| 0 <= j < |sorted[m..]| && sorted[m..][j] == x;
        assert sorted[m + j] == x;
        assert ByValueDescending(sorted[m - 1]) <= ByValueDescending(sorted[m + j]);
      }
    }
  }

  /** `user.getRatings()`: the stored ratings given by the user, in storage order. */
  function RatingsOfUser(rows: seq<Rating>, userId: int): (r: seq<Rating>)
    ensures multiset(r) <= multiset(rows)
    ensures forall k :: 0 <= k < |r| ==> r[k].userId == userId
  {
    FilterSubMultiset(rows, (r: Rating) => r.userId == userId);
    Filter(rows, (r: Rating) => r.userId == userId)
  }

  /** `getTopRatedAnimes(principal)` for the user with id `userId`. */
  function UserTopRatedAnimes(rows: seq<Rating>, userId: int): (animes: seq<Option<Anime>>)
    ensures |animes| <= 5
  {
    TopRatedAnimes(RatingsOfUser(rows, userId))
  }

  /**
    The user's top ratings are stored ratings of that user, and every stored
    rating of the user left out has a value no greater than the last one taken.
   */
  lemma UserTopRatings(rows: seq<Rating>, userId: int)
    ensures var top := TopRatings(RatingsOfUser(rows, userId));
            && (forall x :: x in top ==> x in rows && x.userId == userId)
            && forall x :: x in rows && x.userId == userId && x !in top ==> top != [] && x.value <= top[|top| - 1].value
  {
    var ratings := RatingsOfUser(rows, userId);
    var top := TopRatings(ratings);
    TopRatingsDominate(ratings);
    forall x | x in top
      ensures x in rows && x.userId == userId
    {
      assert x in multiset(ratings);
      assert x in ratings;
    }
    forall x | x in rows && x.userId == userId && x !in top
      ensures top != [] && x.value <= top[|top| - 1].value
    {
      FilterMembers(rows, (r: Rating) => r.userId == userId, x);
      assert x in multiset(ratings) - multiset(top);
    }
  }

  /** The sum of the rating values. */
  function SumOfValues(ratings: seq<Rating>): int
  {
    if ratings == [] then 0 else SumOfValues(ratings[..|ratings| - 1]) + ratings[|ratings| - 1].value
  }

  /**
    `Math.round(sum / n * 100)`: the mean in hundredths, rounded half up, in
    exact arithmetic.
   */
  function RoundedHundredths(sum: int, n: int): (h: int)
    requires n > 0
    ensures 2 * n * h <= 200 * sum + n < 2 * n * (h + 1)
  {
    (200 * sum + n) / (2 * n)
  }

  /** `getAverageRatingByAnimeId` in hundredths: 0 without ratings, the rounded mean otherwise. */
  function AverageHundredths(ratings: seq<Rating>): (h: int)
    ensures ratings == [] ==> h == 0
  {
    if ratings == [] then 0 else RoundedHundredths(SumOfValues(ratings), |ratings|)
  }

  /** Ratings 4 and 5 average 4.50; ratings 1, 2 and 2 average 1.67 (1.666... rounded up). */
  lemma AverageExamples()
    ensures RoundedHundredths(4 + 5, 2) == 450
    ensures RoundedHundredths(1 + 2 + 2, 3) == 167
  {
  }

  /** The lowest value among the ratings. */
  function MinValue(ratings: seq<Rating>): (m: int)
    requires ratings != []
    ensures forall k :: 0 <= k < |ratings| ==> m <= ratings[k].value
    ensures exists k :: 0 <= k < |ratings| && ratings[k].value == m
  {
    var last := ratings[|ratings| - 1];
    if |ratings| == 1 then last.value
    else
      var init := ratings[..|ratings| - 1];
      var m := MinValue(init);
      assert forall k :: 0 <= k < |init| ==> init[k] == ratings[k];
      Min(m, last.value)
  }

  /** The highest value among the ratings. */
  function MaxValue(ratings: seq<Rating>): (m: int)
    requires ratings != []
    ensures forall k :: 0 <= k < |ratings| ==> ratings[k].value <= m
    ensures exists k :: 0 <= k < |ratings| && ratings[k].value == m
  {
    var last := ratings[|ratings| - 1];
    if |ratings| == 1 then last.value
    else
      var init := ratings[..|ratings| - 1];
      var m := MaxValue(init);
      assert forall k :: 0 <= k < |init| ==> init[k] == ratings[k];
      if m < last.value then last.value else m
  }

  /** Values between `lo` and `hi` put the sum between `n lo` and `n hi`. */
  lemma {:induction false} SumBetween(ratings: seq<Rating>, lo: int, hi: int)
    requires forall k :: 0 <= k < |ratings| ==> lo <= ratings[k].value <= hi
    ensures |ratings| * lo <= SumOfValues(ratings) <= |ratings| * hi
  {
    if ratings != [] {
      var n := |ratings|;
      SumBetween(ratings[..n - 1], lo, hi);
      assert n * lo == (n - 1) * lo + lo && n * hi == (n - 1) * hi + hi;
    }
  }

  /** A positive factor can be cancelled from both sides of an inequality. */
  lemma CancelFactor(n: int, h: int, c: int)
    requires n > 0 && n * h < n * (c + 1)
    ensures h <= c
  {
  }

  /** A sum of at most `n hi` rounds to at most `hi` whole units. */
  lemma RoundedAtMost(sum: int, n: int, hi: int)
    requires n > 0 && sum <= n * hi
    ensures RoundedHundredths(sum, n) <= 100 * hi
  {
    var h, m, top := RoundedHundredths(sum, n), 2 * n, n * hi;
    assert m * h <= 200 * sum + n <= 200 * top + n;
    assert m * (100 * hi + 1) == 200 * top + m;
    CancelFactor(m, h, 100 * hi);
  }

  /** A sum of at least `n lo` rounds to at least `lo` whole units. */
  lemma RoundedAtLeast(sum: int, n: int, lo: int)
    requires n > 0 && n * lo <= sum
    ensures 100 * lo <= RoundedHundredths(sum, n)
  {
    var h, m, bottom := RoundedHundredths(sum, n), 2 * n, n * lo;
    assert 200 * bottom <= 200 * sum < m * (h + 1);
    assert m * (100 * lo) == 200 * bottom;
    CancelFactor(m, 100 * lo, h);
  }

  /** The average of some ratings lies between their lowest and their highest value. */
  lemma AverageBetweenExtremes(ratings: seq<Rating>)
    requires ratings != []
    ensures 100 * MinValue(ratings) <= AverageHundredths(ratings) <= 100 * MaxValue(ratings)
  {
    var n, sum := |ratings|, SumOfValues(ratings);
    var lo, hi := MinValue(ratings), MaxValue(ratings);
    SumBetween(ratings, lo, hi);
    RoundedAtMost(sum, n, hi);
    RoundedAtLeast(sum, n, lo);
  }

  /** Valid ratings (1 to 5) average between 1.00 and 5.00. */
  lemma AverageWithinBounds(ratings: seq<Rating>)
    requires ratings != []
    requires forall i :: 0 <= i < |ratings| ==> 1 <= ratings[i].value <= 5
    ensures 100 <= AverageHundredths(ratings) <= 500
  {
    AverageBetweenExtremes(ratings);
  }

  /** The summing loop of `getAverageRatingByAnimeId`. */
  method Sum(ratings: seq<Rating>) returns (sum: int)
    ensures sum == SumOfValues(ratings)
  {
    sum := 0;
    for i := 0 to |ratings|
      invariant sum == SumOfValues(ratings[..i])
    {
      assert ratings[..i + 1][..i] == ratings[..i];
      sum := sum + ratings[i].value;
    }
    assert ratings[..|ratings|] == ratings;
  }

  /** The rating repository as the service changes it: the stored rows and the next generated id. */
  class RatingService {
    var rows: seq<Rating>
    var nextId: int

    ghost predicate Valid()
      reads this
    {
      ValidTable(rows, nextId)
    }

    /** An empty repository: no rows yet, and generated ids start at 1. */
    constructor ()
      ensures Valid() && rows == [] && nextId == 1
    {
      rows := [];
      nextId := 1;
    }

    /** `addRating(animeId, rating, principal)` for the user with id `userId`. */
    method AddRating(catalog: seq<Anime>, animeId: int, userId: int, value: int) returns (saved: Rating)
      requires Valid() && 1 <= value <= 5
      modifies this
      ensures Valid()
      ensures Saved(saved, rows, nextId) == AddRatingStep(old(rows), old(nextId), catalog, userId, animeId, value)
    {
      AddRatingKeepsValid(rows, nextId, catalog, userId, animeId, value);
      var key := UserAnimeKey(userId, animeId);
      var existing := FirstIndex(rows, HasKey(key));
      if existing.Some? {
        saved := rows[existing.value].(value := value);
        rows := rows[existing.value := saved];
      } else {
        saved := Rating(nextId, value, userId, Catalog.GetAnimeById(catalog, animeId), key);
        rows := rows + [saved];
        nextId := nextId + 1;
      }
    }

    /**
      `updateRating`: after the access checks, only the value of that rating
      changes. The checks are `CheckAccess`, with the intended user test; as
      written the update is always refused (`AccessAsWrittenNeverGranted`).
     */
    method UpdateRating(animeId: int, ratingId: int, value: int, userId: int) returns (r: Result<Rating, Error>)
      requires Valid() && 1 <= value <= 5
      modifies this
      ensures Valid() && nextId == old(nextId)
      ensures var check := CheckAccess(old(rows), animeId, ratingId, userId);
              check.Failure? ==> r == Failure(check.error) && rows == old(rows)
      ensures var check := CheckAccess(old(rows), animeId, ratingId, userId);
              check.Success? ==>
                && rows == old(rows)[check.value := old(rows)[check.value].(value := value)]
                && r == Success(rows[check.value])
    {
      var check := CheckAccess(rows, animeId, ratingId, userId);
      if check.Failure? {
        return Failure(check.error);
      }
      var updated := rows[check.value].(value := value);
      rows := rows[check.value := updated];
      r := Success(updated);
    }

    /**
      `deleteRating`: after the access checks, exactly that rating is removed.
      The checks are `CheckAccess`, with the intended user test; as written
      the deletion is always refused (`AccessAsWrittenNeverGranted`).
     */
    method DeleteRating(animeId: int, ratingId: int, userId: int) returns (r: Outcome<Error>)
      requires Valid()
      modifies this
      ensures Valid() && nextId == old(nextId)
      ensures var check := CheckAccess(old(rows), animeId, ratingId, userId);
              check.Failure? ==> r == Fail(check.error) && rows == old(rows)
      ensures var check := CheckAccess(old(rows), animeId, ratingId, userId);
              check.Success? ==>
                && r == Pass
                && rows == old(rows)[..check.value] + old(rows)[check.value + 1..]
                && forall k :: 0 <= k < |rows| ==> rows[k].id != ratingId
    {
      var check := CheckAccess(rows, animeId, ratingId, userId);
      if check.Failure? {
        return Fail(check.error);
      }
      var i := check.value;
      ghost var before := rows;
      rows := rows[..i] + rows[i + 1..];
      forall k | 0 <= k < |rows|
        ensures rows[k].id != ratingId
      {
        if k < i {
          assert rows[k] == before[k];
        } else {
          assert rows[k] == before[k + 1];
        }
      }
      r := Pass;
    }

    /** `getAverageRatingByAnimeId`, in hundredths: sums the anime's ratings in one pass. */
    method GetAverageRatingByAnimeId(animeId: int) returns (average: int)
      ensures average == AverageHundredths(RatingsOfAnime(rows, animeId))
    {
      var ratings := RatingsOfAnime(rows, animeId);
      if |ratings| == 0 {
        return 0;
      }
      var sum := Sum(ratings);
      average := (200 * sum + |ratings|) / (2 * |ratings|);
    }
  }
}
