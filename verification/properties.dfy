/**
 Properties of the store operations: the store invariant holds initially and
 is preserved by every request, lookups find exactly what creation stored,
 the rating statistics stay consistent with the stored ratings, the radius
 query is an order-preserving selection, and the lists only grow.
 */
module StoreProperties {
  import opened Wrappers
  import opened Models
  import opened FacilityStore
  import opened Api

  // ---------------------------------------------------------------------------
  // Facts about scores

  /** Appending a rating adds its score to that restroom's scores and to no other's. */
  lemma ScoresAppend(ratings: seq<Rating>, r: Rating, toiletId: int)
    ensures Scores(ratings + [r], toiletId)
         == Scores(ratings, toiletId) + (if r.toiletId == toiletId then [r.cleanliness] else [])
  {
    assert (ratings + [r])[..|ratings|] == ratings;
  }

  /** A restroom no rating refers to has no scores. */
  lemma {:induction false} ScoresOfUnrated(ratings: seq<Rating>, toiletId: int)
    requires forall k :: 0 <= k < |ratings| ==> ratings[k].toiletId != toiletId
    ensures Scores(ratings, toiletId) == []
    decreases |ratings|
  {
    if |ratings| > 0 {
      ScoresOfUnrated(ratings[..|ratings| - 1], toiletId);
    }
  }

  /** When every stored rating has a valid score, so does every score of a restroom. */
  lemma {:induction false} ScoresInRange(ratings: seq<Rating>, toiletId: int)
    requires forall k :: 0 <= k < |ratings| ==> ValidCleanliness(ratings[k].cleanliness)
    ensures forall x :: x in Scores(ratings, toiletId) ==> ValidCleanliness(x)
    decreases |ratings|
  {
    if |ratings| > 0 {
      ScoresInRange(ratings[..|ratings| - 1], toiletId);
    }
  }

  /** A sum of scores in 1..5 lies between once and five times their number. */
  lemma {:induction false} SumOfValidScores(xs: seq<int>)
    requires forall x :: x in xs ==> ValidCleanliness(x)
    ensures MinCleanliness * |xs| <= Sum(xs) <= MaxCleanliness * |xs|
    decreases |xs|
  {
    if |xs| > 0 {
      var init := xs[..|xs| - 1];
      assert forall x :: x in init ==> x in xs;
      SumOfValidScores(init);
      assert xs[|xs| - 1] in xs;
    }
  }

  // ---------------------------------------------------------------------------
  // The store invariant

  /** The store the backend starts with satisfies the invariant. */
  lemma EmptyIsValid()
    ensures Valid(Empty)
    ensures Empty.nextId == 1 && Empty.toilets == [] && Empty.ratings == []
  {
  }

  /**
   In a valid store ids are at least 1, below the counter, strictly increasing
   in list order, and hence pairwise distinct.
   */
  lemma ValidIds(s: Store)
    requires Valid(s)
    ensures s.nextId >= 1
    ensures forall i :: 0 <= i < |s.toilets| ==> 1 <= s.toilets[i].id < s.nextId
    ensures forall i, j :: 0 <= i < j < |s.toilets| ==> s.toilets[i].id < s.toilets[j].id
    ensures forall i, j :: 0 <= i < |s.toilets| && 0 <= j < |s.toilets| && i != j ==>
              s.toilets[i].id != s.toilets[j].id
  {
  }

  /** Creating a restroom keeps the store valid. */
  lemma CreatePreservesValid(s: Store, body: ToiletCreate)
    requires Valid(s)
    ensures Valid(CreateToilet(s, body).store)
  {
    var r := CreateToilet(s, body);
    ScoresOfUnrated(s.ratings, s.nextId);
    assert StatsMatch(r.value, s.ratings);
    assert r.store.toilets[|s.toilets|] == r.value;
  }

  /** A rating for another restroom leaves a restroom's statistics consistent. */
  lemma OtherStatsUnchanged(t: Toilet, ratings: seq<Rating>, rated: Rating)
    requires t.id != rated.toiletId && StatsMatch(t, ratings)
    ensures StatsMatch(t, ratings + [rated])
  {
    ScoresAppend(ratings, rated, t.id);
    assert Scores(ratings, t.id) + [] == Scores(ratings, t.id);
  }

  /** Rating a restroom, successfully or not, keeps the store valid. */
  lemma AddRatingPreservesValid(s: Store, toiletId: int, rating: RatingCreate)
    requires Valid(s)
    ensures Valid(AddRating(s, toiletId, rating).store)
  {
    var r := AddRating(s, toiletId, rating);
    if r.value.Success? {
      var i := toiletId - 1;
      assert FirstWithId(s.toilets, toiletId, i);
      var rated := Rating(toiletId, rating.cleanliness);
      assert r.store.ratings == s.ratings + [rated];
      forall j | 0 <= j < |s.toilets| && j != i
        ensures StatsMatch(r.store.toilets[j], r.store.ratings)
      {
        OtherStatsUnchanged(s.toilets[j], s.ratings, rated);
      }
      assert StatsMatch(r.store.toilets[i], r.store.ratings);
    }
  }

  /** Serving any request keeps the store valid. */
  lemma HandlePreservesValid(s: Store, req: Request, dist: Distance)
    requires Valid(s)
    ensures Valid(Handle(s, req, dist).store)
  {
    match req
    case CreateToiletRequest(body) => CreatePreservesValid(s, body);
    case ListToiletsRequest(_, _, _) =>
    case GetToiletRequest(_) =>
    case AddRatingRequest(toiletId, rating) => AddRatingPreservesValid(s, toiletId, rating);
  }

  /** Serving any sequence of requests keeps the store valid. */
  lemma {:induction false} RunPreservesValid(s: Store, reqs: seq<Request>, dist: Distance)
    requires Valid(s)
    ensures Valid(Run(s, reqs, dist))
    decreases |reqs|
  {
    if |reqs| > 0 {
      HandlePreservesValid(s, reqs[0], dist);
      RunPreservesValid(Handle(s, reqs[0], dist).store, reqs[1..], dist);
    }
  }

  /**
   Every store the backend can reach has distinct, increasing ids below the
   counter, and statistics that agree with its ratings.
   */
  lemma ReachableIsValid(reqs: seq<Request>, dist: Distance)
    ensures Valid(Run(Empty, reqs, dist))
  {
    EmptyIsValid();
    RunPreservesValid(Empty, reqs, dist);
  }

  // ---------------------------------------------------------------------------
  // Lookup and creation

  /** In a valid store, id `n` is found exactly when 1 <= n < counter, at position n - 1. */
  lemma GetToiletInValidStore(s: Store, toiletId: int)
    requires Valid(s)
    ensures 1 <= toiletId < s.nextId ==> GetToilet(s, toiletId) == Success(s.toilets[toiletId - 1])
    ensures !(1 <= toiletId < s.nextId) ==> GetToilet(s, toiletId) == Failure(NotFound)
  {
    if 1 <= toiletId < s.nextId {
      assert s.toilets[toiletId - 1].id == toiletId;
    }
  }

  /**
   Looking up the id creation just assigned returns the created restroom, and
   every other id is looked up as before.
   */
  lemma CreateThenGet(s: Store, body: ToiletCreate, toiletId: int)
    requires Valid(s)
    ensures GetToilet(CreateToilet(s, body).store, s.nextId) == Success(CreateToilet(s, body).value)
    ensures toiletId != s.nextId ==>
              GetToilet(CreateToilet(s, body).store, toiletId) == GetToilet(s, toiletId)
  {
    var r := CreateToilet(s, body);
    CreatePreservesValid(s, body);
    GetToiletInValidStore(r.store, s.nextId);
    GetToiletInValidStore(r.store, toiletId);
    GetToiletInValidStore(s, toiletId);
  }

  /**
   A restroom submitted with only a name and coordinates is stored as free,
   with every amenity flag unreported, unrated, and can be looked up by its id.
   */
  lemma CreateWithDefaults(s: Store, name: string, latitude: real, longitude: real)
    requires Valid(s)
    ensures var r := CreateToilet(s, NewToiletCreate(name, latitude, longitude, None, Unreported));
            && r.value == Toilet(s.nextId, name, latitude, longitude, true, Unreported, None, 0)
            && GetToilet(r.store, s.nextId) == Success(r.value)
  {
    CreateThenGet(s, NewToiletCreate(name, latitude, longitude, None, Unreported), s.nextId);
  }

  // ---------------------------------------------------------------------------
  // Ratings

  /** In a valid store every rated restroom's average lies between 1 and 5. */
  lemma AverageInRange(s: Store, i: int)
    requires Valid(s)
    requires 0 <= i < |s.toilets| && s.toilets[i].avgCleanliness.Some?
    ensures s.toilets[i].ratingCount > 0
    ensures MinCleanliness as real <= s.toilets[i].avgCleanliness.value <= MaxCleanliness as real
  {
    var scores := Scores(s.ratings, s.toilets[i].id);
    assert StatsMatch(s.toilets[i], s.ratings);
    ScoresInRange(s.ratings, s.toilets[i].id);
    SumOfValidScores(scores);
    var n := |scores| as real;
    var a := s.toilets[i].avgCleanliness.value;
    assert a * n == Sum(scores) as real;
    assert n > 0.0;
  }

  /**
   In a valid store a rating with a valid score for an existing id succeeds,
   raises the target's count by one, and leaves its average equal to the mean
   of its old scores and the new one.
   */
  lemma AddRatingInValidStore(s: Store, toiletId: int, rating: RatingCreate)
    requires Valid(s)
    requires ValidCleanliness(rating.cleanliness) && 1 <= toiletId < s.nextId
    ensures AddRating(s, toiletId, rating).value.Success?
    ensures var t := AddRating(s, toiletId, rating).value.value;
            var before := s.toilets[toiletId - 1];
            && t.id == toiletId
            && t.ratingCount == before.ratingCount + 1
            && t.avgCleanliness == Average(Scores(s.ratings, toiletId) + [rating.cleanliness])
  {
    var i := toiletId - 1;
    assert FirstWithId(s.toilets, toiletId, i);
    assert StatsMatch(s.toilets[i], s.ratings);
    ScoresAppend(s.ratings, Rating(toiletId, rating.cleanliness), toiletId);
  }

  // ---------------------------------------------------------------------------
  // The radius query

  /**
   `idx` lists, in increasing order, exactly the positions of `ts` whose
   restroom is within the radius, and `r` is the restrooms at those positions.
   */
  ghost predicate OrderedSelection(idx: seq<int>, r: seq<Toilet>, ts: seq<Toilet>,
                                   dist: Distance, lat: real, lng: real, radiusKm: real)
  {
    && |idx| == |r|
    && (forall k :: 0 <= k < |idx| ==> 0 <= idx[k] < |ts| && r[k] == ts[idx[k]])
    && (forall k, l :: 0 <= k < l < |idx| ==> idx[k] < idx[l])
    && (forall i :: 0 <= i < |ts| ==> (i in idx <==> Within(dist, lat, lng, radiusKm, ts[i])))
  }

  /**
   The radius query returns the restrooms within the radius, each once, in the
   order they are stored.
   */
  lemma {:induction false} ListToiletsIsOrderedSelection(ts: seq<Toilet>, lat: real, lng: real,
                                                         radiusKm: real, dist: Distance)
    ensures exists idx :: OrderedSelection(idx, ListToilets(ts, lat, lng, radiusKm, dist), ts,
                                           dist, lat, lng, radiusKm)
    decreases |ts|
  {
    var r := ListToilets(ts, lat, lng, radiusKm, dist);
    if |ts| == 0 {
      assert OrderedSelection([], r, ts, dist, lat, lng, radiusKm);
    } else {
      var n := |ts| - 1;
      var init := ts[..n];
      var r0 := ListToilets(init, lat, lng, radiusKm, dist);
      ListToiletsIsOrderedSelection(init, lat, lng, radiusKm, dist);
      var idx :| OrderedSelection(idx, r0, init, dist, lat, lng, radiusKm);
      if Within(dist, lat, lng, radiusKm, ts[n]) {
        assert r == r0 + [ts[n]];
        SelectionKeepsLast(idx, r0, ts, dist, lat, lng, radiusKm);
      } else {
        assert r == r0;
        SelectionSkipsLast(idx, r0, ts, dist, lat, lng, radiusKm);
      }
    }
  }

  /** Extending the list by a restroom within the radius extends the selection by its position. */
  lemma SelectionKeepsLast(idx: seq<int>, r0: seq<Toilet>, ts: seq<Toilet>,
                           dist: Distance, lat: real, lng: real, radiusKm: real)
    requires |ts| > 0 && Within(dist, lat, lng, radiusKm, ts[|ts| - 1])
    requires OrderedSelection(idx, r0, ts[..|ts| - 1], dist, lat, lng, radiusKm)
    ensures OrderedSelection(idx + [|ts| - 1], r0 + [ts[|ts| - 1]], ts, dist, lat, lng, radiusKm)
  {
    var n := |ts| - 1;
    var idx' := idx + [n];
    var r := r0 + [ts[n]];
    forall k | 0 <= k < |idx'|
      ensures 0 <= idx'[k] < |ts| && r[k] == ts[idx'[k]]
    {
      if k < |idx| {
        assert idx'[k] == idx[k] && r[k] == r0[k];
      }
    }
    forall i | 0 <= i < |ts|
      ensures i in idx' <==> Within(dist, lat, lng, radiusKm, ts[i])
    {
      if i < n {
        assert ts[i] == ts[..n][i];
      }
    }
  }

  /** Extending the list by a restroom outside the radius leaves the selection as it was. */
  lemma SelectionSkipsLast(idx: seq<int>, r0: seq<Toilet>, ts: seq<Toilet>,
                           dist: Distance, lat: real, lng: real, radiusKm: real)
    requires |ts| > 0 && !Within(dist, lat, lng, radiusKm, ts[|ts| - 1])
    requires OrderedSelection(idx, r0, ts[..|ts| - 1], dist, lat, lng, radiusKm)
    ensures OrderedSelection(idx, r0, ts, dist, lat, lng, radiusKm)
  {
    var n := |ts| - 1;
    forall k | 0 <= k < |idx|
      ensures r0[k] == ts[idx[k]]
    {
      assert ts[..n][idx[k]] == ts[idx[k]];
    }
    forall i | 0 <= i < |ts|
      ensures i in idx <==> Within(dist, lat, lng, radiusKm, ts[i])
    {
      if i < n {
        assert ts[i] == ts[..n][i];
      }
    }
  }

  // ---------------------------------------------------------------------------
  // Growth

  /**
   No request removes anything: existing restrooms keep their position and
   everything but their statistics, the rating list only grows at the end, by
   at most one entry, and the counter never goes down.
   */
  lemma HandleAppendOnly(s: Store, req: Request, dist: Distance)
    ensures var s' := Handle(s, req, dist).store;
            && |s.toilets| <= |s'.toilets| <= |s.toilets| + 1
            && (forall i :: 0 <= i < |s.toilets| ==> SameExceptStats(s.toilets[i], s'.toilets[i]))
            && s.ratings <= s'.ratings
            && |s'.ratings| <= |s.ratings| + 1
            && s.nextId <= s'.nextId
  {
    match req
    case CreateToiletRequest(body) =>
    case ListToiletsRequest(_, _, _) =>
    case GetToiletRequest(_) =>
    case AddRatingRequest(toiletId, rating) =>
      var r := AddRating(s, toiletId, rating);
      if r.value.Success? {
        var i := FindIndex(s.toilets, toiletId).value;
        assert FirstWithId(s.toilets, toiletId, i);
      }
  }
}
