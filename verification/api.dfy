/**
 The four store operations of the Porta-Spotty backend — create a restroom,
 list the restrooms near a point, look one up, rate one — and the request
 dispatcher that routes an HTTP request to them. Each operation is a pure
 function of the store; the mutating ones return the new store in a `Step`.
 */
module Api {
  import opened Wrappers
  import opened Models
  import opened FacilityStore

  /** Distance in km between (lat1, lng1) and (lat2, lng2); the backend uses the haversine formula. */
  type Distance = (real, real, real, real) -> real

  /** The search radius used when the query gives none. */
  const DefaultRadiusKm: real := 2.0

  /** Restroom `t` lies within `radiusKm` of the query point (the bound is inclusive). */
  predicate Within(dist: Distance, lat: real, lng: real, radiusKm: real, t: Toilet) {
    dist(lat, lng, t.latitude, t.longitude) <= radiusKm
  }

  /**
   Recomputes the count and average of the first restroom with id `toiletId`
   from the stored ratings; with no such restroom the store is unchanged.
   */
  function RecomputeRatingStats(s: Store, toiletId: int): (s': Store)
    ensures s'.ratings == s.ratings && s'.nextId == s.nextId
    ensures |s'.toilets| == |s.toilets|
    ensures !HasId(s.toilets, toiletId) ==> s' == s
    ensures forall i :: FirstWithId(s.toilets, toiletId, i) ==>
              && SameExceptStats(s.toilets[i], s'.toilets[i])
              && StatsMatch(s'.toilets[i], s.ratings)
              && forall j :: 0 <= j < |s.toilets| && j != i ==> s'.toilets[j] == s.toilets[j]
  {
    match FindIndex(s.toilets, toiletId)
    case None => s
    case Some(i) =>
      var scores := Scores(s.ratings, toiletId);
      var t := s.toilets[i].(avgCleanliness := Average(scores), ratingCount := |scores|);
      s.(toilets := s.toilets[i := t])
  }

  /**
   `POST /toilets`: the new restroom takes the counter as its id, copies the
   submitted fields, starts unrated, and is appended; the counter goes up by one.
   */
  function CreateToilet(s: Store, body: ToiletCreate): (r: Step<Toilet>)
    ensures r.value.id == s.nextId
    ensures r.value.name == body.name
    ensures r.value.latitude == body.latitude && r.value.longitude == body.longitude
    ensures r.value.isFree == body.isFree && r.value.amenities == body.amenities
    ensures r.value.avgCleanliness == None && r.value.ratingCount == 0
    ensures r.store.toilets == s.toilets + [r.value]
    ensures r.store.ratings == s.ratings
    ensures r.store.nextId == s.nextId + 1
  {
    var t := Toilet(s.nextId, body.name, body.latitude, body.longitude,
                    body.isFree, body.amenities, None, 0);
    Step(t, Store(s.toilets + [t], s.ratings, s.nextId + 1))
  }

  /**
   `GET /toilets`: the restrooms of `ts` within `radiusKm` of (lat, lng), in
   list order. A restroom is in the result exactly when it is in `ts` and
   within the radius.
   */
  function ListToilets(ts: seq<Toilet>, lat: real, lng: real, radiusKm: real, dist: Distance)
    : (r: seq<Toilet>)
    ensures |r| <= |ts|
    ensures forall t :: t in r <==> t in ts && Within(dist, lat, lng, radiusKm, t)
    decreases |ts|
  {
    if |ts| == 0 then []
    else
      var last := ts[|ts| - 1];
      var init := ListToilets(ts[..|ts| - 1], lat, lng, radiusKm, dist);
      assert ts == ts[..|ts| - 1] + [last];
      if Within(dist, lat, lng, radiusKm, last) then init + [last] else init
  }

  /**
   `GET /toilets/{id}`: the first restroom whose id matches, or a 404 when
   there is none.
   */
  function GetToilet(s: Store, toiletId: int): (r: Result<Toilet, HttpError>)
    ensures r.Success? <==> HasId(s.toilets, toiletId)
    ensures r.Success? ==> exists i :: FirstWithId(s.toilets, toiletId, i) && s.toilets[i] == r.value
    ensures r.Failure? ==> r.error == NotFound
  {
    match FindIndex(s.toilets, toiletId)
    case None => Failure(NotFound)
    case Some(i) => Success(s.toilets[i])
  }

  /**
   `POST /toilets/{id}/ratings`. A score outside 1..5 is refused with a 400
   before the restroom is looked up; an unknown id is refused with a 404. In
   both cases the store is unchanged. Otherwise the rating is appended, the
   first restroom with that id gets its statistics recomputed, no other
   restroom changes, and the updated restroom is returned.
   */
  function AddRating(s: Store, toiletId: int, rating: RatingCreate)
    : (r: Step<Result<Toilet, HttpError>>)
    ensures !ValidCleanliness(rating.cleanliness) ==> r == Step(Failure(BadCleanliness), s)
    ensures ValidCleanliness(rating.cleanliness) && !HasId(s.toilets, toiletId) ==>
              r == Step(Failure(NotFound), s)
    ensures r.value.Success? <==> ValidCleanliness(rating.cleanliness) && HasId(s.toilets, toiletId)
    ensures r.value.Success? ==>
              && r.store.ratings == s.ratings + [Rating(toiletId, rating.cleanliness)]
              && r.store.nextId == s.nextId
              && |r.store.toilets| == |s.toilets|
    ensures r.value.Success? ==>
              forall i :: FirstWithId(s.toilets, toiletId, i) ==>
                && r.value.value == r.store.toilets[i]
                && SameExceptStats(s.toilets[i], r.value.value)
                && StatsMatch(r.value.value, r.store.ratings)
                && forall j :: 0 <= j < |s.toilets| && j != i ==> r.store.toilets[j] == s.toilets[j]
  {
    if !ValidCleanliness(rating.cleanliness) then
      Step(Failure(BadCleanliness), s)
    else
      match FindIndex(s.toilets, toiletId)
      case None => Step(Failure(NotFound), s)
      case Some(i) =>
        var appended := s.(ratings := s.ratings + [Rating(toiletId, rating.cleanliness)]);
        var updated := RecomputeRatingStats(appended, toiletId);
        Step(Success(updated.toilets[i]), updated)
  }

  /** The requests the backend serves on its store. */
  datatype Request =
    | CreateToiletRequest(body: ToiletCreate)
    | ListToiletsRequest(lat: real, lng: real, radiusKm: Option<real>)
    | GetToiletRequest(toiletId: int)
    | AddRatingRequest(toiletId: int, rating: RatingCreate)

  /** What the backend answers: one restroom, a list of them, or an HTTP error. */
  datatype Response =
    | OneToilet(toilet: Toilet)
    | ToiletList(toilets: seq<Toilet>)
    | Error(error: HttpError)

  function FromResult(r: Result<Toilet, HttpError>): Response {
    match r
    case Success(t) => OneToilet(t)
    case Failure(e) => Error(e)
  }

  /**
   Serves one request by the operation its route names, answering with that
   operation's result and store. Only creation and rating change the store,
   and only creation moves the id counter; listing and lookup leave the store
   as it was, and a list query without a radius uses the default one.
   */
  function Handle(s: Store, req: Request, dist: Distance): (r: Step<Response>)
    ensures req.CreateToiletRequest? ==> r.store.nextId == s.nextId + 1
    ensures !req.CreateToiletRequest? ==> r.store.nextId == s.nextId
    ensures req.ListToiletsRequest? || req.GetToiletRequest? ==> r.store == s
    ensures req.ListToiletsRequest? && req.radiusKm.None? ==>
              r.value == ToiletList(ListToilets(s.toilets, req.lat, req.lng, DefaultRadiusKm, dist))
    ensures req.ListToiletsRequest? && req.radiusKm.Some? ==>
              r.value == ToiletList(ListToilets(s.toilets, req.lat, req.lng, req.radiusKm.value, dist))
    ensures req.CreateToiletRequest? ==>
              && r.value == OneToilet(CreateToilet(s, req.body).value)
              && r.store == CreateToilet(s, req.body).store
    ensures req.GetToiletRequest? ==> r.value == FromResult(GetToilet(s, req.toiletId))
    ensures req.AddRatingRequest? ==>
              && r.value == FromResult(AddRating(s, req.toiletId, req.rating).value)
              && r.store == AddRating(s, req.toiletId, req.rating).store
  {
    match req
    case CreateToiletRequest(body) =>
      var step := CreateToilet(s, body);
      Step(OneToilet(step.value), step.store)
    case ListToiletsRequest(lat, lng, radiusKm) =>
      Step(ToiletList(ListToilets(s.toilets, lat, lng, radiusKm.GetOr(DefaultRadiusKm), dist)), s)
    case GetToiletRequest(toiletId) =>
      Step(FromResult(GetToilet(s, toiletId)), s)
    case AddRatingRequest(toiletId, rating) =>
      var step := AddRating(s, toiletId, rating);
      Step(FromResult(step.value), step.store)
  }

  /** The store after serving `reqs` in order, starting from `s`. */
  function Run(s: Store, reqs: seq<Request>, dist: Distance): Store
    decreases |reqs|
  {
    if |reqs| == 0 then s else Run(Handle(s, reqs[0], dist).store, reqs[1..], dist)
  }
}
