# Porta-Spotty backend store, modelled in Dafny

Porta-Spotty records public restrooms ("toilets") on a city map. Its backend
keeps everything in memory in three globals: the restroom list `toilets_db`,
the rating list `ratings_db` and the id counter `next_toilet_id`. It serves
four operations on them:

- create a restroom (`POST /toilets`);
- list the restrooms within a radius of a point (`GET /toilets`);
- look one up by id (`GET /toilets/{id}`);
- rate one for cleanliness (`POST /toilets/{id}/ratings`).

This project models that store as one immutable `Store` value. Each operation
is a pure function. The two that change the store return the new store beside
their answer, in a `Step`. Errors are `HttpError` values (400 or 404, with the
backend's detail text) rather than raised exceptions.

Files and modules:

- `wrappers.dfy` (`Wrappers`): `Option` and `Result`.
- `models.dfy` (`Models`): the records `ToiletCreate`, `Toilet`,
  `RatingCreate` and `Rating`, the amenity flags, and the two HTTP errors.
- `store.dfy` (`FacilityStore`): `Store`, the empty starting store, the
  first-match search, per-restroom scores and their mean, and the store
  invariant `Valid`.
- `api.dfy` (`Api`): the four operations, the statistics recomputation, and
  `Handle`, which routes a `Request` to them. `Run` serves a sequence of
  requests.
- `properties.dfy` (`StoreProperties`): lemmas relating the operations.

The invariant `Valid` is stronger than "ids are unique". Creation is the only
operation that adds restrooms, and nothing deletes them. So in every reachable
store the ids are exactly 1, 2, …, n in list order, and the counter is n + 1.
`Valid` also requires that every rating is for an existing restroom with a
score in 1..5, and that every restroom's count and average agree with its
stored ratings.

## Model

| member | source | states |
|---|---|---|
| Models.NewToiletCreate | backend/app/main.py:23-34 | an omitted `is_free` becomes true and a given one is kept; every other submitted field passes through unchanged |
| FacilityStore.FindIndex | backend/app/main.py:150-153 | the first-match search: a result is the position of the FIRST restroom with the id, and there is no result exactly when no restroom has the id |
| FacilityStore.Average | backend/app/main.py:89-94 | the mean is absent exactly when there are no scores; otherwise the mean times the count equals the sum |
| Api.RecomputeRatingStats | backend/app/main.py:83-95 | only the first restroom with the id changes, and only in its statistics, which afterwards agree with the stored ratings; with no such restroom nothing changes; ratings and counter are untouched |
| Api.CreateToilet | backend/app/main.py:105-129 | the new restroom gets the counter as its id, copies name, coordinates, `is_free` and all amenity flags, starts unrated (no average, count 0), and is appended at the end; ratings are untouched and the counter goes up by exactly 1 |
| Api.ListToilets | backend/app/main.py:132-144 | a restroom is in the answer exactly when it is in the list and within the radius (inclusive); the answer is no longer than the list |
| Api.GetToilet | backend/app/main.py:147-153 | succeeds exactly when some restroom has the id, returning the first such restroom; otherwise fails with 404 "Restroom not found" |
| Api.AddRating | backend/app/main.py:156-174 | a score outside 1..5 fails with 400 and leaves the store unchanged, even for an unknown id; a valid score for an unknown id fails with 404 and leaves the store unchanged; otherwise exactly one rating is appended, the first restroom with the id is returned with statistics agreeing with the ratings, and no other restroom changes |
| Api.Handle | backend/app/main.py:105-174 | each request is answered with its operation's result and store: creation with `CreateToilet`'s, lookup with `GetToilet`'s, rating with `AddRating`'s, listing with `ListToilets` at the given radius or 2.0 km when none is given; only creation moves the counter, by exactly one; listing and lookup leave the store unchanged |
| StoreProperties.EmptyIsValid | backend/app/main.py:61-63 | the starting store (no restrooms, no ratings, counter 1) satisfies the invariant |
| StoreProperties.ValidIds | backend/app/main.py:110-128 | in a valid store ids are ≥ 1, below the counter, strictly increasing in list order, and pairwise distinct |
| StoreProperties.CreatePreservesValid | backend/app/main.py:105-129 | creating a restroom keeps the invariant; in particular the new restroom has no ratings yet, so "unrated" agrees with the ratings |
| StoreProperties.AddRatingPreservesValid | backend/app/main.py:156-174 | rating keeps the invariant, whether it succeeds or fails |
| StoreProperties.HandlePreservesValid | backend/app/main.py:105-174 | every request keeps the invariant |
| StoreProperties.RunPreservesValid | backend/app/main.py:105-174 | every sequence of requests keeps the invariant |
| StoreProperties.ReachableIsValid | backend/app/main.py:61-63 | every store reachable from the starting store satisfies the invariant |
| StoreProperties.GetToiletInValidStore | backend/app/main.py:147-153 | in a valid store, lookup of id n succeeds exactly when 1 ≤ n < counter, returning the restroom at position n − 1; otherwise it is a 404 |
| StoreProperties.CreateWithDefaults | backend/app/main.py:23-34 | a restroom submitted with only name and coordinates is stored as free, with every amenity flag unreported, no average and count 0, and looks up by its new id |
| StoreProperties.CreateThenGet | backend/app/main.py:110-129 | looking up the id just assigned returns the created restroom; every other id looks up as it did before |
| StoreProperties.AverageInRange | backend/app/main.py:85-95 | in a valid store, every restroom with an average has at least one rating, and the average lies between 1 and 5 |
| StoreProperties.AddRatingInValidStore | backend/app/main.py:164-172 | in a valid store a rating with a score in 1..5 for an id below the counter succeeds, raises the target's count by exactly one, and its average becomes the mean of its earlier scores plus the new one |
| StoreProperties.ListToiletsIsOrderedSelection | backend/app/main.py:139-144 | the answer is the restrooms at an increasing list of positions, and those positions are exactly the ones within the radius: an order-preserving subsequence that misses and repeats nothing |
| StoreProperties.HandleAppendOnly | backend/app/main.py:127-128 | no request removes anything: restrooms keep their positions and everything except their statistics; the rating list grows only at the end, by at most one; the counter never decreases |

## Left out

- FastAPI setup, the CORS middleware and the `root` endpoint are left out. They are framework plumbing that does not touch the store.
- Pydantic validation and JSON serialisation are left out. A request is a `Request` value, and an error is an `HttpError` variant with the backend's status and detail text.
- `haversine_km` is floating-point trigonometry. It is replaced by a `Distance` function parameter, and the radius query is proved for every such function.
- Api.ListToilets: coordinates, distances and the radius are exact `real`s and the distance function is total, so the query never fails. NaN and rounding are not modelled. Nor is the failure path: `haversine_km` raises `ValueError` on an infinite coordinate (`math.sin` of an infinite angle), so once a restroom with an infinite latitude or longitude is stored (a float field accepts `Infinity`), every later list query fails with a server error.
- Api.AddRating: the average is an exact rational (`Option<real>`), so Python's float rounding in `sum(scores) / len(scores)` is not modelled.
- The free-text `comment` of a rating is left out. It is stored but never inspected.
- Requests are served one at a time. FastAPI may run these synchronous handlers on a thread pool, and `create_toilet` reads `next_toilet_id` for the new id, appends, and only then increments it with a read-modify-write `+=`. Two concurrent creates can therefore receive the same id. Id uniqueness and the invariant (`StoreProperties.ValidIds` applied after `StoreProperties.ReachableIsValid`) hold only when requests are served one at a time.
- Handlers return references to mutable Python objects. This is not modelled, because each response is serialised before the next request changes anything.
- The browser client is not part of this model: location lookup, the map, and the creation form and its state machine.
