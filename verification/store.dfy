/**
 The in-memory state of the backend: the restroom list, the rating list and
 the id counter, held together as one immutable `Store` value, with the
 invariant every reachable store satisfies.
 */
module FacilityStore {
  import opened Wrappers
  import opened Models

  /** The backend's three globals: `toilets_db`, `ratings_db` and `next_toilet_id`. */
  datatype Store = Store(toilets: seq<Toilet>, ratings: seq<Rating>, nextId: int)

  /** The store when the backend starts: no restrooms, no ratings, ids start at 1. */
  const Empty: Store := Store([], [], 1)

  /** What an operation returns, together with the store it leaves behind. */
  datatype Step<+T> = Step(value: T, store: Store)

  /** The cleanliness scores stored for `toiletId`, in storage order. */
  function Scores(ratings: seq<Rating>, toiletId: int): seq<int>
    decreases |ratings|
  {
    if |ratings| == 0 then []
    else
      var last := ratings[|ratings| - 1];
      Scores(ratings[..|ratings| - 1], toiletId)
        + (if last.toiletId == toiletId then [last.cleanliness] else [])
  }

  function Sum(xs: seq<int>): int
    decreases |xs|
  {
    if |xs| == 0 then 0 else Sum(xs[..|xs| - 1]) + xs[|xs| - 1]
  }

  /**
   The mean of `scores`, absent when there are none. The mean is exact: it is
   the one number that, times the count, gives the sum.
   */
  function Average(scores: seq<int>): (avg: Option<real>)
    ensures avg.None? <==> |scores| == 0
    ensures avg.Some? ==> avg.value * (|scores| as real) == Sum(scores) as real
  {
    if |scores| == 0 then None else Some(Sum(scores) as real / |scores| as real)
  }

  /** `i` is the position of the first restroom in `ts` whose id is `toiletId`. */
  predicate FirstWithId(ts: seq<Toilet>, toiletId: int, i: int) {
    && 0 <= i < |ts|
    && ts[i].id == toiletId
    && forall j :: 0 <= j < i ==> ts[j].id != toiletId
  }

  /** True when some restroom in `ts` has id `toiletId`. */
  predicate HasId(ts: seq<Toilet>, toiletId: int) {
    exists i :: 0 <= i < |ts| && ts[i].id == toiletId
  }

  /**
   The first-match search both endpoints use: the position of the first
   restroom with id `toiletId`, or nothing when no restroom has it.
   */
  function FindIndex(ts: seq<Toilet>, toiletId: int): (r: Option<nat>)
    ensures r.Some? ==> FirstWithId(ts, toiletId, r.value)
    ensures r.None? <==> !HasId(ts, toiletId)
    decreases |ts|
  {
    if |ts| == 0 then None
    else if ts[0].id == toiletId then Some(0)
    else
      match FindIndex(ts[1..], toiletId)
      case None => None
      case Some(i) => Some(i + 1)
  }

  /** The stored count and average of `t` agree with the ratings stored for it. */
  ghost predicate StatsMatch(t: Toilet, ratings: seq<Rating>) {
    var scores := Scores(ratings, t.id);
    t.ratingCount == |scores| && t.avgCleanliness == Average(scores)
  }

  /** `b` is `a` with at most its rating statistics changed. */
  predicate SameExceptStats(a: Toilet, b: Toilet) {
    a.(avgCleanliness := b.avgCleanliness, ratingCount := b.ratingCount) == b
  }

  /**
   The invariant of every store the backend can reach from `Empty`:
   - the restrooms carry ids 1, 2, ..., in list order, and the counter is the
     next unused id;
   - every rating is for an existing restroom and has a score in 1..5;
   - every restroom's count and average agree with its stored ratings.
   */
  ghost predicate Valid(s: Store) {
    && s.nextId == |s.toilets| + 1
    && (forall i :: 0 <= i < |s.toilets| ==> s.toilets[i].id == i + 1)
    && (forall k :: 0 <= k < |s.ratings| ==>
          1 <= s.ratings[k].toiletId < s.nextId && ValidCleanliness(s.ratings[k].cleanliness))
    && (forall i :: 0 <= i < |s.toilets| ==> StatsMatch(s.toilets[i], s.ratings))
  }
}
