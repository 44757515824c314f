/**
 The records exchanged with the Porta-Spotty backend: the body of a new
 restroom, the stored restroom, a rating request and a stored rating, and the
 HTTP errors the endpoints raise.

 Coordinates are exact `real`s: the backend never computes with them except
 inside the distance function, which the model takes as a parameter.
 */
module Models {
  import opened Wrappers

  /** The optional amenity flags of a restroom; `None` means "not reported". */
  datatype Amenities = Amenities(
    wheelchair: Option<bool>,
    runningWater: Option<bool>,
    indoor: Option<bool>,
    openInWinter: Option<bool>,
    genderNeutral: Option<bool>,
    babyChange: Option<bool>,
    menstrualProducts: Option<bool>)

  /** Every amenity flag left unreported, the default of each field. */
  const Unreported: Amenities := Amenities(None, None, None, None, None, None, None)

  /** Whether a restroom is free when the submitter does not say. */
  const DefaultIsFree: bool := true

  /** The request body of `POST /toilets`, after defaults are filled in. */
  datatype ToiletCreate = ToiletCreate(
    name: string,
    latitude: real,
    longitude: real,
    isFree: bool,
    amenities: Amenities)

  /**
   Builds a request body from the fields as submitted, where `isFree` may be
   omitted. An omitted `isFree` means free; a given one is kept.
   */
  function NewToiletCreate(name: string, latitude: real, longitude: real,
                           isFree: Option<bool>, amenities: Amenities): (c: ToiletCreate)
    ensures c.name == name && c.latitude == latitude && c.longitude == longitude
    ensures c.amenities == amenities
    ensures isFree.None? ==> c.isFree
    ensures isFree.Some? ==> c.isFree == isFree.value
  {
    ToiletCreate(name, latitude, longitude, isFree.GetOr(DefaultIsFree), amenities)
  }

  /**
   A stored restroom. `avgCleanliness` is the mean of its ratings (absent while
   it has none) and `ratingCount` is how many there are.
   */
  datatype Toilet = Toilet(
    id: int,
    name: string,
    latitude: real,
    longitude: real,
    isFree: bool,
    amenities: Amenities,
    avgCleanliness: Option<real>,
    ratingCount: int)

  /** The request body of `POST /toilets/{id}/ratings` (the free-text comment is not modelled). */
  datatype RatingCreate = RatingCreate(cleanliness: int)

  /** A stored rating: the restroom it is for and its cleanliness score. */
  datatype Rating = Rating(toiletId: int, cleanliness: int)

  /** The lowest and highest cleanliness score a rating may carry. */
  const MinCleanliness: int := 1
  const MaxCleanliness: int := 5

  predicate ValidCleanliness(score: int) {
    MinCleanliness <= score <= MaxCleanliness
  }

  /** An HTTP error raised by an endpoint: its status code and detail text. */
  datatype HttpError = HttpError(status: int, detail: string)

  /** The 404 raised when no restroom has the requested id. */
  const NotFound: HttpError := HttpError(404, "Restroom not found")

  /** The 400 raised when a cleanliness score is out of range. */
  const BadCleanliness: HttpError := HttpError(400, "cleanliness must be 1–5")
}
