/** The records of `src/types/models.ts` and the shape of the data store
    the request handlers read and write. */
module Models {

  /** A value that may be absent (`null`/`undefined` in the source). */
  datatype Option<+T> = None | Some(value: T) {
    /** The value, or `default` when absent (the source's `x || default`). */
    function GetOr(default: T): T {
      match this
      case Some(v) => v
      case None => default
    }
  }

  type UserId = string
  type DpeId = string

  /** An account. `password` holds the bcrypt hash, never the plain text;
      `savedDpeIds` is the user's half of the save relation. */
  datatype User = User(
    id: UserId,
    name: string,
    email: string,
    password: string,
    savedDpeIds: seq<DpeId>)

  /** A review of a DPE. The optional scalar columns are `None` when the
      stored value is null. */
  datatype Review = Review(
    id: string,
    content: string,
    overallRating: int,
    difficultyRating: Option<int>,
    wouldRecommend: Option<bool>,
    checkridePassed: Option<bool>,
    groundFirst: Option<bool>,
    checkrideType: string,
    tags: seq<string>,
    dpeId: DpeId)

  /** An examiner profile. `savedByUserIds` is the DPE's half of the save
      relation; `reviews` is the one-to-many relation as the search
      endpoint includes it. */
  datatype Dpe = Dpe(
    id: DpeId,
    firstName: string,
    lastName: string,
    city: string,
    state: string,
    region: string,
    checkrideTypes: seq<string>,
    tags: seq<string>,
    savedByUserIds: seq<UserId>,
    reviews: seq<Review>)

  /** The typed body of a DPE creation request, as the add-DPE form holds it. */
  datatype CreateDpeRequest = CreateDpeRequest(
    firstName: string,
    lastName: string,
    city: string,
    state: string,
    region: string,
    checkrideTypes: seq<string>,
    tags: seq<string>)

  /** The data store: user and DPE tables keyed by id. */
  datatype Store = Store(users: map<UserId, User>, dpes: map<DpeId, Dpe>)

  /** One request handled: the store afterwards and the response sent. */
  datatype Step<+R> = Step(store: Store, response: R)
}
