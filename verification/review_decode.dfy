/**
  Decoding one entry of a Reviews document into a review record
  (src/components/Video_Section/Reviews.tsx, the per-key callback of the
  snapshot listener).

  A Reviews document is a map from review key to a Firestore map value. The
  component reads it through Firestore's wire representation: each field is
  an object carrying `timestampValue`, `stringValue` or `booleanValue`, and
  destructuring a property the object does not carry yields `undefined`.
 */
module ReviewDecode {
  import opened Wrappers
  import opened Promises

  /** The JavaScript values a destructured scalar property can hold. */
  datatype JsVal = Undefined | Null | Str(s: string) | Bool(b: bool)

  /** A Firestore field value, seen through the three properties the component reads. */
  datatype FieldValue = FieldValue(timestampValue: JsVal, stringValue: JsVal, booleanValue: JsVal)

  type FieldMap = map<string, FieldValue>

  /**
    One key of the document with its value's field map; `None` when the value
    carries no field map (it is not a map value, or an empty one).
   */
  datatype RawEntry = RawEntry(key: string, fields: Option<FieldMap>)

  /** The item a storage listing returns, named by its full path. */
  datatype StorageRef = StorageRef(fullPath: string)

  /**
    Cloud Storage, as two lookups that either resolve or reject:
    `listAll` lists the items under a folder path and `downloadUrl`
    resolves an item to its download URL.
   */
  datatype Storage = Storage(
    listAll: string -> Settled<seq<StorageRef>>,
    downloadUrl: StorageRef -> Settled<string>)

  /** Milliseconds since the epoch: what a JavaScript `Date` holds. */
  type Instant = int

  /** A review as the component keeps it in `reviewData`. */
  datatype Review = Review(
    userId: JsVal,
    reviewId: string,
    username: JsVal,
    review: JsVal,
    createdAt: Option<Instant>,
    url: Option<string>,
    isEdited: JsVal)

  /** The field names the component destructures from every entry. */
  const ReviewFields: set<string> := {"createdAt", "id", "review", "username", "isEdited"}

  /**
    Destructuring `{ createdAt: {...}, id: {...}, ... }` succeeds exactly when
    the entry has a field map holding all five fields; otherwise it throws a
    TypeError, outside the `try`.
   */
  predicate Destructurable(e: RawEntry): (ok: bool)
    ensures ok <==> e.fields.Some? && "createdAt" in e.fields.value && "id" in e.fields.value
                    && "review" in e.fields.value && "username" in e.fields.value
                    && "isEdited" in e.fields.value
    ensures !ok ==> e.fields.None? || exists name :: name in ReviewFields && name !in e.fields.value
  {
    e.fields.Some? && ReviewFields <= e.fields.value.Keys
  }

  /** The `id` field's `stringValue`: the author's user id. */
  function UserIdOf(e: RawEntry): JsVal
    requires Destructurable(e)
  {
    e.fields.value["id"].stringValue
  }

  /** JavaScript template-literal conversion of a scalar to text. */
  function ToText(v: JsVal): string {
    match v
    case Undefined => "undefined"
    case Null => "null"
    case Str(s) => s
    case Bool(b) => if b then "true" else "false"
  }

  /** The storage folder `${userId}/profileImage/` that holds a user's avatar. */
  function ProfileImageFolder(userId: JsVal): string {
    ToText(userId) + "/profileImage/"
  }

  /**
    The avatar lookup inside the `try`: list the folder, and when it has an
    item resolve the first one to its URL; `null` when the folder is empty.
    Either call rejecting makes the whole lookup reject.
   */
  function AvatarUrl(userId: JsVal, storage: Storage): (r: Settled<Option<string>>)
    ensures r == Resolved(None) <==> storage.listAll(ProfileImageFolder(userId)) == Resolved([])
    ensures forall u ::
              r == Resolved(Some(u)) <==>
                var listing := storage.listAll(ProfileImageFolder(userId));
                listing.Resolved? && |listing.value| > 0
                && storage.downloadUrl(listing.value[0]) == Resolved(u)
  {
    match storage.listAll(ProfileImageFolder(userId))
    case Rejected => Rejected
    case Resolved(items) =>
      if |items| == 0 then Resolved(None)
      else
        match storage.downloadUrl(items[0])
        case Rejected => Rejected
        case Resolved(u) => Resolved(Some(u))
  }

  /**
    The async callback for one key. It rejects when destructuring throws;
    it resolves with `null` when the avatar lookup throws (the `catch`);
    otherwise it resolves with the record. A raw timestamp that is `null`
    gives a `null` creation time; any other raw value, `undefined` included,
    is handed to the time-zone conversion `parse`.
   */
  function DecodeEntry(e: RawEntry, storage: Storage, parse: JsVal -> Instant): (r: Settled<Option<Review>>)
    ensures r.Rejected? <==> !Destructurable(e)
    ensures r == Resolved(None) <==>
              Destructurable(e) && AvatarUrl(UserIdOf(e), storage).Rejected?
    ensures forall x: Review :: r == Resolved(Some(x)) ==>
              var f := e.fields.value;
              && x.reviewId == e.key
              && x.userId == f["id"].stringValue
              && x.username == f["username"].stringValue
              && x.review == f["review"].stringValue
              && x.isEdited == f["isEdited"].booleanValue
              && (x.createdAt == None <==> f["createdAt"].timestampValue == Null)
              && (f["createdAt"].timestampValue != Null ==>
                    x.createdAt == Some(parse(f["createdAt"].timestampValue)))
              && AvatarUrl(x.userId, storage) == Resolved(x.url)
  {
    if !Destructurable(e) then Rejected
    else
      var f := e.fields.value;
      var userId := f["id"].stringValue;
      var raw := f["createdAt"].timestampValue;
      match AvatarUrl(userId, storage)
      case Rejected => Resolved(None)
      case Resolved(url) =>
        Resolved(Some(Review(
          userId,
          e.key,
          f["username"].stringValue,
          f["review"].stringValue,
          if raw != Null then Some(parse(raw)) else None,
          url,
          f["isEdited"].booleanValue)))
  }
}
