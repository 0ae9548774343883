/** The users table of the CRUD service: the row shape, the request payloads,
    the storage constraints, and the pure rules the handlers follow
    (visibility, filter matching, partial-update merge, soft delete). */
module Users {
  import opened Wrappers

  /** Declared lengths of the bounded columns: gender is String(1), username String(128). */
  const GenderMaxLength := 1
  const UsernameMaxLength := 128

  /** One stored row of the users table. The timestamps are not modelled. */
  datatype UserRow = UserRow(
    id: int,
    name: string,
    gender: Option<string>,
    email: Option<string>,
    username: Option<string>,
    trackId: Option<int>,
    stage: int,
    isDeleted: bool)

  /** The create payload: name is required, the rest may be None. */
  datatype UserCreate = UserCreate(
    name: string,
    gender: Option<string>,
    email: Option<string>,
    username: Option<string>,
    trackId: Option<int>)

  /** The update payload: every field may be None, meaning "leave unchanged". */
  datatype UserUpdate = UserUpdate(
    name: Option<string>,
    gender: Option<string>,
    email: Option<string>,
    username: Option<string>,
    trackId: Option<int>)

  /** The list filter: every field may be None, meaning "no constraint". */
  datatype UserFilter = UserFilter(
    name: Option<string>,
    stage: Option<int>,
    gender: Option<string>,
    email: Option<string>,
    username: Option<string>,
    trackId: Option<int>)

  /** Errors a handler can signal: a 404 for a missing or hidden row, and the
      storage failures of a rejected write (over-long value, duplicate unique
      value, dangling track reference). */
  datatype Error = NotFound | ValueTooLong | Conflict | UnknownTrack

  /** One SQL condition of the list query; string and integer equalities on a
      stored NULL never hold, as in SQL. */
  datatype Condition =
    | NameIs(name: string)
    | StageIs(stage: int)
    | GenderIs(gender: string)
    | EmailIs(email: string)
    | UsernameIs(username: string)
    | TrackIs(trackId: int)
    | NotDeleted

  type Rows = map<int, UserRow>

  // ---------------------------------------------------------------- visibility

  /** get, update and list treat a soft-deleted row as absent. */
  predicate Visible(row: UserRow) {
    !row.isDeleted
  }

  /** The single-row lookup shared by get and update: a missing id and a
      soft-deleted row both come back as NotFound. */
  function Lookup(rows: Rows, id: int): (r: Result<UserRow, Error>)
    ensures r.Ok? <==> id in rows && Visible(rows[id])
    ensures r.Ok? ==> r.value == rows[id]
    ensures r.Err? ==> r.error == NotFound
  {
    if id !in rows || rows[id].isDeleted then Err(NotFound) else Ok(rows[id])
  }

  // ---------------------------------------------------------------- filtering

  /** Python truthiness of an optional string: None and "" are both false. */
  predicate Truthy(s: Option<string>) {
    s.Some? && s.value != ""
  }

  /** Reference meaning of a filter, field by field: string fields constrain
      only when truthy, stage and track whenever they are given. */
  predicate MatchesFilter(row: UserRow, filter: Option<UserFilter>) {
    match filter
    case None => true
    case Some(f) =>
      && (Truthy(f.name) ==> row.name == f.name.value)
      && (f.stage.Some? ==> row.stage == f.stage.value)
      && (Truthy(f.gender) ==> row.gender == f.gender)
      && (Truthy(f.email) ==> row.email == f.email)
      && (Truthy(f.username) ==> row.username == f.username)
      && (f.trackId.Some? ==> row.trackId == f.trackId)
  }

  /** The SQL meaning of one condition. An equality on a nullable column
      never holds where the column is NULL. */
  predicate Holds(c: Condition, row: UserRow)
    ensures c.GenderIs? && row.gender.None? ==> !Holds(c, row)
    ensures c.EmailIs? && row.email.None? ==> !Holds(c, row)
    ensures c.UsernameIs? && row.username.None? ==> !Holds(c, row)
    ensures c.TrackIs? && row.trackId.None? ==> !Holds(c, row)
    ensures c == NotDeleted ==> (Holds(c, row) <==> Visible(row))
  {
    match c
    case NameIs(n) => row.name == n
    case StageIs(s) => row.stage == s
    case GenderIs(g) => row.gender == Some(g)
    case EmailIs(e) => row.email == Some(e)
    case UsernameIs(u) => row.username == Some(u)
    case TrackIs(t) => row.trackId == Some(t)
    case NotDeleted => !row.isDeleted
  }

  /** The query's filter(*conditions): a row is selected when every condition
      holds; no condition selects every row, and a list holding the
      not-deleted condition never selects a deleted row. */
  predicate SatisfiesAll(row: UserRow, conditions: seq<Condition>)
    ensures conditions == [] ==> SatisfiesAll(row, conditions)
    ensures NotDeleted in conditions && SatisfiesAll(row, conditions) ==> Visible(row)
  {
    forall c :: c in conditions ==> Holds(c, row)
  }

  // ---------------------------------------------------------------- create

  /** The row an insert stores: the payload's fields, the server id, and the
      column defaults stage = 0 and is_deleted = false. */
  function Inserted(id: int, user: UserCreate): (r: UserRow)
    ensures r.id == id && r.stage == 0 && !r.isDeleted
  {
    UserRow(id, user.name, user.gender, user.email, user.username, user.trackId, 0, false)
  }

  /** The payload fields of a row, as a create request would carry them. */
  function PayloadOf(row: UserRow): UserCreate {
    UserCreate(row.name, row.gender, row.email, row.username, row.trackId)
  }

  // ---------------------------------------------------------------- update

  function Pick<T>(given: Option<T>, stored: T): T {
    if given.Some? then given.value else stored
  }

  function PickOptional<T>(given: Option<T>, stored: Option<T>): Option<T> {
    if given.Some? then given else stored
  }

  /** Partial-update merge: a payload field that is not None overwrites the
      stored value; id, stage and is_deleted are never written. */
  function Merge(row: UserRow, update: UserUpdate): (r: UserRow)
    ensures r.id == row.id && r.stage == row.stage && r.isDeleted == row.isDeleted
  {
    row.(name := Pick(update.name, row.name),
         gender := PickOptional(update.gender, row.gender),
         email := PickOptional(update.email, row.email),
         username := PickOptional(update.username, row.username),
         trackId := PickOptional(update.trackId, row.trackId))
  }

  // ---------------------------------------------------------------- delete

  /** Soft delete of id: that row gets is_deleted = true, nothing else changes;
      an absent id leaves the table as it is. */
  function SoftDelete(rows: Rows, id: int): (r: Rows)
    ensures r.Keys == rows.Keys
    ensures forall k :: k in rows && k != id ==> r[k] == rows[k]
    ensures id in rows ==> r[id] == rows[id].(isDeleted := true)
  {
    if id in rows then rows[id := rows[id].(isDeleted := true)] else rows
  }

  // ---------------------------------------------------------------- storage constraints

  predicate WithinLimits(row: UserRow) {
    && (row.gender.Some? ==> |row.gender.value| <= GenderMaxLength)
    && (row.username.Some? ==> |row.username.value| <= UsernameMaxLength)
  }

  predicate AllSpaces(s: string) {
    forall i :: 0 <= i < |s| ==> s[i] == ' '
  }

  /** Storing `s` in a varchar(n) column: a value that fits is kept, a longer
      value whose excess characters are all spaces is cut to n characters,
      and any other longer value is refused. */
  function Fit(s: string, n: nat): (r: Result<string, Error>)
    ensures |s| <= n ==> r == Ok(s)
    ensures r.Ok? ==> |r.value| <= n && r.value == s[..|r.value|] && AllSpaces(s[|r.value|..])
    ensures r.Err? <==> |s| > n && !AllSpaces(s[n..])
    ensures |s| > n && r.Ok? ==> r.value == s[..n]
    ensures r.Err? ==> r.error == ValueTooLong
  {
    if |s| <= n then Ok(s)
    else if AllSpaces(s[n..]) then Ok(s[..n])
    else Err(ValueTooLong)
  }

  /** Fit lifted to a nullable column: NULL is stored as NULL. */
  function FitColumn(value: Option<string>, n: nat): (r: Result<Option<string>, Error>)
    ensures r.Ok? ==> (r.value.Some? <==> value.Some?)
    ensures value.None? ==> r == Ok(None)
    ensures value.Some? ==> (r.Ok? <==> Fit(value.value, n).Ok?)
    ensures value.Some? && r.Ok? ==> r.value == Some(Fit(value.value, n).value)
  {
    match value
    case None => Ok(None)
    case Some(s) =>
      match Fit(s, n)
      case Ok(t) => Ok(Some(t))
      case Err(e) => Err(e)
  }

  /** The row as the storage casts it to the column types before writing:
      only gender and username are bounded, so only they can be cut or refused. */
  function Coerce(row: UserRow): (r: Result<UserRow, Error>)
    ensures r.Ok? ==> WithinLimits(r.value)
    ensures r.Ok? ==> r.value.(gender := row.gender, username := row.username) == row
    ensures WithinLimits(row) ==> r == Ok(row)
    ensures r.Err? ==> r.error == ValueTooLong
    ensures r.Ok? <==> FitColumn(row.gender, GenderMaxLength).Ok? && FitColumn(row.username, UsernameMaxLength).Ok?
    ensures r.Ok? ==> && r.value.gender == FitColumn(row.gender, GenderMaxLength).value
                      && r.value.username == FitColumn(row.username, UsernameMaxLength).value
  {
    var gender := FitColumn(row.gender, GenderMaxLength);
    var username := FitColumn(row.username, UsernameMaxLength);
    if gender.Err? || username.Err? then Err(ValueTooLong)
    else Ok(row.(gender := gender.value, username := username.value))
  }

  /** The foreign key: a non-null track reference names an existing track. */
  predicate TrackKnown(row: UserRow, tracks: set<int>) {
    row.trackId.Some? ==> row.trackId.value in tracks
  }

  /** Some row other than `except` already holds the non-null email `e`. */
  predicate EmailTaken(rows: Rows, except: int, e: Option<string>) {
    e.Some? && exists k :: k in rows && k != except && rows[k].email == e
  }

  /** Some row other than `except` already holds the non-null username `u`. */
  predicate UsernameTaken(rows: Rows, except: int, u: Option<string>) {
    u.Some? && exists k :: k in rows && k != except && rows[k].username == u
  }

  ghost predicate UniqueEmails(rows: Rows) {
    forall a, b :: a in rows && b in rows && a != b && rows[a].email.Some? ==> rows[a].email != rows[b].email
  }

  ghost predicate UniqueUsernames(rows: Rows) {
    forall a, b :: a in rows && b in rows && a != b && rows[a].username.Some? ==> rows[a].username != rows[b].username
  }

  /** What the storage guarantees of the table: every row is keyed by its
      own id, below the next id to hand out, obeys the column limits and the
      foreign key, and non-null emails and usernames are unique over all
      rows, deleted ones included. */
  ghost predicate TableInvariant(rows: Rows, nextId: int, tracks: set<int>) {
    && nextId >= 1
    && (forall k :: k in rows ==> 1 <= k < nextId && rows[k].id == k)
    && (forall k :: k in rows ==> WithinLimits(rows[k]) && TrackKnown(rows[k], tracks))
    && UniqueEmails(rows)
    && UniqueUsernames(rows)
  }

  /** The constraint error raised on writing the already cast row `stored`
      under key `id`, if any: the unique indexes are checked first, then the
      foreign key. */
  function Rejection(rows: Rows, tracks: set<int>, id: int, stored: UserRow): (r: Option<Error>)
    ensures r.None? <==>
      TrackKnown(stored, tracks) && !EmailTaken(rows, id, stored.email) && !UsernameTaken(rows, id, stored.username)
    ensures r.Some? ==> r.value == Conflict || r.value == UnknownTrack
    ensures r == Some(Conflict) <==> EmailTaken(rows, id, stored.email) || UsernameTaken(rows, id, stored.username)
  {
    if EmailTaken(rows, id, stored.email) || UsernameTaken(rows, id, stored.username) then Some(Conflict)
    else if !TrackKnown(stored, tracks) then Some(UnknownTrack)
    else None
  }

  /** What committing `candidate` under key `id` does: cast it to the column
      types, then check the constraints; on success the cast row is stored
      and returned. */
  function Commit(rows: Rows, tracks: set<int>, id: int, candidate: UserRow): (r: Result<UserRow, Error>)
    ensures r.Ok? <==> Coerce(candidate).Ok? && Rejection(rows, tracks, id, Coerce(candidate).value).None?
    ensures r.Ok? ==> r.value == Coerce(candidate).value
    ensures Coerce(candidate).Err? ==> r == Err(ValueTooLong)
    ensures r.Err? ==> r.error != NotFound
  {
    match Coerce(candidate)
    case Err(e) => Err(e)
    case Ok(stored) =>
      match Rejection(rows, tracks, id, stored)
      case Some(e) => Err(e)
      case None => Ok(stored)
  }
}
