/** The five handlers of the service, working against one users table held
    in memory: the map stands for the database table, the counter for its
    id sequence, and the track set for the rows of the tracks table. */
module UserApi {
  import opened Wrappers
  import opened Users
  import UserLaws

  /** Builds the list query's conditions by appending, as the list handler
      does: one equality per given filter field (string fields only when
      truthy), then the not-deleted condition, unconditionally. */
  method FilterConditions(filter: Option<UserFilter>) returns (conditions: seq<Condition>)
    ensures |conditions| > 0 && conditions[|conditions| - 1] == NotDeleted
    ensures forall row :: SatisfiesAll(row, conditions) <==> Visible(row) && MatchesFilter(row, filter)
  {
    conditions := [];
    if filter.Some? {
      var f := filter.value;
      // `seen` is the part of the filter handled so far; the conditions
      // appended up to here select exactly the rows matching it.
      ghost var seen := UserFilter(None, None, None, None, None, None);
      if Truthy(f.name) {
        UserLaws.SatisfiesAllAppend(conditions, NameIs(f.name.value));
        conditions := conditions + [NameIs(f.name.value)];
      }
      seen := seen.(name := f.name);
      assert forall row :: SatisfiesAll(row, conditions) <==> MatchesFilter(row, Some(seen));
      if f.stage.Some? {
        UserLaws.SatisfiesAllAppend(conditions, StageIs(f.stage.value));
        conditions := conditions + [StageIs(f.stage.value)];
      }
      seen := seen.(stage := f.stage);
      assert forall row :: SatisfiesAll(row, conditions) <==> MatchesFilter(row, Some(seen));
      if Truthy(f.gender) {
        UserLaws.SatisfiesAllAppend(conditions, GenderIs(f.gender.value));
        conditions := conditions + [GenderIs(f.gender.value)];
      }
      seen := seen.(gender := f.gender);
      assert forall row :: SatisfiesAll(row, conditions) <==> MatchesFilter(row, Some(seen));
      if Truthy(f.email) {
        UserLaws.SatisfiesAllAppend(conditions, EmailIs(f.email.value));
        conditions := conditions + [EmailIs(f.email.value)];
      }
      seen := seen.(email := f.email);
      assert forall row :: SatisfiesAll(row, conditions) <==> MatchesFilter(row, Some(seen));
      if Truthy(f.username) {
        UserLaws.SatisfiesAllAppend(conditions, UsernameIs(f.username.value));
        conditions := conditions + [UsernameIs(f.username.value)];
      }
      seen := seen.(username := f.username);
      assert forall row :: SatisfiesAll(row, conditions) <==> MatchesFilter(row, Some(seen));
      if f.trackId.Some? {
        UserLaws.SatisfiesAllAppend(conditions, TrackIs(f.trackId.value));
        conditions := conditions + [TrackIs(f.trackId.value)];
      }
      seen := seen.(trackId := f.trackId);
      assert seen == f;
    }
    assert forall row :: SatisfiesAll(row, conditions) <==> MatchesFilter(row, filter);
    UserLaws.SatisfiesAllAppend(conditions, NotDeleted);
    conditions := conditions + [NotDeleted];
  }

  class UserTable {
    /** The stored rows, keyed by id. */
    var rows: Rows
    /** The next value of the id sequence. */
    var nextId: int
    /** The ids of the existing tracks (the tracks table is never written here). */
    const tracks: set<int>

    ghost predicate Valid()
      reads this
    {
      TableInvariant(rows, nextId, tracks)
    }

    constructor (tracks: set<int>)
      ensures Valid()
      ensures rows == map[] && nextId == 1 && this.tracks == tracks
    {
      rows := map[];
      nextId := 1;
      this.tracks := tracks;
    }

    /** POST /api/: insert a row with a fresh id and the column defaults. A
        failed commit stores nothing. */
    method CreateUser(user: UserCreate) returns (res: Result<UserRow, Error>)
      requires Valid()
      modifies this
      ensures Valid()
      ensures res == Commit(old(rows), tracks, old(nextId), Inserted(old(nextId), user))
      ensures res.Err? ==> rows == old(rows) && nextId == old(nextId)
      ensures res.Ok? ==>
                && old(nextId) !in old(rows)
                && rows == old(rows)[old(nextId) := res.value]
                && nextId == old(nextId) + 1
      ensures res.Ok? ==> res.value.id !in old(rows) && rows.Keys == old(rows).Keys + {res.value.id}
      ensures res.Ok? ==> res.value.stage == 0 && !res.value.isDeleted
      ensures res.Ok? && WithinLimits(Inserted(old(nextId), user)) ==> PayloadOf(res.value) == user
      ensures forall k :: k in old(rows) ==> k in rows && rows[k] == old(rows)[k]
      ensures var cast := Coerce(Inserted(old(nextId), user));
              cast.Ok? && (exists k :: k in old(rows) &&
                             ((cast.value.email.Some? && old(rows)[k].email == cast.value.email) ||
                              (cast.value.username.Some? && old(rows)[k].username == cast.value.username)))
              ==> res == Err(Conflict)
    {
      var id := nextId;
      UserLaws.AdvanceKeepsInvariant(rows, nextId, tracks);
      var stored := Coerce(Inserted(id, user));
      if stored.Err? {
        res := Err(stored.error);
        return;
      }
      var err := Rejection(rows, tracks, id, stored.value);
      if err.Some? {
        res := Err(err.value);
        return;
      }
      UserLaws.RejectionExact(rows, nextId + 1, tracks, id, stored.value);
      rows := rows[id := stored.value];
      nextId := nextId + 1;
      res := Ok(stored.value);
    }

    /** GET /api/: the visible rows matching every given filter field, in
        ascending id order. */
    method GetUsers(filter: Option<UserFilter>) returns (users: seq<UserRow>)
      requires Valid()
      ensures forall k :: 0 <= k < |users| ==> users[k].id in rows && rows[users[k].id] == users[k]
      ensures forall k :: 0 <= k < |users| ==> Visible(users[k]) && MatchesFilter(users[k], filter)
      ensures forall id :: id in rows && Visible(rows[id]) && MatchesFilter(rows[id], filter) ==> rows[id] in users
      ensures forall j, k :: 0 <= j < k < |users| ==> users[j].id < users[k].id
      ensures forall r :: r in users ==> r.id in rows && rows[r.id] == r && Visible(r) && MatchesFilter(r, filter)
      ensures users == [] <==> forall id :: id in rows ==> !Visible(rows[id]) || !MatchesFilter(rows[id], filter)
    {
      var conditions := FilterConditions(filter);
      users := [];
      var id := 1;
      while id < nextId
        invariant 1 <= id <= nextId
        invariant forall k :: 0 <= k < |users| ==> users[k].id in rows && rows[users[k].id] == users[k] && users[k].id < id
        invariant forall k :: 0 <= k < |users| ==> Visible(users[k]) && MatchesFilter(users[k], filter)
        invariant forall i :: i in rows && i < id && Visible(rows[i]) && MatchesFilter(rows[i], filter) ==> rows[i] in users
        invariant forall j, k :: 0 <= j < k < |users| ==> users[j].id < users[k].id
      {
        if id in rows && SatisfiesAll(rows[id], conditions) {
          users := users + [rows[id]];
        }
        id := id + 1;
      }
      assert users != [] ==> users[0] in users;
    }

    /** GET /api/{id}: the row, unless it is missing or soft-deleted. */
    method GetUser(id: int) returns (res: Result<UserRow, Error>)
      ensures res == Lookup(rows, id)
      ensures res.Ok? <==> id in rows && Visible(rows[id])
    {
      var found := if id in rows then Some(rows[id]) else None;
      if found.None? || found.value.isDeleted {
        res := Err(NotFound);
      } else {
        res := Ok(found.value);
      }
    }

    /** PUT /api/{id}: overwrite the fields the payload gives; a missing or
        soft-deleted row is NotFound, and a failed commit stores nothing. */
    method UpdateUser(id: int, update: UserUpdate) returns (res: Result<UserRow, Error>)
      requires Valid()
      modifies this
      ensures Valid() && nextId == old(nextId)
      ensures Lookup(old(rows), id).Err? ==> res == Err(NotFound) && rows == old(rows)
      ensures Lookup(old(rows), id).Ok? ==>
                && res == Commit(old(rows), tracks, id, Merge(old(rows)[id], update))
                && rows == (if res.Ok? then old(rows)[id := res.value] else old(rows))
      ensures rows.Keys == old(rows).Keys
      ensures forall k :: k in old(rows) && k != id ==> rows[k] == old(rows)[k]
    {
      var found := if id in rows then Some(rows[id]) else None;
      if found.None? || found.value.isDeleted {
        res := Err(NotFound);
        return;
      }
      var row := found.value;
      if update.name.Some? {
        row := row.(name := update.name.value);
      }
      if update.gender.Some? {
        row := row.(gender := update.gender);
      }
      if update.email.Some? {
        row := row.(email := update.email);
      }
      if update.username.Some? {
        row := row.(username := update.username);
      }
      if update.trackId.Some? {
        row := row.(trackId := update.trackId);
      }
      assert row == Merge(rows[id], update);
      var stored := Coerce(row);
      if stored.Err? {
        res := Err(stored.error);
        return;
      }
      var err := Rejection(rows, tracks, id, stored.value);
      if err.Some? {
        res := Err(err.value);
        return;
      }
      UserLaws.RejectionExact(rows, nextId, tracks, id, stored.value);
      rows := rows[id := stored.value];
      res := Ok(stored.value);
    }

    /** DELETE /api/{id}: mark the row deleted. Only a missing id is
        NotFound; a row already deleted is deleted again, successfully. */
    method DeleteUser(id: int) returns (res: Result<UserRow, Error>)
      requires Valid()
      modifies this
      ensures Valid() && nextId == old(nextId)
      ensures res.Ok? <==> id in old(rows)
      ensures res.Err? ==> res.error == NotFound
      ensures rows == SoftDelete(old(rows), id)
      ensures res.Ok? ==> res.value == rows[id] && res.value.isDeleted
    {
      var found := if id in rows then Some(rows[id]) else None;
      if found.None? {
        res := Err(NotFound);
        return;
      }
      UserLaws.SoftDeleteKeepsInvariant(rows, nextId, tracks, id);
      var row := found.value.(isDeleted := true);
      rows := rows[id := row];
      res := Ok(row);
    }
  }

  /** The request sequence of the service's smoke test against an empty
      table holding track 1 (create, get, update, delete, list all, list
      filtered by username and stage), with two extra requests after the
      delete: a get, which is NotFound, and a second delete, which succeeds. */
  method SmokeTestTrace() returns (created: Result<UserRow, Error>, everyone: seq<UserRow>, filtered: seq<UserRow>)
    ensures created.Ok? && created.value.id == 1
    ensures everyone == [] && filtered == []
  {
    var table := new UserTable({1});
    created := table.CreateUser(UserCreate("Test User", Some("M"), Some("test@example.com"), Some("testuser"), Some(1)));
    assert created.Ok? && created.value.id == 1;
    var id := created.value.id;

    var got := table.GetUser(id);
    assert got == created;

    var updated := table.UpdateUser(id, UserUpdate(Some("Updated User"), None, Some("updated@example.com"), None, None));
    assert updated.Ok?;
    assert updated.value == created.value.(name := "Updated User", email := Some("updated@example.com"));

    var deleted := table.DeleteUser(id);
    assert deleted.Ok? && deleted.value.isDeleted;

    var again := table.GetUser(id);
    assert again == Err(NotFound);
    var deletedTwice := table.DeleteUser(id);
    assert deletedTwice.Ok?;

    assert table.rows.Keys == {id} && !Visible(table.rows[id]);
    everyone := table.GetUsers(None);
    filtered := table.GetUsers(Some(UserFilter(None, Some(0), None, None, Some("testuser"), None)));
  }
}
