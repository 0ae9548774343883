/** Properties of the users-table rules: the storage constraints keep the
    table invariant exactly, soft delete is idempotent and hides the row,
    the merge only writes what the payload gives, and the filter gates its
    fields as the list handler does. */
module UserLaws {
  import opened Wrappers
  import opened Users

  // ---------------------------------------------------------------- storage constraints

  /** A write of `candidate` under an existing or fresh key is accepted by the
      storage exactly when the table that results still satisfies the invariant. */
  lemma RejectionExact(rows: Rows, nextId: int, tracks: set<int>, id: int, candidate: UserRow)
    requires TableInvariant(rows, nextId, tracks)
    requires 1 <= id < nextId && candidate.id == id && WithinLimits(candidate)
    ensures Rejection(rows, tracks, id, candidate).None? <==> TableInvariant(rows[id := candidate], nextId, tracks)
  {
    var after := rows[id := candidate];
    if Rejection(rows, tracks, id, candidate).None? {
      forall a, b | a in after && b in after && a != b && after[a].email.Some?
        ensures after[a].email != after[b].email
      {
        if a == id {
          assert !EmailTaken(rows, id, candidate.email);
        } else if b == id {
          assert !EmailTaken(rows, id, candidate.email);
        }
      }
      forall a, b | a in after && b in after && a != b && after[a].username.Some?
        ensures after[a].username != after[b].username
      {
        if a == id {
          assert !UsernameTaken(rows, id, candidate.username);
        } else if b == id {
          assert !UsernameTaken(rows, id, candidate.username);
        }
      }
    } else {
      assert id in after && after[id] == candidate;
      if EmailTaken(rows, id, candidate.email) {
        var k :| k in rows && k != id && rows[k].email == candidate.email;
        assert k in after && after[k] == rows[k];
        assert !UniqueEmails(after);
      } else if UsernameTaken(rows, id, candidate.username) {
        var k :| k in rows && k != id && rows[k].username == candidate.username;
        assert k in after && after[k] == rows[k];
        assert !UniqueUsernames(after);
      }
    }
  }

  /** A commit succeeds exactly when the row, cast to the column types, can
      be cast and leaves a table that still satisfies the invariant. */
  lemma CommitExact(rows: Rows, nextId: int, tracks: set<int>, id: int, candidate: UserRow)
    requires TableInvariant(rows, nextId, tracks)
    requires 1 <= id < nextId && candidate.id == id
    ensures Commit(rows, tracks, id, candidate).Ok? <==>
      Coerce(candidate).Ok? && TableInvariant(rows[id := Coerce(candidate).value], nextId, tracks)
  {
    if Coerce(candidate).Ok? {
      RejectionExact(rows, nextId, tracks, id, Coerce(candidate).value);
    } else {
      var after := rows[id := candidate];
      assert id in after && !WithinLimits(after[id]);
    }
  }

  /** Trailing spaces beyond a column's length are cut, not refused: a
      gender of "M " is stored as "M", while "MX" is refused. */
  lemma TrailingSpacesAreCut(rows: Rows, tracks: set<int>, id: int)
    requires id !in rows
    ensures Commit(rows, tracks, id, Inserted(id, UserCreate("A", Some("M "), None, None, None)))
            == Ok(Inserted(id, UserCreate("A", Some("M"), None, None, None)))
    ensures Commit(rows, tracks, id, Inserted(id, UserCreate("A", Some("MX"), None, None, None)))
            == Err(ValueTooLong)
  {
    assert AllSpaces("M "[1..]);
    assert "MX"[1..][0] == 'X';
    assert "M "[..1] == "M";
  }

  /** Handing out the next id keeps the invariant: the counter only grows. */
  lemma AdvanceKeepsInvariant(rows: Rows, nextId: int, tracks: set<int>)
    requires TableInvariant(rows, nextId, tracks)
    ensures nextId !in rows
    ensures TableInvariant(rows, nextId + 1, tracks)
  {
  }

  /** Creating twice with the same email: once the first row is stored, the
      second commit is refused with Conflict, whatever the tracks, even after
      the first row has been soft-deleted. */
  lemma DuplicateEmailConflicts(rows: Rows, tracks: set<int>, id: int, first: UserCreate, secondId: int, second: UserCreate)
    requires secondId != id
    requires first.email.Some? && second.email == first.email
    requires Coerce(Inserted(id, first)).Ok? && Coerce(Inserted(secondId, second)).Ok?
    ensures Commit(rows[id := Coerce(Inserted(id, first)).value], tracks, secondId, Inserted(secondId, second)) == Err(Conflict)
    ensures Commit(SoftDelete(rows[id := Coerce(Inserted(id, first)).value], id), tracks, secondId, Inserted(secondId, second)) == Err(Conflict)
  {
    var cast := Coerce(Inserted(secondId, second)).value;
    assert cast.email == second.email;
    var stored := rows[id := Coerce(Inserted(id, first)).value];
    assert stored[id].email == cast.email;
    assert EmailTaken(stored, secondId, cast.email);
    var hidden := SoftDelete(stored, id);
    assert hidden[id].email == cast.email;
    assert EmailTaken(hidden, secondId, cast.email);
  }

  // ---------------------------------------------------------------- create

  /** Create then get: the committed row is visible under the new id and
      carries the payload, with gender and username as cast to their columns;
      a payload that already fits comes back unchanged. */
  lemma CreateThenGet(rows: Rows, tracks: set<int>, id: int, user: UserCreate)
    ensures Commit(rows, tracks, id, Inserted(id, user)).Ok? ==>
      var stored := Commit(rows, tracks, id, Inserted(id, user)).value;
      && Lookup(rows[id := stored], id) == Ok(stored)
      && stored.id == id
      && PayloadOf(stored) == user.(gender := stored.gender, username := stored.username)
    ensures Commit(rows, tracks, id, Inserted(id, user)).Ok? && WithinLimits(Inserted(id, user)) ==>
      && Commit(rows, tracks, id, Inserted(id, user)).value == Inserted(id, user)
      && PayloadOf(Commit(rows, tracks, id, Inserted(id, user)).value) == user
  {
  }

  // ---------------------------------------------------------------- update

  /** Applying the same partial update twice is the same as applying it once. */
  lemma MergeIdempotent(row: UserRow, update: UserUpdate)
    ensures Merge(Merge(row, update), update) == Merge(row, update)
  {
  }

  /** An update whose fields are all None changes nothing. */
  lemma MergeNothing(row: UserRow)
    ensures Merge(row, UserUpdate(None, None, None, None, None)) == row
  {
  }

  /** Each field is overwritten exactly when the payload gives it, even with
      an empty string, and is kept otherwise. */
  lemma MergeFieldwise(row: UserRow, update: UserUpdate)
    ensures Merge(row, update).name == (if update.name.Some? then update.name.value else row.name)
    ensures Merge(row, update).gender == (if update.gender.Some? then update.gender else row.gender)
    ensures Merge(row, update).email == (if update.email.Some? then update.email else row.email)
    ensures Merge(row, update).username == (if update.username.Some? then update.username else row.username)
    ensures Merge(row, update).trackId == (if update.trackId.Some? then update.trackId else row.trackId)
    ensures update.name == Some("") ==> Merge(row, update).name == ""
  {
  }

  /** An update giving only a name leaves every other field as it was. */
  lemma MergeNameOnly(row: UserRow, name: string)
    ensures Merge(row, UserUpdate(Some(name), None, None, None, None)) == row.(name := name)
  {
  }

  // ---------------------------------------------------------------- delete

  /** Deleting twice gives the same table as deleting once. */
  lemma SoftDeleteIdempotent(rows: Rows, id: int)
    ensures SoftDelete(SoftDelete(rows, id), id) == SoftDelete(rows, id)
  {
  }

  /** After a delete, get (and update) treat the row as absent, while the row
      is still stored, so a second delete still finds it. */
  lemma SoftDeleteHides(rows: Rows, id: int)
    requires id in rows
    ensures Lookup(SoftDelete(rows, id), id) == Err(NotFound)
    ensures id in SoftDelete(rows, id)
  {
  }

  /** Soft delete writes no constrained column, so it keeps the invariant. */
  lemma SoftDeleteKeepsInvariant(rows: Rows, nextId: int, tracks: set<int>, id: int)
    requires TableInvariant(rows, nextId, tracks)
    ensures TableInvariant(SoftDelete(rows, id), nextId, tracks)
  {
  }

  /** is_deleted never goes back to false: not by delete, not by update. */
  lemma DeletedIsMonotone(rows: Rows, id: int, update: UserUpdate)
    ensures forall k :: k in rows && rows[k].isDeleted ==> SoftDelete(rows, id)[k].isDeleted
    ensures forall k :: k in rows && rows[k].isDeleted ==> Merge(rows[k], update).isDeleted
  {
  }

  // ---------------------------------------------------------------- filtering

  /** Appending a condition to the query narrows it by exactly that condition. */
  lemma SatisfiesAllAppend(conditions: seq<Condition>, c: Condition)
    ensures forall row :: SatisfiesAll(row, conditions + [c]) <==> SatisfiesAll(row, conditions) && Holds(c, row)
  {
  }

  /** With no filter, or with a filter whose fields are all None, every row matches. */
  lemma NoFilterMatchesAll(row: UserRow)
    ensures MatchesFilter(row, None)
    ensures MatchesFilter(row, Some(UserFilter(None, None, None, None, None, None)))
  {
  }

  /** An empty string in a string field of the filter imposes no constraint. */
  lemma EmptyStringIsNoConstraint(row: UserRow, f: UserFilter)
    ensures MatchesFilter(row, Some(f.(name := Some("")))) == MatchesFilter(row, Some(f.(name := None)))
    ensures MatchesFilter(row, Some(f.(gender := Some("")))) == MatchesFilter(row, Some(f.(gender := None)))
    ensures MatchesFilter(row, Some(f.(email := Some("")))) == MatchesFilter(row, Some(f.(email := None)))
    ensures MatchesFilter(row, Some(f.(username := Some("")))) == MatchesFilter(row, Some(f.(username := None)))
  {
  }

  /** Zero is a real value for stage and track: a row with another value is excluded. */
  lemma ZeroIsAConstraint(row: UserRow, f: UserFilter)
    ensures row.stage != 0 ==> !MatchesFilter(row, Some(f.(stage := Some(0))))
    ensures row.trackId != Some(0) ==> !MatchesFilter(row, Some(f.(trackId := Some(0))))
  {
  }

  /** A filter giving only stage = s selects exactly the rows whose stage is s. */
  lemma StageOnlyFilter(row: UserRow, s: int)
    ensures MatchesFilter(row, Some(UserFilter(None, Some(s), None, None, None, None))) <==> row.stage == s
  {
  }
}
