/**
 * The users table as mutable state: a map from canonical primary key to row,
 * a clock that stamps every write, and whether the store can be reached at
 * each coming query.
 */
module Repositories {
  import opened Wrappers
  import opened Schema

  /** What any query raises when the store cannot be reached. */
  const ConnectionLost := Error("Connection terminated unexpectedly")

  /** How `updateUser` rethrows a storage failure. */
  function UpdateFailure(e: Error): (f: Error)
    ensures |f.message| > 23 && f.message[..23] == "Failed to update user: "
    ensures f.message[23..] == "Error: " + e.message
  {
    Error("Failed to update user: " + ErrorText(e))
  }

  /** Whether the store answers the next query: as scripted, and always once the script has run out. */
  function Answers(link: seq<bool>): bool {
    |link| == 0 || link[0]
  }

  /** The script once the next query has been made. */
  function Rest(link: seq<bool>): seq<bool> {
    if |link| == 0 then [] else link[1..]
  }

  class UserRepository {
    var rows: map<string, User>
    var clock: nat
    /** Whether the store can be reached, for each coming query in turn. */
    var link: seq<bool>

    ghost predicate Valid()
      reads this
    {
      TableInvariant(rows)
    }

    ghost predicate Stamped()
      reads this
    {
      StampedBy(rows, clock)
    }

    constructor (link: seq<bool>)
      ensures Valid() && Stamped()
      ensures rows == map[] && clock == 0 && this.link == link
    {
      rows := map[];
      clock := 0;
      this.link := link;
    }

    /** Makes one query: reports whether the store answered it. */
    method Query() returns (answered: bool)
      modifies this
      ensures answered == Answers(old(link)) && link == Rest(old(link))
      ensures rows == old(rows) && clock == old(clock)
    {
      answered := Answers(link);
      link := Rest(link);
    }

    /**
     * Inserts one row with the generated id and the column defaults and
     * returns it as stored; a violated constraint leaves the table as it was.
     */
    method CreateUser(userData: NewUser, generatedId: string) returns (r: Result<User, Error>)
      requires Valid()
      modifies this
      ensures Valid() && link == Rest(old(link))
      ensures old(Stamped()) && userData.updatedAt.None? ==> Stamped()
      ensures !Answers(old(link)) ==> r == Err(ConnectionLost) && rows == old(rows) && clock == old(clock)
      ensures Answers(old(link)) ==>
        var row := InsertRow(userData, generatedId, old(clock) + 1);
        var violation := ConstraintViolation(old(rows), row);
        if violation.Some? then
          r == Err(violation.value) && rows == old(rows) && clock == old(clock)
        else
          && r == Ok(Coerce(row)) && clock == old(clock) + 1
          && rows == old(rows)[row.id := Coerce(row)] && |rows| == |old(rows)| + 1
    {
      ghost var stamped := Stamped();
      var answered := Query();
      if !answered {
        return Err(ConnectionLost);
      }
      var row := InsertRow(userData, generatedId, clock + 1);
      var violation := ConstraintViolation(rows, row);
      if violation.Some? {
        return Err(violation.value);
      }
      AdmittedRowKeepsInvariant(rows, row);
      if stamped && userData.updatedAt.None? {
        RestampKeepsStamped(rows, clock, row.id, Coerce(row));
        assert rows - {row.id} == rows;
      }
      clock := clock + 1;
      rows := rows[row.id := Coerce(row)];
      r := Ok(Coerce(row));
    }

    /** The row whose id is this uuid in any case, or None; the table is only read. */
    method FindById(id: string) returns (r: Result<Option<User>, Error>)
      requires Valid()
      modifies this
      ensures Valid() && link == Rest(old(link)) && rows == old(rows) && clock == old(clock)
      ensures !Answers(old(link)) <==> r.Err?
      ensures r.Err? ==> r.error == ConnectionLost
      ensures r.Ok? ==> (r.value.Some? <==> CanonicalId(id) in rows)
      ensures r.Ok? && r.value.Some? ==>
        r.value.value == rows[CanonicalId(id)] && r.value.value.id == CanonicalId(id)
    {
      var answered := Query();
      if !answered {
        return Err(ConnectionLost);
      }
      var key := CanonicalId(id);
      if key in rows {
        r := Ok(Some(rows[key]));
      } else {
        r := Ok(None);
      }
    }

    /** Every row exactly once, in no particular order; the table is only read. */
    method FindAll() returns (r: Result<seq<User>, Error>)
      requires Valid()
      modifies this
      ensures Valid() && link == Rest(old(link)) && rows == old(rows) && clock == old(clock)
      ensures !Answers(old(link)) <==> r.Err?
      ensures r.Err? ==> r.error == ConnectionLost
      ensures r.Ok? ==> ListsTable(r.value, rows)
    {
      var answered := Query();
      if !answered {
        return Err(ConnectionLost);
      }
      var listed := ListRows(rows);
      r := Ok(listed);
    }

    /**
     * Merges the given columns onto the row whose id is this uuid and
     * restamps `updatedAt`; no matching row gives None and no change; a
     * storage failure is rethrown with the 'Failed to update user: ' prefix.
     * Rows with other ids are never touched.
     */
    method UpdateUser(id: string, updates: UserPatch) returns (r: Result<Option<User>, Error>)
      requires Valid()
      modifies this
      ensures Valid() && link == Rest(old(link))
      ensures old(Stamped()) ==> Stamped()
      ensures !Answers(old(link)) ==>
        r == Err(UpdateFailure(ConnectionLost)) && rows == old(rows) && clock == old(clock)
      ensures Answers(old(link)) && CanonicalId(id) !in old(rows) ==>
        r == Ok(None) && rows == old(rows) && clock == old(clock)
      ensures Answers(old(link)) && CanonicalId(id) in old(rows) ==>
        var key := CanonicalId(id);
        var row := Merge(old(rows)[key], updates, old(clock) + 1);
        var violation := ConstraintViolation(old(rows) - {key}, row);
        if violation.Some? then
          r == Err(UpdateFailure(violation.value)) && rows == old(rows) && clock == old(clock)
        else
          && r == Ok(Some(Coerce(row))) && clock == old(clock) + 1
          && rows == (old(rows) - {key})[row.id := Coerce(row)]
      ensures forall k :: k in old(rows) && k != CanonicalId(id) ==> k in rows && rows[k] == old(rows)[k]
    {
      var answered := Query();
      if !answered {
        return Err(UpdateFailure(ConnectionLost));
      }
      r := MergeInto(CanonicalId(id), updates);
    }

    /** `updateUser` once the store has answered: the table with the row under `key` merged. */
    method MergeInto(key: string, updates: UserPatch) returns (r: Result<Option<User>, Error>)
      requires Valid()
      modifies this
      ensures Valid() && link == old(link)
      ensures old(Stamped()) ==> Stamped()
      ensures key !in old(rows) ==> r == Ok(None) && rows == old(rows) && clock == old(clock)
      ensures key in old(rows) ==>
        var row := Merge(old(rows)[key], updates, old(clock) + 1);
        var violation := ConstraintViolation(old(rows) - {key}, row);
        if violation.Some? then
          r == Err(UpdateFailure(violation.value)) && rows == old(rows) && clock == old(clock)
        else
          && r == Ok(Some(Coerce(row))) && clock == old(clock) + 1
          && rows == (old(rows) - {key})[row.id := Coerce(row)]
      ensures forall k :: k in old(rows) && k != key ==> k in rows && rows[k] == old(rows)[k]
    {
      if key !in rows {
        return Ok(None);
      }
      var row := Merge(rows[key], updates, clock + 1);
      var others := rows - {key};
      var violation := ConstraintViolation(others, row);
      if violation.Some? {
        return Err(UpdateFailure(violation.value));
      }
      RemovalKeepsInvariant(rows, key);
      AdmittedRowKeepsInvariant(others, row);
      if Stamped() {
        RestampKeepsStamped(rows, clock, key, Coerce(row));
      }
      clock := clock + 1;
      rows := others[row.id := Coerce(row)];
      r := Ok(Some(Coerce(row)));
    }
  }

  /** Every row of the table exactly once, in no particular order. */
  method ListRows(table: map<string, User>) returns (listed: seq<User>)
    requires forall k | k in table :: table[k].id == k
    ensures ListsTable(listed, table)
  {
    var remaining := table.Keys;
    listed := [];
    while remaining != {}
      invariant remaining <= table.Keys
      invariant forall i :: 0 <= i < |listed| ==> listed[i].id in table && table[listed[i].id] == listed[i]
      invariant forall i :: 0 <= i < |listed| ==> listed[i].id !in remaining
      invariant forall i, j :: 0 <= i < j < |listed| ==> listed[i].id != listed[j].id
      invariant forall k :: k in table && k !in remaining ==> exists i :: 0 <= i < |listed| && listed[i].id == k
      decreases remaining
    {
      var k :| k in remaining;
      ghost var before := listed;
      listed := listed + [table[k]];
      remaining := remaining - {k};
      assert listed[|listed| - 1].id == k;
      assert forall i :: 0 <= i < |before| ==> listed[i] == before[i];
    }
    ListedRowsCount(listed, table);
  }

  /** No row is stamped later than `clock`. */
  ghost predicate StampedBy(rows: map<string, User>, clock: nat) {
    forall k | k in rows :: rows[k].updatedAt <= clock
  }

  /** Replacing one row by a row stamped at the next tick keeps every stamp at or before the clock. */
  lemma RestampKeepsStamped(rows: map<string, User>, clock: nat, key: string, row: User)
    requires StampedBy(rows, clock) && row.updatedAt == clock + 1
    ensures StampedBy((rows - {key})[row.id := row], clock + 1)
  {
  }

  /** `users` lists the table: each row once, and nothing else. */
  ghost predicate ListsTable(users: seq<User>, rows: map<string, User>) {
    && |users| == |rows|
    && (forall i :: 0 <= i < |users| ==> users[i].id in rows && rows[users[i].id] == users[i])
    && (forall i, j :: 0 <= i < j < |users| ==> users[i].id != users[j].id)
    && (forall k :: k in rows ==> exists i :: 0 <= i < |users| && users[i].id == k)
  }

  /** A duplicate-free listing that covers every key has one entry per row. */
  lemma {:induction false} ListedRowsCount(listed: seq<User>, rows: map<string, User>)
    requires forall i :: 0 <= i < |listed| ==> listed[i].id in rows
    requires forall i, j :: 0 <= i < j < |listed| ==> listed[i].id != listed[j].id
    requires forall k :: k in rows ==> exists i :: 0 <= i < |listed| && listed[i].id == k
    ensures |listed| == |rows|
  {
    var ids := set i | 0 <= i < |listed| :: listed[i].id;
    assert ids == rows.Keys;
    DistinctIdsCount(listed);
  }

  lemma {:induction false} DistinctIdsCount(listed: seq<User>)
    requires forall i, j :: 0 <= i < j < |listed| ==> listed[i].id != listed[j].id
    ensures |set i | 0 <= i < |listed| :: listed[i].id| == |listed|
  {
    if |listed| > 0 {
      var init := listed[..|listed| - 1];
      DistinctIdsCount(init);
      var last := listed[|listed| - 1].id;
      assert (set i | 0 <= i < |listed| :: listed[i].id)
          == (set i | 0 <= i < |init| :: init[i].id) + {last};
      assert last !in (set i | 0 <= i < |init| :: init[i].id);
    }
  }
}
