/**
 * Resolving a display name to a user: look the name up and, only when no
 * user has it, insert one. The host flag given to a resolve matters only
 * when it creates the user.
 *
 * `GetOutcome` and `AddOutcome` say what a resolve does to the users table;
 * the methods `Get` and `Add` perform it on the database and are proved
 * against them.
 */
module User {
  import opened Schema
  import opened Store

  /** The first user row with exactly this name (the SELECT of `get`). */
  function Lookup(rows: seq<UserRow>, name: string): (r: Option<UserRow>)
    ensures r.Some? ==> r.value in rows && r.value.name == name
    ensures r.None? <==> !NameTaken(rows, name)
  {
    if rows == [] then None
    else if rows[0].name == name then Some(rows[0])
    else Lookup(rows[1..], name)
  }

  /** `(!!isHost) ? 1 : 0` */
  function HostFlagOf(isHost: bool): (flag: HostFlag)
    ensures flag == 1 <==> isHost
  {
    if isHost then 1 else 0
  }

  /** The users table after a resolve, and the user (or the error) handed to the callback. */
  datatype Resolved = Resolved(table: Table<UserRow>, user: Result<UserRow>)

  /** What `add` does: insert the name with its host flag, unless the insert fails. */
  function AddOutcome(t: Table<UserRow>, name: string, isHost: bool, fails: bool): (o: Resolved)
    ensures o.user.Ok? <==> !fails && !NameTaken(t.rows, name)
    ensures o.user.Err? ==> o.table == t
    ensures o.user.Ok? ==> o.user.value == UserRow(t.nextId, name, HostFlagOf(isHost))
    ensures o.user.Ok? ==> o.table == Append(t, o.user.value)
    ensures UsersValid(t) ==> UsersValid(o.table)
  {
    if fails then Resolved(t, Err(QueryFailed))
    else if NameTaken(t.rows, name) then Resolved(t, Err(DuplicateName))
    else
      var u := UserRow(t.nextId, name, HostFlagOf(isHost));
      Resolved(Append(t, u), Ok(u))
  }

  /** What `get` does: a failed lookup is passed on, a found user is returned as stored, otherwise `add`. */
  function GetOutcome(t: Table<UserRow>, name: string, isHost: bool, lookupFails: bool, insertFails: bool)
    : (o: Resolved)
    // a failed resolve leaves the table as it was
    ensures o.user.Err? ==> o.table == t
    // a successful one returns a stored user with exactly that name
    ensures o.user.Ok? ==> o.user.value.name == name && o.user.value in o.table.rows
    // existing rows are never changed, at most one is added
    ensures t.rows <= o.table.rows && |o.table.rows| <= |t.rows| + 1
    // a known name inserts nothing, whatever isHost says
    ensures NameTaken(t.rows, name) ==> o.table == t
    // a new row is a fresh id, the name, and the flag of this call
    ensures o.table != t ==>
      && !NameTaken(t.rows, name)
      && o.user == Ok(UserRow(t.nextId, name, HostFlagOf(isHost)))
      && o.table == Append(t, o.user.value)
    // it fails exactly on a lookup fault, or on an insert fault when the name is new;
    // without store faults it always succeeds: the unique key is never hit
    ensures o.user.Ok? <==> !lookupFails && (NameTaken(t.rows, name) || !insertFails)
    ensures !lookupFails && !insertFails ==> o.user.Ok?
    ensures UsersValid(t) ==> UsersValid(o.table)
  {
    if lookupFails then Resolved(t, Err(QueryFailed))
    else match Lookup(t.rows, name)
      case Some(u) => Resolved(t, Ok(u))
      case None => AddOutcome(t, name, isHost, insertFails)
  }

  /** In a valid table a name picks out one row, and the lookup finds it. */
  lemma LookupUnique(t: Table<UserRow>, u: UserRow)
    requires UsersValid(t) && u in t.rows
    ensures Lookup(t.rows, u.name) == Some(u)
  {
    var v := Lookup(t.rows, u.name).value;
    var i :| 0 <= i < |t.rows| && t.rows[i] == u;
    var j :| 0 <= j < |t.rows| && t.rows[j] == v;
  }

  /** Resolving a stored name returns that user unchanged and adds nothing, whatever isHost and the insert would do. */
  lemma ResolveExisting(t: Table<UserRow>, u: UserRow, isHost: bool, insertFails: bool)
    requires UsersValid(t) && u in t.rows
    ensures GetOutcome(t, u.name, isHost, false, insertFails) == Resolved(t, Ok(u))
  {
    LookupUnique(t, u);
  }

  /**
   * Resolving the same name twice gives the same user, with the host flag
   * fixed by the call that created it; the second resolve adds nothing.
   */
  lemma ResolveIdempotent(t: Table<UserRow>, name: string, first: bool, second: bool)
    requires UsersValid(t)
    ensures
      var o1 := GetOutcome(t, name, first, false, false);
      var o2 := GetOutcome(o1.table, name, second, false, false);
      && o1.user.Ok?
      && o2 == Resolved(o1.table, o1.user)
      && (!NameTaken(t.rows, name) ==> o1.user.value.isHost == HostFlagOf(first))
  {
    var o1 := GetOutcome(t, name, first, false, false);
    ResolveExisting(o1.table, o1.user.value, second, false);
  }

  /** A run of fault-free resolves: the final users table and what each call returned. */
  function ResolveAll(t: Table<UserRow>, requests: seq<(string, bool)>): (o: (Table<UserRow>, seq<UserRow>))
    ensures |o.1| == |requests|
    ensures t.rows <= o.0.rows
    decreases |requests|
  {
    if requests == [] then (t, [])
    else
      var first := GetOutcome(t, requests[0].0, requests[0].1, false, false);
      var rest := ResolveAll(first.table, requests[1..]);
      (rest.0, [first.user.value] + rest.1)
  }

  /**
   * Sequential resolves keep names unique, and every call returns the stored
   * user that carries the name it asked for.
   */
  lemma {:induction false} ResolveAllConsistent(t: Table<UserRow>, requests: seq<(string, bool)>)
    requires UsersValid(t)
    ensures UsersValid(ResolveAll(t, requests).0)
    ensures forall k :: 0 <= k < |requests| ==>
      ResolveAll(t, requests).1[k] in ResolveAll(t, requests).0.rows &&
      ResolveAll(t, requests).1[k].name == requests[k].0
    decreases |requests|
  {
    if requests != [] {
      var first := GetOutcome(t, requests[0].0, requests[0].1, false, false);
      var rest := ResolveAll(first.table, requests[1..]);
      ResolveAllConsistent(first.table, requests[1..]);
      assert ResolveAll(t, requests) == (rest.0, [first.user.value] + rest.1);
      forall k | 0 <= k < |requests|
        ensures ResolveAll(t, requests).1[k] in rest.0.rows && ResolveAll(t, requests).1[k].name == requests[k].0
      {
        if k == 0 {
          assert first.table.rows <= rest.0.rows;
          assert first.user.value in rest.0.rows;
        } else {
          assert requests[1..][k - 1] == requests[k];
          assert ResolveAll(t, requests).1[k] == rest.1[k - 1];
        }
      }
    }
  }

  /** Two resolves of the same name in one run return the same user, hence the same id. */
  lemma SameNameSameUser(t: Table<UserRow>, requests: seq<(string, bool)>, k1: nat, k2: nat)
    requires UsersValid(t)
    requires k1 < |requests| && k2 < |requests| && requests[k1].0 == requests[k2].0
    ensures ResolveAll(t, requests).1[k1] == ResolveAll(t, requests).1[k2]
  {
    ResolveAllConsistent(t, requests);
    var final := ResolveAll(t, requests).0;
    LookupUnique(final, ResolveAll(t, requests).1[k1]);
    LookupUnique(final, ResolveAll(t, requests).1[k2]);
  }

  /** `add`: insert the user and hand back its new id, its name and its 0/1 host flag. */
  method Add(db: Database, name: string, isHost: bool, fails: bool) returns (r: Result<UserRow>)
    requires db.Valid()
    modifies db`users
    ensures db.Valid()
    ensures Resolved(db.users, r) == AddOutcome(old(db.users), name, isHost, fails)
  {
    var hostFlag := HostFlagOf(isHost);
    var inserted := db.InsertUser(name, hostFlag, fails);
    match inserted {
      case Ok(id) => r := Ok(UserRow(id, name, hostFlag));
      case Err(e) => r := Err(e);
    }
  }

  /** `get`: look the name up; on no match delegate to `add`. */
  method Get(db: Database, name: string, isHost: bool, lookupFails: bool, insertFails: bool)
    returns (r: Result<UserRow>)
    requires db.Valid()
    modifies db`users
    ensures db.Valid()
    ensures Resolved(db.users, r) == GetOutcome(old(db.users), name, isHost, lookupFails, insertFails)
  {
    if lookupFails {
      return Err(QueryFailed);
    }
    var found := Lookup(db.users.rows, name);
    if found.None? {
      r := Add(db, name, isHost, insertFails);
      return;
    }
    r := Ok(found.value);
  }
}
