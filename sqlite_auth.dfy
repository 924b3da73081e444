/** The SQLite authenticator of the server: one `users` table keyed by uid, with Login,
    Register and GetUser over it. The table is a map from uid to row; bcrypt's `verify` is a
    function the authenticator is built with, and each call of bcrypt's `hash` (salted at
    random) and of `rand::random` is a parameter of `Register`. */
module SqliteAuth {
  import opened Bytes
  import opened Wrappers

  /** A row of `users`: the name and the bcrypt hash of the password. */
  datatype UserRow = UserRow(username: string, passwordHash: string)

  type Users = map<u64, UserRow>

  /** The largest value of SQLite's INTEGER; rusqlite refuses to bind a larger `u64`. */
  const I64Max: nat := 0x7fff_ffff_ffff_ffff

  /** No two rows share a name, which is what the check before the insert is for (the
      table itself has no UNIQUE on `username`). */
  ghost predicate DistinctUsernames(users: Users) {
    forall a, b :: a in users && b in users && users[a].username == users[b].username ==> a == b
  }

  /** Every row is one `Register` can have written: distinct names, uids SQLite holds. */
  ghost predicate TableInvariant(users: Users) {
    DistinctUsernames(users) && forall uid :: uid in users ==> uid <= I64Max
  }

  /** `SELECT * FROM users WHERE username = ?1`. */
  ghost function UidOf(users: Users, username: string): (r: Option<u64>)
    requires DistinctUsernames(users)
    ensures r.Some? ==> r.value in users && users[r.value].username == username
    ensures r.None? ==> forall uid :: uid in users ==> users[uid].username != username
  {
    if exists uid :: uid in users && users[uid].username == username then
      var uid :| uid in users && users[uid].username == username; Some(uid)
    else None
  }

  /** The Login handler once the pool is there: the row with that name, then `verify`. */
  ghost function LoginResult(users: Users, verify: (string, string) -> bool, username: string, password: string)
    : (r: Result<u64, ()>)
    requires DistinctUsernames(users)
    ensures r.Ok? <==> UidOf(users, username).Some? && verify(password, users[UidOf(users, username).value].passwordHash)
    ensures r.Ok? ==> r.value in users && users[r.value].username == username
  {
    match UidOf(users, username)
    case None => Err(())
    case Some(uid) => if verify(password, users[uid].passwordHash) then Ok(uid) else Err(())
  }

  /** The GetUser handler once the pool is there. */
  function GetUserResult(users: Users, uid: u64): (r: Result<string, ()>)
    ensures r.Ok? <==> uid in users
    ensures r.Ok? ==> r.value == users[uid].username
  {
    if uid in users then Ok(users[uid].username) else Err(())
  }

  /** What one Register call returns, the table after it and the connection's change count
      after it. */
  datatype RegisterStep = RegisterStep(result: Outcome<Result<u64, ()>>, users: Users, changes: nat)

  /** The INSERT and what precedes it: a failed hash, a uid SQLite cannot hold or a uid
      already taken is an error and changes nothing; otherwise one row is added. */
  ghost function Insert(users: Users, changes: nat, username: string, uid: u64, hashed: Option<string>)
    : (r: RegisterStep)
    ensures r.result.Returns?
    ensures r.result.value.Ok? <==> hashed.Some? && uid <= I64Max && uid !in users
    ensures r.result.value.Ok? ==>
      r.result.value.value == uid && r.users == users[uid := UserRow(username, hashed.value)] && r.changes == 1
    ensures r.result.value.Err? ==> r.users == users && r.changes == changes
  {
    if hashed.None? || uid > I64Max || uid in users then RegisterStep(Returns(Err(())), users, changes)
    else RegisterStep(Returns(Ok(uid)), users[uid := UserRow(username, hashed.value)], 1)
  }

  /** Register as intended: a taken name is refused, otherwise the insert decides. */
  ghost function RegisterIntended(users: Users, changes: nat, username: string, uid: u64, hashed: Option<string>)
    : (r: RegisterStep)
    requires DistinctUsernames(users)
    ensures r.result.Returns?
    ensures UidOf(users, username).Some? ==> r == RegisterStep(Returns(Err(())), users, changes)
    ensures UidOf(users, username).None? ==> r == Insert(users, changes, username, uid, hashed)
  {
    if UidOf(users, username).Some? then RegisterStep(Returns(Err(())), users, changes)
    else Insert(users, changes, username, uid, hashed)
  }

  /** Register as written: the existence check runs `execute` on a SELECT, which fails with
      `ExecuteReturnedResults` when the name is taken (and `expect` panics), and otherwise
      yields the connection's change count of its last INSERT, not a count of rows found. */
  ghost function RegisterWritten(users: Users, changes: nat, username: string, uid: u64, hashed: Option<string>)
    : (r: RegisterStep)
    requires DistinctUsernames(users)
    ensures UidOf(users, username).Some? ==> r == RegisterStep(Panics, users, changes)
    ensures UidOf(users, username).None? && changes != 0 ==> r == RegisterStep(Returns(Err(())), users, changes)
    ensures UidOf(users, username).None? && changes == 0 ==> r == Insert(users, changes, username, uid, hashed)
  {
    if UidOf(users, username).Some? then RegisterStep(Panics, users, changes)
    else if changes != 0 then RegisterStep(Returns(Err(())), users, changes)
    else Insert(users, changes, username, uid, hashed)
  }

  class SQLiteAuthenticator {
    /** The rows of `users`. */
    var users: Users
    /** Whether `started` has set the pool. */
    var started: bool
    /** `sqlite3_changes` of the connection: the row count of its last INSERT. */
    var changes: nat
    /** bcrypt's `verify`. */
    const verify: (string, string) -> bool

    ghost predicate Valid()
      reads this
    {
      TableInvariant(users)
    }

    /** `new_in_memory`: nothing is opened until the actor starts. */
    constructor NewInMemory(verify: (string, string) -> bool)
      ensures Valid() && users == map[] && !started && changes == 0 && this.verify == verify
    {
      users := map[];
      started := false;
      changes := 0;
      this.verify := verify;
    }

    /** `new` over a database file, whose rows are given (a file this authenticator wrote). */
    constructor New(verify: (string, string) -> bool, rows: Users)
      requires TableInvariant(rows)
      ensures Valid() && users == rows && !started && changes == 0 && this.verify == verify
    {
      users := rows;
      started := false;
      changes := 0;
      this.verify := verify;
    }

    /** `started`: `CREATE TABLE IF NOT EXISTS` keeps the rows there are, then the pool is set. */
    method Started()
      requires Valid()
      modifies this
      ensures Valid() && started && users == old(users) && changes == old(changes)
    {
      started := true;
    }

    /** The Login handler: `expect` panics without a pool; the table is only read. */
    method Login(username: string, password: string) returns (r: Outcome<Result<u64, ()>>)
      requires Valid()
      ensures !started ==> r == Panics
      ensures started ==> r == Returns(LoginResult(users, verify, username, password))
    {
      if !started {
        return Panics;
      }
      if uid :| uid in users && users[uid].username == username {
        r := Returns(if verify(password, users[uid].passwordHash) then Ok(uid) else Err(()));
      } else {
        r := Returns(Err(()));
      }
    }

    /** The GetUser handler: the table is only read. */
    method GetUser(uid: u64) returns (r: Outcome<Result<string, ()>>)
      requires Valid()
      ensures !started ==> r == Panics
      ensures started ==> r == Returns(GetUserResult(users, uid))
    {
      if !started {
        return Panics;
      }
      if uid in users {
        r := Returns(Ok(users[uid].username));
      } else {
        r := Returns(Err(()));
      }
    }

    /** The part of both Register handlers after the existence check. */
    method InsertRow(username: string, uid: u64, hashed: Option<string>) returns (r: Outcome<Result<u64, ()>>)
      requires Valid() && UidOf(users, username).None?
      modifies this
      ensures Valid() && started == old(started)
      ensures RegisterStep(r, users, changes) == Insert(old(users), old(changes), username, uid, hashed)
    {
      if hashed.None? {
        return Returns(Err(()));
      }
      if uid > I64Max || uid in users {
        return Returns(Err(()));
      }
      users := users[uid := UserRow(username, hashed.value)];
      changes := 1;
      r := Returns(Ok(uid));
    }

    /** The Register handler as intended. `uid` is the value `rand::random` gave and `hashed`
        what bcrypt's `hash` gave for the password. */
    method Register(username: string, password: string, uid: u64, hashed: Option<string>)
      returns (r: Outcome<Result<u64, ()>>)
      requires Valid()
      requires hashed.Some? ==> verify(password, hashed.value)
      modifies this
      ensures Valid() && started == old(started)
      ensures !old(started) ==> r == Panics && users == old(users) && changes == old(changes)
      ensures old(started) ==>
        RegisterStep(r, users, changes) == RegisterIntended(old(users), old(changes), username, uid, hashed)
    {
      if !started {
        return Panics;
      }
      if exists k :: k in users && users[k].username == username {
        return Returns(Err(()));
      }
      r := InsertRow(username, uid, hashed);
    }

    /** The Register handler as written. */
    method RegisterAsWritten(username: string, password: string, uid: u64, hashed: Option<string>)
      returns (r: Outcome<Result<u64, ()>>)
      requires Valid()
      requires hashed.Some? ==> verify(password, hashed.value)
      modifies this
      ensures Valid() && started == old(started)
      ensures !old(started) ==> r == Panics && users == old(users) && changes == old(changes)
      ensures old(started) ==>
        RegisterStep(r, users, changes) == RegisterWritten(old(users), old(changes), username, uid, hashed)
    {
      if !started {
        return Panics;
      }
      if exists k :: k in users && users[k].username == username {
        return Panics;
      }
      if changes != 0 {
        return Returns(Err(()));
      }
      r := InsertRow(username, uid, hashed);
    }
  }

  // ---------------------------------------------------------------- properties

  /** A successful insert keeps every earlier row, adds exactly the new one and keeps the
      table invariant. */
  lemma InsertKeepsInvariant(users: Users, changes: nat, username: string, uid: u64, hashed: Option<string>)
    requires TableInvariant(users) && UidOf(users, username).None?
    ensures TableInvariant(Insert(users, changes, username, uid, hashed).users)
    ensures var s := Insert(users, changes, username, uid, hashed);
      s.result.value.Ok? ==> s.users.Keys == users.Keys + {uid} && forall k :: k in users ==> s.users[k] == users[k]
  {
  }

  /** The test of the authenticator: a user who registers can log in with the same password,
      under the uid Register returned, and GetUser gives the name back. */
  lemma RegisterThenLogin(users: Users, verify: (string, string) -> bool, changes: nat,
                          username: string, password: string, uid: u64, hashed: Option<string>)
    requires TableInvariant(users)
    requires hashed.Some? ==> verify(password, hashed.value)
    requires RegisterIntended(users, changes, username, uid, hashed).result == Returns(Ok(uid))
    ensures var after := RegisterIntended(users, changes, username, uid, hashed).users;
      TableInvariant(after) && LoginResult(after, verify, username, password) == Ok(uid)
    ensures GetUserResult(RegisterIntended(users, changes, username, uid, hashed).users, uid) == Ok(username)
  {
    var after := RegisterIntended(users, changes, username, uid, hashed).users;
    InsertKeepsInvariant(users, changes, username, uid, hashed);
    assert after[uid].username == username;
    assert UidOf(after, username) == Some(uid);
  }

  /** A taken name is refused and the table stays as it was. */
  lemma TakenNameRefused(users: Users, changes: nat, username: string, uid: u64, hashed: Option<string>, k: u64)
    requires DistinctUsernames(users) && k in users && users[k].username == username
    ensures RegisterIntended(users, changes, username, uid, hashed) == RegisterStep(Returns(Err(())), users, changes)
  {
  }

  /** Registration never changes a row that was there: a failed one changes nothing, a
      successful one only adds. */
  lemma RegisterOnlyAdds(users: Users, changes: nat, username: string, uid: u64, hashed: Option<string>)
    requires TableInvariant(users)
    ensures var s := RegisterIntended(users, changes, username, uid, hashed);
      TableInvariant(s.users) && forall k :: k in users ==> k in s.users && s.users[k] == users[k]
    ensures var s := RegisterIntended(users, changes, username, uid, hashed);
      s.result.value.Err? ==> s.users == users
  {
    if UidOf(users, username).None? {
      InsertKeepsInvariant(users, changes, username, uid, hashed);
    }
  }

  /** The handler as written refuses every registration after the first insert on its
      connection: a second user with a fresh name and a free uid gets `Err`, where the
      intended handler inserts the row. */
  lemma SecondRegistrationRefusedAsWritten(hashA: string, hashB: string)
    ensures var first := RegisterWritten(map[], 0, "a", 1, Some(hashA));
      first.result == Returns(Ok(1)) && first.changes == 1
    ensures var first := RegisterWritten(map[], 0, "a", 1, Some(hashA));
      RegisterWritten(first.users, first.changes, "b", 2, Some(hashB)).result == Returns(Err(()))
    ensures var first := RegisterIntended(map[], 0, "a", 1, Some(hashA));
      RegisterIntended(first.users, first.changes, "b", 2, Some(hashB)).result == Returns(Ok(2))
  {
    var one := map[1 as u64 := UserRow("a", hashA)];
    assert UidOf(map[], "a").None?;
    assert DistinctUsernames(one);
    assert one[1].username != "b";
    assert UidOf(one, "b").None?;
  }

  /** The handler as written panics on a taken name where the intended one returns `Err`. */
  lemma TakenNamePanicsAsWritten(users: Users, changes: nat, username: string, uid: u64, hashed: Option<string>, k: u64)
    requires DistinctUsernames(users) && k in users && users[k].username == username
    ensures RegisterWritten(users, changes, username, uid, hashed).result == Panics
    ensures RegisterIntended(users, changes, username, uid, hashed).result == Returns(Err(()))
  {
  }

  /** On a connection that has inserted nothing yet the two handlers agree. */
  lemma AsWrittenAgreesOnFreshConnection(users: Users, username: string, uid: u64, hashed: Option<string>)
    requires DistinctUsernames(users) && UidOf(users, username).None?
    ensures RegisterWritten(users, 0, username, uid, hashed) == RegisterIntended(users, 0, username, uid, hashed)
  {
  }
}
