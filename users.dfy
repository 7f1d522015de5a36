/**
 * The `users` table as the ledgers see it, and the user service that creates
 * accounts with unique usernames.
 *
 * Identifiers come from the snowflake generator, modelled as a counter of the
 * store: a new user takes two values, one for its id and one for its session id.
 */
module Users {
  import opened Wrappers

  const RoleUser: string := "user"
  const ErrUsernameTaken: string := "username already taken"
  /** The text of Go's `sql.ErrNoRows`. */
  const ErrNoRows: string := "sql: no rows in result set"

  /** A row of `users`; password-reset columns are left out. */
  datatype User = User(
    id: int,
    username: string,
    passwordHash: string,
    createdAt: int,
    role: string,
    jwtSessionId: int,
    requestCredits: int,
    inviteTokens: int)

  /** `UPDATE users SET request_credits = request_credits + dc, invite_tokens = invite_tokens + dt WHERE id = $`. */
  function Adjust(rows: seq<User>, id: int, dc: int, dt: int): (r: seq<User>)
  {
    seq(|rows|, i requires 0 <= i < |rows| =>
      if rows[i].id == id then rows[i].(requestCredits := rows[i].requestCredits + dc,
                                        inviteTokens := rows[i].inviteTokens + dt)
      else rows[i])
  }

  /** An adjustment is undone by the opposite adjustment. */
  lemma AdjustInverse(rows: seq<User>, id: int, dc: int, dt: int)
    ensures Adjust(Adjust(rows, id, dc, dt), id, -dc, -dt) == rows
  {
    var back := Adjust(Adjust(rows, id, dc, dt), id, -dc, -dt);
    assert forall i :: 0 <= i < |rows| ==> back[i] == rows[i];
  }

  /** The row with that id, if any (`SELECT … WHERE id = $1`). */
  function FindUser(rows: seq<User>, id: int): (r: Option<User>)
    ensures r.Some? <==> exists i :: 0 <= i < |rows| && rows[i].id == id
    ensures r.Some? ==> r.value in rows && r.value.id == id
  {
    if rows == [] then None
    else if rows[0].id == id then Some(rows[0])
    else
      assert forall i :: 1 <= i < |rows| ==> rows[i] == rows[1..][i - 1];
      FindUser(rows[1..], id)
  }

  /** The balance a user reads as: the row's credits, or zero for a missing row. */
  function CreditsOf(rows: seq<User>, id: int): int
  {
    match FindUser(rows, id)
    case Some(u) => u.requestCredits
    case None => 0
  }

  /** The invite tokens a user reads as: the row's tokens, or zero for a missing row. */
  function TokensOf(rows: seq<User>, id: int): int
  {
    match FindUser(rows, id)
    case Some(u) => u.inviteTokens
    case None => 0
  }

  /** An adjustment moves the adjusted user's balance and tokens by the amounts, when the user exists. */
  lemma {:induction false} ReadAfterAdjust(rows: seq<User>, id: int, dc: int, dt: int)
    ensures CreditsOf(Adjust(rows, id, dc, dt), id) == CreditsOf(rows, id) + (if FindUser(rows, id).Some? then dc else 0)
    ensures TokensOf(Adjust(rows, id, dc, dt), id) == TokensOf(rows, id) + (if FindUser(rows, id).Some? then dt else 0)
  {
    if rows != [] {
      assert Adjust(rows, id, dc, dt)[1..] == Adjust(rows[1..], id, dc, dt);
      ReadAfterAdjust(rows[1..], id, dc, dt);
    }
  }

  /** An adjustment of one user leaves every other user's balance and tokens as they were. */
  lemma {:induction false} ReadOthersAfterAdjust(rows: seq<User>, id: int, dc: int, dt: int, other: int)
    requires other != id
    ensures CreditsOf(Adjust(rows, id, dc, dt), other) == CreditsOf(rows, other)
    ensures TokensOf(Adjust(rows, id, dc, dt), other) == TokensOf(rows, other)
  {
    if rows != [] {
      assert Adjust(rows, id, dc, dt)[1..] == Adjust(rows[1..], id, dc, dt);
      ReadOthersAfterAdjust(rows[1..], id, dc, dt, other);
    }
  }

  /** After an adjustment the user reads back with the amounts added; other users read as before. */
  lemma {:induction false} FindAfterAdjust(rows: seq<User>, id: int, dc: int, dt: int, other: int)
    ensures FindUser(Adjust(rows, id, dc, dt), other) ==
            if other == id && FindUser(rows, id).Some?
            then Some(FindUser(rows, id).value.(requestCredits := FindUser(rows, id).value.requestCredits + dc,
                                                inviteTokens := FindUser(rows, id).value.inviteTokens + dt))
            else FindUser(rows, other)
  {
    if rows != [] {
      assert Adjust(rows, id, dc, dt)[1..] == Adjust(rows[1..], id, dc, dt);
      FindAfterAdjust(rows[1..], id, dc, dt, other);
    }
  }

  /** `SELECT EXISTS(SELECT 1 FROM users WHERE username=$1)`. */
  predicate NameTaken(rows: seq<User>, username: string)
  {
    exists i :: 0 <= i < |rows| && rows[i].username == username
  }

  /** No two rows share an id. */
  ghost predicate DistinctIds(rows: seq<User>)
  {
    forall i, j :: 0 <= i < j < |rows| ==> rows[i].id != rows[j].id
  }

  /** No two rows share a username. */
  ghost predicate UniqueNames(rows: seq<User>)
  {
    forall i, j :: 0 <= i < j < |rows| ==> rows[i].username != rows[j].username
  }

  /** The parameters of CreateUser. */
  datatype CreateUserParams = CreateUserParams(username: string, passwordHash: string, role: string, requestCredits: int)

  /** The role CreateUser stores: the given one, or "user" when it is empty. */
  function RoleOrDefault(role: string): (r: string)
    ensures r != ""
    ensures role != "" ==> r == role
  {
    if role == "" then RoleUser else role
  }

  class UserStore {
    var rows: seq<User>
    /** Source of fresh identifiers (the snowflake generator). */
    var nextId: int

    ghost predicate Valid()
      reads this
    {
      && (forall i :: 0 <= i < |rows| ==> rows[i].id < nextId)
      && DistinctIds(rows)
    }

    constructor ()
      ensures Valid() && rows == []
    {
      rows := [];
      nextId := 1;
    }

    /** DuplicateName */
    predicate DuplicateName(username: string)
      reads this
    {
      NameTaken(rows, username)
    }

    /** Inserts a user whose id is fresh; `dbErr` is the database's answer. */
    method Insert(u: User, dbErr: Option<string>) returns (err: Option<string>)
      requires Valid() && u.id < nextId
      requires forall i :: 0 <= i < |rows| ==> rows[i].id != u.id
      modifies this
      ensures Valid() && nextId == old(nextId) && err == dbErr
      ensures rows == if dbErr.None? then old(rows) + [u] else old(rows)
    {
      err := dbErr;
      if dbErr.None? {
        rows := rows + [u];
      }
    }

    /** Draws two fresh values of the generator: the new user's id and session id. */
    method FreshIds() returns (id: int, session: int)
      requires Valid()
      modifies this
      ensures Valid() && rows == old(rows) && nextId == old(nextId) + 2
      ensures id == old(nextId) && session == old(nextId) + 1
      ensures forall i :: 0 <= i < |rows| ==> rows[i].id != id
    {
      id, session := nextId, nextId + 1;
      nextId := nextId + 2;
    }

    /** Draws one fresh value of the generator. */
    method FreshId() returns (id: int)
      requires Valid()
      modifies this
      ensures Valid() && rows == old(rows) && nextId == old(nextId) + 1
      ensures id == old(nextId)
      ensures forall i :: 0 <= i < |rows| ==> rows[i].id != id
    {
      id := nextId;
      nextId := nextId + 1;
    }

    /** Adds to a user's credits and tokens (a no-op for an absent id). */
    method AdjustUser(id: int, dc: int, dt: int)
      requires Valid()
      modifies this
      ensures Valid() && nextId == old(nextId)
      ensures rows == Adjust(old(rows), id, dc, dt)
    {
      rows := Adjust(rows, id, dc, dt);
    }
  }

  /** The user CreateUser inserts. */
  function NewUser(params: CreateUserParams, id: int, session: int, now: int): User
  {
    User(id, params.username, params.passwordHash, now, RoleOrDefault(params.role), session, params.requestCredits, 0)
  }

  /**
   * UserService.CreateUser: refuses a taken username, otherwise inserts a user
   * with the role defaulted, no invite tokens, the given credits and fresh ids.
   * `dbErr` is the database's answer to the insert.
   */
  method CreateUser(users: UserStore, params: CreateUserParams, now: int, dbErr: Option<string>) returns (r: Result<User>)
    requires users.Valid()
    modifies users
    ensures users.Valid()
    ensures old(users.DuplicateName(params.username)) ==> r == Err(ErrUsernameTaken) && users.rows == old(users.rows)
    ensures !old(users.DuplicateName(params.username)) && dbErr.Some? ==> r == Err(dbErr.value) && users.rows == old(users.rows)
    ensures r.Ok? <==> !old(users.DuplicateName(params.username)) && dbErr.None?
    ensures r.Ok? ==> users.rows == old(users.rows) + [r.value]
    ensures r.Ok? ==> r.value == NewUser(params, old(users.nextId), old(users.nextId) + 1, now)
    ensures r.Ok? ==> r.value.role == (if params.role == "" then RoleUser else params.role)
    ensures r.Ok? ==> r.value.inviteTokens == 0 && r.value.requestCredits == params.requestCredits
    ensures r.Ok? ==> r.value.id != r.value.jwtSessionId && FindUser(old(users.rows), r.value.id).None?
    ensures UniqueNames(old(users.rows)) ==> UniqueNames(users.rows)
  {
    if users.DuplicateName(params.username) {
      return Err(ErrUsernameTaken);
    }
    var id, session := users.FreshIds();
    var u := NewUser(params, id, session, now);
    var err := users.Insert(u, dbErr);
    if err.Some? {
      return Err(err.value);
    }
    r := Ok(u);
  }
}
