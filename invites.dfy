/**
 * The `invites` table and the invite repository wired into the server: an
 * invite carries a random 64-digit token, is created without any token
 * accounting, is used once to register a new account, and can be revoked by
 * its inviter while unused.
 */
module Invites {
  import opened Wrappers
  import opened Users
  import opened Hex
  import Tables

  /** The number of random bytes in a token. */
  const TokenBytes: nat := 32

  /** A row of `invites`. */
  datatype Invite = Invite(
    id: int,
    token: string,
    inviterId: int,
    inviteeUsername: Option<string>,
    inviteeId: Option<int>,
    usedAt: Option<int>,
    revokedAt: Option<int>,
    createdAt: int)

  /** Neither used nor revoked. */
  predicate Usable(v: Invite)
  {
    v.usedAt.None? && v.revokedAt.None?
  }

  /** The three `WHERE` clauses the repository reads invites by, after `token = $1`. */
  datatype Query =
    | Unrevoked                 // AND revoked_at IS NULL
    | Open                      // AND revoked_at IS NULL AND used_at IS NULL
    | OpenOwnedBy(inviter: int) // AND inviter_id = $2 AND revoked_at IS NULL AND used_at IS NULL

  predicate Matches(v: Invite, token: string, q: Query)
  {
    v.token == token &&
    match q
    case Unrevoked => v.revokedAt.None?
    case Open => Usable(v)
    case OpenOwnedBy(inviter) => Usable(v) && v.inviterId == inviter
  }

  /** The first row the query selects, if any. */
  function Lookup(invites: seq<Invite>, token: string, q: Query): (r: Option<Invite>)
    ensures r.Some? <==> exists i :: 0 <= i < |invites| && Matches(invites[i], token, q)
    ensures r.Some? ==> r.value in invites && Matches(r.value, token, q)
  {
    if invites == [] then None
    else if Matches(invites[0], token, q) then Some(invites[0])
    else
      assert forall i :: 1 <= i < |invites| ==> invites[i] == invites[1..][i - 1];
      Lookup(invites[1..], token, q)
  }

  /** Some row holds the token. */
  predicate TokenInUse(invites: seq<Invite>, token: string)
  {
    exists i :: 0 <= i < |invites| && invites[i].token == token
  }

  /** No two rows share a token. */
  ghost predicate UniqueTokens(invites: seq<Invite>)
  {
    forall i, j :: 0 <= i < j < |invites| ==> invites[i].token != invites[j].token
  }

  /** `UPDATE invites SET invitee_username = $1, invitee_id = $2, used_at = $3 WHERE token = $4`. */
  function MarkUsed(invites: seq<Invite>, token: string, username: string, inviteeId: int, now: int): (r: seq<Invite>)
  {
    seq(|invites|, i requires 0 <= i < |invites| =>
      if invites[i].token == token
      then invites[i].(inviteeUsername := Some(username), inviteeId := Some(inviteeId), usedAt := Some(now))
      else invites[i])
  }

  /** `UPDATE invites SET revoked_at = $1 WHERE token = $2`. */
  function RevokeWhere(invites: seq<Invite>, token: string, now: int): (r: seq<Invite>)
  {
    seq(|invites|, i requires 0 <= i < |invites| =>
      if invites[i].token == token then invites[i].(revokedAt := Some(now)) else invites[i])
  }

  /** After either update no row with the token is open any more, for anyone. */
  lemma {:induction false} ClosedAfterUpdate(invites: seq<Invite>, token: string, username: string, inviteeId: int, now: int, q: Query)
    requires q != Unrevoked
    ensures Lookup(MarkUsed(invites, token, username, inviteeId, now), token, q).None?
    ensures Lookup(RevokeWhere(invites, token, now), token, q).None?
  {
    var used := MarkUsed(invites, token, username, inviteeId, now);
    var revoked := RevokeWhere(invites, token, now);
    forall i | 0 <= i < |invites| ensures !Matches(used[i], token, q) && !Matches(revoked[i], token, q) {
    }
  }

  /** Neither update touches a row with another token, and both keep the tokens. */
  lemma UpdatesKeepTokens(invites: seq<Invite>, token: string, username: string, inviteeId: int, now: int)
    ensures forall i :: 0 <= i < |invites| ==> MarkUsed(invites, token, username, inviteeId, now)[i].token == invites[i].token
    ensures forall i :: 0 <= i < |invites| ==> RevokeWhere(invites, token, now)[i].token == invites[i].token
    ensures forall i :: 0 <= i < |invites| && invites[i].token != token ==>
              MarkUsed(invites, token, username, inviteeId, now)[i] == invites[i] && RevokeWhere(invites, token, now)[i] == invites[i]
  {
  }

  /** The order key of `ORDER BY created_at DESC`. */
  function CreatedAt(v: Invite): int
  {
    v.createdAt
  }

  /** The user UseInvite registers. */
  function InvitedUser(username: string, passwordHash: string, id: int, session: int, now: int): User
  {
    User(id, username, passwordHash, now, RoleUser, session, 0, 0)
  }

  /** Whether a random draw ends the token loop: a failed read, or a token no row holds. */
  predicate Stops(invites: seq<Invite>, draw: Result<seq<Byte>>)
  {
    draw.Err? || !TokenInUse(invites, EncodeToString(draw.value))
  }

  /** The index of the first draw that ends the loop. */
  function FirstStop(invites: seq<Invite>, draws: seq<Result<seq<Byte>>>): (k: nat)
    requires exists i :: 0 <= i < |draws| && Stops(invites, draws[i])
    ensures k < |draws| && Stops(invites, draws[k])
    ensures forall i :: 0 <= i < k ==> !Stops(invites, draws[i])
  {
    if Stops(invites, draws[0]) then 0
    else
      var i :| 0 <= i < |draws| && Stops(invites, draws[i]);
      assert draws[1..][i - 1] == draws[i];
      1 + FirstStop(invites, draws[1..])
  }

  class InviteStore {
    var invites: seq<Invite>
    /** Source of fresh row ids (the snowflake generator). */
    var nextId: int

    ghost predicate Valid()
      reads this
    {
      && (forall i :: 0 <= i < |invites| ==> invites[i].id < nextId)
      && UniqueTokens(invites)
    }

    constructor ()
      ensures Valid() && invites == []
    {
      invites := [];
      nextId := 1;
    }

    /**
     * generateUniqueToken: hex-encodes successive 32-byte random draws until one
     * gives a token no invite holds, or a read fails. `draws` are the results of
     * the successive reads; the loop ends within them.
     */
    method GenerateUniqueToken(draws: seq<Result<seq<Byte>>>) returns (r: Result<string>)
      requires forall i :: 0 <= i < |draws| && draws[i].Ok? ==> |draws[i].value| == TokenBytes
      requires exists i :: 0 <= i < |draws| && Stops(invites, draws[i])
      ensures var k := FirstStop(invites, draws);
              r == if draws[k].Err? then Err(draws[k].msg) else Ok(EncodeToString(draws[k].value))
      ensures r.Ok? ==> |r.value| == 2 * TokenBytes && IsLowerHex(r.value) && !TokenInUse(invites, r.value)
    {
      var k := 0;
      while true
        invariant 0 <= k <= FirstStop(invites, draws)
        decreases FirstStop(invites, draws) - k
      {
        var draw := draws[k];
        if draw.Err? {
          return Err(draw.msg);
        }
        var token := EncodeToString(draw.value);
        if !TokenInUse(invites, token) {
          EncodeIsLowerHex(draw.value);
          return Ok(token);
        }
        k := k + 1;
      }
    }

    /** GetInviteByToken: the unrevoked invite with the token (a used one included), or `sql.ErrNoRows`. */
    function GetInviteByToken(token: string): (r: Result<Invite>)
      reads this
      ensures r.Ok? <==> exists i :: 0 <= i < |invites| && invites[i].token == token && invites[i].revokedAt.None?
      ensures r.Ok? ==> r.value in invites && r.value.token == token && r.value.revokedAt.None?
      ensures r.Err? ==> r.msg == ErrNoRows
    {
      match Lookup(invites, token, Unrevoked)
      case Some(v) => Ok(v)
      case None => Err(ErrNoRows)
    }

    /** Inserts an invite whose id and token are fresh. */
    method Insert(v: Invite, dbErr: Option<string>) returns (err: Option<string>)
      requires Valid() && v.id == nextId && !TokenInUse(invites, v.token)
      modifies this
      ensures Valid() && nextId == old(nextId) + 1 && err == dbErr
      ensures invites == if dbErr.None? then old(invites) + [v] else old(invites)
    {
      nextId := nextId + 1;
      err := dbErr;
      if dbErr.None? {
        invites := invites + [v];
      }
    }

    /** Stamps the rows holding the token revoked. */
    method Revoke(token: string, now: int)
      requires Valid()
      modifies this
      ensures Valid() && nextId == old(nextId)
      ensures invites == RevokeWhere(old(invites), token, now)
      ensures Lookup(invites, token, Open).None?
    {
      UpdatesKeepTokens(invites, token, "", 0, now);
      ClosedAfterUpdate(invites, token, "", 0, now, Open);
      invites := RevokeWhere(invites, token, now);
    }

    /** Marks the rows holding the token used by the invitee. */
    method MarkUsedBy(token: string, username: string, inviteeId: int, now: int)
      requires Valid()
      modifies this
      ensures Valid() && nextId == old(nextId)
      ensures invites == MarkUsed(old(invites), token, username, inviteeId, now)
      ensures Lookup(invites, token, Open).None?
    {
      UpdatesKeepTokens(invites, token, username, inviteeId, now);
      ClosedAfterUpdate(invites, token, username, inviteeId, now, Open);
      invites := MarkUsed(invites, token, username, inviteeId, now);
    }

    /**
     * CreateInvite: no token check; a fresh invite of the inviter, open, with a
     * token no other invite holds, or the error of the token loop or the insert.
     */
    method CreateInvite(inviterId: int, draws: seq<Result<seq<Byte>>>, now: int, dbErr: Option<string>)
      returns (r: Result<Invite>)
      requires Valid()
      requires forall i :: 0 <= i < |draws| && draws[i].Ok? ==> |draws[i].value| == TokenBytes
      requires exists i :: 0 <= i < |draws| && Stops(invites, draws[i])
      modifies this
      ensures Valid()
      ensures draws[FirstStop(old(invites), draws)].Err? ==>
                r == Err(draws[FirstStop(old(invites), draws)].msg) && invites == old(invites)
      ensures draws[FirstStop(old(invites), draws)].Ok? && dbErr.Some? ==> r == Err(dbErr.value) && invites == old(invites)
      ensures r.Ok? <==> draws[FirstStop(old(invites), draws)].Ok? && dbErr.None?
      ensures r.Ok? ==>
                && invites == old(invites) + [r.value]
                && r.value == Invite(old(nextId), EncodeToString(draws[FirstStop(old(invites), draws)].value), inviterId,
                                     None, None, None, None, now)
                && Usable(r.value) && |r.value.token| == 2 * TokenBytes && !TokenInUse(old(invites), r.value.token)
    {
      var token := GenerateUniqueToken(draws);
      if token.Err? {
        return Err(token.msg);
      }
      var v := Invite(nextId, token.value, inviterId, None, None, None, None, now);
      var err := Insert(v, dbErr);
      if err.Some? {
        return Err(err.value);
      }
      r := Ok(v);
    }

    /**
     * UseInvite: for an open invite and a free username, registers a user with
     * role "user", no tokens and no credits, and marks the invite used by that
     * user, all in one transaction; otherwise (or when the transaction fails)
     * nothing changes.
     */
    method UseInvite(users: UserStore, token: string, username: string, passwordHash: string, now: int,
                     txErr: Option<string>)
      returns (err: Option<string>)
      requires Valid() && users.Valid()
      modifies this, users
      ensures Valid() && users.Valid()
      ensures Lookup(old(invites), token, Open).None? ==> err == Some(ErrNoRows)
      ensures Lookup(old(invites), token, Open).Some? && NameTaken(old(users.rows), username) ==> err == Some(ErrUsernameTaken)
      ensures err.None? <==> Lookup(old(invites), token, Open).Some? && !NameTaken(old(users.rows), username) && txErr.None?
      ensures err.Some? ==> invites == old(invites) && users.rows == old(users.rows)
      ensures err.None? ==>
                && users.rows == old(users.rows) + [InvitedUser(username, passwordHash, old(users.nextId), old(users.nextId) + 1, now)]
                && invites == MarkUsed(old(invites), token, username, old(users.nextId), now)
                && Lookup(invites, token, Open).None?
      ensures UniqueNames(old(users.rows)) ==> UniqueNames(users.rows)
    {
      if Lookup(invites, token, Open).None? {
        return Some(ErrNoRows);
      }
      if NameTaken(users.rows, username) {
        return Some(ErrUsernameTaken);
      }
      if txErr.Some? {
        return txErr;
      }
      var id, session := users.FreshIds();
      var u := InvitedUser(username, passwordHash, id, session, now);
      err := users.Insert(u, None);
      MarkUsedBy(token, username, id, now);
    }

    /**
     * RevokeInvite: the inviter's open invite is stamped revoked; no token goes
     * back to the inviter, since the user table is not touched.
     */
    method RevokeInvite(token: string, inviterId: int, now: int, txErr: Option<string>) returns (err: Option<string>)
      requires Valid()
      modifies this
      ensures Valid()
      ensures Lookup(old(invites), token, OpenOwnedBy(inviterId)).None? ==> err == Some(ErrNoRows)
      ensures err.None? <==> Lookup(old(invites), token, OpenOwnedBy(inviterId)).Some? && txErr.None?
      ensures err.Some? ==> invites == old(invites)
      ensures err.None? ==> invites == RevokeWhere(old(invites), token, now) && Lookup(invites, token, Open).None?
    {
      if Lookup(invites, token, OpenOwnedBy(inviterId)).None? {
        return Some(ErrNoRows);
      }
      if txErr.Some? {
        return txErr;
      }
      Revoke(token, now);
      err := None;
    }

    /** GetUserInvites: the inviter's invites, newest first. */
    function GetUserInvites(userId: int): (r: seq<Invite>)
      reads this
      ensures Tables.SortedDesc(r, CreatedAt)
      ensures forall v :: v in r <==> v in invites && v.inviterId == userId
      ensures multiset(r) == multiset(Tables.Filter(invites, (v: Invite) => v.inviterId == userId))
    {
      var mine := Tables.Filter(invites, (v: Invite) => v.inviterId == userId);
      var r := Tables.SortDesc(mine, CreatedAt);
      assert forall v :: v in r <==> v in mine by {
        forall v ensures v in r <==> v in mine {
          calc {
            v in r;
            v in multiset(r);
            v in multiset(mine);
            v in mine;
          }
        }
      }
      r
    }
  }
}
