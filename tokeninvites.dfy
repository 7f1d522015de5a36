/**
 * The token-accounting variant of the invite repository: creating an invite
 * costs the inviter one invite token, revoking an open invite gives it back,
 * and a user registered through an invite starts with one token of their own.
 * It works on the same `invites` and `users` tables as the variant in module Invites.
 */
module TokenInvites {
  import opened Wrappers
  import opened Users
  import opened Hex
  import opened Invites

  const ErrNoInviteTokens: string := "no invite tokens available"

  /**
   * Column values of the registration insert that the statement leaves to the
   * database's defaults (`jwt_session_id`, `request_credits`).
   */
  const DefaultSession: int := 0
  const DefaultCredits: int := 0

  /** The user UseInvite registers: role "user" and one invite token. */
  function RegisteredUser(username: string, passwordHash: string, id: int, now: int): User
  {
    User(id, username, passwordHash, now, RoleUser, DefaultSession, DefaultCredits, 1)
  }

  /** The inviter's open invites. */
  function Outstanding(invites: seq<Invite>, inviter: int): (n: nat)
    ensures n <= |invites|
  {
    if invites == [] then 0
    else
      var last := invites[|invites| - 1];
      Outstanding(invites[..|invites| - 1], inviter) + (if last.inviterId == inviter && Usable(last) then 1 else 0)
  }

  /** A new row counts for its inviter exactly when it is open. */
  lemma OutstandingAppend(invites: seq<Invite>, v: Invite, inviter: int)
    ensures Outstanding(invites + [v], inviter) == Outstanding(invites, inviter) + (if v.inviterId == inviter && Usable(v) then 1 else 0)
  {
    assert (invites + [v])[..|invites|] == invites;
  }

  /** Revoking a token held by one of the inviter's open invites, and by no other row, takes one off the inviter's count. */
  lemma {:induction false} OutstandingRevoke(invites: seq<Invite>, token: string, now: int, k: nat)
    requires UniqueTokens(invites)
    requires k < |invites| && invites[k].token == token && Usable(invites[k])
    ensures Outstanding(RevokeWhere(invites, token, now), invites[k].inviterId) == Outstanding(invites, invites[k].inviterId) - 1
  {
    var n := |invites| - 1;
    var front := invites[..n];
    assert RevokeWhere(invites, token, now)[..n] == RevokeWhere(front, token, now);
    if k == n {
      assert forall i :: 0 <= i < n ==> front[i].token != token;
      assert RevokeWhere(front, token, now) == front;
    } else {
      assert UniqueTokens(front);
      assert invites[n].token != token;
      OutstandingRevoke(front, token, now, k);
    }
  }

  /**
   * CreateInvite: the inviter must have a positive token balance; a fresh open
   * invite is inserted and then one token deducted, as two separate writes: when
   * the deduction fails the invite stays and the error is returned. The returned
   * invite does not carry the row's id.
   */
  method CreateInvite(store: InviteStore, users: UserStore, inviterId: int, draws: seq<Result<seq<Byte>>>, now: int,
                      insertErr: Option<string>, deductErr: Option<string>)
    returns (r: Result<Invite>)
    requires store.Valid() && users.Valid()
    requires forall i :: 0 <= i < |draws| && draws[i].Ok? ==> |draws[i].value| == TokenBytes
    requires exists i :: 0 <= i < |draws| && Stops(store.invites, draws[i])
    modifies store, users
    ensures store.Valid() && users.Valid()
    ensures FindUser(old(users.rows), inviterId).None? ==> r == Err(ErrNoRows)
    ensures FindUser(old(users.rows), inviterId).Some? && TokensOf(old(users.rows), inviterId) <= 0 ==> r == Err(ErrNoInviteTokens)
    ensures r.Ok? <==>
              && FindUser(old(users.rows), inviterId).Some? && TokensOf(old(users.rows), inviterId) > 0
              && draws[FirstStop(old(store.invites), draws)].Ok? && insertErr.None? && deductErr.None?
    ensures r.Ok? ==>
              var row := Invite(old(store.nextId), EncodeToString(draws[FirstStop(old(store.invites), draws)].value), inviterId,
                                None, None, None, None, now);
              && store.invites == old(store.invites) + [row]
              && r.value == row.(id := 0)
              && users.rows == Adjust(old(users.rows), inviterId, 0, -1)
    ensures r.Ok? ==> TokensOf(users.rows, inviterId) + Outstanding(store.invites, inviterId)
                      == old(TokensOf(users.rows, inviterId) + Outstanding(store.invites, inviterId))
    ensures r.Err? && deductErr.Some? && |store.invites| > |old(store.invites)| ==>
              users.rows == old(users.rows)
              && Outstanding(store.invites, inviterId) == old(Outstanding(store.invites, inviterId)) + 1
    ensures |store.invites| == |old(store.invites)| ==> store.invites == old(store.invites) && users.rows == old(users.rows)
  {
    var found := FindUser(users.rows, inviterId);
    if found.None? {
      return Err(ErrNoRows);
    }
    if found.value.inviteTokens <= 0 {
      return Err(ErrNoInviteTokens);
    }
    var token := store.GenerateUniqueToken(draws);
    if token.Err? {
      return Err(token.msg);
    }
    var row := Invite(store.nextId, token.value, inviterId, None, None, None, None, now);
    var err := store.Insert(row, insertErr);
    if err.Some? {
      return Err(err.value);
    }
    OutstandingAppend(old(store.invites), row, inviterId);
    if deductErr.Some? {
      return Err(deductErr.value);
    }
    ReadAfterAdjust(users.rows, inviterId, 0, -1);
    users.AdjustUser(inviterId, 0, -1);
    r := Ok(row.(id := 0));
  }

  /**
   * UseInvite: for an open invite, registers the user with one invite token and
   * marks the invite used, in one transaction. A username counts as taken only
   * when its lookup succeeds: a failed lookup lets the registration go ahead.
   */
  method UseInvite(store: InviteStore, users: UserStore, token: string, username: string, passwordHash: string, now: int,
                   nameLookupErr: Option<string>, txErr: Option<string>)
    returns (err: Option<string>)
    requires store.Valid() && users.Valid()
    modifies store, users
    ensures store.Valid() && users.Valid()
    ensures Lookup(old(store.invites), token, Open).None? ==> err == Some(ErrNoRows)
    ensures Lookup(old(store.invites), token, Open).Some? && NameTaken(old(users.rows), username) && nameLookupErr.None? ==>
              err == Some(ErrUsernameTaken)
    ensures err.None? <==>
              && Lookup(old(store.invites), token, Open).Some?
              && (!NameTaken(old(users.rows), username) || nameLookupErr.Some?)
              && txErr.None?
    ensures err.Some? ==> store.invites == old(store.invites) && users.rows == old(users.rows)
    ensures err.None? ==>
              && users.rows == old(users.rows) + [RegisteredUser(username, passwordHash, old(users.nextId), now)]
              && store.invites == MarkUsed(old(store.invites), token, username, old(users.nextId), now)
              && Lookup(store.invites, token, Open).None?
    ensures nameLookupErr.None? && UniqueNames(old(users.rows)) ==> UniqueNames(users.rows)
  {
    if Lookup(store.invites, token, Open).None? {
      return Some(ErrNoRows);
    }
    if nameLookupErr.None? && NameTaken(users.rows, username) {
      return Some(ErrUsernameTaken);
    }
    if txErr.Some? {
      return txErr;
    }
    var id := users.FreshId();
    err := users.Insert(RegisteredUser(username, passwordHash, id, now), None);
    store.MarkUsedBy(token, username, id, now);
  }

  /**
   * RevokeInvite: the inviter's open invite is stamped revoked and one token is
   * returned to the inviter, in one transaction.
   */
  method RevokeInvite(store: InviteStore, users: UserStore, token: string, inviterId: int, now: int, txErr: Option<string>)
    returns (err: Option<string>)
    requires store.Valid() && users.Valid()
    modifies store, users
    ensures store.Valid() && users.Valid()
    ensures Lookup(old(store.invites), token, OpenOwnedBy(inviterId)).None? ==> err == Some(ErrNoRows)
    ensures err.None? <==> Lookup(old(store.invites), token, OpenOwnedBy(inviterId)).Some? && txErr.None?
    ensures err.Some? ==> store.invites == old(store.invites) && users.rows == old(users.rows)
    ensures err.None? ==>
              && store.invites == RevokeWhere(old(store.invites), token, now)
              && users.rows == Adjust(old(users.rows), inviterId, 0, 1)
              && Lookup(store.invites, token, Open).None?
    ensures err.None? && FindUser(old(users.rows), inviterId).Some? ==>
              TokensOf(users.rows, inviterId) + Outstanding(store.invites, inviterId)
              == old(TokensOf(users.rows, inviterId) + Outstanding(store.invites, inviterId))
  {
    if Lookup(store.invites, token, OpenOwnedBy(inviterId)).None? {
      return Some(ErrNoRows);
    }
    if txErr.Some? {
      return txErr;
    }
    var k :| 0 <= k < |store.invites| && Matches(store.invites[k], token, OpenOwnedBy(inviterId));
    OutstandingRevoke(store.invites, token, now, k);
    ReadAfterAdjust(users.rows, inviterId, 0, 1);
    store.Revoke(token, now);
    users.AdjustUser(inviterId, 0, 1);
    err := None;
  }
}
