/**
 * Redemption codes: the `redemption_codes` and `redemption_log` tables, the
 * repository that creates, reads, redeems, revokes and deletes codes, and the
 * handler that lets a user redeem a code once.
 *
 * A redemption is one transaction: the code's use count, the log row and the
 * user's tokens and credits change together, or (`txErr`) nothing changes.
 */
module Redemption {
  import opened Wrappers
  import opened Users
  import Tables

  const CreateFailedPrefix: string := "failed to create redemption code: "
  const GetFailedPrefix: string := "failed to get redemption code: "
  const RevokeFailedPrefix: string := "failed to revoke redemption code: "
  const DeleteFailedPrefix: string := "failed to delete redemption code: "

  /** A row of `redemption_codes`. */
  datatype RedemptionCode = RedemptionCode(
    id: int,
    code: string,
    description: string,
    inviteTokens: int,
    requestCredits: int,
    maxUses: int,
    currentUses: int,
    expiresAt: Option<int>,
    revokedAt: Option<int>,
    createdBy: int,
    createdAt: int)

  /** A row of `redemption_log`. */
  datatype RedemptionLog = RedemptionLog(
    id: int,
    codeId: int,
    userId: int,
    redeemedAt: int,
    inviteTokensGranted: int,
    requestCreditsGranted: int)

  /** The admin's request for a new code. */
  datatype CreateCodeRequest = CreateCodeRequest(
    code: string,
    description: string,
    inviteTokens: int,
    requestCredits: int,
    maxUses: int,
    expiresAt: Option<int>)

  /** `UPDATE redemption_codes SET current_uses = current_uses + 1 WHERE id = $1`. */
  function BumpUses(codes: seq<RedemptionCode>, id: int): (r: seq<RedemptionCode>)
  {
    seq(|codes|, i requires 0 <= i < |codes| =>
      if codes[i].id == id then codes[i].(currentUses := codes[i].currentUses + 1) else codes[i])
  }

  /** `UPDATE redemption_codes SET revoked_at = $1 WHERE id = $2`. */
  function RevokeWhere(codes: seq<RedemptionCode>, id: int, now: int): (r: seq<RedemptionCode>)
  {
    seq(|codes|, i requires 0 <= i < |codes| =>
      if codes[i].id == id then codes[i].(revokedAt := Some(now)) else codes[i])
  }

  /** The code row a `SELECT … WHERE code = $1` returns: the first one with that code. */
  function FindCode(codes: seq<RedemptionCode>, code: string): (r: Option<RedemptionCode>)
    ensures r.Some? <==> exists i :: 0 <= i < |codes| && codes[i].code == code
    ensures r.Some? ==> r.value in codes && r.value.code == code
  {
    if codes == [] then None
    else if codes[0].code == code then Some(codes[0])
    else
      assert forall i :: 1 <= i < |codes| ==> codes[i] == codes[1..][i - 1];
      FindCode(codes[1..], code)
  }

  /** Whether a (code, user) pair is in the log. */
  predicate RedeemedBy(log: seq<RedemptionLog>, codeId: int, userId: int)
  {
    exists i :: 0 <= i < |log| && log[i].codeId == codeId && log[i].userId == userId
  }

  /** An amount that is added to a user only when it is positive. */
  function Positive(n: int): (r: nat)
    ensures r == 0 || r == n
    ensures r > 0 <==> n > 0
  {
    if n > 0 then n else 0
  }

  /** The key of the id column. */
  function CodeId(c: RedemptionCode): int
  {
    c.id
  }

  /** The rows a `DELETE FROM redemption_codes WHERE id = $1` keeps. */
  function OtherCode(codeId: int): RedemptionCode -> bool
  {
    (c: RedemptionCode) => c.id != codeId
  }

  /** No two code rows share an id. */
  ghost predicate DistinctCodeIds(codes: seq<RedemptionCode>)
  {
    Tables.DistinctKeys(codes, CodeId)
  }

  /** No code has been used more often than it allows (a code never used may have any limit). */
  ghost predicate UsesWithinMax(codes: seq<RedemptionCode>)
  {
    forall i :: 0 <= i < |codes| ==> codes[i].currentUses <= codes[i].maxUses || codes[i].currentUses == 0
  }

  /** No user appears twice in the log for one code. */
  ghost predicate OncePerUser(log: seq<RedemptionLog>)
  {
    forall i, j :: 0 <= i < j < |log| ==> (log[i].codeId, log[i].userId) != (log[j].codeId, log[j].userId)
  }

  /** A use counted on a code that was below its limit keeps every code within its limit. */
  lemma {:induction false} BumpKeepsWithinMax(codes: seq<RedemptionCode>, k: nat)
    requires UsesWithinMax(codes) && DistinctCodeIds(codes)
    requires k < |codes| && codes[k].currentUses < codes[k].maxUses
    ensures UsesWithinMax(BumpUses(codes, codes[k].id))
  {
    var r := BumpUses(codes, codes[k].id);
    forall i | 0 <= i < |codes|
      ensures r[i].currentUses <= r[i].maxUses || r[i].currentUses == 0
    {
      if codes[i].id == codes[k].id {
        assert i == k;
      }
    }
  }

  /** A log row for a pair not yet in the log keeps the pairs unique. */
  lemma AppendKeepsOncePerUser(log: seq<RedemptionLog>, e: RedemptionLog)
    requires OncePerUser(log) && !RedeemedBy(log, e.codeId, e.userId)
    ensures OncePerUser(log + [e])
  {
    var l := log + [e];
    forall i, j | 0 <= i < j < |l|
      ensures (l[i].codeId, l[i].userId) != (l[j].codeId, l[j].userId)
    {
      if j == |log| {
        assert l[i] == log[i];
      }
    }
  }

  class CodeStore {
    var codes: seq<RedemptionCode>
    var log: seq<RedemptionLog>
    /** Source of fresh row ids (the snowflake generator). */
    var nextId: int

    ghost predicate Valid()
      reads this
    {
      && (forall i :: 0 <= i < |codes| ==> codes[i].id < nextId)
      && (forall i :: 0 <= i < |log| ==> log[i].id < nextId)
      && DistinctCodeIds(codes)
    }

    constructor ()
      ensures Valid() && codes == [] && log == []
    {
      codes := [];
      log := [];
      nextId := 1;
    }

    /**
     * CreateRedemptionCode: a code with a fresh id, no uses, not revoked,
     * stamped `now`, and every other field taken from the request.
     */
    method CreateRedemptionCode(req: CreateCodeRequest, createdBy: int, now: int, dbErr: Option<string>)
      returns (r: Result<RedemptionCode>)
      requires Valid()
      modifies this
      ensures Valid() && log == old(log)
      ensures dbErr.Some? ==> r == Err(CreateFailedPrefix + dbErr.value) && codes == old(codes)
      ensures dbErr.None? ==> r.Ok? && codes == old(codes) + [r.value]
      ensures r.Ok? ==> && r.value.currentUses == 0 && r.value.revokedAt.None?
                        && r.value.code == req.code && r.value.description == req.description
                        && r.value.inviteTokens == req.inviteTokens && r.value.requestCredits == req.requestCredits
                        && r.value.maxUses == req.maxUses && r.value.expiresAt == req.expiresAt
                        && r.value.createdBy == createdBy && r.value.createdAt == now
                        && r.value.id == old(nextId)
      ensures UsesWithinMax(old(codes)) ==> UsesWithinMax(codes)
    {
      var c := RedemptionCode(nextId, req.code, req.description, req.inviteTokens, req.requestCredits, req.maxUses, 0,
                              req.expiresAt, None, createdBy, now);
      nextId := nextId + 1;
      if dbErr.Some? {
        return Err(CreateFailedPrefix + dbErr.value);
      }
      codes := codes + [c];
      r := Ok(c);
    }

    /** GetRedemptionCodeByCode: the code, or an error (never "no code and no error"). */
    function GetRedemptionCodeByCode(code: string): (r: Result<RedemptionCode>)
      reads this
      ensures r.Ok? <==> exists i :: 0 <= i < |codes| && codes[i].code == code
      ensures r.Ok? ==> r.value in codes && r.value.code == code
      ensures r.Err? ==> r.msg == GetFailedPrefix + ErrNoRows
    {
      match FindCode(codes, code)
      case Some(c) => Ok(c)
      case None => Err(GetFailedPrefix + ErrNoRows)
    }

    /** IsCodeRedeemedByUser */
    predicate IsCodeRedeemedByUser(codeId: int, userId: int)
      reads this
    {
      RedeemedBy(log, codeId, userId)
    }

    /** The log row a redemption at `now` would append. */
    function LogEntry(codeId: int, userId: int, inviteTokens: int, requestCredits: int, now: int): RedemptionLog
      reads this
    {
      RedemptionLog(nextId, codeId, userId, now, inviteTokens, requestCredits)
    }

    /**
     * RedeemCode: one more use of the code, one log row with the granted
     * amounts, and the user's tokens and credits raised by the amounts that are
     * positive; or, when the transaction fails, nothing.
     */
    method RedeemCode(users: UserStore, codeId: int, userId: int, inviteTokens: int, requestCredits: int, now: int,
                      txErr: Option<string>)
      returns (err: Option<string>)
      requires Valid() && users.Valid()
      modifies this, users
      ensures Valid() && users.Valid() && err == txErr
      ensures txErr.Some? ==> codes == old(codes) && log == old(log) && users.rows == old(users.rows)
      ensures txErr.None? ==>
                && codes == BumpUses(old(codes), codeId)
                && log == old(log) + [old(LogEntry(codeId, userId, inviteTokens, requestCredits, now))]
                && users.rows == Adjust(old(users.rows), userId, Positive(requestCredits), Positive(inviteTokens))
      ensures txErr.None? && FindUser(old(users.rows), userId).Some? ==>
                && TokensOf(users.rows, userId) == TokensOf(old(users.rows), userId) + Positive(inviteTokens)
                && CreditsOf(users.rows, userId) == CreditsOf(old(users.rows), userId) + Positive(requestCredits)
    {
      err := txErr;
      if txErr.Some? {
        return;
      }
      var e := LogEntry(codeId, userId, inviteTokens, requestCredits, now);
      codes := BumpUses(codes, codeId);
      log := log + [e];
      nextId := nextId + 1;
      ReadAfterAdjust(users.rows, userId, Positive(requestCredits), Positive(inviteTokens));
      users.AdjustUser(userId, Positive(requestCredits), Positive(inviteTokens));
    }

    /** RevokeRedemptionCode: stamps `revoked_at` with now, over any earlier value. */
    method RevokeRedemptionCode(codeId: int, now: int, dbErr: Option<string>) returns (err: Option<string>)
      requires Valid()
      modifies this
      ensures Valid() && log == old(log)
      ensures err == if dbErr.None? then None else Some(RevokeFailedPrefix + dbErr.value)
      ensures codes == if dbErr.None? then RevokeWhere(old(codes), codeId, now) else old(codes)
      ensures dbErr.None? ==> forall i :: 0 <= i < |codes| && codes[i].id == codeId ==> codes[i].revokedAt == Some(now)
    {
      if dbErr.Some? {
        return Some(RevokeFailedPrefix + dbErr.value);
      }
      codes := RevokeWhere(codes, codeId, now);
      err := None;
    }

    /** DeleteRedemptionCode: removes the code, keeping the order of the others; its log rows stay. */
    method DeleteRedemptionCode(codeId: int, dbErr: Option<string>) returns (err: Option<string>)
      requires Valid()
      modifies this
      ensures Valid() && log == old(log)
      ensures err == if dbErr.None? then None else Some(DeleteFailedPrefix + dbErr.value)
      ensures codes == if dbErr.None? then Tables.Filter(old(codes), OtherCode(codeId)) else old(codes)
      ensures dbErr.None? ==> forall c :: c in codes <==> c in old(codes) && c.id != codeId
    {
      if dbErr.Some? {
        return Some(DeleteFailedPrefix + dbErr.value);
      }
      codes := Tables.Filter(codes, OtherCode(codeId));
      Tables.FilterKeepsDistinct(old(codes), CodeId, OtherCode(codeId));
      err := None;
    }
  }

  /** The answers of the redeem endpoint. */
  datatype RedeemReply =
    | Unauthorized       // 401
    | InternalError      // 500
    | Revoked            // 400, "this redemption code has been revoked"
    | Expired            // 400, "this redemption code has expired"
    | Exhausted          // 400, "this redemption code has reached its maximum uses"
    | AlreadyRedeemed    // 400, "you have already redeemed this code"
    | Redeemed(inviteTokens: int, requestCredits: int, newInviteTokens: int, newRequestCredits: int) // 200

  /** The guard chain over a code the user asks to redeem, in the handler's order; None lets the redemption go ahead. */
  function Verdict(c: RedemptionCode, alreadyRedeemed: bool, now: int): Option<RedeemReply>
  {
    if c.revokedAt.Some? then Some(Revoked)
    else if c.expiresAt.Some? && c.expiresAt.value < now then Some(Expired)
    else if c.currentUses >= c.maxUses then Some(Exhausted)
    else if alreadyRedeemed then Some(AlreadyRedeemed)
    else None
  }

  /**
   * A code is redeemed exactly when it is not revoked, not past its expiry
   * (a code expiring at this very second still counts), below its use limit
   * and new to the user; and a revoked code is refused as revoked, whatever else holds.
   */
  lemma VerdictMeaning(c: RedemptionCode, alreadyRedeemed: bool, now: int)
    ensures Verdict(c, alreadyRedeemed, now).None? <==>
              && c.revokedAt.None?
              && (c.expiresAt.None? || c.expiresAt.value >= now)
              && c.currentUses < c.maxUses
              && !alreadyRedeemed
    ensures c.revokedAt.Some? ==> Verdict(c, alreadyRedeemed, now) == Some(Revoked)
    ensures c.revokedAt.None? && c.expiresAt == Some(now) && c.currentUses < c.maxUses && !alreadyRedeemed
            ==> Verdict(c, alreadyRedeemed, now).None?
    ensures Verdict(c, alreadyRedeemed, now).Some? ==> Verdict(c, alreadyRedeemed, now).value in {Revoked, Expired, Exhausted, AlreadyRedeemed}
  {
  }

  /**
   * HandleRedeemCode: looks the code up (any failure is a 500), applies the
   * guard chain, and redeems the code with its own reward amounts, answering
   * with those amounts and the user's new totals (zero for a user no longer present).
   */
  method HandleRedeemCode(store: CodeStore, users: UserStore, caller: Option<int>, code: string, now: int,
                          txErr: Option<string>)
    returns (reply: RedeemReply)
    requires store.Valid() && users.Valid()
    modifies store, users
    ensures store.Valid() && users.Valid()
    ensures caller.None? ==> reply == Unauthorized
    ensures caller.Some? && old(store.GetRedemptionCodeByCode(code)).Err? ==> reply == InternalError
    ensures reply.Redeemed? <==>
              && caller.Some? && old(store.GetRedemptionCodeByCode(code)).Ok?
              && Verdict(old(store.GetRedemptionCodeByCode(code)).value,
                         RedeemedBy(old(store.log), old(store.GetRedemptionCodeByCode(code)).value.id, caller.value), now).None?
              && txErr.None?
    ensures !reply.Redeemed? ==> store.codes == old(store.codes) && store.log == old(store.log) && users.rows == old(users.rows)
    ensures reply.Redeemed? ==>
              var c := old(store.GetRedemptionCodeByCode(code)).value;
              && store.codes == BumpUses(old(store.codes), c.id)
              && store.log == old(store.log) + [old(store.LogEntry(c.id, caller.value, c.inviteTokens, c.requestCredits, now))]
              && users.rows == Adjust(old(users.rows), caller.value, Positive(c.requestCredits), Positive(c.inviteTokens))
              && reply == Redeemed(c.inviteTokens, c.requestCredits, TokensOf(users.rows, caller.value), CreditsOf(users.rows, caller.value))
    ensures UsesWithinMax(old(store.codes)) ==> UsesWithinMax(store.codes)
    ensures OncePerUser(old(store.log)) ==> OncePerUser(store.log)
  {
    if caller.None? {
      return Unauthorized;
    }
    var userId := caller.value;
    var lookup := store.GetRedemptionCodeByCode(code);
    if lookup.Err? {
      return InternalError;
    }
    var c := lookup.value;
    var verdict := Verdict(c, store.IsCodeRedeemedByUser(c.id, userId), now);
    if verdict.Some? {
      return verdict.value;
    }
    ghost var k :| 0 <= k < |store.codes| && store.codes[k] == c;
    if UsesWithinMax(store.codes) {
      BumpKeepsWithinMax(store.codes, k);
    }
    if OncePerUser(store.log) {
      AppendKeepsOncePerUser(store.log, store.LogEntry(c.id, userId, c.inviteTokens, c.requestCredits, now));
    }
    var err := store.RedeemCode(users, c.id, userId, c.inviteTokens, c.requestCredits, now, txErr);
    if err.Some? {
      return InternalError;
    }
    reply := Redeemed(c.inviteTokens, c.requestCredits, TokensOf(users.rows, userId), CreditsOf(users.rows, userId));
  }
}
