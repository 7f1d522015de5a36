/**
 * Request credits: the balance column of `users` and the `request_credits_log`
 * table. Granting and using credits are transactions that change the balance
 * and append one log row together; a failure anywhere in the transaction
 * (`txErr`) rolls both back.
 */
module Credits {
  import opened Wrappers
  import opened GoStrings
  import opened Users

  const ActionGranted: string := "granted"
  const ActionUsed: string := "used"
  /** The reason UseCredits logs. */
  const UsedReason: string := "Download request beyond daily limit"

  /** A row of `request_credits_log`. */
  datatype CreditLog = CreditLog(
    id: int,
    userId: int,
    action: string,
    amount: int,
    reason: string,
    adminUserId: Option<int>,
    createdAt: int)

  /** The error UseCredits reports for a balance below the amount. */
  function InsufficientMsg(available: int, needed: int): string
  {
    "insufficient request credits: " + IntToString(available) + " available, " + IntToString(needed) + " needed"
  }

  /** The error UseCredits reports when the user's balance cannot be read. */
  const LookupFailedMsg: string := "failed to get user credits: " + ErrNoRows

  /** No balance is negative. */
  ghost predicate NonNegative(rows: seq<User>)
  {
    forall i :: 0 <= i < |rows| ==> rows[i].requestCredits >= 0
  }

  /**
   * Taking an amount from a user whose balance covers it, and adding an
   * amount no smaller than zero, keep every balance non-negative.
   */
  lemma {:induction false} AdjustKeepsNonNegative(rows: seq<User>, id: int, dc: int)
    requires NonNegative(rows) && DistinctIds(rows)
    requires dc >= 0 || (FindUser(rows, id).Some? && FindUser(rows, id).value.requestCredits + dc >= 0)
    ensures NonNegative(Adjust(rows, id, dc, 0))
  {
    if dc < 0 {
      forall i | 0 <= i < |rows| && rows[i].id == id
        ensures rows[i].requestCredits + dc >= 0
      {
        var k :| 0 <= k < |rows| && rows[k] == FindUser(rows, id).value;
        assert rows[k].id == id;
        assert k == i;
      }
    }
  }

  /** Taking a covered amount leaves the user's balance lower by the amount and keeps balances non-negative. */
  lemma {:induction false} DebitBalances(rows: seq<User>, userId: int, amount: int)
    requires DistinctIds(rows)
    requires FindUser(rows, userId).Some? && CreditsOf(rows, userId) >= amount
    ensures CreditsOf(Adjust(rows, userId, -amount, 0), userId) == CreditsOf(rows, userId) - amount >= 0
    ensures NonNegative(rows) ==> NonNegative(Adjust(rows, userId, -amount, 0))
  {
    ReadAfterAdjust(rows, userId, -amount, 0);
    if NonNegative(rows) {
      AdjustKeepsNonNegative(rows, userId, -amount);
    }
  }

  class CreditLedger {
    var log: seq<CreditLog>
    /** Source of fresh log ids (the snowflake generator). */
    var nextId: int

    ghost predicate Valid()
      reads this
    {
      forall i :: 0 <= i < |log| ==> log[i].id < nextId
    }

    constructor ()
      ensures Valid() && log == []
    {
      log := [];
      nextId := 1;
    }

    /** The log row a transaction at `now` would append. */
    function Entry(userId: int, action: string, amount: int, reason: string, admin: Option<int>, now: int): CreditLog
      reads this
    {
      CreditLog(nextId, userId, action, amount, reason, admin, now)
    }

    /** Appends one log row. */
    method Append(e: CreditLog)
      requires Valid() && e.id == nextId
      modifies this
      ensures Valid() && log == old(log) + [e] && nextId == old(nextId) + 1
    {
      log := log + [e];
      nextId := nextId + 1;
    }

    /** The committed effects of UseCredits on a balance that covers the amount. */
    method Debit(users: UserStore, userId: int, amount: int, now: int)
      requires Valid() && users.Valid()
      requires FindUser(users.rows, userId).Some? && CreditsOf(users.rows, userId) >= amount
      modifies this, users
      ensures Valid() && users.Valid()
      ensures users.rows == Adjust(old(users.rows), userId, -amount, 0)
      ensures log == old(log) + [old(Entry(userId, ActionUsed, amount, UsedReason, None, now))]
      ensures CreditsOf(users.rows, userId) == CreditsOf(old(users.rows), userId) - amount >= 0
      ensures NonNegative(old(users.rows)) ==> NonNegative(users.rows)
    {
      DebitBalances(users.rows, userId, amount);
      users.AdjustUser(userId, -amount, 0);
      Append(Entry(userId, ActionUsed, amount, UsedReason, None, now));
    }

    /**
     * GrantCredits: adds the amount to the user's balance and logs one "granted"
     * row carrying the admin, or, when the transaction fails, changes nothing.
     * An absent user is not an error: the update touches no row, the log row is written.
     */
    method GrantCredits(users: UserStore, userId: int, amount: int, reason: string, adminUserId: int, now: int,
                        txErr: Option<string>)
      returns (err: Option<string>)
      requires Valid() && users.Valid()
      modifies this, users
      ensures Valid() && users.Valid() && err == txErr
      ensures txErr.Some? ==> log == old(log) && users.rows == old(users.rows)
      ensures txErr.None? ==>
                && users.rows == Adjust(old(users.rows), userId, amount, 0)
                && log == old(log) + [old(Entry(userId, ActionGranted, amount, reason, Some(adminUserId), now))]
      ensures txErr.None? ==> CreditsOf(users.rows, userId) == CreditsOf(old(users.rows), userId) + (if FindUser(old(users.rows), userId).Some? then amount else 0)
      ensures txErr.None? && amount >= 0 && NonNegative(old(users.rows)) ==> NonNegative(users.rows)
    {
      err := txErr;
      if txErr.Some? {
        return;
      }
      ReadAfterAdjust(users.rows, userId, amount, 0);
      if amount >= 0 && NonNegative(users.rows) {
        AdjustKeepsNonNegative(users.rows, userId, amount);
      }
      users.AdjustUser(userId, amount, 0);
      Append(Entry(userId, ActionGranted, amount, reason, Some(adminUserId), now));
    }

    /**
     * UseCredits: fails for an absent user and for a balance below the amount,
     * changing nothing; otherwise takes the amount from the balance and logs one
     * "used" row, or, when the transaction fails, changes nothing.
     */
    method UseCredits(users: UserStore, userId: int, amount: int, now: int, txErr: Option<string>)
      returns (err: Option<string>)
      requires Valid() && users.Valid()
      modifies this, users
      ensures Valid() && users.Valid()
      ensures FindUser(old(users.rows), userId).None? ==> err == Some(LookupFailedMsg)
      ensures FindUser(old(users.rows), userId).Some? && CreditsOf(old(users.rows), userId) < amount ==>
                err == Some(InsufficientMsg(CreditsOf(old(users.rows), userId), amount))
      ensures err.None? <==> FindUser(old(users.rows), userId).Some? && CreditsOf(old(users.rows), userId) >= amount && txErr.None?
      ensures err.Some? ==> log == old(log) && users.rows == old(users.rows)
      ensures err.None? ==>
                && users.rows == Adjust(old(users.rows), userId, -amount, 0)
                && log == old(log) + [old(Entry(userId, ActionUsed, amount, UsedReason, None, now))]
                && CreditsOf(users.rows, userId) == CreditsOf(old(users.rows), userId) - amount
                && CreditsOf(users.rows, userId) >= 0
      ensures err.None? && NonNegative(old(users.rows)) ==> NonNegative(users.rows)
    {
      var found := FindUser(users.rows, userId);
      if found.None? {
        return Some(LookupFailedMsg);
      }
      var current := found.value.requestCredits;
      if current < amount {
        return Some(InsufficientMsg(current, amount));
      }
      if txErr.Some? {
        return txErr;
      }
      Debit(users, userId, amount, now);
      err := None;
    }
  }

  /** UpdateUserRequestCredits: adds a signed amount, with no bound check and no log row. */
  method UpdateUserRequestCredits(users: UserStore, userId: int, amount: int, dbErr: Option<string>)
    returns (err: Option<string>)
    requires users.Valid()
    modifies users
    ensures users.Valid() && err == dbErr
    ensures users.rows == if dbErr.None? then Adjust(old(users.rows), userId, amount, 0) else old(users.rows)
  {
    err := dbErr;
    if dbErr.None? {
      users.AdjustUser(userId, amount, 0);
    }
  }

  /** A use followed by a grant of the same amount gives the balances back. */
  lemma UseThenGrantRestores(rows: seq<User>, userId: int, amount: int)
    ensures Adjust(Adjust(rows, userId, -amount, 0), userId, amount, 0) == rows
  {
    AdjustInverse(rows, userId, -amount, 0);
  }

  /** GetAllUsersCredits: every user id mapped to its balance. */
  method GetAllUsersCredits(users: UserStore) returns (credits: map<int, int>)
    requires users.Valid()
    ensures credits.Keys == set i | 0 <= i < |users.rows| :: users.rows[i].id
    ensures forall i :: 0 <= i < |users.rows| ==> credits[users.rows[i].id] == users.rows[i].requestCredits
  {
    credits := map[];
    var k := 0;
    while k < |users.rows|
      invariant 0 <= k <= |users.rows|
      invariant credits.Keys == set i | 0 <= i < k :: users.rows[i].id
      invariant forall i :: 0 <= i < k ==> credits[users.rows[i].id] == users.rows[i].requestCredits
    {
      var u := users.rows[k];
      forall i | 0 <= i < k
        ensures users.rows[i].id != u.id
      {
        assert DistinctIds(users.rows);
      }
      credits := credits[u.id := u.requestCredits];
      k := k + 1;
    }
  }
}
