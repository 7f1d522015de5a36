/**
 * The toast notification list of the web client: each added notification gets
 * an id from a counter that only grows, a display duration (5 seconds unless
 * the caller gives one, none for errors), and a dismissal timer when its
 * duration is positive.
 *
 * The timers themselves are not run: the store records which ones were
 * scheduled, and a timer firing is a call to `RemoveNotification`.
 */
module Notifications {
  import opened Wrappers
  import opened GoStrings
  import Tables

  datatype Kind = Success | Error | Warning | Info

  /** A notification as the caller describes it; a `None` duration is one the caller left out. */
  datatype NotificationInput = NotificationInput(kind: Kind, title: string, message: Option<string>, duration: Option<int>)

  datatype Notification = Notification(id: string, kind: Kind, title: string, message: Option<string>, duration: int)

  /** A scheduled dismissal of the notification with that id after that many milliseconds. */
  datatype Timer = Timer(id: string, delay: int)

  const DefaultDuration: int := 5000
  const IdPrefix: string := "notification-"

  /** The id handed out for counter value `k`. */
  function IdFor(k: nat): (r: string)
    ensures |r| > |IdPrefix| && r[..|IdPrefix|] == IdPrefix
  {
    IdPrefix + NatToString(k)
  }

  /** Different counter values give different ids. */
  lemma IdsDiffer(a: nat, b: nat)
    requires a != b
    ensures IdFor(a) != IdFor(b)
  {
    if IdFor(a) == IdFor(b) {
      assert IdFor(a)[|IdPrefix|..] == NatToString(a);
      assert IdFor(b)[|IdPrefix|..] == NatToString(b);
      NatToStringInjective(a, b);
      assert false;
    }
  }

  /** The caller's duration, or the default when the caller gave none. */
  function DurationOf(input: NotificationInput): (d: int)
    ensures input.duration.Some? ==> d == input.duration.value
    ensures input.duration.None? ==> d == DefaultDuration
  {
    if input.duration.Some? then input.duration.value else DefaultDuration
  }

  /** No notification id occurs twice. */
  ghost predicate DistinctIds(notes: seq<Notification>)
  {
    forall i, j :: 0 <= i < j < |notes| ==> notes[i].id != notes[j].id
  }

  class NotificationCenter {
    var notifications: seq<Notification>
    /** The module-level counter; it never goes back, even when the list is cleared. */
    var counter: nat
    var timers: seq<Timer>

    /** Every listed id was handed out from a counter value below the current one. */
    ghost predicate Valid()
      reads this
    {
      forall i :: 0 <= i < |notifications| ==> exists k: nat :: k < counter && notifications[i].id == IdFor(k)
    }

    constructor ()
      ensures Valid() && notifications == [] && counter == 0 && timers == []
    {
      notifications := [];
      counter := 0;
      timers := [];
    }

    /**
     * addNotification: the next id, the notification appended at the end with
     * its duration, and a dismissal timer when that duration is positive.
     */
    method AddNotification(input: NotificationInput) returns (id: string)
      requires Valid()
      modifies this
      ensures Valid()
      ensures id == IdFor(old(counter)) && counter == old(counter) + 1
      ensures notifications == old(notifications)
                               + [Notification(id, input.kind, input.title, input.message, DurationOf(input))]
      ensures timers == old(timers) + (if DurationOf(input) > 0 then [Timer(id, DurationOf(input))] else [])
      ensures forall i :: 0 <= i < |old(notifications)| ==> old(notifications)[i].id != id
      ensures DistinctIds(old(notifications)) ==> DistinctIds(notifications)
    {
      id := IdFor(counter);
      forall i | 0 <= i < |notifications|
        ensures notifications[i].id != id
      {
        var k: nat :| k < counter && notifications[i].id == IdFor(k);
        IdsDiffer(k, counter);
      }
      counter := counter + 1;
      var duration := if input.duration.Some? then input.duration.value else DefaultDuration;
      var note := Notification(id, input.kind, input.title, input.message, duration);
      notifications := notifications + [note];
      if duration > 0 {
        timers := timers + [Timer(id, duration)];
      }
      assert notifications[|notifications| - 1].id == IdFor(counter - 1);
    }

    /** removeNotification: drops the entries with that id and keeps the rest in order. */
    method RemoveNotification(id: string)
      requires Valid()
      modifies this
      ensures Valid() && counter == old(counter) && timers == old(timers)
      ensures notifications == Without(old(notifications), id)
    {
      notifications := Without(notifications, id);
    }

    /** clearAllNotifications: the list becomes empty; the counter keeps counting. */
    method ClearAllNotifications()
      requires Valid()
      modifies this
      ensures Valid() && notifications == [] && counter == old(counter) && timers == old(timers)
    {
      notifications := [];
    }

    /** showSuccess, showWarning and showInfo: a notification with the default duration. */
    method ShowSuccess(title: string, message: Option<string>) returns (id: string)
      requires Valid()
      modifies this
      ensures Valid() && id == IdFor(old(counter))
      ensures notifications == old(notifications) + [Notification(id, Success, title, message, DefaultDuration)]
      ensures timers == old(timers) + [Timer(id, DefaultDuration)]
    {
      id := AddNotification(NotificationInput(Success, title, message, None));
    }

    method ShowWarning(title: string, message: Option<string>) returns (id: string)
      requires Valid()
      modifies this
      ensures Valid() && id == IdFor(old(counter))
      ensures notifications == old(notifications) + [Notification(id, Warning, title, message, DefaultDuration)]
      ensures timers == old(timers) + [Timer(id, DefaultDuration)]
    {
      id := AddNotification(NotificationInput(Warning, title, message, None));
    }

    method ShowInfo(title: string, message: Option<string>) returns (id: string)
      requires Valid()
      modifies this
      ensures Valid() && id == IdFor(old(counter))
      ensures notifications == old(notifications) + [Notification(id, Info, title, message, DefaultDuration)]
      ensures timers == old(timers) + [Timer(id, DefaultDuration)]
    {
      id := AddNotification(NotificationInput(Info, title, message, None));
    }

    /** showError: duration 0, so no dismissal timer is ever scheduled. */
    method ShowError(title: string, message: Option<string>) returns (id: string)
      requires Valid()
      modifies this
      ensures Valid() && id == IdFor(old(counter))
      ensures notifications == old(notifications) + [Notification(id, Error, title, message, 0)]
      ensures timers == old(timers)
    {
      id := AddNotification(NotificationInput(Error, title, message, Some(0)));
    }
  }

  /** The filter `removeNotification` applies: every entry with another id. */
  function OtherId(id: string): Notification -> bool
  {
    (n: Notification) => n.id != id
  }

  /** The entries with another id, in their order. */
  function Without(notes: seq<Notification>, id: string): (r: seq<Notification>)
    ensures |r| <= |notes|
    ensures forall n :: n in r <==> n in notes && n.id != id
  {
    Tables.Filter(notes, OtherId(id))
  }

  /** Removing the id just added gives back the list before the add. */
  lemma AddThenRemove(notes: seq<Notification>, n: Notification)
    requires forall i :: 0 <= i < |notes| ==> notes[i].id != n.id
    ensures Without(notes + [n], n.id) == notes
  {
    Tables.FilterAppend(notes, n, OtherId(n.id));
    forall k | 0 <= k < |notes|
      ensures OtherId(n.id)(notes[k])
    {
    }
    Tables.FilterAll(notes, OtherId(n.id));
  }
}
