/** The notifications screen: a list of notifications with a read flag, the
    unread badge count, and the two ways of marking them read. */
module Notifications {
  import opened Basics

  datatype Kind = TourNote | PlaceNote | SystemNote | OfferNote

  datatype Notification = Notification(
    id: string,
    kind: Kind,
    title: string,
    message: string,
    time: string,
    read: bool,
    image: Option<string>)

  /** `filter(n => !n.read)`. */
  function Unread(ns: seq<Notification>): (r: seq<Notification>)
    ensures |r| <= |ns|
    ensures forall n :: n in r <==> n in ns && !n.read
  {
    if |ns| == 0 then []
    else Unread(ns[..|ns| - 1]) + (if ns[|ns| - 1].read then [] else [ns[|ns| - 1]])
  }

  /** Unread notifications counted from the front, one at a time. */
  function CountUnread(ns: seq<Notification>): nat
  {
    if |ns| == 0 then 0 else (if ns[0].read then 0 else 1) + CountUnread(ns[1..])
  }

  /** The filter read from the front: the head is kept exactly when it is
      unread, ahead of the filtered rest, so order and repeats are kept. */
  lemma {:induction false} UnreadCons(ns: seq<Notification>)
    requires |ns| > 0
    ensures Unread(ns) == (if ns[0].read then [] else [ns[0]]) + Unread(ns[1..])
    decreases |ns|
  {
    if |ns| > 1 {
      var init, tail, last := ns[..|ns| - 1], ns[1..], ns[|ns| - 1];
      var kept := if last.read then [] else [last];
      assert init[1..] == tail[..|tail| - 1];
      assert tail[|tail| - 1] == last;
      assert Unread(tail) == Unread(init[1..]) + kept;
      assert init[0] == ns[0];
      UnreadCons(init);
      assert Unread(ns) == Unread(init) + kept;
    }
  }

  lemma {:induction false} UnreadLength(ns: seq<Notification>)
    ensures |Unread(ns)| == CountUnread(ns)
    decreases |ns|
  {
    if |ns| > 0 {
      UnreadCons(ns);
      UnreadLength(ns[1..]);
    }
  }

  /** The badge number: how many notifications are still unread. */
  function UnreadCount(ns: seq<Notification>): (c: nat)
    ensures c == CountUnread(ns)
    ensures c <= |ns|
    ensures c == 0 <==> forall i :: 0 <= i < |ns| ==> ns[i].read
  {
    UnreadLength(ns);
    assert |Unread(ns)| == 0 <==> forall i :: 0 <= i < |ns| ==> ns[i].read by {
      if |Unread(ns)| > 0 {
        assert Unread(ns)[0] in Unread(ns);
      }
      if exists i :: 0 <= i < |ns| && !ns[i].read {
        var i :| 0 <= i < |ns| && !ns[i].read;
        assert ns[i] in Unread(ns);
      }
    }
    |Unread(ns)|
  }

  /** Every notification with the id becomes read; nothing else changes. */
  function MarkAsRead(ns: seq<Notification>, id: string): (r: seq<Notification>)
    ensures |r| == |ns|
    ensures forall i :: 0 <= i < |r| ==> r[i].read == (ns[i].read || ns[i].id == id)
    ensures forall i :: 0 <= i < |r| ==> r[i].(read := ns[i].read) == ns[i]
  {
    seq(|ns|, i requires 0 <= i < |ns| => if ns[i].id == id then ns[i].(read := true) else ns[i])
  }

  function MarkAllAsRead(ns: seq<Notification>): (r: seq<Notification>)
    ensures |r| == |ns|
    ensures forall i :: 0 <= i < |r| ==> r[i].read && r[i].(read := ns[i].read) == ns[i]
  {
    seq(|ns|, i requires 0 <= i < |ns| => ns[i].(read := true))
  }

  /** How many unread notifications carry the id. */
  function UnreadWithId(ns: seq<Notification>, id: string): nat
  {
    if |ns| == 0 then 0
    else UnreadWithId(ns[..|ns| - 1], id) + (if !ns[|ns| - 1].read && ns[|ns| - 1].id == id then 1 else 0)
  }

  /** Marking one id read lowers the badge by exactly the number of unread
      notifications with that id, so it never raises it. */
  lemma {:induction false} MarkAsReadCount(ns: seq<Notification>, id: string)
    ensures UnreadCount(MarkAsRead(ns, id)) + UnreadWithId(ns, id) == UnreadCount(ns)
    ensures UnreadCount(MarkAsRead(ns, id)) <= UnreadCount(ns)
  {
    if |ns| > 0 {
      var init := ns[..|ns| - 1];
      MarkAsReadCount(init, id);
      var r := MarkAsRead(ns, id);
      var last := ns[|ns| - 1];
      assert r[..|r| - 1] == MarkAsRead(init, id);
      assert |Unread(r)| == |Unread(MarkAsRead(init, id))| + (if r[|r| - 1].read then 0 else 1);
      assert |Unread(ns)| == |Unread(init)| + (if last.read then 0 else 1);
      assert UnreadWithId(ns, id) == UnreadWithId(init, id) + (if !last.read && last.id == id then 1 else 0);
    }
  }

  /** Marking the same id twice is the same as once. */
  lemma {:induction false} MarkAsReadIdempotent(ns: seq<Notification>, id: string)
    ensures MarkAsRead(MarkAsRead(ns, id), id) == MarkAsRead(ns, id)
  {
  }

  /** After marking all, the badge is zero; marking one id first makes no
      difference to the result. */
  lemma {:induction false} MarkAllClearsBadge(ns: seq<Notification>, id: string)
    ensures UnreadCount(MarkAllAsRead(ns)) == 0
    ensures MarkAllAsRead(MarkAsRead(ns, id)) == MarkAllAsRead(ns)
  {
  }

  /** An id no notification carries leaves the list as it was. */
  lemma {:induction false} MarkUnknownId(ns: seq<Notification>, id: string)
    requires forall n :: n in ns ==> n.id != id
    ensures MarkAsRead(ns, id) == ns
  {
    var r := MarkAsRead(ns, id);
    forall i | 0 <= i < |ns| ensures r[i] == ns[i] {
      assert ns[i] in ns;
    }
  }
}
