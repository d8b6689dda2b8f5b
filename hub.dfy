/**
 * The subscriber registry behind the update stream: one entry per open stream,
 * with the room it listens to and the wake signals queued for it.
 */
module Hub {
  import opened Wrappers
  import opened Seqs

  /** An open stream: its queue's identity, its room and how many signals wait in its queue. */
  datatype Subscriber = Subscriber(id: nat, room: string, pending: nat)

  /** The registry after one signal is queued for every subscriber of `room`. */
  function Signalled(subs: seq<Subscriber>, room: string): (r: seq<Subscriber>)
    ensures |r| == |subs|
    ensures forall k :: 0 <= k < |subs| ==>
      && r[k].id == subs[k].id
      && r[k].room == subs[k].room
      && r[k].pending == subs[k].pending + (if subs[k].room == room then 1 else 0)
  {
    if subs == [] then []
    else
      var s := subs[0];
      [if s.room == room then s.(pending := s.pending + 1) else s] + Signalled(subs[1..], room)
  }

  /** A registry that agrees with `subs` signalled for `room` entry by entry is that registry. */
  lemma SignalledPointwise(subs: seq<Subscriber>, room: string, r: seq<Subscriber>)
    requires |r| == |subs|
    requires forall k :: 0 <= k < |subs| ==>
      r[k] == if subs[k].room == room then subs[k].(pending := subs[k].pending + 1) else subs[k]
    ensures r == Signalled(subs, room)
  {
    var t := Signalled(subs, room);
    forall k | 0 <= k < |subs| ensures r[k] == t[k] {
      assert t[k].id == r[k].id && t[k].room == r[k].room && t[k].pending == r[k].pending;
    }
  }

  /** No two entries share a queue, and every queue identity is below `next`. */
  ghost predicate Registered(subs: seq<Subscriber>, next: nat) {
    && (forall i, j :: 0 <= i < j < |subs| ==> subs[i].id != subs[j].id)
    && (forall i :: 0 <= i < |subs| ==> subs[i].id < next)
  }

  /** The position of the first entry holding queue `id`, if any. */
  function FirstEntry(subs: seq<Subscriber>, id: nat): (r: Option<nat>)
    ensures r.Some? ==> r.value < |subs| && subs[r.value].id == id
    ensures r.Some? ==> forall j :: 0 <= j < r.value ==> subs[j].id != id
    ensures r.None? <==> forall j :: 0 <= j < |subs| ==> subs[j].id != id
  {
    if subs == [] then None
    else if subs[0].id == id then Some(0)
    else match FirstEntry(subs[1..], id)
      case None => None
      case Some(k) => Some(k + 1)
  }

  /** Signalling changes no queue identity and no room, so the registry stays consistent. */
  lemma SignalKeepsRegistered(subs: seq<Subscriber>, next: nat, room: string)
    requires Registered(subs, next)
    ensures Registered(Signalled(subs, room), next)
  {
  }

  /**
   * Signals to different rooms commute: the order in which rooms are notified
   * does not change what any subscriber has queued.
   */
  lemma SignalsCommute(subs: seq<Subscriber>, a: string, b: string)
    ensures Signalled(Signalled(subs, a), b) == Signalled(Signalled(subs, b), a)
  {
    var x := Signalled(Signalled(subs, a), b);
    var y := Signalled(Signalled(subs, b), a);
    assert forall k :: 0 <= k < |subs| ==> x[k] == y[k];
  }

  /** Registering a fresh queue keeps the registry consistent. */
  lemma SubscribeKeepsRegistered(subs: seq<Subscriber>, next: nat, room: string)
    requires Registered(subs, next)
    ensures Registered(subs + [Subscriber(next, room, 0)], next + 1)
  {
    var r := subs + [Subscriber(next, room, 0)];
    assert forall i :: 0 <= i < |subs| ==> r[i] == subs[i];
  }

  /**
   * Removing the first entry of queue `id` keeps the registry consistent, drops
   * that queue altogether, and leaves every other entry in place.
   */
  lemma UnsubscribeKeepsRegistered(subs: seq<Subscriber>, next: nat, i: nat)
    requires Registered(subs, next) && i < |subs|
    ensures Registered(RemoveAt(subs, i), next)
    ensures forall j :: 0 <= j < |RemoveAt(subs, i)| ==> RemoveAt(subs, i)[j].id != subs[i].id
  {
    var r := RemoveAt(subs, i);
    assert forall j :: 0 <= j < |r| ==> r[j] == subs[if j < i then j else j + 1];
  }
}
