/**
 * The message table: the stored messages, the retention cap, the listing
 * filter and the searches that edit, delete, react and mark-read perform.
 */
module Messages {
  import opened Wrappers
  import opened Seqs

  /** At most this many messages are kept, over all rooms together. */
  const Cap: nat := 1000

  /** The room used when a message carries none or none is found. */
  const DefaultRoom: string := "public"

  /**
   * One stored chat message. `ip` is the sender's address, the key that
   * authorizes edit and delete; `time` is the "HH:MM" string taken at posting.
   */
  datatype Message = Message(
    id: int,
    room: string,
    user: string,
    text: string,
    time: string,
    ip: string,
    kind: string,
    target: Option<string>,
    avatar: string,
    edited: bool)

  /** Ids strictly increase along the stored order. */
  ghost predicate IdsIncreasing(ms: seq<Message>) {
    forall i, j :: 0 <= i < j < |ms| ==> ms[i].id < ms[j].id
  }

  /** Every stored id is below `counter`, the id the next post receives. */
  ghost predicate IdsBelow(ms: seq<Message>, counter: int) {
    forall i :: 0 <= i < |ms| ==> ms[i].id < counter
  }

  /** The table after appending one message: the oldest is dropped once it exceeds the cap. */
  function Retain(s: seq<Message>): (r: seq<Message>)
    ensures |r| == if |s| > Cap then |s| - 1 else |s|
    ensures r == s[|s| - |r|..]
  {
    if |s| > Cap then s[1..] else s
  }

  /**
   * Posting to a table within the cap keeps it within the cap, puts the new
   * message last and drops at most the oldest stored message.
   */
  lemma RetainAfterPost(ms: seq<Message>, m: Message)
    requires |ms| <= Cap
    ensures |Retain(ms + [m])| <= Cap
    ensures Retain(ms + [m]) == (if |ms| == Cap then ms[1..] else ms) + [m]
  {
  }

  /**
   * A post whose id is the counter keeps ids increasing and below the bumped
   * counter, and its id exceeds every id still stored, so no id is reused.
   */
  lemma PostKeepsIds(ms: seq<Message>, counter: int, m: Message)
    requires IdsIncreasing(ms) && IdsBelow(ms, counter) && m.id == counter
    ensures IdsIncreasing(Retain(ms + [m])) && IdsBelow(Retain(ms + [m]), counter + 1)
    ensures forall i :: 0 <= i < |ms| ==> ms[i].id < m.id
  {
    var s := ms + [m];
    forall i, j | 0 <= i < j < |s| ensures s[i].id < s[j].id {
      assert s[i] == ms[i];
    }
    SuffixKeepsIds(s, counter + 1, |s| - |Retain(s)|);
  }

  /** Dropping a prefix keeps ids increasing and below the counter. */
  lemma SuffixKeepsIds(s: seq<Message>, counter: int, k: nat)
    requires k <= |s| && IdsIncreasing(s) && IdsBelow(s, counter)
    ensures IdsIncreasing(s[k..]) && IdsBelow(s[k..], counter)
  {
    var r := s[k..];
    assert forall i :: 0 <= i < |r| ==> r[i] == s[i + k];
  }

  /** The message `ms[i]` with its text replaced and marked as edited. */
  function EditAt(ms: seq<Message>, i: nat, text: string): (r: seq<Message>)
    requires i < |ms|
    ensures |r| == |ms|
    ensures r[i].text == text && r[i].edited
    ensures r[i] == ms[i].(text := r[i].text, edited := r[i].edited)
    ensures forall j :: 0 <= j < |ms| && j != i ==> r[j] == ms[j]
  {
    ms[i := ms[i].(text := text, edited := true)]
  }

  /** Editing keeps every id where it was. */
  lemma EditKeepsIds(ms: seq<Message>, counter: int, i: nat, text: string)
    requires i < |ms| && IdsIncreasing(ms) && IdsBelow(ms, counter)
    ensures IdsIncreasing(EditAt(ms, i, text)) && IdsBelow(EditAt(ms, i, text), counter)
  {
    var r := EditAt(ms, i, text);
    assert forall j :: 0 <= j < |ms| ==> r[j].id == ms[j].id;
  }

  /**
   * Deleting keeps ids increasing and below the counter, and, ids being
   * distinct, no message with the deleted id remains.
   */
  lemma DeleteKeepsIds(ms: seq<Message>, counter: int, i: nat)
    requires i < |ms| && IdsIncreasing(ms) && IdsBelow(ms, counter)
    ensures IdsIncreasing(RemoveAt(ms, i)) && IdsBelow(RemoveAt(ms, i), counter)
    ensures forall j :: 0 <= j < |RemoveAt(ms, i)| ==> RemoveAt(ms, i)[j].id != ms[i].id
  {
    var r := RemoveAt(ms, i);
    forall j | 0 <= j < |r| ensures r[j] == ms[if j < i then j else j + 1] { }
  }

  /** Whether `m` is listed for `room` after `after`: the test of the listing comprehension. */
  predicate Selected(m: Message, room: string, after: int) {
    m.room == room && m.id > after
  }

  /** The stored messages of `room` whose id exceeds `after`, in stored order. */
  function Filter(ms: seq<Message>, room: string, after: int): (r: seq<Message>)
    ensures |r| <= |ms|
    ensures forall m :: m in r <==> m in ms && Selected(m, room, after)
  {
    if ms == [] then []
    else if Selected(ms[0], room, after) then [ms[0]] + Filter(ms[1..], room, after)
    else Filter(ms[1..], room, after)
  }

  /** Filtering distributes over concatenation: the listing keeps stored order. */
  lemma {:induction false} FilterAppend(a: seq<Message>, b: seq<Message>, room: string, after: int)
    ensures Filter(a + b, room, after) == Filter(a, room, after) + Filter(b, room, after)
  {
    if a == [] {
      assert a + b == b;
    } else {
      assert (a + b)[1..] == a[1..] + b;
      FilterAppend(a[1..], b, room, after);
    }
  }

  /**
   * A post is listed last for its own room by every poll whose `after` is
   * below its id; before it come the room's earlier messages that were kept.
   */
  lemma ListingShowsPost(ms: seq<Message>, m: Message, after: int)
    requires |ms| <= Cap && m.id > after
    ensures var kept := if |ms| == Cap then ms[1..] else ms;
      Filter(Retain(ms + [m]), m.room, after) == Filter(kept, m.room, after) + [m]
  {
    var kept := if |ms| == Cap then ms[1..] else ms;
    RetainAfterPost(ms, m);
    FilterAppend(kept, [m], m.room, after);
    assert [m][1..] == [];
  }

  /** A listing of a table with increasing ids has increasing ids. */
  lemma {:induction false} FilterKeepsOrder(ms: seq<Message>, room: string, after: int)
    requires IdsIncreasing(ms)
    ensures IdsIncreasing(Filter(ms, room, after))
  {
    if ms != [] {
      var rest := Filter(ms[1..], room, after);
      FilterKeepsOrder(ms[1..], room, after);
      if Selected(ms[0], room, after) {
        forall m | m in rest ensures ms[0].id < m.id {
          var k :| 1 <= k < |ms| && ms[k] == m;
        }
        IncreasingCons(ms[0], rest);
      }
    }
  }

  /** A message below every id of an increasing table can go in front of it. */
  lemma IncreasingCons(m: Message, rest: seq<Message>)
    requires IdsIncreasing(rest) && forall x :: x in rest ==> m.id < x.id
    ensures IdsIncreasing([m] + rest)
  {
    var r := [m] + rest;
    forall i, j | 0 <= i < j < |r| ensures r[i].id < r[j].id {
      if i == 0 { assert r[j] in rest; } else { assert r[i] == rest[i - 1] && r[j] == rest[j - 1]; }
    }
  }

  /** The message with the given id and sender address, as edit and delete test it. */
  predicate Owned(m: Message, id: int, ip: string) {
    m.id == id && m.ip == ip
  }

  /** The index of the first message with `id` sent from `ip`, if any. */
  function FirstOwned(ms: seq<Message>, id: int, ip: string): (r: Option<nat>)
    ensures r.Some? ==> r.value < |ms| && Owned(ms[r.value], id, ip)
    ensures r.Some? ==> forall j :: 0 <= j < r.value ==> !Owned(ms[j], id, ip)
    ensures r.None? <==> forall j :: 0 <= j < |ms| ==> !Owned(ms[j], id, ip)
  {
    if ms == [] then None
    else if Owned(ms[0], id, ip) then Some(0)
    else match FirstOwned(ms[1..], id, ip)
      case None => None
      case Some(k) => Some(k + 1)
  }

  /** The index of the first message with `id`, if any. */
  function FirstWithId(ms: seq<Message>, id: int): (r: Option<nat>)
    ensures r.Some? ==> r.value < |ms| && ms[r.value].id == id
    ensures r.Some? ==> forall j :: 0 <= j < r.value ==> ms[j].id != id
    ensures r.None? <==> forall j :: 0 <= j < |ms| ==> ms[j].id != id
  {
    if ms == [] then None
    else if ms[0].id == id then Some(0)
    else match FirstWithId(ms[1..], id)
      case None => None
      case Some(k) => Some(k + 1)
  }

  /** The room a reaction or read receipt on `id` notifies. */
  function RoomFor(ms: seq<Message>, id: int): (r: string)
    ensures (forall j :: 0 <= j < |ms| ==> ms[j].id != id) ==> r == DefaultRoom
    ensures forall j :: 0 <= j < |ms| && ms[j].id == id && (forall k :: 0 <= k < j ==> ms[k].id != id)
              ==> r == ms[j].room
  {
    match FirstWithId(ms, id)
    case None => DefaultRoom
    case Some(i) => ms[i].room
  }

  /** After a delete the listing of any room never shows the deleted id. */
  lemma ListingAfterDelete(ms: seq<Message>, counter: int, i: nat, room: string, after: int)
    requires i < |ms| && IdsIncreasing(ms) && IdsBelow(ms, counter)
    ensures forall m :: m in Filter(RemoveAt(ms, i), room, after) ==> m.id != ms[i].id
  {
    DeleteKeepsIds(ms, counter, i);
  }
}
