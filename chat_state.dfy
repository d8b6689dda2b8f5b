/**
 * The chat server's in-memory state and the request handlers that read and
 * update it. Each handler's request parsing is replaced by parameters: `ip`
 * is the requester's address, `now` the clock reading and `time` the "HH:MM"
 * string the handler would take from the clock. The response is the result.
 */
module ChatServer {
  import opened Wrappers
  import opened Seqs
  import opened Text
  import opened Messages
  import IpLists
  import Reactions
  import Receipts
  import Presence
  import opened Hub
  import opened Persistence

  /** The outcome of edit and delete: `Ok`, or `Unauthorized` (HTTP 403). */
  datatype Status = Ok | Unauthorized

  /** One message as listed: the stored message with its reactions and readers attached. */
  datatype Listed = Listed(message: Message, reactions: map<string, seq<string>>, readBy: seq<string>)

  /**
   * What every handler preserves: ids strictly increase and stay below the
   * counter, the table is within the cap, reaction lists are non-empty and
   * repeat-free, reader lists repeat-free, and each open stream is registered once.
   */
  ghost predicate Consistent(messages: seq<Message>, counter: int, reactions: Reactions.Table,
                             receipts: Receipts.Table, subscribers: seq<Subscriber>, next: nat)
  {
    && IdsIncreasing(messages) && IdsBelow(messages, counter) && |messages| <= Cap
    && Reactions.WellFormed(reactions) && Receipts.WellFormed(receipts)
    && Registered(subscribers, next)
  }

  class ChatState {
    var messages: seq<Message>
    var counter: int
    var reactions: Reactions.Table
    var receipts: Receipts.Table
    var presence: Presence.Table
    var subscribers: seq<Subscriber>
    var nextSubscriber: nat

    /** The state is consistent. */
    ghost predicate Valid()
      reads this
    {
      Consistent(messages, counter, reactions, receipts, subscribers, nextSubscriber)
    }

    /**
     * Start-up: the empty tables, then each file loaded independently; a file
     * that is missing or fails to load leaves its table empty.
     */
    constructor Load(
      messageFile: Option<seq<Message>>,
      reactionFile: Option<seq<(string, map<string, seq<string>>)>>,
      receiptFile: Option<seq<(string, seq<string>)>>)
      ensures messages == (if messageFile.Some? then messageFile.value else [])
      ensures counter == NextId(messages, 0)
      ensures reactions == LoadTable(reactionFile) && receipts == LoadTable(receiptFile)
      ensures presence == map[] && subscribers == [] && nextSubscriber == 0
      ensures (&& IdsIncreasing(messages) && |messages| <= Cap
               && Reactions.WellFormed(reactions) && Receipts.WellFormed(receipts)) ==> Valid()
    {
      var loaded := if messageFile.Some? then messageFile.value else [];
      messages := loaded;
      counter := if loaded != [] then MaxId(loaded) + 1 else 0;
      reactions := LoadTable(reactionFile);
      receipts := LoadTable(receiptFile);
      presence := map[];
      subscribers := [];
      nextSubscriber := 0;
    }

    /** `notify_clients`: queue one wake signal for every stream of `room`, and only those. */
    method Notify(room: string)
      modifies this`subscribers
      ensures subscribers == Signalled(old(subscribers), room)
      ensures old(Valid()) ==> Valid()
    {
      ghost var before := subscribers;
      var i := 0;
      while i < |subscribers|
        invariant |subscribers| == |before| && 0 <= i <= |before|
        invariant forall k :: 0 <= k < i ==>
          subscribers[k] == (if before[k].room == room then before[k].(pending := before[k].pending + 1) else before[k])
        invariant forall k :: i <= k < |before| ==> subscribers[k] == before[k]
      {
        if subscribers[i].room == room {
          subscribers := subscribers[i := subscribers[i].(pending := subscribers[i].pending + 1)];
        }
        i := i + 1;
      }
      SignalledPointwise(before, room, subscribers);
      if old(Valid()) {
        SignalKeepsRegistered(before, nextSubscriber, room);
      }
    }

    /** `update_status`: record a heartbeat, overwriting the address's previous entry. */
    method UpdateStatus(room: string, ip: string, nickname: string, avatar: string, now: real)
      modifies this`presence
      ensures presence == Presence.Heartbeat(old(presence), room, ip, nickname, avatar, now)
    {
      if room !in presence {
        presence := presence[room := map[]];
      }
      presence := presence[room := presence[room][ip := Presence.Entry(nickname, avatar, now)]];
    }

    /**
     * `get_active_users`: drop the room's stale entries, then return the rest;
     * an unknown room reads as empty and is not created.
     */
    method GetActiveUsers(room: string, now: real) returns (users: Presence.Users)
      modifies this`presence
      ensures room !in old(presence) ==> users == map[] && presence == old(presence)
      ensures room in old(presence) ==>
        && presence == old(presence)[room := Presence.Prune(old(presence)[room], now)]
        && users == presence[room]
    {
      if room !in presence {
        return map[];
      }
      ghost var original := presence[room];
      var pending := presence[room].Keys;
      while pending != {}
        invariant room in presence && presence == old(presence)[room := presence[room]]
        invariant pending <= original.Keys && presence[room].Keys <= original.Keys
        invariant forall ip :: ip in presence[room] ==> presence[room][ip] == original[ip]
        invariant forall ip :: ip in pending ==> ip in presence[room]
        invariant forall ip :: ip in original && ip !in pending ==>
                    (ip in presence[room] <==> Presence.IsFresh(original[ip], now))
        decreases pending
      {
        var ip :| ip in pending;
        if now - presence[room][ip].lastSeen > Presence.StaleAfter {
          presence := presence[room := presence[room] - {ip}];
        }
        pending := pending - {ip};
      }
      users := presence[room];
      assert users == Presence.Prune(original, now);
    }

    /**
     * `send`: a blank text changes nothing; otherwise the message is appended
     * with the counter as its id, the counter advances, the oldest message is
     * dropped past the cap and the room is notified.
     */
    method Send(user: string, text: string, room: string, kind: string, target: Option<string>,
                avatar: string, ip: string, time: string)
      modifies this`messages, this`counter, this`subscribers
      ensures IsBlank(text) ==>
        messages == old(messages) && counter == old(counter) && subscribers == old(subscribers)
      ensures !IsBlank(text) ==>
        && messages == Retain(old(messages) + [Message(old(counter), room, user, text, time, ip, kind, target, avatar, false)])
        && counter == old(counter) + 1
        && subscribers == Signalled(old(subscribers), room)
      ensures old(Valid()) ==> Valid()
    {
      StripEmptyIffBlank(text);
      if Strip(Unicode, text) != [] {
        Post(Message(counter, room, user, text, time, ip, kind, target, avatar, false));
        Notify(room);
      }
    }

    /**
     * The table update of `send`: append, advance the counter, then drop the
     * oldest message once past the cap. Consistency is kept when the new
     * message carries the counter as its id.
     */
    method Post(msg: Message)
      modifies this`messages, this`counter
      ensures messages == Retain(old(messages) + [msg]) && counter == old(counter) + 1
      ensures old(Valid()) && msg.id == old(counter) ==> Valid()
    {
      if Valid() && msg.id == counter {
        PostKeepsIds(messages, counter, msg);
        RetainAfterPost(messages, msg);
      }
      messages := messages + [msg];
      counter := counter + 1;
      if |messages| > Cap {
        messages := messages[1..];
      }
    }

    /**
     * `get_messages`: the messages of `room` with id above `after`, in stored
     * order, each with its reactions (default empty) and readers (default empty).
     */
    method GetMessages(room: string, after: int) returns (listed: seq<Listed>)
      ensures |listed| == |Filter(messages, room, after)|
      ensures forall k :: 0 <= k < |listed| ==>
        var m := Filter(messages, room, after)[k];
        listed[k] == Listed(m, Reactions.EmojisOf(reactions, m.id), Receipts.ReadersOf(receipts, m.id))
    {
      var selected := Filter(messages, room, after);
      listed := [];
      var i := 0;
      while i < |selected|
        invariant 0 <= i <= |selected| && |listed| == i
        invariant forall k :: 0 <= k < i ==>
          listed[k] == Listed(selected[k], Reactions.EmojisOf(reactions, selected[k].id),
                              Receipts.ReadersOf(receipts, selected[k].id))
      {
        var m := selected[i];
        listed := listed + [Listed(m, Reactions.EmojisOf(reactions, m.id), Receipts.ReadersOf(receipts, m.id))];
        i := i + 1;
      }
    }

    /** The search of edit and delete: the first message with `id` sent from `ip`. */
    method FindOwned(id: int, ip: string) returns (found: Option<nat>)
      ensures found == FirstOwned(messages, id, ip)
    {
      var i := 0;
      while i < |messages|
        invariant 0 <= i <= |messages|
        invariant forall j :: 0 <= j < i ==> !Owned(messages[j], id, ip)
      {
        if messages[i].id == id && messages[i].ip == ip {
          return Some(i);
        }
        i := i + 1;
      }
      return None;
    }

    /**
     * `edit_message`: on the first message with `id` sent from `ip`, replace its
     * text, mark it edited and notify its room; with no such message, refuse
     * and change nothing.
     */
    method Edit(id: int, text: string, ip: string) returns (status: Status)
      modifies this`messages, this`subscribers
      ensures match FirstOwned(old(messages), id, ip)
        case None =>
          status == Unauthorized && messages == old(messages) && subscribers == old(subscribers)
        case Some(i) =>
          && status == Ok
          && messages == EditAt(old(messages), i, text)
          && subscribers == Signalled(old(subscribers), old(messages)[i].room)
      ensures old(Valid()) ==> Valid()
    {
      var found := FindOwned(id, ip);
      match found
      case None =>
        status := Unauthorized;
      case Some(i) =>
        var room := messages[i].room;
        if Valid() {
          EditKeepsIds(messages, counter, i, text);
        }
        messages := messages[i := messages[i].(text := text, edited := true)];
        Notify(room);
        status := Ok;
    }

    /**
     * `delete_message`: on the first message with `id` sent from `ip`, remove
     * it, drop its reactions and readers and notify its room; with no such
     * message, refuse and change nothing.
     */
    method Delete(id: int, ip: string) returns (status: Status)
      modifies this`messages, this`reactions, this`receipts, this`subscribers
      ensures match FirstOwned(old(messages), id, ip)
        case None =>
          && status == Unauthorized && messages == old(messages) && subscribers == old(subscribers)
          && reactions == old(reactions) && receipts == old(receipts)
        case Some(i) =>
          && status == Ok
          && messages == RemoveAt(old(messages), i)
          && reactions == old(reactions) - {id} && receipts == old(receipts) - {id}
          && subscribers == Signalled(old(subscribers), old(messages)[i].room)
      ensures old(Valid()) ==> Valid()
    {
      var found := FindOwned(id, ip);
      match found
      case None =>
        status := Unauthorized;
      case Some(i) =>
        var room := messages[i].room;
        Remove(i, id);
        Notify(room);
        status := Ok;
    }

    /** The table update of `delete_message`: remove message `i` and the reactions and readers of `id`. */
    method Remove(i: nat, id: int)
      requires i < |messages|
      modifies this`messages, this`reactions, this`receipts
      ensures messages == RemoveAt(old(messages), i)
      ensures reactions == old(reactions) - {id} && receipts == old(receipts) - {id}
      ensures old(Valid()) ==> Valid()
    {
      messages := messages[..i] + messages[i + 1..];
      reactions := reactions - {id};
      receipts := receipts - {id};
      if old(Valid()) {
        DeleteKeepsIds(old(messages), counter, i);
      }
    }

    /** The room search of react and mark-read: the first message with `id`, else the default room. */
    method LookupRoom(id: int) returns (room: string)
      ensures room == RoomFor(messages, id)
    {
      room := DefaultRoom;
      var i := 0;
      while i < |messages|
        invariant 0 <= i <= |messages|
        invariant forall j :: 0 <= j < i ==> messages[j].id != id
      {
        if messages[i].id == id {
          room := messages[i].room;
          break;
        }
        i := i + 1;
      }
    }

    /**
     * `react_message`: toggle whether `ip` reacted to `id` with `emoji`, then
     * notify the message's room. The id need not exist.
     */
    method React(id: int, emoji: string, ip: string)
      modifies this`reactions, this`subscribers
      ensures reactions == Reactions.Toggle(old(reactions), id, emoji, ip)
      ensures subscribers == Signalled(old(subscribers), RoomFor(messages, id))
      ensures old(Valid()) ==> Valid()
    {
      ToggleReaction(id, emoji, ip);
      var room := LookupRoom(id);
      Notify(room);
    }

    /** The table update of `react_message`, on the emoji map of message `id`. */
    method ToggleReaction(id: int, emoji: string, ip: string)
      modifies this`reactions
      ensures reactions == Reactions.Toggle(old(reactions), id, emoji, ip)
      ensures old(Valid()) ==> Valid()
    {
      var inner := if id in reactions then reactions[id] else map[];
      var reactors := if emoji in inner then inner[emoji] else [];
      assert inner == Reactions.EmojisOf(reactions, id) && reactors == Reactions.Reactors(reactions, id, emoji);
      if ip in reactors {
        reactors := IpLists.RemoveFirst(reactors, ip);
        inner := if reactors == [] then inner - {emoji} else inner[emoji := reactors];
      } else {
        inner := inner[emoji := reactors + [ip]];
      }
      reactions := reactions[id := inner];
      if old(Valid()) {
        Reactions.ToggleKeepsWellFormed(old(reactions), id, emoji, ip);
      }
    }

    /**
     * `mark_read`: record `ip` as a reader of `id` unless it already is one; only
     * a new reader notifies the message's room.
     */
    method MarkRead(id: int, ip: string)
      modifies this`receipts, this`subscribers
      ensures receipts == Receipts.Mark(old(receipts), id, ip)
      ensures subscribers == if Receipts.HasRead(old(receipts), id, ip) then old(subscribers)
                             else Signalled(old(subscribers), RoomFor(messages, id))
      ensures old(Valid()) ==> Valid()
    {
      var added := RecordReader(id, ip);
      if added {
        var room := LookupRoom(id);
        Notify(room);
      }
    }

    /** The table update of `mark_read`; `added` tells whether `ip` was a new reader. */
    method RecordReader(id: int, ip: string) returns (added: bool)
      modifies this`receipts
      ensures receipts == Receipts.Mark(old(receipts), id, ip)
      ensures added == !Receipts.HasRead(old(receipts), id, ip)
      ensures old(Valid()) ==> Valid()
    {
      if id !in receipts {
        receipts := receipts[id := []];
      }
      added := ip !in receipts[id];
      if added {
        receipts := receipts[id := receipts[id] + [ip]];
      }
      if old(Valid()) {
        Receipts.MarkRecordsOnce(old(receipts), id, ip);
      }
    }

    /** Opening a stream: register a fresh queue for `room`, with nothing pending. */
    method Subscribe(room: string) returns (id: nat)
      modifies this`subscribers, this`nextSubscriber
      ensures id == old(nextSubscriber) && nextSubscriber == id + 1
      ensures subscribers == old(subscribers) + [Subscriber(id, room, 0)]
      ensures old(Valid()) ==> Valid()
    {
      id := nextSubscriber;
      if Valid() {
        SubscribeKeepsRegistered(subscribers, nextSubscriber, room);
      }
      subscribers := subscribers + [Subscriber(id, room, 0)];
      nextSubscriber := nextSubscriber + 1;
    }

    /** Closing a stream: remove the first entry holding its queue, if any. */
    method Unsubscribe(id: nat)
      modifies this`subscribers
      ensures subscribers == match FirstEntry(old(subscribers), id)
        case None => old(subscribers)
        case Some(i) => RemoveAt(old(subscribers), i)
      ensures old(Valid()) ==> Valid()
    {
      var i := 0;
      while i < |subscribers|
        invariant 0 <= i <= |subscribers| && subscribers == old(subscribers)
        invariant forall j :: 0 <= j < i ==> subscribers[j].id != id
      {
        if subscribers[i].id == id {
          if Valid() {
            UnsubscribeKeepsRegistered(subscribers, nextSubscriber, i);
          }
          subscribers := subscribers[..i] + subscribers[i + 1..];
          return;
        }
        i := i + 1;
      }
    }

    /**
     * A stream taking one wake signal from its queue; `false` where the stream
     * would block, having nothing queued or no longer being registered.
     */
    method TakeWake(id: nat) returns (woke: bool)
      modifies this`subscribers
      ensures match FirstEntry(old(subscribers), id)
        case None => !woke && subscribers == old(subscribers)
        case Some(i) =>
          && woke == (old(subscribers)[i].pending > 0)
          && subscribers == if woke then old(subscribers)[i := old(subscribers)[i].(pending := old(subscribers)[i].pending - 1)]
                            else old(subscribers)
      ensures old(Valid()) ==> Valid()
    {
      woke := false;
      match FirstEntry(subscribers, id)
      case None =>
      case Some(i) =>
        if subscribers[i].pending > 0 {
          subscribers := subscribers[i := subscribers[i].(pending := subscribers[i].pending - 1)];
          woke := true;
        }
    }
  }
}
