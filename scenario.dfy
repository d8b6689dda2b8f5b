/**
 * A session in room "public" driven through the handlers' contracts, in
 * parts, each on a freshly loaded state: a post that wakes the room's stream
 * only; the listing that shows it; a reaction toggled on and off; a repeated read
 * receipt; an edit by the author and one by another address; a delete; a
 * reaction on an id no message has.
 */
module Scenario {
  import opened Wrappers
  import opened Messages
  import opened Hub
  import opened ChatServer
  import IpLists
  import Reactions

  /** The message A's "hi" becomes: the first id, room "public". */
  function Hi(): Message {
    Message(0, "public", "Ann", "hi", "12:00", "A", "chat", None, "", false)
  }

  /** B's first thumbs-up on message 0 creates its list; the second removes the emoji. */
  lemma ThumbsUpTwice()
    ensures Reactions.Toggle(map[], 0, "👍", "B") == map[0 := map["👍" := ["B"]]]
    ensures Reactions.Toggle(map[0 := map["👍" := ["B"]]], 0, "👍", "B") == map[0 := map[]]
  {
    assert Reactions.Reactors(map[], 0, "👍") == [];
    assert Reactions.EmojisOf(map[], 0) == map[];
    assert [] + ["B"] == ["B"];
    var once: Reactions.Table := map[0 := map["👍" := ["B"]]];
    assert Reactions.Reactors(once, 0, "👍") == ["B"];
    assert IpLists.RemoveFirst(["B"], "B") == [];
  }

  /** Only A, the sender, owns message 0. */
  lemma OwnerOfHi()
    ensures FirstOwned([Hi()], 0, "A") == Some(0)
    ensures FirstOwned([Hi().(text := "hello", edited := true)], 0, "A") == Some(0)
    ensures FirstOwned([Hi().(text := "hello", edited := true)], 0, "B") == None
  {
  }

  /** A's "hi" is not blank, and posted on an empty table it is the only message. */
  lemma PostHi()
    ensures !Text.IsBlank("hi")
    ensures Retain([] + [Hi()]) == [Hi()]
  {
    assert "hi"[0] == 'h';
    assert [] + [Hi()] == [Hi()];
  }

  /** A signal to "public" reaches the public stream and not the private one. */
  lemma SignalPublic(pub: nat, priv: nat)
    ensures Signalled([Subscriber(pub, "public", 0), Subscriber(priv, "private", 0)], "public")
         == [Subscriber(pub, "public", 1), Subscriber(priv, "private", 0)]
  {
  }

  /** After that signal, the private stream's entry is the second and has nothing queued. */
  lemma PrivateEntry(pub: nat, priv: nat)
    requires pub != priv
    ensures FirstEntry([Subscriber(pub, "public", 1), Subscriber(priv, "private", 0)], priv) == Some(1)
  {
    assert [Subscriber(pub, "public", 1), Subscriber(priv, "private", 0)][1..] == [Subscriber(priv, "private", 0)];
  }

  /** The listing of a table holding only "hi" shows it. */
  lemma ListHi()
    ensures Filter([Hi()], "public", -1) == [Hi()]
  {
    assert [Hi()][1..] == [];
  }

  method PostStores() {
    var chat := new ChatState.Load(None, None, None);
    PostHi();

    // A posts "hi": it is stored with id 0.
    chat.Send("Ann", "hi", "public", "chat", None, "", "A", "12:00");
    assert chat.messages == [Hi()];
  }

  method PostWakesRoom() {
    var chat := new ChatState.Load(None, None, None);
    var pub := chat.Subscribe("public");
    var priv := chat.Subscribe("private");
    assert chat.subscribers == [Subscriber(pub, "public", 0), Subscriber(priv, "private", 0)];
    PostHi();
    SignalPublic(pub, priv);

    // The post wakes only the public stream; the private one has nothing to take.
    chat.Send("Ann", "hi", "public", "chat", None, "", "A", "12:00");
    assert chat.subscribers == [Subscriber(pub, "public", 1), Subscriber(priv, "private", 0)];
    PrivateEntry(pub, priv);
    var woke := chat.TakeWake(priv);
    assert !woke;
  }

  method ListPost() {
    var chat := new ChatState.Load(Some([Hi()]), None, None);
    ListHi();

    // The listing shows "hi" with no reactions and no readers.
    var listed := chat.GetMessages("public", -1);
    assert listed == [Listed(Hi(), map[], [])];
  }

  method ReactTwice() {
    var chat := new ChatState.Load(Some([Hi()]), None, None);
    ThumbsUpTwice();

    // B reacts, then reacts again: the reaction comes and goes.
    chat.React(0, "👍", "B");
    assert chat.reactions == map[0 := map["👍" := ["B"]]];
    chat.React(0, "👍", "B");
    assert chat.reactions == map[0 := map[]];
  }

  method ReadTwice() {
    var chat := new ChatState.Load(Some([Hi()]), None, None);

    // C reads it; a second read changes nothing.
    chat.MarkRead(0, "C");
    assert chat.receipts == map[0 := ["C"]];
    chat.MarkRead(0, "C");
    assert chat.receipts == map[0 := ["C"]];
  }

  method EditByOwnerOnly() {
    var chat := new ChatState.Load(Some([Hi()]), None, None);
    OwnerOfHi();

    // A edits it; B may not, and the message stays as A left it.
    var status := chat.Edit(0, "hello", "A");
    assert status == Ok;
    assert chat.messages == [Hi().(text := "hello", edited := true)];
    status := chat.Edit(0, "taken over", "B");
    assert status == Unauthorized;
    assert chat.messages == [Hi().(text := "hello", edited := true)];
  }

  method DeleteHides() {
    var chat := new ChatState.Load(Some([Hi()]), None, None);
    OwnerOfHi();

    // A deletes it: the listing is empty.
    var status := chat.Delete(0, "A");
    assert status == Ok && chat.messages == [];
    var listed := chat.GetMessages("public", -1);
    assert listed == [];
  }

  method ReactOnMissingId() {
    var chat := new ChatState.Load(None, None, None);
    ThumbsUpTwice();

    // A reaction on an id no message has, as after the delete above, is
    // accepted and recorded, with nothing to show it on.
    chat.React(0, "👍", "B");
    assert chat.reactions == map[0 := map["👍" := ["B"]]];
    var listed := chat.GetMessages("public", -1);
    assert listed == [];
  }
}
