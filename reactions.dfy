/**
 * The reaction table: message id -> emoji -> addresses that reacted with it.
 * A reaction toggles; an emoji whose last reactor withdraws is removed.
 */
module Reactions {
  import opened IpLists

  type Table = map<int, map<string, seq<string>>>

  /** The emoji map of message `id`, empty when it has none. */
  function EmojisOf(t: Table, id: int): map<string, seq<string>> {
    if id in t then t[id] else map[]
  }

  /** The addresses that reacted to `id` with `emoji`, empty when none. */
  function Reactors(t: Table, id: int, emoji: string): seq<string> {
    if id in t && emoji in t[id] then t[id][emoji] else []
  }

  /** No emoji maps to an empty list and no address reacts twice with one emoji. */
  ghost predicate WellFormed(t: Table) {
    forall id, e :: id in t && e in t[id] ==> t[id][e] != [] && Distinct(t[id][e])
  }

  /**
   * The table after `ip` toggles `emoji` on message `id`, as `react_message`
   * does: message `id` gets an emoji map and no other message changes.
   */
  function Toggle(t: Table, id: int, emoji: string, ip: string): (r: Table)
    ensures r.Keys == t.Keys + {id}
    ensures forall i :: i in t && i != id ==> r[i] == t[i]
  {
    var inner := EmojisOf(t, id);
    var l := Reactors(t, id, emoji);
    var updated :=
      if ip in l then
        var rest := RemoveFirst(l, ip);
        if rest == [] then inner - {emoji} else inner[emoji := rest]
      else
        inner[emoji := l + [ip]];
    t[id := updated]
  }

  /** A toggle changes no other emoji of message `id`. */
  lemma ToggleOtherEmojis(t: Table, id: int, emoji: string, ip: string)
    ensures var r := Toggle(t, id, emoji, ip);
      && id in r
      && (forall e :: e != emoji ==> (e in r[id] <==> e in EmojisOf(t, id)))
      && (forall e :: e != emoji ==> Reactors(r, id, e) == Reactors(t, id, e))
  {
    var inner := EmojisOf(t, id);
    var l := Reactors(t, id, emoji);
    var updated := if ip in l then
        (if RemoveFirst(l, ip) == [] then inner - {emoji} else inner[emoji := RemoveFirst(l, ip)])
      else inner[emoji := l + [ip]];
    assert Toggle(t, id, emoji, ip) == t[id := updated];
    assert forall e :: e != emoji ==> (e in updated <==> e in inner);
    assert forall e :: e != emoji && e in inner ==> updated[e] == inner[e];
  }

  /**
   * What a toggle does to the toggled list: the emoji is present exactly when
   * someone still reacts with it, and the list loses one `ip` if it held one
   * and gains `ip` at its end otherwise.
   */
  lemma ToggleList(t: Table, id: int, emoji: string, ip: string)
    ensures var r := Toggle(t, id, emoji, ip);
      && id in r
      && (emoji in r[id] <==> Reactors(r, id, emoji) != [])
      && (ip in Reactors(t, id, emoji) ==>
            multiset(Reactors(r, id, emoji)) == multiset(Reactors(t, id, emoji)) - multiset{ip})
      && (ip !in Reactors(t, id, emoji) ==> Reactors(r, id, emoji) == Reactors(t, id, emoji) + [ip])
  {
    var l := Reactors(t, id, emoji);
    if ip in l {
      var rest := RemoveFirst(l, ip);
      assert multiset(rest) == multiset(l) - multiset{ip};
    }
  }

  /**
   * On a list without repeats a toggle flips whether `ip` reacted, leaves every
   * other address as it was and keeps the list repeat-free.
   */
  lemma ToggleFlips(t: Table, id: int, emoji: string, ip: string)
    requires Distinct(Reactors(t, id, emoji))
    ensures ip in Reactors(Toggle(t, id, emoji, ip), id, emoji) <==> ip !in Reactors(t, id, emoji)
    ensures forall x :: x != ip ==>
              (x in Reactors(Toggle(t, id, emoji, ip), id, emoji) <==> x in Reactors(t, id, emoji))
    ensures Distinct(Reactors(Toggle(t, id, emoji, ip), id, emoji))
  {
    ToggleList(t, id, emoji, ip);
    var l := Reactors(t, id, emoji);
    var l' := Reactors(Toggle(t, id, emoji, ip), id, emoji);
    if ip in l {
      RemoveFirstDistinct(l, ip);
      assert l' == [] || l' == RemoveFirst(l, ip);
    } else {
      AppendDistinct(l, ip);
    }
  }

  /** Toggling keeps the table well formed: in particular no emoji is left with an empty list. */
  lemma ToggleKeepsWellFormed(t: Table, id: int, emoji: string, ip: string)
    requires WellFormed(t)
    ensures WellFormed(Toggle(t, id, emoji, ip))
  {
    var r := Toggle(t, id, emoji, ip);
    ToggledEntryWellFormed(t, id, emoji, ip);
    forall i, e | i in r && e in r[i] ensures r[i][e] != [] && Distinct(r[i][e]) {
      if i != id {
        assert r[i] == t[i];
      }
    }
  }

  /** On a well-formed table, the toggled message's emoji map has only non-empty, repeat-free lists. */
  lemma ToggledEntryWellFormed(t: Table, id: int, emoji: string, ip: string)
    requires WellFormed(t)
    ensures var r := Toggle(t, id, emoji, ip);
      id in r && forall e :: e in r[id] ==> r[id][e] != [] && Distinct(r[id][e])
  {
    var r := Toggle(t, id, emoji, ip);
    ToggleOtherEmojis(t, id, emoji, ip);
    ToggleList(t, id, emoji, ip);
    ToggleFlips(t, id, emoji, ip);
    forall e | e in r[id] ensures r[id][e] != [] && Distinct(r[id][e]) {
      assert r[id][e] == Reactors(r, id, e);
      if e != emoji {
        assert Reactors(r, id, e) == Reactors(t, id, e);
        assert e in EmojisOf(t, id);
      }
    }
  }

  /**
   * Two toggles by the same address undo each other: every list holds the same
   * addresses as before (a withdrawn-and-renewed reaction may move to the end),
   * other messages are untouched, and the only trace on a well-formed table is
   * an empty emoji map for a message that had none.
   */
  lemma ToggleTwice(t: Table, id: int, emoji: string, ip: string)
    requires Distinct(Reactors(t, id, emoji))
    ensures var tt := Toggle(Toggle(t, id, emoji, ip), id, emoji, ip);
      && tt.Keys == t.Keys + {id}
      && (forall i :: i in t && i != id ==> tt[i] == t[i])
      && (forall e :: multiset(Reactors(tt, id, e)) == multiset(Reactors(t, id, e)))
      && (WellFormed(t) ==> tt[id].Keys == EmojisOf(t, id).Keys)
  {
    var t1 := Toggle(t, id, emoji, ip);
    var tt := Toggle(t1, id, emoji, ip);
    ToggleOtherEmojis(t, id, emoji, ip);
    ToggleOtherEmojis(t1, id, emoji, ip);
    ToggleTwiceSameEmoji(t, id, emoji, ip);
    forall e ensures multiset(Reactors(tt, id, e)) == multiset(Reactors(t, id, e)) {
      if e != emoji {
        assert Reactors(tt, id, e) == Reactors(t1, id, e) == Reactors(t, id, e);
      }
    }
    if WellFormed(t) {
      ToggleTwiceEmojis(t, id, emoji, ip);
    }
  }

  /** On a well-formed table two toggles leave message `id` with the emojis it had. */
  lemma ToggleTwiceEmojis(t: Table, id: int, emoji: string, ip: string)
    requires WellFormed(t)
    ensures var tt := Toggle(Toggle(t, id, emoji, ip), id, emoji, ip);
      id in tt && tt[id].Keys == EmojisOf(t, id).Keys
  {
    var t1 := Toggle(t, id, emoji, ip);
    var tt := Toggle(t1, id, emoji, ip);
    ToggleOtherEmojis(t, id, emoji, ip);
    ToggleOtherEmojis(t1, id, emoji, ip);
    assert EmojisOf(t1, id) == t1[id];
    ToggledEmojiRestored(t, id, emoji, ip);
    forall e ensures e in tt[id] <==> e in EmojisOf(t, id) {
      if e != emoji {
        assert e in tt[id] <==> e in t1[id];
      }
    }
  }

  /** On a well-formed table two toggles keep or drop the toggled emoji as it was. */
  lemma ToggledEmojiRestored(t: Table, id: int, emoji: string, ip: string)
    requires WellFormed(t)
    ensures var tt := Toggle(Toggle(t, id, emoji, ip), id, emoji, ip);
      id in tt && (emoji in tt[id] <==> emoji in EmojisOf(t, id))
  {
    var t1 := Toggle(t, id, emoji, ip);
    var tt := Toggle(t1, id, emoji, ip);
    var l := Reactors(t, id, emoji);
    var l2 := Reactors(tt, id, emoji);
    if emoji !in EmojisOf(t, id) {
      assert l == [];
    }
    assert Distinct(l);
    ToggleList(t1, id, emoji, ip);
    ToggleTwiceSameEmoji(t, id, emoji, ip);
    assert emoji in EmojisOf(t, id) <==> l != [];
    assert l2 == [] <==> l == [] by {
      if l2 == [] { assert multiset(l) == multiset{}; }
      if l == [] { assert multiset(l2) == multiset{}; }
    }
  }

  /** Two toggles leave the toggled list with the same addresses, each as often as before. */
  lemma ToggleTwiceSameEmoji(t: Table, id: int, emoji: string, ip: string)
    requires Distinct(Reactors(t, id, emoji))
    ensures multiset(Reactors(Toggle(Toggle(t, id, emoji, ip), id, emoji, ip), id, emoji))
         == multiset(Reactors(t, id, emoji))
  {
    var t1 := Toggle(t, id, emoji, ip);
    var l := Reactors(t, id, emoji);
    var l1 := Reactors(t1, id, emoji);
    var l2 := Reactors(Toggle(t1, id, emoji, ip), id, emoji);
    ToggleList(t, id, emoji, ip);
    ToggleList(t1, id, emoji, ip);
    ToggleFlips(t, id, emoji, ip);
    if ip in l {
      assert ip !in l1;
      assert l2 == l1 + [ip];
      assert multiset(l1) == multiset(l) - multiset{ip};
    } else {
      assert l1 == l + [ip];
      assert multiset(l2) == multiset(l + [ip]) - multiset{ip};
    }
  }

  /** The table after `ip` toggles `emoji` on message `id` `n` times in a row. */
  function ToggleTimes(t: Table, id: int, emoji: string, ip: string, n: nat): Table
    decreases n
  {
    if n == 0 then t else ToggleTimes(Toggle(t, id, emoji, ip), id, emoji, ip, n - 1)
  }

  /** On the toggled list a toggle is a flip of `ip`. */
  lemma ToggleReactors(t: Table, id: int, emoji: string, ip: string)
    ensures Reactors(Toggle(t, id, emoji, ip), id, emoji) == Flip(Reactors(t, id, emoji), ip)
  {
  }

  /** On the toggled list `n` toggles are `n` flips of `ip`. */
  lemma {:induction false} ToggleTimesReactors(t: Table, id: int, emoji: string, ip: string, n: nat)
    ensures Reactors(ToggleTimes(t, id, emoji, ip, n), id, emoji) == FlipTimes(Reactors(t, id, emoji), ip, n)
    decreases n
  {
    if n > 0 {
      var t1 := Toggle(t, id, emoji, ip);
      ToggleReactors(t, id, emoji, ip);
      ToggleTimesReactors(t1, id, emoji, ip, n - 1);
      assert ToggleTimes(t, id, emoji, ip, n) == ToggleTimes(t1, id, emoji, ip, n - 1);
      assert FlipTimes(Reactors(t, id, emoji), ip, n) == FlipTimes(Reactors(t1, id, emoji), ip, n - 1);
    }
  }

  /**
   * Toggling `n` times leaves `ip` among the reactors exactly when it was
   * there before with `n` even or absent before with `n` odd.
   */
  lemma ToggleParity(t: Table, id: int, emoji: string, ip: string, n: nat)
    requires Distinct(Reactors(t, id, emoji))
    ensures ip in Reactors(ToggleTimes(t, id, emoji, ip, n), id, emoji)
        <==> (ip in Reactors(t, id, emoji) <==> Even(n))
  {
    var l := Reactors(t, id, emoji);
    if ip in l {
      DistinctOnce(l, ip);
    } else {
      assert multiset(l)[ip] == 0;
    }
    ToggleTimesReactors(t, id, emoji, ip, n);
    FlipParity(l, ip, n);
  }
}
