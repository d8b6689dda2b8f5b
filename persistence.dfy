/**
 * What saving and loading do to the tables beyond JSON encoding: integer
 * message-id keys are written as decimal strings and read back with Python's
 * `int()`, and the id counter is recomputed from the loaded messages.
 */
module Persistence {
  import opened Wrappers
  import opened Seqs
  import opened Text
  import opened Messages

  predicate IsDigit(c: char) {
    '0' <= c <= '9'
  }

  function DigitValue(c: char): nat
    requires IsDigit(c)
  {
    c as int - '0' as int
  }

  function DigitChar(d: nat): (c: char)
    requires d < 10
    ensures IsDigit(c) && DigitValue(c) == d
  {
    ('0' as int + d) as char
  }

  /** Python's `str(n)` for a non-negative integer. */
  function NatToString(n: nat): (s: string)
    ensures s != [] && forall i :: 0 <= i < |s| ==> IsDigit(s[i])
    decreases n
  {
    if n < 10 then [DigitChar(n)] else NatToString(n / 10) + [DigitChar(n % 10)]
  }

  /** Python's `str(k)` for an integer key. */
  function IntToString(n: int): (s: string)
    ensures s != [] && (s[0] == '-' <==> n < 0)
  {
    if n < 0 then "-" + NatToString(-n) else NatToString(n)
  }

  /**
   * The digits part of an integer literal as `int()` accepts it: decimal
   * digits, with single underscores allowed between two digits.
   */
  predicate DigitsWellFormed(s: string) {
    && s != []
    && IsDigit(s[0]) && IsDigit(s[|s| - 1])
    && (forall i :: 0 <= i < |s| ==> IsDigit(s[i]) || s[i] == '_')
    && (forall i :: 0 <= i < |s| - 1 ==> !(s[i] == '_' && s[i + 1] == '_'))
  }

  /** The number the digits of `s` spell, underscores ignored. */
  function DigitsValue(s: string): nat
    requires forall i :: 0 <= i < |s| ==> IsDigit(s[i]) || s[i] == '_'
  {
    if s == [] then 0
    else
      var last := s[|s| - 1];
      var front := DigitsValue(s[..|s| - 1]);
      if last == '_' then front else front * 10 + DigitValue(last)
  }

  /** Python's `int(s)` on a string: `None` where it raises `ValueError`. */
  function ParseInt(s: string): Option<int> {
    var t := Strip(Literal, s);
    if t == [] then None
    else if t[0] == '-' || t[0] == '+' then
      var body := t[1..];
      if DigitsWellFormed(body) then
        var v: int := DigitsValue(body);
        Some(if t[0] == '-' then -v else v)
      else None
    else if DigitsWellFormed(t) then Some(DigitsValue(t))
    else None
  }

  /**
   * `int()` skips ASCII spaces and non-ASCII whitespace around a key, but not
   * U+001C to U+001F, though `isspace()` accepts them, whatever else the key
   * holds.
   */
  lemma IntTrimsLiteralSpaces()
    ensures ParseInt(" 5\n") == Some(5)
    ensures ParseInt("5\U{A0}") == Some(5)
    ensures ParseInt("\U{1C}5") == None
    ensures ParseInt("\U{1C}5\U{A0}") == None
  {
    AsciiSpacesTrimmed();
    WideSpaceTrimmed();
    SeparatorKept();
    SeparatorKeptBesideWideSpace();
  }

  lemma AsciiSpacesTrimmed()
    ensures ParseInt(" 5\n") == Some(5)
  {
    assert Strip(Literal, " 5\n") == "5";
  }

  lemma WideSpaceTrimmed()
    ensures ParseInt("5\U{A0}") == Some(5)
  {
    assert "5\U{A0}"[1] as int == 0xA0;
    assert Strip(Literal, "5\U{A0}") == "5";
  }

  lemma SeparatorKept()
    ensures ParseInt("\U{1C}5") == None
  {
    assert Strip(Literal, "\U{1C}5") == "\U{1C}5";
  }

  lemma SeparatorKeptBesideWideSpace()
    ensures ParseInt("\U{1C}5\U{A0}") == None
  {
    var key := "\U{1C}5\U{A0}";
    assert key[2] as int == 0xA0 && key[1] == '5' && key[0] as int == 0x1C;
    assert SkipForward(Literal, key, 0) == 0;
    assert SkipBackward(Literal, key, 0, 2) == 2;
    assert SkipBackward(Literal, key, 0, 3) == 2;
    assert key[0..2] == "\U{1C}5";
  }

  /** The decimal digits of `n` read back give `n`. */
  lemma {:induction false} NatDigitsValue(n: nat)
    ensures DigitsValue(NatToString(n)) == n
    decreases n
  {
    var s := NatToString(n);
    if n >= 10 {
      NatDigitsValue(n / 10);
      assert s[..|s| - 1] == NatToString(n / 10);
    } else {
      assert s[..|s| - 1] == [];
    }
  }

  /** The decimal digits of `n` form a literal `int()` accepts. */
  lemma NatDigitsWellFormed(n: nat)
    ensures DigitsWellFormed(NatToString(n))
    ensures !IsLiteralSpace(NatToString(n)[0]) && NatToString(n)[0] != '-' && NatToString(n)[0] != '+'
    ensures !IsLiteralSpace(NatToString(n)[|NatToString(n)| - 1])
  {
  }

  /** A saved key parses back to the id it was written from. */
  lemma KeyRoundTrip(n: int)
    ensures ParseInt(IntToString(n)) == Some(n)
  {
    if n < 0 { NegativeKeyRoundTrip(n); } else { NatKeyRoundTrip(n); }
  }

  lemma NatKeyRoundTrip(n: nat)
    ensures ParseInt(IntToString(n)) == Some(n)
  {
    var digits := NatToString(n);
    NatDigitsWellFormed(n);
    NatDigitsValue(n);
    StripNoOp(Literal, digits);
  }

  lemma NegativeKeyRoundTrip(n: int)
    requires n < 0
    ensures ParseInt(IntToString(n)) == Some(n)
  {
    var digits := NatToString(-n);
    NatDigitsWellFormed(-n);
    NatDigitsValue(-n);
    MinusKey(n, digits);
    assert IntToString(n) == "-" + digits;
  }

  lemma MinusKey(n: int, digits: string)
    requires n < 0 && DigitsWellFormed(digits) && DigitsValue(digits) == -n
    ensures ParseInt("-" + digits) == Some(n)
  {
    NegativeLiteral(digits);
  }

  /** A minus sign before well-formed digits parses to the negated digits' value. */
  lemma NegativeLiteral(digits: string)
    requires DigitsWellFormed(digits)
    ensures ParseInt("-" + digits) == Some(-(DigitsValue(digits) as int))
  {
    var s := "-" + digits;
    assert s[|s| - 1] == digits[|digits| - 1];
    StripNoOp(Literal, s);
    assert s[1..] == digits;
  }

  /** Distinct ids are written as distinct keys. */
  lemma KeysInjective()
    ensures forall a, b :: IntToString(a) == IntToString(b) ==> a == b
  {
    forall a, b | IntToString(a) == IntToString(b) ensures a == b {
      KeyRoundTrip(a);
      KeyRoundTrip(b);
    }
  }

  /** The dictionary `{str(k): v for k, v in table.items()}` that saving writes. */
  function SaveKeys<V>(table: map<int, V>): (r: map<string, V>)
    ensures forall k :: k in table ==> IntToString(k) in r && r[IntToString(k)] == table[k]
    ensures forall s :: s in r ==> exists k :: k in table && s == IntToString(k)
  {
    KeysInjective();
    map k | k in table :: IntToString(k) := table[k]
  }

  /**
   * `{int(k): v for k, v in loaded.items()}` over the decoded object's items
   * in order: `None` when some key is not an integer literal (the whole table then
   * fails to load); of two keys naming the same id, the later one wins.
   */
  function LoadKeys<V>(entries: seq<(string, V)>): (r: Option<map<int, V>>)
    ensures r.Some? <==> forall i :: 0 <= i < |entries| ==> ParseInt(entries[i].0).Some?
    ensures r.Some? ==> r.value.Keys == ParsedIds(entries)
  {
    if entries == [] then Some(map[])
    else
      var last := entries[|entries| - 1];
      assert forall i :: 0 <= i < |entries| - 1 ==> entries[..|entries| - 1][i] == entries[i];
      match LoadKeys(entries[..|entries| - 1])
      case None => None
      case Some(m) =>
        match ParseInt(last.0)
        case None => None
        case Some(k) => Some(m[k := last.1])
  }

  /** The ids the keys of `entries` parse to (those that parse). */
  ghost function ParsedIds<V>(entries: seq<(string, V)>): set<int> {
    if entries == [] then {}
    else
      var front := ParsedIds(entries[..|entries| - 1]);
      match ParseInt(entries[|entries| - 1].0)
      case None => front
      case Some(k) => front + {k}
  }

  /** `table` restricted to the ids in `ids`. */
  ghost function Restrict<V>(table: map<int, V>, ids: set<int>): map<int, V> {
    map k | k in table && k in ids :: table[k]
  }

  /** An entry whose key parses to an id of `table` and whose value is that id's. */
  ghost predicate EntryOf<V>(table: map<int, V>, e: (string, V)) {
    ParseInt(e.0).Some? && ParseInt(e.0).value in table && e.1 == table[ParseInt(e.0).value]
  }

  /**
   * Loading entries whose every key parses to an id of `table` with that id's
   * value gives `table` restricted to the ids listed.
   */
  lemma {:induction false} LoadKeysOfEntries<V>(table: map<int, V>, entries: seq<(string, V)>)
    requires forall i :: 0 <= i < |entries| ==> EntryOf(table, entries[i])
    ensures LoadKeys(entries) == Some(Restrict(table, ParsedIds(entries)))
  {
    var n := |entries|;
    if n == 0 {
      assert Restrict(table, {}) == map[];
    } else {
      var front := entries[..n - 1];
      var last := entries[n - 1];
      assert forall i :: 0 <= i < n - 1 ==> front[i] == entries[i];
      LoadKeysOfEntries(table, front);
      assert EntryOf(table, last);
      var k := ParseInt(last.0).value;
      var before := ParsedIds(front);
      assert ParsedIds(entries) == before + {k};
      assert LoadKeys(entries) == Some(Restrict(table, before)[k := last.1]);
      RestrictInsert(table, before, k);
    }
  }

  lemma RestrictInsert<V>(table: map<int, V>, ids: set<int>, k: int)
    requires k in table
    ensures Restrict(table, ids)[k := table[k]] == Restrict(table, ids + {k})
  {
  }

  /**
   * Saving then loading gives back the same table: any file listing exactly the
   * saved entries, in whatever order, loads to the table that was saved.
   */
  lemma SaveThenLoad<V>(table: map<int, V>, entries: seq<(string, V)>)
    requires forall i :: 0 <= i < |entries| ==>
      entries[i].0 in SaveKeys(table) && entries[i].1 == SaveKeys(table)[entries[i].0]
    requires forall s :: s in SaveKeys(table) ==> exists i :: 0 <= i < |entries| && entries[i].0 == s
    ensures LoadKeys(entries) == Some(table)
  {
    SavedEntriesParse(table, entries);
    LoadKeysOfEntries(table, entries);
    SavedKeysParsed(table, entries);
    RestrictToAll(table, ParsedIds(entries));
  }

  lemma SavedEntriesParse<V>(table: map<int, V>, entries: seq<(string, V)>)
    requires forall i :: 0 <= i < |entries| ==>
      entries[i].0 in SaveKeys(table) && entries[i].1 == SaveKeys(table)[entries[i].0]
    ensures forall i :: 0 <= i < |entries| ==> EntryOf(table, entries[i])
  {
    forall i | 0 <= i < |entries| ensures EntryOf(table, entries[i]) {
      SavedEntryParses(table, entries[i]);
    }
  }

  lemma SavedKeysParsed<V>(table: map<int, V>, entries: seq<(string, V)>)
    requires forall s :: s in SaveKeys(table) ==> exists i :: 0 <= i < |entries| && entries[i].0 == s
    ensures table.Keys <= ParsedIds(entries)
  {
    forall k | k in table ensures k in ParsedIds(entries) {
      assert IntToString(k) in SaveKeys(table);
      SavedKeyParsed(table, entries, k);
    }
  }

  lemma RestrictToAll<V>(table: map<int, V>, ids: set<int>)
    requires table.Keys <= ids
    ensures Restrict(table, ids) == table
  {
  }

  /** A saved entry's key parses back to the id its value belongs to. */
  lemma SavedEntryParses<V>(table: map<int, V>, e: (string, V))
    requires e.0 in SaveKeys(table) && e.1 == SaveKeys(table)[e.0]
    ensures EntryOf(table, e)
  {
    var k :| k in table && e.0 == IntToString(k);
    KeyRoundTrip(k);
  }

  /** An id whose saved key some entry carries is among the ids the entries parse to. */
  lemma SavedKeyParsed<V>(table: map<int, V>, entries: seq<(string, V)>, k: int)
    requires exists i :: 0 <= i < |entries| && entries[i].0 == IntToString(k)
    ensures k in ParsedIds(entries)
  {
    var i :| 0 <= i < |entries| && entries[i].0 == IntToString(k);
    KeyRoundTrip(k);
    ParsedIdsHas(entries, i);
  }

  /** The id of every entry whose key parses is among the parsed ids. */
  lemma {:induction false} ParsedIdsHas<V>(entries: seq<(string, V)>, i: nat)
    requires i < |entries| && ParseInt(entries[i].0).Some?
    ensures ParseInt(entries[i].0).value in ParsedIds(entries)
  {
    var n := |entries|;
    if i < n - 1 {
      var front := entries[..n - 1];
      assert front[i] == entries[i];
      ParsedIdsHas(front, i);
    }
  }

  /** A table as loading leaves it: empty when the file is missing, undecodable or has a bad key. */
  function LoadTable<V>(file: Option<seq<(string, V)>>): map<int, V> {
    match file
    case None => map[]
    case Some(entries) =>
      match LoadKeys(entries)
      case None => map[]
      case Some(table) => table
  }

  /** A reaction file whose one key starts with U+001C loads as an empty table. */
  lemma SeparatorKeyLoadsNothing()
    ensures LoadTable(Some([("\U{1C}5\U{A0}", 7)])) == map[]
  {
    SeparatorKeptBesideWideSpace();
    assert [("\U{1C}5\U{A0}", 7)][0].0 == "\U{1C}5\U{A0}";
  }

  /** The largest id among the loaded messages: `max(msg['id'] for msg in messages)`. */
  function MaxId(ms: seq<Message>): (r: int)
    requires ms != []
    ensures forall i :: 0 <= i < |ms| ==> ms[i].id <= r
    ensures exists i :: 0 <= i < |ms| && ms[i].id == r
  {
    if |ms| == 1 then ms[0].id
    else
      var rest := MaxId(ms[1..]);
      assert forall i :: 1 <= i < |ms| ==> ms[i] == ms[1..][i - 1];
      if ms[0].id >= rest then ms[0].id else rest
  }

  /**
   * The counter after loading `ms` over a counter `counter`: one past the
   * largest loaded id, or unchanged when no message was loaded.
   */
  function NextId(ms: seq<Message>, counter: int): (r: int)
    ensures ms == [] ==> r == counter
    ensures ms != [] ==> IdsBelow(ms, r) && exists i :: 0 <= i < |ms| && ms[i].id == r - 1
  {
    if ms == [] then counter else MaxId(ms) + 1
  }

  /** A loaded table with increasing ids has its last id as the largest. */
  lemma NextIdOfIncreasing(ms: seq<Message>, counter: int)
    requires ms != [] && IdsIncreasing(ms)
    ensures NextId(ms, counter) == ms[|ms| - 1].id + 1
  {
  }

  /**
   * Restarting from a saved table with increasing ids puts the counter above
   * every loaded id, and never above the counter the table was saved with.
   */
  lemma RestartCounter(ms: seq<Message>, counter: int)
    requires ms != [] && IdsIncreasing(ms) && IdsBelow(ms, counter)
    ensures IdsBelow(ms, NextId(ms, 0)) && NextId(ms, 0) <= counter
  {
    NextIdOfIncreasing(ms, 0);
  }

  /**
   * A restart can hand out an id again: after the newest message is deleted,
   * the recomputed counter is that message's id.
   */
  lemma RestartReusesDeletedId(a: Message, b: Message)
    requires a.id == 0 && b.id == 1
    ensures NextId(RemoveAt([a, b], 1), 0) == b.id
  {
    assert RemoveAt([a, b], 1) == [a];
  }
}
