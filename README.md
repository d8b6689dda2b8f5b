# Chat state engine of a room-scoped LAN chat server

This project models the in-memory state of `app.py`, a Flask chat server, and
the request handlers that read and update it. The state is:

- the message table and its id counter;
- the reaction table (message id → emoji → addresses);
- the read-receipt table (message id → addresses);
- the presence table (room → address → last heartbeat);
- the registry of open update streams, each with its room and queued wake signals.

`ChatServer.ChatState` is a class with one field per table, plus the counter and
the next stream id. Each handler
is one of its methods, and each method states its new state in terms of a
function of the old state. The functions live in their own modules:

- `Messages`: retention, listing, owner search and room lookup;
- `Reactions`: toggling a reaction;
- `Receipts`: marking a message read;
- `Presence`: heartbeats and pruning;
- `Hub`: signalling and the registry;
- `Persistence`: the key conversion and counter recompute of save and load;
- `Text`: Python's `isspace` and `strip()`, and the narrower set of spaces `int()` skips around a literal;
- `Seqs`: removal by position, shared by the message table and the registry.

Lemmas next to the functions prove what the chat promises:

- a blank post changes nothing;
- ids increase;
- the 1000-message cap holds;
- listing is exact and keeps order;
- edit and delete either are authorized or change nothing;
- a reaction toggles, two toggles restore the reactors, and parity decides the outcome of `n` toggles;
- mark-read is idempotent;
- pruning keeps exactly the entries of the last 15 seconds;
- notification reaches one room only;
- saving then loading gives the tables back.

`ChatState.Valid()` is the state invariant that every handler preserves:
- ids strictly increase and stay below the counter;
- the message table is within the cap;
- no emoji maps to an empty list;
- no address is listed twice in one reaction list or reader list;
- no stream is registered twice.

The `Scenario` module drives a short session through the handlers' contracts:
- post;
- list;
- react twice;
- read twice;
- edit as the author and then as someone else;
- delete;
- react to an id that no message has.

Inputs that the server takes from the outside world become parameters:
- the requester's address `ip`;
- the clock `now` (seconds, as a real);
- the `"HH:MM"` time string;
- each request's fields.

Some of the code's behaviour is easy to misread; the model follows the code:

- **Ids can repeat across a restart.** Within one run ids are never reused. `Send` gives the new message the old counter and adds one to it. No other handler writes the counter. Loading recomputes the counter as the largest id plus one (app.py:57-58). So after the newest message is deleted, a restart hands its id out again (`Persistence.RestartReusesDeletedId`).
- **Evicting old messages leaves data behind.** Dropping the oldest message at the cap removes no reactions or receipts (app.py:158-159). Only delete drops them.
- **Reactions and receipts need no message.** React and mark-read create entries for any id, including one that no message has (app.py:223-227, 252-253).
- **The cap is kept by a single removal** per post (app.py:158-159). A loaded table above 1000 messages stays above it. `Load` therefore ensures `Valid()` only for well-formed loads. The handlers promise `old(Valid()) ==> Valid()` and require nothing.
- **Wake signals queue up per stream.** They are not merged into one flag (app.py:30). `Subscriber.pending` counts them.

## Model

| member | source | states |
|---|---|---|
| ChatServer.ChatState.Load | app.py:49-81 | Start-up. The message table is the loaded list, or empty when the file is missing. The counter is one above the largest loaded id, or 0 when nothing was loaded. Each id-keyed table is the converted file, or empty when the file is missing or a key is not an integer. Presence and streams start empty. |
| ChatServer.ChatState.Notify | app.py:26-30 | Every stream of `room` gets exactly one more queued signal. Streams of other rooms are unchanged. The invariant is kept. |
| ChatServer.ChatState.UpdateStatus | app.py:99-115 | The presence table becomes `Heartbeat` of the old one: the room is created if missing and the address's entry is overwritten. |
| ChatServer.ChatState.GetActiveUsers | app.py:117-129 | An unknown room returns `{}` and creates nothing. Otherwise the room's entries are replaced by `Prune(now)`, the room's entries are returned, and no other room changes. |
| ChatServer.ChatState.Send | app.py:131-163 | A blank text changes neither the messages, nor the counter, nor any stream. Otherwise the message gets id = old counter and is appended; the counter gains one; the oldest message is dropped past the cap; only `room` is signalled. The invariant is kept. |
| ChatServer.ChatState.Post | app.py:155-159 | Append, advance the counter, drop at most the oldest. The invariant is kept when the new id is the counter. |
| ChatServer.ChatState.GetMessages | app.py:165-178 | The listing is, position by position, `Filter(messages, room, after)`. Each message carries its emoji map (default `{}`) and its reader list (default `[]`). State is unchanged. |
| ChatServer.ChatState.FindOwned | app.py:187-188 | The index of the first message whose id and sender address both match, or none; the search is the loop. |
| ChatServer.ChatState.Edit | app.py:180-195 | With an owned message at `i`: `Ok`; only `text` and `edited` of message `i` change; its room is signalled. With none (the id is missing or the address differs): `Unauthorized` and no change at all. |
| ChatServer.ChatState.Delete | app.py:197-214 | With an owned message at `i`: `Ok`; only message `i` is removed and the others keep their order; the id's reactions and receipts are removed; its room is signalled. With none: `Unauthorized` and no table changes. |
| ChatServer.ChatState.Remove | app.py:206-208 | Exactly message `i` and the id's reaction and receipt entries are removed. The invariant is kept. |
| ChatServer.ChatState.LookupRoom | app.py:238-242 | The room of the first message with the id, or `"public"`. |
| ChatServer.ChatState.React | app.py:216-244 | The reaction table becomes `Toggle` of the old one. The room found by `RoomFor` is signalled, even when no message has the id. |
| ChatServer.ChatState.ToggleReaction | app.py:223-234 | The nested dictionary updates equal `Toggle`. The invariant is kept. |
| ChatServer.ChatState.MarkRead | app.py:246-265 | The receipts become `Mark` of the old ones. A repeated read signals no stream. A new read signals the message's room. |
| ChatServer.ChatState.RecordReader | app.py:252-256 | The receipts become `Mark` of the old ones. `added` is true exactly when the address had not read the message. The invariant is kept. |
| ChatServer.ChatState.Subscribe | app.py:270-272 | A fresh stream id is appended with the room and nothing queued. The invariant is kept. |
| ChatServer.ChatState.Unsubscribe | app.py:278-282 | The first entry holding the stream is removed and the rest keep their order. Without such an entry nothing changes. The invariant is kept. |
| ChatServer.ChatState.TakeWake | app.py:274-277 | A registered stream with queued signals takes one. Otherwise it gets `false` and nothing changes; this is where the source would block. |
| Hub.Signalled | app.py:28-30 | Entry by entry, the ids and rooms are kept, and `pending` grows by one exactly for entries whose room is `room`. |
| Hub.SignalKeepsRegistered | app.py:28-30 | Signalling keeps stream ids distinct and below the next id. |
| Hub.SignalsCommute | app.py:26-30 | Signals to two rooms give the same registry in either order. |
| Hub.SubscribeKeepsRegistered | app.py:271-272 | Registering the next id keeps the registry consistent. |
| Hub.UnsubscribeKeepsRegistered | app.py:279-282 | Removing an entry keeps the registry consistent, and no entry with that stream id remains. |
| Hub.FirstEntry | app.py:279-280 | The first entry with the stream id, or none when there is no entry with it. |
| Messages.Retain | app.py:158-159 | Past the cap exactly one message goes, and it is the oldest; the result is a suffix of the input. |
| Messages.RetainAfterPost | app.py:155-159 | From a table within the cap, a post stays within 1000. The result is the old table, without its oldest at exactly 1000, followed by the new message. |
| Messages.PostKeepsIds | app.py:143-156 | With the counter as its id, a post keeps ids strictly increasing and below the new counter. The new id exceeds every stored id. |
| Messages.SuffixKeepsIds | app.py:159 | Dropping the oldest messages keeps ids increasing and below the counter. |
| Messages.EditAt | app.py:189-190 | Only entry `i` changes, and only in `text` and `edited`. |
| Messages.EditKeepsIds | app.py:189-190 | Editing keeps the id order and bound. |
| Seqs.RemoveAt | app.py:206 | The list without entry `i`, the others in order: the message table's `pop(i)`, and also the registry's `remove(item)` of the entry found at app.py:279-281. |
| Messages.DeleteKeepsIds | app.py:206 | Removing a message keeps the id order and bound, and its id no longer occurs. |
| Messages.Filter | app.py:171 | A message is in the listing exactly when it is stored, its room matches and its id exceeds `after`. |
| Messages.FilterAppend | app.py:171 | Listing a concatenation is the concatenation of the listings, so the listing keeps stored order. |
| Messages.FilterKeepsOrder | app.py:171 | On a table with increasing ids the listing's ids increase. |
| Messages.IncreasingCons | app.py:171 | A message below every id of an increasing list can go first. |
| Messages.ListingShowsPost | app.py:155-171 | For any `after` below its id, a post is the last message listed for its room, after the room's kept earlier messages. |
| Messages.FirstOwned | app.py:187-188 | The first index whose id and sender address match, or none exactly when no message matches. |
| Messages.FirstWithId | app.py:239-241 | The first index with the id, or none exactly when no message has it. |
| Messages.RoomFor | app.py:238-242 | `"public"` when no message has the id, otherwise the room of the first that does. |
| Messages.ListingAfterDelete | app.py:206 | After a delete, no listing of any room shows the deleted id. |
| IpLists.IndexOf | app.py:230 | The first position of the address. |
| IpLists.RemoveFirst | app.py:230 | `list.remove`: the length drops by one, the multiset loses one copy, and other addresses keep their membership. |
| IpLists.RemoveFirstDistinct | app.py:229-230 | On a repeat-free list the address is gone after removal and the list stays repeat-free. |
| IpLists.AppendDistinct | app.py:234 | Appending an absent address keeps the list repeat-free. |
| IpLists.DistinctOnce | app.py:255-256 | In a repeat-free list a present address occurs exactly once. |
| IpLists.Flip | app.py:229-234 | The reactor list after one toggle: `remove(ip)` when present, `append(ip)` otherwise. A definition with no contract; `FlipDistinct`, `FlipCount` and `FlipParity` state what it does. |
| IpLists.FlipTimes | app.py:229-234 | `n` successive flips of one address. A definition with no contract; `FlipParity` states what it does. |
| IpLists.FlipDistinct | app.py:229-234 | A flip on a repeat-free list flips the address's presence and keeps the list repeat-free. |
| IpLists.FlipCount | app.py:229-234 | A flip changes the address's count by exactly one, and on a count of at most one it flips presence. |
| IpLists.FlipParity | app.py:229-234 | After `n` flips the address is present when it started present and `n` is even, or started absent and `n` is odd. |
| Reactions.Toggle | app.py:223-234 | The reaction table after `react_message`'s nested dictionary updates. The message id becomes a key and no other message's emoji map changes. Its effect on the emoji map is stated by the lemmas below. |
| Reactions.ToggleOtherEmojis | app.py:226-234 | A toggle changes no other emoji of the message. |
| Reactions.ToggleList | app.py:229-234 | The toggled emoji stays exactly when someone still reacts with it. A present address loses one copy; an absent one is appended. |
| Reactions.ToggleFlips | app.py:229-234 | On a repeat-free list the toggle flips whether the address reacted, leaves every other address's membership as it was, and keeps the list repeat-free. |
| Reactions.ToggleKeepsWellFormed | app.py:229-232 | No emoji is left with an empty list, and lists stay repeat-free. |
| Reactions.ToggledEntryWellFormed | app.py:229-232 | The toggled message's emoji map holds only non-empty, repeat-free lists. |
| Reactions.ToggleTwice | app.py:223-234 | Two toggles by one address leave every list of the message with the same addresses and counts, and other messages unchanged. The message id becomes a key, so the only trace on a message without reactions is an empty `{}`. On a well-formed table the emoji set is restored. |
| Reactions.ToggleTwiceEmojis | app.py:226-232 | On a well-formed table two toggles restore the message's emoji set. |
| Reactions.ToggledEmojiRestored | app.py:226-232 | On a well-formed table two toggles keep the toggled emoji exactly when it was there before. |
| Reactions.ToggleTwiceSameEmoji | app.py:229-234 | Two toggles restore the toggled list's multiset. |
| Reactions.ToggleTimes | app.py:223-234 | `n` successive `react_message` calls by one address with one emoji. A definition with no contract; `ToggleTimesReactors` and `ToggleParity` state what it does. |
| Reactions.ToggleReactors | app.py:229-234 | The toggled list after a toggle is `Flip` of the list before it. |
| Reactions.ToggleTimesReactors | app.py:229-234 | The toggled list after `n` toggles is `n` flips of the list before them. |
| Reactions.ToggleParity | app.py:229-234 | After `n` toggles the address reacts when it reacted before and `n` is even, or did not and `n` is odd. |
| Receipts.Mark | app.py:252-256 | Afterwards the address has read the message. Marking again changes nothing. The reader list only gains the address, at its end. Other messages keep their entries. |
| Receipts.MarkIdempotent | app.py:255-256 | Marking twice equals marking once. |
| Receipts.MarkRecordsOnce | app.py:252-256 | On a well-formed table the address occurs exactly once among the readers, the table stays well formed, and no other message changes. |
| Presence.Prune | app.py:125-127 | An entry is kept exactly when at most 15 seconds old, unchanged, and no entry is added. |
| Presence.Heartbeat | app.py:107-114 | The room exists. The address's entry is the new nickname, avatar and time. Other rooms and other addresses are unchanged. |
| Presence.PruneIdempotent | app.py:125-127 | A second read at the same time prunes nothing more. |
| Presence.PruneLater | app.py:125-127 | Pruning at an earlier read and then at a later one equals pruning once at the later read. |
| Presence.HeartbeatVisible | app.py:110-127 | A heartbeat at `now` is listed by a read at `at` exactly when `at - now <= 15`. |
| Text.IsWhitespace | app.py:141 | Python's `str.isspace()` for one character; the set `strip()` drops. A definition with no contract. |
| Text.IsAsciiSpace | app.py:68 | The six characters `" \t\n\v\f\r"` that CPython's integer parser skips. A definition with no contract. |
| Text.IsLiteralSpace | app.py:68 | The characters `int()` skips around a literal: the six ASCII spaces, and every `isspace` character from U+007F up. U+001C to U+001F are not among them, though `isspace()` accepts them. A definition with no contract; `IntTrimsLiteralSpaces` states what it does. |
| Text.IsBlank | app.py:141 | Every character is whitespace, the empty text included. A definition with no contract; `StripEmptyIffBlank` ties it to `strip()`. |
| Text.SkipForward | app.py:141 | The first position at or after `i` that is not a space of the given kind. |
| Text.SkipBackward | app.py:141 | The end of the span once trailing spaces of the given kind are dropped. |
| Text.Strip | app.py:141 | The result is a slice `s[a..b]` of the text with only spaces of the given kind before `a` and from `b` on, and a non-empty result has no such space at either end; so it is the text with its leading and trailing spaces removed. `Strip(Unicode, s)` is `s.strip()`. |
| Text.StripEmptyIffBlank | app.py:141 | `text.strip()` is empty exactly when every character is whitespace in Python's sense. |
| Text.StripNoOp | app.py:68 | A string with no space of the given kind at either end is unchanged by trimming. |
| Persistence.NatToString | app.py:39 | `str(n)` is a non-empty string of digits. |
| Persistence.IntToString | app.py:39 | `str(k)` is non-empty and starts with a minus sign exactly for a negative key. |
| Persistence.NatDigitsValue | app.py:68 | The digits of `str(n)` spell `n`. |
| Persistence.NatDigitsWellFormed | app.py:68 | `str(n)` is a literal `int()` accepts, with neither sign nor whitespace at its ends. |
| Persistence.ParseInt | app.py:68 | `int(k)` on a key: optional spaces, an optional sign, then digits with single underscores between them, then optional spaces. Failure (`ValueError`) is `None`; the digit limit of newer interpreters is not modelled (see "## Left out"). A definition with no contract; `KeyRoundTrip` and `IntTrimsLiteralSpaces` state what it does. |
| Persistence.IntTrimsLiteralSpaces | app.py:68 | Trailing and leading ASCII spaces are skipped, so `int(" 5\n")` is 5, and so is a non-ASCII space: `int("5\u00a0")` is 5. A leading U+001C makes the key fail, though `isspace()` holds of it, and it fails still when a U+00A0 follows the digits. |
| Persistence.KeyRoundTrip | app.py:68 | `int(str(k)) == k` for every integer key, negative ones included, on interpreters without a digit limit and for every key of at most 4300 digits on those with one (see `Persistence.ParseInt` under "## Left out"). |
| Persistence.NegativeLiteral | app.py:68 | A minus sign followed by well-formed ASCII digits parses to the negated value of the digits. |
| Persistence.MinusKey | app.py:68 | A minus sign before the digits of `-n` parses to `n`. |
| Persistence.KeysInjective | app.py:39 | Distinct ids are saved under distinct keys. |
| Persistence.SaveKeys | app.py:39 | Each id is saved under `str(id)` with its value, and every saved key is some id's. |
| Persistence.LoadKeys | app.py:68 | `{int(k): v ...}` over a file's entries succeeds exactly when every key parses, and its keys are then exactly the parsed ids. |
| Persistence.LoadTable | app.py:64-81 | One id-keyed table as loading leaves it: empty when the file is missing or undecodable, or when `LoadKeys` fails; otherwise the loaded table. A definition with no contract. |
| Persistence.SeparatorKeyLoadsNothing | app.py:64-71 | A file whose one key is U+001C, `5`, U+00A0 loads as `{}`: `int()` raises `ValueError` on the key and the `except` leaves the table empty. |
| Persistence.LoadKeysOfEntries | app.py:68 | Entries whose keys parse to ids of a table, with those ids' values, load to that table restricted to the ids listed. |
| Persistence.SaveThenLoad | app.py:39-78 | Any file listing exactly the saved entries, in any order, loads to the table that was saved. |
| Persistence.SavedEntryParses | app.py:39-68 | A saved entry's key parses to the id its value belongs to. |
| Persistence.SavedKeyParsed | app.py:39-68 | An id whose saved key is listed is among the parsed ids. |
| Persistence.ParsedIdsHas | app.py:68 | Every key that parses contributes its id. |
| Persistence.MaxId | app.py:58 | An upper bound of the loaded ids that some message has. |
| Persistence.NextId | app.py:57-58 | Unchanged when nothing was loaded. Otherwise above every loaded id, and exactly one above some loaded id. |
| Persistence.NextIdOfIncreasing | app.py:58 | With increasing ids the recomputed counter is the last id plus one. |
| Persistence.RestartCounter | app.py:57-58 | After a restart the counter is above every loaded id and never above the counter the table was saved with. |
| Persistence.RestartReusesDeletedId | app.py:57-58 | Deleting the newest of ids 0 and 1 and restarting sets the counter back to 1, the deleted id. |

## Left out

- Flask plumbing is not modelled: routing, reading `request.json` and `request.args`, the request defaults (`'Anonymous'`, `'public'`, `''`, `'chat'` for `type`, `None` for `target`, `-1`, `'👍'`), `jsonify`, the HTML page, `/my_ip`, `/ping` and the captive-portal redirects (app.py:84-97). Handlers take their fields as parameters and return values instead of responses.
- JSON values of unexpected types are not modelled. Ids are integers, rooms and addresses are strings, and no stored message lacks a field. So `msg.get('room', 'public')`, `str(room)` and `KeyError` on malformed stored messages have nothing to act on.
- File I/O, JSON encoding and exception handling in `save_all_data` and `load_data` are not modelled. Each file arrives at `Load` as an optional value: absent when missing or undecodable. A reaction or receipt file is the decoded object's items, in order. A key repeated in the file is already one item there, as `json.load` leaves it. Saving is modelled only by its key conversion `SaveKeys`. The messages are written unchanged.
- Persistence.ParseInt: does not accept the non-ASCII Unicode digits Python's `int()` also accepts. A key holding them loads as a failure here. It also has no limit on the number of digits: CPython 3.11 and later, and the 3.7.14, 3.8.14, 3.9.14 and 3.10.7 security releases, make `int()` raise `ValueError` on a literal of more than 4300 digits (underscores not counted) and `str()` raise on such an integer, by default. On those interpreters a reactions or receipts file with such a key loads as `{}`, while the model loads it, and `KeyRoundTrip` holds only for keys of at most 4300 digits. No such key reaches the tables at run time, since the request's JSON decoding refuses the literal first. Whitespace around a key is otherwise modelled as CPython treats it: the six ASCII spaces and non-ASCII `isspace` characters are skipped, and U+001C to U+001F are not.
- The clock is a parameter. `time.time()` becomes the real `now` and `time.strftime("%H:%M")` the string `time`. Floating-point rounding in the 15-second comparison is not modelled.
- Blocking and streaming are not modelled: the blocking `q.get()`, the generator that yields `data: update`, and `GeneratorExit`. Queue identity becomes a stream id handed out by `Subscribe`. `TakeWake` returns `false` where the stream would block.
- Concurrency is not modelled. The server runs handlers on several threads (`threaded=True`) without any lock. The model runs them one at a time, so interleavings and races are outside it.
- The self-ping thread, `requests` and `app.run` are not modelled (app.py:290-317); neither are the log messages.
