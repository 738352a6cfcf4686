# Keylogger dashboard: hub state and enforcement agent

This project models the two stateful parts of the keylogger dashboard.

**The hub (`app.py`).** The hub keeps three things:

- the presence table `clients`, keyed on `client_id`, with a status, a connection id (`sid`) and an IP address per row;
- the append-only violation `history`;
- the blocked-word file, an ordered list of words kept unique case-insensitively.

The socket handlers and the word-management form change these. Every emit is appended to an outbox and tagged as a broadcast or as a reply to one connection.

**The enforcement agent (`main.py`).** The agent keeps:

- a cached copy of the word list;
- a keystroke buffer;
- a lock flag that stands for the full-screen overlay and the blocked keys;
- the connection flag;
- an outbox of messages to the hub.

Files:

- `text.dfy` (module `Text`) has the string operations used by both sides. They are ASCII case folding for `str.lower`, trimming for `str.strip` (ASCII whitespace as Python defines it) and substring search for `in`.
- `registry.dfy` (module `WordRegistry`) has the add, delete and edit rules as pure functions on the word list. It also has the lemmas that each rule keeps the list free of case-insensitive duplicates.
- `hub.dfy` (module `HubState`) has class `Hub`. The table operations are functions on maps. The handlers are methods whose postconditions state the new tables, the word file and the outbox in terms of those functions.
- `agent.dfy` (module `EnforcementAgent`) has class `Agent`. Its callbacks are methods. `FirstMatch` specifies the word scan of a key press. The client method `LockUnlockRoundTrip` plays through this sequence:
  1. connect;
  2. receive the list `["banned"]`;
  3. type "xbanned";
  4. lock;
  5. enter a wrong password;
  6. unlock with "ADMIN".
- `wrappers.dfy` (module `Wrappers`) has `Option`. It models an absent dictionary key or file.

Conventions:

- In the hub's socket handlers, a payload field that is missing is `None`. The Python handler then raises `KeyError` before it changes anything, so the model changes nothing and emits nothing. The agent's handler of `blocked_words_update` takes the list as given, because the hub always sends the `blocked_words` key (app.py:156, 280).
- A form field that is missing is the empty string, as `request.form.get(name, '')` returns.
- The form's action is a closed enumeration. Any other action, or none, is `UnknownAction`.

Behaviours of the code worth knowing (the model follows the code):

- On `status`, an empty `client_id` is accepted. Only a missing one is rejected.
- On disconnect, the rows of that connection are deleted, not marked offline.
- The agent does not clear its buffer when a new word list arrives.
- `/update_status` only rewrites the table row. It sends nothing to the agent.
- Renaming a word to itself counts as a write, so the list is rewritten and broadcast again.
- On connect, the agent reports `enabled` even while it is locked (main.py:59). Its `disabled` row was already deleted by the hub on disconnect, so a locked agent that reconnects shows as enabled on the dashboard.

## Model

| member | source | states |
|---|---|---|
| `Text.LowerChar` | app.py:253 | `str.lower` on one character: ASCII 'A'..'Z' move up by 32 to 'a'..'z', and every other character is unchanged |
| `Text.Lower` | app.py:253 | `str.lower` on a string: the length is kept, only the ASCII letters 'A'..'Z' are folded to lower case, and every other character is unchanged |
| `Text.LowerEqualIffCaseVariant` | app.py:253 | two words collide under `lower()` exactly when they have the same length and, position by position, are equal or the same ASCII letter in different case |
| `Text.LowerIdempotent` | app.py:253 | lower-casing a lower-cased word changes nothing |
| `Text.LeadLen` | app.py:252 | the count of leading characters removed by `strip`: all of them whitespace, and the next one is not |
| `Text.TrailLen` | app.py:252 | the count of trailing characters removed by `strip`: all of them whitespace, and the one before is not |
| `Text.Strip` | app.py:252 | the stripped word is a slice of the input. It neither starts nor ends with whitespace, and every character removed was whitespace |
| `Text.StripEmptyIffAllSpace` | app.py:253 | a stripped word is empty (rejected by `if new_word`) exactly when the input is all whitespace |
| `Text.StripIdempotent` | app.py:265 | stripping twice is stripping once |
| `Text.Contains` | main.py:91 | the `in` test on strings: the empty needle is found in every string, and a needle is never found in a shorter string |
| `Text.ContainsIffOccurs` | main.py:91 | the substring test holds exactly when the needle occurs contiguously at some position of the haystack |
| `WordRegistry.LowerAllMembership` | app.py:253 | membership in the lower-cased list means a case-insensitive collision with some entry |
| `WordRegistry.Removed` | app.py:260 | the filter keeps exactly the entries different from the word, and is no longer than the list |
| `WordRegistry.RemovedConcat` | app.py:260 | the filter keeps the relative order of the entries it keeps: it distributes over concatenation |
| `WordRegistry.RemovedAbsent` | app.py:259-260 | filtering out a word that is absent returns the list unchanged |
| `WordRegistry.RemovedPreservesNoFoldedDuplicates` | app.py:260 | the filtered list has no case-insensitive duplicates when the list had none |
| `WordRegistry.Renamed` | app.py:268-273 | the edit loop's list has the same length, with `old_word` replaced by the new word at each of its positions and every other position unchanged |
| `WordRegistry.AddWord` | app.py:251-256 | add writes exactly when the trimmed word is non-empty and differs case-insensitively from every entry. The trimmed word is appended and everything before it is kept. The no-duplicates invariant holds afterwards |
| `WordRegistry.DeleteWord` | app.py:257-262 | delete writes exactly when the word is present (exact match). Every copy of it goes and every other word stays. The invariant is kept; an absent word leaves the list unchanged |
| `WordRegistry.CollisionExcept` | app.py:267 | the new word collides with the list without `old_word` exactly when it collides case-insensitively with some entry other than `old_word` |
| `WordRegistry.RenamedPreservesNoFoldedDuplicates` | app.py:267-273 | renaming to a word free of collisions with the other entries keeps the list free of case-insensitive duplicates |
| `WordRegistry.RenameWord` | app.py:263-275 | edit writes exactly when `old_word` is present, the trimmed new word is non-empty and it collides with no entry other than `old_word`. The length is kept, `old_word` is replaced in place and other positions are unchanged. The invariant is kept |
| `WordRegistry.Apply` | app.py:247-275 | the form's dispatch. An unknown or missing action changes nothing, and every accepted action keeps the no-duplicates invariant |
| `WordRegistry.AddCaseVariantRejected` | app.py:253 | adding a case variant of an existing word ("Test" when "test" is there) is rejected |
| `WordRegistry.AddTestWhenTestListed` | app.py:251-256 | with the list ["test"], adding "Test" writes nothing |
| `WordRegistry.DeleteTwiceNoop` | app.py:259 | after a delete, deleting the same word again writes nothing |
| `HubState.Upserted` | app.py:57-63 | `INSERT OR REPLACE` keyed on `client_id`: the key set gains the id, the id maps to the new row, and other rows are untouched |
| `HubState.WithoutSid` | app.py:72-77 | delete by connection id: exactly the rows with that `sid` disappear and the others keep their contents |
| `HubState.WithStatus` | app.py:118-122 | the status update never inserts a row. It changes only the status of the named row, if present, and leaves other rows untouched |
| `HubState.Statuses` | app.py:79-85 | the snapshot has one entry per row, with that row's status and IP |
| `HubState.UpsertLastWriterWins` | app.py:57-63 | two reports for the same id leave only the second |
| `HubState.ReconnectDisappearsThenReappears` | app.py:132-144 | a client's row leaves the snapshot when its connection drops, and comes back with the newly reported status after the next `status` |
| `HubState.WithoutSidIdempotent` | app.py:72-77 | deleting a connection's rows twice removes nothing more |
| `HubState.Hub.constructor` | app.py:22-35 | the hub starts from the persisted tables and word file with nothing emitted |
| `HubState.Hub.SetClientStatus` | app.py:57-63 | the table becomes the upsert of the reported row. History, word file and outbox are unchanged |
| `HubState.Hub.AddHistoryRecord` | app.py:65-70 | one violation record is appended. Nothing else changes |
| `HubState.Hub.RemoveClientBySid` | app.py:72-77 | the table loses exactly the rows of that connection. It is a no-op when none match |
| `HubState.Hub.UpdateStatus` | app.py:111-124 | a non-empty id gets 200, and only an existing row changes status (default "enabled"). A missing or empty id gets 400 with no change. Nothing is emitted |
| `HubState.Hub.HandleDisconnect` | app.py:132-136 | the connection's rows are removed, then the resulting snapshot is broadcast |
| `HubState.Hub.HandleStatus` | app.py:138-144 | a complete report upserts the row with this connection and address, then broadcasts the resulting snapshot. An incomplete one changes and emits nothing |
| `HubState.Hub.HandleBlockedWord` | app.py:146-151 | a complete report appends a violation whether or not the client has a row. Nothing is emitted |
| `HubState.Hub.ReadBlockedWords` | app.py:91-99 | returns the stored list. A missing file reads as empty and is created empty, and a file without the key reads as empty |
| `HubState.Hub.WriteBlockedWords` | app.py:101-103 | the file then holds exactly the given list |
| `HubState.Hub.HandleBlockedWordsRequest` | app.py:153-156 | replies with the stored list to the requesting connection only. The tables are untouched |
| `HubState.Hub.AddAction` | app.py:251-256 | writes the file exactly when `AddWord` accepts, with the list it gives |
| `HubState.Hub.DeleteAction` | app.py:257-262 | writes the file exactly when `DeleteWord` accepts, with the filtered list |
| `HubState.Hub.EditAction` | app.py:263-275 | the append loop builds the renamed list, and the file is written exactly when `RenameWord` accepts |
| `HubState.Hub.ManageBlockedWords` | app.py:243-283 | the file holds the rule's result if it wrote, and is otherwise as read. A full-list update carrying the list after the write is broadcast if and only if a write happened. The no-duplicates invariant is preserved |
| `EnforcementAgent.EditBuffer` | main.py:82-88 | a character key appends its character and space appends ' '. Backspace drops the last character only when there is one. Any other special key leaves the buffer as it is |
| `EnforcementAgent.BackspaceUndoesKey` | main.py:83-88 | backspace after a character or space gives back the buffer as it was before |
| `EnforcementAgent.Matches` | main.py:91 | a cached word matches exactly when its lower-cased form occurs contiguously, at some position, in the lower-cased buffer |
| `EnforcementAgent.FirstMatch` | main.py:90-94 | the index found is the first word, in list order, whose lower-cased form occurs in the lower-cased buffer. No index means no word occurs |
| `EnforcementAgent.EmptyWordAlwaysMatches` | main.py:90-91 | an empty cached word matches every buffer, so some word at or before it triggers on every key press |
| `EnforcementAgent.BannedTriggersOnLastKey` | main.py:80-94 | with the list ["banned"], no prefix of "xbanned" up to "xbanne" triggers and "xbanned" does |
| `EnforcementAgent.Agent.constructor` | main.py:96-103 | the agent starts with the word file's list, or an empty list when the file cannot be read. It starts unlocked, disconnected and with an empty buffer |
| `EnforcementAgent.Agent.Connect` | main.py:56-60 | on connect, `status: enabled` is sent and then `request_blocked_words`, in that order |
| `EnforcementAgent.Agent.Disconnect` | main.py:62-64 | a dropped channel only clears the connection flag |
| `EnforcementAgent.Agent.HandleBlockedWordsUpdate` | main.py:66-71 | the cache becomes the pushed list whatever it was before, so applying it twice equals applying it once. The buffer, the lock and the outbox are untouched |
| `EnforcementAgent.Agent.SendDisabledStatus` | main.py:73-78 | `blocked_word` then `status: disabled` are sent only when connected. The lock is entered either way |
| `EnforcementAgent.Agent.OnPress` | main.py:80-94 | called only while unlocked. The buffer is edited. On a match, the first matching word is reported and the agent locks, with an empty buffer and at most one trigger. Without a match the buffer is the edited one and nothing is sent or locked |
| `EnforcementAgent.Agent.CheckPassword` | main.py:19-30 | only "ADMIN" unlocks, then `status: enabled` is sent if connected. Any other entry keeps the lock and sends nothing |

## Left out

- Page rendering is left out because it is user interface and foreign library code. This covers login, registration, logout, sessions and password hashing (app.py:14-20, 105-109, 160-217), and the GET branch of the word-management page, apart from the file it creates, which `ReadBlockedWords` models.
- SQLite is modelled as in-memory maps and sequences. Row ids, `NULL` semantics and the violation timestamp are not modelled; the timestamp comes from the database clock.
- The `/history` pages and their grouped, time-ordered summary (app.py:201-240) are left out because they rest on SQL ordering and timestamps.
- `handle_connect` (app.py:128-130) only prints, so it is not modelled.
- A request body that is not JSON, and a word file whose JSON is malformed, would raise in the source. These are not modelled.
- `str.lower` and `str.strip` are modelled on ASCII only. Unicode case mapping and Unicode whitespace are not covered.
- Each hub socket handler and each form post is modelled as one serialized, atomic step. The source holds no lock around the word file's read, change, write and re-read (app.py:248-280), nor between `set_client_status` and `get_all_statuses` (app.py:143-144). Two concurrent posts can therefore lose an update, and a broadcast can carry another request's list or table. The "broadcast carries the list or table after this write" postconditions of `HubState.Hub.ManageBlockedWords` and `HubState.Hub.HandleStatus` hold only under serial execution.
- The tkinter overlay, `keyboard.block_key`/`unblock_key`, the pynput listener thread and the sleep loop are left out because they are UI, OS hooks and concurrency. The lock is the boolean `locked`. In the source, the overlay's main loop runs inside the key callback, so the listener delivers no key while locked and the buffer is emptied only after the unlock. `EnforcementAgent.Agent.OnPress` therefore requires an unlocked agent, and it empties the buffer in the same step as the lock.
- `EnforcementAgent.Agent.OnPress`: promises nothing for a key press on a locked agent, because the listener delivers none while the overlay is up.
- `OnPress` does not model a key event whose `char` is `None`. In the source that raises a `TypeError` inside the listener.
- The derivation of `client_id` from the home directory (main.py:14) is OS-specific, so the id is a constructor argument.
- The socket.io transport, connection failures and retries are left out. `connected` stands for `sio.connected`, and emits are messages appended to the outbox.
- `client.py` is left out because it only repeats the list replacement of `main.py`.
- `HubState.Hub.UpdateStatus`: the reply is modelled by its fields and status code, not by the text of its message.
