# Telegram group monitor: a Dafny model of its decision logic

`GroupMonitor.py` is a single-account Telegram relay. It watches every new
message the account can see. A message is copied to one destination chat
(`me_id`) when it meets two conditions:

- it was posted in one target group (`target_group_id`);
- its sender's username is on a configured allow-list (`target_user_handles`).

Everything else in the script is Telethon and asyncio plumbing. This project
models the three pieces of pure logic inside it, as pure functions over
immutable datatypes:

- `pystr.dfy`: Python's `str.split` with a one-character separator, `str.join`
  and `str.strip()`. Whitespace is Python 3's `str.isspace` set.
- `handles.dfy`: parsing the comma-separated allow-list (`Handles.Parse`).
- `relay.dfy`: the configuration, the incoming event, the handler's
  `Skip` / `WarnNoDestination` / `Send(dest, body)` decision (`Relay.Decide`),
  the forwarded message body with its inverse (`Relay.RecoverText`), and the
  sends made over a sequence of events (`Relay.Deliveries`).
- `startup.dfy`: the credential gate and the three configuration warnings in
  `main` (`Startup.Start`).
- `optional.dfy`: the `Option` type used for Python's `None`.

The two filters also exist as independent predicates (`FromTargetGroup`,
`FromListedSender`). `Decide` keeps the source's nested `if`s, and its
contract ties the two together. Python truthiness is written out: missing or
empty text, a zero chat id and a missing or empty username are all false.

## Model

| member | source | states |
|---|---|---|
| PyStr.Split | GroupMonitor.py:33 | `split(',')` always yields count-of-commas + 1 pieces. No piece contains the separator. Joining the pieces with the separator gives back the input. |
| PyStr.SplitJoin | GroupMonitor.py:33 | The converse round trip: splitting a join of separator-free pieces returns exactly those pieces, so the split is the unique such decomposition. |
| PyStr.SplitAtSeparator | GroupMonitor.py:33 | The pieces of `a + ',' + b` are the pieces of `a` followed by the pieces of `b`. |
| PyStr.Strip | GroupMonitor.py:33 | `strip()` returns a string with no whitespace at either end. The result sits inside the input with only whitespace before and after it. It is empty iff the input is all whitespace. |
| PyStr.StripUnique | GroupMonitor.py:33 | Any trimmed string framed by whitespace in `s` is `strip(s)`, so `Strip` is exactly Python's strip and not just some trim. |
| Handles.ParseWellFormed | GroupMonitor.py:33 | Every parsed handle is non-empty, contains no comma, and has no leading or trailing whitespace. |
| Handles.ParseMembers | GroupMonitor.py:33 | A string is on the list iff it is non-empty and is the stripped form of one of the comma-separated pieces (both directions). |
| Handles.ParseSinglePiece | GroupMonitor.py:33 | A comma-free text yields `[strip(text)]`, or `[]` when that is empty. |
| Handles.ParseAtComma | GroupMonitor.py:33 | `Parse(a + ',' + b) == Parse(a) + Parse(b)`: entries keep the order of their pieces. Together with ParseSinglePiece, this pins down the whole list. |
| Handles.ParsePadded | GroupMonitor.py:33 | A handle padded with whitespace on either side parses to that handle alone, as with `" bob "` in `"alice, bob ,, carol"`. |
| Handles.ParseEmptyIff | GroupMonitor.py:32-33 | The list is empty iff the text holds only commas and whitespace (both directions). This covers the unset default `''`. |
| Handles.ParseJoin | GroupMonitor.py:33 | Parsing the comma-join of well-formed handles gives back that list, in order. |
| Handles.ParseIdempotent | GroupMonitor.py:33 | Re-parsing the comma-join of a parse result reproduces it. |
| Relay.AttributionLine | GroupMonitor.py:76 | The attribution line is 33 characters plus the username, so its length depends only on the username. |
| Relay.ForwardBody | GroupMonitor.py:75-78 | The forwarded body starts with the attribution line, and the original text follows it character for character; its length is exactly the sum of the two. |
| Relay.RecoverForward | GroupMonitor.py:75-78 | Removing the attribution line from a forwarded body recovers the original text exactly. |
| Relay.RecoverSound | GroupMonitor.py:75-78 | Whatever `RecoverText` accepts is the forwarded body of the text it returns. |
| Relay.AttributionEndsAtFirstLineBreak | GroupMonitor.py:76 | For a username with no line break, the first line break of the body ends the attribution line. |
| Relay.ForwardBodyInjective | GroupMonitor.py:75-78 | For usernames with no line break, a forwarded body determines both the sender's username and the text. |
| Relay.Decide | GroupMonitor.py:66-84 | `Send` iff both filters pass and `me_id != 0`. `WarnNoDestination` iff both pass and `me_id == 0`. `Skip` iff either filter fails: no or empty text, `chat_id == 0`, another chat, no sender, no or empty username, or a username not exactly on the list. A `Send` goes to `me_id` with a body from which the text is recovered unchanged. With `target_group_id == 0` or an empty list, every event is skipped. |
| Relay.MatchedIsForwarded | GroupMonitor.py:72-81 | A matched event with `me_id != 0` yields exactly `Send(me_id, "**New message from @" + username + " in group:**\n" + text)`. |
| Relay.Deliveries | GroupMonitor.py:58-84 | Over a run of events, the number of sends is the number of matched events when `me_id != 0`, and zero otherwise. Every send goes to `me_id`. No send happens when the group is unset. |
| Relay.DeliveriesAppend | GroupMonitor.py:58-84 | The handler keeps no state across events: deliveries for `a + b` are those for `a` followed by those for `b`. |
| Relay.NoDeduplication | GroupMonitor.py:58-84 | The same matched event delivered twice is forwarded twice. |
| Startup.Warnings | GroupMonitor.py:116-135 | Destination-unset warning iff `me_id == 0`, group-unset warning iff `target_group_id == 0`, handles-empty warning iff the parsed list is empty. Each appears independently, at most once, in source order. |
| Startup.Start | GroupMonitor.py:99-140 | A connection is attempted iff `api_id`, `api_hash` and `phone` are all truthy. Otherwise start-up stops with no client call. A failed connection ends start-up after that one call. Only a successful one reaches the warnings and the run loop, and it reports exactly `Warnings(cfg)`. |
| Startup.HandlesWarningIff | GroupMonitor.py:130-133 | The handles warning appears iff the configured text is only commas and whitespace. |
| Startup.NoWarningsIffSomeForward | GroupMonitor.py:116-135 | Start-up warns about nothing iff some incoming message would be forwarded (both directions). |

## Left out

- The Telethon client (`TelegramClient`, `client.start`, `get_me`, `send_message`, `run_until_disconnected`, `events.NewMessage`): these are network and authentication calls. The outcome of `client.start` is a parameter of `Startup.Start`. A `Send` decision stands for one `send_message` call.
- `parse_mode="md"`: a `Send`'s body is the string passed to `send_message` (line 81). The Telegram library parses that string as Markdown on the client before sending. That parsing turns the `**` markers into a bold span and also reads any Markdown inside the forwarded text. It is not modelled, so "the text is recovered unchanged" holds for the string handed to `send_message`, not for the message Telegram stores.
- Sender resolution (`await event.get_sender()`): it is an already-resolved `Option<Sender>`. If the lookup raised, the handler would abort with no send. That has the same visible effect as a `None` sender, which gives `Skip`.
- asyncio interleaving at the two `await` points: `Relay.Deliveries` assumes each callback finishes before the next begins. Interleaved callbacks could reorder sends but not change which are made, because the handler shares no mutable state.
- `load_dotenv`, `os.getenv` and the `int(...)` conversions of the id variables (lines 17, 27, 40): these are environment I/O and Python's own exceptions. The ids are taken as already-parsed integers with 0 for unset. A missing `chat_id` would be represented as 0, which the handler treats the same way.
- Startup.Start: the client is constructed at import time (line 55), before `main` runs. The Telegram library's constructor may itself reject a zero `api_id` or an empty `api_hash`. That behaviour is not part of this model. `MissingCredentials` stands for whichever of the two checks stops start-up first; in either case no connection is attempted.
- `SOLANA_ADDRESS_PATTERN` (line 46): it is compiled but never used.
- The `print` messages, the session file, and the `KeyboardInterrupt` and generic exception handlers (lines 144-150): these are logging and process exit. The model keeps only the decisions.
- `Sender.id` is carried in the model but unused, as it is in the code apart from a commented-out log line.
- Whitespace: `str.strip()` removes every character for which Python's `str.isspace` holds, and the model uses that full set: TAB through CR, 0x1C-0x1F, SPACE, NEL, NBSP and the Unicode spaces.
- The allow-list is an ordered list, as in the code, not a set. Membership is exact, case-sensitive string equality, as with Python's `in` on a list.
