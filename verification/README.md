# love-bot scheduling and phrase rotation, in Dafny

The bot sends each subscribed Telegram user a phrase from a shared catalog.
A user has an active window of whole hours, a send interval in minutes and a
time zone. Within one rotation cycle a user never gets the same catalog entry
twice.
This project models the bot's core as pure Dafny functions over immutable
data:

- **`UserConfigs`** (`config.dfy`): the `UserConfig` record, the store of
  records (`map<int, UserConfig>`), `createDefaultUser`, and `loadPhrases`
  written as a function of what reading and decoding the catalog file
  produced.
- **`Rotation`** (`rotation.dfy`): `GetNextUniquePhrase`. The random choice
  is modelled in two ways. The function `NextUniquePhrase` takes a `pick`
  that selects among the unused indices. The method `GetNextUniquePhrase`
  takes a nondeterministic `:|` choice. A lemma shows that every unused index
  can be reached by some pick. The file also has the pigeonhole argument
  that an unused index always exists, the inner "already sent?" scan, and
  the rejection loop run over a given stream of draws.
- **`Cycle`** (`cycle.dfy`): repeated calls within one cycle. `N` calls from
  an empty list return a permutation of `0..N-1`, and call `N+1` starts a
  new cycle.
- **`GoText`** (`text.dfy`): `strings.Split(text, " ")` and
  `strconv.Atoi` (64-bit), with round-trip lemmas.
- **`Commands`** (`commands.dfy`): the effect of `handleMessage` on the
  store. `/start`, `/stop`, `/test`, `/time` and `/interval` are each a pure
  transition. `/settings`, `/help` and unknown words leave the store as it
  was. The file also proves the well-formedness invariant
  `0 <= StartTime < EndTime <= 23 && 1 <= Interval <= 1440`.
- **`Messages`** (`messages.dfy`): concrete messages run through the handler.
- **`Scheduler`** (`scheduler.dfy`): the due check in `messageSender` and a
  whole tick over the store, both as a function and as a loop in an
  arbitrary iteration order.

Inputs the model does not compute:

- `samaraLoads`: whether the tz database can resolve "Europe/Samara".
- `clock(id)`: each user's local hour and minute.
- `pick` / `picks(id)`: the outcome of the random draws.
- `order`: the order of Go's map iteration.

Saving the store has no effect on the in-memory map, so it does not appear
in the model.

Behaviour of the code that the model keeps:

- **Catalog fallback.** Only a read failure of the phrase file falls back to
  the three built-in phrases. A decoding failure keeps the prior catalog,
  which is empty at start-up, and a decoded empty list is accepted as is.
  With an empty catalog `rand.Intn(0)` panics. `/test` and the tick
  therefore have a `Panic`/`Crashed` outcome, and the rotation itself
  requires a non-empty catalog.
- **Sent indices.** The code keeps a list of indices that grows by appending
  and is emptied when a cycle completes, and checks membership by scanning
  it. The model keeps the list.
- **Default time zone.** A new record gets "Europe/Samara", and "UTC" only
  when that zone cannot be loaded.
- **Store keys.** Records are keyed by the chat id of the message, not by
  the sender: in a group chat the group shares one record.
- **Records loaded from disk.** Commands only ever write hours in `[0,23]`
  with the start before the end, and an interval in `[1,1440]`. Records read
  from "users.json" are never checked. An interval of 0 makes
  `minute % Interval` panic. The model gives the due check a `DivideByZero`
  verdict for this case, and states the due rule for every non-zero
  interval, not only for valid records.

## Model

| member | source | states |
|---|---|---|
| `UserConfigs.CreateDefaultUser` | config.go:123-142 | a new record carries the given id and name, window 8-22, interval 120, is active, has an empty sent list, zone "Europe/Samara" or "UTC" when that zone fails to load, and satisfies the settings invariant |
| `UserConfigs.LoadPhrases` | config.go:63-80 | a read failure yields exactly the three built-in phrases; a decoding failure keeps the prior catalog; a decoded list is taken as is |
| `UserConfigs.LoadPhrasesEmptyExactly` | config.go:63-80 | at start-up the catalog comes out empty exactly when the file is malformed or decodes to an empty list |
| `Rotation.Pigeonhole` | config.go:146-166 | a sent list shorter than the catalog leaves some index of `[0, N)` unused, whatever the list holds |
| `Rotation.SentWellFormedSize` | config.go:146-149 | a duplicate-free in-range sent list has at most `N` entries, and has `N` only when it mentions every index |
| `Rotation.Unused` | config.go:151-166 | lists exactly the indices of `[0, N)` not in the sent list, without duplicates, and is non-empty when the list is shorter than `N` |
| `Rotation.PickUnused` | config.go:151-166 | the selected index is in `[0, N)` and not in the sent list |
| `Rotation.PickReachesEveryUnused` | config.go:151-166 | every unused index is the selection of some pick, so the model excludes no outcome of the random draws |
| `Rotation.ResetIfExhausted` | config.go:146-149 | a sent list that has reached the catalog size is emptied; a shorter one is kept as is |
| `Rotation.NextUniquePhrase` | config.go:145-170 | the list is reset when its length has reached `N`; the index is in range and not in the (reset) list; the new list is that list plus the index; no other field changes; the phrase is `Phrases[index]`; the list never exceeds `N` entries |
| `Rotation.GetNextUniquePhrase` | config.go:145-170 | the nondeterministic call meets the same promises, and its result equals the functional model for some pick |
| `Rotation.IsSent` | config.go:155-161 | the scan reports "used" exactly when the index is in the sent list |
| `Rotation.RejectionSample` | config.go:151-166 | on a stream of draws the loop accepts the first draw not already sent; it yields nothing exactly when every draw was already sent |
| `Rotation.NextUniquePhrasePreservesSentWellFormed` | config.go:146-167 | a duplicate-free in-range sent list stays duplicate-free and in range after a call |
| `Cycle.WithinCycle` | config.go:145-170 | within one cycle the list grows by exactly the chosen indices, which are in range, new and pairwise distinct, and no other field changes |
| `Cycle.FullCycle` | config.go:145-170 | `N` calls from an empty list return `N` distinct indices that are exactly `0..N-1`, and the list then holds them |
| `Cycle.NextCycleStarts` | config.go:146-149 | the call after a full cycle resets the list and leaves it with one entry |
| `GoText.Split` | bot.go:91 | the result has at least one part and no part holds a space; together with `JoinSplit` the parts are exactly the pieces between spaces, empty ones included |
| `GoText.JoinSplit` | bot.go:91 | splitting on spaces loses nothing: joining the parts with spaces gives back the text |
| `GoText.SplitJoin` | bot.go:91 | joining space-free words and splitting again gives back the same words |
| `GoText.Atoi` | bot.go:185-186 | an argument is accepted exactly when it is an optional `+` or `-` followed by at least one digit and its value fits in 64 bits; the value is the decimal value of the digits, negated after a `-` |
| `GoText.AtoiSigns` | bot.go:185-186 | "+45" and "045" read as 45 and "-7" as -7; a bare sign, the empty text and "4_5" are rejected |
| `GoText.AtoiDecimal` | bot.go:220 | `Atoi` reads back every in-range non-negative number written in decimal |
| `GoText.AtoiNegativeDecimal` | bot.go:185-186 | `Atoi` reads back every in-range negative number written with a leading minus |
| `Commands.Start` | bot.go:95-103 | an absent id gets the default record; the record ends active; an existing record changes only `Active`; nothing else in the store changes |
| `Commands.Stop` | bot.go:123-136 | a registered chat changes only `Active` to false; an unregistered one leaves the store unchanged and creates no record |
| `Commands.Test` | bot.go:138-154 | a registered chat's record is advanced exactly as the rotation does; no other record changes; an unregistered chat leaves the store unchanged; an empty catalog panics |
| `Commands.ParseWindow` | bot.go:177-194 | a window is accepted exactly when both arguments are present, are integers and satisfy `0 <= start < end <= 23` |
| `Commands.SetTime` | bot.go:176-209 | a valid window changes only `StartTime` and `EndTime` of a registered chat; a rejected one, or an unregistered chat, leaves the store unchanged |
| `Commands.ParseInterval` | bot.go:212-227 | an interval is accepted exactly when its argument is present, is an integer and lies in `[1, 1440]` |
| `Commands.SetInterval` | bot.go:211-241 | a valid interval changes only `Interval` of a registered chat; a rejected one, or an unregistered chat, leaves the store unchanged |
| `Commands.DisplayName` | bot.go:85-88 | an empty user name is recorded as "Unknown"; any other name is kept unchanged, so the recorded name is never empty |
| `Commands.Dispatch` | bot.go:94-265 | only the record of the message's chat can change; only `/start` adds a key; only `/test` can panic; other commands leave the store unchanged |
| `Commands.HandleMessage` | bot.go:83-94 | the same promises for the first space-separated word of the message text |
| `Commands.HandleMessagePreservesStoreInvariant` | bot.go:94-241 | every command keeps each record under its own id with `0 <= StartTime < EndTime <= 23` and `1 <= Interval <= 1440` |
| `Commands.HandleMessagePreservesSentWellFormed` | bot.go:138-154 | every command keeps every sent list duplicate-free and within the catalog |
| `Commands.HandleMessageNeverPanics` | bot.go:138-154 | with a non-empty catalog no command crashes |
| `Messages.TimeWordsSetWindow` | bot.go:185-209 | any text whose words are `/time`, `8`, `22` sets a registered chat's window to 8-22 and nothing else |
| `Messages.TimeMessageSetsWindow` | bot.go:185-209 | the text "/time 8 22" from a registered chat sets the window to 8-22 and nothing else |
| `Messages.ReversedWindowWordsRejected` | bot.go:188-194 | any text whose words are `/time`, `22`, `8` leaves the store unchanged |
| `Messages.ReversedWindowRejected` | bot.go:188-194 | the text "/time 22 8" leaves the store unchanged |
| `Messages.MissingEndHourWordsRejected` | bot.go:177-183 | any text whose words are `/time`, `8` leaves the store unchanged |
| `Messages.MissingEndHourRejected` | bot.go:177-183 | the text "/time 8" leaves the store unchanged |
| `Messages.IntervalWordsSetInterval` | bot.go:220-231 | any text whose words are `/interval`, `45` sets only a registered chat's interval |
| `Messages.IntervalMessageSetsInterval` | bot.go:220-231 | the text "/interval 45" from a registered chat sets only the interval |
| `Messages.ZeroIntervalWordsRejected` | bot.go:220-227 | any text whose words are `/interval`, `0` leaves the store unchanged |
| `Messages.ZeroIntervalRejected` | bot.go:220-227 | the text "/interval 0" leaves the store unchanged |
| `Scheduler.GoRem` | bot.go:62 | Go's `%` has the sign of the dividend and a magnitude below the divisor's |
| `Scheduler.GoRemIsRemainder` | bot.go:62 | `a` minus Go's remainder is a multiple of `b`, which with the bounds of `GoRem` determines the truncated remainder |
| `Scheduler.DueCheck` | bot.go:46-63 | inactive users are skipped; a send happens exactly for an active user inside `[StartTime, EndTime)` whose non-zero interval divides the minute with Go's `%`; an interval of 0 inside the window is a divide-by-zero panic |
| `Scheduler.DueExactly` | bot.go:60-63 | for any record with a non-zero interval, valid or read back unchecked, and a clock minute, a user is due exactly when active, inside the window and at a multiple of the interval, and the check never panics |
| `Scheduler.HourlyOrSlowerOnlyOnTheHour` | bot.go:62 | with an interval of 60 minutes or more, a user inside the window is due only at minute 0 |
| `Scheduler.FortyFiveMinuteInterval` | bot.go:62 | with a 45-minute interval, a user inside the window is due at minutes 0 and 45 only |
| `Scheduler.HourlyWindowEightToTwentyTwo` | bot.go:60-63 | with window 8-22 and hourly sends, the user is due at 8:00 through 21:00, not at 7:59 and not at 22:00 |
| `Scheduler.Advance` | bot.go:60-71 | a user who is not due is unchanged; a due user is advanced by one rotation step |
| `Scheduler.Tick` | bot.go:44-67 | a tick crashes exactly when some user's turn panics; otherwise it keeps the keys, leaves inactive users unchanged, and advances each user independently |
| `Scheduler.TickInOrder` | bot.go:45-66 | handling users one by one in any iteration order, stopping at the first panic, gives exactly the outcome of `Tick` |
| `Scheduler.TickNeverCrashesOnWellFormedStore` | bot.go:45-65 | a store of well-formed records never crashes a tick while the catalog is non-empty |
| `Scheduler.TickPreservesInvariants` | bot.go:45-81 | a tick changes only sent lists, so the settings invariant and well-formed sent lists are kept |

## Left out

- Telegram transport: `StartBot`, `bot.Send`, the update channel and all reply and help texts. These are network I/O through a foreign library. `/settings` and `/help` only reply, so they appear as "store unchanged".
- JSON persistence: `saveUsers`, `loadUsers` and the file reading in `loadPhrases`. These are file I/O and `encoding/json`. Saving has no effect on the in-memory store. One consequence is outside the model: when "users.json" is unparsable, `loadUsers` installs a nil map, and a later `/start` would panic writing to it.
- UserConfigs.LoadPhrases: on a decoding failure the prior catalog is kept whole. A type error part-way through a JSON list can leave `json.Unmarshal` with a partly filled slice. That case is not modelled.
- Time-zone resolution (`time.LoadLocation`, `UserConfig.Now`, `LoadLocation`) and the wall clock depend on the host's tz database. They become the inputs `samaraLoads` and `clock`. The cached `location` field is therefore not in the record.
- The one-minute ticker and the unsynchronised sharing of the user map between the ticker goroutine and the command loop. This is concurrency. Commands and ticks are modelled as sequential transitions.
- Scheduler.TickInOrder: on a panic it returns `Crashed` and drops the store. The users handled before the panic were already saved to disk, but the saved file is not modelled.
- Random distribution: the model says which indices the draws can settle on, not how likely each one is. Termination of the rejection loop holds with probability one, not for every stream of draws. `RejectionSample` therefore runs over a finite prefix of draws.
- A message without a sender (`message.From` nil) would dereference nil in the source, already in the update loop, before `handleMessage` is called. The model always has a sender.
- main.go: log-file setup and reading the token from the environment.
