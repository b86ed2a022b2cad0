# Giveaway bot: lifecycle core in Dafny

This project models the giveaway lifecycle of a Discord bot (`index.js`) and proves
properties of it. A host starts a giveaway with `!gstart <time> <winners> <prize>`.
Members enter and leave with the 🎉 reaction. A five-second sweep ends every
giveaway whose end time has passed. Ending one draws the winners, edits the
announcement, archives the giveaway into `ended_giveaways` and removes it from the
running set. `!gend` ends a giveaway by hand, `!glist` lists a server's running
giveaways, and `!greroll` draws again from an archived one.

Modules, one file each:

- `Wrappers` (`wrappers.dfy`): `Option` and `Result`.
- `Duration` (`duration.dfy`): `parseTime` and `formatTimeLeft`.
  - `Parse` is the meaning of a duration text. `ParseTime` is the loop of regular
    expression matches, proved equal to it.
  - `Format` is what `formatTimeLeft` prints. `FormatTimeLeft` is the `+=` method,
    proved equal to it.
  - The round trip between the two is proved: parsing what `formatTimeLeft` prints
    gives back the count truncated to whole seconds.
  - JavaScript's truncating `%` is modelled as `JsRem`.
  - `Math.floor(x / y)` with a positive `y` is Dafny's Euclidean `x / y`.
- `Roster` (`roster.dfy`): the participant array and the two reaction edits,
  `includes`+`push` and `filter`. Also the duplicate-freedom facts the rest relies on.
- `Winners` (`winners.dfy`): `selectWinners`, as a shuffle followed by
  `slice(0, Math.min(count, length))`, and the two quota policies of its callers.
  - The comparator-based random shuffle is a parameter. It may return any
    reordering of its input, so every property holds for every shuffle.
- `Giveaways` (`giveaways.dfy`): the records and the `Registry` class, which holds:
  - the `giveaways` object as a map plus its key order, the order in which
    `Object.keys/values/entries` visit the keys;
  - the `ended_giveaways` table;
  - a ghost log of every Supabase write.

  Its methods are the commands, the reaction handlers, `loadGiveaways`,
  `endGiveaway` and the sweep. Every outcome of a Discord or Supabase call is a
  parameter:
  - `discordOk` and `archiveOk` for `EndGiveaway`;
  - per-id failure sets for `Sweep`;
  - `queryOk` for `GReroll`;
  - an `Option` for the load.

  `Sweep` is proved against `SweepFold`, one `EndStep` per visited key. The closed
  form of that fold is proved by induction over the visited prefix. In that form
  exactly the due keys are ended, in iteration order. The ones whose Discord calls
  got through leave the registry. Each adds its archive row and its two writes.

Where the code does something other than a careful implementation might, the model follows the code:

- **Order of the completion steps.** An implementation meant to end each giveaway
  exactly once would remove it from the registry first and archive it on a
  best-effort basis after. This code calls Discord first, then
  inserts into `ended_giveaways`, then deletes the active row, and only then
  removes the id from the map (`index.js:59-101`).
  - A Discord failure therefore leaves the giveaway running. The next sweep tries
    it again.
  - A failed archive insert is logged and the giveaway is still removed.
  - `EndStep` and `Registry.EndGiveaway` state exactly that.
- **Reroll on a short roster.** A selector that enforced the quota would return
  nobody when the roster is smaller than it. In the code only `endGiveaway` checks that
  (`index.js:63`). `greroll` calls `selectWinners` directly, so a short roster is
  drawn whole (`Winners.RerollDrawSize`).
- **`gend` always reports success.** It replies success once `endGiveaway`
  returns, even when that call failed inside its `try` (`index.js:251-252`).
- **Removing a reaction always saves.** It upserts even when the user was not on
  the roster (`index.js:311-312`).
- **No locking.** Exactly-once completion under concurrency would need a lock.
  The code has none, and the model is sequential (see Left out).
- **An end beyond the `Date` range.** `new Date(...).toISOString()` (`index.js:187`)
  throws a `RangeError` when the end lies past 8.64e15 ms, for example for
  `!gstart 100000000d 1 x`. The handler then rejects unhandled. It sends no reply
  and stores nothing, but `message.delete()` has already run. `Start` models this
  as the refusal `EndOutOfRange`, which changes no modelled state.

## Model

| member | source | states |
|---|---|---|
| `Duration.ParseTime` | index.js:125-143 | The `exec` loop returns `Parse(timeString)`, the sum over every maximal digit run directly followed by a unit letter. |
| `Duration.ReadToken` | index.js:126-139 | One match attempt at a digit: parsing from `i` is the token's milliseconds (0 when no unit follows) plus parsing from where scanning resumes, strictly further on. |
| `Duration.ReadDigits` | index.js:126-131 | Reads the maximal digit run at `i` (`\d+`), and its `parseInt` value is `DigitsValue` of exactly that run. |
| `Duration.ParseRun` | index.js:126-139 | A maximal digit run is one token when a unit letter follows it, and is skipped otherwise. |
| `Duration.TokenMs` | index.js:134-139 | The `switch` adds the value times the unit's length in seconds (1, 60, 3600 or 86400), times 1000. |
| `Duration.ParseWholeSeconds` | index.js:134-139 | Every parsed duration is a whole number of seconds, since each unit is a multiple of 1000 ms. |
| `Duration.ParseAppend` | index.js:126-130 | A text that ends outside a token parses independently of what follows: `Parse(a + b) == Parse(a) + Parse(b)`. |
| `Duration.ParseExamples` | index.js:125-143 | `"1h30m"` is 5400000 ms. `"abc"` and `"0h"` are 0, which `gstart` rejects as an invalid time. |
| `Duration.JsRem` | index.js:111-113 | JavaScript's `%`: equal to Dafny's `%` for a non-negative dividend, otherwise non-positive and above `-b`. |
| `Duration.Split` | index.js:110-113 | For a non-negative count, the four components add up to the count truncated to whole seconds, with hours < 24 and minutes and seconds < 60. For a negative count, none of them is positive. |
| `Duration.NatToString` | index.js:116-119 | The decimal text of a number is non-empty, all digits, and reads back as the number. |
| `Duration.AppendComponent` | index.js:116-119 | One `if (x > 0) result += ...` step appends exactly that component. |
| `Duration.FormatTimeLeft` | index.js:109-122 | Returns `Format(ms)`. For `ms >= 0` it parses back to `ms - ms % 1000`. It is `"0s"` exactly when `ms < 1000`. |
| `Duration.FormatRoundTrip` | index.js:109-143 | `parseTime(formatTimeLeft(ms)) == ms - ms % 1000` for every `ms >= 0`. |
| `Duration.JoinedEmpty` | index.js:115-121 | The four components print nothing exactly when none of them is positive. |
| `Duration.FormatZeroExactlyBelowOneSecond` | index.js:115-121 | The `'0s'` fallback is taken exactly when less than one second is left, negative counts included. |
| `Roster.Without` | index.js:311 | `filter(id => !drop.has(id))` keeps exactly the elements outside `drop` and never grows. |
| `Roster.WithoutCounts` | index.js:311 | Filtering removes every occurrence of a dropped value and keeps every other value's multiplicity. |
| `Roster.WithoutAppend` | index.js:311 | Filtering distributes over concatenation, so the survivors keep their order. |
| `Roster.DistinctCounts` | index.js:299-302 | A roster has no repeated index pair exactly when no user occurs in it twice. |
| `Roster.OptIn` | index.js:299-302 | After `includes`/`push` the user is a member, everyone before stays in the same order, and no one else is added. The roster grows by one exactly when the user was absent. |
| `Roster.OptOut` | index.js:311 | `filter(id => id !== user)` keeps exactly the other users and never grows. A non-member's removal leaves the roster as it was. |
| `Roster.OptInIdempotent` | index.js:299-302 | A second 🎉 from the same user changes nothing. |
| `Roster.OptInDistinct` | index.js:299-302 | Adding keeps a duplicate-free roster duplicate-free. |
| `Roster.OptOutSpec` | index.js:311 | Removing takes out every occurrence of the user and keeps everyone else with their multiplicity and order. It changes nothing for a non-member and keeps a roster duplicate-free. |
| `Roster.OptOutIdempotent` | index.js:311 | Removing twice is removing once. |
| `Winners.DrawSize` | index.js:50 | The end index of `slice(0, Math.min(count, n))` is at most `n`, and is `min(count, n)` for a non-negative count. |
| `Winners.ShufflePrefix` | index.js:49-50 | A prefix of a shuffle is a sub-multiset of the roster, and duplicate-free when the roster is. |
| `Winners.SelectWinners` | index.js:48-51 | For a positive count the draw has `min(count, length)` entries. All are taken from the roster, with no entry used more often than it occurs, and all are distinct when the roster is. |
| `Winners.EndDraw` | index.js:62-65 | Nobody wins when the roster is smaller than the quota. Otherwise exactly `quota` roster members win, distinct when the roster is. |
| `Winners.RerollDrawSize` | index.js:284-286 | A reroll of a non-empty roster draws between 1 and `quota` members. A roster smaller than the quota is drawn whole, where ending the giveaway would have drawn nobody. |
| `Giveaways.JoinWords` | index.js:178 | `args.slice(2).join(' ')`: for a non-empty list of words without spaces, splitting the prize at its single spaces gives the words back. |
| `Giveaways.ListingOf` | index.js:266-269 | One `glist` field carries the giveaway's prize, quota and message id and its 1-based position. Its time left parses back to the remaining time truncated to whole seconds, and it is `"0s"` exactly when less than a second remains. |
| `Giveaways.EndStep` | index.js:54-106 | One `endGiveaway` call on the registry state: an unknown id or a failed Discord call changes nothing. Otherwise the id leaves the map and the key order. No other record changes, and the archive and the write log only grow. |
| `Giveaways.SweepVisit` | index.js:153-155 | One iteration of the sweep: a key not yet due changes nothing. A due key still running whose Discord calls succeed leaves the registry. No record is altered, and the archive and the write log only grow. |
| `Giveaways.SweepFold` | index.js:152-155 | The sweep's loop only removes keys: every record left is the one it started with, and the archive and the write log only grow. |
| `Giveaways.Ended` | index.js:62-96 | The archived row is the giveaway as it was, stamped `now`, with the `endGiveaway` draw as its winners list. |
| `Giveaways.FirstWithMessage` | index.js:248 | `Object.keys(...).find(...)` gives the first key in iteration order announced in that message, or none when no key is. |
| `Giveaways.FirstEnded` | index.js:280-283 | `data[0]` of the `eq('messageId', ...)` select is the first archived row for that message, or none when there is none. |
| `Giveaways.Due` | index.js:152-155 | The keys the sweep ends are exactly the visited keys whose `endtime` is at or before `now`. |
| `Giveaways.DueStep` | index.js:152-155 | Visiting one more key adds it to the due keys exactly when it is due. |
| `Giveaways.IndexSpec` | index.js:28-31 | Loading stores every row under its own id and nothing else. A later row with the same id replaces an earlier one, so a row whose id does not recur is stored unchanged. |
| `Giveaways.KeyOrderSpec` | index.js:28-31 | The iteration order after loading lists every stored id exactly once. |
| `Giveaways.LoadStep` | index.js:29-31 | Loading one more row stores it, and its id joins the iteration order only when it is not already a key. |
| `Giveaways.LoadCoherent` | index.js:28-31 | A freshly loaded registry is coherent: every id once in the order, and every record stored under its own id. |
| `Giveaways.EndStepSweep` | index.js:54-106 | Ending one more due key, not handed over before, extends the closed-form sweep result by that key. |
| `Giveaways.SweepFoldSpec` | index.js:150-156 | On a coherent registry, the loop over the first `i` keys leaves the state that ends exactly the due ones among them, in order. |
| `Giveaways.SweepFoldNext` | index.js:152-155 | The inductive step: visiting key `j` extends the closed form by `j` exactly when it is due. |
| `Giveaways.ListFields` | index.js:264-271 | The `glist` fields, one per giveaway, numbered from 1, each with prize, quota, `formatTimeLeft(endtime - now)` and message id. |
| `Giveaways.Registry.constructor` | index.js:20 | The bot starts with no running giveaway over the existing archive. |
| `Giveaways.Registry.FindId` | index.js:295-296 | The handlers' lookup finds a running giveaway announced in that message, or reports that there is none. |
| `Giveaways.Registry.Active` | index.js:256 | `Object.values(...).filter(...)` holds exactly the server's running giveaways, each as stored, each once, and in the order their ids take in the key order. |
| `Roster.WithoutOrder` | index.js:256 | Filtering a duplicate-free key order keeps the survivors in their original relative order. |
| `Giveaways.Registry.Load` | index.js:23-33 | A successful select replaces the registry by `Index(rows)` in `KeyOrder(rows)`. An error changes nothing. Archive and writes stay, and coherence is kept. |
| `Giveaways.Registry.Start` | index.js:167-212 | Each refusal (permission, usage, zero duration, bad quota, an end past the `Date` range), in the code's order, changes nothing. A request that passes the checks succeeds exactly when its end fits in a `Date`. Success stores one giveaway keyed by `Date.now()` with an empty roster and end `now + parseTime(time)`, and upserts it. |
| `Giveaways.Registry.EndGiveaway` | index.js:54-106 | The new state is `EndStep` of the old one: an unknown id or a failed Discord call changes nothing. Otherwise the row is archived when the insert succeeds, the insert and the delete are issued, and only that id leaves the registry and its order. Coherence is kept. |
| `Giveaways.Registry.Sweep` | index.js:150-156 | Ends exactly the giveaways due at `now`, in iteration order. Those whose Discord calls succeed leave the registry. Their rows and writes are appended in that order, and coherence is kept. |
| `Giveaways.Registry.GEnd` | index.js:243-253 | Refuses without permission, without an argument or with an unknown message. Otherwise it ends the first giveaway announced there and reports success whatever `endGiveaway` met. |
| `Giveaways.Registry.ReactionAdd` | index.js:293-303 | Bots, other emoji and unknown messages change nothing. Otherwise the user joins that roster, and the giveaway is saved only when the user was absent. |
| `Giveaways.Registry.ReactionRemove` | index.js:305-313 | Bots, other emoji and unknown messages change nothing. Otherwise every occurrence of the user leaves that roster and the giveaway is always saved. |
| `Giveaways.Registry.GList` | index.js:255-273 | Refuses exactly when the server has no running giveaway, and succeeds whenever it has one. It then gives one field per active giveaway, in iteration order. |
| `Giveaways.Registry.GReroll` | index.js:275-289 | Refuses without permission, without an argument, on a failed query or an unknown message, and on an empty archived roster. Otherwise it gives a fresh `selectWinners` draw from the first archived row, drawn from that row's roster. The archive is unchanged. |

## Left out

- Discord I/O is not modelled. In `endGiveaway` (`index.js:59-89`), fetching the channel and the message, sending the congratulations and editing the embed become the `discordOk` flag, or the per-id `discordFails` set in the sweep. The calls `gstart` makes (`index.js:184`, `index.js:197-198`) are covered by the `gstart` line below. The embeds' text is not modelled; only the `glist` fields are.
- Supabase is modelled as the `ended` sequence plus a ghost log of writes (`Upsert`, `DeleteActive`, `InsertEnded`). A failed upsert or delete is only logged by the bot, so it changes no modelled state. Only the archive insert and the select results (`Option` for the load, `queryOk` for the reroll) are parameters.
- The `ended_giveaways` select is assumed to return rows in insertion order when `greroll` takes `data[0]`.
- `Math.random` is not modelled. The shuffle is a function parameter that returns some reordering of its input, so uniformity is not modelled.
- The random shuffle is shared by all ends of one sweep. That is a restriction of the parameter, not of the code, which shuffles afresh on every call.
- Concurrency is not modelled. `setInterval` and the unawaited `endGiveaway` calls of the sweep, races between the sweep, `gend` and the reaction handlers, and re-entry while an `endGiveaway` is pending are all out of scope. The model runs each handler to completion.
- The sweep's `Object.entries` array aliases the live records. The model snapshots the map, which matches because `endGiveaway` only deletes keys.
- Time is an integer number of milliseconds. `Date.now()`, `new Date(...).toISOString()` and `getTime()` are taken as exact and as one `now` per handler. `gstart` reads the clock twice in the code (`index.js:186-187`), while the model uses one value for the id and the end time.
- JavaScript numbers are not modelled as floating point. Integers are unbounded, and `parseInt` of a very long digit run is exact rather than rounded.
- Parsing the command text is left out: the `!` prefix, trimming, splitting on spaces and lower-casing the command. The model takes the argument list, and `parseInt(args[1])` arrives as an `Option<int>` (`None` for `NaN`).
- The `message.author.bot || !message.guild` filter (`index.js:162`) is left out because the model starts after it.
- The `help` command (`index.js:215-241`) only renders a fixed embed and is left out.
- `gstart` is modelled on success of `channel.send` and `react`. The code then stores the giveaway; when one of them throws, the handler rejects and nothing is stored, which the model does not include. A failing `message.delete()` is swallowed by its `.catch`, so it has no modelled effect.
- The `endtime` of a loaded row is taken as already converted to milliseconds.
- Giveaway ids are assumed to be non-empty and not canonical array-index strings (decimal integers below 2^32 - 1), which holds for the 13-digit `Date.now()` ids. JavaScript visits index-like keys first, in ascending numeric order, before the others in insertion order; the model's key order is insertion order only. A key `""` would count as not found at `if (!giveawayId) return;` (`index.js:249`, `index.js:296`, `index.js:308`), while `FindId` would report it.
