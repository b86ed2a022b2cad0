/**
 * The giveaway lifecycle of the bot: the in-memory registry of running giveaways,
 * the `ended_giveaways` archive, the commands `gstart`, `gend`, `glist` and
 * `greroll`, the 🎉 reaction handlers and the five-second expiry sweep.
 */
module Giveaways {
  import opened Wrappers
  import opened Duration
  import opened Roster
  import opened Winners

  /** A running giveaway as the bot stores it; `endtime` is in epoch milliseconds. */
  datatype Giveaway = Giveaway(
    id: string,
    messageId: string,
    channelId: string,
    guildId: string,
    host: string,
    hostId: UserId,
    prize: string,
    winners: int,
    endtime: int,
    participants: seq<UserId>)

  /** A row of `ended_giveaways`: the giveaway as it was, when it ended, and its draw. */
  datatype EndedGiveaway = EndedGiveaway(giveaway: Giveaway, endedAt: int, winnersList: seq<UserId>)

  /** A write the bot sends to Supabase. */
  datatype Write =
    | Upsert(saved: Giveaway)
    | DeleteActive(id: string)
    | InsertEnded(row: EndedGiveaway)

  /** The refusals the bot replies with instead of carrying out a command. */
  datatype CommandError =
    | NeedPermission
    | Usage
    | InvalidTime
    | InvalidWinners
    | EndOutOfRange
    | NoActiveGiveaway
    | NoActiveGiveaways
    | NoEndedGiveaway
    | NoParticipants

  /** One field of the `glist` embed. */
  datatype Listing = Listing(position: nat, prize: string, winners: int, timeLeft: string, messageId: string)

  /** The field `glist` shows at 1-based `position` for `g` at time `now` (index.js:264-270). */
  function ListingOf(g: Giveaway, position: nat, now: int): (l: Listing)
    ensures l.position == position && l.prize == g.prize && l.winners == g.winners && l.messageId == g.messageId
    ensures g.endtime - now >= 0 ==> Parse(l.timeLeft) == (g.endtime - now) - (g.endtime - now) % 1000
    ensures l.timeLeft == "0s" <==> g.endtime - now < 1000
  {
    var left := g.endtime - now;
    TimeLeftShown(left);
    Listing(position, g.prize, g.winners, Format(left), g.messageId)
  }

  lemma TimeLeftShown(left: int)
    ensures left >= 0 ==> Parse(Format(left)) == left - left % 1000
    ensures Format(left) == "0s" <==> left < 1000
  {
    if left >= 0 { FormatRoundTrip(left); }
    FormatZeroExactlyBelowOneSecond(left);
  }

  /** The source of randomness: each call of `selectWinners` sees some reordering of its roster. */
  type Shuffler = seq<UserId> -> seq<UserId>

  ghost predicate IsShuffler(shuffle: Shuffler) {
    forall p :: IsShuffleOf(shuffle(p), p)
  }

  /**
   * The largest time value a JavaScript `Date` holds, 8.64e15 ms (section 21.4.1.1 of
   * ECMA-262); `toISOString` throws on a date beyond it.
   */
  const MaxTimeValue: int := 8640000000000000

  /** The only reaction the handlers react to. */
  const PartyPopper: string := "\U{1F389}"

  /** `s.split(' ')`: the pieces between single spaces, empty ones included. */
  function SplitSpaces(s: string): (r: seq<string>)
    ensures |r| >= 1
  {
    if s == [] then [""]
    else
      var rest := SplitSpaces(s[1..]);
      if s[0] == ' ' then [""] + rest else [[s[0]] + rest[0]] + rest[1..]
  }

  /** A piece without spaces in front of `t` joins the first piece of `t`. */
  lemma {:induction false} SplitWord(w: string, t: string)
    ensures ' ' !in w ==> SplitSpaces(w + t) == [w + SplitSpaces(t)[0]] + SplitSpaces(t)[1..]
  {
    if w == [] {
      var ts := SplitSpaces(t);
      assert w + t == t && w + ts[0] == ts[0];
      assert ts == [ts[0]] + ts[1..];
    } else if ' ' !in w {
      var ts := SplitSpaces(t);
      assert (w + t)[0] == w[0] != ' ' && (w + t)[1..] == w[1..] + t;
      SplitWord(w[1..], t);
      var rest := SplitSpaces(w[1..] + t);
      assert rest[0] == w[1..] + ts[0] && rest[1..] == ts[1..];
      assert [w[0]] + (w[1..] + ts[0]) == w + ts[0];
    }
  }

  /**
   * `args.slice(2).join(' ')` (index.js:178).  The words come from `split(/ +/)`, so
   * none holds a space, and splitting the prize at its spaces gives them back.
   */
  function JoinWords(words: seq<string>): (s: string)
    ensures words != [] && (forall i :: 0 <= i < |words| ==> ' ' !in words[i]) ==> SplitSpaces(s) == words
  {
    if words == [] then ""
    else if |words| == 1 then
      SplitWord(words[0], "");
      assert words[0] + "" == words[0];
      words[0]
    else
      var rest := JoinWords(words[1..]);
      SplitWord(words[0], " " + rest);
      assert (" " + rest)[1..] == rest;
      assert words[0] + " " + rest == words[0] + (" " + rest);
      assert words[0] + "" == words[0];
      assert words == [words[0]] + words[1..];
      words[0] + " " + rest
  }

  /** The row `endGiveaway` inserts for `g` ended at `now` (index.js:62-65, 92-96). */
  function Ended(g: Giveaway, now: int, shuffle: Shuffler): (e: EndedGiveaway)
    requires IsShuffler(shuffle)
    ensures e.giveaway == g && e.endedAt == now
    ensures |g.participants| < g.winners ==> e.winnersList == []
    ensures 1 <= g.winners <= |g.participants| ==> |e.winnersList| == g.winners
    ensures forall u :: u in e.winnersList ==> u in g.participants
    ensures Distinct(g.participants) ==> Distinct(e.winnersList)
  {
    EndedGiveaway(g, now, EndDraw(g.participants, g.winners, shuffle(g.participants)))
  }

  /**
   * `Object.keys(giveaways).find(id => giveaways[id].messageId === messageId)`
   * (index.js:248, 295, 307): the position of the first key, in iteration order,
   * whose giveaway was announced in that message.
   */
  function FirstWithMessage(keys: seq<string>, reg: map<string, Giveaway>, messageId: string): (r: Option<nat>)
    requires forall k :: k in keys ==> k in reg
    ensures r.Some? ==> r.value < |keys| && reg[keys[r.value]].messageId == messageId
    ensures r.Some? ==> forall j :: 0 <= j < r.value ==> reg[keys[j]].messageId != messageId
    ensures r.None? ==> forall j :: 0 <= j < |keys| ==> reg[keys[j]].messageId != messageId
  {
    if keys == [] then None
    else if reg[keys[0]].messageId == messageId then Some(0)
    else match FirstWithMessage(keys[1..], reg, messageId)
      case None => None
      case Some(i) => Some(i + 1)
  }

  /**
   * `supabase.from('ended_giveaways').select('*').eq('messageId', messageId)` and
   * `data[0]` (index.js:280-283): the first archived row for that message.
   */
  function FirstEnded(rows: seq<EndedGiveaway>, messageId: string): (r: Option<nat>)
    ensures r.Some? ==> r.value < |rows| && rows[r.value].giveaway.messageId == messageId
    ensures r.Some? ==> forall j :: 0 <= j < r.value ==> rows[j].giveaway.messageId != messageId
    ensures r.None? ==> forall j :: 0 <= j < |rows| ==> rows[j].giveaway.messageId != messageId
  {
    if rows == [] then None
    else if rows[0].giveaway.messageId == messageId then Some(0)
    else match FirstEnded(rows[1..], messageId)
      case None => None
      case Some(i) => Some(i + 1)
  }

  /** The keys of giveaways not yet due at `now`. */
  function NotDue(reg: map<string, Giveaway>, now: int): set<string> {
    set k | k in reg && now < reg[k].endtime
  }

  /** The keys the sweep hands to `endGiveaway` at `now` (index.js:152-155), in iteration order. */
  function Due(keys: seq<string>, reg: map<string, Giveaway>, now: int): (r: seq<string>)
    requires forall k :: k in keys ==> k in reg
    ensures forall k :: k in r <==> k in keys && k in reg && now >= reg[k].endtime
  {
    Without(keys, NotDue(reg, now))
  }

  /** Extending the visited prefix by one key extends the due keys by that key exactly when it is due. */
  lemma DueStep(keys: seq<string>, i: nat, reg: map<string, Giveaway>, now: int)
    requires i < |keys| && forall k :: k in keys ==> k in reg
    ensures Due(keys[..i + 1], reg, now)
            == Due(keys[..i], reg, now) + (if now >= reg[keys[i]].endtime then [keys[i]] else [])
  {
    assert keys[..i + 1] == keys[..i] + [keys[i]];
    WithoutAppend(keys[..i], [keys[i]], NotDue(reg, now));
    assert Without([keys[i]], NotDue(reg, now)) == (if now >= reg[keys[i]].endtime then [keys[i]] else [])
      by { assert [keys[i]][1..] == []; }
  }

  /** The due keys whose `endGiveaway` got through its Discord calls, and so left the registry. */
  function Closed(due: seq<string>, discordFails: set<string>): set<string> {
    set k | k in due && k !in discordFails
  }

  /** Ending one more due key adds its row and its writes at the end. */
  lemma SweepStep(due: seq<string>, id: string, reg: map<string, Giveaway>, now: int, shuffle: Shuffler,
                  discordFails: set<string>, archiveFails: set<string>)
    requires IsShuffler(shuffle) && id in reg && forall k :: k in due ==> k in reg
    ensures Closed(due + [id], discordFails) == Closed(due, discordFails) + (if id !in discordFails then {id} else {})
    ensures SweepArchive(due + [id], reg, now, shuffle, discordFails, archiveFails)
            == SweepArchive(due, reg, now, shuffle, discordFails, archiveFails)
               + (if id !in discordFails && id !in archiveFails then [Ended(reg[id], now, shuffle)] else [])
    ensures SweepWrites(due + [id], reg, now, shuffle, discordFails)
            == SweepWrites(due, reg, now, shuffle, discordFails)
               + (if id !in discordFails then [InsertEnded(Ended(reg[id], now, shuffle)), DeleteActive(id)] else [])
  {
    assert (due + [id])[..|due|] == due;
  }

  /** The keys of giveaways of other servers. */
  function OtherGuilds(reg: map<string, Giveaway>, guildId: string): set<string> {
    set k | k in reg && reg[k].guildId != guildId
  }

  /**
   * `giveaways` after loading `rows` (index.js:28-31): each row stored under its id,
   * a later row replacing an earlier one with the same id.
   */
  function Index(rows: seq<Giveaway>): map<string, Giveaway> {
    if rows == [] then map[]
    else Index(rows[..|rows| - 1])[rows[|rows| - 1].id := rows[|rows| - 1]]
  }

  /** The iteration order after loading `rows`: ids by first occurrence, since reassigning a key keeps its place. */
  function KeyOrder(rows: seq<Giveaway>): seq<string> {
    if rows == [] then []
    else
      var prefix := KeyOrder(rows[..|rows| - 1]);
      var id := rows[|rows| - 1].id;
      if id in prefix then prefix else prefix + [id]
  }

  /** What `Registry.Valid` asks of a freshly loaded registry. */
  lemma LoadCoherent(rows: seq<Giveaway>)
    ensures Distinct(KeyOrder(rows))
    ensures forall id :: id in KeyOrder(rows) <==> id in Index(rows)
    ensures forall id :: id in Index(rows) ==> Index(rows)[id].id == id
  {
    IndexSpec(rows);
    KeyOrderSpec(rows);
  }

  /** Loading one more row: its id joins the order only when it is not yet a key. */
  lemma LoadStep(rows: seq<Giveaway>, i: nat)
    requires i < |rows|
    ensures Index(rows[..i + 1]) == Index(rows[..i])[rows[i].id := rows[i]]
    ensures KeyOrder(rows[..i + 1]) == if rows[i].id in Index(rows[..i]) then KeyOrder(rows[..i])
                                        else KeyOrder(rows[..i]) + [rows[i].id]
  {
    assert rows[..i + 1][..i] == rows[..i];
    KeyOrderSpec(rows[..i]);
  }

  /**
   * Loading keeps every row's id, stores nothing else, keys each record by its own
   * id, and keeps the last row of each id; in particular, when the ids are
   * distinct every row can be found unchanged.
   */
  lemma {:induction false} IndexSpec(rows: seq<Giveaway>)
    ensures forall i :: 0 <= i < |rows| ==> rows[i].id in Index(rows)
    ensures forall id :: id in Index(rows) ==> Index(rows)[id].id == id && Index(rows)[id] in rows
    ensures forall i :: 0 <= i < |rows| && (forall j :: i < j < |rows| ==> rows[j].id != rows[i].id) ==>
              Index(rows)[rows[i].id] == rows[i]
  {
    if rows != [] {
      var prefix := rows[..|rows| - 1];
      IndexSpec(prefix);
      forall i | 0 <= i < |rows| - 1 ensures rows[i] == prefix[i] { }
    }
  }

  /** The iteration order after loading lists every stored id exactly once. */
  lemma {:induction false} KeyOrderSpec(rows: seq<Giveaway>)
    ensures forall id :: id in KeyOrder(rows) <==> id in Index(rows)
    ensures Distinct(KeyOrder(rows))
  {
    if rows != [] {
      var prefix := rows[..|rows| - 1];
      KeyOrderSpec(prefix);
      var last := rows[|rows| - 1].id;
      if last !in KeyOrder(prefix) {
        DistinctSnoc(KeyOrder(prefix), last);
      }
    }
  }

  /** The archive rows a sweep writes for the due keys `ids`, in the order it ends them. */
  function SweepArchive(ids: seq<string>, reg: map<string, Giveaway>, now: int, shuffle: Shuffler,
                        discordFails: set<string>, archiveFails: set<string>): seq<EndedGiveaway>
    requires IsShuffler(shuffle) && forall k :: k in ids ==> k in reg
  {
    if ids == [] then []
    else
      var last := ids[|ids| - 1];
      SweepArchive(ids[..|ids| - 1], reg, now, shuffle, discordFails, archiveFails)
      + (if last !in discordFails && last !in archiveFails then [Ended(reg[last], now, shuffle)] else [])
  }

  /** The Supabase writes a sweep issues for the due keys `ids`. */
  ghost function SweepWrites(ids: seq<string>, reg: map<string, Giveaway>, now: int, shuffle: Shuffler,
                             discordFails: set<string>): seq<Write>
    requires IsShuffler(shuffle) && forall k :: k in ids ==> k in reg
  {
    if ids == [] then []
    else
      var last := ids[|ids| - 1];
      SweepWrites(ids[..|ids| - 1], reg, now, shuffle, discordFails)
      + (if last !in discordFails then [InsertEnded(Ended(reg[last], now, shuffle)), DeleteActive(last)] else [])
  }

  /** What the bot holds: the registry, its key order, the archive and the write log. */
  datatype Snapshot = Snapshot(giveaways: map<string, Giveaway>, order: seq<string>,
                               ended: seq<EndedGiveaway>, writes: seq<Write>)

  /**
   * The state `endGiveaway(id)` leaves behind (index.js:54-106).  An unknown id, or a
   * failed Discord call (`discordOk` false: the fetches, the announcement or the edit
   * threw), leaves everything as it was.  Otherwise the row is inserted into
   * `ended_giveaways` (kept only when `archiveOk`), the active row is deleted, and then
   * the id alone leaves the registry.
   */
  function EndStep(s: Snapshot, id: string, now: int, shuffle: Shuffler, discordOk: bool, archiveOk: bool): (r: Snapshot)
    requires IsShuffler(shuffle)
    ensures id !in s.giveaways || !discordOk ==> r == s
    ensures id in s.giveaways && discordOk ==> id !in r.giveaways && id !in r.order
    ensures r.giveaways.Keys <= s.giveaways.Keys && forall k :: k in r.giveaways ==> r.giveaways[k] == s.giveaways[k]
    ensures s.ended <= r.ended && s.writes <= r.writes
  {
    if id !in s.giveaways || !discordOk then s
    else
      var row := Ended(s.giveaways[id], now, shuffle);
      Snapshot(s.giveaways - {id}, Without(s.order, {id}),
               s.ended + (if archiveOk then [row] else []),
               s.writes + [InsertEnded(row), DeleteActive(id)])
  }

  /**
   * The sweep's loop over the entries `ids` taken up front (index.js:152-155): each one
   * whose snapshotted `endtime` is at or before `now` is handed to `endGiveaway`, in turn.
   */
  function SweepFold(s: Snapshot, ids: seq<string>, reg: map<string, Giveaway>, now: int, shuffle: Shuffler,
                     discordFails: set<string>, archiveFails: set<string>): (r: Snapshot)
    requires IsShuffler(shuffle) && forall k :: k in ids ==> k in reg
    ensures r.giveaways.Keys <= s.giveaways.Keys && forall k :: k in r.giveaways ==> r.giveaways[k] == s.giveaways[k]
    ensures s.ended <= r.ended && s.writes <= r.writes
  {
    if ids == [] then s
    else
      var last := ids[|ids| - 1];
      SweepVisit(SweepFold(s, ids[..|ids| - 1], reg, now, shuffle, discordFails, archiveFails),
                 last, reg, now, shuffle, discordFails, archiveFails)
  }

  /** Folding one more entry of `ids` is one more visit. */
  lemma SweepFoldTake(s: Snapshot, ids: seq<string>, i: nat, reg: map<string, Giveaway>, now: int, shuffle: Shuffler,
                      discordFails: set<string>, archiveFails: set<string>)
    requires IsShuffler(shuffle) && i < |ids| && forall k :: k in ids ==> k in reg
    ensures SweepFold(s, ids[..i + 1], reg, now, shuffle, discordFails, archiveFails)
            == SweepVisit(SweepFold(s, ids[..i], reg, now, shuffle, discordFails, archiveFails),
                          ids[i], reg, now, shuffle, discordFails, archiveFails)
  {
    assert ids[..i + 1][..i] == ids[..i];
  }

  /** One pass of the sweep's loop body: `if (now >= giveaway.endtime) endGiveaway(id)`. */
  function SweepVisit(s: Snapshot, id: string, reg: map<string, Giveaway>, now: int, shuffle: Shuffler,
                      discordFails: set<string>, archiveFails: set<string>): (r: Snapshot)
    requires IsShuffler(shuffle) && id in reg
    ensures now < reg[id].endtime ==> r == s
    ensures now >= reg[id].endtime && id in s.giveaways && id !in discordFails ==> id !in r.giveaways
    ensures r.giveaways.Keys <= s.giveaways.Keys && forall k :: k in r.giveaways ==> r.giveaways[k] == s.giveaways[k]
    ensures s.ended <= r.ended && s.writes <= r.writes
  {
    if now >= reg[id].endtime then EndStep(s, id, now, shuffle, id !in discordFails, id !in archiveFails)
    else s
  }

  /**
   * The state after a sweep that handed the keys `due` to `endGiveaway`: those whose
   * Discord calls got through have left the registry and its key order, and every
   * due key has added its archive row and writes, in order.
   */
  ghost function SweepResult(s: Snapshot, due: seq<string>, now: int, shuffle: Shuffler,
                             discordFails: set<string>, archiveFails: set<string>): Snapshot
    requires IsShuffler(shuffle) && forall k :: k in due ==> k in s.giveaways
  {
    var closed := Closed(due, discordFails);
    Snapshot(s.giveaways - closed, Without(s.order, closed),
             s.ended + SweepArchive(due, s.giveaways, now, shuffle, discordFails, archiveFails),
             s.writes + SweepWrites(due, s.giveaways, now, shuffle, discordFails))
  }

  /** Ending one more key, not handed over before, extends the sweep's result by that key. */
  lemma EndStepSweep(s: Snapshot, due: seq<string>, id: string, now: int, shuffle: Shuffler,
                     discordFails: set<string>, archiveFails: set<string>)
    requires IsShuffler(shuffle) && id in s.giveaways && id !in due
    requires forall k :: k in due ==> k in s.giveaways
    ensures EndStep(SweepResult(s, due, now, shuffle, discordFails, archiveFails),
                    id, now, shuffle, id !in discordFails, id !in archiveFails)
            == SweepResult(s, due + [id], now, shuffle, discordFails, archiveFails)
  {
    if id in discordFails {
      EndStepKept(s, due, id, now, shuffle, discordFails, archiveFails);
    } else {
      EndStepClosing(s, due, id, now, shuffle, discordFails, archiveFails);
    }
  }

  /** A key whose Discord calls fail stays, and adds no row and no write. */
  lemma EndStepKept(s: Snapshot, due: seq<string>, id: string, now: int, shuffle: Shuffler,
                    discordFails: set<string>, archiveFails: set<string>)
    requires IsShuffler(shuffle) && id in s.giveaways && id in discordFails
    requires forall k :: k in due ==> k in s.giveaways
    ensures SweepResult(s, due + [id], now, shuffle, discordFails, archiveFails)
            == SweepResult(s, due, now, shuffle, discordFails, archiveFails)
  {
    SweepStep(due, id, s.giveaways, now, shuffle, discordFails, archiveFails);
    assert Closed(due + [id], discordFails) == Closed(due, discordFails);
    assert SweepArchive(due + [id], s.giveaways, now, shuffle, discordFails, archiveFails)
           == SweepArchive(due, s.giveaways, now, shuffle, discordFails, archiveFails);
    assert SweepWrites(due + [id], s.giveaways, now, shuffle, discordFails)
           == SweepWrites(due, s.giveaways, now, shuffle, discordFails);
  }

  /** A key whose Discord calls get through leaves the registry and adds its row and writes. */
  lemma EndStepClosing(s: Snapshot, due: seq<string>, id: string, now: int, shuffle: Shuffler,
                       discordFails: set<string>, archiveFails: set<string>)
    requires IsShuffler(shuffle) && id in s.giveaways && id !in due && id !in discordFails
    requires forall k :: k in due ==> k in s.giveaways
    ensures EndStep(SweepResult(s, due, now, shuffle, discordFails, archiveFails), id, now, shuffle, true, id !in archiveFails)
            == SweepResult(s, due + [id], now, shuffle, discordFails, archiveFails)
  {
    ClosingRegistry(s, due, id, discordFails);
    ClosingLogs(s, due, id, now, shuffle, discordFails, archiveFails);
  }

  /** The registry and key order once one more key, not handed over before, is closed. */
  lemma ClosingRegistry(s: Snapshot, due: seq<string>, id: string, discordFails: set<string>)
    requires id !in due && id !in discordFails
    ensures id !in Closed(due, discordFails)
    ensures s.giveaways - Closed(due + [id], discordFails) == s.giveaways - Closed(due, discordFails) - {id}
    ensures Without(s.order, Closed(due + [id], discordFails)) == Without(Without(s.order, Closed(due, discordFails)), {id})
  {
    var closed := Closed(due, discordFails);
    assert Closed(due + [id], discordFails) == closed + {id};
    WithoutWithout(s.order, closed, {id});
  }

  /** The archive and write log once one more key, not handed over before, is closed. */
  lemma ClosingLogs(s: Snapshot, due: seq<string>, id: string, now: int, shuffle: Shuffler,
                    discordFails: set<string>, archiveFails: set<string>)
    requires IsShuffler(shuffle) && id in s.giveaways && id !in discordFails
    requires forall k :: k in due ==> k in s.giveaways
    ensures s.ended + SweepArchive(due + [id], s.giveaways, now, shuffle, discordFails, archiveFails)
            == s.ended + SweepArchive(due, s.giveaways, now, shuffle, discordFails, archiveFails)
               + (if id !in archiveFails then [Ended(s.giveaways[id], now, shuffle)] else [])
    ensures s.writes + SweepWrites(due + [id], s.giveaways, now, shuffle, discordFails)
            == s.writes + SweepWrites(due, s.giveaways, now, shuffle, discordFails)
               + [InsertEnded(Ended(s.giveaways[id], now, shuffle)), DeleteActive(id)]
  {
    SweepStep(due, id, s.giveaways, now, shuffle, discordFails, archiveFails);
  }

  /**
   * Sweeping the first `i` keys of a coherent registry hands exactly the due ones to
   * `endGiveaway`, in iteration order.
   */
  lemma {:induction false} SweepFoldSpec(s: Snapshot, i: nat, now: int, shuffle: Shuffler,
                                         discordFails: set<string>, archiveFails: set<string>)
    requires IsShuffler(shuffle) && i <= |s.order|
    requires Distinct(s.order) && forall k :: k in s.order <==> k in s.giveaways
    ensures SweepFold(s, s.order[..i], s.giveaways, now, shuffle, discordFails, archiveFails)
            == SweepResult(s, Due(s.order[..i], s.giveaways, now), now, shuffle, discordFails, archiveFails)
  {
    if i == 0 {
      assert s.order[..0] == [];
      SweepNothing(s, now, shuffle, discordFails, archiveFails);
    } else {
      SweepFoldSpec(s, i - 1, now, shuffle, discordFails, archiveFails);
      DistinctFresh(s.order, i - 1);
      SweepFoldNext(s, i - 1, now, shuffle, discordFails, archiveFails);
    }
  }

  /** Handing over no key changes nothing. */
  lemma SweepNothing(s: Snapshot, now: int, shuffle: Shuffler, discordFails: set<string>, archiveFails: set<string>)
    requires IsShuffler(shuffle)
    ensures SweepResult(s, [], now, shuffle, discordFails, archiveFails) == s
  {
    WithoutNothing(s.order, {});
    assert Closed([], discordFails) == {};
    assert s.giveaways - {} == s.giveaways;
  }

  /** The inductive step of `SweepFoldSpec`: visiting key `j` next. */
  lemma SweepFoldNext(s: Snapshot, j: nat, now: int, shuffle: Shuffler,
                      discordFails: set<string>, archiveFails: set<string>)
    requires IsShuffler(shuffle) && j < |s.order|
    requires s.order[j] !in s.order[..j] && forall k :: k in s.order ==> k in s.giveaways
    requires SweepFold(s, s.order[..j], s.giveaways, now, shuffle, discordFails, archiveFails)
             == SweepResult(s, Due(s.order[..j], s.giveaways, now), now, shuffle, discordFails, archiveFails)
    ensures SweepFold(s, s.order[..j + 1], s.giveaways, now, shuffle, discordFails, archiveFails)
            == SweepResult(s, Due(s.order[..j + 1], s.giveaways, now), now, shuffle, discordFails, archiveFails)
  {
    var reg := s.giveaways;
    assert s.order[..j + 1][..j] == s.order[..j];
    DueStep(s.order, j, reg, now);
    VisitSweep(s, Due(s.order[..j], reg, now), s.order[j], now, shuffle, discordFails, archiveFails);
  }

  /** Visiting a key not handed over before hands it over exactly when it is due. */
  lemma VisitSweep(s: Snapshot, due: seq<string>, id: string, now: int, shuffle: Shuffler,
                   discordFails: set<string>, archiveFails: set<string>)
    requires IsShuffler(shuffle) && id in s.giveaways && id !in due
    requires forall k :: k in due ==> k in s.giveaways
    ensures SweepVisit(SweepResult(s, due, now, shuffle, discordFails, archiveFails),
                       id, s.giveaways, now, shuffle, discordFails, archiveFails)
            == SweepResult(s, due + (if now >= s.giveaways[id].endtime then [id] else []),
                           now, shuffle, discordFails, archiveFails)
  {
    if now >= s.giveaways[id].endtime {
      EndStepSweep(s, due, id, now, shuffle, discordFails, archiveFails);
    } else {
      assert due + [] == due;
    }
  }

  /**
   * The `active.forEach((g, i) => embed.addFields(...))` loop of `glist`
   * (index.js:264-271): the fields for `active`, numbered from 1, each with the time
   * left until its `endtime` as `formatTimeLeft` renders it.
   */
  method ListFields(active: seq<Giveaway>, now: int) returns (fields: seq<Listing>)
    ensures |fields| == |active|
    ensures forall i :: 0 <= i < |active| ==> fields[i] == ListingOf(active[i], i + 1, now)
  {
    fields := [];
    var i := 0;
    while i < |active|
      invariant 0 <= i <= |active| && |fields| == i
      invariant forall j :: 0 <= j < i ==> fields[j] == ListingOf(active[j], j + 1, now)
    {
      var g := active[i];
      var timeLeft := FormatTimeLeft(g.endtime - now);
      fields := fields + [Listing(i + 1, g.prize, g.winners, timeLeft, g.messageId)];
      i := i + 1;
    }
  }

  /**
   * The bot's state: the module-level `giveaways` object (index.js:20), the
   * `ended_giveaways` table it archives into, and a log of its Supabase writes.
   */
  class Registry {
    /** Running giveaways by id. */
    var giveaways: map<string, Giveaway>
    /** The keys of `giveaways` in insertion order, the order `Object.keys/values/entries` visit them. */
    var order: seq<string>
    /** The `ended_giveaways` table, oldest row first. */
    var ended: seq<EndedGiveaway>
    /** Every write sent to Supabase, oldest first. */
    ghost var writes: seq<Write>

    ghost predicate Valid()
      reads this
    {
      && Distinct(order)
      && (forall id :: id in order <==> id in giveaways)
      && (forall id :: id in giveaways ==> giveaways[id].id == id)
    }

    /** A bot that has not loaded anything yet, over an existing archive. */
    constructor (archive: seq<EndedGiveaway>)
      ensures Valid()
      ensures giveaways == map[] && order == [] && ended == archive && writes == []
    {
      giveaways := map[];
      order := [];
      ended := archive;
      writes := [];
    }

    /** The running giveaway announced in message `messageId`, looked up as the handlers do. */
    function FindId(messageId: string): (r: Option<string>)
      reads this
      requires Valid()
      ensures r.Some? ==> r.value in giveaways && giveaways[r.value].messageId == messageId
      ensures r.None? ==> forall id :: id in giveaways ==> giveaways[id].messageId != messageId
    {
      match FirstWithMessage(order, giveaways, messageId)
      case None => None
      case Some(i) => Some(order[i])
    }

    /**
     * `Object.values(giveaways).filter(g => g.guildId === guildId)` (index.js:256):
     * the giveaways of one server, each once, in iteration order.
     */
    function Active(guildId: string): (r: seq<Giveaway>)
      reads this
      requires Valid()
      ensures forall g :: g in r ==> g.guildId == guildId && g.id in giveaways && giveaways[g.id] == g
      ensures forall id :: id in giveaways && giveaways[id].guildId == guildId ==> giveaways[id] in r
      ensures forall i, j :: 0 <= i < j < |r| ==> r[i].id != r[j].id
      ensures forall i, j :: 0 <= i < j < |r| ==>
                r[i].id in order && r[j].id in order && IndexOf(order, r[i].id) < IndexOf(order, r[j].id)
    {
      var reg := giveaways;
      var drop := OtherGuilds(reg, guildId);
      var ids := Without(order, drop);
      var r := seq(|ids|, i requires 0 <= i < |ids| => reg[ids[i]]);
      forall i, j | 0 <= i < j < |r|
        ensures r[i].id in order && r[j].id in order && IndexOf(order, r[i].id) < IndexOf(order, r[j].id)
      {
        assert r[i].id == ids[i] && r[j].id == ids[j];
        WithoutOrder(order, drop, i, j);
      }
      forall id | id in reg && reg[id].guildId == guildId ensures reg[id] in r {
        var i :| 0 <= i < |ids| && ids[i] == id;
        assert r[i] == reg[id];
      }
      r
    }

    /**
     * loadGiveaways (index.js:23-33): on a successful select the whole registry is
     * replaced by the rows; on an error nothing changes.
     */
    method Load(data: Option<seq<Giveaway>>)
      requires Valid()
      modifies this
      ensures Valid()
      ensures data.None? ==> giveaways == old(giveaways) && order == old(order)
      ensures data.Some? ==> giveaways == Index(data.value) && order == KeyOrder(data.value)
      ensures ended == old(ended) && writes == old(writes)
    {
      if data.Some? {
        var rows := data.value;
        var loaded: map<string, Giveaway> := map[];
        var keys: seq<string> := [];
        var i := 0;
        while i < |rows|
          invariant 0 <= i <= |rows|
          invariant loaded == Index(rows[..i]) && keys == KeyOrder(rows[..i])
          invariant ended == old(ended) && writes == old(writes)
        {
          var g := rows[i];
          LoadStep(rows, i);
          if g.id !in loaded {
            keys := keys + [g.id];
          }
          loaded := loaded[g.id := g];
          i := i + 1;
        }
        assert rows[..i] == rows;
        LoadCoherent(rows);
        giveaways, order := loaded, keys;
      }
    }

    /**
     * The `gstart` command (index.js:167-212).  Every refusal happens before any
     * state changes; a valid request whose end fits in a `Date` stores one record
     * with an empty roster under `Date.now().toString()` and saves it.
     */
    method Start(args: seq<string>, winnersCount: Option<int>, canManageGuild: bool, now: nat,
                 announcementId: string, channelId: string, guildId: string,
                 authorName: string, authorId: UserId)
      returns (r: Result<Giveaway, CommandError>)
      requires Valid()
      modifies this
      ensures Valid()
      ensures !canManageGuild ==> r == Err(NeedPermission)
      ensures canManageGuild && |args| < 3 ==> r == Err(Usage)
      ensures canManageGuild && |args| >= 3 && Parse(args[0]) == 0 ==> r == Err(InvalidTime)
      ensures canManageGuild && |args| >= 3 && Parse(args[0]) != 0 && (winnersCount.None? || winnersCount.value < 1)
              ==> r == Err(InvalidWinners)
      ensures canManageGuild && |args| >= 3 && Parse(args[0]) != 0 && winnersCount.Some? && winnersCount.value >= 1
              ==> (now + Parse(args[0]) <= MaxTimeValue <==> r.Ok?)
      ensures r.Err? ==> unchanged(this)
      ensures r.Ok? ==>
        var g := r.value;
        && g == Giveaway(NatToString(now), announcementId, channelId, guildId, authorName, authorId,
                         JoinWords(args[2..]), winnersCount.value, now + Parse(args[0]), [])
        && giveaways == old(giveaways)[g.id := g]
        && order == (if g.id in old(giveaways) then old(order) else old(order) + [g.id])
        && ended == old(ended)
        && writes == old(writes) + [Upsert(g)]
    {
      if !canManageGuild {
        return Err(NeedPermission);
      }
      if |args| < 3 {
        return Err(Usage);
      }
      var timeArg := args[0];
      var prize := JoinWords(args[2..]);
      var duration := ParseTime(timeArg);
      if duration == 0 {
        return Err(InvalidTime);
      }
      if winnersCount.None? || winnersCount.value < 1 {
        return Err(InvalidWinners);
      }
      // `toISOString` throws on an end outside the Date range, before anything is stored.
      if now + duration > MaxTimeValue {
        return Err(EndOutOfRange);
      }
      var giveawayId := NatToString(now);
      var g := Giveaway(giveawayId, announcementId, channelId, guildId, authorName, authorId,
                        prize, winnersCount.value, now + duration, []);
      if giveawayId !in giveaways {
        order := order + [giveawayId];
      }
      giveaways := giveaways[giveawayId := g];
      writes := writes + [Upsert(g)];
      r := Ok(g);
    }

    /** The state as a value. */
    ghost function Snap(): Snapshot
      reads this
    {
      Snapshot(giveaways, order, ended, writes)
    }

    /** endGiveaway (index.js:54-106). */
    method EndGiveaway(id: string, now: int, shuffle: Shuffler, discordOk: bool, archiveOk: bool)
      requires Valid() && IsShuffler(shuffle)
      modifies this
      ensures Valid()
      ensures Snap() == EndStep(old(Snap()), id, now, shuffle, discordOk, archiveOk)
    {
      // An unknown id returns at once; a Discord call that throws lands in the catch.
      if id !in giveaways || !discordOk {
        return;
      }
      var row := Ended(giveaways[id], now, shuffle);
      // The insert into `ended_giveaways` is kept only when it succeeds; the delete follows it.
      ended := ended + (if archiveOk then [row] else []);
      writes := writes + [InsertEnded(row), DeleteActive(id)];
      WithoutDistinct(order, {id});
      order := Without(order, {id});
      giveaways := giveaways - {id};
    }

    /**
     * One tick of the five-second sweep (index.js:150-156): every giveaway, visited
     * in iteration order, whose `endtime` is at or before `now` is handed to
     * `endGiveaway`, and no other.  `discordFails` and `archiveFails` say, per id, how
     * that call's platform and archive calls turn out.
     */
    method Sweep(now: int, shuffle: Shuffler, discordFails: set<string>, archiveFails: set<string>)
      requires Valid() && IsShuffler(shuffle)
      modifies this
      ensures Valid()
      ensures Snap() == SweepFold(old(Snap()), old(order), old(giveaways), now, shuffle, discordFails, archiveFails)
      ensures
        var due := Due(old(order), old(giveaways), now);
        && giveaways == old(giveaways) - Closed(due, discordFails)
        && order == Without(old(order), Closed(due, discordFails))
        && ended == old(ended) + SweepArchive(due, old(giveaways), now, shuffle, discordFails, archiveFails)
        && writes == old(writes) + SweepWrites(due, old(giveaways), now, shuffle, discordFails)
    {
      ghost var start := Snap();
      var entries := order;
      var snapshot := giveaways;
      var i := 0;
      while i < |entries|
        invariant 0 <= i <= |entries|
        invariant Valid()
        invariant Snap() == SweepFold(start, entries[..i], snapshot, now, shuffle, discordFails, archiveFails)
      {
        var id := entries[i];
        ghost var before := Snap();
        if now >= snapshot[id].endtime {
          EndGiveaway(id, now, shuffle, id !in discordFails, id !in archiveFails);
        }
        assert Snap() == SweepVisit(before, id, snapshot, now, shuffle, discordFails, archiveFails);
        SweepFoldTake(start, entries, i, snapshot, now, shuffle, discordFails, archiveFails);
        assert Snap() == SweepFold(start, entries[..i + 1], snapshot, now, shuffle, discordFails, archiveFails);
        i := i + 1;
      }
      assert entries[..i] == entries;
      SweepFoldSpec(start, |entries|, now, shuffle, discordFails, archiveFails);
      assert start.order[..|entries|] == entries;
    }

    /**
     * The `gend` command (index.js:243-253).  It replies success once `endGiveaway`
     * has run, whether or not that call got through its platform calls.
     */
    method GEnd(args: seq<string>, canManageGuild: bool, now: int, shuffle: Shuffler,
                discordOk: bool, archiveOk: bool)
      returns (r: Result<(), CommandError>)
      requires Valid() && IsShuffler(shuffle)
      modifies this
      ensures Valid()
      ensures !canManageGuild ==> r == Err(NeedPermission)
      ensures canManageGuild && |args| == 0 ==> r == Err(Usage)
      ensures canManageGuild && |args| > 0 && old(FindId(args[0])).None? ==> r == Err(NoActiveGiveaway)
      ensures r.Err? ==> unchanged(this)
      ensures canManageGuild && |args| > 0 && old(FindId(args[0])).Some? ==>
        r == Ok(()) && Snap() == EndStep(old(Snap()), old(FindId(args[0])).value, now, shuffle, discordOk, archiveOk)
    {
      if !canManageGuild {
        return Err(NeedPermission);
      }
      if |args| == 0 {
        return Err(Usage);
      }
      var messageId := args[0];
      var giveawayId := FindId(messageId);
      if giveawayId.None? {
        return Err(NoActiveGiveaway);
      }
      EndGiveaway(giveawayId.value, now, shuffle, discordOk, archiveOk);
      r := Ok(());
    }

    /**
     * A 🎉 reaction added to a message (index.js:293-303): the user joins the roster of
     * the giveaway announced there unless already in it, and only then is it saved.
     * Bots, other emoji and messages without a running giveaway are ignored.
     */
    method ReactionAdd(messageId: string, userId: UserId, userIsBot: bool, emoji: string)
      requires Valid()
      modifies this
      ensures Valid()
      ensures userIsBot || emoji != PartyPopper || old(FindId(messageId)).None? ==> unchanged(this)
      ensures !userIsBot && emoji == PartyPopper && old(FindId(messageId)).Some? ==>
        var id := old(FindId(messageId)).value;
        var g := old(giveaways)[id];
        var g' := g.(participants := OptIn(g.participants, userId));
        && giveaways == old(giveaways)[id := g']
        && order == old(order) && ended == old(ended)
        && writes == old(writes) + (if userId in g.participants then [] else [Upsert(g')])
    {
      if userIsBot || emoji != PartyPopper {
        return;
      }
      var giveawayId := FindId(messageId);
      if giveawayId.None? {
        return;
      }
      var id := giveawayId.value;
      var giveaway := giveaways[id];
      if userId !in giveaway.participants {
        giveaway := giveaway.(participants := giveaway.participants + [userId]);
        giveaways := giveaways[id := giveaway];
        writes := writes + [Upsert(giveaway)];
      }
    }

    /**
     * A 🎉 reaction removed from a message (index.js:305-313): every occurrence of the
     * user leaves the roster and the giveaway is saved, even when the user was not in it.
     */
    method ReactionRemove(messageId: string, userId: UserId, userIsBot: bool, emoji: string)
      requires Valid()
      modifies this
      ensures Valid()
      ensures userIsBot || emoji != PartyPopper || old(FindId(messageId)).None? ==> unchanged(this)
      ensures !userIsBot && emoji == PartyPopper && old(FindId(messageId)).Some? ==>
        var id := old(FindId(messageId)).value;
        var g := old(giveaways)[id];
        var g' := g.(participants := OptOut(g.participants, userId));
        && giveaways == old(giveaways)[id := g']
        && order == old(order) && ended == old(ended)
        && writes == old(writes) + [Upsert(g')]
    {
      if userIsBot || emoji != PartyPopper {
        return;
      }
      var giveawayId := FindId(messageId);
      if giveawayId.None? {
        return;
      }
      var id := giveawayId.value;
      var giveaway := giveaways[id];
      giveaway := giveaway.(participants := Without(giveaway.participants, {userId}));
      giveaways := giveaways[id := giveaway];
      writes := writes + [Upsert(giveaway)];
    }

    /**
     * The `glist` command (index.js:255-273): one field per giveaway of the server, in
     * iteration order, or a refusal when the server has none.
     */
    method GList(guildId: string, now: int) returns (r: Result<seq<Listing>, CommandError>)
      requires Valid()
      ensures Active(guildId) == [] <==> r == Err(NoActiveGiveaways)
      ensures Active(guildId) != [] ==> r.Ok?
      ensures r.Ok? ==>
        && |r.value| == |Active(guildId)|
        && forall i :: 0 <= i < |r.value| ==> r.value[i] == ListingOf(Active(guildId)[i], i + 1, now)
    {
      var active := Active(guildId);
      if |active| == 0 {
        return Err(NoActiveGiveaways);
      }
      var fields := ListFields(active, now);
      r := Ok(fields);
    }

    /**
     * The `greroll` command (index.js:275-289): a fresh draw from the first archived
     * row of that message, without the quota check of `endGiveaway`, so a roster
     * smaller than the quota is drawn whole.  The archive is only read.
     */
    method GReroll(args: seq<string>, canManageGuild: bool, queryOk: bool, shuffle: Shuffler)
      returns (r: Result<seq<UserId>, CommandError>)
      requires IsShuffler(shuffle)
      ensures !canManageGuild ==> r == Err(NeedPermission)
      ensures canManageGuild && |args| == 0 ==> r == Err(Usage)
      ensures canManageGuild && |args| > 0 && (!queryOk || FirstEnded(ended, args[0]).None?)
              ==> r == Err(NoEndedGiveaway)
      ensures canManageGuild && |args| > 0 && queryOk && FirstEnded(ended, args[0]).Some? ==>
        var g := ended[FirstEnded(ended, args[0]).value].giveaway;
        && (g.participants == [] <==> r == Err(NoParticipants))
        && (g.participants != [] ==> r == Ok(SelectWinners(g.participants, g.winners, shuffle(g.participants))))
      ensures r.Ok? ==> exists row :: row in ended && forall u :: u in r.value ==> u in row.giveaway.participants
    {
      if !canManageGuild {
        return Err(NeedPermission);
      }
      if |args| == 0 {
        return Err(Usage);
      }
      var messageId := args[0];
      var found := FirstEnded(ended, messageId);
      if !queryOk || found.None? {
        return Err(NoEndedGiveaway);
      }
      var giveaway := ended[found.value].giveaway;
      if |giveaway.participants| == 0 {
        return Err(NoParticipants);
      }
      var newWinners := SelectWinners(giveaway.participants, giveaway.winners, shuffle(giveaway.participants));
      r := Ok(newWinners);
    }
  }
}
