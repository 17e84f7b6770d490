/** game_manager.py: running the game-list program with retries, and the refresh that
    merges its output into the module-level `game_list`, closes the games not seen for
    `game_ttl` seconds and sets the bot's presence to the number of games online.

    `game_list` is a dict from the upper-cased game id to the game's dict; both are kept
    as their entries in insertion order. The refresh reads the IDs of the games whose
    `channel.send` raises (`failing`), whether the channel has a guild and whether the
    bot may manage messages there as parameters, and `images` is the set of game types
    with an `images/<type>.png` file. */
module GameManager {
  import opened Wrappers
  import Text
  import Dicts
  import opened Utils
  import Sink

  // ---------------------------------------------------------------- fetch_game_list

  /** What running the game-list program gave: a timeout (the process is killed), an
      exception, or its decoded standard output with `json.loads` of the stripped output
      (None when that raises JSONDecodeError). */
  datatype RawOutput =
    | TimedOut
    | Failed
    | Finished(stdout: string, json: Option<Value>)

  predicate AllDicts(items: seq<Value>) {
    forall i :: 0 <= i < |items| ==> items[i].Dict?
  }

  /** fetch_game_list: None on a timeout; the parsed list when the output is a JSON list of
      objects; [] for no output, a parse error, any other JSON or an exception. */
  function FetchGameList(r: RawOutput): (games: Option<seq<Value>>)
    ensures games.None? <==> r.TimedOut?
    ensures games.Some? ==> AllDicts(games.value)
    ensures (games.Some? && games.value != []) <==>
      (r.Finished? && Text.Strip(r.stdout) != "" && r.json.Some? && r.json.value.List?
       && r.json.value.items != [] && AllDicts(r.json.value.items))
    ensures games.Some? && games.value != [] ==> games.value == r.json.value.items
  {
    match r
    case TimedOut => None
    case Failed => Some([])
    case Finished(stdout, json) =>
      if Text.Strip(stdout) == "" then Some([])
      else if json.Some? && json.value.List? && AllDicts(json.value.items) then Some(json.value.items)
      else Some([])
  }

  /** `if games:` is false for the timeout's None and for []. */
  predicate Falsy(games: Option<seq<Value>>) {
    games.None? || games.value == []
  }

  /** fetch_game_list_with_retries: `fetch(j)` is what fetch_game_list returns on the
      (j+1)-th run of the program. The result is the first non-empty fetch, after at most
      `retries` runs, or [] when every one of the `retries` runs came back empty or timed
      out. */
  method FetchGameListWithRetries(fetch: nat -> Option<seq<Value>>, retries: int) returns (games: seq<Value>, fetches: nat)
    ensures fetches <= if retries > 0 then retries else 0
    ensures forall j :: 0 <= j && j + 1 < fetches ==> Falsy(fetch(j))
    ensures games != [] ==> 1 <= fetches && fetch(fetches - 1) == Some(games)
    ensures games == [] ==>
      fetches == (if retries > 0 then retries else 0) && forall j :: 0 <= j < fetches ==> Falsy(fetch(j))
  {
    fetches := 0;
    games := [];
    while fetches < retries && games == []
      invariant retries > 0 ==> fetches <= retries
      invariant retries <= 0 ==> fetches == 0
      invariant forall j :: 0 <= j && j + 1 < fetches ==> Falsy(fetch(j))
      invariant games == [] ==> forall j :: 0 <= j < fetches ==> Falsy(fetch(j))
      invariant games != [] ==> 1 <= fetches && fetch(fetches - 1) == Some(games)
    {
      var result := fetch(fetches);
      if !Falsy(result) {
        games := result.value;
      }
      fetches := fetches + 1;
    }
  }

  // ---------------------------------------------------------------- the game list

  type GameList = Dicts.Items<Entries>

  predicate HasLastSeen(game: Entries) {
    Dicts.Get(game, "last_seen").Some? && Dicts.Get(game, "last_seen").value.Num?
  }

  function LastSeen(game: Entries): int
    requires HasLastSeen(game)
  {
    Dicts.Get(game, "last_seen").value.n
  }

  /** `game_list` as a refresh leaves it: a dict whose every game carries its `last_seen`. */
  predicate WellFormed(list: GameList) {
    Dicts.UniqueKeys(list) && Dicts.AllValues(list, HasLastSeen)
  }

  /** A game whose `"message"` entry is present and truthy, which the refresh takes for the
      posted embed. */
  predicate HasMessage(game: Entries) {
    Dicts.Get(game, "message").Some? && Truthy(Dicts.Get(game, "message").value)
  }

  // ---------------------------------------------------------------- merging a fetch

  /** What the merge loop makes of one fetched value: skip it (no dict, no id or an empty
      one), crash on it (`.upper()` of an id that is no string raises outside any `try`), or
      file it under the upper-cased id. */
  datatype Sighting = Skip | Crash | Seen(key: string, game: Entries)

  function Sight(v: Value): (s: Sighting)
    ensures s.Seen? ==> v == Dict(s.game) && s.key != "" && Text.Upper(s.key) == s.key
    ensures s.Seen? ==> exists id :: Dicts.Get(s.game, "id") == Some(Str(id)) && s.key == Text.Upper(id)
    ensures s.Skip? <==> !v.Dict? || Dicts.Get(v.entries, "id") in {None, Some(Str(""))}
  {
    if !v.Dict? then Skip
    else
      match Dicts.Get(v.entries, "id")
      case None => Skip
      case Some(id) =>
        if !id.Str? then Crash
        else if id.s == "" then Skip
        else Text.UpperIdempotent(id.s); Seen(Text.Upper(id.s), v.entries)
  }

  /** A new game with `first_seen` and `last_seen` set to the refresh time. */
  function Stamped(game: Entries, now: int): Entries {
    Dicts.Put(Dicts.Put(game, "first_seen", Num(now)), "last_seen", Num(now))
  }

  /** Stamping sets the two times and keeps every other entry of the fetched game. */
  lemma StampedFields(game: Entries, now: int, k: string)
    ensures Dicts.Get(Stamped(game, now), "first_seen") == Some(Num(now))
    ensures Dicts.Get(Stamped(game, now), "last_seen") == Some(Num(now))
    ensures k != "first_seen" && k != "last_seen" ==> Dicts.Get(Stamped(game, now), k) == Dicts.Get(game, k)
  {
    var first := Dicts.Put(game, "first_seen", Num(now));
    Dicts.PutGet(game, "first_seen", Num(now), k);
    Dicts.PutGet(first, "last_seen", Num(now), k);
    Dicts.PutGet(first, "last_seen", Num(now), "first_seen");
  }

  /** The embed sent for a new game, with its type's thumbnail when the image exists. */
  function EmbedFor(game: Entries, config: Config, now: int, images: set<string>): Embed
    requires EmbeddableGame(game)
  {
    FormatGameEmbed(game, config, now, Dicts.Get(game, "type").value.s in images)
  }

  /** The channel the refresh posts embeds to, as a value. */
  type Chan = Sink.State<Embed>

  /** The game list, the channel, and whether the refresh was aborted by an exception
      outside any `try`. */
  datatype Merged = Merged(list: GameList, chan: Chan, aborted: bool)

  /** One pass of the merge loop over a fetched value. A known key only gets `last_seen`;
      a new one is stored stamped, then its embed is built (an exception there aborts the
      refresh) and sent, and the message is stored unless the send raised. */
  function Step(m: Merged, v: Value, now: int, config: Config, images: set<string>, failing: set<string>): Merged {
    match Sight(v)
    case Skip => m
    case Crash => m.(aborted := true)
    case Seen(key, game) =>
      match Dicts.Get(m.list, key)
      case Some(known) => m.(list := Dicts.Put(m.list, key, Dicts.Put(known, "last_seen", Num(now))))
      case None =>
        var g := Stamped(game, now);
        if !EmbeddableGame(g) then m.(list := Dicts.Put(m.list, key, g), aborted := true)
        else if key in failing then m.(list := Dicts.Put(m.list, key, g))
        else
          Merged(Dicts.Put(m.list, key, Dicts.Put(g, "message", MessageRef(m.chan.nextHandle))),
                 Sink.AfterSend(m.chan, EmbedFor(g, config, now, images)), false)
  }

  /** A merge pass sends at most one message, under the first free handle, and leaves every
      message under an earlier handle as it was. */
  lemma StepFrame(m: Merged, v: Value, now: int, config: Config, images: set<string>, failing: set<string>, h: nat)
    requires h < m.chan.nextHandle
    ensures var r := Step(m, v, now, config, images, failing).chan;
      && m.chan.nextHandle <= r.nextHandle && r.presence == m.chan.presence
      && (h in r.posted <==> h in m.chan.posted) && (h in m.chan.posted ==> r.posted[h] == m.chan.posted[h])
  {
  }

  /** A merge pass keeps the game list a well-formed dict. */
  lemma StepWellFormed(m: Merged, v: Value, now: int, config: Config, images: set<string>, failing: set<string>)
    requires WellFormed(m.list)
    ensures WellFormed(Step(m, v, now, config, images, failing).list)
  {
    match Sight(v)
    case Skip =>
    case Crash =>
    case Seen(key, game) =>
      match Dicts.Get(m.list, key)
      case Some(known) =>
        var updated := Dicts.Put(known, "last_seen", Num(now));
        Dicts.PutGet(known, "last_seen", Num(now), "last_seen");
        Dicts.PutUnique(m.list, key, updated);
        Dicts.PutAll(m.list, key, updated, HasLastSeen);
      case None =>
        var g := Stamped(game, now);
        StampedFields(game, now, "last_seen");
        Dicts.PutUnique(m.list, key, g);
        Dicts.PutAll(m.list, key, g, HasLastSeen);
        var sent := Dicts.Put(g, "message", MessageRef(m.chan.nextHandle));
        Dicts.PutGet(g, "message", MessageRef(m.chan.nextHandle), "last_seen");
        Dicts.PutUnique(m.list, key, sent);
        Dicts.PutAll(m.list, key, sent, HasLastSeen);
  }

  /** The merge loop over the fetched games, stopping at the first exception. */
  function MergeAll(list: GameList, s: Chan, games: seq<Value>, now: int, config: Config, images: set<string>, failing: set<string>): (m: Merged)
    ensures WellFormed(list) ==> WellFormed(m.list)
    decreases |games|
  {
    if games == [] then Merged(list, s, false)
    else
      var prev := MergeAll(list, s, games[..|games| - 1], now, config, images, failing);
      if prev.aborted then prev
      else if WellFormed(list) then
        StepWellFormed(prev, games[|games| - 1], now, config, images, failing);
        Step(prev, games[|games| - 1], now, config, images, failing)
      else Step(prev, games[|games| - 1], now, config, images, failing)
  }

  /** Once aborted, the merge ignores the rest of the fetch. */
  lemma {:induction false} MergeAbortedStays(list: GameList, s: Chan, games: seq<Value>, i: nat, now: int, config: Config, images: set<string>, failing: set<string>)
    requires i <= |games| && MergeAll(list, s, games[..i], now, config, images, failing).aborted
    ensures MergeAll(list, s, games, now, config, images, failing) == MergeAll(list, s, games[..i], now, config, images, failing)
    decreases |games| - i
  {
    if i < |games| {
      assert games[..i + 1][..i] == games[..i];
      MergeAbortedStays(list, s, games, i + 1, now, config, images, failing);
    } else {
      assert games[..i] == games;
    }
  }

  /** The merge loop only adds messages, under fresh handles: every message under an earlier
      handle, and the presence, stay as they were. */
  lemma {:induction false} MergeAllFrame(list: GameList, s: Chan, games: seq<Value>, now: int, config: Config, images: set<string>, failing: set<string>, h: nat)
    requires h < s.nextHandle
    ensures var r := MergeAll(list, s, games, now, config, images, failing).chan;
      && s.nextHandle <= r.nextHandle && r.presence == s.presence
      && (h in r.posted <==> h in s.posted) && (h in s.posted ==> r.posted[h] == s.posted[h])
    decreases |games|
  {
    if games != [] {
      var front := games[..|games| - 1];
      MergeAllFrame(list, s, front, now, config, images, failing, h);
      StepFrame(MergeAll(list, s, front, now, config, images, failing), games[|games| - 1], now, config, images, failing, h);
    }
  }

  /** Values that are no dict, or have no id or an empty one, change nothing. */
  lemma StepSkips(m: Merged, v: Value, now: int, config: Config, images: set<string>, failing: set<string>)
    requires !v.Dict? || Dicts.Get(v.entries, "id") == None || Dicts.Get(v.entries, "id") == Some(Str(""))
    ensures Step(m, v, now, config, images, failing) == m
  {
    assert Sight(v).Skip?;
  }

  /** A game seen again gets only `last_seen = now`: its `players`, `first_seen`, message
      and every other entry stay, no other game changes and nothing is sent. */
  lemma StepRefreshesKnown(m: Merged, v: Value, now: int, config: Config, images: set<string>, failing: set<string>, key: string, f: string, other: string)
    requires Sight(v).Seen? && Sight(v).key == key && Dicts.Get(m.list, key).Some?
    ensures var r := Step(m, v, now, config, images, failing);
      && Dicts.Get(r.list, key).Some?
      && Dicts.Get(Dicts.Get(r.list, key).value, "last_seen") == Some(Num(now))
      && (f != "last_seen" ==> Dicts.Get(Dicts.Get(r.list, key).value, f) == Dicts.Get(Dicts.Get(m.list, key).value, f))
      && (other != key ==> Dicts.Get(r.list, other) == Dicts.Get(m.list, other))
      && r.chan == m.chan && r.aborted == m.aborted
  {
    var known := Dicts.Get(m.list, key).value;
    Dicts.PutGet(known, "last_seen", Num(now), f);
    Dicts.PutGet(m.list, key, Dicts.Put(known, "last_seen", Num(now)), other);
  }

  /** A new game is stored under its upper-cased id with `first_seen = last_seen = now` and
      the entries fetched for it; no other game changes. */
  lemma StepStoresNew(m: Merged, v: Value, now: int, config: Config, images: set<string>, failing: set<string>, key: string, f: string, other: string)
    requires Sight(v).Seen? && Sight(v).key == key && Dicts.Get(m.list, key).None?
    ensures var r := Step(m, v, now, config, images, failing);
      var stored := Dicts.Get(r.list, key);
      && stored.Some?
      && Dicts.Get(stored.value, "first_seen") == Some(Num(now))
      && Dicts.Get(stored.value, "last_seen") == Some(Num(now))
      && (f !in {"first_seen", "last_seen", "message"} ==> Dicts.Get(stored.value, f) == Dicts.Get(Sight(v).game, f))
      && (other != key ==> Dicts.Get(r.list, other) == Dicts.Get(m.list, other))
  {
    var game := Sight(v).game;
    var g := Stamped(game, now);
    StampedFields(game, now, f);
    if !EmbeddableGame(g) || key in failing {
      Dicts.PutGet(m.list, key, g, other);
    } else {
      var sent := Dicts.Put(g, "message", MessageRef(m.chan.nextHandle));
      Dicts.PutGet(g, "message", MessageRef(m.chan.nextHandle), f);
      Dicts.PutGet(g, "message", MessageRef(m.chan.nextHandle), "first_seen");
      Dicts.PutGet(g, "message", MessageRef(m.chan.nextHandle), "last_seen");
      Dicts.PutGet(m.list, key, sent, other);
    }
  }

  /** For a new game the embed is sent, under the next handle, and its message stored
      exactly when the embed can be built and the send does not raise; when the embed cannot
      be built the refresh is aborted, and when the send raises the game has no message. */
  lemma StepSendsNew(m: Merged, v: Value, now: int, config: Config, images: set<string>, failing: set<string>, key: string)
    requires !m.aborted && Sight(v).Seen? && Sight(v).key == key && Dicts.Get(m.list, key).None?
    ensures var r := Step(m, v, now, config, images, failing);
      var g := Stamped(Sight(v).game, now);
      var stored := Dicts.Get(r.list, key);
      && (r.aborted <==> !EmbeddableGame(g))
      && stored.Some?
      && (!r.aborted && key !in failing ==>
            && Dicts.Get(stored.value, "message") == Some(MessageRef(m.chan.nextHandle))
            && r.chan.posted == m.chan.posted[m.chan.nextHandle := EmbedFor(g, config, now, images)]
            && r.chan.nextHandle == m.chan.nextHandle + 1 && r.chan.presence == m.chan.presence
            && r.chan.log == m.chan.log + [Sink.Sent(m.chan.nextHandle, EmbedFor(g, config, now, images))])
      && (r.aborted || key in failing ==>
            r.chan == m.chan && Dicts.Get(stored.value, "message") == Dicts.Get(Sight(v).game, "message"))
  {
    var game := Sight(v).game;
    var g := Stamped(game, now);
    StampedFields(game, now, "message");
    if !EmbeddableGame(g) || key in failing {
      Dicts.PutGet(m.list, key, g, key);
    } else {
      var sent := Dicts.Put(g, "message", MessageRef(m.chan.nextHandle));
      Dicts.PutGet(g, "message", MessageRef(m.chan.nextHandle), "message");
      Dicts.PutGet(m.list, key, sent, key);
    }
  }

  // ---------------------------------------------------------------- expiry

  /** What the expiry loop does with one game. */
  datatype Expiry =
    | Keep                                      // not expired, or skipped by a `continue`
    | Drop                                      // an exception, caught: removed without an edit
    | EditThenDrop(handle: nat, embed: Embed)   // the red embed is edited in, then removed

  /** The expiry decision for one game: a game not expired, with no message, in a channel
      without a guild or without the manage_messages permission stays; building the embed
      or editing a value that is no message raises and is caught, and the game goes; a
      message is edited, and the game goes whatever the edit's outcome. */
  function ExpiryOf(game: Entries, now: int, config: Config, images: set<string>, hasGuild: bool, manageMessages: bool): Expiry
    requires HasLastSeen(game)
  {
    if now - LastSeen(game) < config.gameTtl then Keep
    else if !HasMessage(game) then Keep
    else if !EmbeddableGame(game) then Drop
    else if !hasGuild || !manageMessages then Keep
    else
      var message := Dicts.Get(game, "message").value;
      if message.MessageRef? then EditThenDrop(message.handle, EmbedFor(game, config, now, images)) else Drop
  }

  /** The game is marked for removal this refresh. */
  predicate Closing(game: Entries, now: int, config: Config, images: set<string>, hasGuild: bool, manageMessages: bool) {
    HasLastSeen(game) && ExpiryOf(game, now, config, images, hasGuild, manageMessages) != Keep
  }

  /** The keys the expiry loop marks, in the order of `game_list`. */
  function ExpiredKeys(items: GameList, now: int, config: Config, images: set<string>, hasGuild: bool, manageMessages: bool): seq<string>
    decreases |items|
  {
    if items == [] then []
    else
      var last := items[|items| - 1];
      ExpiredKeys(items[..|items| - 1], now, config, images, hasGuild, manageMessages)
        + (if Closing(last.1, now, config, images, hasGuild, manageMessages) then [last.0] else [])
  }

  /** The channel after the expiry loop's edit for one game, if it makes one: the red embed
      on the game's message, or NotFound when the message is gone. */
  function ExpireOne(game: Entries, now: int, config: Config, images: set<string>, hasGuild: bool, manageMessages: bool, s: Chan): (r: Chan)
    ensures r.posted.Keys == s.posted.Keys && r.nextHandle == s.nextHandle && r.presence == s.presence
  {
    if HasLastSeen(game) && ExpiryOf(game, now, config, images, hasGuild, manageMessages).EditThenDrop? then
      var x := ExpiryOf(game, now, config, images, hasGuild, manageMessages);
      Sink.AfterEdit(s, x.handle, x.embed)
    else s
  }

  /** The channel after the expiry loop, its edits made in the order of `game_list`. */
  function ExpireAll(items: GameList, now: int, config: Config, images: set<string>, hasGuild: bool, manageMessages: bool, s: Chan): (r: Chan)
    ensures r.posted.Keys == s.posted.Keys && r.nextHandle == s.nextHandle && r.presence == s.presence
    decreases |items|
  {
    if items == [] then s
    else ExpireOne(items[|items| - 1].1, now, config, images, hasGuild, manageMessages,
                   ExpireAll(items[..|items| - 1], now, config, images, hasGuild, manageMessages, s))
  }

  /** The expiry loop edits the message `h` for this game. */
  predicate EditsHandle(game: Entries, now: int, config: Config, images: set<string>, hasGuild: bool, manageMessages: bool, h: nat) {
    HasLastSeen(game) && ExpiryOf(game, now, config, images, hasGuild, manageMessages).EditThenDrop?
    && ExpiryOf(game, now, config, images, hasGuild, manageMessages).handle == h
  }

  /** One game's closing edit, when its message is on the channel, puts the closing embed
      there. */
  lemma ExpireOneShows(game: Entries, now: int, config: Config, images: set<string>, hasGuild: bool, manageMessages: bool, s: Chan, h: nat, embed: Embed)
    requires HasLastSeen(game) && ExpiryOf(game, now, config, images, hasGuild, manageMessages) == EditThenDrop(h, embed)
    requires h in s.posted
    ensures ExpireOne(game, now, config, images, hasGuild, manageMessages, s).posted[h] == embed
  {
  }

  /** One game's expiry leaves every message its closing edit is not aimed at as it was. */
  lemma ExpireOneFrame(game: Entries, now: int, config: Config, images: set<string>, hasGuild: bool, manageMessages: bool, s: Chan, h: nat)
    requires !EditsHandle(game, now, config, images, hasGuild, manageMessages, h) && h in s.posted
    ensures ExpireOne(game, now, config, images, hasGuild, manageMessages, s).posted[h] == s.posted[h]
  {
  }

  /** A message that no game's closing edit is aimed at is left as it was by the expiry
      loop. */
  lemma {:induction false} ExpireAllFrame(items: GameList, now: int, config: Config, images: set<string>, hasGuild: bool, manageMessages: bool, s: Chan, h: nat)
    requires forall i :: 0 <= i < |items| ==> !EditsHandle(items[i].1, now, config, images, hasGuild, manageMessages, h)
    requires h in s.posted
    ensures ExpireAll(items, now, config, images, hasGuild, manageMessages, s).posted[h] == s.posted[h]
    decreases |items|
  {
    if items != [] {
      var front := items[..|items| - 1];
      assert forall i :: 0 <= i < |front| ==> front[i] == items[i];
      ExpireAllFrame(front, now, config, images, hasGuild, manageMessages, s, h);
      var prev := ExpireAll(front, now, config, images, hasGuild, manageMessages, s);
      ExpireOneFrame(items[|items| - 1].1, now, config, images, hasGuild, manageMessages, prev, h);
    }
  }

  /** After the expiry loop a closing game's message that is still on the channel shows the
      closing embed, unless a later game's closing edit is aimed at the same message. */
  lemma {:induction false} ExpireAllShowsClosing(items: GameList, now: int, config: Config, images: set<string>, hasGuild: bool, manageMessages: bool, s: Chan, i: nat)
    requires i < |items| && HasLastSeen(items[i].1)
    requires ExpiryOf(items[i].1, now, config, images, hasGuild, manageMessages).EditThenDrop?
    requires ExpiryOf(items[i].1, now, config, images, hasGuild, manageMessages).handle in s.posted
    requires forall j :: i < j < |items| ==>
      !EditsHandle(items[j].1, now, config, images, hasGuild, manageMessages, ExpiryOf(items[i].1, now, config, images, hasGuild, manageMessages).handle)
    ensures var x := ExpiryOf(items[i].1, now, config, images, hasGuild, manageMessages);
      ExpireAll(items, now, config, images, hasGuild, manageMessages, s).posted[x.handle] == x.embed
    decreases |items|
  {
    var x := ExpiryOf(items[i].1, now, config, images, hasGuild, manageMessages);
    var n := |items|;
    var front := items[..n - 1];
    var prev := ExpireAll(front, now, config, images, hasGuild, manageMessages, s);
    if i < n - 1 {
      assert front[i] == items[i];
      assert forall j :: i < j < |front| ==> front[j] == items[j];
      ExpireAllShowsClosing(front, now, config, images, hasGuild, manageMessages, s, i);
      ExpireOneFrame(items[n - 1].1, now, config, images, hasGuild, manageMessages, prev, x.handle);
    } else {
      ExpireOneShows(items[i].1, now, config, images, hasGuild, manageMessages, prev, x.handle, x.embed);
    }
  }

  /** `game_list` after the expired games are deleted. */
  function Survivors(list: GameList, now: int, config: Config, images: set<string>, hasGuild: bool, manageMessages: bool): GameList {
    Dicts.RemoveKeys(list, ExpiredKeys(list, now, config, images, hasGuild, manageMessages))
  }

  /** A key is marked exactly when its game is closing. */
  lemma {:induction false} ExpiredKeysMember(items: GameList, k: string, now: int, config: Config, images: set<string>, hasGuild: bool, manageMessages: bool)
    requires Dicts.UniqueKeys(items)
    ensures k in ExpiredKeys(items, now, config, images, hasGuild, manageMessages) <==>
      Dicts.Get(items, k).Some? && Closing(Dicts.Get(items, k).value, now, config, images, hasGuild, manageMessages)
    decreases |items|
  {
    if items != [] {
      var front, last := items[..|items| - 1], items[|items| - 1];
      assert items == front + [last];
      ExpiredKeysMember(front, k, now, config, images, hasGuild, manageMessages);
      Dicts.GetSnoc(front, last, k);
      if last.0 == k {
        Dicts.GetNone(front, k);
      }
    }
  }

  /** After the expiry a game is gone exactly when it was closing; every other game is
      kept as it was, and `game_list` stays a well-formed dict. */
  lemma SurvivorsGet(list: GameList, k: string, now: int, config: Config, images: set<string>, hasGuild: bool, manageMessages: bool)
    requires WellFormed(list)
    ensures WellFormed(Survivors(list, now, config, images, hasGuild, manageMessages))
    ensures Dicts.Get(Survivors(list, now, config, images, hasGuild, manageMessages), k) ==
      if Dicts.Get(list, k).Some? && Closing(Dicts.Get(list, k).value, now, config, images, hasGuild, manageMessages)
      then None else Dicts.Get(list, k)
  {
    ExpiredKeysMember(list, k, now, config, images, hasGuild, manageMessages);
    Dicts.RemoveKeysGet(list, ExpiredKeys(list, now, config, images, hasGuild, manageMessages), k, HasLastSeen);
  }

  /** A game seen less than `game_ttl` seconds ago is never removed. */
  lemma UnexpiredNeverRemoved(list: GameList, k: string, now: int, config: Config, images: set<string>, hasGuild: bool, manageMessages: bool)
    requires WellFormed(list) && Dicts.Get(list, k).Some?
    requires var g := Dicts.Get(list, k).value; HasLastSeen(g) && now - LastSeen(g) < config.gameTtl
    ensures Dicts.Get(Survivors(list, now, config, images, hasGuild, manageMessages), k) == Dicts.Get(list, k)
  {
    SurvivorsGet(list, k, now, config, images, hasGuild, manageMessages);
  }

  /** An expired game with no message, or one whose embed can be built in a channel without
      a guild or without the manage_messages permission, is skipped and stays. */
  lemma SkippedExpiredStays(list: GameList, k: string, now: int, config: Config, images: set<string>, hasGuild: bool, manageMessages: bool)
    requires WellFormed(list) && Dicts.Get(list, k).Some?
    requires var g := Dicts.Get(list, k).value;
      !HasMessage(g) || (EmbeddableGame(g) && (!hasGuild || !manageMessages))
    ensures Dicts.Get(Survivors(list, now, config, images, hasGuild, manageMessages), k) == Dicts.Get(list, k)
  {
    SurvivorsGet(list, k, now, config, images, hasGuild, manageMessages);
  }

  /** An expired game with a message is removed whenever it is not skipped, whether the
      edit succeeds, finds the message gone (NotFound) or raises anything else. */
  lemma ExpiredRemoved(list: GameList, k: string, now: int, config: Config, images: set<string>, hasGuild: bool, manageMessages: bool)
    requires WellFormed(list) && Dicts.Get(list, k).Some?
    requires var g := Dicts.Get(list, k).value;
      HasLastSeen(g) && now - LastSeen(g) >= config.gameTtl && HasMessage(g)
      && (EmbeddableGame(g) ==> hasGuild && manageMessages)
    ensures Dicts.Get(Survivors(list, now, config, images, hasGuild, manageMessages), k).None?
  {
    SurvivorsGet(list, k, now, config, images, hasGuild, manageMessages);
  }

  /** The edit made for an expiring game puts in a red embed, its field named closed, on
      that game's own message. */
  lemma ClosingEditIsRed(game: Entries, now: int, config: Config, images: set<string>, hasGuild: bool, manageMessages: bool)
    requires HasLastSeen(game) && ExpiryOf(game, now, config, images, hasGuild, manageMessages).EditThenDrop?
    ensures var x := ExpiryOf(game, now, config, images, hasGuild, manageMessages);
      && x.embed.colour == Red && x.embed.fieldName == ClosedName
      && Dicts.Get(game, "message") == Some(MessageRef(x.handle))
  {
  }

  /** The presence text, `Games online: N`. */
  function PresenceText(n: int): string {
    "Games online: " + Text.IntToString(n)
  }

  // ---------------------------------------------------------------- the refresh as written

  /** The merge pass as written: `format_game_embed(game)` passes one argument where two are
      required, so the first new game is stored stamped and then the TypeError, raised
      outside the `try`, aborts the refresh; no embed is ever sent. */
  function StepAsWritten(m: Merged, v: Value, now: int): Merged {
    match Sight(v)
    case Skip => m
    case Crash => m.(aborted := true)
    case Seen(key, game) =>
      match Dicts.Get(m.list, key)
      case Some(known) => m.(list := Dicts.Put(m.list, key, Dicts.Put(known, "last_seen", Num(now))))
      case None => m.(list := Dicts.Put(m.list, key, Stamped(game, now)), aborted := true)
  }

  function MergeAllAsWritten(list: GameList, s: Chan, games: seq<Value>, now: int): Merged
    decreases |games|
  {
    if games == [] then Merged(list, s, false)
    else
      var prev := MergeAllAsWritten(list, s, games[..|games| - 1], now);
      if prev.aborted then prev else StepAsWritten(prev, games[|games| - 1], now)
  }

  /** The expiry as written: the same TypeError, inside the `try`, is caught, so an expired
      game with a message is removed without an edit, and one without stays. */
  predicate ClosingAsWritten(game: Entries, now: int, ttl: int) {
    HasLastSeen(game) && now - LastSeen(game) >= ttl && HasMessage(game)
  }

  function ExpiredKeysAsWritten(items: GameList, now: int, ttl: int): seq<string>
    decreases |items|
  {
    if items == [] then []
    else
      var last := items[|items| - 1];
      ExpiredKeysAsWritten(items[..|items| - 1], now, ttl) + (if ClosingAsWritten(last.1, now, ttl) then [last.0] else [])
  }

  /** refresh_game_list as written, on the game list alone. */
  function RefreshAsWritten(list: GameList, s: Chan, games: seq<Value>, now: int, ttl: int): GameList {
    var m := MergeAllAsWritten(list, s, games, now);
    if m.aborted then m.list else Dicts.RemoveKeys(m.list, ExpiredKeysAsWritten(m.list, now, ttl))
  }

  predicate NoMessage(game: Entries) {
    Dicts.Get(game, "message").None?
  }

  /** The merge as written never sends an embed, never stores a message and never loses a
      game. */
  lemma {:induction false} MergeAsWrittenKeeps(list: GameList, s: Chan, games: seq<Value>, now: int, k: string)
    requires Dicts.AllValues(list, NoMessage)
    requires forall i :: 0 <= i < |games| && games[i].Dict? ==> NoMessage(games[i].entries)
    ensures MergeAllAsWritten(list, s, games, now).chan == s
    ensures Dicts.AllValues(MergeAllAsWritten(list, s, games, now).list, NoMessage)
    ensures Dicts.Get(list, k).Some? ==> Dicts.Get(MergeAllAsWritten(list, s, games, now).list, k).Some?
    decreases |games|
  {
    if games != [] {
      var front := games[..|games| - 1];
      MergeAsWrittenKeeps(list, s, front, now, k);
      var prev := MergeAllAsWritten(list, s, front, now);
      if !prev.aborted {
        var v := games[|games| - 1];
        match Sight(v)
        case Skip =>
        case Crash =>
        case Seen(key, game) =>
          match Dicts.Get(prev.list, key)
          case Some(known) =>
            var updated := Dicts.Put(known, "last_seen", Num(now));
            Dicts.GetAll(prev.list, key, NoMessage);
            Dicts.PutGet(known, "last_seen", Num(now), "message");
            Dicts.PutAll(prev.list, key, updated, NoMessage);
            Dicts.PutGet(prev.list, key, updated, k);
          case None =>
            StampedFields(game, now, "message");
            Dicts.PutAll(prev.list, key, Stamped(game, now), NoMessage);
            Dicts.PutGet(prev.list, key, Stamped(game, now), k);
      }
    }
  }

  /** With no message, no game is marked by the expiry as written. */
  lemma {:induction false} NoneExpireAsWritten(items: GameList, now: int, ttl: int)
    requires Dicts.AllValues(items, NoMessage)
    ensures ExpiredKeysAsWritten(items, now, ttl) == []
    decreases |items|
  {
    if items != [] {
      NoneExpireAsWritten(items[..|items| - 1], now, ttl);
      assert NoMessage(items[|items| - 1].1);
    }
  }

  /** As written, a game once in `game_list` is never removed and no game ever gets a
      message, at any later time: refreshes never close a game. */
  lemma AsWrittenNeverCloses(list: GameList, s: Chan, games: seq<Value>, now: int, ttl: int, k: string)
    requires Dicts.AllValues(list, NoMessage)
    requires forall i :: 0 <= i < |games| && games[i].Dict? ==> NoMessage(games[i].entries)
    ensures Dicts.AllValues(RefreshAsWritten(list, s, games, now, ttl), NoMessage)
    ensures Dicts.Get(list, k).Some? ==> Dicts.Get(RefreshAsWritten(list, s, games, now, ttl), k).Some?
  {
    MergeAsWrittenKeeps(list, s, games, now, k);
    NoneExpireAsWritten(MergeAllAsWritten(list, s, games, now).list, now, ttl);
  }

  // ---------------------------------------------------------------- the refresh

  /** The channel after a refresh whose merge completed as `m`: the expiry loop's edits,
      then the presence set to the number of surviving games. */
  function Refreshed(m: Merged, now: int, config: Config, images: set<string>, hasGuild: bool, manageMessages: bool): (r: Chan)
    ensures r.presence == PresenceText(|Survivors(m.list, now, config, images, hasGuild, manageMessages)|)
    ensures r.nextHandle == m.chan.nextHandle && r.posted.Keys == m.chan.posted.Keys
  {
    Sink.AfterPresence(ExpireAll(m.list, now, config, images, hasGuild, manageMessages, m.chan),
                       PresenceText(|Survivors(m.list, now, config, images, hasGuild, manageMessages)|))
  }

  /** A refresh leaves every message it did not post and no closing edit is aimed at as it
      was: on the channel with the same embed, or still gone. */
  lemma RefreshLeavesOthers(list: GameList, s: Chan, games: seq<Value>, now: int, config: Config, images: set<string>, failing: set<string>, hasGuild: bool, manageMessages: bool, h: nat)
    requires h < s.nextHandle
    requires var m := MergeAll(list, s, games, now, config, images, failing);
      forall i :: 0 <= i < |m.list| ==> !EditsHandle(m.list[i].1, now, config, images, hasGuild, manageMessages, h)
    ensures var m := MergeAll(list, s, games, now, config, images, failing);
      var r := if m.aborted then m.chan else Refreshed(m, now, config, images, hasGuild, manageMessages);
      (h in r.posted <==> h in s.posted) && (h in s.posted ==> r.posted[h] == s.posted[h])
  {
    var m := MergeAll(list, s, games, now, config, images, failing);
    MergeAllFrame(list, s, games, now, config, images, failing, h);
    if h in s.posted {
      ExpireAllFrame(m.list, now, config, images, hasGuild, manageMessages, m.chan, h);
    }
  }

  /** A completed refresh leaves every closing game's message that is still on the channel
      showing the red closing embed, unless a later game's closing edit is aimed at the same
      message. */
  lemma RefreshShowsClosing(m: Merged, now: int, config: Config, images: set<string>, hasGuild: bool, manageMessages: bool, i: nat)
    requires i < |m.list| && HasLastSeen(m.list[i].1)
    requires ExpiryOf(m.list[i].1, now, config, images, hasGuild, manageMessages).EditThenDrop?
    requires ExpiryOf(m.list[i].1, now, config, images, hasGuild, manageMessages).handle in m.chan.posted
    requires forall j :: i < j < |m.list| ==>
      !EditsHandle(m.list[j].1, now, config, images, hasGuild, manageMessages, ExpiryOf(m.list[i].1, now, config, images, hasGuild, manageMessages).handle)
    ensures var x := ExpiryOf(m.list[i].1, now, config, images, hasGuild, manageMessages);
      var e := Refreshed(m, now, config, images, hasGuild, manageMessages).posted[x.handle];
      e.colour == Red && e.fieldName == ClosedName && Dicts.Get(m.list[i].1, "message") == Some(MessageRef(x.handle))
  {
    ExpireAllShowsClosing(m.list, now, config, images, hasGuild, manageMessages, m.chan, i);
    ClosingEditIsRed(m.list[i].1, now, config, images, hasGuild, manageMessages);
  }

  /** The module-level state of game_manager.py: `game_list`, and the channel and client
      presence the refresh writes to. */
  class Manager {
    var gameList: GameList
    const channel: Sink.Channel<Embed>

    ghost predicate Valid()
      reads this, channel
    {
      channel.Valid() && WellFormed(gameList)
    }

    constructor (channel: Sink.Channel<Embed>)
      requires channel.Valid()
      ensures Valid() && gameList == [] && this.channel == channel
    {
      gameList := [];
      this.channel := channel;
    }

    /** One pass of the merge loop: the fetched value `v` is skipped, crashes the refresh,
        refreshes a known game or adds a new one and posts its embed. */
    method MergeOne(v: Value, now: int, config: Config, images: set<string>, failing: set<string>) returns (aborted: bool)
      requires Valid()
      modifies this, channel
      ensures Valid()
      ensures var m := Step(Merged(old(gameList), old(channel.Snapshot()), false), v, now, config, images, failing);
        gameList == m.list && channel.Snapshot() == m.chan && aborted == m.aborted
    {
      ghost var before := Merged(gameList, channel.Snapshot(), false);
      StepWellFormed(before, v, now, config, images, failing);
      aborted := false;
      match Sight(v) {
        case Skip =>
        case Crash =>
          aborted := true;
        case Seen(key, game) =>
          var known := Dicts.Get(gameList, key);
          if known.Some? {
            gameList := Dicts.Put(gameList, key, Dicts.Put(known.value, "last_seen", Num(now)));
          } else {
            var list := gameList;
            var g := Stamped(game, now);
            gameList := Dicts.Put(list, key, g);
            if !EmbeddableGame(g) {
              aborted := true;
            } else if key !in failing {
              var h := channel.Send(EmbedFor(g, config, now, images));
              gameList := Dicts.Put(list, key, Dicts.Put(g, "message", MessageRef(h)));
            }
          }
      }
    }

    /** The merge loop of refresh_game_list (the corrected call, with the config). */
    method Merge(games: seq<Value>, now: int, config: Config, images: set<string>, failing: set<string>) returns (aborted: bool)
      requires Valid()
      modifies this, channel
      ensures Valid()
      ensures var m := MergeAll(old(gameList), old(channel.Snapshot()), games, now, config, images, failing);
        gameList == m.list && channel.Snapshot() == m.chan && aborted == m.aborted
    {
      ghost var list := gameList;
      ghost var s := channel.Snapshot();
      aborted := false;
      var i := 0;
      while i < |games| && !aborted
        invariant 0 <= i <= |games| && Valid()
        invariant var m := MergeAll(list, s, games[..i], now, config, images, failing);
          gameList == m.list && channel.Snapshot() == m.chan && aborted == m.aborted
      {
        assert games[..i + 1][..i] == games[..i];
        aborted := MergeOne(games[i], now, config, images, failing);
        i := i + 1;
      }
      if aborted {
        MergeAbortedStays(list, s, games, i, now, config, images, failing);
      } else {
        assert games[..i] == games;
      }
    }

    /** One pass of the expiry loop: the edit made for `game`, and whether it is marked. */
    method CloseIfExpired(game: Entries, now: int, config: Config, images: set<string>, hasGuild: bool, manageMessages: bool) returns (closing: bool)
      requires Valid() && HasLastSeen(game)
      modifies channel
      ensures Valid()
      ensures closing == Closing(game, now, config, images, hasGuild, manageMessages)
      ensures channel.Snapshot() == ExpireOne(game, now, config, images, hasGuild, manageMessages, old(channel.Snapshot()))
    {
      var x := ExpiryOf(game, now, config, images, hasGuild, manageMessages);
      if x.EditThenDrop? {
        var found := channel.Edit(x.handle, x.embed);
      }
      closing := x != Keep;
    }

    /** The expiry loop over a snapshot of `game_list`: the edits, and the keys marked. */
    method MarkExpired(now: int, config: Config, images: set<string>, hasGuild: bool, manageMessages: bool) returns (expired: seq<string>)
      requires Valid()
      modifies channel
      ensures Valid()
      ensures expired == ExpiredKeys(gameList, now, config, images, hasGuild, manageMessages)
      ensures channel.Snapshot() == ExpireAll(gameList, now, config, images, hasGuild, manageMessages, old(channel.Snapshot()))
    {
      var items := gameList;
      ghost var s := channel.Snapshot();
      expired := [];
      var i := 0;
      while i < |items|
        invariant 0 <= i <= |items| && Valid() && items == gameList
        invariant expired == ExpiredKeys(items[..i], now, config, images, hasGuild, manageMessages)
        invariant channel.Snapshot() == ExpireAll(items[..i], now, config, images, hasGuild, manageMessages, s)
      {
        assert items[..i + 1][..i] == items[..i];
        assert HasLastSeen(items[i].1);
        var closing := CloseIfExpired(items[i].1, now, config, images, hasGuild, manageMessages);
        if closing {
          expired := expired + [items[i].0];
        }
        i := i + 1;
      }
      assert items[..i] == items;
    }

    /** `for game_id in expired_games: del game_list[game_id]`. */
    method RemoveGames(expired: seq<string>)
      requires Valid()
      modifies this
      ensures Valid()
      ensures gameList == Dicts.RemoveKeys(old(gameList), expired)
    {
      var i := 0;
      while i < |expired|
        invariant 0 <= i <= |expired| && Valid()
        invariant gameList == Dicts.RemoveKeys(old(gameList), expired[..i])
      {
        assert expired[..i + 1][..i] == expired[..i];
        Dicts.RemoveUnique(gameList, expired[i]);
        Dicts.RemoveAll(gameList, expired[i], HasLastSeen);
        gameList := Dicts.Remove(gameList, expired[i]);
        i := i + 1;
      }
      assert expired[..i] == expired;
    }

    /** refresh_game_list, with `format_game_embed(game, CONFIG)` at both calls. `channelOk`
        is whether the configured channel is a text channel, `games` what
        fetch_game_list_with_retries returned. */
    method RefreshGameList(channelOk: bool, games: seq<Value>, now: int, config: Config, images: set<string>, failing: set<string>, hasGuild: bool, manageMessages: bool) returns (completed: bool)
      requires Valid()
      modifies this, channel
      ensures Valid()
      ensures !channelOk ==> !completed && gameList == old(gameList) && unchanged(channel)
      ensures channelOk ==>
        var m := MergeAll(old(gameList), old(channel.Snapshot()), games, now, config, images, failing);
        && completed == !m.aborted
        && (m.aborted ==> gameList == m.list && channel.Snapshot() == m.chan)
        && (!m.aborted ==>
              && gameList == Survivors(m.list, now, config, images, hasGuild, manageMessages)
              && channel.Snapshot() == Refreshed(m, now, config, images, hasGuild, manageMessages)
              && channel.presence == PresenceText(|gameList|))
    {
      if !channelOk {
        return false;
      }
      var aborted := Merge(games, now, config, images, failing);
      if aborted {
        return false;
      }
      var expired := MarkExpired(now, config, images, hasGuild, manageMessages);
      RemoveGames(expired);
      channel.ChangePresence(PresenceText(|gameList|));
      completed := true;
    }
  }
}
