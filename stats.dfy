/** The per-"type (version)" statistics of stats.py, with the statistics file's
    contents held in a `Statistics` object instead of loaded and saved around each call,
    and `time.time()` given as the integer `now`. */
module Stats {
  import opened Wrappers

  /** One session: when it was opened, who played, and how long it lasted (0 while open). */
  datatype Session = Session(timestamp: int, players: seq<string>, duration: int)

  /** The record kept for one game type and version. */
  datatype Record = Record(uniquePlayers: set<string>, gameCount: int, totalPlaytime: int, sessions: seq<Session>)

  /** The fields of a game dict that the statistics read. */
  datatype Game = Game(gameType: string, version: string, players: seq<string>, firstSeen: int)

  /** What get_game_statistics returns: a message when nothing is recorded, or the
      summary of the sessions inside the window. */
  datatype Summary =
    | NoData(message: string)
    | Summary(gameType: string, version: string, days: int, gamesPlayed: nat, uniquePlayers: nat, totalPlaytime: int)

  const SecondsPerDay := 86400

  /** The record key, `f"{type} ({version})"`. */
  function Key(gameType: string, version: string): (k: string)
    ensures |k| == |gameType| + |version| + 3
    ensures k[..|gameType|] == gameType && k[|k| - 1] == ')'
  {
    gameType + " (" + version + ")"
  }

  /** Different versions of one type never share a record. */
  lemma KeyInjectiveInVersion(t: string, v: string, w: string)
    requires Key(t, v) == Key(t, w)
    ensures v == w
  {
    assert v == Key(t, v)[|t| + 2..|Key(t, v)| - 1];
    assert w == Key(t, w)[|t| + 2..|Key(t, w)| - 1];
  }

  /** The record a key gets when it is first seen. */
  const EmptyRecord := Record({}, 0, 0, [])

  // ---------------------------------------------------------------- opening a session

  /** update_game_statistics on one record: one more game, its players added to the
      unique players, and a new open session stamped `now`. */
  function Opened(r: Record, g: Game, now: int): Record {
    Record(
      r.uniquePlayers + (set p | p in g.players),
      r.gameCount + 1,
      r.totalPlaytime,
      r.sessions + [Session(now, g.players, 0)])
  }

  /** update_game_statistics on the whole table. */
  function WithNewGame(games: map<string, Record>, g: Game, now: int): (after: map<string, Record>)
    ensures after.Keys == games.Keys + {Key(g.gameType, g.version)}
    ensures forall k :: k in games && k != Key(g.gameType, g.version) ==> after[k] == games[k]
  {
    var key := Key(g.gameType, g.version);
    var before := if key in games then games[key] else EmptyRecord;
    games[key := Opened(before, g, now)]
  }

  /** A new game is counted once, adds exactly one open session with its players, and
      leaves the playtime alone. */
  lemma OpenedCountsOnce(r: Record, g: Game, now: int)
    ensures var r' := Opened(r, g, now);
      && r'.gameCount == r.gameCount + 1 && r'.totalPlaytime == r.totalPlaytime
      && |r'.sessions| == |r.sessions| + 1 && r'.sessions[..|r.sessions|] == r.sessions
      && r'.sessions[|r.sessions|] == Session(now, g.players, 0)
      && r.uniquePlayers <= r'.uniquePlayers
      && (forall p :: p in r'.uniquePlayers <==> p in r.uniquePlayers || p in g.players)
  {
  }

  // ---------------------------------------------------------------- closing a session

  /** A session that the playtime update may close: same players, still open. */
  predicate IsOpenFor(s: Session, players: seq<string>) {
    s.players == players && s.duration == 0
  }

  /** The first open session of these players, if any. */
  function FirstOpen(sessions: seq<Session>, players: seq<string>): (r: Option<nat>)
    ensures r.Some? ==> r.value < |sessions| && IsOpenFor(sessions[r.value], players)
    ensures r.Some? ==> forall j :: 0 <= j < r.value ==> !IsOpenFor(sessions[j], players)
    ensures r.None? ==> forall j :: 0 <= j < |sessions| ==> !IsOpenFor(sessions[j], players)
  {
    if sessions == [] then None
    else if IsOpenFor(sessions[0], players) then Some(0)
    else
      match FirstOpen(sessions[1..], players)
      case None => None
      case Some(i) => Some(i + 1)
  }

  /** An open session with no open one before it is the first. */
  lemma {:induction false} FirstOpenIsLeast(sessions: seq<Session>, players: seq<string>, i: nat)
    requires i < |sessions| && IsOpenFor(sessions[i], players)
    requires forall j :: 0 <= j < i ==> !IsOpenFor(sessions[j], players)
    ensures FirstOpen(sessions, players) == Some(i)
  {
    if i > 0 {
      FirstOpenIsLeast(sessions[1..], players, i - 1);
    }
  }

  /** Without an open session there is no first one. */
  lemma {:induction false} FirstOpenNone(sessions: seq<Session>, players: seq<string>)
    requires forall j :: 0 <= j < |sessions| ==> !IsOpenFor(sessions[j], players)
    ensures FirstOpen(sessions, players) == None
  {
    if sessions != [] {
      FirstOpenNone(sessions[1..], players);
    }
  }

  /** The sessions after the first open one of these players is given its duration. */
  function CloseFirst(sessions: seq<Session>, players: seq<string>, duration: int): seq<Session> {
    match FirstOpen(sessions, players)
    case None => sessions
    case Some(i) => sessions[i := sessions[i].(duration := duration)]
  }

  /** update_playtime_statistics on one record. */
  function Closed(r: Record, players: seq<string>, playtime: int): Record {
    r.(totalPlaytime := r.totalPlaytime + playtime, sessions := CloseFirst(r.sessions, players, playtime))
  }

  /** update_playtime_statistics on the whole table: nothing happens to an unknown key. */
  function WithPlaytime(games: map<string, Record>, g: Game, now: int): (after: map<string, Record>)
    ensures after.Keys == games.Keys
    ensures forall k :: k in games && k != Key(g.gameType, g.version) ==> after[k] == games[k]
  {
    var key := Key(g.gameType, g.version);
    if key in games then games[key := Closed(games[key], g.players, now - g.firstSeen)] else games
  }

  /** Closing touches at most one session: the first open one of these players gets the
      duration and every other session is left as it was; without an open one nothing
      changes at all. */
  lemma CloseFirstChangesOne(sessions: seq<Session>, players: seq<string>, duration: int)
    ensures |CloseFirst(sessions, players, duration)| == |sessions|
    ensures (forall j :: 0 <= j < |sessions| ==> !IsOpenFor(sessions[j], players)) ==>
      CloseFirst(sessions, players, duration) == sessions
    ensures forall i :: (0 <= i < |sessions| && IsOpenFor(sessions[i], players)
      && (forall j :: 0 <= j < i ==> !IsOpenFor(sessions[j], players))) ==>
        (&& CloseFirst(sessions, players, duration)[i] == Session(sessions[i].timestamp, players, duration)
         && forall j :: 0 <= j < |sessions| && j != i ==> CloseFirst(sessions, players, duration)[j] == sessions[j])
  {
    forall i | 0 <= i < |sessions| && IsOpenFor(sessions[i], players)
      && (forall j :: 0 <= j < i ==> !IsOpenFor(sessions[j], players))
      ensures FirstOpen(sessions, players) == Some(i)
    {
      FirstOpenIsLeast(sessions, players, i);
    }
    if forall j :: 0 <= j < |sessions| ==> !IsOpenFor(sessions[j], players) {
      FirstOpenNone(sessions, players);
    }
  }

  /** The playtime update closes each open session at most once: a second update for the
      same players closes the next open one, never the one already closed (unless the
      playtime was 0). */
  lemma CloseFirstMovesOn(sessions: seq<Session>, players: seq<string>, duration: int)
    requires duration != 0
    requires FirstOpen(sessions, players).Some?
    ensures var i := FirstOpen(sessions, players).value;
      var after := FirstOpen(CloseFirst(sessions, players, duration), players);
      after.None? || after.value > i
  {
  }

  // ---------------------------------------------------------------- the window query

  /** The sessions opened at or after `cutoff`, in order. */
  function Recent(sessions: seq<Session>, cutoff: int): (r: seq<Session>)
    ensures |r| <= |sessions|
  {
    if sessions == [] then []
    else (if sessions[0].timestamp >= cutoff then [sessions[0]] else []) + Recent(sessions[1..], cutoff)
  }

  function TotalDuration(sessions: seq<Session>): int {
    if sessions == [] then 0 else sessions[0].duration + TotalDuration(sessions[1..])
  }

  /** Everyone who played in any of the sessions. */
  function PlayersOf(sessions: seq<Session>): set<string> {
    if sessions == [] then {} else (set p | p in sessions[0].players) + PlayersOf(sessions[1..])
  }

  /** get_game_statistics over the table. */
  function GetGameStatistics(games: map<string, Record>, gameType: string, version: string, days: int, now: int): (r: Summary)
    ensures Key(gameType, version) !in games <==> r.NoData?
    ensures r.NoData? ==> r.message == "No data found for " + Key(gameType, version) + "."
    ensures r.Summary? ==> r.gameType == gameType && r.version == version && r.days == days
    ensures r.Summary? ==> r.gamesPlayed <= |games[Key(gameType, version)].sessions|
  {
    var key := Key(gameType, version);
    if key !in games then NoData("No data found for " + key + ".")
    else
      var window := Recent(games[key].sessions, now - days * SecondsPerDay);
      Summary(gameType, version, days, |window|, |PlayersOf(window)|, TotalDuration(window))
  }

  /** A session is in the window exactly when it is one of the record's sessions and was
      opened at or after the cutoff. */
  lemma {:induction false} RecentMembers(sessions: seq<Session>, cutoff: int, s: Session)
    ensures s in Recent(sessions, cutoff) <==> s in sessions && s.timestamp >= cutoff
  {
    if sessions != [] {
      RecentMembers(sessions[1..], cutoff, s);
      assert s in sessions <==> s == sessions[0] || s in sessions[1..];
    }
  }

  /** A player is counted exactly when some session of the list had them. */
  lemma {:induction false} PlayersOfMembers(sessions: seq<Session>, p: string)
    ensures p in PlayersOf(sessions) <==> exists i :: 0 <= i < |sessions| && p in sessions[i].players
  {
    if sessions != [] {
      PlayersOfMembers(sessions[1..], p);
      if p in sessions[0].players {
        assert 0 < |sessions| && p in sessions[0].players;
      }
      if exists i :: 0 <= i < |sessions| && p in sessions[i].players {
        var i :| 0 <= i < |sessions| && p in sessions[i].players;
        if i > 0 {
          assert p in sessions[1..][i - 1].players;
        }
      }
      if exists i :: 0 <= i < |sessions| - 1 && p in sessions[1..][i].players {
        var i :| 0 <= i < |sessions| - 1 && p in sessions[1..][i].players;
        assert p in sessions[i + 1].players;
      }
    }
  }

  /** A later cutoff never admits more sessions. */
  lemma {:induction false} RecentShrinks(sessions: seq<Session>, early: int, late: int)
    requires early <= late
    ensures |Recent(sessions, late)| <= |Recent(sessions, early)|
  {
    if sessions != [] {
      RecentShrinks(sessions[1..], early, late);
    }
  }

  /** Asking about more days never reports fewer games. */
  lemma GamesPlayedGrowsWithDays(games: map<string, Record>, t: string, v: string, fewer: int, more: int, now: int)
    requires fewer <= more && Key(t, v) in games
    ensures GetGameStatistics(games, t, v, fewer, now).gamesPlayed <= GetGameStatistics(games, t, v, more, now).gamesPlayed
  {
    var sessions := games[Key(t, v)].sessions;
    RecentShrinks(sessions, now - more * SecondsPerDay, now - fewer * SecondsPerDay);
  }

  lemma {:induction false} RecentAppend(sessions: seq<Session>, s: Session, cutoff: int)
    ensures Recent(sessions + [s], cutoff) == Recent(sessions, cutoff) + (if s.timestamp >= cutoff then [s] else [])
  {
    if sessions != [] {
      assert (sessions + [s])[1..] == sessions[1..] + [s];
      RecentAppend(sessions[1..], s, cutoff);
    }
  }

  /** Recording a new game makes the next query, over any window that reaches back to
      `now` or before, report one more game played (one game for a new key). */
  lemma NewGameIsCounted(games: map<string, Record>, g: Game, days: int, now: int)
    requires days >= 0
    ensures var k := Key(g.gameType, g.version);
      var before := GetGameStatistics(games, g.gameType, g.version, days, now);
      var after := GetGameStatistics(WithNewGame(games, g, now), g.gameType, g.version, days, now);
      && after.Summary?
      && after.gamesPlayed == (if before.Summary? then before.gamesPlayed else 0) + 1
  {
    var key := Key(g.gameType, g.version);
    var old_ := if key in games then games[key] else EmptyRecord;
    RecentAppend(old_.sessions, Session(now, g.players, 0), now - days * SecondsPerDay);
  }

  /** Closing a session changes no timestamp, so the same sessions stay in every window. */
  lemma ClosingKeepsWindow(games: map<string, Record>, g: Game, days: int, now: int, asked: Game)
    ensures GetGameStatistics(WithPlaytime(games, g, now), asked.gameType, asked.version, days, now).NoData?
      == GetGameStatistics(games, asked.gameType, asked.version, days, now).NoData?
    ensures GetGameStatistics(games, asked.gameType, asked.version, days, now).Summary? ==>
      GetGameStatistics(WithPlaytime(games, g, now), asked.gameType, asked.version, days, now).gamesPlayed
      == GetGameStatistics(games, asked.gameType, asked.version, days, now).gamesPlayed
  {
    var key := Key(asked.gameType, asked.version);
    if key in games && key == Key(g.gameType, g.version) {
      var ss := games[key].sessions;
      var cutoff := now - days * SecondsPerDay;
      CloseFirstKeepsTimestamps(ss, g.players, now - g.firstSeen);
      RecentSameTimestamps(ss, CloseFirst(ss, g.players, now - g.firstSeen), cutoff);
    }
  }

  /** Closing a session changes its duration only. */
  lemma CloseFirstKeepsTimestamps(sessions: seq<Session>, players: seq<string>, duration: int)
    ensures var closed := CloseFirst(sessions, players, duration);
      |closed| == |sessions| && forall i :: 0 <= i < |sessions| ==> closed[i].timestamp == sessions[i].timestamp
  {
  }

  /** Two session lists with the same timestamps, position by position, have windows of
      the same size. */
  lemma {:induction false} RecentSameTimestamps(a: seq<Session>, b: seq<Session>, cutoff: int)
    requires |a| == |b| && forall i :: 0 <= i < |a| ==> a[i].timestamp == b[i].timestamp
    ensures |Recent(a, cutoff)| == |Recent(b, cutoff)|
  {
    if a != [] {
      RecentSameTimestamps(a[1..], b[1..], cutoff);
    }
  }

  // ---------------------------------------------------------------- the statistics file

  /** The `"games"` table of statistics.json. */
  class Statistics {
    var games: map<string, Record>

    constructor ()
      ensures games == map[]
    {
      games := map[];
    }

    /** update_game_statistics. */
    method UpdateGameStatistics(g: Game, now: int)
      modifies this
      ensures games == WithNewGame(old(games), g, now)
    {
      var key := Key(g.gameType, g.version);
      if key !in games {
        games := games[key := EmptyRecord];
      }
      var r := games[key];
      var unique := r.uniquePlayers + (set p | p in g.players);
      r := r.(uniquePlayers := unique);
      r := r.(gameCount := r.gameCount + 1);
      r := r.(sessions := r.sessions + [Session(now, g.players, 0)]);
      games := games[key := r];
    }

    /** update_playtime_statistics: the first-match loop over the sessions with `break`. */
    method UpdatePlaytimeStatistics(g: Game, now: int)
      modifies this
      ensures games == WithPlaytime(old(games), g, now)
    {
      var key := Key(g.gameType, g.version);
      if key in games {
        var playtime := now - g.firstSeen;
        var r := games[key];
        r := r.(totalPlaytime := r.totalPlaytime + playtime);
        var sessions := r.sessions;
        var found := false;
        var i := 0;
        while i < |sessions|
          invariant 0 <= i <= |sessions|
          invariant forall j :: 0 <= j < i ==> !IsOpenFor(r.sessions[j], g.players)
          invariant sessions == r.sessions && !found
        {
          if sessions[i].players == g.players && sessions[i].duration == 0 {
            FirstOpenIsLeast(r.sessions, g.players, i);
            sessions := sessions[i := sessions[i].(duration := playtime)];
            found := true;
            break;
          }
          i := i + 1;
        }
        if !found {
          FirstOpenNone(r.sessions, g.players);
        }
        r := r.(sessions := sessions);
        games := games[key := r];
      }
    }
  }
}
