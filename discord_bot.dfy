/** discord_bot.py: the message texts the bot posts for public games, the player-name
    checks that keep a game off the channel, and the refresh cycle of `background_task`
    that merges each fetch into `game_list`, closes the games not seen for `gameTTL`
    seconds and keeps one message per game and a status message on the channel. */
module DiscordBot {
  import opened Wrappers
  import Text
  import Dicts
  import Sink

  // ---------------------------------------------------------------- escaping

  /** The characters escape_discord_formatting_characters puts a backslash before. */
  predicate IsFormatting(c: char) {
    c in "-\\*_#|~:@[]()<>`"
  }

  function FormattingCount(s: string): nat {
    if s == [] then 0 else (if IsFormatting(s[0]) then 1 else 0) + FormattingCount(s[1..])
  }

  /** escape_discord_formatting_characters: a backslash before every formatting character,
      every other character kept; the text grows by one per formatting character. */
  function Escape(s: string): (r: string)
    ensures |r| == |s| + FormattingCount(s)
  {
    if s == [] then []
    else (if IsFormatting(s[0]) then ['\\', s[0]] else [s[0]]) + Escape(s[1..])
  }

  /** Removing the backslash before each escaped formatting character. */
  function Unescape(r: string): string
    decreases |r|
  {
    if r == [] then []
    else if |r| >= 2 && r[0] == '\\' && IsFormatting(r[1]) then [r[1]] + Unescape(r[2..])
    else [r[0]] + Unescape(r[1..])
  }

  /** Escaping loses nothing: the name can be read back from its escaped text. */
  lemma {:induction false} UnescapeEscape(s: string)
    ensures Unescape(Escape(s)) == s
  {
    if s != [] {
      var rest := Escape(s[1..]);
      UnescapeEscape(s[1..]);
      if IsFormatting(s[0]) {
        assert Escape(s) == ['\\', s[0]] + rest;
        assert (['\\', s[0]] + rest)[2..] == rest;
      } else {
        assert Escape(s) == [s[0]] + rest;
        assert s[0] != '\\';
        assert ([s[0]] + rest)[1..] == rest;
      }
    }
  }

  // ---------------------------------------------------------------- format_time_delta

  /** format_time_delta on a whole number of minutes. */
  function FormatTimeDelta(minutes: int): (r: string)
    decreases if minutes < 0 then 0 else minutes
  {
    if minutes < 2 then "1 minute"
    else if minutes < 60 then Text.NatToString(minutes) + " minutes"
    else
      var head := if minutes < 120 then "1 hour" else Text.NatToString(minutes / 60) + " hours";
      var rest := if minutes < 120 then minutes - 60 else minutes - minutes / 60 * 60;
      if rest > 0 then head + " and " + FormatTimeDelta(rest) else head
  }

  /** The text for less than an hour. */
  function MinutesText(m: int): string {
    if m < 2 then "1 minute" else Text.NatToString(m) + " minutes"
  }

  /** The text for at least an hour. */
  function HoursText(h: nat): string {
    if h == 1 then "1 hour" else Text.NatToString(h) + " hours"
  }

  /** Under an hour the minutes alone; from an hour on, the whole hours and, only when the
      remainder is not zero, " and " with the remaining minutes. */
  lemma FormatTimeDeltaShape(minutes: int)
    ensures minutes < 60 ==> FormatTimeDelta(minutes) == MinutesText(minutes)
    ensures minutes >= 60 ==>
      FormatTimeDelta(minutes) ==
        HoursText(minutes / 60) + (if minutes % 60 > 0 then " and " + MinutesText(minutes % 60) else "")
  {
    if minutes >= 60 {
      var rest := if minutes < 120 then minutes - 60 else minutes - minutes / 60 * 60;
      assert rest == minutes % 60;
      if rest > 0 {
        assert FormatTimeDelta(rest) == MinutesText(rest);
      }
    }
  }

  /** The text holds at most one " and ", and from an hour on exactly one when the minutes
      are not a whole number of hours. No part but the joining " and " has a 'd', so the
      'd's bound the occurrences. */
  lemma FormatTimeDeltaOneAnd(minutes: int)
    ensures Text.Occurrences(" and ", FormatTimeDelta(minutes)) <= 1
    ensures minutes >= 60 ==> (Text.Occurrences(" and ", FormatTimeDelta(minutes)) == 1 <==> minutes % 60 > 0)
  {
    var s := FormatTimeDelta(minutes);
    FormatTimeDeltaShape(minutes);
    if minutes < 60 {
      NoDInMinutes(minutes);
    } else {
      var h := HoursText(minutes / 60);
      NoDInHours(minutes / 60);
      if minutes % 60 > 0 {
        var m := MinutesText(minutes % 60);
        NoDInMinutes(minutes % 60);
        Text.CountConcat('d', h, " and " + m);
        Text.CountConcat('d', " and ", m);
        assert s == h + " and " + m;
        Text.OccurrencesOfInfix(" and ", h, m);
      } else {
        assert s == h + "";
        assert h + "" == h;
      }
    }
    assert Text.Count('d', s) <= 1;
    Text.OccurrencesAtMostCount(" and ", s, 3);
    if |s| > 3 {
      Text.CountConcat('d', s[..3], s[3..]);
      assert s[..3] + s[3..] == s;
    }
  }

  lemma NoDInMinutes(m: int)
    ensures Text.Count('d', MinutesText(m)) == 0
  {
    if m >= 2 {
      var digits := Text.NatToString(m);
      assert 'd' !in digits by {
        assert forall i :: 0 <= i < |digits| ==> '0' <= digits[i] <= '9';
      }
      Text.CountAbsent('d', digits + " minutes");
    } else {
      Text.CountAbsent('d', "1 minute");
    }
  }

  lemma NoDInHours(h: nat)
    ensures Text.Count('d', HoursText(h)) == 0
  {
    if h != 1 {
      var digits := Text.NatToString(h);
      assert 'd' !in digits by {
        assert forall i :: 0 <= i < |digits| ==> '0' <= digits[i] <= '9';
      }
      Text.CountAbsent('d', digits + " hours");
    } else {
      Text.CountAbsent('d', "1 hour");
    }
  }

  /** An hour and a half. */
  lemma FormatTimeDelta90()
    ensures FormatTimeDelta(90) == "1 hour and 30 minutes"
  {
    HoursAndMinutes(1, 30);
    PartExamples();
  }

  /** Two hours and five minutes. */
  lemma FormatTimeDelta125()
    ensures FormatTimeDelta(125) == "2 hours and 5 minutes"
  {
    HoursAndMinutes(2, 5);
    PartExamples();
  }

  /** Exactly two hours: no " and ". */
  lemma FormatTimeDelta120()
    ensures FormatTimeDelta(120) == "2 hours"
  {
    HoursAndMinutes(2, 0);
    PartExamples();
  }

  /** Below two minutes, anything reads "1 minute". */
  lemma FormatTimeDeltaBelowTwo(minutes: int)
    requires minutes < 2
    ensures FormatTimeDelta(minutes) == "1 minute"
  {
  }

  lemma PartExamples()
    ensures MinutesText(30) == "30 minutes" && MinutesText(5) == "5 minutes"
    ensures HoursText(1) == "1 hour" && HoursText(2) == "2 hours"
  {
    Text.NatToStringTwoDigits(30);
    assert Text.DigitChar(3) == '3' && Text.DigitChar(0) == '0';
    assert Text.NatToString(5) == [Text.DigitChar(5)] && Text.DigitChar(5) == '5';
    assert Text.NatToString(2) == [Text.DigitChar(2)] && Text.DigitChar(2) == '2';
  }

  /** `h` hours and `m` minutes, in words. */
  lemma HoursAndMinutes(h: nat, m: int)
    requires h >= 1 && 0 <= m < 60
    ensures FormatTimeDelta(60 * h + m) == HoursText(h) + (if m > 0 then " and " + MinutesText(m) else "")
  {
    var minutes := 60 * h + m;
    assert minutes / 60 == h && minutes % 60 == m;
    FormatTimeDeltaShape(minutes);
  }

  // ---------------------------------------------------------------- player-name checks

  /** The characters the name check rejects anywhere in a name. */
  predicate IsForbidden(c: char) {
    c in ",<>%&\\\"?*#/: "
  }

  /** A control character or anything outside basic Latin. */
  predicate OutsidePrintable(c: char) {
    (c as int) < 32 || (c as int) > 126
  }

  /** A name DevilutionX would not accept. */
  predicate InvalidName(name: string) {
    exists i :: 0 <= i < |name| && (IsForbidden(name[i]) || OutsidePrintable(name[i]))
  }

  /** `re.search` for a forbidden character. */
  predicate HasForbidden(name: string) {
    exists i :: 0 <= i < |name| && IsForbidden(name[i])
  }

  /** any_player_name_is_invalid: true exactly when some name holds a forbidden character
      or one outside the printable ASCII range; so an empty list is valid. */
  method AnyPlayerNameIsInvalid(players: seq<string>) returns (invalid: bool)
    ensures invalid <==> exists p :: 0 <= p < |players| && InvalidName(players[p])
  {
    var p := 0;
    while p < |players|
      invariant 0 <= p <= |players|
      invariant forall q :: 0 <= q < p ==> !InvalidName(players[q])
    {
      var name := players[p];
      if HasForbidden(name) {
        return true;
      }
      var i := 0;
      while i < |name|
        invariant 0 <= i <= |name|
        invariant forall j :: 0 <= j < i ==> !OutsidePrintable(name[j])
      {
        if OutsidePrintable(name[i]) {
          return true;
        }
        i := i + 1;
      }
      p := p + 1;
    }
    return false;
  }

  /** The banned words of a banlist file: its non-blank lines, stripped and upper-cased. */
  function BannedWords(banlist: string): set<string> {
    set line | line in Text.Split(banlist, '\n') && Text.Strip(line) != "" :: Text.Upper(Text.Strip(line))
  }

  /** Every banned word is a non-empty upper-case text: a blank line bans nothing, and case
      does not matter. */
  lemma BannedWordsShape(banlist: string, w: string)
    requires w in BannedWords(banlist)
    ensures w != "" && Text.Upper(w) == w
  {
    var line :| line in Text.Split(banlist, '\n') && Text.Strip(line) != "" && w == Text.Upper(Text.Strip(line));
    Text.UpperIdempotent(Text.Strip(line));
  }

  /** A name holds a banned word, upper-cased. */
  predicate HasBannedWord(name: string, words: set<string>) {
    exists w :: w in words && Text.IsSubstring(w, Text.Upper(name))
  }

  /** The inner loop of any_player_name_contains_a_banned_word, over the words of the set
      in some order: true exactly when one of them occurs in `upper`. */
  method ContainsAWord(upper: string, words: set<string>) returns (found: bool)
    ensures found <==> exists w :: w in words && Text.IsSubstring(w, upper)
  {
    var rest := words;
    while rest != {}
      invariant rest <= words
      invariant forall w :: w in words && w !in rest ==> !Text.IsSubstring(w, upper)
      decreases |rest|
    {
      var w :| w in rest;
      if Text.IsSubstring(w, upper) {
        return true;
      }
      rest := rest - {w};
    }
    return false;
  }

  /** The outer loop of any_player_name_contains_a_banned_word: true exactly when one of
      the words occurs in some upper-cased name. */
  method AnyNameHasAWord(players: seq<string>, words: set<string>) returns (banned: bool)
    ensures banned <==> exists p :: 0 <= p < |players| && HasBannedWord(players[p], words)
  {
    var p := 0;
    while p < |players|
      invariant 0 <= p <= |players|
      invariant forall q :: 0 <= q < p ==> !HasBannedWord(players[q], words)
    {
      banned := ContainsAWord(Text.Upper(players[p]), words);
      if banned {
        return;
      }
      p := p + 1;
    }
    return false;
  }

  /** any_player_name_contains_a_banned_word, with the banlist file's text passed in: true
      exactly when a banned word occurs in some upper-cased name. */
  method AnyPlayerNameContainsABannedWord(players: seq<string>, banlist: string) returns (banned: bool)
    ensures banned <==> exists p :: 0 <= p < |players| && HasBannedWord(players[p], BannedWords(banlist))
  {
    var words := BannedWords(banlist);
    banned := AnyNameHasAWord(players, words);
  }

  // ---------------------------------------------------------------- format_game

  /** A game as the game-list program reports it. */
  datatype Game = Game(
    id: string,
    gameType: string,
    version: string,
    difficulty: int,
    tickRate: int,
    runInTown: bool,
    theoQuest: bool,
    cowQuest: bool,
    friendlyFire: bool,
    fullQuests: bool,
    players: seq<string>,
    firstSeen: int,
    lastSeen: int)

  /** `gameTTL`: seconds a game stays listed after it was last seen. */
  const GameTTL := 120

  /** The game was last seen `gameTTL` or more seconds ago. */
  predicate Ended(game: Game, now: int) {
    now - game.lastSeen >= GameTTL
  }

  /** The text after the id for each known game type; any other type is shown as is. */
  function TypeText(gameType: string): string {
    match gameType
    case "DRTL" => " <:diabloico:760201452957335552>"
    case "DSHR" => " <:diabloico:760201452957335552> (spawn)"
    case "HRTL" => " <:hellfire:766901810580815932>"
    case "HSHR" => " <:hellfire:766901810580815932> (spawn)"
    case "IRON" => " Ironman"
    case "MEMD" => " <:one_ring:1061898681504251954>"
    case "DRDX" => " <:diabloico:760201452957335552> X"
    case "DWKD" => " <:mod_wkd:1097321063077122068> modDiablo"
    case "HWKD" => " <:mod_wkd:1097321063077122068> modHellfire"
    case _ => " " + gameType
  }

  function TickText(tickRate: int): string {
    match tickRate
    case 20 => ""
    case 30 => " Fast"
    case 40 => " Faster"
    case 50 => " Fastest"
    case _ => " speed: " + Text.IntToString(tickRate)
  }

  function DifficultyText(difficulty: int): string {
    match difficulty
    case 0 => " Normal"
    case 1 => " Nightmare"
    case 2 => " Hell"
    case _ => ""
  }

  /** The set options, in a fixed order; the Theo and Cow quests are not listed for DRTL. */
  function Attributes(game: Game): seq<string> {
    (if game.runInTown then ["Run in Town"] else [])
      + (if game.fullQuests then ["Quests"] else [])
      + (if game.theoQuest && game.gameType != "DRTL" then ["Theo Quest"] else [])
      + (if game.cowQuest && game.gameType != "DRTL" then ["Cow Quest"] else [])
      + (if game.friendlyFire then ["Friendly Fire"] else [])
  }

  function AttributesText(attributes: seq<string>): string {
    if |attributes| != 0 then " (" + Text.Join(", ", attributes) + ")" else ""
  }

  function EscapeAll(names: seq<string>): (r: seq<string>)
    ensures |r| == |names| && forall i :: 0 <= i < |names| ==> r[i] == Escape(names[i])
  {
    if names == [] then [] else [Escape(names[0])] + EscapeAll(names[1..])
  }

  /** Python's `round(seconds / 60)`: the nearest whole number of minutes, an exact half
      going to the even one. */
  function RoundMinutes(seconds: int): (m: int)
    ensures -30 <= seconds - 60 * m <= 30
    ensures seconds - 60 * m == 30 || seconds - 60 * m == -30 ==> m % 2 == 0
  {
    var f := seconds / 60;
    var r := seconds % 60;
    if r < 30 then f
    else if r > 30 then f + 1
    else if f % 2 == 0 then f else f + 1
  }

  function Header(game: Game, ended: bool): string {
    if ended then "~~" + Text.Upper(game.id) + "~~" else "**" + Text.Upper(game.id) + "**"
  }

  /** The rest of format_game's first line: type, version, speed, difficulty and options. */
  function GameLine(game: Game): string {
    TypeText(game.gameType) + " " + game.version + TickText(game.tickRate) + DifficultyText(game.difficulty)
      + AttributesText(Attributes(game))
  }

  /** The player names, each escaped and in bold. */
  function PlayersLine(game: Game): string {
    "\nPlayers: **" + Text.Join("**, **", EscapeAll(game.players)) + "**"
  }

  /** The start time, as a Discord relative timestamp. */
  function StartedLine(game: Game): (r: string)
    ensures |r| > 0 && r[|r| - 1] == '>'
  {
    "\nStarted: <t:" + Text.IntToString(game.firstSeen) + ":R>"
  }

  /** How long the game ran, in whole minutes. */
  function EndedLine(game: Game, now: int): (r: string)
    ensures |r| > 0 && r[|r| - 1] == '`'
  {
    "\nEnded after: `" + FormatTimeDelta(RoundMinutes(now - game.firstSeen)) + "`"
  }

  /** Everything format_game writes after the id while the game runs. */
  function Running(game: Game): (r: string)
    ensures r != [] && r[|r| - 1] == '>'
  {
    var started := StartedLine(game);
    var r := GameLine(game) + PlayersLine(game) + started;
    assert r[|r| - 1] == started[|started| - 1];
    r
  }

  /** Everything format_game writes after the id: it ends with the "Ended after" line once
      the game has ended, and with the start time before. */
  function Body(game: Game, now: int): (r: string)
    ensures r != [] && r[|r| - 1] == if Ended(game, now) then '`' else '>'
    ensures Ended(game, now) ==> Text.EndsWith(r, EndedLine(game, now))
  {
    if Ended(game, now) then
      var e := EndedLine(game, now);
      var r := Running(game) + e;
      assert r[|r| - |e|..] == e;
      r
    else Running(game)
  }

  /** format_game, with the clock as `now`. */
  function FormatGame(game: Game, now: int): string {
    Header(game, Ended(game, now)) + Body(game, now)
  }

  /** The header starts the text whatever follows it. */
  lemma HeaderFirst(game: Game, ended: bool, rest: string)
    ensures ended <==> Text.StartsWith(Header(game, ended) + rest, "~~" + Text.Upper(game.id) + "~~")
    ensures !ended ==> Text.StartsWith(Header(game, ended) + rest, "**" + Text.Upper(game.id) + "**")
  {
    var h := Header(game, ended);
    var t := h + rest;
    assert t[..|h|] == h;
    assert t[0] == h[0];
  }

  /** The id is shown upper-cased, struck through once the game has ended and in bold while
      it runs. */
  lemma FormatGameHeader(game: Game, now: int)
    ensures Ended(game, now) <==> Text.StartsWith(FormatGame(game, now), "~~" + Text.Upper(game.id) + "~~")
    ensures !Ended(game, now) ==> Text.StartsWith(FormatGame(game, now), "**" + Text.Upper(game.id) + "**")
  {
    HeaderFirst(game, Ended(game, now), Body(game, now));
  }

  /** The text ends with the "Ended after" line exactly when the game has ended; a running
      game's text ends with its start time. */
  lemma FormatGameEnding(game: Game, now: int)
    ensures Ended(game, now) <==> Text.EndsWith(FormatGame(game, now), "`")
    ensures Ended(game, now) ==> Text.EndsWith(FormatGame(game, now), EndedLine(game, now))
  {
    var h, b := Header(game, Ended(game, now)), Body(game, now);
    LastChar(h, b);
    Text.EndsWithChar(h + b, '`');
    if Ended(game, now) {
      Text.EndsWithPrepend(h, b, EndedLine(game, now));
    }
  }

  lemma LastChar(h: string, b: string)
    requires b != []
    ensures (h + b)[|h + b| - 1] == b[|b| - 1]
  {
  }

  /** The named speeds give "" or a text whose second character is 'F'; any other speed
      gives " speed: " and its decimal text. */
  lemma TickTextShape(t: int)
    ensures t in {20, 30, 40, 50} ==> TickText(t) == "" || TickText(t)[1] == 'F'
    ensures t !in {20, 30, 40, 50} ==> |TickText(t)| > 8 && TickText(t)[1] == 's' && TickText(t)[8..] == Text.IntToString(t)
  {
  }

  /** Different speeds never read the same. */
  lemma TickTextInjective(a: int, b: int)
    requires TickText(a) == TickText(b)
    ensures a == b
  {
    TickTextShape(a);
    TickTextShape(b);
    if a !in {20, 30, 40, 50} && b !in {20, 30, 40, 50} {
      Text.IntToStringInjective(a, b);
    }
  }

  /** Difficulties 0 to 2 are named and every other adds nothing. */
  lemma DifficultyTextNamed(d: int)
    ensures DifficultyText(d) == "" <==> d !in {0, 1, 2}
  {
  }

  /** Each option is listed exactly when it is set, and the Theo and Cow quests only for a
      type other than DRTL. */
  lemma AttributesListed(game: Game)
    ensures "Run in Town" in Attributes(game) <==> game.runInTown
    ensures "Quests" in Attributes(game) <==> game.fullQuests
    ensures "Theo Quest" in Attributes(game) <==> game.theoQuest && game.gameType != "DRTL"
    ensures "Cow Quest" in Attributes(game) <==> game.cowQuest && game.gameType != "DRTL"
    ensures "Friendly Fire" in Attributes(game) <==> game.friendlyFire
    ensures AttributesText(Attributes(game)) == "" <==> Attributes(game) == []
  {
  }

  // ---------------------------------------------------------------- the status text

  /** The status message of update_status_message. */
  function StatusText(count: int): string {
    if count == 1 then "There is currently **" + Text.IntToString(count) + "** public game."
    else "There are currently **" + Text.IntToString(count) + "** public games."
  }

  /** The singular wording is used exactly for one game; the count is always shown. */
  lemma StatusTextWording(count: int)
    ensures Text.StartsWith(StatusText(count), "There is ") <==> count == 1
    ensures Text.EndsWith(StatusText(count), "public game.") <==> count == 1
  {
    var t := StatusText(count);
    if count != 1 {
      assert t[6] == 'a';
      assert t[|t| - 2] == 's';
    }
  }

  /** The presence, `Games online: N`. */
  function PresenceText(count: int): string {
    "Games online: " + Text.IntToString(count)
  }

  // ---------------------------------------------------------------- the game list

  /** A posted message as the bot holds it: its handle, and the content it last gave it. */
  datatype Message = Message(handle: nat, content: string)

  /** A game in `game_list` and the message posted for it, if any (the `'message'` entry). */
  datatype Entry = Entry(game: Game, message: Option<Message>)

  /** `game_list`: the upper-cased game id to its entry, in insertion order. */
  type GameList = Dicts.Items<Entry>

  function GameOf(list: GameList, k: string): Option<Game> {
    match Dicts.Get(list, k)
    case None => None
    case Some(e) => Some(e.game)
  }

  function MessageOf(list: GameList, k: string): Option<Message> {
    match Dicts.Get(list, k)
    case None => None
    case Some(e) => e.message
  }

  /** Replacing one entry: only that key reads differently, and a present key keeps its
      place. */
  lemma PutEntry(list: GameList, key: string, e: Entry)
    ensures forall k :: GameOf(Dicts.Put(list, key, e), k) == if k == key then Some(e.game) else GameOf(list, k)
    ensures forall k :: MessageOf(Dicts.Put(list, key, e), k) == if k == key then e.message else MessageOf(list, k)
    ensures Dicts.Keys(Dicts.Put(list, key, e)) == if Dicts.Get(list, key).Some? then Dicts.Keys(list) else Dicts.Keys(list) + [key]
    ensures Dicts.UniqueKeys(list) ==> Dicts.UniqueKeys(Dicts.Put(list, key, e))
  {
    forall k
      ensures GameOf(Dicts.Put(list, key, e), k) == if k == key then Some(e.game) else GameOf(list, k)
      ensures MessageOf(Dicts.Put(list, key, e), k) == if k == key then e.message else MessageOf(list, k)
    {
      Dicts.PutGet(list, key, e, k);
    }
    Dicts.PutGet(list, key, e, key);
    if Dicts.UniqueKeys(list) {
      Dicts.PutUnique(list, key, e);
    }
  }

  // ---------------------------------------------------------------- merging a fetch

  /** The merge loop skips a game when a player name is invalid or holds a banned word. */
  predicate Rejected(players: seq<string>, banlist: string) {
    || (exists p :: 0 <= p < |players| && InvalidName(players[p]))
    || (exists p :: 0 <= p < |players| && HasBannedWord(players[p], BannedWords(banlist)))
  }

  /** One pass of the merge loop: a known key gets the fetched players and `last_seen`; a
      new one is stored with `first_seen = last_seen = now` and no message. */
  function MergeGame(list: GameList, game: Game, now: int, banlist: string): GameList {
    if Rejected(game.players, banlist) then list
    else
      var key := Text.Upper(game.id);
      match Dicts.Get(list, key)
      case Some(e) => Dicts.Put(list, key, e.(game := e.game.(players := game.players, lastSeen := now)))
      case None => Dicts.Put(list, key, Entry(game.(firstSeen := now, lastSeen := now), None))
  }

  /** The merge loop over a fetch. */
  function MergeAll(list: GameList, games: seq<Game>, now: int, banlist: string): (r: GameList)
    ensures Dicts.UniqueKeys(list) ==> Dicts.UniqueKeys(r)
    decreases |games|
  {
    if games == [] then list
    else
      var prev := MergeAll(list, games[..|games| - 1], now, banlist);
      var game := games[|games| - 1];
      MergeGameEffect(prev, game, now, banlist, "");
      MergeGame(prev, game, now, banlist)
  }

  /** A skipped game changes nothing. A game seen again gets the fetched player list and
      `last_seen = now`, and keeps `first_seen`, its other fields, its message and its
      place. A new game is stored under its upper-cased id, last in order, with
      `first_seen = last_seen = now` and no message. No other key changes. */
  lemma MergeGameEffect(list: GameList, game: Game, now: int, banlist: string, k: string)
    ensures var r := MergeGame(list, game, now, banlist);
      var key := Text.Upper(game.id);
      && (Rejected(game.players, banlist) ==> r == list)
      && (!Rejected(game.players, banlist) && GameOf(list, key).Some? ==>
            && GameOf(r, key) == Some(GameOf(list, key).value.(players := game.players, lastSeen := now))
            && MessageOf(r, key) == MessageOf(list, key)
            && Dicts.Keys(r) == Dicts.Keys(list))
      && (!Rejected(game.players, banlist) && GameOf(list, key).None? ==>
            && GameOf(r, key) == Some(game.(firstSeen := now, lastSeen := now))
            && MessageOf(r, key).None?
            && Dicts.Keys(r) == Dicts.Keys(list) + [key])
      && (k != key ==> GameOf(r, k) == GameOf(list, k) && MessageOf(r, k) == MessageOf(list, k))
      && (Dicts.UniqueKeys(list) ==> Dicts.UniqueKeys(r))
  {
    if !Rejected(game.players, banlist) {
      var key := Text.Upper(game.id);
      match Dicts.Get(list, key)
      case Some(e) => PutEntry(list, key, e.(game := e.game.(players := game.players, lastSeen := now)));
      case None => PutEntry(list, key, Entry(game.(firstSeen := now, lastSeen := now), None));
    }
  }

  /** A key under which every fetched game is skipped is neither created nor updated by the
      merge. */
  lemma {:induction false} MergeAllSkipsRejected(list: GameList, games: seq<Game>, now: int, banlist: string, k: string)
    requires forall i :: 0 <= i < |games| && Text.Upper(games[i].id) == k ==> Rejected(games[i].players, banlist)
    ensures Dicts.Get(MergeAll(list, games, now, banlist), k) == Dicts.Get(list, k)
    decreases |games|
  {
    if games != [] {
      var front, game := games[..|games| - 1], games[|games| - 1];
      var prev := MergeAll(list, front, now, banlist);
      MergeAllSkipsRejected(list, front, now, banlist, k);
      if !Rejected(game.players, banlist) {
        var key := Text.Upper(game.id);
        match Dicts.Get(prev, key)
        case Some(e) => Dicts.PutGet(prev, key, e.(game := e.game.(players := game.players, lastSeen := now)), k);
        case None => Dicts.PutGet(prev, key, Entry(game.(firstSeen := now, lastSeen := now), None), k);
      }
    }
  }

  // ---------------------------------------------------------------- expiry

  /** The keys of the ended games, in the order of `game_list`. */
  function EndedKeys(list: GameList, now: int): seq<string>
    decreases |list|
  {
    if list == [] then []
    else
      var last := list[|list| - 1];
      EndedKeys(list[..|list| - 1], now) + (if Ended(last.1.game, now) then [last.0] else [])
  }

  /** `game_list` after the ended games are deleted. */
  function Survivors(list: GameList, now: int): GameList {
    Dicts.RemoveKeys(list, EndedKeys(list, now))
  }

  /** A key is marked exactly when its game has ended. */
  lemma {:induction false} EndedKeysMember(list: GameList, k: string, now: int)
    requires Dicts.UniqueKeys(list)
    ensures k in EndedKeys(list, now) <==> GameOf(list, k).Some? && Ended(GameOf(list, k).value, now)
    decreases |list|
  {
    if list != [] {
      var front, last := list[..|list| - 1], list[|list| - 1];
      assert list == front + [last];
      EndedKeysMember(front, k, now);
      Dicts.GetSnoc(front, last, k);
      if last.0 == k {
        Dicts.GetNone(front, k);
      }
    }
  }

  /** Exactly the ended games are removed, every other game is kept as it was, and every
      game left was seen less than `gameTTL` seconds ago. */
  lemma SurvivorsGet(list: GameList, k: string, now: int)
    requires Dicts.UniqueKeys(list)
    ensures Dicts.UniqueKeys(Survivors(list, now))
    ensures Dicts.Get(Survivors(list, now), k) ==
      if GameOf(list, k).Some? && Ended(GameOf(list, k).value, now) then None else Dicts.Get(list, k)
    ensures GameOf(Survivors(list, now), k).Some? ==> now - GameOf(Survivors(list, now), k).value.lastSeen < GameTTL
  {
    EndedKeysMember(list, k, now);
    Dicts.RemoveKeysGet(list, EndedKeys(list, now), k, (e: Entry) => true);
  }

  /** A text for a game at a time, as format_game gives. */
  type Formatter = (Game, int) -> string

  /** The channel the Discord bot posts to. */
  type Chan = Sink.State<string>

  /** The bot holds no content for a message that the channel contradicts: a message still
      posted shows what the bot holds for it. */
  predicate Agrees(m: Message, posted: map<nat, string>) {
    m.handle in posted ==> posted[m.handle] == m.content
  }

  /** The channel shows the message with the content the bot holds for it. */
  predicate Shown(m: Message, posted: map<nat, string>) {
    m.handle in posted && posted[m.handle] == m.content
  }

  /** end_game_message: the game's message, if the bot holds one, is edited to the text for
      `now`; NotFound, when the message is gone, is passed over. */
  function EndOne(e: Entry, now: int, format: Formatter, s: Chan): (r: Chan)
    ensures r.posted.Keys == s.posted.Keys && r.nextHandle == s.nextHandle && r.presence == s.presence
    ensures e.message.Some? && e.message.value.handle in s.posted ==> r.posted[e.message.value.handle] == format(e.game, now)
  {
    if e.message.Some? then Sink.AfterEdit(s, e.message.value.handle, format(e.game, now)) else s
  }

  /** The channel after the marking loop: end_game_message for every ended game, in order. */
  function EndAll(list: GameList, now: int, format: Formatter, s: Chan): (r: Chan)
    ensures r.posted.Keys == s.posted.Keys && r.nextHandle == s.nextHandle && r.presence == s.presence
    ensures EndedKeys(list, now) == [] ==> r == s
    decreases |list|
  {
    if list == [] then s
    else
      var prev := EndAll(list[..|list| - 1], now, format, s);
      var e := list[|list| - 1].1;
      if Ended(e.game, now) then EndOne(e, now, format, prev) else prev
  }

  /** The marking loop edits only the messages of ended games. */
  lemma {:induction false} EndAllFrame(list: GameList, now: int, format: Formatter, s: Chan, h: nat)
    requires forall i :: 0 <= i < |list| && Ended(list[i].1.game, now) && list[i].1.message.Some? ==> list[i].1.message.value.handle != h
    requires h in s.posted
    ensures EndAll(list, now, format, s).posted[h] == s.posted[h]
    decreases |list|
  {
    if list != [] {
      EndAllFrame(list[..|list| - 1], now, format, s, h);
    }
  }

  /** The message of an ended game that is still on the channel shows the game's final text
      afterwards. */
  lemma {:induction false} EndAllShowsFinal(list: GameList, now: int, format: Formatter, s: Chan, i: nat)
    requires i < |list| && Ended(list[i].1.game, now) && list[i].1.message.Some?
    requires list[i].1.message.value.handle in s.posted
    requires forall j, j' :: 0 <= j < j' < |list| && list[j].1.message.Some? && list[j'].1.message.Some? ==>
      list[j].1.message.value.handle != list[j'].1.message.value.handle
    ensures EndAll(list, now, format, s).posted[list[i].1.message.value.handle] == format(list[i].1.game, now)
    decreases |list|
  {
    var front := list[..|list| - 1];
    if i < |list| - 1 {
      assert front[i] == list[i];
      EndAllShowsFinal(front, now, format, s, i);
    } else {
      EndAllFrame(front, now, format, s, list[i].1.message.value.handle);
    }
  }

  /** One game's message as update_game_message sees it: the text the channel shows and the
      content of the message object the bot holds. */
  datatype Cell = Cell(shown: string, held: string)

  /** update_game_message on one message as written: `message.edit` sends the new text,
      but the bot keeps the message object `send` gave it, whose content is never updated
      (the edited message comes back as a new object that is dropped). */
  function RefreshCellAsWritten(c: Cell, text: string): (r: Cell)
    ensures r.held == c.held
    ensures r.shown == (if c.held == text then c.shown else text)
  {
    if c.held != text then c.(shown := text) else c
  }

  /** update_game_message on one message as corrected: the held content follows the edit. */
  function RefreshCell(c: Cell, text: string): (r: Cell)
    ensures c.shown == c.held ==> r.shown == text && r.held == text
  {
    if c.held != text then Cell(text, text) else c
  }

  /** Successive refreshes with the texts `texts`, the last one last. */
  function RefreshCells(c: Cell, texts: seq<string>, asWritten: bool): Cell
    decreases |texts|
  {
    if texts == [] then c
    else
      var before := RefreshCells(c, texts[..|texts| - 1], asWritten);
      if asWritten then RefreshCellAsWritten(before, texts[|texts| - 1]) else RefreshCell(before, texts[|texts| - 1])
  }

  /** As corrected, a message that starts in step with the bot shows the latest text after
      any run of refreshes, and stays in step. */
  lemma {:induction false} RefreshCellsShowLatest(c: Cell, texts: seq<string>)
    requires c.shown == c.held && texts != []
    ensures var r := RefreshCells(c, texts, false);
      r.shown == texts[|texts| - 1] && r.held == r.shown
    decreases |texts|
  {
    if |texts| > 1 {
      RefreshCellsShowLatest(c, texts[..|texts| - 1]);
    }
  }

  /** As written, a game whose text changes from `a` to `b` and back to `a` (a player joins
      and leaves again) keeps showing `b`: the held content is still `a`, so the last
      refresh sees nothing to edit. */
  lemma StaleAfterRevert(a: string, b: string)
    requires a != b
    ensures RefreshCells(Cell(a, a), [b, a], true).shown == b
    ensures RefreshCells(Cell(a, a), [b, a], false).shown == a
  {
    assert [b, a][..1] == [b];
    assert [b][..0] == [];
    assert RefreshCells(Cell(a, a), [b], true) == Cell(b, a);
    assert RefreshCells(Cell(a, a), [b], false) == Cell(b, b);
  }

  /** `game_list` after remove_game_messages: every game without its message. */
  function ClearMessages(list: GameList): (r: GameList)
    ensures |r| == |list|
    ensures forall i :: 0 <= i < |list| ==> r[i] == (list[i].0, list[i].1.(message := None))
    decreases |list|
  {
    if list == [] then []
    else ClearMessages(list[..|list| - 1]) + [(list[|list| - 1].0, list[|list| - 1].1.(message := None))]
  }

  /** remove_game_messages for one game: its message, if the bot holds one, is deleted;
      NotFound is passed over. */
  function ClearOne(e: Entry, s: Chan): (r: Chan)
    ensures r.posted.Keys <= s.posted.Keys && r.nextHandle == s.nextHandle && r.presence == s.presence
    ensures e.message.Some? ==> e.message.value.handle !in r.posted
  {
    if e.message.Some? then Sink.AfterDelete(s, e.message.value.handle) else s
  }

  /** The channel after remove_game_messages over every game, in order: no game's message is
      left on it. */
  function DeleteAll(list: GameList, s: Chan): (r: Chan)
    ensures r.posted.Keys <= s.posted.Keys && r.nextHandle == s.nextHandle && r.presence == s.presence
    ensures forall i :: 0 <= i < |list| && list[i].1.message.Some? ==> list[i].1.message.value.handle !in r.posted
    decreases |list|
  {
    if list == [] then s
    else ClearOne(list[|list| - 1].1, DeleteAll(list[..|list| - 1], s))
  }

  /** One more game losing its message extends the cleared prefix by one. */
  lemma ClearStep(items: GameList, i: nat, s: Chan, cur: GameList)
    requires i < |items| && cur == ClearMessages(items[..i]) + items[i..]
    ensures cur[i] == items[i]
    ensures DeleteAll(items[..i + 1], s) == ClearOne(items[i].1, DeleteAll(items[..i], s))
    ensures cur[i := (items[i].0, items[i].1.(message := None))] == ClearMessages(items[..i + 1]) + items[i + 1..]
  {
    assert items[..i + 1][..i] == items[..i];
  }

  /** A game's message and the channel after update_game_message. */
  datatype Updated = Updated(message: Message, chan: Chan)

  /** update_game_message as corrected, for a game with fresh text `text`. A held message
      with that content is left alone. One with other content is edited, and holds the new
      text when the edit found it; on NotFound the bot keeps the message object it had. A
      game without a message gets one sent. A message that is on the channel, or new, shows
      the fresh text afterwards; a message gone from the channel stays gone and unchanged;
      every other message is untouched. */
  function Update(e: Entry, text: string, s: Chan): (u: Updated)
    ensures u.chan.presence == s.presence
    ensures u.chan.posted.Keys <= s.posted.Keys + {s.nextHandle}
    ensures e.message.Some? ==> u.message.handle == e.message.value.handle && u.chan.nextHandle == s.nextHandle
    ensures e.message.None? ==> u.message.handle == s.nextHandle && u.chan.nextHandle == s.nextHandle + 1
    ensures e.message.None? || (e.message.value.handle in s.posted && Agrees(e.message.value, s.posted)) ==>
      Shown(u.message, u.chan.posted) && u.message.content == text
    ensures e.message.Some? && e.message.value.handle !in s.posted ==>
      u.message == e.message.value && u.message.handle !in u.chan.posted
  {
    match e.message
    case None => Updated(Message(s.nextHandle, text), Sink.AfterSend(s, text))
    case Some(m) =>
      if m.content == text then Updated(m, s)
      else Updated(if m.handle in s.posted then m.(content := text) else m, Sink.AfterEdit(s, m.handle, text))
  }

  /** update_game_message touches no other message on the channel. */
  lemma UpdateFrame(e: Entry, text: string, s: Chan, h: nat)
    requires h != Update(e, text, s).message.handle
    ensures var posted := Update(e, text, s).chan.posted;
      (h in posted <==> h in s.posted) && (h in s.posted ==> posted[h] == s.posted[h])
  {
  }

  /** `game_list` and the channel after the update loop. */
  datatype Rendered = Rendered(list: GameList, chan: Chan)

  /** The text format_game gives each game of the list at time `now`. */
  function Texts(list: GameList, now: int, format: Formatter): (texts: seq<string>)
    ensures |texts| == |list|
    ensures forall i :: 0 <= i < |list| ==> texts[i] == format(list[i].1.game, now)
  {
    seq(|list|, i requires 0 <= i < |list| => format(list[i].1.game, now))
  }

  /** update_game_message for every game, in order, with `texts[i]` the fresh text of game
      `i`. */
  function RenderAll(list: GameList, texts: seq<string>, s: Chan): (r: Rendered)
    requires |list| <= |texts|
    ensures |r.list| == |list| && s.nextHandle <= r.chan.nextHandle && r.chan.presence == s.presence
    decreases |list|
  {
    if list == [] then Rendered([], s)
    else
      var r := RenderAll(list[..|list| - 1], texts, s);
      var (k, e) := list[|list| - 1];
      var u := Update(e, texts[|list| - 1], r.chan);
      Rendered(r.list + [(k, e.(message := Some(u.message)))], u.chan)
  }

  /** After the update loop every game keeps its key, place and fields and holds a message:
      the one it had, or a new one under a handle from the first free one on. */
  lemma {:induction false} RenderAllKeeps(list: GameList, texts: seq<string>, s: Chan, i: nat)
    requires i < |list| <= |texts|
    ensures var r := RenderAll(list, texts, s);
      && r.list[i].0 == list[i].0 && r.list[i].1.game == list[i].1.game && r.list[i].1.message.Some?
      && (list[i].1.message.Some? ==> r.list[i].1.message.value.handle == list[i].1.message.value.handle)
      && (list[i].1.message.None? ==> s.nextHandle <= r.list[i].1.message.value.handle < r.chan.nextHandle)
    decreases |list|
  {
    if i < |list| - 1 {
      RenderAllKeeps(list[..|list| - 1], texts, s, i);
    }
  }

  /** The update loop adds only new messages to the channel. */
  lemma {:induction false} RenderAllPosts(list: GameList, texts: seq<string>, s: Chan)
    requires |list| <= |texts|
    ensures var r := RenderAll(list, texts, s).chan;
      forall h :: h in r.posted ==> h in s.posted || s.nextHandle <= h < r.nextHandle
    decreases |list|
  {
    if list != [] {
      RenderAllPosts(list[..|list| - 1], texts, s);
    }
  }

  /** One more game updated extends the rendered prefix by one. */
  lemma RenderStep(items: GameList, i: nat, texts: seq<string>, s: Chan, cur: GameList)
    requires i < |items| <= |texts|
    requires cur == RenderAll(items[..i], texts, s).list + items[i..]
    ensures var u := Update(items[i].1, texts[i], RenderAll(items[..i], texts, s).chan);
      var r := RenderAll(items[..i + 1], texts, s);
      && cur[i] == items[i]
      && cur[i := (items[i].0, items[i].1.(message := Some(u.message)))] == r.list + items[i + 1..]
      && r.chan == u.chan
  {
    assert items[..i + 1][..i] == items[..i];
  }

  /** What the bot holds is consistent with the channel, position by position: no held
      message is contradicted by the channel, every held handle and the status message's
      handle were handed out, and no two of them are the same. */
  ghost predicate Held(list: GameList, posted: map<nat, string>, status: Option<nat>, next: nat) {
    && (forall i :: 0 <= i < |list| && list[i].1.message.Some? ==>
          Agrees(list[i].1.message.value, posted) && list[i].1.message.value.handle < next)
    && (forall i, j :: 0 <= i < j < |list| && list[i].1.message.Some? && list[j].1.message.Some? ==>
          list[i].1.message.value.handle != list[j].1.message.value.handle)
    && (status.Some? ==>
          && status.value < next
          && forall i :: 0 <= i < |list| && list[i].1.message.Some? ==> list[i].1.message.value.handle != status.value)
  }

  /** The bot's invariant over `game_list` and the channel. It holds whatever else deletes
      messages: it asks only that nothing the bot holds is contradicted, not that the bot's
      messages are still posted. */
  ghost predicate Tracked(list: GameList, posted: map<nat, string>, status: Option<nat>, next: nat) {
    Dicts.UniqueKeys(list) && Held(list, posted, status, next)
  }

  lemma HeldPrefix(list: GameList, posted: map<nat, string>, status: Option<nat>, next: nat, n: nat)
    requires n <= |list| && Held(list, posted, status, next)
    ensures Held(list[..n], posted, status, next)
  {
    assert forall j :: 0 <= j < n ==> list[..n][j] == list[j];
  }

  /** The state update_game_message leaves a game's message `m` in, with `before` the message
      the bot held, `was` the channel before and `posted` the channel after: on the channel
      with the fresh text, unless the message it held was gone, and then unchanged and still
      gone. */
  predicate Refreshes(before: Option<Message>, m: Message, text: string, was: map<nat, string>, posted: map<nat, string>) {
    if before.None? || before.value.handle in was then Shown(m, posted) && m.content == text
    else m == before.value && m.handle !in posted
  }

  /** A message of the list that the update loop does not hand to update_game_message keeps
      its state on the channel. */
  lemma {:induction false} RenderAllFrame(list: GameList, texts: seq<string>, s: Chan, h: nat)
    requires |list| <= |texts| && h < s.nextHandle
    requires forall i :: 0 <= i < |list| && list[i].1.message.Some? ==> list[i].1.message.value.handle != h
    ensures var r := RenderAll(list, texts, s).chan;
      (h in r.posted <==> h in s.posted) && (h in s.posted ==> r.posted[h] == s.posted[h])
    decreases |list|
  {
    if list != [] {
      var front := list[..|list| - 1];
      RenderAllFrame(front, texts, s, h);
      UpdateFrame(list[|list| - 1].1, texts[|list| - 1], RenderAll(front, texts, s).chan, h);
    }
  }

  /** After the update loop a game that had no message, or whose message was still on the
      channel, shows its fresh text; a game whose message is gone from the channel keeps
      that message, and it stays gone. */
  lemma {:induction false} RenderAllShape(list: GameList, texts: seq<string>, s: Chan, status: Option<nat>, i: nat)
    requires i < |list| <= |texts| && Held(list, s.posted, status, s.nextHandle)
    ensures var r := RenderAll(list, texts, s);
      r.list[i].1.message.Some? && Refreshes(list[i].1.message, r.list[i].1.message.value, texts[i], s.posted, r.chan.posted)
    decreases |list|
  {
    var n := |list|;
    var front := list[..n - 1];
    var p := RenderAll(front, texts, s);
    var u := Update(list[n - 1].1, texts[n - 1], p.chan);
    RenderAllKeeps(list, texts, s, i);
    if i < n - 1 {
      HeldPrefix(list, s.posted, status, s.nextHandle, n - 1);
      assert front[i] == list[i];
      RenderAllShape(front, texts, s, status, i);
      RenderAllKeeps(front, texts, s, i);
      var m := p.list[i].1.message.value;
      assert m.handle != u.message.handle;
      UpdateFrame(list[n - 1].1, texts[n - 1], p.chan, m.handle);
      assert RenderAll(list, texts, s).list[i] == p.list[i];
    } else if list[i].1.message.Some? {
      RenderAllFrame(front, texts, s, list[i].1.message.value.handle);
    }
  }

  /** The message the last turn of the update loop leaves the last game with is not
      contradicted by the channel, and is the game's own or the new one under the first free
      handle. */
  lemma RenderLastHeld(list: GameList, texts: seq<string>, s: Chan, status: Option<nat>)
    requires 0 < |list| <= |texts| && Held(list, s.posted, status, s.nextHandle)
    ensures var n := |list|;
      var p := RenderAll(list[..n - 1], texts, s);
      var u := Update(list[n - 1].1, texts[n - 1], p.chan);
      && Agrees(u.message, u.chan.posted) && u.message.handle < u.chan.nextHandle
      && (status.Some? ==> u.message.handle != status.value)
      && (list[n - 1].1.message.Some? ==> u.message.handle < s.nextHandle)
      && (list[n - 1].1.message.None? ==> u.message.handle == p.chan.nextHandle)
  {
    var n := |list|;
    if list[n - 1].1.message.Some? {
      HeldPrefix(list, s.posted, status, s.nextHandle, n - 1);
      RenderAllFrame(list[..n - 1], texts, s, list[n - 1].1.message.value.handle);
    }
  }

  /** The last turn of the update loop leaves every earlier game's message as it was. */
  lemma RenderFrontKept(list: GameList, texts: seq<string>, s: Chan, status: Option<nat>, j: nat)
    requires j < |list| - 1 && |list| <= |texts| && Held(list, s.posted, status, s.nextHandle)
    requires var p := RenderAll(list[..|list| - 1], texts, s);
      Held(p.list, p.chan.posted, status, p.chan.nextHandle)
    ensures var n := |list|;
      var p := RenderAll(list[..n - 1], texts, s);
      var u := Update(list[n - 1].1, texts[n - 1], p.chan);
      && p.list[j].1.message.Some? && p.list[j].1.message.value.handle != u.message.handle
      && Agrees(p.list[j].1.message.value, u.chan.posted)
  {
    var n := |list|;
    var front := list[..n - 1];
    var p := RenderAll(front, texts, s);
    RenderAllKeeps(front, texts, s, j);
    assert front[j] == list[j];
    UpdateFrame(list[n - 1].1, texts[n - 1], p.chan, p.list[j].1.message.value.handle);
  }

  /** A list stays consistent with the channel when one more game is appended whose message
      is not contradicted, was handed out, and is neither the status message nor any other
      game's. */
  lemma HeldExtend(front: GameList, x: (string, Entry), was: map<nat, string>, posted: map<nat, string>, status: Option<nat>, before: nat, next: nat)
    requires Held(front, was, status, before) && before <= next
    requires x.1.message.Some? && Agrees(x.1.message.value, posted) && x.1.message.value.handle < next
    requires status.Some? ==> x.1.message.value.handle != status.value
    requires forall j :: 0 <= j < |front| && front[j].1.message.Some? ==>
      Agrees(front[j].1.message.value, posted) && front[j].1.message.value.handle != x.1.message.value.handle
    ensures Held(front + [x], posted, status, next)
  {
    var list := front + [x];
    assert forall j :: 0 <= j < |front| ==> list[j] == front[j];
  }

  /** One more turn of the update loop keeps the bot consistent with the channel, given that
      the turns before it did. */
  lemma RenderAllHeldStep(list: GameList, texts: seq<string>, s: Chan, status: Option<nat>)
    requires 0 < |list| <= |texts| && Held(list, s.posted, status, s.nextHandle)
    requires var p := RenderAll(list[..|list| - 1], texts, s);
      Held(p.list, p.chan.posted, status, p.chan.nextHandle)
    ensures var r := RenderAll(list, texts, s);
      Held(r.list, r.chan.posted, status, r.chan.nextHandle)
  {
    var n := |list|;
    var p := RenderAll(list[..n - 1], texts, s);
    var u := Update(list[n - 1].1, texts[n - 1], p.chan);
    RenderLastHeld(list, texts, s, status);
    forall j | 0 <= j < |p.list| && p.list[j].1.message.Some?
      ensures Agrees(p.list[j].1.message.value, u.chan.posted) && p.list[j].1.message.value.handle != u.message.handle
    {
      RenderFrontKept(list, texts, s, status, j);
    }
    var x := (list[n - 1].0, list[n - 1].1.(message := Some(u.message)));
    assert RenderAll(list, texts, s) == Rendered(p.list + [x], u.chan);
    HeldExtend(p.list, x, p.chan.posted, u.chan.posted, status, p.chan.nextHandle, u.chan.nextHandle);
  }

  /** The update loop keeps the bot consistent with the channel. */
  lemma {:induction false} RenderAllHeld(list: GameList, texts: seq<string>, s: Chan, status: Option<nat>)
    requires |list| <= |texts| && Held(list, s.posted, status, s.nextHandle)
    ensures var r := RenderAll(list, texts, s);
      Held(r.list, r.chan.posted, status, r.chan.nextHandle)
    decreases |list|
  {
    if list != [] {
      HeldPrefix(list, s.posted, status, s.nextHandle, |list| - 1);
      RenderAllHeld(list[..|list| - 1], texts, s, status);
      RenderAllHeldStep(list, texts, s, status);
    }
  }

  /** The entry of a key present in a dict sits at some position. */
  lemma EntryAt(list: GameList, k: string) returns (i: nat)
    requires Dicts.UniqueKeys(list) && Dicts.Get(list, k).Some?
    ensures i < |list| && list[i] == (k, Dicts.Get(list, k).value)
  {
    Dicts.GetNone(list, k);
    i :| 0 <= i < |list| && list[i].0 == k;
    Dicts.GetAt(list, i);
  }

  /** A list holding, under each of its keys, no message or the message another list holds
      there is consistent with the channel when that one is. */
  lemma HeldTransfer(a: GameList, b: GameList, posted: map<nat, string>, status: Option<nat>, next: nat)
    requires Dicts.UniqueKeys(a) && Dicts.UniqueKeys(b) && Held(a, posted, status, next)
    requires forall k :: MessageOf(b, k).Some? ==> MessageOf(b, k) == MessageOf(a, k)
    ensures Held(b, posted, status, next)
  {
    forall j | 0 <= j < |b| && b[j].1.message.Some?
      ensures Agrees(b[j].1.message.value, posted) && b[j].1.message.value.handle < next
      ensures status.Some? ==> b[j].1.message.value.handle != status.value
    {
      Dicts.GetAt(b, j);
      assert MessageOf(b, b[j].0) == b[j].1.message;
      var i := EntryAt(a, b[j].0);
    }
    forall j, j' | 0 <= j < j' < |b| && b[j].1.message.Some? && b[j'].1.message.Some?
      ensures b[j].1.message.value.handle != b[j'].1.message.value.handle
    {
      Dicts.GetAt(b, j);
      Dicts.GetAt(b, j');
      assert MessageOf(b, b[j].0) == b[j].1.message && MessageOf(b, b[j'].0) == b[j'].1.message;
      var i := EntryAt(a, b[j].0);
      var i' := EntryAt(a, b[j'].0);
      assert i != i';
    }
  }

  /** The merge loop keeps every key's message: a known game keeps its own, a new one has
      none. */
  lemma {:induction false} MergeAllMessages(list: GameList, games: seq<Game>, now: int, banlist: string, k: string)
    ensures MessageOf(MergeAll(list, games, now, banlist), k) == MessageOf(list, k)
    decreases |games|
  {
    if games != [] {
      var prev := MergeAll(list, games[..|games| - 1], now, banlist);
      MergeAllMessages(list, games[..|games| - 1], now, banlist, k);
      MergeGameEffect(prev, games[|games| - 1], now, banlist, k);
    }
  }

  /** The merge loop keeps the bot consistent with the channel. */
  lemma MergeAllTracked(list: GameList, games: seq<Game>, now: int, banlist: string, posted: map<nat, string>, status: Option<nat>, next: nat)
    requires Tracked(list, posted, status, next)
    ensures Tracked(MergeAll(list, games, now, banlist), posted, status, next)
  {
    forall k
      ensures MessageOf(MergeAll(list, games, now, banlist), k) == MessageOf(list, k)
    {
      MergeAllMessages(list, games, now, banlist, k);
    }
    HeldTransfer(list, MergeAll(list, games, now, banlist), posted, status, next);
  }

  /** The expiry keeps the bot consistent with the channel after the final edits. */
  lemma SurvivorsTracked(merged: GameList, now: int, format: Formatter, s: Chan, status: Option<nat>)
    requires Tracked(merged, s.posted, status, s.nextHandle)
    ensures Tracked(Survivors(merged, now), EndAll(merged, now, format, s).posted, status, s.nextHandle)
  {
    var live := Survivors(merged, now);
    var posted := EndAll(merged, now, format, s).posted;
    forall k
      ensures MessageOf(live, k).Some? ==> MessageOf(live, k) == MessageOf(merged, k)
    {
      SurvivorsGet(merged, k, now);
    }
    SurvivorsGet(merged, "", now);
    HeldTransfer(merged, live, s.posted, status, s.nextHandle);
    forall j | 0 <= j < |live| && live[j].1.message.Some?
      ensures Agrees(live[j].1.message.value, posted)
    {
      var m := live[j].1.message.value;
      if m.handle in s.posted {
        var k := live[j].0;
        Dicts.GetAt(live, j);
        SurvivorsGet(merged, k, now);
        var i := EntryAt(merged, k);
        forall i' | 0 <= i' < |merged| && Ended(merged[i'].1.game, now) && merged[i'].1.message.Some?
          ensures merged[i'].1.message.value.handle != m.handle
        {
          assert i' != i;
        }
        EndAllFrame(merged, now, format, s, m.handle);
      }
    }
  }

  /** Whether some game of the merged list has ended. */
  predicate AnyEnded(list: GameList, games: seq<Game>, now: int, banlist: string) {
    EndedKeys(MergeAll(list, games, now, banlist), now) != []
  }

  /** `game_list` and the channel after one refresh of background_task on the snapshot
      `games`, up to the status message: the merge, the expiry with its final edits, the
      removal of every message when a game ended, and the update loop. */
  function Refreshed(list: GameList, games: seq<Game>, now: int, banlist: string, format: Formatter, s: Chan): (r: Rendered)
    ensures |r.list| == |Survivors(MergeAll(list, games, now, banlist), now)|
    ensures s.nextHandle <= r.chan.nextHandle && r.chan.presence == s.presence
  {
    var merged := MergeAll(list, games, now, banlist);
    var live := Survivors(merged, now);
    var ended := EndAll(merged, now, format, s);
    var shown := if AnyEnded(list, games, now, banlist) then ClearMessages(live) else live;
    var cleared := if AnyEnded(list, games, now, banlist) then DeleteAll(live, ended) else ended;
    RenderAll(shown, Texts(shown, now, format), cleared)
  }

  /** The update loop keeps the bot consistent with the channel, and every posted message's
      handle handed out. */
  lemma RenderAllTracked(list: GameList, texts: seq<string>, s: Chan, status: Option<nat>)
    requires |list| <= |texts| && Sink.HandlesIssued(s) && Tracked(list, s.posted, status, s.nextHandle)
    ensures var r := RenderAll(list, texts, s);
      Sink.HandlesIssued(r.chan) && Tracked(r.list, r.chan.posted, status, r.chan.nextHandle)
  {
    RenderAllHeld(list, texts, s, status);
    RenderAllPosts(list, texts, s);
    var r := RenderAll(list, texts, s);
    forall j | 0 <= j < |r.list|
      ensures r.list[j].0 == list[j].0
    {
      RenderAllKeeps(list, texts, s, j);
    }
  }

  /** A refresh keeps the bot consistent with the channel, and every posted message's handle
      handed out. */
  lemma RefreshedTracked(list: GameList, games: seq<Game>, now: int, banlist: string, format: Formatter, s: Chan, status: Option<nat>)
    requires Sink.HandlesIssued(s) && Tracked(list, s.posted, status, s.nextHandle)
    ensures var r := Refreshed(list, games, now, banlist, format, s);
      Sink.HandlesIssued(r.chan) && Tracked(r.list, r.chan.posted, status, r.chan.nextHandle)
  {
    var merged := MergeAll(list, games, now, banlist);
    MergeAllTracked(list, games, now, banlist, s.posted, status, s.nextHandle);
    SurvivorsTracked(merged, now, format, s, status);
    var live := Survivors(merged, now);
    var ended := EndAll(merged, now, format, s);
    var shown := if AnyEnded(list, games, now, banlist) then ClearMessages(live) else live;
    var cleared := if AnyEnded(list, games, now, banlist) then DeleteAll(live, ended) else ended;
    assert Tracked(shown, cleared.posted, status, cleared.nextHandle);
    RenderAllTracked(shown, Texts(shown, now, format), cleared, status);
  }

  /** A refresh in which some game ended: every surviving game gets a new message that
      shows its fresh text. */
  lemma RefreshedShapeEnded(list: GameList, games: seq<Game>, now: int, banlist: string, format: Formatter, s: Chan, status: Option<nat>, i: nat)
    requires Tracked(list, s.posted, status, s.nextHandle) && AnyEnded(list, games, now, banlist)
    requires i < |Survivors(MergeAll(list, games, now, banlist), now)|
    ensures var live := Survivors(MergeAll(list, games, now, banlist), now);
      var r := Refreshed(list, games, now, banlist, format, s);
      && r.list[i].0 == live[i].0 && r.list[i].1.game == live[i].1.game && r.list[i].1.message.Some?
      && Shown(r.list[i].1.message.value, r.chan.posted) && r.list[i].1.message.value.content == format(live[i].1.game, now)
      && s.nextHandle <= r.list[i].1.message.value.handle
  {
    var merged := MergeAll(list, games, now, banlist);
    var live := Survivors(merged, now);
    var ended := EndAll(merged, now, format, s);
    var shown := ClearMessages(live);
    var cleared := DeleteAll(live, ended);
    MergeAllTracked(list, games, now, banlist, s.posted, status, s.nextHandle);
    SurvivorsTracked(merged, now, format, s, status);
    assert Held(shown, cleared.posted, status, cleared.nextHandle);
    RenderAllKeeps(shown, Texts(shown, now, format), cleared, i);
    RenderAllShape(shown, Texts(shown, now, format), cleared, status, i);
  }

  /** A refresh in which no game ended: every game keeps the message it held, or gets a new
      one, and update_game_message's outcome decides what the channel shows. */
  lemma RefreshedShapeKept(list: GameList, games: seq<Game>, now: int, banlist: string, format: Formatter, s: Chan, status: Option<nat>, i: nat)
    requires Tracked(list, s.posted, status, s.nextHandle) && !AnyEnded(list, games, now, banlist)
    requires i < |Survivors(MergeAll(list, games, now, banlist), now)|
    ensures var live := Survivors(MergeAll(list, games, now, banlist), now);
      var r := Refreshed(list, games, now, banlist, format, s);
      var held := MessageOf(list, live[i].0);
      && r.list[i].0 == live[i].0 && r.list[i].1.game == live[i].1.game && r.list[i].1.message.Some?
      && Refreshes(held, r.list[i].1.message.value, format(live[i].1.game, now), s.posted, r.chan.posted)
      && if held.Some? then r.list[i].1.message.value.handle == held.value.handle
         else s.nextHandle <= r.list[i].1.message.value.handle
  {
    var merged := MergeAll(list, games, now, banlist);
    MergeAllTracked(list, games, now, banlist, s.posted, status, s.nextHandle);
    var live := Survivors(merged, now);
    assert live == merged;
    assert EndAll(merged, now, format, s) == s;
    RenderAllKeeps(live, Texts(live, now, format), s, i);
    RenderAllShape(live, Texts(live, now, format), s, status, i);
    Dicts.GetAt(merged, i);
    MergeAllMessages(list, games, now, banlist, live[i].0);
  }

  /** After a refresh the list holds exactly the surviving games, in their order, each with a
      message. When some game ended every message is new and shows its fresh text. Otherwise
      a new game's message is new and shows its fresh text, a game whose message was still on
      the channel keeps it and shows its fresh text, and a game whose message someone else
      deleted keeps that message, still off the channel. */
  lemma RefreshedShape(list: GameList, games: seq<Game>, now: int, banlist: string, format: Formatter, s: Chan, status: Option<nat>, i: nat)
    requires Tracked(list, s.posted, status, s.nextHandle)
    requires i < |Survivors(MergeAll(list, games, now, banlist), now)|
    ensures var live := Survivors(MergeAll(list, games, now, banlist), now);
      var r := Refreshed(list, games, now, banlist, format, s);
      var held := MessageOf(list, live[i].0);
      && r.list[i].0 == live[i].0 && r.list[i].1.game == live[i].1.game && r.list[i].1.message.Some?
      && Refreshes(if AnyEnded(list, games, now, banlist) then None else held, r.list[i].1.message.value,
                   format(live[i].1.game, now), s.posted, r.chan.posted)
      && if !AnyEnded(list, games, now, banlist) && held.Some? then r.list[i].1.message.value.handle == held.value.handle
         else s.nextHandle <= r.list[i].1.message.value.handle
  {
    if AnyEnded(list, games, now, banlist) {
      RefreshedShapeEnded(list, games, now, banlist, format, s, status, i);
    } else {
      RefreshedShapeKept(list, games, now, banlist, format, s, status, i);
    }
  }

  /** The channel after update_status_message: the old status message, if any, is deleted
      (NotFound is passed over), and `text` is sent. */
  function StatusPosted(status: Option<nat>, text: string, s: Chan): (r: Chan)
    ensures r.nextHandle == s.nextHandle + 1 && r.presence == s.presence
  {
    Sink.AfterSend(if status.Some? then Sink.AfterDelete(s, status.value) else s, text)
  }

  /** Renewing the status message takes the old one off the channel and shows the new one
      under a fresh handle; every game's message stays as it was on the channel, and the bot
      stays consistent with it. */
  lemma StatusKeepsGames(list: GameList, status: Option<nat>, text: string, s: Chan)
    requires Tracked(list, s.posted, status, s.nextHandle)
    ensures var r := StatusPosted(status, text, s);
      && Tracked(list, r.posted, Some(s.nextHandle), r.nextHandle)
      && (Sink.HandlesIssued(s) ==> Sink.HandlesIssued(r))
      && Shown(Message(s.nextHandle, text), r.posted)
      && (status.Some? ==> status.value !in r.posted)
      && forall i :: 0 <= i < |list| && list[i].1.message.Some? ==>
           (Shown(list[i].1.message.value, r.posted) <==> Shown(list[i].1.message.value, s.posted))
  {
    var r := StatusPosted(status, text, s);
    forall i | 0 <= i < |list| && list[i].1.message.Some?
      ensures var h := list[i].1.message.value.handle;
        (h in r.posted <==> h in s.posted) && (h in s.posted ==> r.posted[h] == s.posted[h])
    {
    }
  }

  /** The bot's state: `game_list`, `current_online`, `global_online_list_message` (by its
      handle) and the channel. */
  datatype BotState = BotState(list: GameList, online: int, status: Option<nat>, chan: Chan)

  /** The bot's invariant: every posted message's handle was handed out, and the bot is
      consistent with the channel. */
  ghost predicate Consistent(b: BotState) {
    Sink.HandlesIssued(b.chan) && Tracked(b.list, b.chan.posted, b.status, b.chan.nextHandle)
  }

  /** One round of background_task after the fetch `games`: the refresh, then a new status
      message and presence only when no game ended and the count of games changed. */
  function Cycle(b: BotState, games: seq<Game>, now: int, banlist: string, format: Formatter): BotState {
    var r := Refreshed(b.list, games, now, banlist, format, b.chan);
    var count := |r.list|;
    if b.online == count || AnyEnded(b.list, games, now, banlist) then BotState(r.list, b.online, b.status, r.chan)
    else
      BotState(r.list, count, Some(r.chan.nextHandle),
               Sink.AfterPresence(StatusPosted(b.status, StatusText(count), r.chan), PresenceText(count)))
  }

  /** A round keeps the bot's invariant. */
  lemma CycleConsistent(b: BotState, games: seq<Game>, now: int, banlist: string, format: Formatter)
    requires Consistent(b)
    ensures Consistent(Cycle(b, games, now, banlist, format))
  {
    RefreshedTracked(b.list, games, now, banlist, format, b.chan, b.status);
    var r := Refreshed(b.list, games, now, banlist, format, b.chan);
    StatusKeepsGames(r.list, b.status, StatusText(|r.list|), r.chan);
  }

  /** Someone else deleting a message, one of the bot's included, keeps the bot's
      invariant. */
  lemma WithdrawnConsistent(b: BotState, h: nat)
    requires Consistent(b)
    ensures Consistent(b.(chan := Sink.Withdrawn(b.chan, h)))
  {
    var posted := Sink.Withdrawn(b.chan, h).posted;
    forall i | 0 <= i < |b.list| && b.list[i].1.message.Some?
      ensures Agrees(b.list[i].1.message.value, posted)
    {
    }
  }

  /** After a round every game on the list holds a message. It is on the channel with the
      game's fresh text when some game ended, when the game is new, or when its message was
      still on the channel; otherwise (someone else deleted it) the game keeps that message,
      and it stays off the channel. */
  lemma CycleShows(b: BotState, games: seq<Game>, now: int, banlist: string, format: Formatter, i: nat)
    requires Consistent(b) && i < |Cycle(b, games, now, banlist, format).list|
    ensures var c := Cycle(b, games, now, banlist, format);
      var held := MessageOf(b.list, c.list[i].0);
      && c.list[i].1.message.Some?
      && Refreshes(if AnyEnded(b.list, games, now, banlist) then None else held, c.list[i].1.message.value,
                   format(c.list[i].1.game, now), b.chan.posted, c.chan.posted)
  {
    RefreshedShape(b.list, games, now, banlist, format, b.chan, b.status, i);
    RefreshedTracked(b.list, games, now, banlist, format, b.chan, b.status);
    var r := Refreshed(b.list, games, now, banlist, format, b.chan);
    StatusKeepsGames(r.list, b.status, StatusText(|r.list|), r.chan);
  }

  /** The status message and the presence are renewed exactly when no game ended and the
      count of games changed: the old status message is then off the channel, and the new
      one shows the count of surviving games. Otherwise count, status message and presence
      stay. */
  lemma CycleStatus(b: BotState, games: seq<Game>, now: int, banlist: string, format: Formatter)
    requires Consistent(b)
    ensures var c := Cycle(b, games, now, banlist, format);
      var count := |Survivors(MergeAll(b.list, games, now, banlist), now)|;
      && |c.list| == count
      && if !AnyEnded(b.list, games, now, banlist) && b.online != count then
           && c.online == count && c.status.Some?
           && Shown(Message(c.status.value, StatusText(count)), c.chan.posted)
           && c.chan.presence == PresenceText(count)
           && (b.status.Some? ==> b.status.value !in c.chan.posted)
         else c.online == b.online && c.status == b.status && c.chan.presence == b.chan.presence
  {
    RefreshedTracked(b.list, games, now, banlist, format, b.chan, b.status);
    var r := Refreshed(b.list, games, now, banlist, format, b.chan);
    StatusKeepsGames(r.list, b.status, StatusText(|r.list|), r.chan);
  }

  // ---------------------------------------------------------------- the bot

  /** The bot's state: `game_list`, `current_online`, `global_online_list_message` (by its
      handle) and the channel it posts to. */
  class Bot {
    var gameList: GameList
    var currentOnline: int
    var statusMessage: Option<nat>
    const channel: Sink.Channel<string>
    /** format_game; fixed by the constructor. */
    const formatter: Formatter

    function Snapshot(): BotState
      reads this, channel
    {
      BotState(gameList, currentOnline, statusMessage, channel.Snapshot())
    }

    ghost predicate Valid()
      reads this, channel
    {
      Consistent(Snapshot())
    }

    constructor (channel: Sink.Channel<string>)
      requires channel.Valid()
      ensures Valid() && gameList == [] && currentOnline == 0 && statusMessage == None && this.channel == channel
      ensures formatter == FormatGame
    {
      formatter := FormatGame;
      gameList := [];
      currentOnline := 0;
      statusMessage := None;
      this.channel := channel;
    }

    /** One pass of the merge loop of background_task. */
    method MergeOneGame(game: Game, now: int, banlist: string)
      modifies this
      ensures gameList == MergeGame(old(gameList), game, now, banlist)
      ensures currentOnline == old(currentOnline) && statusMessage == old(statusMessage)
    {
      var invalid := AnyPlayerNameIsInvalid(game.players);
      var banned := false;
      if !invalid {
        banned := AnyPlayerNameContainsABannedWord(game.players, banlist);
      }
      if invalid || banned {
        return;
      }
      var key := Text.Upper(game.id);
      var known := Dicts.Get(gameList, key);
      if known.Some? {
        gameList := Dicts.Put(gameList, key, known.value.(game := known.value.game.(players := game.players, lastSeen := now)));
      } else {
        gameList := Dicts.Put(gameList, key, Entry(game.(firstSeen := now, lastSeen := now), None));
      }
    }

    /** The merge loop of background_task over a fetch. */
    method MergeSnapshot(games: seq<Game>, now: int, banlist: string)
      modifies this
      ensures gameList == MergeAll(old(gameList), games, now, banlist)
      ensures currentOnline == old(currentOnline) && statusMessage == old(statusMessage)
    {
      var i := 0;
      while i < |games|
        invariant 0 <= i <= |games|
        invariant gameList == MergeAll(old(gameList), games[..i], now, banlist)
        invariant currentOnline == old(currentOnline) && statusMessage == old(statusMessage)
      {
        assert games[..i + 1][..i] == games[..i];
        MergeOneGame(games[i], now, banlist);
        i := i + 1;
      }
      assert games[..i] == games;
    }

    /** end_game_message for an ended game. */
    method EndGameMessage(e: Entry, now: int)
      requires channel.Valid()
      modifies channel
      ensures channel.Valid()
      ensures channel.Snapshot() == EndOne(e, now, formatter, old(channel.Snapshot()))
    {
      if e.message.Some? {
        var found := channel.Edit(e.message.value.handle, formatter(e.game, now));
      }
    }

    /** The marking loop of background_task's expiry: every ended game's key is collected
        and end_game_message called for it. */
    method MarkEnded(now: int) returns (ended: seq<string>)
      requires channel.Valid()
      modifies channel
      ensures channel.Valid()
      ensures ended == EndedKeys(gameList, now)
      ensures channel.Snapshot() == EndAll(gameList, now, formatter, old(channel.Snapshot()))
    {
      var items := gameList;
      ended := [];
      var i := 0;
      while i < |items|
        invariant 0 <= i <= |items| && channel.Valid()
        invariant ended == EndedKeys(items[..i], now)
        invariant channel.Snapshot() == EndAll(items[..i], now, formatter, old(channel.Snapshot()))
      {
        assert items[..i + 1][..i] == items[..i];
        var e := items[i].1;
        if Ended(e.game, now) {
          EndGameMessage(e, now);
          ended := ended + [items[i].0];
        }
        i := i + 1;
      }
      assert items[..i] == items;
    }

    /** `for key in ended_games: del game_list[key]`. */
    method DeleteKeys(keys: seq<string>)
      modifies this
      ensures gameList == Dicts.RemoveKeys(old(gameList), keys)
      ensures currentOnline == old(currentOnline) && statusMessage == old(statusMessage)
    {
      var j := 0;
      while j < |keys|
        invariant 0 <= j <= |keys|
        invariant gameList == Dicts.RemoveKeys(old(gameList), keys[..j])
        invariant currentOnline == old(currentOnline) && statusMessage == old(statusMessage)
      {
        assert keys[..j + 1][..j] == keys[..j];
        gameList := Dicts.Remove(gameList, keys[j]);
        j := j + 1;
      }
      assert keys[..j] == keys;
    }

    /** The expiry of background_task: end_game_message for every ended game, then the ended
        games are deleted from `game_list`. */
    method EndGames(now: int) returns (ended: seq<string>)
      requires channel.Valid()
      modifies this, channel
      ensures channel.Valid()
      ensures ended == EndedKeys(old(gameList), now)
      ensures gameList == Survivors(old(gameList), now)
      ensures channel.Snapshot() == EndAll(old(gameList), now, formatter, old(channel.Snapshot()))
      ensures currentOnline == old(currentOnline) && statusMessage == old(statusMessage)
    {
      ended := MarkEnded(now);
      DeleteKeys(ended);
    }

    /** remove_game_messages for the game at index `i`: its message, if any, is deleted
        (NotFound passed over) and forgotten. */
    method RemoveGameMessage(i: nat)
      requires channel.Valid() && i < |gameList|
      modifies this, channel
      ensures channel.Valid()
      ensures var (key, e) := old(gameList)[i];
        && gameList == old(gameList)[i := (key, e.(message := None))]
        && channel.Snapshot() == ClearOne(e, old(channel.Snapshot()))
      ensures currentOnline == old(currentOnline) && statusMessage == old(statusMessage)
    {
      var (key, e) := gameList[i];
      if e.message.Some? {
        var found := channel.Delete(e.message.value.handle);
        gameList := gameList[i := (key, e.(message := None))];
      } else {
        assert gameList[i := (key, e.(message := None))] == gameList;
      }
    }

    /** remove_game_messages over every key of `game_list`: every game's message is deleted
        and forgotten; the games stay. */
    method RemoveGameMessages()
      requires channel.Valid()
      modifies this, channel
      ensures channel.Valid()
      ensures gameList == ClearMessages(old(gameList))
      ensures channel.Snapshot() == DeleteAll(old(gameList), old(channel.Snapshot()))
      ensures currentOnline == old(currentOnline) && statusMessage == old(statusMessage)
    {
      var items := gameList;
      var i := 0;
      while i < |items|
        invariant 0 <= i <= |items| && channel.Valid()
        invariant gameList == ClearMessages(items[..i]) + items[i..]
        invariant channel.Snapshot() == DeleteAll(items[..i], old(channel.Snapshot()))
        invariant currentOnline == old(currentOnline) && statusMessage == old(statusMessage)
      {
        ClearStep(items, i, old(channel.Snapshot()), gameList);
        RemoveGameMessage(i);
        i := i + 1;
      }
      assert items[..i] == items;
      assert gameList == ClearMessages(items) + [];
    }

    /** update_game_message for the game at index `i`, as corrected: `Update` with the
        game's fresh text. */
    method UpdateGameMessage(i: nat, now: int)
      requires channel.Valid() && i < |gameList|
      modifies this, channel
      ensures channel.Valid()
      ensures var (key, e) := old(gameList)[i];
        var u := Update(e, formatter(e.game, now), old(channel.Snapshot()));
        && gameList == old(gameList)[i := (key, e.(message := Some(u.message)))]
        && channel.Snapshot() == u.chan
      ensures currentOnline == old(currentOnline) && statusMessage == old(statusMessage)
    {
      var (key, e) := gameList[i];
      var text := formatter(e.game, now);
      if e.message.Some? {
        var m := e.message.value;
        assert gameList[i := (key, e.(message := Some(m)))] == gameList;
        if m.content != text {
          var found := channel.Edit(m.handle, text);
          if found {
            gameList := gameList[i := (key, e.(message := Some(m.(content := text))))];
          }
        }
      } else {
        var h := channel.Send(text);
        gameList := gameList[i := (key, e.(message := Some(Message(h, text))))];
      }
    }

    /** One turn of the update loop: game `i` is updated, extending the rendered prefix. */
    method UpdateNext(ghost items: GameList, ghost texts: seq<string>, i: nat, now: int, ghost s: Chan)
      requires channel.Valid() && i < |items| <= |texts| && texts[i] == formatter(items[i].1.game, now)
      requires var r := RenderAll(items[..i], texts, s);
        gameList == r.list + items[i..] && channel.Snapshot() == r.chan
      modifies this, channel
      ensures channel.Valid()
      ensures var r := RenderAll(items[..i + 1], texts, s);
        gameList == r.list + items[i + 1..] && channel.Snapshot() == r.chan
      ensures currentOnline == old(currentOnline) && statusMessage == old(statusMessage)
    {
      RenderStep(items, i, texts, s, gameList);
      UpdateGameMessage(i, now);
    }

    /** The update loop of background_task: update_game_message for every key, in order. */
    method UpdateGameMessages(now: int)
      requires channel.Valid()
      modifies this, channel
      ensures channel.Valid()
      ensures var r := RenderAll(old(gameList), Texts(old(gameList), now, formatter), old(channel.Snapshot()));
        gameList == r.list && channel.Snapshot() == r.chan
      ensures currentOnline == old(currentOnline) && statusMessage == old(statusMessage)
    {
      var items := gameList;
      ghost var texts := Texts(items, now, formatter);
      ghost var s := channel.Snapshot();
      assert items[..0] == [] && items[0..] == items;
      var i := 0;
      while i < |items|
        invariant 0 <= i <= |items| && channel.Valid()
        invariant var r := RenderAll(items[..i], texts, s);
          gameList == r.list + items[i..] && channel.Snapshot() == r.chan
        invariant currentOnline == old(currentOnline) && statusMessage == old(statusMessage)
      {
        UpdateNext(items, texts, i, now, s);
        i := i + 1;
      }
      assert items[..i] == items && items[i..] == [];
    }

    /** update_status_message: `StatusPosted` with the count of public games, the new status
        message under the first free handle. */
    method UpdateStatusMessage()
      requires channel.Valid()
      modifies this, channel
      ensures channel.Valid()
      ensures gameList == old(gameList) && currentOnline == old(currentOnline)
      ensures statusMessage == Some(old(channel.nextHandle))
      ensures channel.Snapshot() == StatusPosted(old(statusMessage), StatusText(currentOnline), old(channel.Snapshot()))
    {
      if statusMessage.Some? {
        var found := channel.Delete(statusMessage.value);
        statusMessage := None;
      }
      var h := channel.Send(StatusText(currentOnline));
      statusMessage := Some(h);
    }

    /** The refresh of background_task on the snapshot `games`, up to the status message. */
    method Refresh(games: seq<Game>, now: int, banlist: string) returns (anyEnded: bool)
      requires Valid()
      modifies this, channel
      ensures Valid()
      ensures anyEnded == AnyEnded(old(gameList), games, now, banlist)
      ensures var r := Refreshed(old(gameList), games, now, banlist, formatter, old(channel.Snapshot()));
        gameList == r.list && channel.Snapshot() == r.chan
      ensures currentOnline == old(currentOnline) && statusMessage == old(statusMessage)
    {
      MergeSnapshot(games, now, banlist);
      var ended := EndGames(now);
      ghost var live := gameList;
      ghost var afterEnd := channel.Snapshot();
      anyEnded := ended != [];
      if anyEnded {
        RemoveGameMessages();
      }
      assert gameList == if anyEnded then ClearMessages(live) else live;
      assert channel.Snapshot() == if anyEnded then DeleteAll(live, afterEnd) else afterEnd;
      UpdateGameMessages(now);
      RefreshedTracked(old(gameList), games, now, banlist, formatter, old(channel.Snapshot()), statusMessage);
    }

    /** One round of background_task, with the game-list program's output parsed into
        `fetched` (None when it printed nothing or timed out) and `time.time()` as `now`:
        nothing changes without a fetch, and otherwise the state becomes `Cycle` of it. */
    method BackgroundStep(fetched: Option<seq<Game>>, now: int, banlist: string)
      requires Valid()
      modifies this, channel
      ensures Valid()
      ensures Snapshot() == if fetched.None? then old(Snapshot()) else Cycle(old(Snapshot()), fetched.value, now, banlist, formatter)
    {
      if fetched.Some? {
        var anyEnded := Refresh(fetched.value, now, banlist);
        if currentOnline != |gameList| && !anyEnded {
          currentOnline := |gameList|;
          UpdateStatusMessage();
          channel.ChangePresence(PresenceText(currentOnline));
        }
        CycleConsistent(old(Snapshot()), fetched.value, now, banlist, formatter);
      }
    }
  }
}
