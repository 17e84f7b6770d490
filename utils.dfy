/** utils.py: the embed `format_game_embed` builds for a game, and the `is_admin` check.
    A game is the dict the bot keeps for it: the JSON object the game-list program
    printed, with the bot's own entries (timestamps, the posted message) added. */
module Utils {
  import opened Wrappers
  import Text
  import Dicts

  // ---------------------------------------------------------------- Python values

  /** A value held in a game dict. `MessageRef` is the Discord message object a bot stores
      under `"message"`, known by its handle. */
  datatype Value =
    | Null
    | Bool(b: bool)
    | Num(n: int)
    | Str(s: string)
    | List(items: seq<Value>)
    | Dict(entries: seq<(string, Value)>)
    | MessageRef(handle: nat)

  /** A dict of values, as its entries in insertion order. */
  type Entries = Dicts.Items<Value>

  /** Python truthiness: `None`, `False`, `0` and empty strings, lists and dicts are false;
      every object is true. */
  predicate Truthy(v: Value) {
    match v
    case Null => false
    case Bool(b) => b
    case Num(n) => n != 0
    case Str(s) => s != ""
    case List(items) => items != []
    case Dict(entries) => entries != []
    case MessageRef(_) => true
  }

  // ---------------------------------------------------------------- configuration

  /** The entries of config.json that the embed and the admin check read. */
  datatype Config = Config(
    gameTypes: map<string, string>,
    difficulties: seq<string>,
    tickRates: map<string, string>,
    gameOptions: map<string, string>,
    gameTtl: int,
    botOwners: seq<int>)

  // ---------------------------------------------------------------- is_admin

  /** The user behind an interaction: a guild member, with their administrator
      permission, or some other kind of user. */
  datatype User = Member(id: int, administrator: bool) | OtherUser(id: int)

  /** is_admin. */
  predicate IsAdmin(user: User, config: Config) {
    user.Member? && (user.administrator || user.id in config.botOwners)
  }

  /** Only members can be admins; a member is one exactly when they hold the
      administrator permission or are listed as a bot owner. */
  lemma IsAdminCases(user: User, config: Config)
    ensures user.OtherUser? ==> !IsAdmin(user, config)
    ensures user.Member? && user.id in config.botOwners ==> IsAdmin(user, config)
    ensures user.Member? && !user.administrator ==> (IsAdmin(user, config) <==> user.id in config.botOwners)
  {
  }

  // ---------------------------------------------------------------- format_game_embed

  datatype Colour = Green | Red

  /** The embed format_game_embed returns: its colour, its one field and, when the
      type's image exists, the thumbnail URL. It has no title and no author. */
  datatype Embed = Embed(colour: Colour, fieldName: string, fieldValue: string, inline: bool, thumbnail: Option<string>)

  /** The game dict entries format_game_embed reads, with the types it needs of them. */
  predicate EmbeddableGame(game: Entries) {
    && Dicts.Get(game, "id").Some? && Dicts.Get(game, "id").value.Str?
    && Dicts.Get(game, "type").Some? && Dicts.Get(game, "type").value.Str?
    && Dicts.Get(game, "version").Some? && Dicts.Get(game, "version").value.Str?
    && Dicts.Get(game, "difficulty").Some? && Dicts.Get(game, "difficulty").value.Num?
    && Dicts.Get(game, "tick_rate").Some? && Dicts.Get(game, "tick_rate").value.Num?
    && Dicts.Get(game, "last_seen").Some? && Dicts.Get(game, "last_seen").value.Num?
    && Dicts.Get(game, "players").Some? && Dicts.Get(game, "players").value.List?
    && forall i :: 0 <= i < |Dicts.Get(game, "players").value.items| ==> Dicts.Get(game, "players").value.items[i].Str?
  }

  /** The players' names as strings. */
  function Names(items: seq<Value>): (names: seq<string>)
    requires forall i :: 0 <= i < |items| ==> items[i].Str?
    ensures |names| == |items| && forall i :: 0 <= i < |items| ==> names[i] == items[i].s
  {
    if items == [] then [] else [items[0].s] + Names(items[1..])
  }

  /** `config["difficulties"][d]` for a listed difficulty, else "Unknown". */
  function DifficultyText(config: Config, d: int): string {
    if 0 <= d < |config.difficulties| then config.difficulties[d] else "Unknown"
  }

  /** `config["tick_rates"].get(str(rate), f"Custom ({rate})")`. */
  function SpeedText(config: Config, rate: int): string {
    var key := Text.IntToString(rate);
    if key in config.tickRates then config.tickRates[key] else "Custom (" + key + ")"
  }

  /** `config["game_types"].get(type, "Unknown Game")`. */
  function TitleText(config: Config, gameType: string): string {
    if gameType in config.gameTypes then config.gameTypes[gameType] else "Unknown Game"
  }

  /** The option names, in the game's key order, of every key whose value is truthy and
      that `game_options` lists. */
  function Options(game: Entries, config: Config): seq<string> {
    if game == [] then []
    else
      var (k, v) := game[0];
      (if Truthy(v) && k in config.gameOptions then [config.gameOptions[k]] else []) + Options(game[1..], config)
  }

  /** `", ".join(options) if options else "None"`. */
  function OptionsText(options: seq<string>): string {
    if options == [] then "None" else Text.Join(", ", options)
  }

  const GameLabel := "\U{1F3AE} "
  const PlayersLabel := "\U{1F465} "
  const DifficultyLabel := "\U{1F6E1}\U{FE0F} "
  const SpeedSeparator := " | \U{26A1} "
  const OptionsLabel := "\U{1F6E0}\U{FE0F} "
  const ClosedName := "\U{274C} (Closed)"

  /** The four lines of the field value. */
  function InfoText(title: string, version: string, players: string, difficulty: string, speed: string, options: string): string {
    GameLabel + title + " (" + version + ")\n"
      + PlayersLabel + players + "\n"
      + DifficultyLabel + difficulty + SpeedSeparator + speed + "\n"
      + OptionsLabel + options
  }

  /** `now - game["last_seen"] >= config["game_ttl"]`. */
  predicate Expired(game: Entries, config: Config, now: int)
    requires EmbeddableGame(game)
  {
    now - Dicts.Get(game, "last_seen").value.n >= config.gameTtl
  }

  /** format_game_embed, with `time.time()` as `now` and the existence of
      `images/<type>.png` as `imageExists`. */
  function FormatGameEmbed(game: Entries, config: Config, now: int, imageExists: bool): (e: Embed)
    requires EmbeddableGame(game)
    ensures e.colour == Red <==> Expired(game, config, now)
    ensures e.fieldName == if Expired(game, config, now) then ClosedName else Text.Upper(Dicts.Get(game, "id").value.s)
    ensures !e.inline
    ensures e.thumbnail.Some? <==> imageExists
  {
    var gameType := Dicts.Get(game, "type").value.s;
    var names := Names(Dicts.Get(game, "players").value.items);
    var info := InfoText(
      TitleText(config, gameType),
      Dicts.Get(game, "version").value.s,
      Text.Join(", ", names),
      DifficultyText(config, Dicts.Get(game, "difficulty").value.n),
      SpeedText(config, Dicts.Get(game, "tick_rate").value.n),
      OptionsText(Options(game, config)));
    var expired := Expired(game, config, now);
    Embed(
      if expired then Red else Green,
      if expired then ClosedName else Text.Upper(Dicts.Get(game, "id").value.s),
      info,
      false,
      if imageExists then Some("attachment://" + gameType + ".png") else None)
  }

  // ---------------------------------------------------------------- properties of the texts

  /** Entry `i` of the game shows the option text `name`. */
  predicate ShowsAt(game: Entries, config: Config, i: nat, name: string)
    requires i < |game|
  {
    Truthy(game[i].1) && game[i].0 in config.gameOptions && config.gameOptions[game[i].0] == name
  }

  /** An option is shown exactly when some key of the game has a truthy value and is a
      configured option with that text; there are never more options than keys. */
  lemma {:induction false} OptionsShown(game: Entries, config: Config, name: string)
    ensures |Options(game, config)| <= |game|
    ensures name in Options(game, config) <==> exists i :: 0 <= i < |game| && ShowsAt(game, config, i, name)
  {
    if game != [] {
      OptionsShown(game[1..], config, name);
      var (k, v) := game[0];
      var head := if Truthy(v) && k in config.gameOptions then [config.gameOptions[k]] else [];
      assert Options(game, config) == head + Options(game[1..], config);
      assert name in head <==> ShowsAt(game, config, 0, name);
      forall j | 0 <= j < |game| - 1
        ensures ShowsAt(game[1..], config, j, name) == ShowsAt(game, config, j + 1, name)
      {
        assert game[1..][j] == game[j + 1];
      }
      if exists i :: 0 <= i < |game| && ShowsAt(game, config, i, name) {
        var i :| 0 <= i < |game| && ShowsAt(game, config, i, name);
        if i > 0 {
          assert ShowsAt(game[1..], config, i - 1, name);
        }
      }
      if name in Options(game[1..], config) {
        var j :| 0 <= j < |game| - 1 && ShowsAt(game[1..], config, j, name);
        assert ShowsAt(game, config, j + 1, name);
      }
    }
  }

  /** An unconfigured speed is shown as "Custom (N)" with N in decimal, which never
      loses the rate: two unconfigured rates with the same text are equal. */
  lemma SpeedFallbackFaithful(config: Config, a: int, b: int)
    requires Text.IntToString(a) !in config.tickRates && Text.IntToString(b) !in config.tickRates
    requires SpeedText(config, a) == SpeedText(config, b)
    ensures a == b
  {
    var ka, kb := Text.IntToString(a), Text.IntToString(b);
    assert ka == SpeedText(config, a)[8..|SpeedText(config, a)| - 1];
    assert kb == SpeedText(config, b)[8..|SpeedText(config, b)| - 1];
    Text.IntToStringInjective(a, b);
  }

  /** The field value is four lines, the first starting with the game label, when none
      of the parts holds a line break. */
  lemma InfoTextLines(title: string, version: string, players: string, difficulty: string, speed: string, options: string)
    requires '\n' !in title && '\n' !in version && '\n' !in players
    requires '\n' !in difficulty && '\n' !in speed && '\n' !in options
    ensures var t := InfoText(title, version, players, difficulty, speed, options);
      Text.StartsWith(t, GameLabel) && Text.Count('\n', t) == 3
  {
    var line1 := GameLabel + title + " (" + version + ")";
    var line2 := PlayersLabel + players;
    var line3 := DifficultyLabel + difficulty + SpeedSeparator + speed;
    var line4 := OptionsLabel + options;
    var t := InfoText(title, version, players, difficulty, speed, options);
    assert t == line1 + ("\n" + (line2 + ("\n" + (line3 + ("\n" + line4)))));
    assert t[..|GameLabel|] == GameLabel;
    Text.CountAbsent('\n', line1);
    Text.CountAbsent('\n', line2);
    Text.CountAbsent('\n', line3);
    Text.CountAbsent('\n', line4);
    Text.CountConcat('\n', line3, "\n" + line4);
    Text.CountConcat('\n', "\n", line4);
    Text.CountConcat('\n', line2, "\n" + (line3 + ("\n" + line4)));
    Text.CountConcat('\n', "\n", line3 + ("\n" + line4));
    Text.CountConcat('\n', line1, "\n" + (line2 + ("\n" + (line3 + ("\n" + line4)))));
    Text.CountConcat('\n', "\n", line2 + ("\n" + (line3 + ("\n" + line4))));
  }
}
