# devilutionx-gamelist, modelled in Dafny

devilutionx-gamelist publishes the public DevilutionX games of a ZeroTier network on
Discord. Two parts make up the system.

* A collector, `main.cpp`, asks for game info on the DevilutionX multicast group. It
  decodes each game-info reply and keeps the latest reply per game id. It never exits:
  every five seconds it writes the games, together with the player names seen in the
  games' own TCP traffic, to `gamelist.json` as one object (`games`,
  `player_sightings`), and its standard output carries only log lines.
* Two bots run a game-list program and read a JSON list of games from its standard
  output within 30 seconds. That is an earlier output format than the collector above
  has (see "## Left out"). The bots merge the games into a `game_list` keyed by the
  upper-cased game id, close the games not seen for a time-to-live and keep the channel
  in step:
  * `discord_bot.py` posts one plain-text message per game and a status message;
  * `game_manager.py` with `utils.py` posts one embed per game.

  `stats.py` keeps per-"type (version)" play statistics.

The project has one module per source file:

| module | file | models |
|---|---|---|
| `Decoder` | `main.cpp` | `decode` and `makeVersionString`, the player-info check of `process_pt_message`, the TCP frame walk, and the collection and hand-over of replies and sightings |
| `DiscordBot` | `discord_bot.py` | `format_game`, `format_time_delta`, escaping, the name checks, and one refresh of `background_task` as the class `Bot` |
| `GameManager` | `game_manager.py` | `fetch_game_list` with retries, and `refresh_game_list` as the class `Manager` |
| `Utils` | `utils.py` | `format_game_embed` and `is_admin` |
| `Stats` | `stats.py` | the statistics table as the class `Statistics`, and the window query |

Four modules are shared:

* `Dicts`: Python dicts as ordered entry lists.
* `Text`: `str(int)`, `upper`, `join`, `split` and `strip`.
* `Sink`: the Discord channel, with posted messages by handle, a log of every call, and
  deletions by others (a moderator, say) that the bot meets as NotFound.
* `Wrappers`: `Option`.

Each imperative part of the source is a class whose methods change its fields. Each such
method is proved against a specification function: `MergeAll`, `Survivors`,
`RenderAll`, `Refreshed`, `Collect`, `PtBodies`, `WithNewGame` and `WithPlaytime`. The
properties that matter are proved about those functions:

* merge and expiry semantics;
* every surviving game showing its fresh text, unless someone else deleted its message;
* the bot staying consistent with a channel that others also delete from;
* the decode/encode round trip;
* the latest reply winning;
* statistics windows.

`decode` reads an optional field only when `SIZE_NEEDED` of the field, which counts the
3-byte header, is at most the declared GameData size. The model keeps that comparison as
written. `Decoder.PackedSizeLeavesLastFlagsUnset` shows what follows from it: a reply
that declares exactly the 22 bytes of the packed struct leaves its last three flags
unread. Whether senders declare more is not visible here.

## Model

| member | source | states |
|---|---|---|
| `Decoder.I32At` | main.cpp:524-527 | the declared size is the four bytes as a two's-complement 32-bit value, so it lies in the int32 range |
| `Decoder.VersionStringFits` | main.cpp:477-505 | "major.minor.patch" always fits the 12-character buffer, so the `to_chars` error branches are never taken |
| `Decoder.VersionStringInjective` | main.cpp:477-505 | the version text determines the three version bytes |
| `Decoder.UntilNul` | main.cpp:567 | a slot name is the prefix of the slot before its first NUL, with no NUL in it |
| `Decoder.SlotName` | main.cpp:564-567 | slot `i`'s name is at most 32 bytes and NUL-free |
| `Decoder.SlotNames` | main.cpp:564-567 | the names of the four slots, each bounded |
| `Decoder.NonEmpty` | main.cpp:568-569 | only the non-empty names are kept, never more than were given |
| `Decoder.NonEmptyBounded` | main.cpp:564-570 | filtering keeps every name between 1 and 32 bytes and NUL-free |
| `Decoder.PlayersUpTo` | main.cpp:564-570 | the players are the non-empty names of the first `n` slots, at most `n` |
| `Decoder.Decode` | main.cpp:507-573 | a reply shorter than the header, not an InfoReply, with the wrong source/destination, or too short for its declared size is rejected; an accepted one has a non-negative size, enough bytes, at most four players and as id exactly the bytes after the slots |
| `Decoder.DecodeReply` | main.cpp:507-573 | the imperative decode (checks in source order, slot loop) returns exactly `Decode` |
| `Decoder.DecodedPlayersBounded` | main.cpp:564-570 | a decoded reply has at most four players, each 1 to 32 bytes and NUL-free |
| `Decoder.DecodeEncode` | main.cpp:524-570 | decoding a reply a host encodes gives back every field its declared size admits, the player names in slot order and the id |
| `Decoder.PackedSizeLeavesLastFlagsUnset` | main.cpp:539-562 | with a declared size of 22, seed, type and the theo flag are read back while the cow quest, friendly fire and full quests flags stay unset |
| `Decoder.NegativeSizeReadsBeforeData` | main.cpp:524-532 | a 31-byte reply declaring size -100 passes the source's wrapped length check with its first slot 97 bytes before the data; `Decode` rejects it |
| `Decoder.DecodeCheckedSizeAgrees` | main.cpp:524-529 | for a non-negative size the source's length check is exactly `Decode`'s, and the slots start inside the data |
| `Decoder.PtIdentity` | main.cpp:45-77 | an identity is found exactly when the message is long enough and carries the 'p','i' check bytes, an ACK or SEND player-info command and a zero offset; it has the source address and the name field up to its first NUL: a NUL-free prefix of the 32-byte field, followed by a NUL when shorter than the field |
| `Decoder.ShortFrameUnderflows` | main.cpp:55-58 | a one-byte PT_MESSAGE frame reaches `process_pt_message` with `len - 3` wrapped past the length check; `PtIdentity` rejects it |
| `Decoder.TPktLengthAgrees` | main.cpp:56-58 | for messages of three bytes or more the wrapped `len - 3` is the true length |
| `Decoder.PtBodiesAreMessages` | main.cpp:134-147 | every body handed on starts with PT_MESSAGE and is non-empty |
| `Decoder.ConsumedWithinPayload` | main.cpp:134-147 | the frame walk never steps past the end of the payload |
| `Decoder.FrameStep` | main.cpp:137-146 | a complete frame yields its body when it is a PT_MESSAGE and the walk goes on after it |
| `Decoder.FrameStop` | main.cpp:135-139 | a zero length or a frame longer than what is left ends the walk |
| `Decoder.WalkFrames` | main.cpp:134-147 | the loop over the payload hands on exactly `PtBodies` and consumes exactly `Consumed` |
| `Decoder.IdentitiesFromSource` | main.cpp:69-76 | every identity found in a packet carries its source address and a name of at most 32 bytes, at most one per body |
| `Decoder.SightingLog.constructor` | main.cpp:35 | the sighting log starts empty |
| `Decoder.SightingLog.ProcessPtMessage` | main.cpp:45-77 | the log grows by the message's identity, if any |
| `Decoder.SightingLog.ProcessTcpPayload` | main.cpp:134-147 | the log grows by the identities of the frame bodies, in frame order |
| `Decoder.SightingLog.GetPlayerSightings` | main.cpp:462-468 | everything logged is handed over and the log is emptied |
| `Decoder.CollectLatestWins` | main.cpp:622-627 | after collection each id maps to its latest decoded reply; an id no reply carries keeps its earlier entry or stays absent |
| `Decoder.GameCollector.constructor` | main.cpp:598-600 | no games and zero counters at start |
| `Decoder.GameCollector.ReceiveReplies` | main.cpp:620-628 | the games become `Collect` of the datagrams and the reply counter grows by the number that decode |
| `Decoder.GameCollector.Publish` | main.cpp:630-661 | the sightings are drained and counted; games and sightings are written and the games forgotten exactly when there is something to report and the file could be created |
| `Decoder.DecodedCount` | main.cpp:624-626 | never more replies counted than datagrams received |
| `Text.NatToStringRoundTrip` | discord_bot.py:99 | `str(n)` loses nothing: its digits read back as `n` |
| `Text.IntToStringInjective` | discord_bot.py:71 | different integers have different `str` texts |
| `Text.Upper` | discord_bot.py:34 | upper-casing keeps the length and maps each character through ASCII upper-casing |
| `Text.SplitJoin` | discord_bot.py:203 | joining the pieces of `split('\n')` with the separator gives back the text |
| `Text.StripEmptyIff` | discord_bot.py:203 | a line is blank after `strip()` exactly when it is all whitespace |
| `Dicts.PutGet` | discord_bot.py:260 | after `d[k] = v` the key reads `v`, other keys read as before, and a new key goes last |
| `Dicts.RemoveKeysGet` | discord_bot.py:271-272 | after deleting the keys `ks` exactly those read as absent and the rest read as before |
| `DiscordBot.Escape` | discord_bot.py:25-26 | the escaped text is one character longer per formatting character |
| `DiscordBot.UnescapeEscape` | discord_bot.py:25-26 | escaping loses nothing: the name can be read back |
| `DiscordBot.FormatTimeDeltaShape` | discord_bot.py:139-157 | under an hour the minutes alone; otherwise the whole hours, then " and " with the remaining minutes only when there are some |
| `DiscordBot.FormatTimeDeltaOneAnd` | discord_bot.py:145-157 | the text holds at most one " and ", and for an hour or more one exactly when the minutes are not a whole hour |
| `DiscordBot.FormatTimeDelta90` | discord_bot.py:139-157 | 90 minutes read "1 hour and 30 minutes" |
| `DiscordBot.FormatTimeDelta125` | discord_bot.py:139-157 | 125 minutes read "2 hours and 5 minutes" |
| `DiscordBot.FormatTimeDelta120` | discord_bot.py:146-157 | 120 minutes read "2 hours" |
| `DiscordBot.FormatTimeDeltaBelowTwo` | discord_bot.py:140-141 | anything under two minutes reads "1 minute" |
| `DiscordBot.HoursAndMinutes` | discord_bot.py:145-157 | `h` hours and `m` minutes read as the hours text and, when `m > 0`, " and " with the minutes text |
| `DiscordBot.AnyPlayerNameIsInvalid` | discord_bot.py:184-198 | true exactly when some name holds a forbidden character or one outside printable ASCII |
| `DiscordBot.BannedWordsShape` | discord_bot.py:202-203 | every banned word is non-empty and upper-case |
| `DiscordBot.ContainsAWord` | discord_bot.py:206-208 | true exactly when some word occurs in the upper-cased name |
| `DiscordBot.AnyNameHasAWord` | discord_bot.py:205-208 | true exactly when some word occurs in some upper-cased name |
| `DiscordBot.AnyPlayerNameContainsABannedWord` | discord_bot.py:201-210 | true exactly when a banned word of the banlist text occurs in some upper-cased name |
| `DiscordBot.EscapeAll` | discord_bot.py:98 | each name is escaped, in order |
| `DiscordBot.RoundMinutes` | discord_bot.py:101 | the nearest whole minute, an exact half going to the even one, as Python's `round` |
| `DiscordBot.StartedLine` | discord_bot.py:99 | the start line ends with the timestamp's closing `>` |
| `DiscordBot.EndedLine` | discord_bot.py:101 | the "Ended after" line ends with a backtick |
| `DiscordBot.Running` | discord_bot.py:37-99 | the text after the id of a running game ends with the start time |
| `DiscordBot.Body` | discord_bot.py:37-101 | after the id the text ends with the "Ended after" line once the game has ended, with the start time before |
| `DiscordBot.HeaderFirst` | discord_bot.py:33-36 | the header, struck through or bold, starts the text |
| `DiscordBot.FormatGameHeader` | discord_bot.py:29-36 | the id is shown upper-cased, struck through exactly when the game has ended and bold otherwise |
| `DiscordBot.FormatGameEnding` | discord_bot.py:99-101 | the text ends with a backtick exactly when the game has ended, and then with the "Ended after" line |
| `DiscordBot.TickTextShape` | discord_bot.py:61-71 | the named speeds give "" or an "F…" word; any other gives " speed: " and its number |
| `DiscordBot.TickTextInjective` | discord_bot.py:61-71 | different speeds never read the same |
| `DiscordBot.DifficultyTextNamed` | discord_bot.py:73-79 | only difficulties 0 to 2 add a word |
| `DiscordBot.AttributesListed` | discord_bot.py:81-96 | each option is listed exactly when set, the theo and cow quests only for a type other than DRTL, and the parenthesis is omitted exactly when none is listed |
| `DiscordBot.StatusTextWording` | discord_bot.py:116-118 | the singular wording is used exactly for one game |
| `DiscordBot.PutEntry` | discord_bot.py:255-262 | storing an entry changes only that key's game and message; a known key keeps its place and a new one goes last |
| `DiscordBot.MergeAll` | discord_bot.py:250-262 | the merge keeps the keys unique |
| `DiscordBot.MergeGameEffect` | discord_bot.py:250-262 | a rejected game changes nothing; a known one gets the fetched players and `last_seen = now` and keeps its message and place; a new one goes last with `first_seen = last_seen = now` and no message; no other key changes |
| `DiscordBot.MergeAllSkipsRejected` | discord_bot.py:251-252 | a key whose every fetched game is rejected is neither created nor updated |
| `DiscordBot.EndedKeysMember` | discord_bot.py:264-268 | a key is marked exactly when its game was last seen `gameTTL` or more seconds ago |
| `DiscordBot.SurvivorsGet` | discord_bot.py:264-272 | exactly the ended games are removed, the others kept unchanged, and every survivor was seen within `gameTTL` |
| `DiscordBot.RefreshCellAsWritten` | discord_bot.py:126-134 | as written the held content never changes, and the channel is edited whenever the new text differs from the held one |
| `DiscordBot.RefreshCell` | discord_bot.py:126-134 | as corrected, a message in step with the bot shows and holds the new text |
| `DiscordBot.RefreshCellsShowLatest` | discord_bot.py:123-136 | as corrected, after any run of refreshes the message shows the latest text and stays in step |
| `DiscordBot.StaleAfterRevert` | discord_bot.py:123-136 | as written, text `a`, then `b`, then `a` again leaves the channel showing `b`; as corrected it shows `a` |
| `DiscordBot.EndOne` | discord_bot.py:160-168 | the message of an ended game, when still posted, shows the final text; a message gone from the channel (NotFound) leaves it as it was; no handle is added or removed |
| `DiscordBot.EndAll` | discord_bot.py:264-269 | the marking loop adds and removes no message, and changes nothing when no game ended |
| `DiscordBot.EndAllFrame` | discord_bot.py:264-269 | a message that is no ended game's is left as it was by the marking loop |
| `DiscordBot.EndAllShowsFinal` | discord_bot.py:264-269 | every ended game whose message is still posted shows its final text after the marking loop |
| `DiscordBot.ClearMessages` | discord_bot.py:171-181 | every game stays, in place, without its message |
| `DiscordBot.ClearOne` | discord_bot.py:173-181 | one game's message is off the channel afterwards, whether it was deleted now or was already gone (NotFound); no message is added |
| `DiscordBot.DeleteAll` | discord_bot.py:171-181 | after remove_game_messages no game's message is on the channel, and no message was added |
| `DiscordBot.ClearStep` | discord_bot.py:172-181 | deleting one more game's message extends the cleared prefix and the channel's deletions by one |
| `DiscordBot.Update` | discord_bot.py:123-136 | a new game's message goes out under the first free handle; a held message keeps its handle; a new message, or one still posted and in step, shows the fresh text; a message gone from the channel (NotFound) stays gone and unchanged |
| `DiscordBot.UpdateFrame` | discord_bot.py:123-136 | update_game_message touches no other message on the channel |
| `DiscordBot.Texts` | discord_bot.py:125 | the fresh text of every game, by position |
| `DiscordBot.RenderAll` | discord_bot.py:277-278 | the update loop keeps the number of games and never lowers the next handle |
| `DiscordBot.RenderAllKeeps` | discord_bot.py:277-278 | after the update loop each game keeps its key, place and game and holds a message: the one it had, or a new one under a fresh handle |
| `DiscordBot.RenderAllPosts` | discord_bot.py:277-278 | the update loop adds only messages under fresh handles |
| `DiscordBot.RenderAllFrame` | discord_bot.py:277-278 | a message that belongs to no game, such as the status message, is left as it was by the update loop |
| `DiscordBot.RenderAllShape` | discord_bot.py:123-136 | after the update loop (lines 277-278) a game that had no message, or whose message was still posted, shows its fresh text; a message someone else deleted stays held, unchanged and off the channel |
| `DiscordBot.RenderAllHeld` | discord_bot.py:277-278 | the update loop keeps every held message uncontradicted by the channel, its handle handed out, and all handles distinct and apart from the status message |
| `DiscordBot.RenderAllTracked` | discord_bot.py:277-278 | the update loop keeps the bot consistent with the channel, keys unique, and every posted handle handed out |
| `DiscordBot.RenderStep` | discord_bot.py:277-278 | updating one more game extends the rendered prefix and the channel by one turn |
| `DiscordBot.MergeAllMessages` | discord_bot.py:250-262 | the merge never changes the message a key holds |
| `DiscordBot.MergeAllTracked` | discord_bot.py:250-262 | the merge keeps the bot consistent with the channel |
| `DiscordBot.SurvivorsTracked` | discord_bot.py:264-272 | expiry, with its final edits, keeps the surviving games consistent with the channel |
| `DiscordBot.Refreshed` | discord_bot.py:250-278 | a refresh leaves one game per survivor and never lowers the next handle nor touches the presence |
| `DiscordBot.RefreshedTracked` | discord_bot.py:250-278 | a refresh keeps the bot consistent with the channel |
| `DiscordBot.RefreshedShapeEnded` | discord_bot.py:264-278 | when some game ended, every surviving game gets a new message with its fresh text |
| `DiscordBot.RefreshedShapeKept` | discord_bot.py:250-278 | when no game ended, each game keeps its held message's handle or gets a new one; a new or still-posted message shows the fresh text, a deleted one stays off the channel |
| `DiscordBot.RefreshedShape` | discord_bot.py:250-278 | after a refresh the list is exactly the surviving games in order, each holding a message; which messages show their fresh text is as in the two cases above |
| `DiscordBot.StatusPosted` | discord_bot.py:106-120 | renewing the status message uses one fresh handle and leaves the presence alone |
| `DiscordBot.StatusKeepsGames` | discord_bot.py:106-120 | the old status message is off the channel (deleted now, or gone already: NotFound), the new one shows the count text, and no game's message changes on the channel |
| `DiscordBot.CycleConsistent` | discord_bot.py:222-289 | a round of background_task keeps the bot consistent with the channel |
| `DiscordBot.WithdrawnConsistent` | discord_bot.py:123-136 | a message deleted by someone else, the bot's own included, leaves the bot consistent with the channel; the NotFound catches of update_game_message and also lines 111-114, 165-168, 176-179 are then what the bot meets |
| `DiscordBot.CycleShows` | discord_bot.py:250-278 | after a round every game holds a message; it shows the fresh text when some game ended, the game is new, or its message was still posted; a message someone else deleted stays off the channel until some game ends |
| `DiscordBot.CycleStatus` | discord_bot.py:280-287 | the status message and the presence are renewed exactly when no game ended and the count changed, the new status message showing the count; otherwise they stay |
| `DiscordBot.Bot.constructor` | discord_bot.py:19-21 | no games, no count, no status message |
| `DiscordBot.Bot.MergeOneGame` | discord_bot.py:251-262 | one merge pass: the list becomes `MergeGame` of it |
| `DiscordBot.Bot.MergeSnapshot` | discord_bot.py:250-262 | the merge loop: the list becomes `MergeAll` of the fetch |
| `DiscordBot.Bot.EndGameMessage` | discord_bot.py:160-168 | the channel becomes `EndOne` of it: the final text when the message is still posted, nothing on NotFound |
| `DiscordBot.Bot.MarkEnded` | discord_bot.py:264-269 | the ended keys are collected in order and the channel becomes `EndAll` of it |
| `DiscordBot.Bot.DeleteKeys` | discord_bot.py:271-272 | the marked keys are deleted from `game_list` |
| `DiscordBot.Bot.EndGames` | discord_bot.py:264-272 | the list becomes `Survivors` of it and the channel `EndAll` of it |
| `DiscordBot.Bot.RemoveGameMessage` | discord_bot.py:173-181 | one game's message, if any, is deleted (NotFound passed over) and forgotten: the channel becomes `ClearOne` of it |
| `DiscordBot.Bot.RemoveGameMessages` | discord_bot.py:171-181 | every game's message is forgotten and the channel becomes `DeleteAll` of it; the games stay |
| `DiscordBot.Bot.UpdateGameMessage` | discord_bot.py:123-136 | as corrected: the game's message and the channel become `Update` of them, NotFound included |
| `DiscordBot.Bot.UpdateNext` | discord_bot.py:277-278 | one turn of the update loop extends `RenderAll` by one game |
| `DiscordBot.Bot.UpdateGameMessages` | discord_bot.py:277-278 | the update loop leaves list and channel as `RenderAll` of the fresh texts |
| `DiscordBot.Bot.UpdateStatusMessage` | discord_bot.py:106-120 | the status message becomes the first free handle and the channel `StatusPosted` of it |
| `DiscordBot.Bot.Refresh` | discord_bot.py:250-278 | merge, expiry, message removal when a game ended, and the update loop leave the state `Refreshed` describes, and keep the bot consistent with the channel |
| `DiscordBot.Bot.BackgroundStep` | discord_bot.py:222-289 | nothing changes when nothing was fetched; otherwise the state becomes `Cycle` of it, and the bot stays consistent with the channel |
| `Sink.AfterSend` | discord_bot.py:120 | a send posts under a handle never handed out |
| `Sink.AfterEdit` | discord_bot.py:129-133 | an edit adds and removes no message |
| `Sink.AfterDelete` | discord_bot.py:111-114 | after a delete exactly that message is gone, whether it was posted or not |
| `Sink.Channel.constructor` | discord_bot.py:21 | an empty channel |
| `Sink.Channel.Send` | discord_bot.py:120 | a message under a handle never used before |
| `Sink.Channel.Edit` | discord_bot.py:129-133 | the content is replaced when the message exists; otherwise NotFound and nothing changes |
| `Sink.Channel.Delete` | discord_bot.py:111-114 | the message is gone afterwards; NotFound when it was already gone |
| `Sink.Channel.DeleteByOthers` | discord_bot.py:129-133 | a moderator or another client deletes a message: it is gone, and nothing else changes; the bot's next edit or delete of it is the NotFound caught here and at lines 111-114, 165-168, 176-179 |
| `Sink.Channel.ChangePresence` | discord_bot.py:286-287 | the presence becomes the text |
| `GameManager.FetchGameList` | game_manager.py:11-52 | None exactly on a timeout; a non-empty list exactly when the stripped output is a non-empty JSON list of objects, and then that list; otherwise [] |
| `GameManager.FetchGameListWithRetries` | game_manager.py:54-65 | the first non-empty fetch within `retries` runs, or [] after every run came back empty |
| `GameManager.Sight` | game_manager.py:82-90 | a value is filed exactly when it is a dict with a non-empty id, under the upper-cased id; non-dicts and missing or empty ids are skipped |
| `GameManager.StampedFields` | game_manager.py:97-99 | a new game gets `first_seen` and `last_seen` and keeps every other entry |
| `GameManager.StepWellFormed` | game_manager.py:82-119 | a merge pass keeps `game_list` a dict whose games carry `last_seen` |
| `GameManager.MergeAll` | game_manager.py:82-119 | the merge loop keeps `game_list` well-formed |
| `GameManager.StepFrame` | game_manager.py:104-119 | a merge pass sends at most one message, under the first free handle, and leaves every earlier message and the presence as they were |
| `GameManager.MergeAllFrame` | game_manager.py:82-119 | the merge loop only adds messages under fresh handles: every earlier message and the presence stay as they were |
| `GameManager.MergeAbortedStays` | game_manager.py:82-119 | after an uncaught exception the rest of the fetch is ignored |
| `GameManager.StepSkips` | game_manager.py:83-90 | a non-dict or a game without an id changes nothing |
| `GameManager.StepRefreshesKnown` | game_manager.py:92-95 | a game seen again gets only `last_seen = now`; nothing else changes and nothing is sent |
| `GameManager.StepStoresNew` | game_manager.py:97-100 | a new game is stored under its upper-cased id, stamped, with its fetched entries; no other game changes |
| `GameManager.StepSendsNew` | game_manager.py:104-119 | a new game's embed is sent and stored when it can be built and the send does not raise, and is then on the channel under the first free handle; a failed build aborts the refresh, a failed send leaves no message and the channel as it was |
| `GameManager.ExpiredKeysMember` | game_manager.py:121-159 | a key is marked exactly when its game is closing |
| `GameManager.SurvivorsGet` | game_manager.py:121-165 | exactly the closing games are removed and the rest kept unchanged |
| `GameManager.UnexpiredNeverRemoved` | game_manager.py:124-128 | a game seen within `game_ttl` is never removed |
| `GameManager.SkippedExpiredStays` | game_manager.py:128-145 | an expired game without a message, or in a channel without guild or permission, stays |
| `GameManager.ExpiredRemoved` | game_manager.py:128-159 | an expired game with a message that is not skipped is removed whatever the edit's outcome |
| `GameManager.ClosingEditIsRed` | game_manager.py:134-147 | the closing edit puts a red "Closed" embed on the game's own message |
| `GameManager.ExpireOne` | game_manager.py:128-157 | the expiry loop's edit for one game adds and removes no message |
| `GameManager.ExpireAll` | game_manager.py:121-159 | the expiry loop adds and removes no message and sends nothing |
| `GameManager.ExpireAllFrame` | game_manager.py:121-159 | a message no closing edit is aimed at keeps its embed through the expiry loop |
| `GameManager.ExpireAllShowsClosing` | game_manager.py:121-159 | a closing game's message still on the channel shows its closing embed after the loop, unless a later game's closing edit is aimed at the same message; NotFound otherwise |
| `GameManager.Refreshed` | game_manager.py:121-170 | a completed refresh leaves the presence showing the number of surviving games, adds no message and removes none after the merge |
| `GameManager.RefreshLeavesOthers` | game_manager.py:67-170 | a refresh leaves every message it did not post and no closing edit is aimed at as it was: still on the channel with the same embed, or still gone |
| `GameManager.RefreshShowsClosing` | game_manager.py:128-147 | after a completed refresh a closing game's message still on the channel shows a red embed whose field is named closed, unless a later closing edit is aimed at the same message |
| `GameManager.MergeAsWrittenKeeps` | game_manager.py:97-105 | as written the merge never stores a message and never loses a game |
| `GameManager.NoneExpireAsWritten` | game_manager.py:128-134 | as written, games without messages are never marked |
| `GameManager.AsWrittenNeverCloses` | game_manager.py:82-165 | as written, when no game in `game_list` or in the fetch carries a `"message"` entry, no game ever gets a message or is removed |
| `GameManager.Manager.constructor` | game_manager.py:9 | `game_list` starts empty |
| `GameManager.Manager.MergeOne` | game_manager.py:82-119 | one merge pass leaves `game_list` and the whole channel (messages, handles, calls, presence) as `Step` describes |
| `GameManager.Manager.Merge` | game_manager.py:82-119 | the merge loop leaves `game_list` and the whole channel as `MergeAll` describes, stopping at the first exception |
| `GameManager.Manager.CloseIfExpired` | game_manager.py:123-159 | one expiry pass leaves the channel as `ExpireOne` describes and marks exactly the closing game |
| `GameManager.Manager.MarkExpired` | game_manager.py:121-159 | the expiry loop marks `ExpiredKeys` and leaves the channel as `ExpireAll` describes |
| `GameManager.Manager.RemoveGames` | game_manager.py:162-165 | the marked games are deleted |
| `GameManager.Manager.RefreshGameList` | game_manager.py:67-173 | no effect for a bad channel; an aborted merge stops the refresh with the channel as `MergeAll` left it; otherwise the list becomes the survivors and the channel is as `Refreshed` describes, the presence showing their count |
| `Utils.IsAdminCases` | utils.py:18-22 | only members can be admins: exactly those with the administrator permission or listed as owners |
| `Utils.Names` | utils.py:41 | the player names, in order |
| `Utils.FormatGameEmbed` | utils.py:24-74 | red with its field named "❌ (Closed)" exactly when expired, otherwise green with the field named after the upper-cased id; the field is not inline; a thumbnail exactly when the image exists |
| `Utils.OptionsShown` | utils.py:44-45 | an option is shown exactly when a key of the game with a truthy value is a configured option of that name |
| `Utils.SpeedFallbackFaithful` | utils.py:40 | "Custom (N)" loses no rate |
| `Utils.InfoTextLines` | utils.py:51-56 | the field value is four lines, starting with the game label |
| `Stats.Key` | stats.py:32 | the key starts with the type and ends with ')' |
| `Stats.KeyInjectiveInVersion` | stats.py:32 | different versions of one type never share a record |
| `Stats.WithNewGame` | stats.py:28-60 | the game's key is added or kept and no other record changes |
| `Stats.OpenedCountsOnce` | stats.py:33-58 | a new game is counted once and appends one open session with its players; its players join the unique players |
| `Stats.FirstOpen` | stats.py:73-76 | the session found is the first open one of these players, or there is none |
| `Stats.FirstOpenIsLeast` | stats.py:73-76 | an open session with none before it is the one found |
| `Stats.FirstOpenNone` | stats.py:73-76 | without an open session none is found |
| `Stats.WithPlaytime` | stats.py:63-78 | an unknown key changes nothing, and no other record changes |
| `Stats.CloseFirstChangesOne` | stats.py:72-76 | only the first open session of these players gets the duration |
| `Stats.CloseFirstMovesOn` | stats.py:72-76 | a second close with a non-zero playtime closes a later session, never the same one |
| `Stats.Recent` | stats.py:93-95 | the window never holds more sessions than the record |
| `Stats.GetGameStatistics` | stats.py:81-106 | a message exactly for an unknown key; otherwise the query's type, version and days, and no more games than sessions |
| `Stats.RecentMembers` | stats.py:93-95 | a session is in the window exactly when it was opened at or after the cutoff |
| `Stats.PlayersOfMembers` | stats.py:97 | a player is counted exactly when some session in the window had them |
| `Stats.RecentShrinks` | stats.py:90-95 | a later cutoff never admits more sessions |
| `Stats.GamesPlayedGrowsWithDays` | stats.py:81-106 | asking about more days never reports fewer games |
| `Stats.NewGameIsCounted` | stats.py:52-58 | recording a new game makes the next query report one more game |
| `Stats.ClosingKeepsWindow` | stats.py:73-76 | closing a session changes no window's game count |
| `Stats.Statistics.constructor` | stats.py:19 | an empty table |
| `Stats.Statistics.UpdateGameStatistics` | stats.py:28-60 | the table becomes `WithNewGame` of it |
| `Stats.Statistics.UpdatePlaytimeStatistics` | stats.py:63-78 | the table becomes `WithPlaytime` of it |

## Left out

- The collector and the bots do not fit together as they stand: main.cpp runs forever and writes `gamelist.json`, while both bots wait 30 seconds for a JSON list of games on the program's standard output (discord_bot.py:230-250, game_manager.py:17-42), so against this collector every fetch times out. The bots' `fetched` parameter (`DiscordBot`) and `RawOutput` (`GameManager`) stand for that standard-output list, an output format whose producer is not part of this model; main.cpp's `gamelist.json` object is modelled only as far as `Decoder.GameCollector.Publish` hands the games and sightings over.
- Processes, files and sleeps are left out:
  - running the game-list program and its 30-second timeout become the `fetched` or `RawOutput` parameter;
  - `asyncio.sleep` and the refresh pacing are not modelled;
  - reading `./banlist` becomes the banlist text;
  - reading and writing statistics.json, config.json and gamelist.json are not modelled.
- The clock: each refresh takes one integer `now` for all its `time.time()` calls. Fractional seconds are not modelled.
- The discord.py client is the `Sink.Channel` class: handles, contents, NotFound and presence. Messages deleted by others (`Sink.Channel.DeleteByOthers`, `Sink.Withdrawn`) are part of the model, and so is the NotFound every later edit or delete of them meets. Sends never fail in `DiscordBot`. `game_manager.py`'s failing sends are the `failing` key set. The image upload is not modelled.
- `DiscordServerError` handling in `background_task` is not modelled: a server error is taken never to happen.
- Edits and deletes are taken to fail only with NotFound. `Sink.Channel.Edit` and `Sink.Channel.Delete` have no other failure. The source has more paths:
  - game_manager.py:153-157 catches `Forbidden` and any other exception from the closing edit, removes the game and leaves its embed unchanged. `GameManager.ExpireAllShowsClosing` and `GameManager.RefreshShowsClosing` promise the red embed on every posted message, so they do not cover those paths.
  - In discord_bot.py, any other exception from an edit or a delete ends `background_task`. Only `DiscordServerError` is caught there (discord_bot.py:288-289).
- Threads in main.cpp are left out. `process_pt_message` runs on the network stack's thread, and `get_player_sightings` runs on the main loop. `player_identities_mutex` (main.cpp:34, 75, 464) serialises them. Each `Decoder.SightingLog` method stands for one locked section, so the log's changes are modelled as a sequence of whole calls.
- The JSON printed by the game-list program is taken as a typed `Game` record in `DiscordBot`. A missing key (Python `KeyError`) and a `json.loads` error are not modelled.
- `GameManager.EmbeddableGame` asks more of a game than Python's duck typing does: typed id, type, version, difficulty, tick rate, last_seen and players.
- Text.Upper: upper-cases ASCII letters only. Python's `str.upper` also maps non-ASCII letters ('é' to 'É', 'ß' to "SS", 'ſ' to 'S'), some to longer strings. This matters for game-list keys, the header, the embed field name and the banlist words, which the model assumes to be ASCII.
- DiscordBot.AnyPlayerNameContainsABannedWord: because of `Text.Upper`, a banlist line with non-ASCII letters can match differently in Python: the line "straße" bans a player "STRASSE" there and not here. Player names themselves are checked to be printable ASCII before the ban check.
- The Python regexes are modelled as character predicates over the same character classes.
- In main.cpp, the ZeroTier and lwIP setup, the IPv6 extension-header walk, the multicast request timer, the sender address as text, and the JSON writer are not modelled. A missing `gameType` or `version` is empty, as the `std::string` members of `GameInfo` start empty (main.cpp:416-417); a missing number or flag field is `None` where the source leaves an indeterminate value.
- bot_db.py, commands.py and ztapi_client.py are not part of this model.
- DiscordBot.Bot: its methods state results through `formatter`, which the constructor fixes to `FormatGame`. The properties of the text are lemmas about `FormatGame`.
- DiscordBot.Bot.UpdateGameMessage: models the corrected update, in which the held content follows the edit. The code as written is `DiscordBot.RefreshCellAsWritten`, one message at a time.
- GameManager.Manager.RefreshGameList: models the corrected two-argument call of `format_game_embed`. The code as written is `GameManager.RefreshAsWritten` on the game list alone.

## Findings

| source | as written | input that shows it | evidently intended | confidence | as-written member | corrected member |
|---|---|---|---|---|---|---|
| game_manager.py:105 | `format_game_embed(game)` passes one argument to a two-parameter function (utils.py:24), so a `TypeError` is raised. At line 105 it is raised outside any `try`, aborting the refresh after the new game is stored without a message. The call at line 134 raises inside the `try`, so an expired game with a message is dropped without an edit. This reading takes utils.py as it stands, yet it is not the module game_manager.py was written against: game_manager.py:6 imports `CONFIG` from it and commands.py:2 imports `format_time_hhmmss` and `is_bot_owner`, none of which it defines, so with this file the import itself fails, and against the utils module the bot really runs with, a one-argument call may be right. `GameManager.AsWrittenNeverCloses` models only the `TypeError` reading | any fetch holding a game not yet in `game_list` | `format_game_embed(game, CONFIG)`: the embed is sent and stored, and expired games get the red closing edit | low: rests on a utils.py that does not match its importers (not executed) | `GameManager.AsWrittenNeverCloses` | `GameManager.StepSendsNew` |
| main.cpp:527 | the signed `gameData->size` joins a `size_t` sum, so a negative size wraps and passes `data.size() < neededSize`; the player slots are read from before the buffer | a 31-byte reply declaring size -100 | reject a negative declared size | high (not executed) | `Decoder.NegativeSizeReadsBeforeData` | `Decoder.Decode` |
| main.cpp:57 | `len - 3` in `size_t` wraps for a 1- or 2-byte message, so the length check passes and bytes past the message are read | a TCP frame of length 1 holding only PT_MESSAGE | reject messages shorter than the 3 skipped bytes | high (not executed) | `Decoder.ShortFrameUnderflows` | `Decoder.PtIdentity` |
| discord_bot.py:129-131 | the held message's `content` is compared with the fresh text, but in discord.py 2 `message.edit` returns the edited message and that return value is dropped, so the held content stays at the first text | a game whose text goes from `a` to `b` and back to `a`, as when a player joins and leaves again: the channel keeps showing `b` | keep the edited message (`game_list[game_id]['message'] = await message.edit(...)`), so the held content is the text shown | medium: depends on the discord.py version (not executed) | `DiscordBot.StaleAfterRevert` | `DiscordBot.RefreshCellsShowLatest` |
