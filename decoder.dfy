/** The game-list collector (main.cpp): the decoder of game-info replies received on the
    DevilutionX multicast group, the version text, the decoder of the player-info messages
    seen inside TCP traffic, the length-prefixed frame walk that finds those messages, and
    the aggregation of decoded replies by game id. Bytes are integers in 0..255. */
module Decoder {
  import opened Wrappers
  import Text

  type byte = b: int | 0 <= b < 256
  type Bytes = seq<byte>

  const PacketHeaderSize: nat := 3
  const MaxPlayers: nat := 4
  const PlayerNameLength: nat := 32
  const InfoRequest: byte := 0x21
  const InfoReply: byte := 0x22
  const Broadcast: byte := 0xFF
  const Host: byte := 0xFE

  // Byte offsets of the fields of the packed GameData struct that follows the 3-byte
  // header: size (4 bytes, signed), seed (4), type (4), then one byte per field.
  const SizeOffset: nat := 0
  const SeedOffset: nat := 4
  const TypeOffset: nat := 8
  const VersionMajorOffset: nat := 12
  const VersionMinorOffset: nat := 13
  const VersionPatchOffset: nat := 14
  const DifficultyOffset: nat := 15
  const TickRateOffset: nat := 16
  const RunInTownOffset: nat := 17
  const TheoQuestOffset: nat := 18
  const CowQuestOffset: nat := 19
  const FriendlyFireOffset: nat := 20
  const FullQuestsOffset: nat := 21
  const GameDataLength: nat := 22

  /** SIZE_NEEDED: the header plus the field's offset plus its width. */
  function SizeNeeded(offset: nat, width: nat): nat {
    PacketHeaderSize + offset + width
  }

  /** The unsigned little-endian 32-bit value stored at `data[at..at + 4]`. */
  function U32At(data: Bytes, at: nat): nat
    requires at + 4 <= |data|
  {
    data[at] as int + 256 * data[at + 1] as int + 65536 * data[at + 2] as int + 16777216 * data[at + 3] as int
  }

  /** The same four bytes read as a two's-complement `int32_t`. */
  function I32At(data: Bytes, at: nat): (v: int)
    requires at + 4 <= |data|
    ensures -0x8000_0000 <= v < 0x8000_0000
  {
    var u := U32At(data, at);
    if u < 0x8000_0000 then u else u - 0x1_0000_0000
  }

  /** What decode fills in. The type and version are `std::string` members, so a reply
      too short to carry them leaves them empty. A number or flag field the reply is too
      short to carry stays unset (None); in the source it keeps the indeterminate value of
      a fresh GameInfo. The sender's address text is not part of this model. */
  datatype GameInfo = GameInfo(
    id: Bytes,
    seed: Option<nat>,
    gameType: Bytes,
    version: string,
    difficulty: Option<nat>,
    tickRate: Option<nat>,
    runInTown: Option<bool>,
    theoQuest: Option<bool>,
    cowQuest: Option<bool>,
    friendlyFire: Option<bool>,
    fullQuests: Option<bool>,
    players: seq<Bytes>)

  // ---------------------------------------------------------------- version text

  /** makeVersionString: "major.minor.patch" in decimal. */
  function VersionString(major: byte, minor: byte, patch: byte): string {
    Text.NatToString(major) + "." + Text.NatToString(minor) + "." + Text.NatToString(patch)
  }

  /** The text always fits the 12-character buffer: at most three digits per part and two
      separators, so the three `to_chars` error branches are never taken. */
  lemma VersionStringFits(major: byte, minor: byte, patch: byte)
    ensures 5 <= |VersionString(major, minor, patch)| <= 11
  {
    Text.NatToStringShort(major);
    Text.NatToStringShort(minor);
    Text.NatToStringShort(patch);
  }

  /** Two digit strings joined by a separator that is not a digit can be split back. */
  lemma SplitAtDot(p: string, q: string, p': string, q': string)
    requires Text.IsDigits(p) && Text.IsDigits(p')
    requires p + "." + q == p' + "." + q'
    ensures p == p' && q == q'
  {
    var s := p + "." + q;
    assert s[|p|] == '.' && forall k :: 0 <= k < |p| ==> s[k] == p[k] && s[k] != '.';
    assert s[|p'|] == '.' && forall k :: 0 <= k < |p'| ==> s[k] == p'[k] && s[k] != '.';
    assert p == s[..|p|] == p';
    assert q == s[|p| + 1..] == q';
  }

  /** The version text as a first part, a dot and the rest. */
  lemma VersionStringParts(a: byte, b: byte, c: byte)
    ensures VersionString(a, b, c)
      == Text.NatToString(a) + "." + (Text.NatToString(b) + "." + Text.NatToString(c))
  {
  }

  /** The version text names the three bytes unambiguously. */
  lemma VersionStringInjective(a: byte, b: byte, c: byte, x: byte, y: byte, z: byte)
    requires VersionString(a, b, c) == VersionString(x, y, z)
    ensures a == x && b == y && c == z
  {
    var na, nb, nc := Text.NatToString(a), Text.NatToString(b), Text.NatToString(c);
    var nx, ny, nz := Text.NatToString(x), Text.NatToString(y), Text.NatToString(z);
    VersionStringParts(a, b, c);
    VersionStringParts(x, y, z);
    SplitAtDot(na, nb + "." + nc, nx, ny + "." + nz);
    SplitAtDot(nb, nc, ny, nz);
    Text.NatToStringInjective(a, x);
    Text.NatToStringInjective(b, y);
    Text.NatToStringInjective(c, z);
  }

  // ---------------------------------------------------------------- game-info replies

  /** strnlen-bounded copy: the bytes of `slot` before its first NUL. */
  function UntilNul(slot: Bytes): (name: Bytes)
    ensures |name| <= |slot| && name == slot[..|name|]
    ensures 0 !in name
    ensures |name| < |slot| ==> slot[|name|] == 0
  {
    if slot == [] || slot[0] == 0 then [] else [slot[0]] + UntilNul(slot[1..])
  }

  /** The name held in player slot `i` of the 128 bytes of name slots. */
  function SlotName(slots: Bytes, i: nat): (name: Bytes)
    requires i < MaxPlayers && |slots| == PlayerNameLength * MaxPlayers
    ensures |name| <= PlayerNameLength && 0 !in name
  {
    UntilNul(slots[PlayerNameLength * i..PlayerNameLength * (i + 1)])
  }

  /** The names of the four slots, empty ones included. */
  function SlotNames(slots: Bytes): (names: seq<Bytes>)
    requires |slots| == PlayerNameLength * MaxPlayers
    ensures |names| == MaxPlayers
    ensures forall i :: 0 <= i < MaxPlayers ==> names[i] == SlotName(slots, i)
  {
    seq(MaxPlayers, i requires 0 <= i < MaxPlayers => SlotName(slots, i))
  }

  /** The non-empty names, in order. */
  function NonEmpty(names: seq<Bytes>): (ps: seq<Bytes>)
    ensures |ps| <= |names|
    ensures forall k :: 0 <= k < |ps| ==> ps[k] != []
  {
    if names == [] then []
    else
      var last := names[|names| - 1];
      NonEmpty(names[..|names| - 1]) + (if last == [] then [] else [last])
  }

  /** Filtering keeps the bound on every name. */
  lemma {:induction false} NonEmptyBounded(names: seq<Bytes>)
    requires forall i :: 0 <= i < |names| ==> |names[i]| <= PlayerNameLength && 0 !in names[i]
    ensures forall k :: 0 <= k < |NonEmpty(names)| ==> |NonEmpty(names)[k]| <= PlayerNameLength && 0 !in NonEmpty(names)[k]
  {
    if names != [] {
      NonEmptyBounded(names[..|names| - 1]);
    }
  }

  /** The non-empty names of the first `n` slots, in slot order. */
  function PlayersUpTo(slots: Bytes, n: nat): (ps: seq<Bytes>)
    requires n <= MaxPlayers && |slots| == PlayerNameLength * MaxPlayers
    ensures |ps| <= n
    ensures forall k :: 0 <= k < |ps| ==> 1 <= |ps[k]| <= PlayerNameLength && 0 !in ps[k]
  {
    NonEmptyBounded(SlotNames(slots)[..n]);
    NonEmpty(SlotNames(slots)[..n])
  }

  /** A one-byte field at `off` as a number, read only when its SIZE_NEEDED fits `size`. */
  function NumberAt(data: Bytes, size: nat, off: nat): Option<nat>
    requires PacketHeaderSize + size <= |data|
  {
    if SizeNeeded(off, 1) <= size then Some(data[PacketHeaderSize + off] as nat) else None
  }

  /** A one-byte field at `off` as a flag (non-zero is true), read only when it fits. */
  function FlagAt(data: Bytes, size: nat, off: nat): Option<bool>
    requires PacketHeaderSize + size <= |data|
  {
    if SizeNeeded(off, 1) <= size then Some(data[PacketHeaderSize + off] != 0) else None
  }

  /** The GameData fields of a reply whose declared size is `size`, each read only when
      SIZE_NEEDED of the field is at most `size`. */
  function DecodeFields(data: Bytes, size: nat): GameInfo
    requires PacketHeaderSize + size + PlayerNameLength * MaxPlayers <= |data|
  {
    var h := PacketHeaderSize;
    var slotsStart := h + size;
    var slots := data[slotsStart..slotsStart + PlayerNameLength * MaxPlayers];
    GameInfo(
      id := data[slotsStart + PlayerNameLength * MaxPlayers..],
      seed := if SizeNeeded(SeedOffset, 4) <= size then Some(U32At(data, h + SeedOffset)) else None,
      gameType :=
        if SizeNeeded(TypeOffset, 4) <= size
        then [data[h + TypeOffset + 3], data[h + TypeOffset + 2], data[h + TypeOffset + 1], data[h + TypeOffset]]
        else [],
      version :=
        if SizeNeeded(VersionPatchOffset, 1) <= size
        then VersionString(data[h + VersionMajorOffset], data[h + VersionMinorOffset], data[h + VersionPatchOffset])
        else "",
      difficulty := NumberAt(data, size, DifficultyOffset),
      tickRate := NumberAt(data, size, TickRateOffset),
      runInTown := FlagAt(data, size, RunInTownOffset),
      theoQuest := FlagAt(data, size, TheoQuestOffset),
      cowQuest := FlagAt(data, size, CowQuestOffset),
      friendlyFire := FlagAt(data, size, FriendlyFireOffset),
      fullQuests := FlagAt(data, size, FullQuestsOffset),
      players := PlayersUpTo(slots, MaxPlayers))
  }

  /** decode, with a negative declared size rejected (see DecodeSizeAsWritten for the
      source, which lets some negative sizes through). */
  function Decode(data: Bytes): (r: Option<GameInfo>)
    ensures |data| < PacketHeaderSize ==> r == None
    ensures |data| >= 1 && data[0] != InfoReply ==> r == None
    ensures |data| >= PacketHeaderSize && (data[1] != Broadcast || data[2] != Host) ==> r == None
    ensures r.Some? ==> (
      && |data| >= SizeNeeded(SizeOffset, 4)
      && 0 <= I32At(data, PacketHeaderSize)
      && |data| >= PacketHeaderSize + I32At(data, PacketHeaderSize) + PlayerNameLength * MaxPlayers
      && r.value.id == data[PacketHeaderSize + I32At(data, PacketHeaderSize) + PlayerNameLength * MaxPlayers..])
    ensures r.Some? ==> |r.value.players| <= MaxPlayers
  {
    if |data| < PacketHeaderSize then None
    else if data[0] == InfoRequest then None
    else if data[0] != InfoReply || data[1] != Broadcast || data[2] != Host then None
    else if |data| < SizeNeeded(SizeOffset, 4) then None
    else
      var size := I32At(data, PacketHeaderSize);
      if size < 0 then None
      else if |data| < PacketHeaderSize + size + PlayerNameLength * MaxPlayers then None
      else Some(DecodeFields(data, size))
  }

  /** decode as the collector runs it: the checks in source order, then the optional fields
      read as `DecodeFields` does and the player slots in a loop; its result is Decode's. */
  method DecodeReply(data: Bytes) returns (r: Option<GameInfo>)
    ensures r == Decode(data)
  {
    if |data| < PacketHeaderSize {
      return None;
    }
    if data[0] == InfoRequest {
      return None;
    }
    if data[0] != InfoReply || data[1] != Broadcast || data[2] != Host {
      return None;
    }
    if |data| < SizeNeeded(SizeOffset, 4) {
      return None;
    }
    var size := I32At(data, PacketHeaderSize);
    if size < 0 || |data| < PacketHeaderSize + size + PlayerNameLength * MaxPlayers {
      return None;
    }
    var slotsStart := PacketHeaderSize + size;
    var slots := data[slotsStart..slotsStart + PlayerNameLength * MaxPlayers];
    var players := ReadPlayers(slots);
    assert SlotNames(slots)[..MaxPlayers] == SlotNames(slots);
    assert Decode(data) == Some(DecodeFields(data, size));
    r := Some(DecodeFields(data, size).(players := players));
  }

  /** The slot loop of decode: the non-empty names of the four slots, in slot order. */
  method ReadPlayers(slots: Bytes) returns (players: seq<Bytes>)
    requires |slots| == PlayerNameLength * MaxPlayers
    ensures players == NonEmpty(SlotNames(slots))
  {
    players := [];
    ghost var names := SlotNames(slots);
    for i := 0 to MaxPlayers
      invariant players == NonEmpty(names[..i])
    {
      var name := UntilNul(slots[PlayerNameLength * i..PlayerNameLength * (i + 1)]);
      assert names[..i + 1][..i] == names[..i] && names[i] == name;
      if name != [] {
        players := players + [name];
      }
    }
    assert names[..MaxPlayers] == names;
  }

  /** Nothing in a reply can be longer than its slot: at most four names of 1..32 bytes,
      none with a NUL, and the names keep slot order (a name of slot i comes before a
      name of slot j > i). */
  lemma DecodedPlayersBounded(data: Bytes)
    requires Decode(data).Some?
    ensures var ps := Decode(data).value.players;
      |ps| <= MaxPlayers && forall k :: 0 <= k < |ps| ==> 1 <= |ps[k]| <= PlayerNameLength && 0 !in ps[k]
  {
  }

  // ---------------------------------------------------------------- encoding (the sender's side)

  /** A reply as a DevilutionX host builds it; `dataSize` is the declared GameData size. */
  datatype Reply = Reply(
    dataSize: nat, seed: nat, gameType: Bytes,
    major: byte, minor: byte, patch: byte, difficulty: byte, tickRate: byte,
    runInTown: bool, theoQuest: bool, cowQuest: bool, friendlyFire: bool, fullQuests: bool,
    players: seq<Bytes>, id: Bytes)

  predicate ValidReply(r: Reply) {
    && 4 <= r.dataSize < 0x8000_0000
    && r.seed < 0x1_0000_0000
    && |r.gameType| == 4
    && |r.players| <= MaxPlayers
    && forall k :: 0 <= k < |r.players| ==> 1 <= |r.players[k]| <= PlayerNameLength && 0 !in r.players[k]
  }

  function Zeros(n: nat): (z: Bytes)
    ensures |z| == n && forall k :: 0 <= k < n ==> z[k] == 0
  {
    seq(n, _ => 0)
  }

  function LE32(n: nat): (b: Bytes)
    requires n < 0x1_0000_0000
    ensures |b| == 4 && U32At(b, 0) == n
  {
    var q1 := n / 256;
    var q2 := q1 / 256;
    var q3 := q2 / 256;
    assert n / 65536 == q2 && n / 16777216 == q3;
    [n % 256, q1 % 256, q2 % 256, q3]
  }

  function Flag(b: bool): byte {
    if b then 1 else 0
  }

  /** The packed GameData as it sits in memory (`type` little-endian, so its text reversed),
      cut or zero-padded to the declared size. */
  function GameDataBytes(r: Reply): (g: Bytes)
    requires ValidReply(r)
    ensures |g| == r.dataSize
  {
    var full := FullGameData(r);
    if r.dataSize <= GameDataLength then full[..r.dataSize] else full + Zeros(r.dataSize - GameDataLength)
  }

  /** The four 32-byte name slots, names NUL-padded, unused slots all NUL. */
  function SlotsBytes(players: seq<Bytes>, n: nat): (s: Bytes)
    requires n <= MaxPlayers && |players| <= MaxPlayers
    requires forall k :: 0 <= k < |players| ==> |players[k]| <= PlayerNameLength
    ensures |s| == PlayerNameLength * n
  {
    if n == 0 then []
    else
      var name := NameAt(players, n - 1);
      SlotsBytes(players, n - 1) + (name + Zeros(PlayerNameLength - |name|))
  }

  function Encode(r: Reply): Bytes
    requires ValidReply(r)
  {
    [InfoReply, Broadcast, Host] + GameDataBytes(r) + SlotsBytes(r.players, MaxPlayers) + r.id
  }

  /** What decoding the reply must give: every field whose SIZE_NEEDED fits the declared size. */
  function Expected(r: Reply): GameInfo {
    var s := r.dataSize;
    GameInfo(
      id := r.id,
      seed := if SizeNeeded(SeedOffset, 4) <= s then Some(r.seed) else None,
      gameType := if SizeNeeded(TypeOffset, 4) <= s then r.gameType else [],
      version := if SizeNeeded(VersionPatchOffset, 1) <= s then VersionString(r.major, r.minor, r.patch) else "",
      difficulty := if SizeNeeded(DifficultyOffset, 1) <= s then Some(r.difficulty as nat) else None,
      tickRate := if SizeNeeded(TickRateOffset, 1) <= s then Some(r.tickRate as nat) else None,
      runInTown := if SizeNeeded(RunInTownOffset, 1) <= s then Some(r.runInTown) else None,
      theoQuest := if SizeNeeded(TheoQuestOffset, 1) <= s then Some(r.theoQuest) else None,
      cowQuest := if SizeNeeded(CowQuestOffset, 1) <= s then Some(r.cowQuest) else None,
      friendlyFire := if SizeNeeded(FriendlyFireOffset, 1) <= s then Some(r.friendlyFire) else None,
      fullQuests := if SizeNeeded(FullQuestsOffset, 1) <= s then Some(r.fullQuests) else None,
      players := r.players)
  }

  lemma {:induction false} UntilNulPadded(name: Bytes, pad: nat)
    requires 0 !in name
    ensures UntilNul(name + Zeros(pad)) == name
  {
    if name == [] {
      if pad > 0 {
        assert (name + Zeros(pad))[0] == 0;
      }
    } else {
      assert (name + Zeros(pad))[1..] == name[1..] + Zeros(pad);
      UntilNulPadded(name[1..], pad);
    }
  }

  /** The name encoded in slot `i` (empty past the last player). */
  function NameAt(players: seq<Bytes>, i: nat): Bytes {
    if i < |players| then players[i] else []
  }

  /** Slot `i` of the first `n` encoded slots holds the i-th name, NUL-padded. */
  lemma {:induction false} SlotAt(players: seq<Bytes>, n: nat, i: nat)
    requires i < n <= MaxPlayers && |players| <= MaxPlayers
    requires forall k :: 0 <= k < |players| ==> |players[k]| <= PlayerNameLength
    ensures SlotsBytes(players, n)[PlayerNameLength * i..PlayerNameLength * (i + 1)]
      == NameAt(players, i) + Zeros(PlayerNameLength - |NameAt(players, i)|)
  {
    var prev := SlotsBytes(players, n - 1);
    var name := NameAt(players, n - 1);
    var s := SlotsBytes(players, n);
    assert s == prev + (name + Zeros(PlayerNameLength - |name|));
    if i < n - 1 {
      SlotAt(players, n - 1, i);
      assert s[PlayerNameLength * i..PlayerNameLength * (i + 1)] == prev[PlayerNameLength * i..PlayerNameLength * (i + 1)];
    } else {
      assert s[PlayerNameLength * i..PlayerNameLength * (i + 1)] == name + Zeros(PlayerNameLength - |name|);
    }
  }

  /** The name read back from slot `i` is the name encoded there. */
  lemma SlotNameOfEncoded(players: seq<Bytes>, i: nat)
    requires i < MaxPlayers && |players| <= MaxPlayers
    requires forall k :: 0 <= k < |players| ==> 1 <= |players[k]| <= PlayerNameLength && 0 !in players[k]
    ensures SlotName(SlotsBytes(players, MaxPlayers), i) == NameAt(players, i)
  {
    SlotAt(players, MaxPlayers, i);
    UntilNulPadded(NameAt(players, i), PlayerNameLength - |NameAt(players, i)|);
  }

  /** Names that are the given players followed by empty slots filter back to the players. */
  lemma {:induction false} NonEmptyOfPadded(names: seq<Bytes>, players: seq<Bytes>)
    requires |players| <= |names|
    requires forall k :: 0 <= k < |players| ==> players[k] != []
    requires forall i :: 0 <= i < |names| ==> names[i] == NameAt(players, i)
    ensures NonEmpty(names) == players
  {
    if names != [] {
      var n := |names|;
      if n - 1 < |players| {
        NonEmptyOfPadded(names[..n - 1], players[..n - 1]);
        assert players == players[..n - 1] + [players[n - 1]];
      } else {
        NonEmptyOfPadded(names[..n - 1], players);
      }
    }
  }

  /** The four encoded slots read back as the names encoded, in order. */
  lemma PlayersRoundTrip(players: seq<Bytes>)
    requires |players| <= MaxPlayers
    requires forall k :: 0 <= k < |players| ==> 1 <= |players[k]| <= PlayerNameLength && 0 !in players[k]
    ensures PlayersUpTo(SlotsBytes(players, MaxPlayers), MaxPlayers) == players
  {
    var slots := SlotsBytes(players, MaxPlayers);
    var names := SlotNames(slots);
    forall i | 0 <= i < MaxPlayers
      ensures names[i] == NameAt(players, i)
    {
      SlotNameOfEncoded(players, i);
    }
    assert names[..MaxPlayers] == names;
    NonEmptyOfPadded(names, players);
  }

  /** The 22 bytes of the packed struct before any cut or padding. */
  function FullGameData(r: Reply): (full: Bytes)
    requires ValidReply(r)
    ensures |full| == GameDataLength
  {
    var t := r.gameType;
    LE32(r.dataSize) + LE32(r.seed) + [t[3], t[2], t[1], t[0]]
      + [r.major, r.minor, r.patch, r.difficulty, r.tickRate,
         Flag(r.runInTown), Flag(r.theoQuest), Flag(r.cowQuest), Flag(r.friendlyFire), Flag(r.fullQuests)]
  }

  /** Byte `3 + k` of an encoded reply is byte `k` of the packed struct, for `k` inside the
      declared size. */
  lemma EncodedGameDataAt(r: Reply, k: nat)
    requires ValidReply(r) && k < r.dataSize && k < GameDataLength
    ensures Encode(r)[PacketHeaderSize + k] == FullGameData(r)[k]
  {
    var g := GameDataBytes(r);
    assert Encode(r) == [InfoReply, Broadcast, Host] + g + (SlotsBytes(r.players, MaxPlayers) + r.id);
    assert g[k] == FullGameData(r)[k];
  }

  /** The slots and the id sit where Decode looks for them. */
  lemma EncodedLayout(r: Reply)
    requires ValidReply(r)
    ensures var data := Encode(r); var start := PacketHeaderSize + r.dataSize;
      && |data| == start + PlayerNameLength * MaxPlayers + |r.id|
      && data[start..start + PlayerNameLength * MaxPlayers] == SlotsBytes(r.players, MaxPlayers)
      && data[start + PlayerNameLength * MaxPlayers..] == r.id
  {
    var g := GameDataBytes(r);
    var slots := SlotsBytes(r.players, MaxPlayers);
    assert Encode(r) == ([InfoReply, Broadcast, Host] + g) + slots + r.id;
  }

  /** The declared size is read back from an encoded reply. */
  lemma EncodedSize(r: Reply)
    requires ValidReply(r)
    ensures |Encode(r)| >= SizeNeeded(SizeOffset, 4) && I32At(Encode(r), PacketHeaderSize) == r.dataSize
  {
    EncodedLayout(r);
    var data := Encode(r);
    var full := FullGameData(r);
    EncodedGameDataAt(r, 0);
    EncodedGameDataAt(r, 1);
    EncodedGameDataAt(r, 2);
    EncodedGameDataAt(r, 3);
    assert full[..4] == LE32(r.dataSize);
    assert U32At(data, PacketHeaderSize) == U32At(full, 0);
  }

  /** An encoded reply passes decode's checks, so decode reads its fields. */
  lemma DecodeEncodeReadsFields(r: Reply)
    requires ValidReply(r)
    ensures |Encode(r)| >= PacketHeaderSize + r.dataSize + PlayerNameLength * MaxPlayers
    ensures Decode(Encode(r)) == Some(DecodeFields(Encode(r), r.dataSize))
  {
    var data := Encode(r);
    EncodedLayout(r);
    EncodedSize(r);
    assert data[0] == InfoReply && data[1] == Broadcast && data[2] == Host;
  }

  /** Where each field sits in the packed struct. */
  lemma FullGameDataFields(r: Reply)
    requires ValidReply(r)
    ensures var full := FullGameData(r); var t := r.gameType;
      && full[4..8] == LE32(r.seed)
      && full[TypeOffset] == t[3] && full[TypeOffset + 1] == t[2]
      && full[TypeOffset + 2] == t[1] && full[TypeOffset + 3] == t[0]
      && full[VersionMajorOffset] == r.major && full[VersionMinorOffset] == r.minor
      && full[VersionPatchOffset] == r.patch
      && full[DifficultyOffset] == r.difficulty && full[TickRateOffset] == r.tickRate
      && full[RunInTownOffset] == Flag(r.runInTown) && full[TheoQuestOffset] == Flag(r.theoQuest)
      && full[CowQuestOffset] == Flag(r.cowQuest) && full[FriendlyFireOffset] == Flag(r.friendlyFire)
      && full[FullQuestsOffset] == Flag(r.fullQuests)
  {
  }

  /** The seed read back from an encoded reply. */
  lemma DecodeEncodeSeed(r: Reply)
    requires ValidReply(r)
    ensures |Encode(r)| >= PacketHeaderSize + r.dataSize + PlayerNameLength * MaxPlayers
    ensures DecodeFields(Encode(r), r.dataSize).seed == Expected(r).seed
  {
    EncodedLayout(r);
    if SizeNeeded(SeedOffset, 4) <= r.dataSize {
      var full := FullGameData(r);
      FullGameDataFields(r);
      EncodedGameDataAt(r, 4);
      EncodedGameDataAt(r, 5);
      EncodedGameDataAt(r, 6);
      EncodedGameDataAt(r, 7);
      assert U32At(Encode(r), PacketHeaderSize + SeedOffset) == U32At(full[4..8], 0);
    }
  }

  /** The type read back from an encoded reply. */
  lemma DecodeEncodeType(r: Reply)
    requires ValidReply(r)
    ensures |Encode(r)| >= PacketHeaderSize + r.dataSize + PlayerNameLength * MaxPlayers
    ensures DecodeFields(Encode(r), r.dataSize).gameType == Expected(r).gameType
  {
    EncodedLayout(r);
    if SizeNeeded(TypeOffset, 4) <= r.dataSize {
      FullGameDataFields(r);
      EncodedGameDataAt(r, 8);
      EncodedGameDataAt(r, 9);
      EncodedGameDataAt(r, 10);
      EncodedGameDataAt(r, 11);
      var t := r.gameType;
      assert [t[0], t[1], t[2], t[3]] == t;
    }
  }

  /** The version read back from an encoded reply. */
  lemma DecodeEncodeVersion(r: Reply)
    requires ValidReply(r)
    ensures |Encode(r)| >= PacketHeaderSize + r.dataSize + PlayerNameLength * MaxPlayers
    ensures DecodeFields(Encode(r), r.dataSize).version == Expected(r).version
  {
    EncodedLayout(r);
    if SizeNeeded(VersionPatchOffset, 1) <= r.dataSize {
      FullGameDataFields(r);
      EncodedGameDataAt(r, 12);
      EncodedGameDataAt(r, 13);
      EncodedGameDataAt(r, 14);
    }
  }

  /** A one-byte field of an encoded reply reads back as the packed struct's byte. */
  lemma EncodedByteField(r: Reply, off: nat)
    requires ValidReply(r) && off < GameDataLength
    ensures |Encode(r)| >= PacketHeaderSize + r.dataSize + PlayerNameLength * MaxPlayers
    ensures NumberAt(Encode(r), r.dataSize, off)
      == if SizeNeeded(off, 1) <= r.dataSize then Some(FullGameData(r)[off] as nat) else None
    ensures FlagAt(Encode(r), r.dataSize, off)
      == if SizeNeeded(off, 1) <= r.dataSize then Some(FullGameData(r)[off] != 0) else None
  {
    EncodedLayout(r);
    if SizeNeeded(off, 1) <= r.dataSize {
      EncodedGameDataAt(r, off);
    }
  }

  /** The difficulty and speed read back from an encoded reply. */
  lemma DecodeEncodeLevels(r: Reply)
    requires ValidReply(r)
    ensures |Encode(r)| >= PacketHeaderSize + r.dataSize + PlayerNameLength * MaxPlayers
    ensures var d := DecodeFields(Encode(r), r.dataSize); var e := Expected(r);
      d.difficulty == e.difficulty && d.tickRate == e.tickRate
  {
    FullGameDataFields(r);
    EncodedByteField(r, DifficultyOffset);
    EncodedByteField(r, TickRateOffset);
  }

  /** The five flags read back from an encoded reply. */
  lemma DecodeEncodeFlags(r: Reply)
    requires ValidReply(r)
    ensures |Encode(r)| >= PacketHeaderSize + r.dataSize + PlayerNameLength * MaxPlayers
    ensures var d := DecodeFields(Encode(r), r.dataSize); var e := Expected(r);
      && d.runInTown == e.runInTown && d.theoQuest == e.theoQuest && d.cowQuest == e.cowQuest
      && d.friendlyFire == e.friendlyFire && d.fullQuests == e.fullQuests
  {
    FullGameDataFields(r);
    EncodedByteField(r, RunInTownOffset);
    EncodedByteField(r, TheoQuestOffset);
    EncodedByteField(r, CowQuestOffset);
    EncodedByteField(r, FriendlyFireOffset);
    EncodedByteField(r, FullQuestsOffset);
  }

  /** Decoding an encoded reply gives back every field the declared size admits, the
      names in slot order and the id bytes that follow the slots. */
  lemma DecodeEncode(r: Reply)
    requires ValidReply(r)
    ensures Decode(Encode(r)) == Some(Expected(r))
  {
    DecodeEncodeReadsFields(r);
    DecodeEncodeSeed(r);
    DecodeEncodeType(r);
    DecodeEncodeVersion(r);
    DecodeEncodeLevels(r);
    DecodeEncodeFlags(r);
    EncodedLayout(r);
    var d := DecodeFields(Encode(r), r.dataSize);
    var e := Expected(r);
    PlayersRoundTrip(r.players);
    assert d.players == e.players;
    assert d.id == e.id;
    assert d == e;
  }

  /** SIZE_NEEDED counts the 3-byte header while the declared size counts GameData alone,
      so a reply declaring exactly the 22 bytes of the packed struct has its first eight
      fields read and the cow quest, friendly fire and full quests flags left unset. */
  lemma PackedSizeLeavesLastFlagsUnset(r: Reply)
    requires ValidReply(r) && r.dataSize == GameDataLength
    ensures var d := Decode(Encode(r)).value;
      && d.seed == Some(r.seed) && d.gameType == r.gameType && d.theoQuest == Some(r.theoQuest)
      && d.cowQuest.None? && d.friendlyFire.None? && d.fullQuests.None?
  {
    DecodeEncode(r);
  }

  // ---------------------------------------------------------------- the declared size, as written

  /** `PacketHeaderSize + gameData->size + PlayerNameLength * MaxPlayers` in the source: the
      signed size is converted to the 64-bit `size_t`, so the sum wraps. */
  function NeededSizeAsWritten(size: int): nat
    requires -0x8000_0000 <= size < 0x8000_0000
  {
    (PacketHeaderSize + size + PlayerNameLength * MaxPlayers) % 0x1_0000_0000_0000_0000
  }

  /** The source's length checks for a reply with a valid header: enough bytes for the
      size field and `neededSize` bytes, the latter computed with wrap-around. */
  predicate DecodeSizeAsWritten(data: Bytes)
    requires |data| >= SizeNeeded(SizeOffset, 4)
  {
    |data| >= NeededSizeAsWritten(I32At(data, PacketHeaderSize))
  }

  /** The first player slot starts `3 + size` bytes into the data. */
  function FirstSlotOffsetAsWritten(data: Bytes): int
    requires |data| >= SizeNeeded(SizeOffset, 4)
  {
    PacketHeaderSize + I32At(data, PacketHeaderSize)
  }

  /** A 31-byte reply declaring size -100 passes the source's checks, and its first player
      slot would be read 97 bytes before the start of the data; Decode rejects it. */
  lemma NegativeSizeReadsBeforeData()
    ensures var data: Bytes := [InfoReply, Broadcast, Host, 0x9C, 0xFF, 0xFF, 0xFF] + Zeros(24);
      && |data| == 31
      && I32At(data, PacketHeaderSize) == -100
      && DecodeSizeAsWritten(data)
      && FirstSlotOffsetAsWritten(data) == -97
      && Decode(data) == None
  {
    var data: Bytes := [InfoReply, Broadcast, Host, 0x9C, 0xFF, 0xFF, 0xFF] + Zeros(24);
    assert data[3] == 0x9C && data[4] == 0xFF && data[5] == 0xFF && data[6] == 0xFF;
  }

  /** With a non-negative size the source's checks are exactly Decode's, and then every
      read of a field or a player slot lies inside the data. */
  lemma DecodeCheckedSizeAgrees(data: Bytes)
    requires |data| >= SizeNeeded(SizeOffset, 4) && I32At(data, PacketHeaderSize) >= 0
    ensures DecodeSizeAsWritten(data)
      <==> |data| >= PacketHeaderSize + I32At(data, PacketHeaderSize) + PlayerNameLength * MaxPlayers
    ensures FirstSlotOffsetAsWritten(data) >= PacketHeaderSize
  {
  }

  // ---------------------------------------------------------------- player-info messages

  const CmdAckPlrInfo: byte := 0x02
  const CmdSendPlrInfo: byte := 0x35
  const TPktCheckOffset: nat := 23
  const TPktCmdOffset: nat := 27
  const TPktOffsetOffset: nat := 28
  const TPktPlayerNameOffset: nat := 35
  const TPktPlayerNameLength: nat := 32

  /** A player seen in the game's own traffic: the IPv6 source address and the name. */
  datatype PlayerIdentity = PlayerIdentity(address: Bytes, name: Bytes)

  /** process_pt_message: the identity a game message carries, if it passes the checks.
      The 3 bytes of packet type and player ids are skipped; a message shorter than that
      is rejected (see TPktLengthAsWritten for the source). */
  function PtIdentity(src: Bytes, pkt: Bytes): (r: Option<PlayerIdentity>)
    ensures r.Some? <==>
      && |pkt| >= 3 + TPktPlayerNameOffset + TPktPlayerNameLength
      && pkt[3 + TPktCheckOffset] == 'p' as int && pkt[3 + TPktCheckOffset + 1] == 'i' as int
      && (pkt[3 + TPktCmdOffset] == CmdAckPlrInfo || pkt[3 + TPktCmdOffset] == CmdSendPlrInfo)
      && pkt[3 + TPktOffsetOffset] == 0 && pkt[3 + TPktOffsetOffset + 1] == 0
    ensures r.Some? ==> (
      && r.value.address == src
      && |r.value.name| <= TPktPlayerNameLength && 0 !in r.value.name
      && r.value.name == pkt[3 + TPktPlayerNameOffset..3 + TPktPlayerNameOffset + |r.value.name|])
    ensures r.Some? && |r.value.name| < TPktPlayerNameLength ==>
      pkt[3 + TPktPlayerNameOffset + |r.value.name|] == 0
  {
    if |pkt| < 3 then None
    else
      var tpkt := pkt[3..];
      if |tpkt| < TPktPlayerNameOffset + TPktPlayerNameLength then None
      else if tpkt[TPktCheckOffset + 1] != 'i' as int || tpkt[TPktCheckOffset] != 'p' as int then None
      else if tpkt[TPktCmdOffset] != CmdAckPlrInfo && tpkt[TPktCmdOffset] != CmdSendPlrInfo then None
      else if tpkt[TPktOffsetOffset] != 0 || tpkt[TPktOffsetOffset + 1] != 0 then None
      else
        var field := tpkt[TPktPlayerNameOffset..TPktPlayerNameOffset + TPktPlayerNameLength];
        var name := UntilNul(field);
        assert field == pkt[3 + TPktPlayerNameOffset..3 + TPktPlayerNameOffset + TPktPlayerNameLength];
        assert name == field[..|name|];
        Some(PlayerIdentity(src, name))
  }

  /** `len - 3` in the source, computed in `size_t`. */
  function TPktLengthAsWritten(len: nat): nat {
    (len - 3) % 0x1_0000_0000_0000_0000
  }

  // ---------------------------------------------------------------- TCP payload frames

  const PtMessage: byte := 0x01

  /** The bodies the frame walk hands to process_pt_message: frames are a 4-byte
      little-endian length and a body; the walk stops at a zero length or at a frame longer
      than what is left, and passes on only bodies whose first byte is PT_MESSAGE. */
  function PtBodies(payload: Bytes): seq<Bytes>
    decreases |payload|
  {
    if |payload| < 4 then []
    else
      var n := U32At(payload, 0);
      if n == 0 || |payload| - 4 < n then []
      else (if payload[4] == PtMessage then [payload[4..4 + n]] else []) + PtBodies(payload[4 + n..])
  }

  /** Every body handed on to process_pt_message starts with PT_MESSAGE. */
  lemma {:induction false} PtBodiesAreMessages(payload: Bytes)
    ensures forall k :: 0 <= k < |PtBodies(payload)| ==>
      |PtBodies(payload)[k]| >= 1 && PtBodies(payload)[k][0] == PtMessage
    decreases |payload|
  {
    if |payload| >= 4 {
      var n := U32At(payload, 0);
      if n != 0 && |payload| - 4 >= n {
        PtBodiesAreMessages(payload[4 + n..]);
      }
    }
  }

  /** How many payload bytes the walk steps over before it stops. */
  function Consumed(payload: Bytes): nat
    decreases |payload|
  {
    if |payload| < 4 then 0
    else
      var n := U32At(payload, 0);
      if n == 0 then 0
      else if |payload| - 4 < n then 4
      else 4 + n + Consumed(payload[4 + n..])
  }

  /** The walk never steps past the end of the payload. */
  lemma {:induction false} ConsumedWithinPayload(payload: Bytes)
    ensures Consumed(payload) <= |payload|
    decreases |payload|
  {
    if |payload| >= 4 {
      var n := U32At(payload, 0);
      if n != 0 && |payload| - 4 >= n {
        ConsumedWithinPayload(payload[4 + n..]);
      }
    }
  }

  /** One complete frame at the front of `frame`: what the walk takes from it and where
      it goes on. */
  lemma FrameStep(frame: Bytes, rest: Bytes, n: nat)
    requires |frame| >= 4 && n == U32At(frame, 0) && n != 0 && rest == frame[4..] && n <= |rest|
    ensures PtBodies(frame) == (if rest[0] == PtMessage then [rest[..n]] else []) + PtBodies(rest[n..])
    ensures Consumed(frame) == 4 + n + Consumed(rest[n..])
  {
    assert frame[4 + n..] == rest[n..];
    assert frame[4..4 + n] == rest[..n];
  }

  /** A frame with a zero length, or longer than what follows it, ends the walk. */
  lemma FrameStop(frame: Bytes)
    requires |frame| >= 4 && (U32At(frame, 0) == 0 || |frame| - 4 < U32At(frame, 0))
    ensures PtBodies(frame) == []
    ensures Consumed(frame) == if U32At(frame, 0) == 0 then 0 else 4
  {
  }

  /** One complete frame keeps the walk's invariant: the bodies so far and those of the
      remaining bytes are the payload's, and so are the bytes consumed. */
  lemma WalkStep(payload: Bytes, bodies: seq<Bytes>, frame: Bytes, n: nat)
    requires |frame| >= 4 && n == U32At(frame, 0) && n != 0 && n <= |frame| - 4
    requires bodies + PtBodies(frame) == PtBodies(payload)
    requires |payload| - |frame| + Consumed(frame) == Consumed(payload)
    ensures var next := bodies + (if frame[4] == PtMessage then [frame[4..4 + n]] else []);
      && next + PtBodies(frame[4 + n..]) == PtBodies(payload)
      && |payload| - |frame[4 + n..]| + Consumed(frame[4 + n..]) == Consumed(payload)
  {
    var rest, tail := frame[4..], frame[4 + n..];
    var head := if frame[4] == PtMessage then [frame[4..4 + n]] else [];
    FrameStep(frame, rest, n);
    assert rest[n..] == tail && rest[..n] == frame[4..4 + n];
    Regroup(bodies, PtBodies(frame), head, PtBodies(tail));
  }

  /** A frame that ends the walk leaves the bodies found so far as the payload's. */
  lemma WalkStop(payload: Bytes, bodies: seq<Bytes>, frame: Bytes)
    requires |frame| >= 4 && (U32At(frame, 0) == 0 || |frame| - 4 < U32At(frame, 0))
    requires bodies + PtBodies(frame) == PtBodies(payload)
    requires |payload| - |frame| + Consumed(frame) == Consumed(payload)
    ensures bodies == PtBodies(payload)
    ensures |payload| - |frame| + (if U32At(frame, 0) == 0 then 0 else 4) == Consumed(payload)
  {
    FrameStop(frame);
    assert bodies + [] == bodies;
  }

  /** An accumulator followed by `head + tail` is the accumulator grown by `head`
      followed by `tail`. */
  lemma Regroup<T>(acc: seq<T>, whole: seq<T>, head: seq<T>, tail: seq<T>)
    requires whole == head + tail
    ensures acc + whole == (acc + head) + tail
  {
  }

  /** The while loop of ethip6_output over the TCP payload (main.cpp:134-147): `rest`
      is what is left after the `payload` pointer, as `payloadLen` counts it there. */
  method WalkFrames(payload: Bytes) returns (bodies: seq<Bytes>, consumed: nat)
    ensures bodies == PtBodies(payload)
    ensures consumed == Consumed(payload)
  {
    var rest := payload;
    bodies := [];
    while |rest| >= 4
      invariant |rest| <= |payload|
      invariant bodies + PtBodies(rest) == PtBodies(payload)
      invariant |payload| - |rest| + Consumed(rest) == Consumed(payload)
      decreases |rest|
    {
      var packetSize := U32At(rest, 0);
      if packetSize == 0 {
        WalkStop(payload, bodies, rest);
        consumed := |payload| - |rest|;
        return;
      }
      if |rest| - 4 < packetSize {
        WalkStop(payload, bodies, rest);
        rest := rest[4..];
        consumed := |payload| - |rest|;
        return;
      }
      WalkStep(payload, bodies, rest, packetSize);
      if rest[4] == PtMessage {
        bodies := bodies + [rest[4..4 + packetSize]];
      }
      rest := rest[4 + packetSize..];
    }
    assert PtBodies(rest) == [] && Consumed(rest) == 0;
    consumed := |payload| - |rest|;
  }

  /** A frame of length 1 carrying only PT_MESSAGE reaches process_pt_message with
      len = 1; the source's `len - 3` wraps to a huge value, so its length check passes and
      the flag bytes are read past the one-byte body. PtIdentity rejects it. */
  lemma ShortFrameUnderflows()
    ensures var payload: Bytes := [1, 0, 0, 0, PtMessage];
      && PtBodies(payload) == [[PtMessage]]
      && TPktLengthAsWritten(1) >= TPktPlayerNameOffset + TPktPlayerNameLength
      && PtIdentity([], [PtMessage]) == None
  {
    var payload: Bytes := [1, 0, 0, 0, PtMessage];
    assert U32At(payload, 0) == 1;
    assert payload[5..] == [];
    assert payload[4..5] == [PtMessage];
  }

  /** For a message of three bytes or more the source's check and PtIdentity's agree. */
  lemma TPktLengthAgrees(len: nat)
    requires 3 <= len < 0x1_0000_0000_0000_0000
    ensures TPktLengthAsWritten(len) == len - 3
  {
  }

  /** What process_pt_message appends for one message: its identity, if any. */
  function Found(src: Bytes, pkt: Bytes): seq<PlayerIdentity> {
    match PtIdentity(src, pkt)
    case Some(p) => [p]
    case None => []
  }

  /** The identities, in frame order, that the bodies yield. */
  function Identities(src: Bytes, bodies: seq<Bytes>): seq<PlayerIdentity>
  {
    if bodies == [] then [] else Identities(src, bodies[..|bodies| - 1]) + Found(src, bodies[|bodies| - 1])
  }

  /** The identities of one more body are those found so far and the new body's. */
  lemma IdentitiesSnoc(src: Bytes, bodies: seq<Bytes>, i: nat)
    requires i < |bodies|
    ensures Identities(src, bodies[..i + 1]) == Identities(src, bodies[..i]) + Found(src, bodies[i])
  {
    assert bodies[..i + 1][..i] == bodies[..i];
  }

  /** Every identity found carries the packet's source address and a bounded name. */
  lemma {:induction false} IdentitiesFromSource(src: Bytes, bodies: seq<Bytes>)
    ensures |Identities(src, bodies)| <= |bodies|
    ensures forall k :: 0 <= k < |Identities(src, bodies)| ==>
      Identities(src, bodies)[k].address == src && |Identities(src, bodies)[k].name| <= TPktPlayerNameLength
  {
    if bodies != [] {
      IdentitiesFromSource(src, bodies[..|bodies| - 1]);
    }
  }

  /** player_identities and the functions that append to and drain it. */
  class SightingLog {
    var identities: seq<PlayerIdentity>

    constructor ()
      ensures identities == []
    {
      identities := [];
    }

    /** process_pt_message: append the identity the message carries, if any. */
    method ProcessPtMessage(src: Bytes, pkt: Bytes)
      modifies this
      ensures identities == old(identities) + Found(src, pkt)
    {
      var id := PtIdentity(src, pkt);
      if id.Some? {
        identities := identities + [id.value];
      }
    }

    /** The frame walk of ethip6_output with process_pt_message applied to each body. */
    method ProcessTcpPayload(src: Bytes, payload: Bytes)
      modifies this
      ensures identities == old(identities) + Identities(src, PtBodies(payload))
    {
      var bodies, _ := WalkFrames(payload);
      ghost var start := identities;
      var i := 0;
      while i < |bodies|
        invariant 0 <= i <= |bodies|
        invariant identities == start + Identities(src, bodies[..i])
      {
        ghost var before := identities;
        ProcessPtMessage(src, bodies[i]);
        IdentitiesSnoc(src, bodies, i);
        assert identities == start + (Identities(src, bodies[..i]) + Found(src, bodies[i]));
        i := i + 1;
      }
      assert bodies[..i] == bodies;
    }

    /** get_player_sightings: hand over everything logged and start afresh. */
    method GetPlayerSightings() returns (sightings: seq<PlayerIdentity>)
      modifies this
      ensures sightings == old(identities) && identities == []
    {
      sightings := identities;
      identities := [];
    }
  }

  // ---------------------------------------------------------------- aggregation by id

  /** `gameList[game.id] = game` for every datagram that decodes, in arrival order. */
  function Collect(games: map<Bytes, GameInfo>, datagrams: seq<Bytes>): map<Bytes, GameInfo>
  {
    if datagrams == [] then games
    else
      var before := Collect(games, datagrams[..|datagrams| - 1]);
      match Decode(datagrams[|datagrams| - 1])
      case Some(g) => before[g.id := g]
      case None => before
  }

  /** The last reply with the given id among the datagrams, found from the end. */
  function LatestFor(datagrams: seq<Bytes>, id: Bytes): Option<GameInfo>
  {
    if datagrams == [] then None
    else
      var last := Decode(datagrams[|datagrams| - 1]);
      if last.Some? && last.value.id == id then last else LatestFor(datagrams[..|datagrams| - 1], id)
  }

  /** After collecting, each id maps to its latest decoded reply; an id no datagram
      carries keeps its earlier entry (or stays absent). */
  lemma {:induction false} CollectLatestWins(games: map<Bytes, GameInfo>, datagrams: seq<Bytes>, id: Bytes)
    ensures LatestFor(datagrams, id).Some? ==>
      id in Collect(games, datagrams) && Collect(games, datagrams)[id] == LatestFor(datagrams, id).value
    ensures LatestFor(datagrams, id).None? ==>
      (id in Collect(games, datagrams) <==> id in games)
      && (id in games ==> Collect(games, datagrams)[id] == games[id])
  {
    if datagrams != [] {
      CollectLatestWins(games, datagrams[..|datagrams| - 1], id);
    }
  }

  /** The collector's state in main: the games decoded since the last write, and the
      reply and sighting counters. */
  class GameCollector {
    var gameList: map<Bytes, GameInfo>
    var totalReplies: nat
    var totalSightings: nat

    constructor ()
      ensures gameList == map[] && totalReplies == 0 && totalSightings == 0
    {
      gameList := map[];
      totalReplies := 0;
      totalSightings := 0;
    }

    /** The inner `while(recv(peer, data))` loop over the datagrams that are waiting. */
    method ReceiveReplies(datagrams: seq<Bytes>)
      modifies this
      ensures gameList == Collect(old(gameList), datagrams)
      ensures totalReplies == old(totalReplies) + DecodedCount(datagrams)
      ensures totalSightings == old(totalSightings)
    {
      var i := 0;
      while i < |datagrams|
        invariant 0 <= i <= |datagrams|
        invariant gameList == Collect(old(gameList), datagrams[..i])
        invariant totalReplies == old(totalReplies) + DecodedCount(datagrams[..i])
        invariant totalSightings == old(totalSightings)
      {
        assert datagrams[..i + 1][..i] == datagrams[..i];
        var game := DecodeReply(datagrams[i]);
        if game.Some? {
          gameList := gameList[game.value.id := game.value];
          totalReplies := totalReplies + 1;
        }
        i := i + 1;
      }
      assert datagrams[..i] == datagrams;
    }

    /** One pass of the outer loop after receiving: drain the sightings, and when there is
      anything to report and the output file could be created (`fileCreated`), hand over
      the games and sightings written and forget the games. */
    method Publish(log: SightingLog, fileCreated: bool) returns (written: Option<(map<Bytes, GameInfo>, seq<PlayerIdentity>)>)
      modifies this, log
      ensures log.identities == []
      ensures totalSightings == old(totalSightings) + |old(log.identities)|
      ensures totalReplies == old(totalReplies)
      ensures (old(gameList) != map[] || old(log.identities) != []) && fileCreated ==>
        written == Some((old(gameList), old(log.identities))) && gameList == map[]
      ensures !((old(gameList) != map[] || old(log.identities) != []) && fileCreated) ==>
        written == None && gameList == old(gameList)
    {
      var sightings := log.GetPlayerSightings();
      totalSightings := totalSightings + |sightings|;
      written := None;
      if (gameList != map[] || sightings != []) && fileCreated {
        written := Some((gameList, sightings));
        gameList := map[];
      }
    }
  }

  /** How many of the datagrams decode. */
  function DecodedCount(datagrams: seq<Bytes>): (n: nat)
    ensures n <= |datagrams|
  {
    if datagrams == [] then 0
    else DecodedCount(datagrams[..|datagrams| - 1]) + (if Decode(datagrams[|datagrams| - 1]).Some? then 1 else 0)
  }
}
