/** The non-interactive part of the `config-preview` command: which embed
    entry a type name selects, the sample placeholders for a preview, the
    edits that save a field or toggle embed mode, and two string helpers. */
module ConfigPreview {

  import opened JavaString
  import opened JavaUtf16
  import opened JavaColor

  /** The fields of an embed entry the command reads and edits. */
  datatype EntryState = EntryState(asEmbed: bool, customTitle: string, customDescription: string, colorHexCode: string)

  /** One `EmbedEntry` of the configuration. */
  class EmbedEntry {
    var asEmbed: bool
    var customTitle: string
    var customDescription: string
    var colorHexCode: string

    constructor(asEmbed: bool, customTitle: string, customDescription: string, colorHexCode: string)
      ensures State() == EntryState(asEmbed, customTitle, customDescription, colorHexCode)
    {
      this.asEmbed := asEmbed;
      this.customTitle := customTitle;
      this.customDescription := customDescription;
      this.colorHexCode := colorHexCode;
    }

    function State(): EntryState
      reads this
    {
      EntryState(asEmbed, customTitle, customDescription, colorHexCode)
    }
  }

  /** The `embedMode` section: one entry per kind of message. */
  class EmbedMode {
    var playerJoinMessage: EmbedEntry
    var playerLeaveMessages: EmbedEntry
    var deathMessage: EmbedEntry
    var advancementMessage: EmbedEntry
    var chatMessages: EmbedEntry
    var startMessages: EmbedEntry
    var stopMessages: EmbedEntry

    constructor(join: EmbedEntry, leave: EmbedEntry, death: EmbedEntry, advancement: EmbedEntry,
                chat: EmbedEntry, start: EmbedEntry, stop: EmbedEntry)
      ensures playerJoinMessage == join && playerLeaveMessages == leave && deathMessage == death
      ensures advancementMessage == advancement && chatMessages == chat
      ensures startMessages == start && stopMessages == stop
    {
      playerJoinMessage := join;
      playerLeaveMessages := leave;
      deathMessage := death;
      advancementMessage := advancement;
      chatMessages := chat;
      startMessages := start;
      stopMessages := stop;
    }
  }

  /** The type names the command knows. */
  const EmbedTypes: set<string> := {"join", "leave", "death", "advancement", "chat", "start", "stop"}

  /** `getEmbedEntry`: the entry a type name selects, `None` (null) for any
      other name. */
  function GetEmbedEntry(mode: EmbedMode, embedType: string): (r: Option<EmbedEntry>)
    reads mode
    ensures r.Some? <==> embedType in EmbedTypes
  {
    match embedType
    case "join" => Some(mode.playerJoinMessage)
    case "leave" => Some(mode.playerLeaveMessages)
    case "death" => Some(mode.deathMessage)
    case "advancement" => Some(mode.advancementMessage)
    case "chat" => Some(mode.chatMessages)
    case "start" => Some(mode.startMessages)
    case "stop" => Some(mode.stopMessages)
    case _ => None
  }

  /** The entries an edit of `embedType` may change: the one it selects. */
  function Selected(mode: EmbedMode, embedType: string): set<EmbedEntry>
    reads mode
  {
    if GetEmbedEntry(mode, embedType).Some? then {GetEmbedEntry(mode, embedType).value} else {}
  }

  /** An edit of an unknown type may change no entry; a known type selects
      exactly its own entry. */
  lemma SelectedEntries(mode: EmbedMode, embedType: string)
    ensures embedType !in EmbedTypes ==> Selected(mode, embedType) == {}
    ensures embedType == "join" ==> Selected(mode, embedType) == {mode.playerJoinMessage}
    ensures embedType == "leave" ==> Selected(mode, embedType) == {mode.playerLeaveMessages}
    ensures embedType == "death" ==> Selected(mode, embedType) == {mode.deathMessage}
    ensures embedType == "advancement" ==> Selected(mode, embedType) == {mode.advancementMessage}
    ensures embedType == "chat" ==> Selected(mode, embedType) == {mode.chatMessages}
    ensures embedType == "start" ==> Selected(mode, embedType) == {mode.startMessages}
    ensures embedType == "stop" ==> Selected(mode, embedType) == {mode.stopMessages}
  {
  }

  /** `getSamplePlaceholders`: the sample values a preview of each type is
      filled with; none for an unknown type. The samples agree with each
      other: a player's event message starts with the player's name, and a
      death message is the name followed by the death text. */
  function GetSamplePlaceholders(embedType: string): (r: map<string, string>)
    ensures "msg" in r <==> embedType in EmbedTypes
    ensures embedType !in EmbedTypes ==> r == map[]
  {
    match embedType
    case "join" => map["player" := "Steve", "msg" := "Steve joined the game"]
    case "leave" => map["player" := "Alex", "msg" := "Alex left the game"]
    case "death" => map["player" := "Notch", "msg" := "Notch was slain by Zombie",
                        "deathMessage" := "was slain by Zombie"]
    case "advancement" =>
      map["player" := "Dinnerbone", "advName" := "Diamonds!", "advDesc" := "Acquire diamonds",
          "msg" := "Dinnerbone" + " has made the advancement [Diamonds!]"]
    case "chat" => map["player" := "jeb_", "msg" := "Hello, world!"]
    case "start" => map["msg" := "Server is starting..."]
    case "stop" => map["msg" := "Server stopped"]
    case _ => map[]
  }

  /** Every known type has a `msg` sample; a death adds `deathMessage`, an
      advancement `advName` and `advDesc`; every type but start and stop
      names a player; an unknown type has no samples at all. */
  lemma SamplePlaceholderKeys(embedType: string)
    ensures embedType in EmbedTypes ==> "msg" in GetSamplePlaceholders(embedType)
    ensures embedType !in EmbedTypes ==> GetSamplePlaceholders(embedType) == map[]
    ensures "deathMessage" in GetSamplePlaceholders(embedType) <==> embedType == "death"
    ensures ("advName" in GetSamplePlaceholders(embedType) || "advDesc" in GetSamplePlaceholders(embedType))
            <==> embedType == "advancement"
    ensures "player" in GetSamplePlaceholders(embedType)
            <==> embedType in EmbedTypes && embedType != "start" && embedType != "stop"
  {
  }

  /** The sample messages agree with the sample player: each player event's
      message opens with the player's name, and a death message is the name
      followed by the death text. */
  lemma SampleMessagesNamePlayer(embedType: string)
    requires embedType in {"join", "leave", "death", "advancement"}
    ensures var r := GetSamplePlaceholders(embedType);
              "player" in r && "msg" in r && StartsWithAt(r["msg"], r["player"], 0)
    ensures embedType == "death" ==>
              var r := GetSamplePlaceholders(embedType);
              "deathMessage" in r && r["msg"] == r["player"] + " " + r["deathMessage"]
  {
    match embedType {
      case "join" =>
        assert StartsWithAt("Steve joined the game", "Steve", 0);
      case "leave" =>
        assert StartsWithAt("Alex left the game", "Alex", 0);
      case "death" =>
        assert "Notch was slain by Zombie" == "Notch" + " " + "was slain by Zombie";
        assert StartsWithAt("Notch was slain by Zombie", "Notch", 0);
      case "advancement" =>
        assert StartsWithAt("Dinnerbone" + " has made the advancement [Diamonds!]", "Dinnerbone", 0);
    }
  }

  /** A colour is stored only when it is present, non-empty, starts with
      `#`, has seven characters and `Color.decode` accepts it. */
  predicate ColorAccepted(value: Option<string>) {
    value.Some? && value.value != "" && StartsWithAt(value.value, "#", 0) && |value.value| == 7
    && DecodeColor(value).ColorOk?
  }

  /** The entry after `saveField` with this field type and value. */
  function SavedField(s: EntryState, fieldType: string, value: Option<string>): EntryState {
    match fieldType
    case "title" => s.(customTitle := if value.Some? then value.value else "")
    case "desc" => s.(customDescription := if value.Some? then value.value else "")
    case "color" => if ColorAccepted(value) then s.(colorHexCode := value.value) else s
    case _ => s
  }

  /** `saveField`: edit one field of the selected entry, validating colours. */
  method SaveField(mode: EmbedMode, embedType: string, fieldType: string, value: Option<string>)
    modifies Selected(mode, embedType)
    ensures GetEmbedEntry(mode, embedType).Some? ==>
              GetEmbedEntry(mode, embedType).value.State()
              == SavedField(old(GetEmbedEntry(mode, embedType).value.State()), fieldType, value)
  {
    var selected := GetEmbedEntry(mode, embedType);
    if selected.None? {
      return;
    }
    var entry := selected.value;
    match fieldType {
      case "title" =>
        entry.customTitle := if value.Some? then value.value else "";
      case "desc" =>
        entry.customDescription := if value.Some? then value.value else "";
      case "color" =>
        if value.Some? && value.value != "" {
          if StartsWithAt(value.value, "#", 0) && |value.value| == 7 {
            match DecodeColor(value) {
              case ColorOk(_) =>
                entry.colorHexCode := value.value;
              case ColorNumberFormatError =>
              case ColorNullPointer =>
            }
          }
        }
      case _ =>
    }
  }

  /** The entry with its embed mode switched. */
  function Toggled(s: EntryState): EntryState {
    s.(asEmbed := !s.asEmbed)
  }

  /** `toggleEmbed`: switch the selected entry between embed and plain text. */
  method ToggleEmbed(mode: EmbedMode, embedType: string)
    modifies Selected(mode, embedType)
    ensures GetEmbedEntry(mode, embedType).Some? ==>
              GetEmbedEntry(mode, embedType).value.State()
              == Toggled(old(GetEmbedEntry(mode, embedType).value.State()))
  {
    var selected := GetEmbedEntry(mode, embedType);
    if selected.Some? {
      var entry := selected.value;
      entry.asEmbed := !entry.asEmbed;
    }
  }

  /** Toggling twice gives the entry back as it was. */
  lemma ToggleTwiceRestores(s: EntryState)
    ensures Toggled(Toggled(s)) == s
    ensures Toggled(s).asEmbed != s.asEmbed
  {
  }

  /** Saving the same value twice is saving it once. */
  lemma SaveFieldIdempotent(s: EntryState, fieldType: string, value: Option<string>)
    ensures SavedField(SavedField(s, fieldType, value), fieldType, value) == SavedField(s, fieldType, value)
  {
  }

  /** A title or description is stored as given, a null one as the empty
      string; a rejected colour or an unknown field leaves the entry as it
      was; and an edit never touches the embed flag. */
  lemma SaveFieldEffects(s: EntryState, fieldType: string, value: Option<string>)
    ensures fieldType == "title" ==> SavedField(s, fieldType, value).customTitle == (if value.Some? then value.value else "")
    ensures fieldType == "desc" ==> SavedField(s, fieldType, value).customDescription == (if value.Some? then value.value else "")
    ensures fieldType == "color" ==>
              SavedField(s, fieldType, value).colorHexCode == if ColorAccepted(value) then value.value else s.colorHexCode
    ensures fieldType !in {"title", "desc", "color"} ==> SavedField(s, fieldType, value) == s
    ensures SavedField(s, fieldType, value).asEmbed == s.asEmbed
  {
  }

  /** For the shape the command checks, accepted means exactly `#` followed
      by six hexadecimal digits. */
  lemma ColorAcceptedIff(value: Option<string>)
    ensures ColorAccepted(value)
            <==> value.Some? && |value.value| == 7 && value.value[0] == '#'
                 && forall i :: 1 <= i < 7 ==> IsHexDigit(value.value[i])
  {
    if value.Some? && |value.value| == 7 && value.value[0] == '#' {
      assert value.value[0..1] == "#";
      HashSixDecodes(value.value);
    }
  }

  /** Any colour written `#RRGGBB` is stored. */
  lemma HexColorStored(s: EntryState, rgb: nat)
    requires rgb < 0x100_0000
    ensures SavedField(s, "color", Some("#" + HexDigits(rgb, 6))).colorHexCode == "#" + HexDigits(rgb, 6)
  {
    var v := "#" + HexDigits(rgb, 6);
    HexColorRoundTrip(rgb);
    assert v[0..1] == "#";
  }

  /** `truncate`, on the UTF-16 units Java counts: null becomes the empty
      string; a string longer than `maxLength` units is cut to that many
      units followed by "...". */
  function Truncate(str: Option<string>, maxLength: nat): (r: seq<CodeUnit>)
    ensures str.None? ==> r == []
    ensures |r| <= maxLength + 3
    ensures str.Some? && |Utf16(str.value)| <= maxLength ==> r == Utf16(str.value)
    ensures str.Some? && |Utf16(str.value)| > maxLength ==>
              |r| == maxLength + 3 && r[..maxLength] == Utf16(str.value)[..maxLength] && r[maxLength..] == Utf16("...")
  {
    BmpLength("...");
    if str.None? then []
    else if |Utf16(str.value)| > maxLength then Utf16(str.value)[..maxLength] + Utf16("...")
    else Utf16(str.value)
  }

  /** For text in the Basic Multilingual Plane the cut falls after
      `maxLength` characters, and the result reads back as them plus "...". */
  lemma TruncateBmp(s: string, maxLength: nat)
    requires InBmp(s) && |s| > maxLength
    ensures FromUtf16(Truncate(Some(s), maxLength)) == Some(s[..maxLength] + "...")
  {
    BmpLength(s);
    BmpCut(s, maxLength);
    Utf16Append(s[..maxLength], "...");
    Utf16RoundTrip(s[..maxLength] + "...");
  }

  /** `capitalize`: the first character upper-cased, the rest kept; null and
      the empty string come back as they are. */
  function Capitalize(str: Option<string>): (r: Option<string>)
    ensures r.Some? <==> str.Some?
    ensures r.Some? ==> |r.value| == |str.value| && (|r.value| > 0 ==> r.value[1..] == str.value[1..])
  {
    if str.None? || str.value == "" then str
    else Some([UpperChar(str.value[0])] + str.value[1..])
  }

  /** Capitalizing twice is capitalizing once. */
  lemma CapitalizeIdempotent(str: Option<string>)
    ensures Capitalize(Capitalize(str)) == Capitalize(str)
  {
    if str.Some? && str.value != "" {
      var once := Capitalize(str).value;
      assert once[0] == UpperChar(str.value[0]);
      assert UpperChar(once[0]) == once[0];
      assert [once[0]] + once[1..] == once;
    }
  }
}
