/** `PatternMatchResult`: the outcome of checking one console line against
    the message-pattern rules, the three questions callers ask of it, and
    the replacement message it builds. */
module PatternMatching {

  import opened JavaString
  import opened JavaUtf16
  import opened JavaColor
  import opened RegexOracle

  /** One configured message pattern; `None` stands for a null field. */
  datatype MessagePattern = MessagePattern(
    pattern: Option<string>,
    replacement: Option<string>,
    suppressOriginal: bool,
    channelID: Option<string>,
    asEmbed: bool,
    embedTitle: Option<string>,
    embedDescription: Option<string>,
    embedColor: Option<string>)

  /** A `Matcher` as `replaceAll` sees it: its pattern, its input and the
      matches a search from the start of the input finds. */
  datatype MatchState = MatchState(regex: Pattern, input: string, spans: seq<Span>)

  type Matcher = m: MatchState | SpansFit(m.input, m.spans, 0, m.regex.groupCount)
    witness MatchState(Pattern("", 0, map[]), "", [])

  datatype PatternMatchResult = PatternMatchResult(
    matched: bool,
    pattern: Option<MessagePattern>,
    originalMessage: Option<string>,
    matcher: Option<Matcher>)

  /** The embed part of an outgoing message: colour as `0xRRGGBB`, and the
      title and description when they were set. */
  datatype Embed = Embed(color: nat, title: Option<seq<CodeUnit>>, description: Option<seq<CodeUnit>>)

  /** An outgoing Discord message: its plain text and possibly an embed. */
  datatype DiscordMessage = DiscordMessage(message: string, embed: Option<Embed>)

  /** `PatternMatchResult.noMatch()`. */
  function NoMatch(): PatternMatchResult {
    PatternMatchResult(false, None, None, None)
  }

  /** `PatternMatchResult.match(pattern, originalMessage, matcher)`. */
  function Match(pattern: MessagePattern, originalMessage: string, matcher: Matcher): PatternMatchResult {
    PatternMatchResult(true, Some(pattern), Some(originalMessage), Some(matcher))
  }

  predicate NonEmpty(s: Option<string>) {
    s.Some? && s.value != ""
  }

  /** `shouldSuppressOriginal`: only a match can suppress the line, and a
      match does so exactly when its rule asks for it. */
  predicate ShouldSuppressOriginal(res: PatternMatchResult)
    ensures !res.matched ==> !ShouldSuppressOriginal(res)
    ensures res.matched && res.pattern.Some? ==> (ShouldSuppressOriginal(res) <==> res.pattern.value.suppressOriginal)
  {
    res.matched && res.pattern.Some? && res.pattern.value.suppressOriginal
  }

  /** `hasReplacement`: a match whose rule has a non-empty replacement, or
      is an embed rule with a non-empty title or description; embed fields
      on a plain-text rule do not count. */
  predicate HasReplacement(res: PatternMatchResult)
    ensures !res.matched || res.pattern.None? ==> !HasReplacement(res)
    ensures res.matched && res.pattern.Some? && !res.pattern.value.asEmbed ==>
              (HasReplacement(res) <==> NonEmpty(res.pattern.value.replacement))
    ensures res.matched && res.pattern.Some? && res.pattern.value.asEmbed && !NonEmpty(res.pattern.value.replacement) ==>
              (HasReplacement(res) <==> NonEmpty(res.pattern.value.embedTitle) || NonEmpty(res.pattern.value.embedDescription))
  {
    res.matched && res.pattern.Some? &&
    var p := res.pattern.value;
    NonEmpty(p.replacement) || (p.asEmbed && (NonEmpty(p.embedTitle) || NonEmpty(p.embedDescription)))
  }

  /** `getTargetChannelID`: the rule's channel, unless there is no match or
      the rule says "default" (a null channel is returned as null). */
  function GetTargetChannelID(res: PatternMatchResult, originalChannelID: Option<string>): (r: Option<string>)
    ensures r == originalChannelID || (res.matched && res.pattern.Some? && r == res.pattern.value.channelID)
    ensures r == Some("default") ==> originalChannelID == Some("default")
    ensures res.matched && res.pattern.Some? && res.pattern.value.channelID != Some("default") ==> r == res.pattern.value.channelID
  {
    if !res.matched || res.pattern.None? then originalChannelID
    else if res.pattern.value.channelID == Some("default") then originalChannelID
    else res.pattern.value.channelID
  }

  /** `matcher.replaceAll(t)`; `None` for the exception it throws on a bad
      replacement string, or on a null matcher. */
  function Substitute(matcher: Option<Matcher>, t: string): Option<string> {
    match matcher
    case None => None
    case Some(m) =>
      match ReplaceAll(m.input, m.regex, m.spans, t)
      case Expanded(text) => Some(text)
      case ExpandError(_) => None
  }

  /** An embed title or description: not set, set, or failed. */
  datatype Field = Unset | Set(text: seq<CodeUnit>) | Failed

  /** A title or description is set only when configured non-empty, and is
      then the substituted text as UTF-16 units, cut to `limit` of them. */
  function FieldText(matcher: Option<Matcher>, configured: Option<string>, limit: nat): Field {
    if !NonEmpty(configured) then Unset
    else
      match Substitute(matcher, configured.value)
      case None => Failed
      case Some(text) => Set(Cap(Utf16(text), limit))
  }

  function FieldValue(f: Field): Option<seq<CodeUnit>> {
    if f.Set? then Some(f.text) else None
  }

  /** The embed colour: the decoded colour, gray when it does not parse as
      a number, and `None` when the colour is null (`Color.decode` then
      throws a `NullPointerException`, which the outer handler catches). */
  function EmbedColor(configured: Option<string>): Option<nat> {
    match DecodeColor(configured)
    case ColorOk(rgb) => Some(rgb)
    case ColorNumberFormatError => Some(Gray)
    case ColorNullPointer => None
  }

  const TitleLimit: nat := 256
  const DescriptionLimit: nat := 4096

  /** What `buildReplacementMessage` returns, `None` standing for null. */
  function ReplacementMessage(res: PatternMatchResult): Option<DiscordMessage> {
    if !res.matched || res.pattern.None? || !HasReplacement(res) then None
    else
      var p := res.pattern.value;
      if p.asEmbed then
        var color := EmbedColor(p.embedColor);
        var title := FieldText(res.matcher, p.embedTitle, TitleLimit);
        var description := FieldText(res.matcher, p.embedDescription, DescriptionLimit);
        if color.None? || title.Failed? || description.Failed? then None
        else Some(DiscordMessage("", Some(Embed(color.value, FieldValue(title), FieldValue(description)))))
      else
        var replacement := if p.replacement.Some? then p.replacement.value else "";
        if replacement == "" then Some(DiscordMessage(replacement, None))
        else
          match Substitute(res.matcher, replacement)
          case None => None
          case Some(text) => Some(DiscordMessage(text, None))
  }

  /** `buildReplacementMessage`, step by step: the colour, then the title,
      then the description, any exception ending the build with null. */
  method BuildReplacementMessage(res: PatternMatchResult) returns (r: Option<DiscordMessage>)
    ensures r == ReplacementMessage(res)
  {
    if !res.matched || res.pattern.None? || !HasReplacement(res) {
      return None;
    }
    var p := res.pattern.value;
    if p.asEmbed {
      var color: nat;
      match DecodeColor(p.embedColor) {
        case ColorOk(rgb) => color := rgb;
        case ColorNumberFormatError => color := Gray;
        case ColorNullPointer => return None;
      }
      var title: Option<seq<CodeUnit>> := None;
      if p.embedTitle.Some? && p.embedTitle.value != "" {
        var substituted := Substitute(res.matcher, p.embedTitle.value);
        if substituted.None? {
          return None;
        }
        var t := Utf16(substituted.value);
        if |t| > TitleLimit {
          t := t[..TitleLimit];
        }
        title := Some(t);
      }
      var description: Option<seq<CodeUnit>> := None;
      if p.embedDescription.Some? && p.embedDescription.value != "" {
        var substituted := Substitute(res.matcher, p.embedDescription.value);
        if substituted.None? {
          return None;
        }
        var d := Utf16(substituted.value);
        if |d| > DescriptionLimit {
          d := d[..DescriptionLimit];
        }
        description := Some(d);
      }
      return Some(DiscordMessage("", Some(Embed(color, title, description))));
    } else {
      var replacement := if p.replacement.Some? then p.replacement.value else "";
      if replacement != "" {
        var substituted := Substitute(res.matcher, replacement);
        if substituted.None? {
          return None;
        }
        replacement := substituted.value;
      }
      return Some(DiscordMessage(replacement, None));
    }
  }

  // ---------------------------------------------------------------------------
  // Properties

  /** The no-match result suppresses nothing, replaces nothing, keeps the
      original channel and builds no message. */
  lemma NoMatchIsInert(originalChannelID: Option<string>)
    ensures !NoMatch().matched && NoMatch().originalMessage.None?
    ensures !ShouldSuppressOriginal(NoMatch()) && !HasReplacement(NoMatch())
    ensures GetTargetChannelID(NoMatch(), originalChannelID) == originalChannelID
    ensures ReplacementMessage(NoMatch()).None?
  {
  }

  /** A match answers with its rule: suppression is the rule's flag, the
      channel is the rule's unless it says "default". */
  lemma MatchFollowsRule(p: MessagePattern, msg: string, m: Matcher, originalChannelID: Option<string>)
    ensures Match(p, msg, m).matched && Match(p, msg, m).originalMessage == Some(msg)
    ensures ShouldSuppressOriginal(Match(p, msg, m)) <==> p.suppressOriginal
    ensures GetTargetChannelID(Match(p, msg, m), originalChannelID)
            == if p.channelID == Some("default") then originalChannelID else p.channelID
  {
  }

  /** A message is built only for a match that has a replacement. */
  lemma BuiltOnlyWithReplacement(res: PatternMatchResult)
    ensures ReplacementMessage(res).Some? ==> res.matched && HasReplacement(res)
  {
  }

  /** An embed message has no plain text; its title and description are
      set exactly when configured non-empty, are prefixes of the UTF-16
      units of the substituted text, equal to them when they fit, and
      otherwise exactly 256 and 4096 units long. */
  lemma EmbedWithinLimits(res: PatternMatchResult)
    requires ReplacementMessage(res).Some? && res.pattern.value.asEmbed
    ensures var msg := ReplacementMessage(res).value;
            msg.message == "" && msg.embed.Some?
    ensures var e := ReplacementMessage(res).value.embed.value;
            var p := res.pattern.value;
            (e.title.Some? <==> NonEmpty(p.embedTitle)) &&
            (e.description.Some? <==> NonEmpty(p.embedDescription))
    ensures var e := ReplacementMessage(res).value.embed.value;
            var p := res.pattern.value;
            e.title.Some? ==>
              var full := Substitute(res.matcher, p.embedTitle.value);
              full.Some? && |e.title.value| <= TitleLimit && e.title.value <= Utf16(full.value) &&
              (|Utf16(full.value)| <= TitleLimit ==> e.title.value == Utf16(full.value)) &&
              (|Utf16(full.value)| > TitleLimit ==> |e.title.value| == TitleLimit)
    ensures var e := ReplacementMessage(res).value.embed.value;
            var p := res.pattern.value;
            e.description.Some? ==>
              var full := Substitute(res.matcher, p.embedDescription.value);
              full.Some? && |e.description.value| <= DescriptionLimit && e.description.value <= Utf16(full.value) &&
              (|Utf16(full.value)| <= DescriptionLimit ==> e.description.value == Utf16(full.value)) &&
              (|Utf16(full.value)| > DescriptionLimit ==> |e.description.value| == DescriptionLimit)
  {
  }

  /** A colour that is not a number falls back to gray; one that decodes is
      used as it is; a null colour makes the whole build fail. */
  lemma EmbedColorChoice(res: PatternMatchResult)
    requires res.matched && res.pattern.Some? && HasReplacement(res) && res.pattern.value.asEmbed
    ensures DecodeColor(res.pattern.value.embedColor).ColorNullPointer? ==> ReplacementMessage(res).None?
    ensures ReplacementMessage(res).Some? && DecodeColor(res.pattern.value.embedColor).ColorNumberFormatError?
            ==> ReplacementMessage(res).value.embed.value.color == Gray
    ensures ReplacementMessage(res).Some? && DecodeColor(res.pattern.value.embedColor).ColorOk?
            ==> ReplacementMessage(res).value.embed.value.color == DecodeColor(res.pattern.value.embedColor).rgb
    ensures DecodeColor(res.pattern.value.embedColor).ColorNumberFormatError?
            && !FieldText(res.matcher, res.pattern.value.embedTitle, TitleLimit).Failed?
            && !FieldText(res.matcher, res.pattern.value.embedDescription, DescriptionLimit).Failed?
            ==> ReplacementMessage(res).Some?
  {
  }

  /** A plain replacement is the message with every match replaced by the
      substituted replacement string, or `None` when that throws. */
  lemma PlainIsReplaceAll(res: PatternMatchResult)
    requires res.matched && res.pattern.Some? && !res.pattern.value.asEmbed
    requires NonEmpty(res.pattern.value.replacement)
    ensures HasReplacement(res)
    ensures ReplacementMessage(res).Some? <==> Substitute(res.matcher, res.pattern.value.replacement.value).Some?
    ensures ReplacementMessage(res).Some? ==>
              ReplacementMessage(res).value
              == DiscordMessage(Substitute(res.matcher, res.pattern.value.replacement.value).value, None)
  {
  }

  /** A rule whose regex spans the whole line and whose replacement has no
      `$` or `\` replaces the line by exactly that replacement. */
  lemma WholeLineLiteral(p: MessagePattern, msg: string, regex: Pattern, groups: seq<Option<string>>)
    requires !p.asEmbed && NonEmpty(p.replacement)
    requires forall k :: 0 <= k < |p.replacement.value| ==> p.replacement.value[k] != '$' && p.replacement.value[k] != '\\'
    requires |groups| == regex.groupCount
    ensures SpansFit(msg, [Span(0, |msg|, groups)], 0, regex.groupCount)
    ensures var m: Matcher := MatchState(regex, msg, [Span(0, |msg|, groups)]);
            ReplacementMessage(Match(p, msg, m)) == Some(DiscordMessage(p.replacement.value, None))
  {
    WholeMatchIsExpansion(msg, regex, groups, p.replacement.value);
    LiteralExpands(p.replacement.value, [Some(msg)] + groups, regex.groupNames);
    var m: Matcher := MatchState(regex, msg, [Span(0, |msg|, groups)]);
    assert Substitute(Some(m), p.replacement.value) == Some(p.replacement.value);
    PlainReplacement(Match(p, msg, m), p.replacement.value);
  }

  /** A plain-text rule with a replacement sends the substituted text. */
  lemma PlainReplacement(res: PatternMatchResult, text: string)
    requires res.matched && res.pattern.Some?
    requires var p := res.pattern.value;
             !p.asEmbed && NonEmpty(p.replacement) && Substitute(res.matcher, p.replacement.value) == Some(text)
    ensures ReplacementMessage(res) == Some(DiscordMessage(text, None))
  {
  }

  /** An embed title `$1` over a whole-line match is the text group 1
      captured, as UTF-16 units cut to 256. */
  lemma GroupOneTitle(p: MessagePattern, msg: string, regex: Pattern, captured: string, rest: seq<Option<string>>)
    requires p.asEmbed && p.embedTitle == Some("$1") && !NonEmpty(p.embedDescription)
    requires DecodeColor(p.embedColor).ColorOk?
    requires regex.groupCount == 1 + |rest|
    ensures SpansFit(msg, [Span(0, |msg|, [Some(captured)] + rest)], 0, regex.groupCount)
    ensures var m: Matcher := MatchState(regex, msg, [Span(0, |msg|, [Some(captured)] + rest)]);
            ReplacementMessage(Match(p, msg, m))
            == Some(DiscordMessage("", Some(Embed(DecodeColor(p.embedColor).rgb, Some(Cap(Utf16(captured), TitleLimit)), None))))
  {
    var groups := [Some(captured)] + rest;
    GroupOneSubstitutes(msg, regex, captured, rest);
    var m: Matcher := MatchState(regex, msg, [Span(0, |msg|, groups)]);
    var t := Cap(Utf16(captured), TitleLimit);
    assert FieldText(Some(m), p.embedTitle, TitleLimit) == Set(t);
    TitleOnlyEmbed(Match(p, msg, m), t);
  }

  /** An embed rule with a title and no description builds an embed of its
      colour and that title. */
  lemma TitleOnlyEmbed(res: PatternMatchResult, t: seq<CodeUnit>)
    requires res.matched && res.pattern.Some?
    requires var p := res.pattern.value;
             p.asEmbed && NonEmpty(p.embedTitle) && !NonEmpty(p.embedDescription)
             && DecodeColor(p.embedColor).ColorOk?
             && FieldText(res.matcher, p.embedTitle, TitleLimit) == Set(t)
    ensures ReplacementMessage(res)
            == Some(DiscordMessage("", Some(Embed(DecodeColor(res.pattern.value.embedColor).rgb, Some(t), None))))
  {
  }

  lemma GroupOneSubstitutes(msg: string, regex: Pattern, captured: string, rest: seq<Option<string>>)
    requires regex.groupCount == 1 + |rest|
    ensures SpansFit(msg, [Span(0, |msg|, [Some(captured)] + rest)], 0, regex.groupCount)
    ensures var m: Matcher := MatchState(regex, msg, [Span(0, |msg|, [Some(captured)] + rest)]);
            Substitute(Some(m), "$1") == Some(captured)
  {
    var groups := [Some(captured)] + rest;
    WholeMatchIsExpansion(msg, regex, groups, "$1");
    var all := [Some(msg)] + groups;
    assert GroupText(all[1]) == captured;
    assert Expand("$1", all, regex.groupNames) == Expanded(captured) by {
      OneDigitGroup('1', [], all, regex.groupNames);
      assert ['$', '1'] + [] == "$1";
      assert Expand([], all, regex.groupNames) == Expanded([]);
      assert captured + [] == captured;
    }
  }
}
