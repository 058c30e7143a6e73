# DiscordIntegration text core, modelled in Dafny

This project models the text-transformation core of DiscordIntegration-Core and proves properties of it. The core has two parts.

- **The template language** (`TemplateEngine`, `Template`). A case-insensitive registry of named templates, and `process`. `process` rewrites a template in three fixed stages:
  - `{include name}` expansion. The included template is itself processed with the caller's variables.
  - `{if c}…{/if}` and `{ifnot c}…{/ifnot}` resolution, repeated in passes (at most ten) until a pass changes nothing.
  - `%name%` and `%name|default%` substitution.
- **The line classifier** (`MessagePatternMatcher`, `PatternMatchResult`). An ordered list of compiled regex rules, and the first-match-wins classification of a line. The classification answers three questions: suppress the original? what replacement, as plain text or an embed? which channel?

The project also models the configuration glue around these parts:
- the `config-preview` command's entry selection, field editing, sample placeholders and string helpers;
- how `TemplateConfig` fills the engine's registry.

Modules, one per file:

- `JavaString` (java_string.dfy): `String.trim`, `toLowerCase`, `toUpperCase`, `indexOf`, `startsWith`, `replace`.
- `JavaUtf16` (java_utf16.dfy): a Java `String` as UTF-16 code units, and the cut `s.length() > n ? s.substring(0, n) : s`.
- `JavaColor` (java_color.dfy): `Integer.decode` and `Color.decode`.
- `TemplateRecord` (template.dfy): `Template`.
- `TemplateTokens` (template_tokens.dfy): the engine's four fixed regexes, as scanners.
- `Templating` (template_engine.dfy): `TemplateEngine`, as stage functions and the class whose loops are proved equal to them.
- `TemplateProps` (template_engine_props.dfy): properties of `process` and of the registry.
- `RegexOracle` (regex_oracle.dfy): user regexes as an oracle; `Matcher.replaceAll` over the oracle's matches.
- `PatternMatching` (pattern_match_result.dfy): `PatternMatchResult`.
- `PatternMatcher` (message_pattern_matcher.dfy): `MessagePatternMatcher`.
- `ConfigPreview` (config_preview.dfy): `CommandConfigPreview`.
- `TemplateConfiguration` (template_config.dfy): `TemplateConfig`.

Text is a Dafny `string`, a sequence of Unicode characters, except where Java counts: `length()`, `substring` and `hashCode()` work on UTF-16 code units. The model computes those over the units (`JavaUtf16.Utf16`), so a character above U+FFFF counts twice. An embed title or description and the result of `truncate` are unit sequences, because the cut may fall between the two halves of a surrogate pair. Lemmas show that for text without such characters the units read back as the expected characters.

Each stateful operation is a method proved against a specification function, and the properties are lemmas about those functions:
- the engine's registry, `compiledPatterns` and the embed entries are fields that methods reassign;
- the matcher loops of `processIncludes`, `processVariables` and `processConditionals` are `while` loops with invariants.

The include stage recurses with no cycle guard. The model therefore carries a depth bound: running past it gives `RecursionTooDeep`, which stands for the stack overflow the source would hit. The model proves two things about this bound. A template whose first include names the template itself never finishes at any depth; the text before that include must hold no `{include`. Allowing more depth never changes a result that did finish.

User regexes are handled by an oracle of two functions:
- a compiler, which yields a compiled pattern, a syntax error or another failure;
- a searcher, which yields whether `matches()` succeeds, and the successive `find()` matches with their groups, or an exception.

The searcher is constrained to report matches that are ordered, non-overlapping, inside the line and with one entry per group. `Matcher.replaceAll` is modelled concretely on top of those matches, including `$n`, `${name}` and `\c` expansion, and the exceptions it throws.

Where the description of the system and the code differ, the model follows the code:
- A null embed colour makes `Color.decode` throw `NullPointerException`. The outer handler catches it, so the build returns null. Only `NumberFormatException` falls back to gray.
- `reloadPatterns` clears and refills the same list in place. It does not swap in a new one.
- Include cycles are not detected. They recurse until the depth bound.
- A block runs from its `{if` head to the first following `{/if}`, as the lazy regex matches. Blocks are not matched by nesting.

## Model

| member | source | states |
|---|---|---|
| JavaString.TrimSpec | src/main/java/de/erdbeerbaerlp/dcintegration/common/util/template/TemplateEngine.java:152 | `trim` keeps one contiguous piece of the string whose first and last characters are above U+0020, and removes only characters up to U+0020 on either side |
| JavaString.TrimStartSpec | src/main/java/de/erdbeerbaerlp/dcintegration/common/util/template/TemplateEngine.java:118 | the leading part `trim` removes consists of characters up to U+0020, and what remains is a suffix starting with a character above it |
| JavaString.TrimEndSpec | src/main/java/de/erdbeerbaerlp/dcintegration/common/util/template/TemplateEngine.java:118 | the trailing part `trim` removes consists of characters up to U+0020, and what remains is a prefix ending with a character above it |
| JavaString.TrimOfTrimmed | src/main/java/de/erdbeerbaerlp/dcintegration/common/util/template/TemplateEngine.java:188 | trimming the already trimmed condition a second time changes nothing |
| JavaString.LowerChar | src/main/java/de/erdbeerbaerlp/dcintegration/common/util/template/TemplateEngine.java:50 | `toLowerCase` maps A-Z to a-z and leaves every other character alone |
| JavaString.UpperChar | src/main/java/de/erdbeerbaerlp/dcintegration/common/discordCommands/CommandConfigPreview.java:371 | `toUpperCase` maps a-z to A-Z and leaves every other character alone |
| JavaString.ToLowerIdempotent | src/main/java/de/erdbeerbaerlp/dcintegration/common/util/template/TemplateEngine.java:50 | lower-casing a lower-cased name changes nothing, so registry keys are their own keys |
| JavaString.MatchesFromSpec | src/main/java/de/erdbeerbaerlp/dcintegration/common/util/template/TemplateEngine.java:37 | the character-by-character comparison of a literal succeeds exactly when every character of the literal stands at its place in the text |
| JavaString.MatchesStartsWith | src/main/java/de/erdbeerbaerlp/dcintegration/common/discordCommands/CommandConfigPreview.java:334 | the character-wise literal comparison agrees with `startsWith` at that offset |
| JavaString.IndexOfSpec | src/main/java/de/erdbeerbaerlp/dcintegration/common/util/template/TemplateEngine.java:203 | `indexOf` returns an occurrence of the separator and none occurs before it, or there is none at all |
| JavaString.IndexOfFirst | src/main/java/de/erdbeerbaerlp/dcintegration/common/util/template/TemplateEngine.java:203 | an occurrence with none before it is what `indexOf` returns, so `split(op, 2)` cuts at the first `op` |
| JavaString.IndexOfCharSpec | src/main/java/de/erdbeerbaerlp/dcintegration/common/util/template/Template.java:58 | `indexOf(char)` returns a position holding the character with none before it, or there is none |
| JavaString.IndexOfCharFirst | src/main/java/de/erdbeerbaerlp/dcintegration/common/util/template/Template.java:58 | the first position holding the character is what `indexOf(char)` returns |
| JavaString.Replace | src/main/java/de/erdbeerbaerlp/dcintegration/common/util/template/TemplateEngine.java:245 | `String.replace` leaves a text without any occurrence of the target unchanged |
| JavaString.ReplaceWhole | src/main/java/de/erdbeerbaerlp/dcintegration/common/util/template/TemplateEngine.java:124 | replacing a text that is exactly the target gives the replacement |
| JavaUtf16.CharUnits | src/main/java/de/erdbeerbaerlp/dcintegration/common/util/PatternMatchResult.java:126 | a character below U+10000 is one unit, its own code and not a surrogate; any other is a high surrogate followed by a low one |
| JavaUtf16.Utf16RoundTrip | src/main/java/de/erdbeerbaerlp/dcintegration/common/util/PatternMatchResult.java:126-128 | reading a string's UTF-16 units back gives the string: the units lose nothing |
| JavaUtf16.Utf16Append | src/main/java/de/erdbeerbaerlp/dcintegration/common/util/PatternMatchResult.java:126-128 | the units of a concatenation are the units of its parts, in order |
| JavaUtf16.BmpLength | src/main/java/de/erdbeerbaerlp/dcintegration/common/util/PatternMatchResult.java:126 | a string without characters above U+FFFF has as many units as characters |
| JavaUtf16.BmpUnits | src/main/java/de/erdbeerbaerlp/dcintegration/common/util/PatternMatchResult.java:126 | for such a string, each unit is the code of the character at the same place |
| JavaUtf16.SupplementaryCountsTwice | src/main/java/de/erdbeerbaerlp/dcintegration/common/util/PatternMatchResult.java:126 | one character above U+FFFF makes `length()` exceed the number of characters |
| JavaUtf16.BmpCut | src/main/java/de/erdbeerbaerlp/dcintegration/common/util/PatternMatchResult.java:127 | for a string without characters above U+FFFF, the first n units are the units of the first n characters |
| JavaUtf16.CapOfBmp | src/main/java/de/erdbeerbaerlp/dcintegration/common/util/PatternMatchResult.java:126-128 | for such a string, cutting to n units and reading back gives the first n characters, or the whole string when it fits |
| JavaUtf16.TrophyCutInHalf | src/main/java/de/erdbeerbaerlp/dcintegration/common/util/PatternMatchResult.java:126-128 | U+1F3C6 is the two units 0xD83C 0xDFC6, and a cut after one unit leaves a lone surrogate that is not well-formed text |
| JavaColor.DigitValue | src/main/java/de/erdbeerbaerlp/dcintegration/common/util/PatternMatchResult.java:116 | a character has a digit value only below the radix |
| JavaColor.HexDigitValue | src/main/java/de/erdbeerbaerlp/dcintegration/common/discordCommands/CommandConfigPreview.java:336 | a character has a base-16 digit value exactly when it is 0-9, a-f or A-F |
| JavaColor.DigitsValueSpec | src/main/java/de/erdbeerbaerlp/dcintegration/common/util/PatternMatchResult.java:116 | a run of characters parses exactly when every character is a digit of the radix, and n digits stay below radix^n |
| JavaColor.IntegerDecode | src/main/java/de/erdbeerbaerlp/dcintegration/common/util/PatternMatchResult.java:116 | `Integer.decode` either throws `NumberFormatException` or gives a value within the range of `int` |
| JavaColor.DecodeColor | src/main/java/de/erdbeerbaerlp/dcintegration/common/util/PatternMatchResult.java:116 | `Color.decode` either throws (NumberFormatException, or NullPointerException for null) or gives a 24-bit RGB value |
| JavaColor.HashSixDecodes | src/main/java/de/erdbeerbaerlp/dcintegration/common/discordCommands/CommandConfigPreview.java:334-336 | `#` followed by six characters decodes exactly when the six are hex digits, and then to their base-16 value |
| JavaColor.HexChar | src/main/java/de/erdbeerbaerlp/dcintegration/common/discordCommands/CommandConfigPreview.java:336 | every digit value below 16 has a hex character that parses back to it |
| JavaColor.HexDigitsValue | src/main/java/de/erdbeerbaerlp/dcintegration/common/discordCommands/CommandConfigPreview.java:336 | a number written with k hex digits parses back to the same number when it fits in k digits |
| JavaColor.HexColorRoundTrip | src/main/java/de/erdbeerbaerlp/dcintegration/common/discordCommands/CommandConfigPreview.java:336 | every colour written `#RRGGBB` decodes to the colour it was written from |
| TemplateRecord.NewTemplate | src/main/java/de/erdbeerbaerlp/dcintegration/common/util/template/Template.java:18-41 | the getters give back exactly the constructor's arguments |
| TemplateRecord.Equals | src/main/java/de/erdbeerbaerlp/dcintegration/common/util/template/Template.java:44-49 | `equals` holds exactly when the other object is a template with the same name; null and other classes are unequal |
| TemplateRecord.EqualsReflexive | src/main/java/de/erdbeerbaerlp/dcintegration/common/util/template/Template.java:45 | a template equals itself |
| TemplateRecord.EqualsSymmetric | src/main/java/de/erdbeerbaerlp/dcintegration/common/util/template/Template.java:44-49 | `equals` gives the same answer in both directions |
| TemplateRecord.EqualsIgnoresContent | src/main/java/de/erdbeerbaerlp/dcintegration/common/util/template/Template.java:48 | two templates with the same name are equal whatever their contents |
| TemplateRecord.ToInt32 | src/main/java/de/erdbeerbaerlp/dcintegration/common/util/template/Template.java:53 | the 32-bit pattern read as a Java `int` lies in the `int` range and agrees with the pattern modulo 2^32 |
| TemplateRecord.HashState | src/main/java/de/erdbeerbaerlp/dcintegration/common/util/template/Template.java:53 | `String.hashCode`'s running state over the first n UTF-16 units stays a 32-bit value |
| TemplateRecord.HashCode | src/main/java/de/erdbeerbaerlp/dcintegration/common/util/template/Template.java:51-54 | `hashCode` is an `int` congruent modulo 2^32 to the polynomial sum of the name's UTF-16 units in powers of 31 |
| TemplateRecord.HashSumAppend | src/main/java/de/erdbeerbaerlp/dcintegration/common/util/template/Template.java:53 | appending a unit multiplies the polynomial sum by 31 and adds the unit |
| TemplateRecord.HashStateIsSum | src/main/java/de/erdbeerbaerlp/dcintegration/common/util/template/Template.java:53 | the wrapping running state after n units is the polynomial sum of those units modulo 2^32 |
| TemplateRecord.StringHash | src/main/java/de/erdbeerbaerlp/dcintegration/common/util/template/Template.java:53 | `String.hashCode` is a signed 32-bit value congruent modulo 2^32 to the polynomial sum of the UTF-16 units |
| TemplateRecord.TrophyHash | src/main/java/de/erdbeerbaerlp/dcintegration/common/util/template/Template.java:53 | the hash of U+1F3C6 reads both halves of its surrogate pair: 31 * 0xD83C + 0xDFC6 |
| TemplateRecord.HashIgnoresContent | src/main/java/de/erdbeerbaerlp/dcintegration/common/util/template/Template.java:51-54 | two templates with the same name hash equally whatever their contents |
| TemplateRecord.EqualTemplatesHashEqually | src/main/java/de/erdbeerbaerlp/dcintegration/common/util/template/Template.java:51-54 | equal templates have equal hash codes |
| TemplateRecord.ToString | src/main/java/de/erdbeerbaerlp/dcintegration/common/util/template/Template.java:57-59 | `toString` is `Template{name='`, the name, `', content='`, the content and `'}`, piece by piece |
| TemplateRecord.NameEndsAtFirstQuote | src/main/java/de/erdbeerbaerlp/dcintegration/common/util/template/Template.java:58 | when the name holds no single quote, the first quote after the prefix ends the name |
| TemplateRecord.ToStringInjective | src/main/java/de/erdbeerbaerlp/dcintegration/common/util/template/Template.java:57-59 | when names hold no single quote, two templates print the same only if they are the same record |
| TemplateTokens.LeadingSpacesSpec | src/main/java/de/erdbeerbaerlp/dcintegration/common/util/template/TemplateEngine.java:37 | the `\s+` after a keyword is the longest run of regex space characters |
| TemplateTokens.HeadAt | src/main/java/de/erdbeerbaerlp/dcintegration/common/util/template/TemplateEngine.java:37-39 | a head `{keyword\s+name}` lies inside the text and ends at a `}` |
| TemplateTokens.HeadAtSpec | src/main/java/de/erdbeerbaerlp/dcintegration/common/util/template/TemplateEngine.java:37-39 | a head starts with the keyword, is followed by a space, and holds no `}` before its closing brace |
| TemplateTokens.NameStop | src/main/java/de/erdbeerbaerlp/dcintegration/common/util/template/TemplateEngine.java:35 | a variable name stops at the first percent sign or bar |
| TemplateTokens.NameStopSpec | src/main/java/de/erdbeerbaerlp/dcintegration/common/util/template/TemplateEngine.java:35 | no percent sign or bar occurs before the stop, and none at all when there is no stop |
| TemplateTokens.NameStopFirst | src/main/java/de/erdbeerbaerlp/dcintegration/common/util/template/TemplateEngine.java:35 | the first percent sign or bar is where the name stops |
| TemplateTokens.VariableAt | src/main/java/de/erdbeerbaerlp/dcintegration/common/util/template/TemplateEngine.java:35 | a variable match starts at a `%` at the given place and is the text it spans |
| TemplateTokens.TokenAt | src/main/java/de/erdbeerbaerlp/dcintegration/common/util/template/TemplateEngine.java:35-39 | a match found at a place starts there and is the text it spans |
| TemplateTokens.BlockTokenAt | src/main/java/de/erdbeerbaerlp/dcintegration/common/util/template/TemplateEngine.java:37-38 | a block's body is lazy: it ends at the first closing tag after the head |
| TemplateTokens.WholeTextToken | src/main/java/de/erdbeerbaerlp/dcintegration/common/util/template/TemplateEngine.java:117 | a match spanning the whole text is the only one the matcher finds |
| TemplateTokens.TokenAtOpening | src/main/java/de/erdbeerbaerlp/dcintegration/common/util/template/TemplateEngine.java:35-39 | every match starts with its construct's opening literal |
| TemplateTokens.Find | src/main/java/de/erdbeerbaerlp/dcintegration/common/util/template/TemplateEngine.java:117 | `find()` from a position returns a match at or after it |
| TemplateTokens.FindIsMatch | src/main/java/de/erdbeerbaerlp/dcintegration/common/util/template/TemplateEngine.java:117 | what `find()` returns is a match at its own start |
| TemplateTokens.FindSkipsNothing | src/main/java/de/erdbeerbaerlp/dcintegration/common/util/template/TemplateEngine.java:117 | no match starts between the search position and the match `find()` returns |
| TemplateTokens.FindNoneNoMatch | src/main/java/de/erdbeerbaerlp/dcintegration/common/util/template/TemplateEngine.java:117 | when `find()` fails no match starts anywhere from the search position on |
| TemplateTokens.FindFirst | src/main/java/de/erdbeerbaerlp/dcintegration/common/util/template/TemplateEngine.java:117 | the leftmost match from the search position is the one `find()` returns |
| TemplateTokens.TokensWellFormed | src/main/java/de/erdbeerbaerlp/dcintegration/common/util/template/TemplateEngine.java:117 | every match of the `find()` loop is the text it spans and lies after the start |
| TemplateTokens.TokensStep | src/main/java/de/erdbeerbaerlp/dcintegration/common/util/template/TemplateEngine.java:117 | the matches of the loop are the one `find()` returns followed by those after its end |
| TemplateTokens.FirstMatchAt | src/main/java/de/erdbeerbaerlp/dcintegration/common/util/template/TemplateEngine.java:117 | when the leftmost match starts at a known place, the loop's matches are that one followed by those after its end |
| TemplateTokens.NoOpeningNoTokens | src/main/java/de/erdbeerbaerlp/dcintegration/common/util/template/TemplateEngine.java:35-39 | a text in which the opening literal never occurs has no matches |
| TemplateTokens.NoCharNoOpening | src/main/java/de/erdbeerbaerlp/dcintegration/common/util/template/TemplateEngine.java:35-39 | a text without the opening literal's first character does not contain the literal |
| TemplateTokens.PlainTextHasNoTokens | src/main/java/de/erdbeerbaerlp/dcintegration/common/util/template/TemplateEngine.java:35-39 | a text without `{` and `%` has no include, block or variable matches |
| Templating.EvaluateCondition | src/main/java/de/erdbeerbaerlp/dcintegration/common/util/template/TemplateEngine.java:187-226 | a condition naming a key is decided by that key's value alone, and an empty value is false; otherwise it can hold only when it contains `==` or `!=` |
| Templating.StripQuotes | src/main/java/de/erdbeerbaerlp/dcintegration/common/util/template/TemplateEngine.java:206 | removing the quotes never lengthens the text |
| Templating.RewriteStep | src/main/java/de/erdbeerbaerlp/dcintegration/common/util/template/TemplateEngine.java:151-157 | one `appendReplacement`: the text before the block, then what the block becomes, then the rest rewritten |
| Templating.RewriteAdvance | src/main/java/de/erdbeerbaerlp/dcintegration/common/util/template/TemplateEngine.java:151-157 | an `appendReplacement` step moves the buffer towards the same final text |
| Templating.RewriteTail | src/main/java/de/erdbeerbaerlp/dcintegration/common/util/template/TemplateEngine.java:158 | with no block left, `appendTail` adds the rest of the text unchanged |
| Templating.ResolveStep | src/main/java/de/erdbeerbaerlp/dcintegration/common/util/template/TemplateEngine.java:145-175 | one turn of the do-while loop either stops at the pass's result, when the text did not change or ten passes are done, or continues towards the same final text |
| Templating.SpliceStep | src/main/java/de/erdbeerbaerlp/dcintegration/common/util/template/TemplateEngine.java:117-128 | one turn of the include loop splices the match `find()` returns, or stops the whole expansion when recursion runs too deep |
| Templating.Register | src/main/java/de/erdbeerbaerlp/dcintegration/common/util/template/TemplateEngine.java:49-51 | storing under the lower-cased name keeps every key the lower-cased name of its template |
| Templating.Unregister | src/main/java/de/erdbeerbaerlp/dcintegration/common/util/template/TemplateEngine.java:67-69 | removing a lower-cased name keeps every key the lower-cased name of its template |
| Templating.TemplateEngine.constructor | src/main/java/de/erdbeerbaerlp/dcintegration/common/util/template/TemplateEngine.java:41 | a new engine has an empty registry |
| Templating.TemplateEngine.RegisterTemplate | src/main/java/de/erdbeerbaerlp/dcintegration/common/util/template/TemplateEngine.java:49-51 | the registry afterwards is the old one with the new template stored under the lower-cased name |
| Templating.TemplateEngine.RegisterTemplateObject | src/main/java/de/erdbeerbaerlp/dcintegration/common/util/template/TemplateEngine.java:58-60 | the registry afterwards is the old one with the template stored under its lower-cased name |
| Templating.TemplateEngine.UnregisterTemplate | src/main/java/de/erdbeerbaerlp/dcintegration/common/util/template/TemplateEngine.java:67-69 | the registry afterwards is the old one without the lower-cased name |
| Templating.TemplateEngine.GetTemplate | src/main/java/de/erdbeerbaerlp/dcintegration/common/util/template/TemplateEngine.java:78-80 | the template stored under the lower-cased name, or null exactly when there is none |
| Templating.TemplateEngine.GetRegisteredTemplateNames | src/main/java/de/erdbeerbaerlp/dcintegration/common/util/template/TemplateEngine.java:257-259 | a copy of exactly the registry's keys, all of them lower case |
| Templating.TemplateEngine.ClearTemplates | src/main/java/de/erdbeerbaerlp/dcintegration/common/util/template/TemplateEngine.java:264-266 | the registry is empty afterwards |
| Templating.TemplateEngine.Process | src/main/java/de/erdbeerbaerlp/dcintegration/common/util/template/TemplateEngine.java:90-107 | a null template comes back null; otherwise the result of the three stages over the current registry |
| Templating.ProcessString | src/main/java/de/erdbeerbaerlp/dcintegration/common/util/template/TemplateEngine.java:90-107 | an empty template comes back unchanged; otherwise includes, then conditionals, then variables |
| Templating.ProcessIncludes | src/main/java/de/erdbeerbaerlp/dcintegration/common/util/template/TemplateEngine.java:113-131 | the `find()` loop over the text handed in splices each include in turn into the running result |
| Templating.IncludeOne | src/main/java/de/erdbeerbaerlp/dcintegration/common/util/template/TemplateEngine.java:118-127 | an unregistered name leaves the result as it is; a registered one is processed with the caller's variables and replaces every occurrence of the match |
| Templating.ProcessConditionals | src/main/java/de/erdbeerbaerlp/dcintegration/common/util/template/TemplateEngine.java:138-178 | the do-while loop gives the text after the first pass that changes nothing, or after ten passes |
| Templating.ProcessVariables | src/main/java/de/erdbeerbaerlp/dcintegration/common/util/template/TemplateEngine.java:232-249 | the `find()` loop over the text handed in replaces each variable's text, everywhere in the running result, by its value or default |
| Templating.RewriteBlocks | src/main/java/de/erdbeerbaerlp/dcintegration/common/util/template/TemplateEngine.java:149-159 | the `appendReplacement`/`appendTail` loop rewrites every block of one kind, left to right |
| TemplateProps.HeadOfText | src/main/java/de/erdbeerbaerlp/dcintegration/common/util/template/TemplateEngine.java:39 | `{keyword name}` at the start of a text is a head whose name is exactly `name` |
| TemplateProps.SoleIncludeToken | src/main/java/de/erdbeerbaerlp/dcintegration/common/util/template/TemplateEngine.java:39 | `{include name}` alone is a single include match whose group 1 is the name |
| TemplateProps.ClosingAfterBody | src/main/java/de/erdbeerbaerlp/dcintegration/common/util/template/TemplateEngine.java:37-38 | a body without `{` is followed by the first closing tag after it |
| TemplateProps.BlockParts | src/main/java/de/erdbeerbaerlp/dcintegration/common/util/template/TemplateEngine.java:37-38 | the head, the condition, the body and the closing tag of a block are found where they stand |
| TemplateProps.BlockAtStart | src/main/java/de/erdbeerbaerlp/dcintegration/common/util/template/TemplateEngine.java:37-38 | a block at the start of a text is matched with its condition as group 1 and its body as group 2 |
| TemplateProps.SoleBlockToken | src/main/java/de/erdbeerbaerlp/dcintegration/common/util/template/TemplateEngine.java:37-38 | a block alone is a single match with its condition and body |
| TemplateProps.SoleVariableToken | src/main/java/de/erdbeerbaerlp/dcintegration/common/util/template/TemplateEngine.java:35 | `%name%` alone is a single variable match without default |
| TemplateProps.SoleDefaultedVariableToken | src/main/java/de/erdbeerbaerlp/dcintegration/common/util/template/TemplateEngine.java:35 | a variable with a default (name, bar, default) alone is a single variable match with that default |
| TemplateProps.SoleVariable | src/main/java/de/erdbeerbaerlp/dcintegration/common/util/template/TemplateEngine.java:236-246 | `%name%` becomes the trimmed name's value, or "" when it is missing or empty |
| TemplateProps.SoleDefaultedVariable | src/main/java/de/erdbeerbaerlp/dcintegration/common/util/template/TemplateEngine.java:236-246 | a variable with a default (name, bar, default) becomes the trimmed name's value, or the default when it is missing or empty |
| TemplateProps.NoBlockNoRewrite | src/main/java/de/erdbeerbaerlp/dcintegration/common/util/template/TemplateEngine.java:149-159 | a text without `{` passes through the block rewriting unchanged |
| TemplateProps.PlainBlocksFree | src/main/java/de/erdbeerbaerlp/dcintegration/common/util/template/TemplateEngine.java:149 | a text without `{` has no block |
| TemplateProps.SoleBlockRewrite | src/main/java/de/erdbeerbaerlp/dcintegration/common/util/template/TemplateEngine.java:151-157 | `{if c}body{/if}` becomes the body when c holds and "" otherwise; `{ifnot}` the other way round |
| TemplateProps.WholeTextRewrite | src/main/java/de/erdbeerbaerlp/dcintegration/common/util/template/TemplateEngine.java:151-158 | a block spanning the whole text is replaced by what the block becomes |
| TemplateProps.BlocksComplement | src/main/java/de/erdbeerbaerlp/dcintegration/common/util/template/TemplateEngine.java:155-168 | for any condition exactly one of `{if}` and `{ifnot}` keeps the body |
| TemplateProps.ResolveFromPasses | src/main/java/de/erdbeerbaerlp/dcintegration/common/util/template/TemplateEngine.java:141-175 | from pass i on, the loop ends at the first later pass that changes nothing, or at the tenth |
| TemplateProps.ResolveIsFirstStop | src/main/java/de/erdbeerbaerlp/dcintegration/common/util/template/TemplateEngine.java:141-175 | the resolved text is the result of the first pass that changes nothing, or of the tenth pass |
| TemplateProps.FixpointResolvesToItself | src/main/java/de/erdbeerbaerlp/dcintegration/common/util/template/TemplateEngine.java:145-175 | a text one pass leaves unchanged is resolved to itself |
| TemplateProps.SoleIfBlockResolves | src/main/java/de/erdbeerbaerlp/dcintegration/common/util/template/TemplateEngine.java:145-175 | a lone `{if c}body{/if}` whose body holds no `{` resolves to the body when c holds and to "" otherwise |
| TemplateProps.KeyCondition | src/main/java/de/erdbeerbaerlp/dcintegration/common/util/template/TemplateEngine.java:191-199 | a condition that is a variable key holds exactly when its value is non-empty and not, ignoring case, "false", "0" or "no" |
| TemplateProps.EqualityCondition | src/main/java/de/erdbeerbaerlp/dcintegration/common/util/template/TemplateEngine.java:187-210 | a trimmed condition that is not a key, split at its first `==` into `a` and `v` (either may be empty or hold `=`), holds exactly when the value of the trimmed `a` (absent gives "") equals the trimmed, quote-stripped `v` |
| TemplateProps.EmptyComparison | src/main/java/de/erdbeerbaerlp/dcintegration/common/util/template/TemplateEngine.java:202-210 | `{if x==}` holds exactly when `x` is missing or empty |
| TemplateProps.SplitAtFirstEquals | src/main/java/de/erdbeerbaerlp/dcintegration/common/util/template/TemplateEngine.java:202-210 | `x=y==z` is split at its first `==`: it compares the value of `x=y` with `z` |
| TemplateProps.InequalityCondition | src/main/java/de/erdbeerbaerlp/dcintegration/common/util/template/TemplateEngine.java:187-220 | a trimmed condition that is not a key and holds no `==`, split at its first `!=` into `a` and `v`, holds exactly when that comparison fails |
| TemplateProps.PlainInequality | src/main/java/de/erdbeerbaerlp/dcintegration/common/util/template/TemplateEngine.java:212-220 | `a!=v` with no `=` in `a` or `v` and nothing to trim at its ends is split right after `a` and holds exactly when the comparison fails |
| TemplateProps.NoDoubleEquals | src/main/java/de/erdbeerbaerlp/dcintegration/common/util/template/TemplateEngine.java:202 | a text without two adjacent `=` does not contain `==` |
| TemplateProps.OperatorAfter | src/main/java/de/erdbeerbaerlp/dcintegration/common/util/template/TemplateEngine.java:203-205 | when `a` holds no `=`, the operator after it is found right after it |
| TemplateProps.OtherConditionFalse | src/main/java/de/erdbeerbaerlp/dcintegration/common/util/template/TemplateEngine.java:223-225 | a condition that is no key and holds no `==` or `!=` is false |
| TemplateProps.StripQuotesQuoted | src/main/java/de/erdbeerbaerlp/dcintegration/common/util/template/TemplateEngine.java:206 | a value between two quotes loses exactly those two quotes |
| TemplateProps.UnregisteredIncludesKept | src/main/java/de/erdbeerbaerlp/dcintegration/common/util/template/TemplateEngine.java:118-127 | includes of names that are not registered are left as literal text |
| TemplateProps.SoleInclude | src/main/java/de/erdbeerbaerlp/dcintegration/common/util/template/TemplateEngine.java:117-128 | a lone registered include becomes the included template fully processed with the caller's variables; an unregistered one stays as it is |
| TemplateProps.SpliceOne | src/main/java/de/erdbeerbaerlp/dcintegration/common/util/template/TemplateEngine.java:117-128 | the include loop over one match is that match's splice |
| TemplateProps.SelfIncludeTooDeep | src/main/java/de/erdbeerbaerlp/dcintegration/common/util/template/TemplateEngine.java:117-128 | a registered template whose content is text without `{include`, then `{include name}` naming the template itself, then anything, never finishes, whatever depth is allowed |
| TemplateProps.DefersToItself | src/main/java/de/erdbeerbaerlp/dcintegration/common/util/template/TemplateEngine.java:123 | a text whose include stage fails at depth 0, and fails at depth d+1 whenever its processing fails at depth d, never finishes at any depth |
| TemplateProps.IncludeTokenAt | src/main/java/de/erdbeerbaerlp/dcintegration/common/util/template/TemplateEngine.java:39 | `{include name}` written at a position is an include match there, spanning exactly that text, with the name as group 1 |
| TemplateProps.NoIncludeInPrefix | src/main/java/de/erdbeerbaerlp/dcintegration/common/util/template/TemplateEngine.java:120 | text with no `{include` followed by a brace holds no include match starting inside that text |
| TemplateProps.FirstIncludeAfterPrefix | src/main/java/de/erdbeerbaerlp/dcintegration/common/util/template/TemplateEngine.java:120 | the first include match in a text is the one right after a prefix with no `{include` |
| TemplateProps.FirstIncludeAfterText | src/main/java/de/erdbeerbaerlp/dcintegration/common/util/template/TemplateEngine.java:120 | in p + w + q, with no `{include` in p and an include match at the start of w, that match is the first one found |
| TemplateProps.SelfIncludeMatch | src/main/java/de/erdbeerbaerlp/dcintegration/common/util/template/TemplateEngine.java:121-126 | an include match naming a template whose content is the text itself runs out of depth, at depth 0 or whenever that text runs out one level down |
| TemplateProps.FirstIncludeTooDeep | src/main/java/de/erdbeerbaerlp/dcintegration/common/util/template/TemplateEngine.java:121-126 | a text whose first include match names a template with that same content fails its include stage whenever processing that content fails one level down |
| TemplateProps.SelfIncludeLoop | src/main/java/de/erdbeerbaerlp/dcintegration/common/util/template/TemplateEngine.java:117-128 | a text whose first include match names a template holding that very text never finishes at any depth |
| TemplateProps.IncludesTooDeep | src/main/java/de/erdbeerbaerlp/dcintegration/common/util/template/TemplateEngine.java:98 | when the include stage does not finish, neither does `process` |
| TemplateProps.PlainTextUnchanged | src/main/java/de/erdbeerbaerlp/dcintegration/common/util/template/TemplateEngine.java:90-107 | a text without `{` and `%` comes back unchanged |
| TemplateProps.EmptyTemplateUnchanged | src/main/java/de/erdbeerbaerlp/dcintegration/common/util/template/TemplateEngine.java:91-93 | the empty template comes back unchanged |
| TemplateProps.ProcessDeeper | src/main/java/de/erdbeerbaerlp/dcintegration/common/util/template/TemplateEngine.java:123 | allowing more nesting does not change a result that finished |
| TemplateProps.SpliceDeeper | src/main/java/de/erdbeerbaerlp/dcintegration/common/util/template/TemplateEngine.java:117-128 | allowing more nesting does not change an include loop that finished |
| TemplateProps.IncludeDeeper | src/main/java/de/erdbeerbaerlp/dcintegration/common/util/template/TemplateEngine.java:121-124 | allowing more nesting does not change a splice that finished |
| TemplateProps.IncludeUnfold | src/main/java/de/erdbeerbaerlp/dcintegration/common/util/template/TemplateEngine.java:121-124 | a registered include one level up is the splice of the included template processed one level down |
| TemplateProps.LookupIgnoresCase | src/main/java/de/erdbeerbaerlp/dcintegration/common/util/template/TemplateEngine.java:78-80 | names that differ only in case look up the same template |
| TemplateProps.RegisterThenLookup | src/main/java/de/erdbeerbaerlp/dcintegration/common/util/template/TemplateEngine.java:49-51 | after registering, the template is found under its name in any case |
| TemplateProps.RegisterKeepsOthers | src/main/java/de/erdbeerbaerlp/dcintegration/common/util/template/TemplateEngine.java:49-51 | registering leaves the lookup of every other name unchanged |
| TemplateProps.ReRegisterOverwrites | src/main/java/de/erdbeerbaerlp/dcintegration/common/util/template/TemplateEngine.java:49-51 | registering a name again, in any case, overwrites the earlier template |
| TemplateProps.UnregisterThenLookup | src/main/java/de/erdbeerbaerlp/dcintegration/common/util/template/TemplateEngine.java:67-69 | after unregistering, the name is not found in any case |
| TemplateProps.UnregisterAbsent | src/main/java/de/erdbeerbaerlp/dcintegration/common/util/template/TemplateEngine.java:67-69 | unregistering an absent name changes nothing |
| RegexOracle.LiteralExpands | src/main/java/de/erdbeerbaerlp/dcintegration/common/util/PatternMatchResult.java:151 | a replacement without `$` and `\` stands for itself |
| RegexOracle.OneDigitGroup | src/main/java/de/erdbeerbaerlp/dcintegration/common/util/PatternMatchResult.java:124 | `$n` stands for group n, or throws `IndexOutOfBoundsException` when there is no group n |
| RegexOracle.DanglingIsIllegal | src/main/java/de/erdbeerbaerlp/dcintegration/common/util/PatternMatchResult.java:151 | a replacement ending in a lone `$` or `\` throws `IllegalArgumentException` |
| RegexOracle.EscapedExpands | src/main/java/de/erdbeerbaerlp/dcintegration/common/util/PatternMatchResult.java:151 | `\c` stands for the character c |
| RegexOracle.NoMatchKeepsMessage | src/main/java/de/erdbeerbaerlp/dcintegration/common/util/PatternMatchResult.java:151 | `replaceAll` with no match gives the message back |
| RegexOracle.WholeMatchIsExpansion | src/main/java/de/erdbeerbaerlp/dcintegration/common/util/PatternMatchResult.java:151 | when one match spans the whole message, `replaceAll` gives the expanded replacement alone |
| RegexOracle.PrefixKept | src/main/java/de/erdbeerbaerlp/dcintegration/common/util/PatternMatchResult.java:151 | the text before the first match is kept as it is |
| RegexOracle.SuffixKept | src/main/java/de/erdbeerbaerlp/dcintegration/common/util/PatternMatchResult.java:151 | the text after the last match is kept as it is |
| RegexOracle.LiteralReplacesMatch | src/main/java/de/erdbeerbaerlp/dcintegration/common/util/PatternMatchResult.java:151 | with one match and a literal replacement, the match is replaced and the text around it kept |
| JavaUtf16.Cap | src/main/java/de/erdbeerbaerlp/dcintegration/common/util/PatternMatchResult.java:126-128 | the cut is at most n units long and a prefix of the units; it is all of them when they fit and exactly n when they do not |
| PatternMatching.BuildReplacementMessage | src/main/java/de/erdbeerbaerlp/dcintegration/common/util/PatternMatchResult.java:104-159 | the step-by-step build (the colour, then the title, then the description cut at 256 and 4096 UTF-16 units, any exception ending it with null) returns exactly the message `ReplacementMessage` describes |
| PatternMatching.NoMatchIsInert | src/main/java/de/erdbeerbaerlp/dcintegration/common/util/PatternMatchResult.java:33-35 | no match: nothing to suppress, no replacement, the original channel and a null build |
| PatternMatching.MatchFollowsRule | src/main/java/de/erdbeerbaerlp/dcintegration/common/util/PatternMatchResult.java:45-96 | a match carries its rule and message; suppression and target channel follow the rule, "default" meaning the original channel |
| PatternMatching.BuiltOnlyWithReplacement | src/main/java/de/erdbeerbaerlp/dcintegration/common/util/PatternMatchResult.java:105-107 | a message is built only for a match with a replacement |
| PatternMatching.EmbedWithinLimits | src/main/java/de/erdbeerbaerlp/dcintegration/common/util/PatternMatchResult.java:123-146 | an embed has empty text; title and description are set exactly when configured non-empty, are prefixes of the substituted text's UTF-16 units, at most 256 and 4096 units, whole when they fit and exactly at the limit when they do not |
| PatternMatching.EmbedColorChoice | src/main/java/de/erdbeerbaerlp/dcintegration/common/util/PatternMatchResult.java:115-120 | a null colour ends the build with null; an unparsable one gives gray and the build goes on; a valid one is used |
| PatternMatching.PlainIsReplaceAll | src/main/java/de/erdbeerbaerlp/dcintegration/common/util/PatternMatchResult.java:148-153 | a plain replacement is the message after `replaceAll`, and null exactly when that throws |
| PatternMatching.WholeLineLiteral | src/main/java/de/erdbeerbaerlp/dcintegration/common/util/PatternMatchResult.java:148-153 | when the regex spans the whole line, a literal replacement is sent as written |
| PatternMatching.GroupOneTitle | src/main/java/de/erdbeerbaerlp/dcintegration/common/util/PatternMatchResult.java:122-131 | a title `$1` over a whole-line match is the captured group's UTF-16 units cut to 256 |
| PatternMatching.TitleOnlyEmbed | src/main/java/de/erdbeerbaerlp/dcintegration/common/util/PatternMatchResult.java:110-146 | an embed rule with a decodable colour, a title and no description yields an embed of that colour and that title only |
| PatternMatching.PlainReplacement | src/main/java/de/erdbeerbaerlp/dcintegration/common/util/PatternMatchResult.java:148-153 | a plain-text rule with a non-empty replacement sends the substituted text |
| PatternMatching.ShouldSuppressOriginal | src/main/java/de/erdbeerbaerlp/dcintegration/common/util/PatternMatchResult.java:64-66 | without a match the original is kept; with a match and a rule, it is suppressed exactly when the rule says so |
| PatternMatching.HasReplacement | src/main/java/de/erdbeerbaerlp/dcintegration/common/util/PatternMatchResult.java:73-78 | no match or no rule means no replacement; a plain rule has one exactly when its replacement is non-empty; an embed rule without replacement has one exactly when its title or description is non-empty |
| PatternMatching.GetTargetChannelID | src/main/java/de/erdbeerbaerlp/dcintegration/common/util/PatternMatchResult.java:88-96 | the target is the original channel or the rule's; "default" never comes back unless it was the original; a matched rule's channel other than "default" (null included) is used |
| PatternMatching.GroupOneSubstitutes | src/main/java/de/erdbeerbaerlp/dcintegration/common/util/PatternMatchResult.java:124 | `replaceAll("$1")` over a whole-line match gives the captured group |
| PatternMatcher.MessagePatternMatcher.constructor | src/main/java/de/erdbeerbaerlp/dcintegration/common/util/MessagePatternMatcher.java:35 | a new matcher has an empty list |
| PatternMatcher.MessagePatternMatcher.ReloadPatterns | src/main/java/de/erdbeerbaerlp/dcintegration/common/util/MessagePatternMatcher.java:88-117 | the list is cleared, then holds the compiled rules in order; empty when disabled or without rules |
| PatternMatcher.MessagePatternMatcher.ProcessMessage | src/main/java/de/erdbeerbaerlp/dcintegration/common/util/MessagePatternMatcher.java:57-82 | no match for a null or empty line or a disabled feature; otherwise the first entry that matches, in list order |
| PatternMatcher.MessagePatternMatcher.GetPatternCount | src/main/java/de/erdbeerbaerlp/dcintegration/common/util/MessagePatternMatcher.java:124-126 | the number of compiled entries |
| PatternMatcher.CompiledFromAppend | src/main/java/de/erdbeerbaerlp/dcintegration/common/util/MessagePatternMatcher.java:100-114 | compiling two runs of rules one after the other gives the two lists one after the other |
| PatternMatcher.InOrder | src/main/java/de/erdbeerbaerlp/dcintegration/common/util/MessagePatternMatcher.java:100-114 | the list is what the rules before i give, then what rule i gives, then what the rules after it give |
| PatternMatcher.ValidRulesKept | src/main/java/de/erdbeerbaerlp/dcintegration/common/util/MessagePatternMatcher.java:105-108 | every rule with a non-empty regex that compiles is in the list with its compiled regex |
| PatternMatcher.EntriesFromRules | src/main/java/de/erdbeerbaerlp/dcintegration/common/util/MessagePatternMatcher.java:100-108 | every entry comes from a configured rule with a non-empty regex that compiled to the entry's regex |
| PatternMatcher.NoValidRuleNoEntries | src/main/java/de/erdbeerbaerlp/dcintegration/common/util/MessagePatternMatcher.java:100-114 | when no rule compiles the list is empty, so the count is 0 |
| PatternMatcher.NothingToClassify | src/main/java/de/erdbeerbaerlp/dcintegration/common/util/MessagePatternMatcher.java:58-64 | a null or empty line, or a disabled feature, gives no match whatever the list holds |
| PatternMatcher.FirstFinderWins | src/main/java/de/erdbeerbaerlp/dcintegration/common/util/MessagePatternMatcher.java:66-75 | the first entry that matches decides the result, carrying its rule, the line and its matches |
| PatternMatcher.UnmatchedIffNoneFinds | src/main/java/de/erdbeerbaerlp/dcintegration/common/util/MessagePatternMatcher.java:66-81 | the line is unmatched exactly when no entry matches it; an entry that throws is passed over |
| PatternMatcher.ReloadDisabledMatchesNothing | src/main/java/de/erdbeerbaerlp/dcintegration/common/util/MessagePatternMatcher.java:89-98 | after a reload with the feature off or no rules the list is empty and nothing matches |
| ConfigPreview.GetEmbedEntry | src/main/java/de/erdbeerbaerlp/dcintegration/common/discordCommands/CommandConfigPreview.java:244-265 | an entry exactly for the seven known type names, null for any other |
| ConfigPreview.SelectedEntries | src/main/java/de/erdbeerbaerlp/dcintegration/common/discordCommands/CommandConfigPreview.java:244-265 | an unknown type selects no entry; each of join, leave, death, advancement, chat, start and stop selects its own entry |
| ConfigPreview.SamplePlaceholderKeys | src/main/java/de/erdbeerbaerlp/dcintegration/common/discordCommands/CommandConfigPreview.java:176-212 | every known type has `msg`; only death has `deathMessage`, only advancement `advName` and `advDesc`; all but start and stop have `player`; an unknown type has none |
| ConfigPreview.GetSamplePlaceholders | src/main/java/de/erdbeerbaerlp/dcintegration/common/discordCommands/CommandConfigPreview.java:176-212 | a `msg` sample exists exactly for the seven known types; an unknown type gets an empty map |
| ConfigPreview.SampleMessagesNamePlayer | src/main/java/de/erdbeerbaerlp/dcintegration/common/discordCommands/CommandConfigPreview.java:180-198 | each player event's sample message opens with the sample player's name; the death message is that name, a space and the sample death text |
| ConfigPreview.SaveField | src/main/java/de/erdbeerbaerlp/dcintegration/common/discordCommands/CommandConfigPreview.java:320-344 | the selected entry afterwards is the saved-field state of the old one; an unknown type changes no entry |
| ConfigPreview.ToggleEmbed | src/main/java/de/erdbeerbaerlp/dcintegration/common/discordCommands/CommandConfigPreview.java:357-367 | the selected entry's embed flag is negated; an unknown type changes no entry |
| ConfigPreview.ToggleTwiceRestores | src/main/java/de/erdbeerbaerlp/dcintegration/common/discordCommands/CommandConfigPreview.java:360 | toggling twice restores the entry |
| ConfigPreview.SaveFieldIdempotent | src/main/java/de/erdbeerbaerlp/dcintegration/common/discordCommands/CommandConfigPreview.java:324-344 | saving the same value twice is saving it once |
| ConfigPreview.SaveFieldEffects | src/main/java/de/erdbeerbaerlp/dcintegration/common/discordCommands/CommandConfigPreview.java:324-344 | title and description store the value (null as ""); a colour is stored only when accepted; other fields change nothing; the embed flag is never touched |
| ConfigPreview.ColorAcceptedIff | src/main/java/de/erdbeerbaerlp/dcintegration/common/discordCommands/CommandConfigPreview.java:333-337 | a colour is accepted exactly when it is `#` followed by six hex digits |
| ConfigPreview.HexColorStored | src/main/java/de/erdbeerbaerlp/dcintegration/common/discordCommands/CommandConfigPreview.java:333-337 | every colour written `#RRGGBB` is stored |
| ConfigPreview.Truncate | src/main/java/de/erdbeerbaerlp/dcintegration/common/discordCommands/CommandConfigPreview.java:374-377 | null gives no units; a string longer than maxLength UTF-16 units gives its first maxLength units then `...`; any other is its units unchanged; never more than maxLength + 3 units |
| ConfigPreview.TruncateBmp | src/main/java/de/erdbeerbaerlp/dcintegration/common/discordCommands/CommandConfigPreview.java:374-377 | for text without characters above U+FFFF the cut reads back as the first maxLength characters followed by `...` |
| ConfigPreview.Capitalize | src/main/java/de/erdbeerbaerlp/dcintegration/common/discordCommands/CommandConfigPreview.java:369-372 | null stays null; otherwise the same length with everything after the first character kept |
| ConfigPreview.CapitalizeIdempotent | src/main/java/de/erdbeerbaerlp/dcintegration/common/discordCommands/CommandConfigPreview.java:369-372 | capitalizing twice is capitalizing once |
| TemplateConfiguration.TemplateConfig.constructor | src/main/java/de/erdbeerbaerlp/dcintegration/common/storage/template/TemplateConfig.java:37-47 | a new configuration is disabled with no templates |
| TemplateConfiguration.TemplateConfig.RegisterTemplates | src/main/java/de/erdbeerbaerlp/dcintegration/common/storage/template/TemplateConfig.java:85-105 | without an engine nothing; otherwise the registry is cleared and holds exactly the registrable entries of this object's table under their lower-cased names |
| TemplateConfiguration.TemplateConfig.LoadConfig | src/main/java/de/erdbeerbaerlp/dcintegration/common/storage/template/TemplateConfig.java:64-80 | the loaded instance gets the file's values, a null table made empty; the registry is filled from the receiver's table |
| TemplateConfiguration.TemplateConfig.LoadConfigCorrected | src/main/java/de/erdbeerbaerlp/dcintegration/common/storage/template/TemplateConfig.java:64-80 | as `loadConfig`, but the registry is filled from the loaded instance's table |
| TemplateConfiguration.RegisteredKeys | src/main/java/de/erdbeerbaerlp/dcintegration/common/storage/template/TemplateConfig.java:97-104 | the registry's keys are exactly the lower-cased names of the registrable entries |
| TemplateConfiguration.UnregistrableAbsent | src/main/java/de/erdbeerbaerlp/dcintegration/common/storage/template/TemplateConfig.java:100 | an entry that is null or has null or empty content cannot be looked up |
| TemplateConfiguration.LookupFindsEntry | src/main/java/de/erdbeerbaerlp/dcintegration/common/storage/template/TemplateConfig.java:97-104 | without case clashes every registrable entry is found under any spelling of its name, with its content |
| TemplateConfiguration.StaleReceiverMissesLoadedTemplate | src/main/java/de/erdbeerbaerlp/dcintegration/common/storage/template/TemplateConfig.java:71-77 | registering from the default receiver misses template `a` that the loaded file defines |
| TemplateConfiguration.LoadedTemplatesFound | src/main/java/de/erdbeerbaerlp/dcintegration/common/storage/template/TemplateConfig.java:97-104 | after the corrected load every registrable template of the file can be looked up |

## Left out

- Case mapping and digits are ASCII only: `toLowerCase`, `toUpperCase`, `equalsIgnoreCase` and the digits of `Integer.decode` are modelled for ASCII letters and digits. Other Unicode letters and digits, locale rules and length-changing mappings are not modelled.
- The include recursion is bounded by a depth argument. The source's unbounded recursion ends in `StackOverflowError`, an `Error` that no handler in the core catches. The model reports it as `RecursionTooDeep` and does not model the crash itself.
- PatternMatcher.FirstMatch: `ScanFailed` stands only for an `Exception` thrown while matching, which the handler at MessagePatternMatcher.java:76 catches and passes over. An `Error` such as `StackOverflowError` from a deeply recursive regex propagates out of `processMessage` and is not modelled.
- The text Java holds after a cut that splits a surrogate pair (a lone surrogate) is kept as units. What Discord does with such a title or description is not modelled.
- Java's regex engine for user rules (`Pattern.compile` with `CASE_INSENSITIVE`, `matches`, `find`) is an oracle passed as parameters. Only the shape of its answers is constrained.
- The engine's own four regexes are modelled as concrete scanners. `\s` is the ASCII class, as Java uses it without `UNICODE_CHARACTER_CLASS`.
- TOML reading and writing (`saveConfig`, the file checks in `loadConfig`, `reloadTemplates`) is file I/O. The file's content is a parameter, and the `saveConfig` calls in `saveField` and `toggleEmbed` are left out.
- Logging calls are left out.
- The static singletons (`Configuration.instance()`, `DiscordIntegration.INSTANCE`, `TemplateConfig.INSTANCE`) are passed as parameters: the enabled flag, the rules, the engine and the embed mode.
- `EmbedBuilder`, `MessageEmbed` and `DiscordMessage` are a plain record of text, colour, title and description. The library's own checks are not modelled: those inside `build()`, and those of the setters, such as `setTitle` rejecting an empty title. So where `replaceAll` yields an empty title, `PatternMatching.ReplacementMessage`, `PatternMatching.EmbedWithinLimits` and `PatternMatching.GroupOneTitle` give an embed with an empty title, where the program's outer handler would return null.
- `MessageUtils.replacePlaceholders` is not part of this model.
- The Discord UI of `CommandConfigPreview` (`execute`, `showEmbedPreview`, `showMainMenu`, `showEditModal`), `generatePreview` and `getDefaultMessage` are not part of this model.
- The tests, mocks and simulators are not part of this model.
- A null embed type or field type in `saveField`, `toggleEmbed`, `getEmbedEntry` and `getSamplePlaceholders` throws `NullPointerException` (a switch on null). The model takes non-null strings.
- ConfigPreview.Truncate: `maxLength` is a `nat`. A negative `maxLength` would make `substring` throw, and that case is not modelled.
- ConfigPreview.Capitalize: the contract states the length and the kept tail. The first character's mapping is `UpperChar`, ASCII only.
- Templating.StripQuotes: its own contract states only that the result is no longer. What it removes is stated by `TemplateProps.StripQuotesQuoted`.
- HashMap iteration order in `registerTemplates` is unspecified. When two names differ only in case, the model allows either to be kept.
- Variable values are non-null strings. A null value in the caller's map is not modelled.
- TemplateTokens.Find: the contract states that the match lies at or after the position. That it is the leftmost match is stated by `FindFirst` and `FindSkipsNothing`.
- JavaString.Replace: the contract states only the no-occurrence case. Replacing a whole text is stated by `ReplaceWhole`. Replacing several occurrences is stated only through its definition.

## Findings

| source | as written | input that shows it | evidently intended | confidence | as-written member | corrected member |
|---|---|---|---|---|---|---|
| src/main/java/de/erdbeerbaerlp/dcintegration/common/storage/template/TemplateConfig.java:71-77 | `loadConfig` reads the file into a new `INSTANCE`, then calls `registerTemplates()` on the receiver, which iterates the receiver's own `templates` field | the default receiver (no templates) loading a file that defines template `a` with content `x`: afterwards `getTemplate("a")` is null | register the templates of the instance just loaded | not executed | TemplateConfiguration.TemplateConfig.LoadConfig, TemplateConfiguration.StaleReceiverMissesLoadedTemplate | TemplateConfiguration.TemplateConfig.LoadConfigCorrected, TemplateConfiguration.LoadedTemplatesFound |
