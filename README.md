# LTK utilities in Dafny

A Dafny model of the three pure-logic utility modules of the LTK tournament
site, with proofs of what they promise.

- **Match data** (`src/utils/matchDataTransform.ts`). The results sheet has one
  row per player per game. The module:
  - groups the rows by the key `date_team_opponent_division`;
  - rebuilds two-sided matches from a group, including the fallback that looks
    at the two distinct team names;
  - sums the team totals and picks an MVP from the winning side;
  - joins the rebuilt matches onto the tournament schedule
    (`src/types/matches.ts`);
  - extracts a game's lineups.
- **Internationalisation** (`src/utils/i18n.ts`):
  - `/en` path prefixes for a site whose default language is Japanese;
  - language validation and text direction;
  - the localized-meta fallback;
  - dotted-key translation lookup with `{{name}}` substitution.
- **YouTube helpers** (`src/utils/youtubeApi.ts`):
  - rendering an ISO 8601 duration (`PT#H#M#S`, ISO 8601:2004 section 4.4.3)
    as a clock;
  - the rule that classifies a video as a Short;
  - extracting a video id from a URL.

Files:

| file | contents |
|---|---|
| `common.dfy` (`Common`) | `Option` and `Result`; `filter`; `Set` order (first seen); summing `reduce` |
| `text.dfy` (`Text`) | JavaScript string semantics; see below |
| `match_types.dfy` (`MatchTypes`) | the records of the match data and of the schedule |
| `match_data_transform.dfy` (`MatchDataTransform`) | the match-data operations |
| `i18n.dfy` (`I18n`) | the internationalisation helpers |
| `youtube.dfy` (`YouTube`) | the duration, Shorts and video-id helpers |

The JavaScript semantics in `Text` cover:
- `split`, which keeps empty pieces, and `join`;
- `filter(Boolean)`;
- `startsWith` and `includes`;
- ASCII `toLowerCase`;
- the `\s` class;
- `parseInt` and `toString` on decimal digits;
- `padStart`.

How the code's constructs are modelled:
- **Imperative code.**
  - The `Map`-filling loop of `groupMatchEntries` is a method with a loop. So is
    the key-walking loop of the translation function, and the `forEach` of
    `generateLocalizedRoutes`.
  - Each of these methods is proved against a specification function.
  - A JavaScript `Map` is a key list in insertion order next to a Dafny `map`.
- **Pure code** is modelled as functions.
- **A thrown error** is `Result.Error` with the thrown message.
- **`undefined`/`null`** become `Option`. The schedule's optional, nullable
  `result` field has three states: missing, `null`, or present.
- **Regular expressions** are recursive functions with the same
  leftmost-first, greedy behaviour.

## Model

| member | source | states |
|---|---|---|
| Common.Filter | src/utils/matchDataTransform.ts:133-134 | `filter`: no longer than the input, every kept element satisfies the test, and an element is kept iff it is in the input and passes |
| Common.Dedup | src/utils/matchDataTransform.ts:138 | a `Set`'s iteration order: no repeats, the same members as the input, the first element first |
| Common.SumOfPermutation | src/utils/matchDataTransform.ts:214-217 | a summing `reduce` gives the same total over any reordering of the list |
| Text.Split | src/utils/matchDataTransform.ts:130 | `split` gives at least one piece and no piece holds the separator |
| Text.SplitJoin | src/utils/matchDataTransform.ts:130 | splitting pieces joined by a separator they lack gives the pieces back |
| Text.NonEmpty | src/utils/i18n.ts:16 | `filter(Boolean)`: a piece is in the result exactly when it is in the input and non-empty (the result is the input filtered in order) |
| Text.LowerAscii | src/utils/matchDataTransform.ts:99 | `toLowerCase` keeps the length and lowers each character in place |
| Text.ReplaceChar | src/utils/matchDataTransform.ts:92 | a global one-character `replace`: same length, the character replaced everywhere, everything else kept |
| Text.ReplaceCharRoundTrip | src/utils/matchDataTransform.ts:92 | replacing `a` by an absent `b` and back restores the text |
| Text.NatToDecimal | src/utils/youtubeApi.ts:85-88 | `toString` of a count: a non-empty digit string without a leading zero |
| Text.DecimalRoundTrip | src/utils/youtubeApi.ts:81-88 | `parseInt` reads back the number `toString` wrote |
| Text.PadStart2 | src/utils/youtubeApi.ts:86-88 | `padStart(2, '0')`: at least two characters, the input at the end and every character before it a `0` |
| Text.PaddedDecimal | src/utils/youtubeApi.ts:86-88 | a padded count is digits, at least two, reads back as the count, and starts with `0` only when it is exactly two long |
| Text.CanonicalDecimal | src/utils/youtubeApi.ts:81-88 | a digit string without a leading zero is what `toString` writes for the number it reads as |
| Text.PaddedField | src/utils/youtubeApi.ts:86-88 | a digit string of two characters, or longer without a leading zero, is what `toString().padStart(2, '0')` writes for the number it reads as |
| MatchDataTransform.CollapseKeepsWord | src/utils/matchDataTransform.ts:99 | collapsing whitespace copies a leading whitespace-free word unchanged |
| MatchDataTransform.NormalizedFixedPoint | src/utils/matchDataTransform.ts:99 | a name with no whitespace and no upper case is already its own id |
| MatchDataTransform.NormalizeTwoWords | src/utils/matchDataTransform.ts:99 | a name of two letter words separated by a space normalizes to the lowered words joined by `_` |
| MatchDataTransform.ConcatenationCount | src/utils/matchDataTransform.ts:105-118 | the buckets of distinct keys, laid end to end, hold an entry as often as the input does when its key is among them, and never otherwise |
| YouTube.NoPrefixInBareId | src/utils/youtubeApi.ts:343-344 | no URL alternative occurs inside an 11-character bare id |
| MatchDataTransform.ConvertDateFormat | src/utils/matchDataTransform.ts:91-93 | every `/` becomes `-` in place and every other character is kept in place: same length, no `/` left |
| MatchDataTransform.LineupDate | src/utils/matchDataTransform.ts:311 | every `-` becomes `/` in place and every other character is kept in place |
| MatchDataTransform.DateRoundTrip | src/utils/matchDataTransform.ts:311 | a sheet date without `-` comes back unchanged from `convertDateFormat` followed by the lineup normalisation |
| MatchDataTransform.TeamMappingsInverse | src/utils/matchDataTransform.ts:5-18 | the name table and the display table are inverse to each other |
| MatchDataTransform.CollapseWhitespace | src/utils/matchDataTransform.ts:99 | `replace(/\s+/g, '_')` leaves no whitespace character |
| MatchDataTransform.CollapseRun | src/utils/matchDataTransform.ts:99 | a whole run of whitespace before a non-whitespace character, or before the end, becomes one `_` |
| MatchDataTransform.NormalizedTeamName | src/utils/matchDataTransform.ts:99 | the fallback id has no whitespace and no upper-case letter |
| MatchDataTransform.NormalizeRun | src/utils/matchDataTransform.ts:99 | a word, a whitespace run and the rest normalize to the lower-cased word, one `_`, and the normalized rest |
| MatchDataTransform.ConvertTeamName | src/utils/matchDataTransform.ts:98-100 | a name in the table gives the table's id; any other name gives the lower-cased, whitespace-collapsed name |
| MatchDataTransform.NormalizeWords | src/utils/matchDataTransform.ts:99 | letter words separated by single spaces become the lower-cased words joined by `_` |
| MatchDataTransform.ConvertUnknownTeamName | src/utils/matchDataTransform.ts:98-100 | a name outside the table made of letter words (e.g. `Some New Team`) converts to its lower-cased words joined by `_` (`some_new_team`) |
| MatchDataTransform.TableAgreesWithFallback | src/utils/matchDataTransform.ts:5-10 | for every table entry the fallback rule gives the same id |
| MatchDataTransform.ConvertTeamNameIsNormalization | src/utils/matchDataTransform.ts:98-100 | `convertTeamName` equals the fallback rule on every input |
| MatchDataTransform.ConvertTeamNameIdempotent | src/utils/matchDataTransform.ts:98-100 | converting a converted name changes nothing |
| MatchDataTransform.DisplayNameRoundTrip | src/utils/matchDataTransform.ts:13-18 | every display name converts back to the id it displays |
| MatchDataTransform.MatchKeysMembership | src/utils/matchDataTransform.ts:109 | a key is among the entries' keys iff some entry has that key |
| MatchDataTransform.WithKey | src/utils/matchDataTransform.ts:105-118 | a bucket holds exactly the entries that have its key |
| MatchDataTransform.GroupMatchEntries | src/utils/matchDataTransform.ts:105-118 | the buckets' keys in first-seen order; a bucket exists iff its key occurs; each bucket equals the input filtered by its key, in input order |
| MatchDataTransform.KeysStep | src/utils/matchDataTransform.ts:110-112 | a new entry adds its key to the key order only if the key is new |
| MatchDataTransform.WithKeyStep | src/utils/matchDataTransform.ts:113 | a new entry extends only its own key's bucket, at the end |
| MatchDataTransform.BucketCount | src/utils/matchDataTransform.ts:105-118 | an entry occurs in its own key's bucket as often as in the input, and in no other bucket |
| MatchDataTransform.BucketsPartitionEntries | src/utils/matchDataTransform.ts:105-118 | all buckets together hold each input entry exactly once (equal multisets) |
| MatchDataTransform.PlayerStats | src/utils/matchDataTransform.ts:199-212 | a player line copies the entry; an empty ban becomes absent, any other ban is kept |
| MatchDataTransform.Players | src/utils/matchDataTransform.ts:199-212 | one player line per entry, in input order |
| MatchDataTransform.CreateTeamStats | src/utils/matchDataTransform.ts:194-230 | an error with the source's message iff there are no entries; otherwise four totals that are the exact sums over all entries, side, result and duration from the first entry, and the players in order |
| MatchDataTransform.TeamTotalsOrderFree | src/utils/matchDataTransform.ts:214-217 | the totals do not depend on the order of the entries |
| MatchDataTransform.TeamTotalsAdd | src/utils/matchDataTransform.ts:214-217 | each of the four totals (kills, deaths, damage, gold) of two concatenated lists is the sum of each list's total |
| MatchDataTransform.Winners | src/utils/matchDataTransform.ts:238 | exactly the winning entries |
| MatchDataTransform.EarliestBestUnique | src/utils/matchDataTransform.ts:242-246 | at most one position is the earliest of the highest scores |
| MatchDataTransform.BestIndex | src/utils/matchDataTransform.ts:242-246 | the strict-`>` left-to-right scan ends on the earliest entry whose score is at least every other |
| MatchDataTransform.FindMVPCandidate | src/utils/matchDataTransform.ts:235-249 | absent iff no entry won; otherwise the player of the earliest highest-scoring winning entry |
| MatchDataTransform.MvpIgnoresLosers | src/utils/matchDataTransform.ts:238 | removing the losing entries first changes nothing |
| MatchDataTransform.MvpField | src/utils/matchDataTransform.ts:187 | `|| undefined`: the candidate when it is a non-empty name, absent otherwise |
| MatchDataTransform.BuildEnhancedMatch | src/utils/matchDataTransform.ts:159-189 | an error iff a side is empty; otherwise winner is team1 when team1's stats say Win and team2 otherwise; `enhanced_` + key; dash date; division; converted names; first entry's format and duration; both sides' stats; the MVP field of both sides' entries |
| MatchDataTransform.SideEntries | src/utils/matchDataTransform.ts:133 | exactly the entries whose team is the key's team; none when the key has no such piece |
| MatchDataTransform.ReplyEntries | src/utils/matchDataTransform.ts:134 | exactly the entries whose opponent is the key's team and whose team is the key's opponent |
| MatchDataTransform.TeamsThenOpponents | src/utils/matchDataTransform.ts:138 | every entry's team, then every entry's opponent, in entry order |
| MatchDataTransform.AllTeams | src/utils/matchDataTransform.ts:138 | the set of all team and opponent names: no repeats, every team and opponent present and no other name, the first entry's team first |
| MatchDataTransform.TransformToEnhancedMatch | src/utils/matchDataTransform.ts:123-154 | never an error; empty input gives null; on the direct path, a match iff both sides are non-empty, and then it is the match built from the key's date, team, opponent and division with the team's entries and the replies; when both sides are empty, a match iff there are exactly two names and the second has entries, and then it is the match built from the two names and their sides; a built match has the key-derived id, date and division and the first entry's format and duration |
| MatchDataTransform.KeySplit | src/utils/matchDataTransform.ts:109 | a key built from underscore-free fields splits back into date, team, opponent and division |
| MatchDataTransform.GroupedBucketRejected | src/utils/matchDataTransform.ts:133-134 | a bucket from the grouping between two different teams is rejected: no entry is the opponent's reply |
| MatchDataTransform.GroupedBucketsRejected | src/utils/matchDataTransform.ts:151 | hence every bucket of such a grouping yields null |
| MatchDataTransform.SideCount | src/utils/matchDataTransform.ts:141-142 | an entry occurs on its own team's side as often as in the input, and on no other side |
| MatchDataTransform.FallbackSides | src/utils/matchDataTransform.ts:138-142 | on the fallback path the first side is the first entry's team, and the two sides partition the entries |
| MatchDataTransform.TwoSidesCount | src/utils/matchDataTransform.ts:141-142 | when every entry plays for one of two different teams, the two sides together hold each entry once |
| MatchDataTransform.TwoSidedGameBuilt | src/utils/matchDataTransform.ts:151-153 | one line from each side under the first line's key builds a match with converted names, dash date, and the first side as winner when it won |
| MatchDataTransform.FallbackGameBuilt | src/utils/matchDataTransform.ts:136-153 | two lines of one game under a key whose team piece names neither side are rebuilt by the fallback: the first line's team is team1, the other team2, and the winner is the converted name of the team whose line won |
| MatchDataTransform.GameTeams | src/utils/matchDataTransform.ts:138 | the names in the two lines of one game are the two teams, the first line's team first |
| MatchDataTransform.OneLineSide | src/utils/matchDataTransform.ts:141-142 | a line that is the only one of its team, once, is that team's whole side |
| MatchDataTransform.FirstCorresponding | src/utils/matchDataTransform.ts:261-266 | `find`: the first enhanced match with the day's date, the division and the unordered team pair; none when none corresponds |
| MatchDataTransform.FirstCorrespondingOfPair | src/utils/matchDataTransform.ts:263-265 | the search does not depend on the order of the two teams |
| MatchDataTransform.CorrelateMatch | src/utils/matchDataTransform.ts:260-281 | only the result changes; no game leaves the match unchanged; with a game, a missing or null result becomes null and a result keeps winner, score, MVP and draft and gains the game's duration, stats and MVP candidate |
| MatchDataTransform.CorrelateDay | src/utils/matchDataTransform.ts:258-287 | the same day with each match correlated, same count and order |
| MatchDataTransform.CorrelateWithTournamentData | src/utils/matchDataTransform.ts:254-294 | playoffs and standings untouched; same days in the same order, each correlated |
| MatchDataTransform.CorrelateWithNothing | src/utils/matchDataTransform.ts:254-294 | without games the data comes back unchanged |
| MatchDataTransform.CorrelateMatchIdempotent | src/utils/matchDataTransform.ts:260-281 | correlating a match twice equals correlating it once |
| MatchDataTransform.CorrelateIdempotent | src/utils/matchDataTransform.ts:254-294 | correlating the schedule twice equals correlating it once |
| MatchDataTransform.CorrelateSidesSwapped | src/utils/matchDataTransform.ts:263-265 | swapping a scheduled match's teams gives the same correlated result |
| MatchDataTransform.DisplayName | src/utils/matchDataTransform.ts:307-308 | the table's display name, or the key itself |
| MatchDataTransform.GameEntries | src/utils/matchDataTransform.ts:314-322 | exactly the lines of that date and division with the two teams facing each other either way round |
| MatchDataTransform.TeamLines | src/utils/matchDataTransform.ts:329-330 | exactly the lines of one team |
| MatchDataTransform.GetMatchLineup | src/utils/matchDataTransform.ts:299-341 | a lineup iff both teams have a line in that game; each side is exactly the input filtered to the lines of the game played by that team, in input order |
| MatchDataTransform.HasMatchLineup | src/utils/matchDataTransform.ts:346-355 | true iff `getMatchLineup` finds a lineup |
| MatchDataTransform.LineupSwapped | src/utils/matchDataTransform.ts:299-341 | asking with the teams swapped finds a lineup iff the original does, with the sides swapped |
| I18n.LanguageOfCode | src/utils/i18n.ts:7 | the supported language with that code; none for any code but `ja` and `en` |
| I18n.FindLanguage | src/utils/i18n.ts:7 | the first listed language with the code, or none when no listed language has it |
| I18n.IsValidLanguage | src/utils/i18n.ts:164-166 | true exactly for `ja` and `en` |
| I18n.EnsureValidLanguage | src/utils/i18n.ts:168-170 | a valid code's language, the default `ja` otherwise |
| I18n.EnsureValidCode | src/utils/i18n.ts:168-170 | validating a language's own code gives it back |
| I18n.GetLanguageDirection | src/utils/i18n.ts:218-224 | every supported language is left to right |
| I18n.Segments | src/utils/i18n.ts:16 | `split('/').filter(Boolean)`: exactly the `/`-pieces of the path filtered to the non-empty ones, in order |
| I18n.SegmentsOfCanonical | src/utils/i18n.ts:69 | joining segments behind `/` and splitting again gives the segments back |
| I18n.DetectLanguageFromPath | src/utils/i18n.ts:15-24 | English iff the first non-empty segment is `en`; Japanese otherwise |
| I18n.RemoveLanguageFromPath | src/utils/i18n.ts:61-70 | starts with `/`; its segments are the input's without one leading language segment; it is in canonical form |
| I18n.CanonicalRoot | src/utils/i18n.ts:58 | a canonical path is `/` iff it has no segments |
| I18n.AddLanguageToPath | src/utils/i18n.ts:51-59 | the default language, Japanese, returns the path unchanged |
| I18n.AddEnglish | src/utils/i18n.ts:51-59 | adding English gives exactly the canonical path of `en` followed by the cleaned path's segments (`/en` + the cleaned path, or `/en` for the root); it detects as English and cleans back to the cleaned input |
| I18n.PrefixedPath | src/utils/i18n.ts:58 | prefixing a cleaned path with a code adds exactly that leading segment |
| I18n.GetLocalizedPath | src/utils/i18n.ts:72-75 | the current language plays no part; to Japanese it is the cleaned path; to English it is exactly the canonical path of `en` followed by the path's segments with up to two leading language segments dropped, and it detects as English |
| I18n.LocalizedToDefault | src/utils/i18n.ts:72-75 | switching to Japanese yields a Japanese path iff the segment after the dropped language is not `en` (`/en/en/x` becomes `/en/x`) |
| I18n.GenerateLocalizedRoutes | src/utils/i18n.ts:227-235 | one route per supported language: `ja` is the base path; `en` is exactly the canonical path of `en` followed by the cleaned base path's segments, which detects as English and cleans back to the cleaned base path |
| I18n.GetLocalizedMeta | src/utils/i18n.ts:238-243 | the requested language's non-empty text, else the default's non-empty text, else `""` |
| I18n.LookupFirstStep | src/utils/i18n.ts:85-94 | the walk along a key path can start with its first step |
| I18n.LookupNested | src/utils/i18n.ts:85-94 | walking a tree along its own key path reaches its text |
| I18n.LookupFails | src/utils/i18n.ts:88-92 | a walk that fails at one step fails for the whole key |
| I18n.PlaceholderAt | src/utils/i18n.ts:103 | a recognised placeholder is `{{` + a non-empty run of word characters + `}}` at the start |
| I18n.SubstituteNoParams | src/utils/i18n.ts:102-106 | with an empty parameter object the text is unchanged |
| I18n.SubstituteCopiesText | src/utils/i18n.ts:103-105 | text without `{` is copied unchanged |
| I18n.SubstitutePlaceholderFirst | src/utils/i18n.ts:103-105 | a leading placeholder becomes its parameter when non-empty, and stays as written otherwise |
| I18n.SubstituteOnePlaceholder | src/utils/i18n.ts:102-106 | a placeholder whose parameter is non-empty is replaced by it, the text before it copied |
| I18n.Translate | src/utils/i18n.ts:82-110 | the loop computes the translation: the key itself when a step fails or the value is not a string, the substituted text with parameters, the text as stored otherwise |
| I18n.MissingKeyIsReturned | src/utils/i18n.ts:88-92 | with no translations every key translates to itself |
| I18n.StoredTextIsFound | src/utils/i18n.ts:82-110 | a text stored under a dotted key is found by it, and a placeholder-free lookup with empty parameters returns it as stored |
| YouTube.IndexOf | src/utils/youtubeApi.ts:78 | the first occurrence at or after a position, or none |
| YouTube.ParseAfterPT | src/utils/youtubeApi.ts:78 | a text starting with `PT` is read from just after it |
| YouTube.TakeComponentHit | src/utils/youtubeApi.ts:78-83 | digits followed by their unit letter read back as the number |
| YouTube.TakeComponentMiss | src/utils/youtubeApi.ts:78-83 | digits followed by another unit leave the group at 0 and the text untouched |
| YouTube.ReadAllComponents | src/utils/youtubeApi.ts:78-83 | the three groups of the canonical text read back the duration |
| YouTube.IsoDurationRoundTrip | src/utils/youtubeApi.ts:78-83 | parsing a duration's canonical ISO text gives the duration back |
| YouTube.MinutesSecondsDuration | src/utils/youtubeApi.ts:81-83 | a text without an hour group reads as zero hours |
| YouTube.ClockRoundTrip | src/utils/youtubeApi.ts:85-88 | the clock rendering loses nothing: it parses back to the duration |
| YouTube.FormatClock | src/utils/youtubeApi.ts:85-88 | `H:MM:SS` with hours, `M:SS` without: three or two `:`-fields of digits, the first without a leading zero, the others padded with `0` to two digits (exactly two long, or longer without a leading zero) |
| YouTube.ClockTextUnique | src/utils/youtubeApi.ts:85-88 | two texts of the same clock shape that read back as the same duration are the same text |
| YouTube.FormatDuration | src/utils/youtubeApi.ts:77-89 | `0:00` when there is no `PT`; otherwise the `H:MM:SS` shape when the parsed duration has hours and `M:SS` otherwise, with `0`-padded later fields, a text that reads back as the parsed duration |
| YouTube.FormatDurationDetermined | src/utils/youtubeApi.ts:77-89 | that contract fixes the text: any text with that shape that reads back as the parsed duration is the result |
| YouTube.FormatMinutesSeconds | src/utils/youtubeApi.ts:73-88 | without hours the result is minutes, `:`, two-digit seconds (`PT4M13S` gives `4:13`) |
| YouTube.FormatIsoDuration | src/utils/youtubeApi.ts:77-89 | the canonical ISO text of a duration renders as its clock form |
| YouTube.IsYouTubeShort | src/utils/youtubeApi.ts:98-126 | false without `PT`; true at up to 60 seconds; false above 90; in between, true iff title or description mentions `#short` |
| YouTube.ShortsTagImpliesShortTag | src/utils/youtubeApi.ts:115-122 | mentioning `#shorts` implies mentioning `#short` |
| YouTube.ShortVideoIsShort | src/utils/youtubeApi.ts:110-112 | any video up to a minute is a Short whatever its title and description |
| YouTube.UrlMatchAt | src/utils/youtubeApi.ts:343 | the first alternative followed by a non-empty id run gives that run; none when no alternative is |
| YouTube.UrlSearch | src/utils/youtubeApi.ts:343 | the match at the leftmost position where the URL pattern matches, with no match at any earlier position; none exactly when it matches nowhere |
| YouTube.ExtractVideoId | src/utils/youtubeApi.ts:341-355 | the leftmost URL match when there is one; otherwise the input itself iff it is an 11-character bare id, and null else |
| YouTube.MatchAtPrefix | src/utils/youtubeApi.ts:343 | the four alternatives exclude each other, so a text starting with one yields the id after it |
| YouTube.ExtractFromUrl | src/utils/youtubeApi.ts:341-355 | a lead-in without `y`, a prefix, an id and a stop character give exactly that id |
| YouTube.SearchSkipsLead | src/utils/youtubeApi.ts:343 | no match starts inside a lead-in without `y` |
| YouTube.ExtractBareId | src/utils/youtubeApi.ts:344 | an 11-character bare id is returned as it is |

## Left out

- The network and timer functions of the YouTube module are not part of this
  model, because they are I/O:
  - `searchYouTubeVideos`, `getVideoDetails`, `searchLTKVideos`;
  - `generateStaticVideoData`, `isVideoAvailable`.
- The API route handlers, `src/utils/adminAuth.ts` and `src/middleware.ts`
  are not part of this model. They are file-system, secret, clock and
  request plumbing.
- Browser, cookie, dynamic-import and locale-library helpers of the i18n
  module are not part of this model, because they call browser or library code:
  - `detectLanguageFromBrowser`, `getLanguageFromUrl`;
  - the cookie functions, `loadTranslations`;
  - `formatDate`, `formatDateTime`, `formatNumber`;
  - `getLanguageAlternates`, `getHreflangTags`.
- Floating point: `kda` and the MVP score `kda * (damage / 1000)` are exact
  reals, without IEEE rounding. Counts and sums are unbounded integers.
  `parseInt` of a digit string is an unbounded natural number.
- Unicode: `toLowerCase` is ASCII-only. `\s` is JavaScript's whitespace
  set, and `\w` is its ASCII set.
- Object-prototype lookups such as `TEAM_NAME_MAPPING["constructor"]` and
  `"toString" in value` are JavaScript quirks. The tables hold exactly
  their listed keys, and a translation object holds exactly its own entries.
  The same holds for the `params` object of the translation function: with
  `{}`, the placeholder `{{constructor}}` would be replaced by the text of
  the inherited function. Here a parameter that is not given leaves the
  placeholder as written.
- `toString` of a count of 10^21 or more prints in exponential notation.
  `NatToDecimal` prints every count in plain digits.
- YouTube.IsYouTubeShort: title and description are required parameters.
  The source defaults both to `''`; passing `""` gives the same result.
- I18n.AddLanguageToPath: its own contract states the default-language case
  only. The English case is the lemma AddEnglish, kept apart so that each
  caller unfolds it only where it is used.
- MatchDataTransform.NormalizedTeamName: its own contract states only that
  the id has no whitespace and no upper-case letter. The exact id is stated
  by the lemmas NormalizeRun, NormalizeWords and NormalizedFixedPoint.
- MatchDataTransform.CollapseWhitespace: its own contract states only that
  no whitespace is left. What each run becomes is stated by CollapseRun and
  CollapseKeepsWord.
- Translation trees: arrays are treated like the other non-string, non-object
  values (`Scalar`), although JavaScript could walk into them by index.
- The `console.warn` calls of the translation function are left out.
- I18n.Translate: parameters are strings. The source also accepts numbers
  and substitutes their `toString()`, so number formatting is left out.
- I18n.GetLocalizedMeta: the record is a map that may lack a language. A
  missing entry is read as the falsy `undefined`, the same as `""`.
- MatchDataTransform.GroupMatchEntries: returns the keys in insertion order
  and the buckets as a map, not one `Map` object. Object identity and
  in-place `push` on shared arrays are not modelled.
- MatchDataTransform.PlayerStats: the contract names the banned champion,
  player, champion and side. The other fields are copied by the body and
  not restated.
- MatchDataTransform.TransformToEnhancedMatch: the division is the fourth
  `_`-piece of the key, cast without checking. It is kept as an optional
  string rather than narrowed to `CORE`/`NEXT`.
- Type-only declarations other than the records used here are left out
  (`src/types/*.ts` beyond `matches.ts`, the YouTube response interfaces).

The code and the project's documentation differ in
three places; the model follows the code:
- The fallback of `transformToEnhancedMatch` collects the opponents as well
  as the teams.
- The winner is team2 whenever team1's result is not `Win`.
- Every group that `groupMatchEntries` produces for two different teams is
  rejected by the direct path of `transformToEnhancedMatch`, when no date,
  team or opponent name contains `_`. In such a group every entry's team is
  the key's team, so no entry can be the opponent's reply.
  MatchDataTransform.GroupedBucketsRejected proves this. With an `_` inside
  a name, two groups' keys can coincide and the key can split differently.
