// src/utils/matchDataTransform.ts: rebuilding two-sided matches from the
// flat per-player result rows, summing team totals, picking an MVP, joining
// the rebuilt matches onto the tournament schedule, and extracting lineups.

module MatchDataTransform {
  import opened Common
  import opened Text
  import opened MatchTypes

  // ------------------------------------------------------------ team names

  /** `TEAM_NAME_MAPPING`: display name to internal id. */
  const TeamNameMapping: map<string, string> := map[
    "Precision Diadem" := "precision_diadem",
    "Domination Crown" := "domination_crown",
    "Sorcery Tiara" := "sorcery_tiara",
    "Resolve Regalia" := "resolve_regalia"]

  /** `TEAM_DISPLAY_MAPPING`: internal id to display name. */
  const TeamDisplayMapping: map<string, string> := map[
    "precision_diadem" := "Precision Diadem",
    "domination_crown" := "Domination Crown",
    "sorcery_tiara" := "Sorcery Tiara",
    "resolve_regalia" := "Resolve Regalia"]

  /** The two tables are each other's inverse. */
  lemma TeamMappingsInverse()
    ensures forall n :: n in TeamNameMapping ==>
      TeamNameMapping[n] in TeamDisplayMapping && TeamDisplayMapping[TeamNameMapping[n]] == n
    ensures forall k :: k in TeamDisplayMapping ==>
      TeamDisplayMapping[k] in TeamNameMapping && TeamNameMapping[TeamDisplayMapping[k]] == k
  {
  }

  /** `s.replace(/\s+/g, '_')`: every maximal run of whitespace becomes one underscore. */
  function CollapseWhitespace(s: string): (r: string)
    ensures forall i :: 0 <= i < |r| ==> !IsWhitespace(r[i])
    decreases |s|
  {
    if |s| == 0 then ""
    else if IsWhitespace(s[0]) then
      var run := Run(s, IsWhitespace);
      "_" + CollapseWhitespace(s[|run|..])
    else [s[0]] + CollapseWhitespace(s[1..])
  }

  /** Collapsing never introduces an upper-case letter. */
  lemma {:induction false} CollapseKeepsLowerCase(s: string)
    requires forall i :: 0 <= i < |s| ==> !IsAsciiUpper(s[i])
    ensures forall i :: 0 <= i < |CollapseWhitespace(s)| ==> !IsAsciiUpper(CollapseWhitespace(s)[i])
    decreases |s|
  {
    if |s| > 0 {
      if IsWhitespace(s[0]) {
        var run := Run(s, IsWhitespace);
        CollapseKeepsLowerCase(s[|run|..]);
      } else {
        CollapseKeepsLowerCase(s[1..]);
      }
    }
  }

  /** Collapsing copies a leading whitespace-free word. */
  lemma {:induction false} CollapseKeepsWord(w: string, rest: string)
    requires forall i :: 0 <= i < |w| ==> !IsWhitespace(w[i])
    ensures CollapseWhitespace(w + rest) == w + CollapseWhitespace(rest)
    decreases |w|
  {
    if |w| > 0 {
      var s := w + rest;
      assert s[0] == w[0] && !IsWhitespace(s[0]);
      assert s[1..] == w[1..] + rest;
      CollapseKeepsWord(w[1..], rest);
      assert w == [w[0]] + w[1..];
    } else {
      assert w + rest == rest;
    }
  }

  /** A whole run of whitespace before a non-whitespace character (or the end) becomes one underscore. */
  lemma CollapseRun(ws: string, rest: string)
    requires |ws| > 0 && forall i :: 0 <= i < |ws| ==> IsWhitespace(ws[i])
    requires |rest| == 0 || !IsWhitespace(rest[0])
    ensures CollapseWhitespace(ws + rest) == "_" + CollapseWhitespace(rest)
  {
    var s := ws + rest;
    assert IsWhitespace(s[0]);
    if |rest| > 0 {
      RunStops(ws, rest, IsWhitespace);
    } else {
      assert s == ws;
      RunAll(ws, IsWhitespace);
    }
    assert s[|ws|..] == rest;
  }

  /** A word followed by one space before a non-space collapses to the word and one underscore. */
  lemma CollapseWordSpace(w: string, rest: string)
    requires forall i :: 0 <= i < |w| ==> !IsWhitespace(w[i])
    requires |rest| == 0 || !IsWhitespace(rest[0])
    ensures CollapseWhitespace(w + " " + rest) == w + "_" + CollapseWhitespace(rest)
  {
    var space := " ";
    assert IsWhitespace(space[0]);
    assert w + space + rest == w + (space + rest);
    CollapseKeepsWord(w, space + rest);
    CollapseRun(space, rest);
  }

  /** The fallback id of a team name: lower-cased, whitespace runs turned into `_`. */
  function NormalizedTeamName(displayName: string): (r: string)
    ensures forall i :: 0 <= i < |r| ==> !IsWhitespace(r[i]) && !IsAsciiUpper(r[i])
  {
    var lower := LowerAscii(displayName);
    CollapseKeepsLowerCase(lower);
    CollapseWhitespace(lower)
  }

  /**
   * A word, a run of whitespace and the rest of a name normalize to the
   * lower-cased word, one `_`, and the normalized rest.
   */
  lemma NormalizeRun(w: string, ws: string, rest: string)
    requires forall i :: 0 <= i < |w| ==> !IsWhitespace(w[i])
    requires |ws| > 0 && forall i :: 0 <= i < |ws| ==> IsWhitespace(ws[i])
    requires |rest| == 0 || !IsWhitespace(rest[0])
    ensures NormalizedTeamName(w + ws + rest) == LowerAscii(w) + "_" + NormalizedTeamName(rest)
  {
    LowerAppend(w + ws, rest);
    LowerAppend(w, ws);
    var lw, lws, lrest := LowerAscii(w), LowerAscii(ws), LowerAscii(rest);
    assert forall i :: 0 <= i < |ws| ==> lws[i] == ws[i];
    assert lws == ws;
    assert lw + lws + lrest == lw + (lws + lrest);
    CollapseKeepsWord(lw, lws + lrest);
    CollapseRun(lws, lrest);
  }

  /**
   * `convertTeamName`: the table id for the four known teams, the normalized
   * name for any other.
   */
  function ConvertTeamName(displayName: string): (r: string)
    ensures displayName in TeamNameMapping ==> r == TeamNameMapping[displayName]
    ensures displayName !in TeamNameMapping ==> r == NormalizedTeamName(displayName)
  {
    if displayName in TeamNameMapping && TeamNameMapping[displayName] != "" then TeamNameMapping[displayName]
    else NormalizedTeamName(displayName)
  }

  /** A name that is already lower-case and free of whitespace is its own normal form. */
  lemma NormalizedFixedPoint(s: string)
    requires forall i :: 0 <= i < |s| ==> !IsWhitespace(s[i]) && !IsAsciiUpper(s[i])
    ensures NormalizedTeamName(s) == s
  {
    assert LowerAscii(s) == s;
    CollapseKeepsWord(s, "");
    assert s + "" == s;
  }

  predicate IsAsciiLetter(c: char) { 'a' <= c <= 'z' || 'A' <= c <= 'Z' }

  /** A name made of non-empty words of ASCII letters. */
  predicate LetterWords(words: seq<string>)
  {
    forall i :: 0 <= i < |words| ==> |words[i]| > 0 && forall k :: 0 <= k < |words[i]| ==> IsAsciiLetter(words[i][k])
  }

  /** Each word lower-cased. */
  function LowerWords(words: seq<string>): (r: seq<string>)
    ensures |r| == |words|
    ensures forall i :: 0 <= i < |words| ==> r[i] == LowerAscii(words[i])
  {
    seq(|words|, i requires 0 <= i < |words| => LowerAscii(words[i]))
  }

  /**
   * Words of letters separated by single spaces normalize to their lower-case
   * forms joined by `_` (`Some New Team` becomes `some_new_team`).
   */
  lemma NormalizeWords(words: seq<string>)
    requires LetterWords(words)
    ensures NormalizedTeamName(Join(words, ' ')) == Join(LowerWords(words), '_')
  {
    LowerJoin(words, ' ');
    CollapseJoinedWords(LowerWords(words));
  }

  /** Lower-casing words joined by a non-letter joins the lower-cased words. */
  lemma {:induction false} LowerJoin(words: seq<string>, sep: char)
    requires !IsAsciiUpper(sep)
    ensures LowerAscii(Join(words, sep)) == Join(LowerWords(words), sep)
  {
    if |words| > 1 {
      LowerJoin(words[1..], sep);
      assert LowerWords(words)[1..] == LowerWords(words[1..]);
      LowerAppend(words[0] + [sep], Join(words[1..], sep));
      LowerAppend(words[0], [sep]);
    }
  }

  /** Lower-casing works character by character. */
  lemma LowerAppend(a: string, b: string)
    ensures LowerAscii(a + b) == LowerAscii(a) + LowerAscii(b)
  {
  }

  /** Whitespace-free words joined by single spaces collapse to the words joined by `_`. */
  lemma {:induction false} CollapseJoinedWords(words: seq<string>)
    requires forall i :: 0 <= i < |words| ==> |words[i]| > 0 && forall k :: 0 <= k < |words[i]| ==> !IsWhitespace(words[i][k])
    ensures CollapseWhitespace(Join(words, ' ')) == Join(words, '_')
  {
    if |words| == 1 {
      CollapseKeepsWord(words[0], "");
      assert words[0] + "" == words[0];
    } else if |words| > 1 {
      var rest := Join(words[1..], ' ');
      CollapseJoinedWords(words[1..]);
      JoinStartsWithFirstWord(words[1..], ' ');
      CollapseWordSpace(words[0], rest);
    }
  }

  /** A join starts with the first character of its first word. */
  lemma JoinStartsWithFirstWord(words: seq<string>, sep: char)
    requires |words| > 0 && |words[0]| > 0
    ensures |Join(words, sep)| > 0 && Join(words, sep)[0] == words[0][0]
  {
  }

  /** Two words of letters separated by a space normalize to their lower-case forms joined by `_`. */
  lemma NormalizeTwoWords(first: string, second: string, name: string, id: string)
    requires LetterWords([first, second])
    requires name == first + " " + second
    requires id == LowerAscii(first) + "_" + LowerAscii(second)
    ensures NormalizedTeamName(name) == id
  {
    var words := [first, second];
    assert words[1..] == [second];
    assert Join(words, ' ') == first + " " + second;
    assert LowerWords(words)[1..] == [LowerAscii(second)];
    assert Join(LowerWords(words), '_') == LowerAscii(first) + "_" + LowerAscii(second);
    NormalizeWords(words);
  }

  // Proof steps for TableAgreesWithFallback, one per table entry, so that each
  // literal computation is a separate proof.

  lemma NormalizePrecisionDiadem()
    ensures NormalizedTeamName("Precision Diadem") == "precision_diadem"
  {
    NormalizeTwoWords("Precision", "Diadem", "Precision Diadem", "precision_diadem");
  }

  lemma NormalizeDominationCrown()
    ensures NormalizedTeamName("Domination Crown") == "domination_crown"
  {
    NormalizeTwoWords("Domination", "Crown", "Domination Crown", "domination_crown");
  }

  lemma NormalizeSorceryTiara()
    ensures NormalizedTeamName("Sorcery Tiara") == "sorcery_tiara"
  {
    NormalizeTwoWords("Sorcery", "Tiara", "Sorcery Tiara", "sorcery_tiara");
  }

  lemma NormalizeResolveRegalia()
    ensures NormalizedTeamName("Resolve Regalia") == "resolve_regalia"
  {
    NormalizeTwoWords("Resolve", "Regalia", "Resolve Regalia", "resolve_regalia");
  }

  /** The table only spells out what the fallback would compute anyway. */
  lemma TableAgreesWithFallback()
    ensures forall n :: n in TeamNameMapping ==> NormalizedTeamName(n) == TeamNameMapping[n]
  {
    NormalizePrecisionDiadem();
    NormalizeDominationCrown();
    NormalizeSorceryTiara();
    NormalizeResolveRegalia();
  }

  /** `convertTeamName` is the normalization itself: the table never changes a result. */
  lemma ConvertTeamNameIsNormalization(displayName: string)
    ensures ConvertTeamName(displayName) == NormalizedTeamName(displayName)
  {
    TableAgreesWithFallback();
  }

  /** Converting an already converted name changes nothing. */
  lemma ConvertTeamNameIdempotent(displayName: string)
    ensures ConvertTeamName(ConvertTeamName(displayName)) == ConvertTeamName(displayName)
  {
    var id := ConvertTeamName(displayName);
    ConvertTeamNameIsNormalization(displayName);
    ConvertTeamNameIsNormalization(id);
    NormalizedFixedPoint(id);
  }

  /**
   * A name outside the table made of letter words separated by single spaces
   * converts to the lower-cased words joined by `_`.
   */
  lemma ConvertUnknownTeamName(words: seq<string>)
    requires LetterWords(words)
    requires Join(words, ' ') !in TeamNameMapping
    ensures ConvertTeamName(Join(words, ' ')) == Join(LowerWords(words), '_')
  {
    NormalizeWords(words);
  }

  /** Every display name converts back to the id it is displayed for. */
  lemma DisplayNameRoundTrip(id: string)
    requires id in TeamDisplayMapping
    ensures ConvertTeamName(TeamDisplayMapping[id]) == id
  {
  }

  // ----------------------------------------------------------------- dates

  /** `convertDateFormat`: `2025/06/18` becomes `2025-06-18`. */
  function ConvertDateFormat(date: string): (r: string)
    ensures |r| == |date| && '/' !in r
    ensures forall i :: 0 <= i < |date| && date[i] != '/' ==> r[i] == date[i]
    ensures forall i :: 0 <= i < |date| && date[i] == '/' ==> r[i] == '-'
  {
    ReplaceChar(date, '/', '-')
  }

  /** The date lineups are looked up by: `2025-06-18` becomes `2025/06/18`. */
  function LineupDate(date: string): (r: string)
    ensures |r| == |date| && '-' !in r
    ensures forall i :: 0 <= i < |date| && date[i] != '-' ==> r[i] == date[i]
    ensures forall i :: 0 <= i < |date| && date[i] == '-' ==> r[i] == '/'
  {
    ReplaceChar(date, '-', '/')
  }

  /**
   * A sheet date without dashes survives the trip through an enhanced match
   * and back to the lineup lookup.
   */
  lemma DateRoundTrip(date: string)
    requires '-' !in date
    ensures LineupDate(ConvertDateFormat(date)) == date
  {
    ReplaceCharRoundTrip(date, '/', '-');
  }

  // -------------------------------------------------------------- grouping

  /** The grouping key `${date}_${team}_${opponent}_${division}`. */
  function MatchKey(e: MatchResultEntry): string
  {
    e.date + "_" + e.team + "_" + e.opponent + "_" + e.division.Name()
  }

  /** The key of every entry, in input order. */
  function MatchKeys(entries: seq<MatchResultEntry>): seq<string>
  {
    if |entries| == 0 then [] else MatchKeys(entries[..|entries| - 1]) + [MatchKey(entries[|entries| - 1])]
  }

  /** The keys are exactly those of the entries. */
  lemma {:induction false} MatchKeysMembership(entries: seq<MatchResultEntry>, key: string)
    ensures key in MatchKeys(entries) <==> exists e :: e in entries && MatchKey(e) == key
  {
    if |entries| > 0 {
      var init := entries[..|entries| - 1];
      MatchKeysMembership(init, key);
      assert entries == init + [entries[|entries| - 1]];
      assert forall e :: e in entries <==> e in init || e == entries[|entries| - 1];
    }
  }

  /** The entries grouped under `key`, in input order. */
  function WithKey(entries: seq<MatchResultEntry>, key: string): (bucket: seq<MatchResultEntry>)
    ensures forall e :: e in bucket <==> e in entries && MatchKey(e) == key
  {
    Filter(entries, (e: MatchResultEntry) => MatchKey(e) == key)
  }

  /**
   * `groupMatchEntries`: one bucket per distinct key, the keys in first-seen
   * order (the order in which the `Map` enumerates them), each bucket holding
   * exactly the entries with that key in input order.
   */
  method GroupMatchEntries(entries: seq<MatchResultEntry>)
    returns (keys: seq<string>, buckets: map<string, seq<MatchResultEntry>>)
    ensures keys == Dedup(MatchKeys(entries))
    ensures forall k :: k in buckets <==> k in keys
    ensures forall k :: k in buckets ==> buckets[k] == WithKey(entries, k)
  {
    keys := [];
    buckets := map[];
    var i := 0;
    while i < |entries|
      invariant 0 <= i <= |entries|
      invariant IsGrouping(entries[..i], keys, buckets)
    {
      var entry := entries[i];
      var key := MatchKey(entry);
      assert entries[..i + 1] == entries[..i] + [entry];
      GroupingStep(entries[..i], entry, keys, buckets);
      var bucket := if key in buckets then buckets[key] else [];
      keys := if key in buckets then keys else keys + [key];
      buckets := buckets[key := bucket + [entry]];
      i := i + 1;
    }
    assert entries[..i] == entries;
  }

  /** `keys` and `buckets` are the grouping of `entries`. */
  ghost predicate IsGrouping(entries: seq<MatchResultEntry>, keys: seq<string>, buckets: map<string, seq<MatchResultEntry>>)
  {
    keys == Dedup(MatchKeys(entries))
    && (forall k :: k in buckets <==> k in keys)
    && (forall k :: k in buckets ==> buckets[k] == WithKey(entries, k))
  }

  /** Adding one entry to the input adds it to the end of its key's bucket, opening the bucket if needed. */
  lemma GroupingStep(prefix: seq<MatchResultEntry>, entry: MatchResultEntry,
    keys: seq<string>, buckets: map<string, seq<MatchResultEntry>>)
    requires IsGrouping(prefix, keys, buckets)
    ensures var key := MatchKey(entry);
      IsGrouping(prefix + [entry],
        if key in buckets then keys else keys + [key],
        buckets[key := (if key in buckets then buckets[key] else []) + [entry]])
  {
    KeysStep(prefix, entry);
    BucketsStep(prefix, entry, buckets);
  }

  /** Each bucket of the longer input is the old bucket, extended when the key is the new entry's. */
  lemma BucketsStep(prefix: seq<MatchResultEntry>, entry: MatchResultEntry, buckets: map<string, seq<MatchResultEntry>>)
    requires forall k :: k in buckets ==> buckets[k] == WithKey(prefix, k)
    requires MatchKey(entry) !in buckets ==> MatchKey(entry) !in Dedup(MatchKeys(prefix))
    ensures var key := MatchKey(entry);
      var buckets' := buckets[key := (if key in buckets then buckets[key] else []) + [entry]];
      forall k :: k in buckets' ==> buckets'[k] == WithKey(prefix + [entry], k)
  {
    var key := MatchKey(entry);
    var buckets' := buckets[key := (if key in buckets then buckets[key] else []) + [entry]];
    forall k | k in buckets' ensures buckets'[k] == WithKey(prefix + [entry], k) {
      WithKeyStep(prefix, entry, k);
      if k == key && key !in buckets {
        NewKeyEmpty(prefix, key);
      }
    }
  }

  /** The key list of a longer input gains the new key unless it was already seen. */
  lemma KeysStep(prefix: seq<MatchResultEntry>, entry: MatchResultEntry)
    ensures var keys := Dedup(MatchKeys(prefix));
      Dedup(MatchKeys(prefix + [entry])) == if MatchKey(entry) in keys then keys else keys + [MatchKey(entry)]
  {
    var all := prefix + [entry];
    assert all[..|prefix|] == prefix;
    assert MatchKeys(all) == MatchKeys(prefix) + [MatchKey(entry)];
    assert (MatchKeys(prefix) + [MatchKey(entry)])[..|MatchKeys(prefix)|] == MatchKeys(prefix);
  }

  /** A key not seen yet has collected no entries. */
  lemma NewKeyEmpty(prefix: seq<MatchResultEntry>, key: string)
    requires key !in Dedup(MatchKeys(prefix))
    ensures WithKey(prefix, key) == []
  {
    MatchKeysMembership(prefix, key);
    FilterNone(prefix, (e: MatchResultEntry) => MatchKey(e) == key);
  }

  /** A longer input extends only the bucket of the new entry's key. */
  lemma WithKeyStep(prefix: seq<MatchResultEntry>, entry: MatchResultEntry, k: string)
    ensures WithKey(prefix + [entry], k) == WithKey(prefix, k) + (if MatchKey(entry) == k then [entry] else [])
  {
    FilterSnoc(prefix, entry, (e: MatchResultEntry) => MatchKey(e) == k);
  }

  /** An entry occurs in the bucket of its own key as often as in the input, and in no other bucket. */
  lemma BucketCount(entries: seq<MatchResultEntry>, key: string, e: MatchResultEntry)
    ensures multiset(WithKey(entries, key))[e] == if MatchKey(e) == key then multiset(entries)[e] else 0
  {
    FilterCount(entries, (e: MatchResultEntry) => MatchKey(e) == key, e);
  }

  /** The buckets for `keys`, concatenated in that order. */
  function Concatenation(entries: seq<MatchResultEntry>, keys: seq<string>): seq<MatchResultEntry>
  {
    if |keys| == 0 then [] else WithKey(entries, keys[0]) + Concatenation(entries, keys[1..])
  }

  lemma {:induction false} ConcatenationCount(entries: seq<MatchResultEntry>, keys: seq<string>, e: MatchResultEntry)
    requires Distinct(keys)
    ensures multiset(Concatenation(entries, keys))[e] == if MatchKey(e) in keys then multiset(entries)[e] else 0
  {
    if |keys| > 0 {
      ConcatenationCount(entries, keys[1..], e);
      BucketCount(entries, keys[0], e);
      assert MatchKey(e) in keys <==> MatchKey(e) == keys[0] || MatchKey(e) in keys[1..];
      assert keys[0] !in keys[1..];
    }
  }

  /** Together, the buckets hold every input entry exactly once. */
  lemma BucketsPartitionEntries(entries: seq<MatchResultEntry>)
    ensures multiset(Concatenation(entries, Dedup(MatchKeys(entries)))) == multiset(entries)
  {
    var keys := Dedup(MatchKeys(entries));
    forall e ensures multiset(Concatenation(entries, keys))[e] == multiset(entries)[e] {
      ConcatenationCount(entries, keys, e);
      MatchKeysMembership(entries, MatchKey(e));
    }
  }

  // ------------------------------------------------------------ team stats

  const EmptyEntriesMessage: string := "Cannot create team stats from empty entries array"

  /** One entry as a player line; an empty ban becomes absent. */
  function PlayerStats(e: MatchResultEntry): (p: PlayerMatchStats)
    ensures p.bannedChampion.None? <==> e.banned == ""
    ensures p.bannedChampion.Some? ==> p.bannedChampion.value == e.banned
    ensures p.player == e.player && p.champion == e.champion && p.side == e.side
  {
    PlayerMatchStats(e.player, e.role, e.champion, e.kill, e.death, e.assist, e.kda, e.damage, e.gold,
      if e.banned == "" then None else Some(e.banned), e.side, e.status)
  }

  function Players(entries: seq<MatchResultEntry>): (players: seq<PlayerMatchStats>)
    ensures |players| == |entries|
    ensures forall i :: 0 <= i < |entries| ==> players[i] == PlayerStats(entries[i])
  {
    seq(|entries|, i requires 0 <= i < |entries| => PlayerStats(entries[i]))
  }

  function EntryKills(e: MatchResultEntry): int { e.kill }
  function EntryDeaths(e: MatchResultEntry): int { e.death }
  function EntryDamage(e: MatchResultEntry): int { e.damage }
  function EntryGold(e: MatchResultEntry): int { e.gold }

  function PlayerKills(p: PlayerMatchStats): int { p.kills }
  function PlayerDeaths(p: PlayerMatchStats): int { p.deaths }
  function PlayerDamage(p: PlayerMatchStats): int { p.damage }
  function PlayerGold(p: PlayerMatchStats): int { p.gold }

  /**
   * `createTeamStats`: throws on an empty list; otherwise the players in input
   * order, totals summed over every entry, and side, result and duration
   * taken from the first entry.
   */
  function CreateTeamStats(teamName: string, entries: seq<MatchResultEntry>): (r: Result<TeamMatchStats>)
    ensures r.Error? <==> |entries| == 0
    ensures r.Error? ==> r.message == EmptyEntriesMessage
    ensures r.Ok? ==> r.value.teamName == teamName && r.value.players == Players(entries)
    ensures r.Ok? ==> (r.value.side == entries[0].side && r.value.result == entries[0].result
      && r.value.matchDuration == entries[0].matchTime)
    ensures r.Ok? ==> (r.value.totalKills == SumOf(entries, EntryKills)
      && r.value.totalDeaths == SumOf(entries, EntryDeaths)
      && r.value.totalDamage == SumOf(entries, EntryDamage)
      && r.value.totalGold == SumOf(entries, EntryGold))
  {
    if |entries| == 0 then Error(EmptyEntriesMessage)
    else
      var players := Players(entries);
      SumOfPointwise(players, entries, PlayerKills, EntryKills);
      SumOfPointwise(players, entries, PlayerDeaths, EntryDeaths);
      SumOfPointwise(players, entries, PlayerDamage, EntryDamage);
      SumOfPointwise(players, entries, PlayerGold, EntryGold);
      Ok(TeamMatchStats(teamName, entries[0].side, entries[0].result,
        SumOf(players, PlayerKills), SumOf(players, PlayerDeaths),
        SumOf(players, PlayerDamage), SumOf(players, PlayerGold),
        entries[0].matchTime, players))
  }

  /** The totals do not depend on the order of the entries. */
  lemma TeamTotalsOrderFree(teamName: string, xs: seq<MatchResultEntry>, ys: seq<MatchResultEntry>)
    requires |xs| > 0 && multiset(xs) == multiset(ys)
    ensures CreateTeamStats(teamName, ys).Ok?
    ensures CreateTeamStats(teamName, xs).value.totalKills == CreateTeamStats(teamName, ys).value.totalKills
    ensures CreateTeamStats(teamName, xs).value.totalDeaths == CreateTeamStats(teamName, ys).value.totalDeaths
    ensures CreateTeamStats(teamName, xs).value.totalDamage == CreateTeamStats(teamName, ys).value.totalDamage
    ensures CreateTeamStats(teamName, xs).value.totalGold == CreateTeamStats(teamName, ys).value.totalGold
  {
    assert xs[0] in multiset(ys);
    SumOfPermutation(xs, ys, EntryKills);
    SumOfPermutation(xs, ys, EntryDeaths);
    SumOfPermutation(xs, ys, EntryDamage);
    SumOfPermutation(xs, ys, EntryGold);
  }

  /** The totals of two sides' entries together are the sums of each side's totals. */
  lemma TeamTotalsAdd(teamName: string, xs: seq<MatchResultEntry>, ys: seq<MatchResultEntry>)
    requires |xs| > 0 && |ys| > 0
    ensures CreateTeamStats(teamName, xs + ys).value.totalKills
      == CreateTeamStats(teamName, xs).value.totalKills + CreateTeamStats(teamName, ys).value.totalKills
    ensures CreateTeamStats(teamName, xs + ys).value.totalDeaths
      == CreateTeamStats(teamName, xs).value.totalDeaths + CreateTeamStats(teamName, ys).value.totalDeaths
    ensures CreateTeamStats(teamName, xs + ys).value.totalDamage
      == CreateTeamStats(teamName, xs).value.totalDamage + CreateTeamStats(teamName, ys).value.totalDamage
    ensures CreateTeamStats(teamName, xs + ys).value.totalGold
      == CreateTeamStats(teamName, xs).value.totalGold + CreateTeamStats(teamName, ys).value.totalGold
  {
    SumOfAppend(xs, ys, EntryKills);
    SumOfAppend(xs, ys, EntryDeaths);
    SumOfAppend(xs, ys, EntryDamage);
    SumOfAppend(xs, ys, EntryGold);
  }

  // ------------------------------------------------------------------- MVP

  /** `kda * (damage / 1000)`, exactly. */
  function MvpScore(e: MatchResultEntry): real
  {
    e.kda * (e.damage as real / 1000.0)
  }

  predicate IsWin(e: MatchResultEntry) { e.result == Win }

  function Winners(entries: seq<MatchResultEntry>): (ws: seq<MatchResultEntry>)
    ensures forall e :: e in ws <==> e in entries && e.result == Win
  {
    Filter(entries, IsWin)
  }

  /** Position `k` holds the earliest of the highest scores in `ws`. */
  predicate EarliestBest(ws: seq<MatchResultEntry>, k: nat)
  {
    k < |ws|
    && (forall i :: 0 <= i < |ws| ==> MvpScore(ws[i]) <= MvpScore(ws[k]))
    && (forall i :: 0 <= i < k ==> MvpScore(ws[i]) < MvpScore(ws[k]))
  }

  /** At most one position is the earliest best. */
  lemma EarliestBestUnique(ws: seq<MatchResultEntry>, a: nat, b: nat)
    requires EarliestBest(ws, a) && EarliestBest(ws, b)
    ensures a == b
  {
    assert MvpScore(ws[b]) <= MvpScore(ws[a]) && MvpScore(ws[a]) <= MvpScore(ws[b]);
  }

  /**
   * The left-to-right `reduce` that replaces the best so far only on a
   * strictly higher score: it ends on the earliest best entry.
   */
  function BestIndex(ws: seq<MatchResultEntry>): (b: nat)
    requires |ws| > 0
    ensures EarliestBest(ws, b)
  {
    if |ws| == 1 then 0
    else
      var best := BestIndex(ws[..|ws| - 1]);
      assert forall i :: 0 <= i < |ws| - 1 ==> ws[..|ws| - 1][i] == ws[i];
      if MvpScore(ws[|ws| - 1]) > MvpScore(ws[best]) then |ws| - 1 else best
  }

  /**
   * `findMVPCandidate`: no candidate without a winning entry; otherwise the
   * player of the earliest winning entry with the highest score.
   */
  function FindMVPCandidate(entries: seq<MatchResultEntry>): (r: Option<string>)
    ensures r.None? <==> forall e :: e in entries ==> e.result != Win
    ensures r.Some? ==> exists k: nat :: EarliestBest(Winners(entries), k) && Winners(entries)[k].player == r.value
  {
    if |entries| == 0 then None
    else
      var winners := Winners(entries);
      if |winners| == 0 then None
      else Some(winners[BestIndex(winners)].player)
  }

  /** Losing entries play no part in the choice. */
  lemma MvpIgnoresLosers(entries: seq<MatchResultEntry>)
    ensures FindMVPCandidate(Winners(entries)) == FindMVPCandidate(entries)
  {
    FilterAll(Winners(entries), IsWin);
  }

  /** `findMVPCandidate(...) || undefined`: an empty player name is no candidate either. */
  function MvpField(entries: seq<MatchResultEntry>): (r: Option<string>)
    ensures r.Some? ==> r.value != "" && FindMVPCandidate(entries) == r
    ensures r.None? ==> FindMVPCandidate(entries) in {None, Some("")}
  {
    match FindMVPCandidate(entries)
    case Some(player) => if player == "" then None else Some(player)
    case None => None
  }

  // ------------------------------------------------------- rebuilding games

  /**
   * `buildEnhancedMatch`: both sides' stats (the first empty side throws),
   * the winner by team1's result, the id and date derived from the key and
   * the format and duration of the bucket's first entry.
   */
  function BuildEnhancedMatch(matchKey: string, date: string, team1Name: string, team2Name: string,
    division: Option<string>, team1Entries: seq<MatchResultEntry>, team2Entries: seq<MatchResultEntry>,
    firstEntry: MatchResultEntry): (r: Result<EnhancedMatchData>)
    ensures r.Error? <==> |team1Entries| == 0 || |team2Entries| == 0
    ensures r.Error? ==> r.message == EmptyEntriesMessage
    ensures r.Ok? ==> r.value.winner == if team1Entries[0].result == Win
      then ConvertTeamName(team1Name) else ConvertTeamName(team2Name)
    ensures r.Ok? ==> (r.value.matchId == "enhanced_" + matchKey && r.value.date == ConvertDateFormat(date)
      && r.value.division == division)
    ensures r.Ok? ==> r.value.team1 == ConvertTeamName(team1Name) && r.value.team2 == ConvertTeamName(team2Name)
    ensures r.Ok? ==> r.value.matchFormat == firstEntry.matchFormat && r.value.duration == firstEntry.matchTime
    ensures r.Ok? ==> (Ok(r.value.team1Stats) == CreateTeamStats(team1Name, team1Entries)
      && Ok(r.value.team2Stats) == CreateTeamStats(team2Name, team2Entries))
    ensures r.Ok? ==> r.value.mvpCandidate == MvpField(team1Entries + team2Entries)
  {
    match CreateTeamStats(team1Name, team1Entries)
    case Error(message) => Error(message)
    case Ok(team1Stats) =>
      match CreateTeamStats(team2Name, team2Entries)
      case Error(message) => Error(message)
      case Ok(team2Stats) =>
        var winner := if team1Stats.result == Win then ConvertTeamName(team1Name) else ConvertTeamName(team2Name);
        Ok(EnhancedMatchData("enhanced_" + matchKey, ConvertDateFormat(date), division,
          ConvertTeamName(team1Name), ConvertTeamName(team2Name),
          firstEntry.matchFormat, firstEntry.matchTime, team1Stats, team2Stats, winner,
          MvpField(team1Entries + team2Entries)))
  }

  /** Piece `i` of the split key, missing (`undefined`) past its end. */
  function KeyPart(parts: seq<string>, i: nat): Option<string>
  {
    if i < |parts| then Some(parts[i]) else None
  }

  /** The entries whose `team` is `team`. */
  function SideEntries(entries: seq<MatchResultEntry>, team: Option<string>): (r: seq<MatchResultEntry>)
    ensures forall e :: e in r <==> e in entries && Some(e.team) == team
  {
    Filter(entries, (e: MatchResultEntry) => Some(e.team) == team)
  }

  /** The entries of `team2` playing against `team1`. */
  function ReplyEntries(entries: seq<MatchResultEntry>, team1: Option<string>, team2: Option<string>)
    : (r: seq<MatchResultEntry>)
    ensures forall e :: e in r <==> e in entries && Some(e.opponent) == team1 && Some(e.team) == team2
  {
    Filter(entries, (e: MatchResultEntry) => Some(e.opponent) == team1 && Some(e.team) == team2)
  }

  /** Every `team`, then every `opponent`, in entry order. */
  function TeamsThenOpponents(entries: seq<MatchResultEntry>): (names: seq<string>)
    ensures |names| == 2 * |entries|
    ensures forall i :: 0 <= i < |entries| ==> names[i] == entries[i].team && names[|entries| + i] == entries[i].opponent
  {
    seq(|entries|, i requires 0 <= i < |entries| => entries[i].team)
      + seq(|entries|, i requires 0 <= i < |entries| => entries[i].opponent)
  }

  /** `new Set([...teams, ...opponents])` in enumeration order. */
  function AllTeams(entries: seq<MatchResultEntry>): (names: seq<string>)
    ensures Distinct(names)
    ensures forall e :: e in entries ==> e.team in names && e.opponent in names
    ensures forall n :: n in names ==> exists e :: e in entries && (e.team == n || e.opponent == n)
    ensures |entries| > 0 ==> |names| > 0 && names[0] == entries[0].team
  {
    var all := TeamsThenOpponents(entries);
    forall e | e in entries ensures e.team in all && e.opponent in all {
      var i :| 0 <= i < |entries| && entries[i] == e;
      assert all[i] == e.team && all[|entries| + i] == e.opponent;
    }
    forall n | n in all ensures exists e :: e in entries && (e.team == n || e.opponent == n) {
      var i :| 0 <= i < |all| && all[i] == n;
      if i < |entries| {
        assert entries[i] in entries;
      } else {
        assert entries[i - |entries|] in entries;
      }
    }
    Dedup(all)
  }

  function Built(r: Result<EnhancedMatchData>): Result<Option<EnhancedMatchData>>
  {
    match r
    case Ok(m) => Ok(Some(m))
    case Error(message) => Error(message)
  }

  /**
   * `transformToEnhancedMatch`. It never throws: it builds only from two
   * non-empty sides. With the direct split of the key it builds exactly when
   * both the key's team's entries and the key's opponent's replies are
   * present; when both are missing it falls back to the two distinct names
   * among all teams and opponents, and builds when each has entries.
   */
  function TransformToEnhancedMatch(matchKey: string, entries: seq<MatchResultEntry>)
    : (r: Result<Option<EnhancedMatchData>>)
    ensures r.Ok?
    ensures |entries| == 0 ==> r.value.None?
    ensures var parts := Split(matchKey, '_');
      var team1 := KeyPart(parts, 1);
      var team2 := KeyPart(parts, 2);
      (|SideEntries(entries, team1)| > 0 || |ReplyEntries(entries, team1, team2)| > 0) ==>
        (r.value.Some? <==> |SideEntries(entries, team1)| > 0 && |ReplyEntries(entries, team1, team2)| > 0)
    ensures var parts := Split(matchKey, '_');
      var team1 := KeyPart(parts, 1);
      var team2 := KeyPart(parts, 2);
      var teams := AllTeams(entries);
      (|entries| > 0 && |SideEntries(entries, team1)| == 0 && |ReplyEntries(entries, team1, team2)| == 0) ==>
        (r.value.Some? <==> |teams| == 2 && |SideEntries(entries, Some(teams[1]))| > 0)
    ensures var parts := Split(matchKey, '_');
      var team1 := KeyPart(parts, 1);
      var team2 := KeyPart(parts, 2);
      (|entries| > 0 && team1.Some? && team2.Some?
        && |SideEntries(entries, team1)| > 0 && |ReplyEntries(entries, team1, team2)| > 0) ==>
        (r.value.Some? && Ok(r.value.value) == BuildEnhancedMatch(matchKey, parts[0], team1.value, team2.value,
          KeyPart(parts, 3), SideEntries(entries, team1), ReplyEntries(entries, team1, team2), entries[0]))
    ensures var parts := Split(matchKey, '_');
      var team1 := KeyPart(parts, 1);
      var team2 := KeyPart(parts, 2);
      var teams := AllTeams(entries);
      (|entries| > 0 && |SideEntries(entries, team1)| == 0 && |ReplyEntries(entries, team1, team2)| == 0
        && |teams| == 2 && |SideEntries(entries, Some(teams[1]))| > 0) ==>
        (r.value.Some? && Ok(r.value.value) == BuildEnhancedMatch(matchKey, parts[0], teams[0], teams[1],
          KeyPart(parts, 3), SideEntries(entries, Some(teams[0])), SideEntries(entries, Some(teams[1])), entries[0]))
    ensures r.value.Some? ==> (r.value.value.matchId == "enhanced_" + matchKey
      && r.value.value.date == ConvertDateFormat(Split(matchKey, '_')[0])
      && r.value.value.division == KeyPart(Split(matchKey, '_'), 3)
      && r.value.value.matchFormat == entries[0].matchFormat
      && r.value.value.duration == entries[0].matchTime)
  {
    if |entries| == 0 then Ok(None)
    else
      var firstEntry := entries[0];
      var parts := Split(matchKey, '_');
      var date := parts[0];
      var team1Name := KeyPart(parts, 1);
      var team2Name := KeyPart(parts, 2);
      var division := KeyPart(parts, 3);
      var team1Entries := SideEntries(entries, team1Name);
      var team2Entries := ReplyEntries(entries, team1Name, team2Name);
      if |team1Entries| == 0 && |team2Entries| == 0 then
        var allTeams := AllTeams(entries);
        if |allTeams| == 2 then
          var actualTeam1Entries := SideEntries(entries, Some(allTeams[0]));
          var actualTeam2Entries := SideEntries(entries, Some(allTeams[1]));
          assert firstEntry in actualTeam1Entries;
          if |actualTeam1Entries| > 0 && |actualTeam2Entries| > 0 then
            Built(BuildEnhancedMatch(matchKey, date, allTeams[0], allTeams[1], division,
              actualTeam1Entries, actualTeam2Entries, firstEntry))
          else Ok(None)
        else Ok(None)
      else if |team1Entries| == 0 || |team2Entries| == 0 then Ok(None)
      else
        assert team1Entries[0] in team1Entries && team2Entries[0] in team2Entries;
        Built(BuildEnhancedMatch(matchKey, date, team1Name.value, team2Name.value, division,
          team1Entries, team2Entries, firstEntry))
  }

  /** No date or team name contains the key separator. */
  predicate NoUnderscores(e: MatchResultEntry)
  {
    '_' !in e.date && '_' !in e.team && '_' !in e.opponent
  }

  /** A grouping key splits back into the fields it was made from. */
  lemma KeySplit(e: MatchResultEntry)
    requires NoUnderscores(e)
    ensures Split(MatchKey(e), '_') == [e.date, e.team, e.opponent, e.division.Name()]
  {
    var division := e.division.Name();
    assert '_' !in division;
    assert MatchKey(e) == e.date + ['_'] + (e.team + ['_'] + (e.opponent + ['_'] + division));
    SplitAtFirstSeparator(e.date, '_', e.team + ['_'] + (e.opponent + ['_'] + division));
    SplitAtFirstSeparator(e.team, '_', e.opponent + ['_'] + division);
    SplitAtFirstSeparator(e.opponent, '_', division);
    SplitWithoutSeparator(division, '_');
  }

  /**
   * A bucket as `groupMatchEntries` makes it, for a game between two
   * different teams, is never rebuilt: every entry's `team` is the key's
   * team, so no entry can be the opponent's reply.
   */
  lemma GroupedBucketRejected(bucket: seq<MatchResultEntry>)
    requires |bucket| > 0
    requires forall e :: e in bucket ==> NoUnderscores(e) && MatchKey(e) == MatchKey(bucket[0])
    requires bucket[0].team != bucket[0].opponent
    ensures TransformToEnhancedMatch(MatchKey(bucket[0]), bucket) == Ok(None)
  {
    var first := bucket[0];
    KeySplit(first);
    var parts := Split(MatchKey(first), '_');
    assert KeyPart(parts, 1) == Some(first.team) && KeyPart(parts, 2) == Some(first.opponent);
    forall e | e in bucket ensures e.team == first.team {
      KeySplit(e);
    }
    FilterNone(bucket, (e: MatchResultEntry) => Some(e.opponent) == Some(first.team) && Some(e.team) == Some(first.opponent));
    assert first in SideEntries(bucket, Some(first.team));
  }

  /** Hence every bucket of a grouping between different teams is rejected. */
  lemma GroupedBucketsRejected(entries: seq<MatchResultEntry>, key: string)
    requires forall e :: e in entries ==> NoUnderscores(e) && e.team != e.opponent
    requires key in MatchKeys(entries)
    ensures TransformToEnhancedMatch(key, WithKey(entries, key)) == Ok(None)
  {
    MatchKeysMembership(entries, key);
    var e :| e in entries && MatchKey(e) == key;
    var bucket := WithKey(entries, key);
    assert e in bucket;
    assert bucket[0] in bucket;
    GroupedBucketRejected(bucket);
  }

  /** An entry occurs on its own team's side as often as in the input, and on no other side. */
  lemma SideCount(entries: seq<MatchResultEntry>, team: Option<string>, e: MatchResultEntry)
    ensures multiset(SideEntries(entries, team))[e] == if Some(e.team) == team then multiset(entries)[e] else 0
  {
    FilterCount(entries, (e: MatchResultEntry) => Some(e.team) == team, e);
  }

  /**
   * On the fallback path the first side is the first entry's team, and the
   * two sides split the entries between them.
   */
  lemma FallbackSides(entries: seq<MatchResultEntry>)
    requires |entries| > 0 && |AllTeams(entries)| == 2
    ensures AllTeams(entries)[0] == entries[0].team
    ensures multiset(SideEntries(entries, Some(AllTeams(entries)[0])) + SideEntries(entries, Some(AllTeams(entries)[1])))
      == multiset(entries)
  {
    var teams := AllTeams(entries);
    assert teams == [teams[0], teams[1]];
    forall x | x in entries ensures x.team == teams[0] || x.team == teams[1] {
      assert x.team in teams;
    }
    forall e ensures multiset(SideEntries(entries, Some(teams[0])) + SideEntries(entries, Some(teams[1])))[e]
      == multiset(entries)[e]
    {
      TwoSidesCount(entries, teams[0], teams[1], e);
    }
  }

  /** When every entry plays for one of two different teams, the two sides together hold each entry once. */
  lemma TwoSidesCount(entries: seq<MatchResultEntry>, a: string, b: string, e: MatchResultEntry)
    requires a != b
    requires forall x :: x in entries ==> x.team == a || x.team == b
    ensures multiset(SideEntries(entries, Some(a)) + SideEntries(entries, Some(b)))[e] == multiset(entries)[e]
  {
    SideCount(entries, Some(a), e);
    SideCount(entries, Some(b), e);
    if e !in entries {
      assert multiset(entries)[e] == 0;
    }
  }

  /**
   * A game's two sides' lines under the key of the first side's line is
   * rebuilt: the winner is the first side when it won, and the date is the
   * sheet date in dash form.
   */
  lemma TwoSidedGameBuilt(home: MatchResultEntry, away: MatchResultEntry)
    requires NoUnderscores(home)
    requires away.team == home.opponent && away.opponent == home.team
    ensures var r := TransformToEnhancedMatch(MatchKey(home), [home, away]);
      r.value.Some?
      && r.value.value.team1 == ConvertTeamName(home.team)
      && r.value.value.team2 == ConvertTeamName(home.opponent)
      && r.value.value.date == ConvertDateFormat(home.date)
      && (home.result == Win ==> r.value.value.winner == ConvertTeamName(home.team))
  {
    KeySplit(home);
    var entries := [home, away];
    var parts := Split(MatchKey(home), '_');
    assert KeyPart(parts, 1) == Some(home.team) && KeyPart(parts, 2) == Some(home.opponent);
    assert home in SideEntries(entries, Some(home.team));
    assert away in ReplyEntries(entries, Some(home.team), Some(home.opponent));
    assert SideEntries(entries, Some(home.team))[0] == home;
  }

  /**
   * The two lines of one game under a key whose team piece names neither
   * side: the fallback rebuilds the game with the first line's team as team1,
   * and the winner is the first line's team when it won, the other otherwise.
   */
  lemma FallbackGameBuilt(matchKey: string, home: MatchResultEntry, away: MatchResultEntry)
    requires home.team != away.team
    requires home.opponent == away.team && away.opponent == home.team
    requires KeyPart(Split(matchKey, '_'), 1) != Some(home.team)
    requires KeyPart(Split(matchKey, '_'), 1) != Some(away.team)
    ensures var r := TransformToEnhancedMatch(matchKey, [home, away]);
      r.value.Some?
      && r.value.value.team1 == ConvertTeamName(home.team)
      && r.value.value.team2 == ConvertTeamName(away.team)
      && r.value.value.winner == ConvertTeamName(if home.result == Win then home.team else away.team)
  {
    var entries := [home, away];
    var parts := Split(matchKey, '_');
    var team1 := KeyPart(parts, 1);
    var team2 := KeyPart(parts, 2);
    FilterNone(entries, (e: MatchResultEntry) => Some(e.team) == team1);
    FilterNone(entries, (e: MatchResultEntry) => Some(e.opponent) == team1 && Some(e.team) == team2);
    GameTeams(home, away);
    GameSides(home, away);
    FallbackBuilt(matchKey, entries, home.team, away.team);
    assert [home][0].result == home.result;
  }

  /** The fallback path builds from the two names and their sides. */
  lemma FallbackBuilt(matchKey: string, entries: seq<MatchResultEntry>, first: string, second: string)
    requires |entries| > 0
    requires |SideEntries(entries, KeyPart(Split(matchKey, '_'), 1))| == 0
    requires |ReplyEntries(entries, KeyPart(Split(matchKey, '_'), 1), KeyPart(Split(matchKey, '_'), 2))| == 0
    requires AllTeams(entries) == [first, second]
    requires |SideEntries(entries, Some(second))| > 0
    ensures var r := TransformToEnhancedMatch(matchKey, entries);
      r.value.Some? && Ok(r.value.value) == BuildEnhancedMatch(matchKey, Split(matchKey, '_')[0], first, second,
        KeyPart(Split(matchKey, '_'), 3), SideEntries(entries, Some(first)), SideEntries(entries, Some(second)), entries[0])
  {
  }

  /** The names in the two lines of one game are the two teams, the first line's first. */
  lemma GameTeams(home: MatchResultEntry, away: MatchResultEntry)
    requires home.team != away.team
    requires home.opponent == away.team && away.opponent == home.team
    ensures AllTeams([home, away]) == [home.team, away.team]
  {
    var h, a := home.team, away.team;
    var all := TeamsThenOpponents([home, away]);
    assert all == [h, a, a, h];
    assert all[..3] == [h, a, a] && [h, a, a][..2] == [h, a] && [h, a][..1] == [h] && [h][..0] == [];
    assert Dedup([h]) == [h];
    assert Dedup([h, a]) == [h, a];
    assert Dedup([h, a, a]) == [h, a];
  }

  /** Each team's side of the two lines of one game is its own line. */
  lemma GameSides(home: MatchResultEntry, away: MatchResultEntry)
    requires home.team != away.team
    ensures SideEntries([home, away], Some(home.team)) == [home]
    ensures SideEntries([home, away], Some(away.team)) == [away]
  {
    OneLineSide([home, away], home);
    OneLineSide([home, away], away);
  }

  /** When `line` is the only line of its team, its team's side is that one line. */
  lemma OneLineSide(entries: seq<MatchResultEntry>, line: MatchResultEntry)
    requires line in entries
    requires forall e :: e in entries && e.team == line.team ==> e == line
    requires multiset(entries)[line] == 1
    ensures SideEntries(entries, Some(line.team)) == [line]
  {
    var side := SideEntries(entries, Some(line.team));
    forall e ensures multiset(side)[e] == multiset{line}[e] {
      SideCount(entries, Some(line.team), e);
      if e != line && e.team == line.team {
        assert e !in entries;
      }
    }
    assert multiset(side) == multiset{line};
    assert |side| == 1;
    assert side[0] in multiset(side);
  }

  // ----------------------------------------------------------- correlation

  /** An enhanced match belongs to a scheduled match: same day, division and unordered team pair. */
  predicate Corresponds(em: EnhancedMatchData, date: string, m: Match)
  {
    em.date == date && em.division == Some(m.division.Name())
    && ((em.team1 == m.team1 && em.team2 == m.team2) || (em.team1 == m.team2 && em.team2 == m.team1))
  }

  /** `enhancedMatches.find(...)`: the position of the first corresponding enhanced match. */
  function FirstCorresponding(ems: seq<EnhancedMatchData>, date: string, m: Match): (r: Option<nat>)
    ensures r.Some? ==> r.value < |ems| && Corresponds(ems[r.value], date, m)
    ensures r.Some? ==> forall i :: 0 <= i < r.value ==> !Corresponds(ems[i], date, m)
    ensures r.None? ==> forall i :: 0 <= i < |ems| ==> !Corresponds(ems[i], date, m)
  {
    if |ems| == 0 then None
    else if Corresponds(ems[0], date, m) then Some(0)
    else
      match FirstCorresponding(ems[1..], date, m)
      case Some(i) => Some(i + 1)
      case None => None
  }

  /** The search depends only on the division and the two teams, not on their order. */
  lemma {:induction false} FirstCorrespondingOfPair(ems: seq<EnhancedMatchData>, date: string, m: Match, n: Match)
    requires n.division == m.division
    requires (n.team1 == m.team1 && n.team2 == m.team2) || (n.team1 == m.team2 && n.team2 == m.team1)
    ensures FirstCorresponding(ems, date, n) == FirstCorresponding(ems, date, m)
  {
    if |ems| > 0 {
      FirstCorrespondingOfPair(ems[1..], date, m, n);
    }
  }

  /** The result object with the game's duration, stats and MVP candidate written over it. */
  function Enriched(result: MatchResult, em: EnhancedMatchData): MatchResult
  {
    result.(duration := Some(em.duration), team1Stats := Some(em.team1Stats),
      team2Stats := Some(em.team2Stats), mvpCandidate := em.mvpCandidate)
  }

  /**
   * One scheduled match after correlation: unchanged without a corresponding
   * game; with one, a result gains the game's duration, stats and MVP
   * candidate and keeps its winner, score, MVP and draft, while a missing or
   * null result becomes null.
   */
  function CorrelateMatch(ems: seq<EnhancedMatchData>, date: string, m: Match): (r: Match)
    ensures r == m.(result := r.result)
    ensures FirstCorresponding(ems, date, m).None? ==> r == m
    ensures FirstCorresponding(ems, date, m).Some? && !m.result.Present? ==> r.result == Null
    ensures FirstCorresponding(ems, date, m).Some? && m.result.Present? ==>
      var em := ems[FirstCorresponding(ems, date, m).value];
      r.result.Present?
      && r.result.result.winner == m.result.result.winner
      && r.result.result.score == m.result.result.score
      && r.result.result.mvp == m.result.result.mvp
      && r.result.result.draft == m.result.result.draft
      && r.result.result.duration == Some(em.duration)
      && r.result.result.team1Stats == Some(em.team1Stats)
      && r.result.result.team2Stats == Some(em.team2Stats)
      && r.result.result.mvpCandidate == em.mvpCandidate
  {
    match FirstCorresponding(ems, date, m)
    case Some(i) =>
      m.(result := if m.result.Present? then Present(Enriched(m.result.result, ems[i])) else Null)
    case None => m
  }

  /** One match day after correlation: the same day with each match correlated in place. */
  function CorrelateDay(ems: seq<EnhancedMatchData>, day: MatchDay): (r: MatchDay)
    ensures r == day.(matches := r.matches)
    ensures |r.matches| == |day.matches|
    ensures forall i :: 0 <= i < |day.matches| ==> r.matches[i] == CorrelateMatch(ems, day.date, day.matches[i])
  {
    day.(matches := seq(|day.matches|, i requires 0 <= i < |day.matches| => CorrelateMatch(ems, day.date, day.matches[i])))
  }

  /**
   * `correlateWithTournamentData`: the same days in the same order, each with
   * its matches correlated; playoffs and standings untouched.
   */
  function CorrelateWithTournamentData(ems: seq<EnhancedMatchData>, data: MatchesData): (r: MatchesData)
    ensures r.playoffs == data.playoffs && r.currentStandings == data.currentStandings
    ensures |r.schedule| == |data.schedule|
    ensures forall i :: 0 <= i < |data.schedule| ==> r.schedule[i] == CorrelateDay(ems, data.schedule[i])
  {
    data.(schedule := seq(|data.schedule|, i requires 0 <= i < |data.schedule| => CorrelateDay(ems, data.schedule[i])))
  }

  /** Without enhanced matches the data comes back as it was. */
  lemma CorrelateWithNothing(data: MatchesData)
    ensures CorrelateWithTournamentData([], data) == data
  {
    var r := CorrelateWithTournamentData([], data);
    forall i | 0 <= i < |data.schedule| ensures r.schedule[i] == data.schedule[i] {
      var day := data.schedule[i];
      assert CorrelateDay([], day).matches == day.matches;
    }
  }

  /** Correlating a match twice is correlating it once. */
  lemma CorrelateMatchIdempotent(ems: seq<EnhancedMatchData>, date: string, m: Match)
    ensures CorrelateMatch(ems, date, CorrelateMatch(ems, date, m)) == CorrelateMatch(ems, date, m)
  {
    var once := CorrelateMatch(ems, date, m);
    FirstCorrespondingOfPair(ems, date, m, once);
  }

  /** Correlating the schedule twice with the same games is correlating it once. */
  lemma CorrelateIdempotent(ems: seq<EnhancedMatchData>, data: MatchesData)
    ensures CorrelateWithTournamentData(ems, CorrelateWithTournamentData(ems, data))
      == CorrelateWithTournamentData(ems, data)
  {
    var once := CorrelateWithTournamentData(ems, data);
    var twice := CorrelateWithTournamentData(ems, once);
    forall i | 0 <= i < |data.schedule| ensures twice.schedule[i] == once.schedule[i] {
      var day := once.schedule[i];
      forall j | 0 <= j < |day.matches| ensures CorrelateDay(ems, day).matches[j] == day.matches[j] {
        CorrelateMatchIdempotent(ems, day.date, data.schedule[i].matches[j]);
      }
    }
  }

  /** Listing a scheduled match's teams the other way round correlates it with the same game. */
  lemma CorrelateSidesSwapped(ems: seq<EnhancedMatchData>, date: string, m: Match)
    ensures CorrelateMatch(ems, date, m.(team1 := m.team2, team2 := m.team1)).result == CorrelateMatch(ems, date, m).result
  {
    FirstCorrespondingOfPair(ems, date, m, m.(team1 := m.team2, team2 := m.team1));
  }

  // --------------------------------------------------------------- lineups

  /** `TEAM_DISPLAY_MAPPING[key] || key`. */
  function DisplayName(key: string): (r: string)
    ensures key in TeamDisplayMapping ==> r == TeamDisplayMapping[key]
    ensures key !in TeamDisplayMapping ==> r == key
  {
    if key in TeamDisplayMapping && TeamDisplayMapping[key] != "" then TeamDisplayMapping[key] else key
  }

  /** A line from the requested game: that date and division, the two teams facing each other either way round. */
  predicate InGame(e: MatchResultEntry, date: string, team1: string, team2: string, division: Division)
  {
    e.date == date && e.division == division
    && ((e.team == team1 && e.opponent == team2) || (e.team == team2 && e.opponent == team1))
  }

  function GameEntries(results: seq<MatchResultEntry>, date: string, team1: string, team2: string, division: Division)
    : (r: seq<MatchResultEntry>)
    ensures forall e :: e in r <==> e in results && InGame(e, date, team1, team2, division)
  {
    Filter(results, e => InGame(e, date, team1, team2, division))
  }

  function TeamLines(entries: seq<MatchResultEntry>, team: string): (r: seq<MatchResultEntry>)
    ensures forall e :: e in r <==> e in entries && e.team == team
  {
    Filter(entries, (e: MatchResultEntry) => e.team == team)
  }

  /**
   * `getMatchLineup`: the lines of the game between the two teams on that
   * date and division, split by team, or nothing unless both teams have lines.
   */
  function GetMatchLineup(results: seq<MatchResultEntry>, matchDate: string, team1Key: string, team2Key: string,
    division: Division): (r: Option<MatchLineupData>)
    ensures var date := LineupDate(matchDate);
      var team1 := DisplayName(team1Key);
      var team2 := DisplayName(team2Key);
      (r.Some? <==>
        (exists e :: e in results && InGame(e, date, team1, team2, division) && e.team == team1)
        && (exists e :: e in results && InGame(e, date, team1, team2, division) && e.team == team2))
      && (r.Some? ==> forall e :: e in r.value.team1Players <==>
        e in results && InGame(e, date, team1, team2, division) && e.team == team1)
      && (r.Some? ==> forall e :: e in r.value.team2Players <==>
        e in results && InGame(e, date, team1, team2, division) && e.team == team2)
    ensures r.Some? ==> r.value.team1Players == Filter(results, (e: MatchResultEntry) =>
      InGame(e, LineupDate(matchDate), DisplayName(team1Key), DisplayName(team2Key), division)
      && e.team == DisplayName(team1Key))
    ensures r.Some? ==> r.value.team2Players == Filter(results, (e: MatchResultEntry) =>
      InGame(e, LineupDate(matchDate), DisplayName(team1Key), DisplayName(team2Key), division)
      && e.team == DisplayName(team2Key))
  {
    var team1 := DisplayName(team1Key);
    var team2 := DisplayName(team2Key);
    var date := LineupDate(matchDate);
    var matchEntries := GameEntries(results, date, team1, team2, division);
    FilterFilter(results, e => InGame(e, date, team1, team2, division), (e: MatchResultEntry) => e.team == team1,
      (e: MatchResultEntry) => InGame(e, LineupDate(matchDate), DisplayName(team1Key), DisplayName(team2Key), division)
      && e.team == DisplayName(team1Key));
    FilterFilter(results, e => InGame(e, date, team1, team2, division), (e: MatchResultEntry) => e.team == team2,
      (e: MatchResultEntry) => InGame(e, LineupDate(matchDate), DisplayName(team1Key), DisplayName(team2Key), division)
      && e.team == DisplayName(team2Key));
    if |matchEntries| == 0 then None
    else
      var team1Players := TeamLines(matchEntries, team1);
      var team2Players := TeamLines(matchEntries, team2);
      if |team1Players| == 0 || |team2Players| == 0 then None
      else
        assert team1Players[0] in team1Players && team2Players[0] in team2Players;
        Some(MatchLineupData(team1Players, team2Players))
  }

  /** `hasMatchLineup`: the length checks add nothing to the lookup succeeding. */
  function HasMatchLineup(results: seq<MatchResultEntry>, matchDate: string, team1Key: string, team2Key: string,
    division: Division): (r: bool)
    ensures r <==> GetMatchLineup(results, matchDate, team1Key, team2Key, division).Some?
  {
    var lineup := GetMatchLineup(results, matchDate, team1Key, team2Key, division);
    lineup.Some? && |lineup.value.team1Players| > 0 && |lineup.value.team2Players| > 0
  }

  /** Asking for the game with the teams the other way round swaps the two lineups. */
  lemma LineupSwapped(results: seq<MatchResultEntry>, matchDate: string, team1Key: string, team2Key: string,
    division: Division)
    ensures var forward := GetMatchLineup(results, matchDate, team1Key, team2Key, division);
      var backward := GetMatchLineup(results, matchDate, team2Key, team1Key, division);
      (forward.Some? <==> backward.Some?)
      && (forward.Some? ==> backward.value == MatchLineupData(forward.value.team2Players, forward.value.team1Players))
  {
    var date := LineupDate(matchDate);
    var team1 := DisplayName(team1Key);
    var team2 := DisplayName(team2Key);
    FilterExt(results, e => InGame(e, date, team1, team2, division), e => InGame(e, date, team2, team1, division));
  }
}
