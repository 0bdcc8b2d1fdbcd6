// The records the match-data transformation reads and writes: the flat
// per-player result rows and the enriched match built from them
// (src/utils/matchDataTransform.ts), and the tournament schedule they are
// joined onto (src/types/matches.ts).
//
// JavaScript numbers that count things (kills, damage, gold, ranks) are
// integers here; the ratios (`kda`, `winRate`) are reals.

module MatchTypes {
  import opened Common

  datatype Division = Core | Next
  {
    /** The division as written in the data and in grouping keys. */
    function Name(): string
    {
      match this
      case Core => "CORE"
      case Next => "NEXT"
    }
  }

  datatype Side = Blue | Red

  datatype Outcome = Win | Loss

  datatype Role = Top | Jungle | Mid | Carry | Support

  /** A rostered player (`選手`) or a stand-in (`代打`). */
  datatype RosterStatus = Rostered | StandIn

  /** One player's line in one game, as exported from the results sheet. */
  datatype MatchResultEntry = MatchResultEntry(
    date: string,
    matchFormat: string,
    team: string,
    opponent: string,
    division: Division,
    side: Side,
    result: Outcome,
    matchTime: string,
    banned: string,
    role: Role,
    player: string,
    status: RosterStatus,
    champion: string,
    kill: int,
    death: int,
    assist: int,
    kda: real,
    damage: int,
    gold: int)

  datatype MatchLineupData = MatchLineupData(
    team1Players: seq<MatchResultEntry>,
    team2Players: seq<MatchResultEntry>)

  datatype PlayerMatchStats = PlayerMatchStats(
    player: string,
    role: Role,
    champion: string,
    kills: int,
    deaths: int,
    assists: int,
    kda: real,
    damage: int,
    gold: int,
    bannedChampion: Option<string>,
    side: Side,
    status: RosterStatus)

  datatype TeamMatchStats = TeamMatchStats(
    teamName: string,
    side: Side,
    result: Outcome,
    totalKills: int,
    totalDeaths: int,
    totalDamage: int,
    totalGold: int,
    matchDuration: string,
    players: seq<PlayerMatchStats>)

  /**
   * One game rebuilt from its player lines. The division is whatever the
   * fourth `_`-piece of the grouping key was, or missing when the key had
   * fewer pieces: the source casts it without checking.
   */
  datatype EnhancedMatchData = EnhancedMatchData(
    matchId: string,
    date: string,
    division: Option<string>,
    team1: string,
    team2: string,
    matchFormat: string,
    duration: string,
    team1Stats: TeamMatchStats,
    team2Stats: TeamMatchStats,
    winner: string,
    mvpCandidate: Option<string>)

  // ---------------------------------------------------------- the schedule

  datatype MatchStatus = Scheduled | Completed | Live | Cancelled

  datatype ChampionDraft = ChampionDraft(
    bansTeam1: seq<string>,
    bansTeam2: seq<string>,
    picksTeam1: seq<string>,
    picksTeam2: seq<string>,
    draftOrder: Option<seq<string>>)

  /**
   * A played match's result. The last three fields are the ones the
   * correlation step adds to a result object; they are missing in the
   * schedule as authored.
   */
  datatype MatchResult = MatchResult(
    winner: string,
    score: string,
    duration: Option<string>,
    mvp: Option<string>,
    draft: Option<ChampionDraft>,
    team1Stats: Option<TeamMatchStats>,
    team2Stats: Option<TeamMatchStats>,
    mvpCandidate: Option<string>)

  /** The optional, nullable `result` field: missing, `null`, or a result. */
  datatype ResultSlot = Absent | Null | Present(result: MatchResult)

  datatype Match = Match(
    id: string,
    division: Division,
    team1: string,
    team2: string,
    status: MatchStatus,
    result: ResultSlot,
    startTime: Option<string>,
    streamUrl: Option<string>)

  datatype MatchDay = MatchDay(
    date: string,
    day: string,
    time: string,
    round: int,
    description: string,
    matches: seq<Match>)

  /** `準決勝`, `3位決定戦`, `決勝`. */
  datatype PlayoffRound = SemiFinal | ThirdPlace | Final

  datatype PlayoffMatch = PlayoffMatch(
    id: string,
    round: PlayoffRound,
    team1: string,
    team2: string,
    status: MatchStatus,
    result: ResultSlot,
    startTime: Option<string>)

  datatype PlayoffDay = PlayoffDay(
    date: string,
    day: string,
    description: string,
    matches: seq<PlayoffMatch>)

  datatype Playoffs = Playoffs(format: string, location: string, schedule: seq<PlayoffDay>)

  datatype StandingsEntry = StandingsEntry(
    rank: int,
    team: string,
    wins: int,
    losses: int,
    winRate: real,
    points: int)

  datatype CurrentStandings = CurrentStandings(core: seq<StandingsEntry>, next: seq<StandingsEntry>)

  datatype MatchesData = MatchesData(
    schedule: seq<MatchDay>,
    playoffs: Playoffs,
    currentStandings: CurrentStandings)
}
