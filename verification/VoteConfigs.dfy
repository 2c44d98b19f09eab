/** The stored rules of votes, elections and polls, and their projection on the rules of a motion. */
module VoteConfigs {
  import opened Wrappers

  datatype MajorityRule = Simple | Absolute | TwoThirds
  datatype TieBreak = Passed | Rejected | Tie

  datatype VoteConfig = VoteConfig(
    options: seq<string>,
    majorityRule: MajorityRule,
    hasQuorum: bool,
    abstainCountsQuorum: bool,
    secret: bool,
    tieBreak: TieBreak,
    guestsVote: bool)

  datatype Candidate = Candidate(id: string, principal: Option<string>)

  datatype ElectionConfig = ElectionConfig(
    seats: int,
    candidates: seq<Candidate>,
    secret: bool,
    hasQuorum: bool,
    abstainCountsQuorum: bool,
    guestsVote: bool)

  datatype PollMode = Single | Multi | Date

  datatype PollOption = PollOption(id: string, hasLabel: bool, hasStart: bool)

  datatype PollConfig = PollConfig(
    mode: PollMode, options: seq<PollOption>, maxChoices: Option<int>, secret: bool, guestsVote: bool)

  const RESERVED_IDS: set<string> := {"yes", "no", "abstain"}
  const MAX_CANDIDATES := 50
  const MIN_POLL_OPTIONS := 2
  const MAX_POLL_OPTIONS := 20

  ghost predicate Distinct(s: seq<string>) {
    forall i, j :: 0 <= i < j < |s| ==> s[i] != s[j]
  }

  ghost predicate ValidVote(c: VoteConfig) {
    |c.options| >= 2 && Distinct(c.options) && !(c.guestsVote && c.hasQuorum)
  }

  function CandidateIds(c: ElectionConfig): seq<string> {
    seq(|c.candidates|, i requires 0 <= i < |c.candidates| => c.candidates[i].id)
  }

  ghost predicate ValidElection(c: ElectionConfig) {
    && 1 <= c.seats <= MAX_CANDIDATES && 1 <= |c.candidates| <= MAX_CANDIDATES
    && Distinct(CandidateIds(c))
    && (forall i :: 0 <= i < |c.candidates| ==> c.candidates[i].id !in RESERVED_IDS)
    && (forall i, j :: 0 <= i < j < |c.candidates| && c.candidates[i].principal.Some? ==>
          c.candidates[i].principal != c.candidates[j].principal)
    && |c.candidates| >= c.seats
    && !(c.guestsVote && c.hasQuorum)
  }

  function OptionIds(c: PollConfig): seq<string> {
    seq(|c.options|, i requires 0 <= i < |c.options| => c.options[i].id)
  }

  /** The id is an "o" with at least one digit behind it. */
  predicate IsOptionId(id: string) {
    2 <= |id| <= 16 && id[0] == 'o' && forall i :: 1 <= i < |id| ==> '0' <= id[i] <= '9'
  }

  ghost predicate ValidPoll(c: PollConfig) {
    && MIN_POLL_OPTIONS <= |c.options| <= MAX_POLL_OPTIONS
    && Distinct(OptionIds(c))
    && (forall i :: 0 <= i < |c.options| ==>
          && IsOptionId(c.options[i].id)
          && if c.mode.Date? then c.options[i].hasStart && !c.options[i].hasLabel
             else c.options[i].hasLabel && !c.options[i].hasStart)
    && (c.maxChoices.Some? ==> c.mode.Multi? && 1 <= c.maxChoices.value <= |c.options|)
  }

  function ElectionAsVote(c: ElectionConfig): VoteConfig {
    VoteConfig(if |c.candidates| == 1 then ["yes", "no", "abstain"] else CandidateIds(c) + ["abstain"],
               Simple, c.hasQuorum, c.abstainCountsQuorum, c.secret, Tie, c.guestsVote)
  }

  function PollAsVote(c: PollConfig): VoteConfig {
    VoteConfig(if c.mode.Date? then OptionIds(c) else OptionIds(c) + ["abstain"],
               Simple, false, true, c.secret, Tie, c.guestsVote)
  }

  /** The projection of a valid election is a valid vote; its candidates and "abstain" are its options. */
  lemma ElectionProjectsToVote(c: ElectionConfig)
    requires ValidElection(c)
    ensures ValidVote(ElectionAsVote(c))
    ensures "abstain" in ElectionAsVote(c).options
    ensures |c.candidates| > 1 ==> forall i :: 0 <= i < |c.candidates| ==> ElectionAsVote(c).options[i] == c.candidates[i].id
    ensures |c.candidates| > 1 ==> |ElectionAsVote(c).options| == |c.candidates| + 1
    ensures |c.candidates| == 1 ==> ElectionAsVote(c).options == ["yes", "no", "abstain"]
    ensures var v := ElectionAsVote(c);
            && v.secret == c.secret && v.guestsVote == c.guestsVote
            && v.hasQuorum == c.hasQuorum && v.abstainCountsQuorum == c.abstainCountsQuorum
            && v.majorityRule == Simple && v.tieBreak == Tie
  {
    var ids := CandidateIds(c);
    assert "abstain" in RESERVED_IDS;
    assert forall i :: 0 <= i < |ids| ==> ids[i] == c.candidates[i].id;
    assert (ids + ["abstain"])[|ids|] == "abstain" && ["yes", "no", "abstain"][2] == "abstain";
  }

  /** The projection of a valid poll is a valid vote; only a date poll has no abstention. */
  lemma PollProjectsToVote(c: PollConfig)
    requires ValidPoll(c)
    ensures ValidVote(PollAsVote(c))
    ensures "abstain" in PollAsVote(c).options <==> !c.mode.Date?
    ensures forall i :: 0 <= i < |c.options| ==> PollAsVote(c).options[i] == c.options[i].id
    ensures |PollAsVote(c).options| == |c.options| + if c.mode.Date? then 0 else 1
    ensures var v := PollAsVote(c);
            && v.secret == c.secret && v.guestsVote == c.guestsVote && !v.hasQuorum
            && v.majorityRule == Simple && v.tieBreak == Tie
  {
    var ids := OptionIds(c);
    forall i | 0 <= i < |ids| ensures ids[i] != "abstain" {
      assert IsOptionId(c.options[i].id);
    }
    assert (ids + ["abstain"])[|ids|] == "abstain";
  }
}
