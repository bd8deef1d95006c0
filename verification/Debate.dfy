/** The multi-round debate (`src/a2a/debate.rs`): consensus, recording, and the
    round loop, with the bees' answers as inputs and confidences as reals. */
module Debate {
  import opened Text

  datatype BeeResponse = BeeResponse(beeId: string, content: string, confidence: real, position: Option<string>)

  /** Positions with the number of bees that hold them. */
  datatype ConsensusAnalysis = ConsensusAnalysis(
    avgConfidence: real,
    agreement: map<string, nat>,
    contention: map<string, nat>,
    consensusReached: bool)

  datatype DebateRound = DebateRound(
    roundNumber: nat,
    prompt: string,
    responses: seq<BeeResponse>,
    consensus: ConsensusAnalysis)

  datatype DebateConfig = DebateConfig(maxRounds: nat, consensusThreshold: real)

  datatype DebateState = Pending | InRound | Analyzing | Concluded | Exhausted

  /** What a session holds. */
  datatype SessionData = SessionData(currentRound: nat, rounds: seq<DebateRound>, state: DebateState)

  // ----- consensus ---------------------------------------------------------------

  function SumConfidence(responses: seq<BeeResponse>): real {
    if responses == [] then 0.0
    else SumConfidence(responses[..|responses| - 1]) + responses[|responses| - 1].confidence
  }

  function AvgConfidence(responses: seq<BeeResponse>): real {
    if responses == [] then 0.0 else SumConfidence(responses) / |responses| as real
  }

  predicate Holds(r: BeeResponse, lower: string -> string, position: string) {
    r.position.Some? && lower(r.position.value) == position
  }

  /** How many bees hold the position, written in lower case. */
  function Count(responses: seq<BeeResponse>, lower: string -> string, position: string): (n: nat)
    ensures n <= |responses|
  {
    if responses == [] then 0
    else
      Count(responses[..|responses| - 1], lower, position)
      + (if Holds(responses[|responses| - 1], lower, position) then 1 else 0)
  }

  /** The share of the bees that hold a position, where there is a bee. */
  predicate Agrees(responses: seq<BeeResponse>, lower: string -> string, threshold: real, position: string) {
    && Count(responses, lower, position) > 0
    && Count(responses, lower, position) as real / |responses| as real >= threshold
  }

  /** What it takes: enough confidence on average, and a position that a large
      enough share of all bees holds. */
  ghost predicate Consensus(responses: seq<BeeResponse>, lower: string -> string, threshold: real) {
    && AvgConfidence(responses) >= threshold
    && exists p :: Agrees(responses, lower, threshold, p)
  }

  ghost predicate IsAnalysis(a: ConsensusAnalysis, responses: seq<BeeResponse>, lower: string -> string,
                             threshold: real)
  {
    && a.avgConfidence == AvgConfidence(responses)
    && (forall p :: p in a.agreement <==> Agrees(responses, lower, threshold, p))
    && (forall p :: p in a.contention <==>
          Count(responses, lower, p) > 0 && !Agrees(responses, lower, threshold, p))
    && (forall p :: p in a.agreement ==> a.agreement[p] == Count(responses, lower, p))
    && (forall p :: p in a.contention ==> a.contention[p] == Count(responses, lower, p))
    && (a.consensusReached <==> Consensus(responses, lower, threshold))
  }

  method AverageConfidence(responses: seq<BeeResponse>) returns (avg: real)
    ensures avg == AvgConfidence(responses)
  {
    var sum := 0.0;
    for i := 0 to |responses|
      invariant sum == SumConfidence(responses[..i])
    {
      assert responses[..i + 1][..i] == responses[..i];
      sum := sum + responses[i].confidence;
    }
    assert responses[..|responses|] == responses;
    avg := if responses == [] then 0.0 else sum / |responses| as real;
  }

  method CountPositions(responses: seq<BeeResponse>, lower: string -> string) returns (counts: map<string, nat>)
    ensures forall p :: p in counts <==> Count(responses, lower, p) > 0
    ensures forall p :: p in counts ==> counts[p] == Count(responses, lower, p)
  {
    counts := map[];
    for i := 0 to |responses|
      invariant forall p :: p in counts <==> Count(responses[..i], lower, p) > 0
      invariant forall p :: p in counts ==> counts[p] == Count(responses[..i], lower, p)
    {
      assert responses[..i + 1][..i] == responses[..i];
      var r := responses[i];
      if r.position.Some? {
        var pos := lower(r.position.value);
        counts := counts[pos := (if pos in counts then counts[pos] else 0) + 1];
      }
    }
    assert responses[..|responses|] == responses;
  }

  method AnalyzeConsensus(responses: seq<BeeResponse>, lower: string -> string, threshold: real)
    returns (a: ConsensusAnalysis)
    ensures IsAnalysis(a, responses, lower, threshold)
  {
    hide Count, AvgConfidence;
    var avg := AverageConfidence(responses);
    var counts := CountPositions(responses, lower);
    var total := |responses|;
    forall p | p in counts
      ensures total > 0 && counts[p] as real / total as real > 0.0
    {
      SharePositive(counts[p], total);
    }
    var agreement := map p | p in counts && counts[p] as real / total as real >= threshold :: counts[p];
    var contention :=
      map p | p in counts && counts[p] as real / total as real > 0.0 && counts[p] as real / total as real < threshold
        :: counts[p];
    forall p
      ensures p in agreement <==> Agrees(responses, lower, threshold, p)
    {
    }
    assert agreement != map[] <==> exists p :: p in agreement;
    a := ConsensusAnalysis(avg, agreement, contention, avg >= threshold && agreement != map[]);
  }

  lemma SharePositive(a: nat, n: nat)
    requires 0 < a <= n
    ensures a as real / n as real > 0.0
  {
  }

  lemma {:induction false} TwoPositions(responses: seq<BeeResponse>, lower: string -> string, p: string, q: string)
    requires p != q
    ensures Count(responses, lower, p) + Count(responses, lower, q) <= |responses|
  {
    if responses != [] {
      TwoPositions(responses[..|responses| - 1], lower, p, q);
    }
  }

  /** With a threshold above one half, at most one position is agreed on. */
  lemma AtMostOneAgreement(responses: seq<BeeResponse>, lower: string -> string, threshold: real, p: string, q: string)
    requires threshold > 0.5
    requires Agrees(responses, lower, threshold, p) && Agrees(responses, lower, threshold, q)
    ensures p == q
  {
    var n := |responses| as real;
    var a, b := Count(responses, lower, p) as real, Count(responses, lower, q) as real;
    assert a / n >= threshold && b / n >= threshold;
    MoreThanHalf(a, n, threshold);
    MoreThanHalf(b, n, threshold);
    if p != q {
      TwoPositions(responses, lower, p, q);
    }
  }

  lemma MoreThanHalf(a: real, n: real, threshold: real)
    requires n > 0.0 && threshold > 0.5 && a / n >= threshold
    ensures a > 0.5 * n
  {
    assert a == (a / n) * n;
    assert (a / n - 0.5) * n > 0.0;
  }

  /** Without positions there is no consensus, whatever the confidences. */
  lemma {:induction false} NoPositionsNoConsensus(responses: seq<BeeResponse>, lower: string -> string, threshold: real)
    requires forall i :: 0 <= i < |responses| ==> responses[i].position.None?
    ensures !Consensus(responses, lower, threshold)
  {
    forall p
      ensures Count(responses, lower, p) == 0
    {
      NoPositionsNoCount(responses, lower, p);
    }
  }

  lemma {:induction false} NoPositionsNoCount(responses: seq<BeeResponse>, lower: string -> string, p: string)
    requires forall i :: 0 <= i < |responses| ==> responses[i].position.None?
    ensures Count(responses, lower, p) == 0
  {
    if responses != [] {
      NoPositionsNoCount(responses[..|responses| - 1], lower, p);
    }
  }

  // ----- what the numbers are ---------------------------------------------------------

  lemma {:induction false} SumConcat(a: seq<BeeResponse>, b: seq<BeeResponse>)
    ensures SumConfidence(a + b) == SumConfidence(a) + SumConfidence(b)
    decreases |b|
  {
    if b == [] {
      assert a + b == a;
    } else {
      var front, last := b[..|b| - 1], b[|b| - 1];
      SumConcat(a, front);
      assert (a + b)[..|a + b| - 1] == a + front && (a + b)[|a + b| - 1] == last;
    }
  }

  lemma SumOfOne(r: BeeResponse)
    ensures SumConfidence([r]) == r.confidence
  {
    assert [r][..0] == [];
  }

  lemma {:induction false} SumBounds(responses: seq<BeeResponse>, low: real, high: real)
    requires forall r :: r in responses ==> low <= r.confidence <= high
    ensures low * |responses| as real <= SumConfidence(responses) <= high * |responses| as real
  {
    if responses != [] {
      var front := responses[..|responses| - 1];
      SumBounds(front, low, high);
      assert responses[|responses| - 1] in responses;
      assert |responses| as real == |front| as real + 1.0;
      assert low * |responses| as real == low * |front| as real + low;
      assert high * |responses| as real == high * |front| as real + high;
    }
  }

  /** The sum adds up over the bees. */
  lemma SumAdds(a: seq<BeeResponse>, r: BeeResponse, b: seq<BeeResponse>)
    ensures SumConfidence(a + [r] + b) == SumConfidence(a) + r.confidence + SumConfidence(b)
    ensures SumConfidence([]) == 0.0
  {
    SumConcat(a, [r]);
    SumOfOne(r);
    SumConcat(a + [r], b);
  }

  /** The average: times the number of bees it is that sum. */
  lemma AverageIs(responses: seq<BeeResponse>)
    ensures AvgConfidence(responses) * |responses| as real == SumConfidence(responses)
  {
    hide SumConfidence;
    if responses != [] {
      Divided(SumConfidence(responses), |responses| as real);
    } else {
      NoSum();
    }
  }

  lemma NoSum()
    ensures SumConfidence([]) == 0.0
  {
  }

  /** And it lies between any bounds on the confidences. */
  lemma AverageBetween(responses: seq<BeeResponse>, low: real, high: real)
    requires responses != [] && forall r :: r in responses ==> low <= r.confidence <= high
    ensures low <= AvgConfidence(responses) <= high
  {
    SumBounds(responses, low, high);
    hide SumConfidence;
    Between(SumConfidence(responses), |responses| as real, low, high);
  }

  lemma Between(s: real, n: real, low: real, high: real)
    requires n > 0.0 && low * n <= s <= high * n
    ensures low <= s / n <= high
  {
    Divided(s, n);
    Times(low, s / n, n);
    Times(s / n, high, n);
  }

  lemma Divided(s: real, n: real)
    requires n > 0.0
    ensures (s / n) * n == s
  {
  }

  lemma Times(x: real, y: real, n: real)
    requires n > 0.0
    ensures x <= y <==> x * n <= y * n
  {
    assert (y - x) * n == y * n - x * n;
    if x > y {
      assert (x - y) * n > 0.0;
    } else {
      assert (y - x) * n >= 0.0;
    }
  }

  /** The bees that hold a position. */
  ghost function Holders(responses: seq<BeeResponse>, lower: string -> string, position: string): set<nat> {
    set i: nat | i < |responses| && responses[i].position.Some? && lower(responses[i].position.value) == position
  }

  lemma {:induction false} CountIs(responses: seq<BeeResponse>, lower: string -> string, position: string)
    ensures Count(responses, lower, position) == |Holders(responses, lower, position)|
  {
    var all := Holders(responses, lower, position);
    if responses != [] {
      var front, n := responses[..|responses| - 1], |responses| - 1;
      CountIs(front, lower, position);
      var rest := Holders(front, lower, position);
      assert all == if Holds(responses[n], lower, position) then rest + {n} else rest;
    } else {
      assert all == {};
    }
  }

  /** Consensus, without divisions: the confidences and the holders of some position
      both reach the threshold for that many bees. */
  lemma ConsensusIff(responses: seq<BeeResponse>, lower: string -> string, threshold: real)
    ensures Consensus(responses, lower, threshold) <==>
            && SumConfidence(responses) >= threshold * |responses| as real
            && exists p :: Holders(responses, lower, p) != {}
                           && |Holders(responses, lower, p)| as real >= threshold * |responses| as real
  {
    hide Count, SumConfidence, Holders;
    forall p
      ensures Count(responses, lower, p) == |Holders(responses, lower, p)| <= |responses|
    {
      CountIs(responses, lower, p);
    }
    if responses != [] {
      Reaching(SumConfidence(responses), |responses| as real, threshold);
      forall p
        ensures Agrees(responses, lower, threshold, p) <==>
                && Holders(responses, lower, p) != {}
                && |Holders(responses, lower, p)| as real >= threshold * |responses| as real
      {
        Reaching(|Holders(responses, lower, p)| as real, |responses| as real, threshold);
        NonEmpty(Holders(responses, lower, p));
      }
    } else {
      forall p
        ensures Holders(responses, lower, p) == {}
      {
        NonEmpty(Holders(responses, lower, p));
      }
    }
  }

  lemma NonEmpty(s: set<nat>)
    ensures |s| > 0 <==> s != {}
  {
  }

  lemma Reaching(s: real, n: real, threshold: real)
    requires n > 0.0
    ensures s / n >= threshold <==> s >= threshold * n
  {
    Divided(s, n);
    Times(threshold, s / n, n);
  }

  // ----- a session ------------------------------------------------------------------

  /** How recording a round ends: by consensus, by the round limit, or not. */
  predicate RecordedState(state: DebateState, round: DebateRound, maxRounds: nat) {
    if round.consensus.consensusReached then state == Concluded
    else if round.roundNumber >= maxRounds then state == Exhausted
    else state == Analyzing
  }

  class DebateSession {
    const config: DebateConfig
    var currentRound: nat
    var rounds: seq<DebateRound>
    var state: DebateState

    function Data(): SessionData
      reads this
    {
      SessionData(currentRound, rounds, state)
    }

    constructor (config: DebateConfig)
      ensures this.config == config && Data() == SessionData(0, [], Pending)
    {
      this.config := config;
      currentRound, rounds, state := 0, [], Pending;
    }

    /** The round whose responses a critique shows; indexing it must not fail. */
    method CritiquedRound(roundNum: nat) returns (r: DebateRound)
      requires 2 <= roundNum < |rounds| + 2
      ensures r == rounds[roundNum - 2]
    {
      r := rounds[roundNum - 2];
    }

    method RecordRound(roundNumber: nat, prompt: string, responses: seq<BeeResponse>, lower: string -> string)
      modifies this
      ensures currentRound == roundNumber
      ensures |rounds| == |old(rounds)| + 1 && rounds[..|old(rounds)|] == old(rounds)
      ensures var r := rounds[|rounds| - 1];
              && r.roundNumber == roundNumber && r.prompt == prompt && r.responses == responses
              && IsAnalysis(r.consensus, responses, lower, config.consensusThreshold)
              && (r.consensus.consensusReached <==> Consensus(responses, lower, config.consensusThreshold))
              && RecordedState(state, r, config.maxRounds)
    {
      hide Consensus;
      var consensus := AnalyzeConsensus(responses, lower, config.consensusThreshold);
      var concluded := consensus.consensusReached || roundNumber >= config.maxRounds;
      rounds := rounds + [DebateRound(roundNumber, prompt, responses, consensus)];
      currentRound := roundNumber;
      if concluded {
        state := if rounds[|rounds| - 1].consensus.consensusReached then Concluded else Exhausted;
      } else {
        state := Analyzing;
      }
    }
  }

  // ----- a whole debate ---------------------------------------------------------------

  /** The outside of a debate: the responses that come back in each round, how
      positions are put in lower case, and the text of the prompts (a critique
      shows the round before). */
  datatype Bees = Bees(
    answers: nat -> seq<BeeResponse>,
    lower: string -> string,
    opening: string,
    critique: (DebateRound, nat) -> string)

  /** The answers to round `k` bring consensus. */
  ghost predicate Reaches(bees: Bees, threshold: real, k: nat) {
    Consensus(bees.answers(k), bees.lower, threshold)
  }

  /** The prompt of the round at index `k`: the opening one, or a critique of
      the round before. */
  function PromptFor(bees: Bees, rounds: seq<DebateRound>, k: nat): string
    requires k <= |rounds|
  {
    if k == 0 then bees.opening else bees.critique(rounds[k - 1], k + 1)
  }

  ghost predicate RecordedAt(rounds: seq<DebateRound>, k: nat, bees: Bees, threshold: real)
    requires k < |rounds|
  {
    && rounds[k].roundNumber == k + 1
    && rounds[k].prompt == PromptFor(bees, rounds, k)
    && rounds[k].responses == bees.answers(k + 1) != []
    && IsAnalysis(rounds[k].consensus, rounds[k].responses, bees.lower, threshold)
  }

  /** The rounds so far are the first ones, numbered from 1, each asked and
      analysed as it should be. */
  ghost predicate Recorded(rounds: seq<DebateRound>, bees: Bees, threshold: real) {
    forall k :: 0 <= k < |rounds| ==> RecordedAt(rounds, k, bees, threshold)
  }

  lemma RecordedNone(bees: Bees, threshold: real)
    ensures Recorded([], bees, threshold)
  {
  }

  lemma RecordedMore(rounds: seq<DebateRound>, r: DebateRound, bees: Bees, threshold: real)
    requires Recorded(rounds, bees, threshold)
    requires r.roundNumber == |rounds| + 1 && r.responses == bees.answers(r.roundNumber) != []
    requires r.prompt == PromptFor(bees, rounds, |rounds|)
    requires IsAnalysis(r.consensus, r.responses, bees.lower, threshold)
    ensures Recorded(rounds + [r], bees, threshold)
  {
    hide IsAnalysis;
    var all := rounds + [r];
    forall k | 0 <= k < |all|
      ensures RecordedAt(all, k, bees, threshold)
    {
      if k < |rounds| {
        assert all[k] == rounds[k] && RecordedAt(rounds, k, bees, threshold);
      }
    }
  }

  /** What a debate that ran its course looks like. */
  ghost predicate Finished(d: SessionData, config: DebateConfig, bees: Bees) {
    var n := |d.rounds|;
    && Recorded(d.rounds, bees, config.consensusThreshold)
    && d.currentRound == n <= config.maxRounds
    && (forall k :: 1 <= k < n ==> !Reaches(bees, config.consensusThreshold, k))
    && (d.state == Concluded <==> n > 0 && Reaches(bees, config.consensusThreshold, n))
    && (d.state == Exhausted <==> n > 0 && d.state != Concluded)
    && (d.state != Concluded ==> n == config.maxRounds)
    && (n == 0 ==> d.state == Pending)
  }

  /** Where a debate fails: nobody answered in a round that was reached. */
  ghost predicate FailsAt(config: DebateConfig, bees: Bees, k: nat) {
    && 1 <= k <= config.maxRounds && bees.answers(k) == []
    && forall j :: 1 <= j < k ==> bees.answers(j) != [] && !Reaches(bees, config.consensusThreshold, j)
  }

  /** `run_debate`. */
  method RunDebate(config: DebateConfig, bees: Bees)
    returns (session: DebateSession, ok: bool)
    ensures ok ==> Finished(session.Data(), config, bees)
    ensures !ok ==> exists k :: FailsAt(config, bees, k)
    ensures fresh(session)
  {
    hide IsAnalysis, Consensus, Recorded;
    RecordedNone(bees, config.consensusThreshold);
    session := new DebateSession(config);
    var roundNum := 1;
    while roundNum <= config.maxRounds
      invariant 1 <= roundNum <= config.maxRounds + 1
      invariant fresh(session) && session.config == config
      invariant |session.rounds| == roundNum - 1 == session.currentRound
      invariant Recorded(session.rounds, bees, config.consensusThreshold)
      invariant forall k :: 1 <= k < roundNum ==>
                  bees.answers(k) != [] && !Reaches(bees, config.consensusThreshold, k)
      invariant roundNum == 1 ==> session.state == Pending
      invariant roundNum > 1 ==> session.state == Analyzing && roundNum <= config.maxRounds
    {
      session.state := InRound;
      var prompt := bees.opening;
      if roundNum != 1 {
        var previous := session.CritiquedRound(roundNum);
        prompt := bees.critique(previous, roundNum);
      }
      var responses := bees.answers(roundNum);
      if responses == [] {
        assert FailsAt(config, bees, roundNum);
        return session, false;
      }
      ghost var before := session.rounds;
      session.RecordRound(roundNum, prompt, responses, bees.lower);
      assert session.rounds == before + [session.rounds[roundNum - 1]];
      RecordedMore(before, session.rounds[roundNum - 1], bees, config.consensusThreshold);
      if session.state == Concluded || session.state == Exhausted {
        return session, true;
      }
      roundNum := roundNum + 1;
    }
    return session, true;
  }

  lemma FinishedRounds(d: SessionData, config: DebateConfig, bees: Bees)
    requires Finished(d, config, bees)
    ensures forall k :: 1 <= k <= |d.rounds| ==> bees.answers(k) != []
    ensures |d.rounds| < config.maxRounds ==>
              |d.rounds| > 0 && Reaches(bees, config.consensusThreshold, |d.rounds|)
  {
    hide IsAnalysis, Consensus;
    forall k | 1 <= k <= |d.rounds|
      ensures bees.answers(k) != []
    {
      assert RecordedAt(d.rounds, k - 1, bees, config.consensusThreshold);
    }
  }

  /** A debate cannot both finish and fail. */
  lemma FinishOrFail(d: SessionData, config: DebateConfig, bees: Bees, k: nat)
    requires FailsAt(config, bees, k)
    ensures !Finished(d, config, bees)
  {
    if Finished(d, config, bees) {
      FinishedRounds(d, config, bees);
    }
  }

  /** The bees' answers carry no positions (the program records none), so with
      at least one round allowed a debate that finishes is exhausted after
      exactly the maximum number of rounds. */
  lemma WithoutPositionsExhausted(d: SessionData, config: DebateConfig, bees: Bees)
    requires Finished(d, config, bees) && config.maxRounds >= 1
    requires forall k, i :: 0 <= i < |bees.answers(k)| ==> bees.answers(k)[i].position.None?
    ensures d.state == Exhausted && |d.rounds| == config.maxRounds == d.currentRound
    ensures forall k :: 0 <= k < |d.rounds| ==> d.rounds[k].roundNumber == k + 1
    ensures forall k :: 0 <= k < |d.rounds| ==> !d.rounds[k].consensus.consensusReached
  {
    forall k: nat
      ensures !Consensus(bees.answers(k), bees.lower, config.consensusThreshold)
    {
      NoPositionsNoConsensus(bees.answers(k), bees.lower, config.consensusThreshold);
    }
    forall k | 0 <= k < |d.rounds|
      ensures d.rounds[k].roundNumber == k + 1 && !d.rounds[k].consensus.consensusReached
    {
      assert RecordedAt(d.rounds, k, bees, config.consensusThreshold);
    }
    assert !Reaches(bees, config.consensusThreshold, |d.rounds|);
  }

  /** A finished debate is determined by the answers. */
  lemma FinishedUnique(d: SessionData, e: SessionData, config: DebateConfig, bees: Bees)
    requires Finished(d, config, bees) && Finished(e, config, bees)
    ensures |d.rounds| == |e.rounds| && d.state == e.state
  {
    hide IsAnalysis, Consensus;
    FinishedRounds(d, config, bees);
    FinishedRounds(e, config, bees);
  }
}
