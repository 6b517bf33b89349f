/** The champion and its candidates: what any run of training cycles keeps. Rates and scores are exact reals,
    and the benchmark is a function of the model file. */
module Promotion {
  import opened Wrappers

  datatype Metrics = Metrics(successRate: real, avgTps: real, avgQuality: real, avgKeyword: real)

  type Benchmark = string -> Metrics

  /** A candidate of one cycle: the merged model and its non-empty file name. */
  datatype Candidate = Candidate(hf: string, gguf: string)

  datatype Record = Record(cycle: int, candidate: Candidate, metrics: Metrics,
                           championBefore: Candidate, championMetrics: Option<Metrics>, promoted: bool)

  const NOBODY := Candidate("", "")

  predicate ShouldPromote(candidate: Metrics, champion: Option<Metrics>) {
    match champion
    case None => true
    case Some(c) =>
      && candidate.successRate >= c.successRate
      && (c.avgTps > 0.0 ==> candidate.avgTps >= c.avgTps * 0.85)
      && candidate.avgQuality + 0.02 >= c.avgQuality
      && candidate.avgKeyword + 0.01 >= c.avgKeyword
  }

  /** The part of the state that belongs to one stage; a champion with an empty file name is none. */
  datatype Stage = Stage(champion: Candidate, history: seq<Record>)

  function MetricsOf(bench: Benchmark, c: Candidate): Option<Metrics> {
    if c.gguf == "" then None else Some(bench(c.gguf))
  }

  function RecordOf(bench: Benchmark, s: Stage, cycle: int, c: Candidate): Record {
    var before := MetricsOf(bench, s.champion);
    Record(cycle, c, bench(c.gguf), s.champion, before, ShouldPromote(bench(c.gguf), before))
  }

  function Cycle(bench: Benchmark, s: Stage, cycle: int, c: Candidate): Stage {
    var r := RecordOf(bench, s, cycle, c);
    Stage(if r.promoted then c else s.champion, s.history + [r])
  }

  class Node {
    var championHf: string
    var championGguf: string
    var history: seq<Record>

    constructor ()
      ensures Contents() == Stage(NOBODY, [])
    {
      championHf, championGguf, history := "", "", [];
    }

    ghost function Contents(): Stage
      reads this
    {
      Stage(Candidate(championHf, championGguf), history)
    }

    /** `cycle_stage` once its candidate has been trained. */
    method CycleStage(bench: Benchmark, cycle: int, candidate: Candidate)
      modifies this
      ensures Contents() == Cycle(bench, old(Contents()), cycle, candidate)
    {
      var candMetrics := bench(candidate.gguf);
      var champMetrics: Option<Metrics> := None;
      if championGguf != "" {
        champMetrics := Some(bench(championGguf));
      }
      var promote := ShouldPromote(candMetrics, champMetrics);
      history := history + [Record(cycle, candidate, candMetrics, Candidate(championHf, championGguf),
                                   champMetrics, promote)];
      if promote {
        championHf, championGguf := candidate.hf, candidate.gguf;
      }
    }
  }

  // ------------------------------------------------------------ runs

  /** Cycles numbered from `first` on. */
  function Run(bench: Benchmark, s: Stage, first: int, cs: seq<Candidate>): Stage {
    if cs == [] then s
    else Cycle(bench, Run(bench, s, first, cs[..|cs| - 1]), first + |cs| - 1, cs[|cs| - 1])
  }

  function Promotions(rs: seq<Record>): nat {
    if rs == [] then 0 else Promotions(rs[..|rs| - 1]) + if rs[|rs| - 1].promoted then 1 else 0
  }

  function LastPromoted(rs: seq<Record>, otherwise: Candidate): Candidate {
    if rs == [] then otherwise
    else if rs[|rs| - 1].promoted then rs[|rs| - 1].candidate
    else LastPromoted(rs[..|rs| - 1], otherwise)
  }

  lemma {:induction false} HistoryGrows(bench: Benchmark, s: Stage, first: int, cs: seq<Candidate>)
    ensures var h := Run(bench, s, first, cs).history;
            s.history <= h && |h| == |s.history| + |cs|
    decreases |cs|
  {
    if cs != [] { HistoryGrows(bench, s, first, cs[..|cs| - 1]); }
  }

  /** The records of a run: what it added to the history. */
  function Added(bench: Benchmark, s: Stage, first: int, cs: seq<Candidate>): (rs: seq<Record>) {
    HistoryGrows(bench, s, first, cs);
    Run(bench, s, first, cs).history[|s.history|..]
  }

  lemma AddedSnoc(bench: Benchmark, s: Stage, first: int, cs: seq<Candidate>)
    requires cs != []
    ensures var front := cs[..|cs| - 1];
            Added(bench, s, first, cs) ==
            Added(bench, s, first, front) +
            [RecordOf(bench, Run(bench, s, first, front), first + |cs| - 1, cs[|cs| - 1])]
  {
    HistoryGrows(bench, s, first, cs);
    HistoryGrows(bench, s, first, cs[..|cs| - 1]);
  }

  lemma HistorySnoc(rs: seq<Record>, r: Record, otherwise: Candidate)
    ensures Promotions(rs + [r]) == Promotions(rs) + if r.promoted then 1 else 0
    ensures LastPromoted(rs + [r], otherwise) == if r.promoted then r.candidate else LastPromoted(rs, otherwise)
  {
    assert (rs + [r])[..|rs|] == rs;
  }

  /** After any run the champion is the candidate promoted last, or the champion before the run. */
  lemma {:induction false} ChampionIsLastPromoted(bench: Benchmark, s: Stage, first: int, cs: seq<Candidate>)
    ensures Run(bench, s, first, cs).champion == LastPromoted(Added(bench, s, first, cs), s.champion)
    decreases |cs|
  {
    if cs != [] {
      var front := cs[..|cs| - 1];
      AddedSnoc(bench, s, first, cs);
      ChampionIsLastPromoted(bench, s, first, front);
      HistorySnoc(Added(bench, s, first, front),
                  RecordOf(bench, Run(bench, s, first, front), first + |cs| - 1, cs[|cs| - 1]), s.champion);
    }
  }

  function Power(n: nat): (p: real)
    ensures p >= 0.0
  {
    if n == 0 then 1.0 else 0.85 * Power(n - 1)
  }

  /** Each promotion may lower the quality by 0.02, the keyword score by 0.01 and the speed to 85 %, and
      never lowers the success rate. */
  ghost predicate NoWorse(now: Metrics, before: Metrics, promotions: nat) {
    && now.successRate >= before.successRate
    && now.avgQuality >= before.avgQuality - 0.02 * promotions as real
    && now.avgKeyword >= before.avgKeyword - 0.01 * promotions as real
    && now.avgTps >= Power(promotions) * before.avgTps
  }

  lemma PromotionStep(candidate: Metrics, champion: Metrics, first: Metrics, n: nat)
    requires champion.avgTps >= 0.0 && candidate.avgTps >= 0.0 && NoWorse(champion, first, n)
    requires ShouldPromote(candidate, Some(champion))
    ensures NoWorse(candidate, first, n + 1)
  {
    assert candidate.avgTps >= champion.avgTps * 0.85;
    assert champion.avgTps * 0.85 >= Power(n) * first.avgTps * 0.85;
    assert Power(n) * first.avgTps * 0.85 == Power(n + 1) * first.avgTps;
  }

  /** From a champion on, however many cycles run, the champion stays within these bounds. */
  lemma {:induction false} ChampionBounded(bench: Benchmark, s: Stage, first: int, cs: seq<Candidate>)
    requires s.champion.gguf != "" && forall i | 0 <= i < |cs| :: cs[i].gguf != ""
    requires forall file: string :: bench(file).avgTps >= 0.0
    ensures var r := Run(bench, s, first, cs);
            && r.champion.gguf != ""
            && NoWorse(bench(r.champion.gguf), bench(s.champion.gguf), Promotions(Added(bench, s, first, cs)))
    decreases |cs|
  {
    if cs != [] {
      var front := cs[..|cs| - 1];
      ChampionBounded(bench, s, first, front);
      AddedSnoc(bench, s, first, cs);
      HistorySnoc(Added(bench, s, first, front),
                  RecordOf(bench, Run(bench, s, first, front), first + |cs| - 1, cs[|cs| - 1]), s.champion);
      var before := Run(bench, s, first, front).champion;
      if ShouldPromote(bench(cs[|cs| - 1].gguf), Some(bench(before.gguf))) {
        PromotionStep(bench(cs[|cs| - 1].gguf), bench(before.gguf), bench(s.champion.gguf),
                      Promotions(Added(bench, s, first, front)));
      }
    } else {
      HistoryGrows(bench, s, first, cs);
      assert Added(bench, s, first, cs) == [];
    }
  }

  // ------------------------------------------------------------ who is promoted

  lemma {:induction false} RecordIs(bench: Benchmark, s: Stage, first: int, cs: seq<Candidate>, k: nat)
    requires k < |cs|
    ensures |Added(bench, s, first, cs)| == |cs| && Added(bench, s, first, cs)[..k] == Added(bench, s, first, cs[..k])
    ensures Added(bench, s, first, cs)[k] == RecordOf(bench, Run(bench, s, first, cs[..k]), first + k, cs[k])
    decreases |cs|
  {
    hide RecordOf; hide Added; hide Run;
    var front := cs[..|cs| - 1];
    AddedSnoc(bench, s, first, cs);
    AddedLength(bench, s, first, cs);
    AddedLength(bench, s, first, front);
    AddedLength(bench, s, first, cs[..k]);
    if k < |cs| - 1 {
      RecordIs(bench, s, first, front, k);
      assert front[..k] == cs[..k];
    }
  }

  lemma AddedLength(bench: Benchmark, s: Stage, first: int, cs: seq<Candidate>)
    ensures |Added(bench, s, first, cs)| == |cs|
  {
    HistoryGrows(bench, s, first, cs);
  }

  /** In any run, the record of cycle `k` names its candidate and its champion, the one promoted last before; the
      candidate is promoted exactly if there was no champion or it succeeds at least as often, keeps at least 85 % of
      a measured speed, and loses at most 0.02 of quality and 0.01 of keyword score. */
  lemma PromotedExactly(bench: Benchmark, s: Stage, first: int, cs: seq<Candidate>, k: nat)
    requires k < |cs|
    ensures |Added(bench, s, first, cs)| == |cs|
    ensures var r := Added(bench, s, first, cs)[k];
            var before := LastPromoted(Added(bench, s, first, cs)[..k], s.champion);
            && r.cycle == first + k && r.candidate == cs[k] && r.metrics == bench(cs[k].gguf)
            && r.championBefore == before
            && r.championMetrics == (if before.gguf == "" then None else Some(bench(before.gguf)))
            && (r.promoted <==>
                  before.gguf == "" ||
                  var (now, then_) := (bench(cs[k].gguf), bench(before.gguf));
                  && then_.successRate - now.successRate <= 0.0
                  && (then_.avgTps <= 0.0 || then_.avgTps * 85.0 <= now.avgTps * 100.0)
                  && then_.avgQuality - now.avgQuality <= 0.02
                  && then_.avgKeyword - now.avgKeyword <= 0.01)
  {
    RecordIs(bench, s, first, cs, k);
    ChampionIsLastPromoted(bench, s, first, cs[..k]);
    hide Added; hide Run; hide LastPromoted;
  }
}
