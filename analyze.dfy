/** The analysis script: per-variant latency lists and vote counters folded
    from the logged rows, then a latency summary and a vote summary per variant. */
module Analyze {
  import opened Wrappers
  import opened EventLog
  import opened Rows
  import opened Runner

  /** The experiments whose rows are analysed. */
  const AnalysedExperiments: set<string> := {UiExperiment, OfflineExperiment}
  const Variants: seq<string> := ["A", "B"]

  /** One entry of `by_variant`. */
  datatype VariantStats = VariantStats(lat: seq<int>, voteUp: nat, voteDown: nat, voteTotal: nat)

  const NoStats := VariantStats([], 0, 0, 0)

  /** What `by_variant[v]` holds once `rows` have been folded in. */
  function StatsOf(rows: seq<Row>, v: string): VariantStats {
    VariantStats(Latencies(rows, v), VoteCount(rows, v, "up"), VoteCount(rows, v, "down"), Voted(rows, v))
  }

  /** The per-variant fold over the selected rows: rows of variants other than
      A and B are skipped; a non-NULL latency is appended; an `"up"` or `"down"`
      vote bumps the total and its own counter. */
  method AggregateByVariant(rows: seq<Row>) returns (byVariant: map<string, VariantStats>)
    ensures byVariant == map["A" := StatsOf(rows, "A"), "B" := StatsOf(rows, "B")]
    ensures forall v :: v in byVariant ==> byVariant[v].voteTotal == byVariant[v].voteUp + byVariant[v].voteDown
  {
    byVariant := map["A" := NoStats, "B" := NoStats];
    for i := 0 to |rows|
      invariant byVariant == map["A" := StatsOf(rows[..i], "A"), "B" := StatsOf(rows[..i], "B")]
    {
      var row := rows[i];
      StatsStep(rows, i, "A");
      StatsStep(rows, i, "B");
      if row.variant !in byVariant {
        continue;
      }
      assert row.variant == "A" || row.variant == "B";
      var stats := byVariant[row.variant];
      if row.latencyMs.Some? {
        stats := stats.(lat := stats.lat + [row.latencyMs.value]);
      }
      if row.userVote == Some("up") || row.userVote == Some("down") {
        stats := stats.(voteTotal := stats.voteTotal + 1);
        if row.userVote == Some("up") {
          stats := stats.(voteUp := stats.voteUp + 1);
        } else {
          stats := stats.(voteDown := stats.voteDown + 1);
        }
      }
      assert stats == StatsOf(rows[..i + 1], row.variant);
      byVariant := byVariant[row.variant := stats];
    }
    assert rows[..|rows|] == rows;
    VotedIsUpPlusDown(rows, "A");
    VotedIsUpPlusDown(rows, "B");
  }

  /** How one more row changes what variant `v` holds. */
  lemma StatsStep(rows: seq<Row>, i: nat, v: string)
    requires i < |rows|
    ensures var r := rows[i];
      var s := StatsOf(rows[..i], v);
      StatsOf(rows[..i + 1], v) ==
        if r.variant != v then s
        else VariantStats(s.lat + (if r.latencyMs.Some? then [r.latencyMs.value] else []),
                          s.voteUp + (if r.userVote == Some("up") then 1 else 0),
                          s.voteDown + (if r.userVote == Some("down") then 1 else 0),
                          s.voteTotal + (if IsVote(r.userVote) then 1 else 0))
  {
    assert rows[..i + 1][..i] == rows[..i];
  }

  /** `summarize_lat` before rounding: the count and the exact mean. */
  datatype LatSummary = LatSummary(n: nat, meanMs: real)

  function Sum(xs: seq<int>): int
    decreases |xs|
  {
    if xs == [] then 0 else Sum(xs[..|xs| - 1]) + xs[|xs| - 1]
  }

  /** No summary for an empty list; otherwise the count and the mean. */
  function SummarizeLat(xs: seq<int>): (s: Option<LatSummary>)
    ensures s.None? <==> xs == []
    ensures s.Some? ==> s.value.n == |xs| && s.value.meanMs * |xs| as real == Sum(xs) as real
  {
    if xs == [] then None else Some(LatSummary(|xs|, Sum(xs) as real / |xs| as real))
  }

  lemma {:induction false} SumBounds(xs: seq<int>, lo: int, hi: int)
    requires forall i :: 0 <= i < |xs| ==> lo <= xs[i] <= hi
    ensures lo * |xs| <= Sum(xs) <= hi * |xs|
    decreases |xs|
  {
    if xs != [] {
      var n := |xs|;
      SumBounds(xs[..n - 1], lo, hi);
      assert lo * n == lo * (n - 1) + lo;
      assert hi * n == hi * (n - 1) + hi;
    }
  }

  /** The mean lies between the smallest and the largest latency. */
  lemma MeanWithinBounds(xs: seq<int>, lo: int, hi: int)
    requires xs != []
    requires forall i :: 0 <= i < |xs| ==> lo <= xs[i] <= hi
    ensures lo as real <= SummarizeLat(xs).value.meanMs <= hi as real
  {
    SumBounds(xs, lo, hi);
    var n := |xs| as real;
    var m := SummarizeLat(xs).value.meanMs;
    assert m * n == Sum(xs) as real;
    CancelPositive(lo as real, m, n);
    CancelPositive(m, hi as real, n);
  }

  lemma CancelPositive(a: real, b: real, n: real)
    requires n > 0.0 && a * n <= b * n
    ensures a <= b
  {
    assert (b - a) * n >= 0.0;
  }

  /** The vote part of the report: only the vote count when nobody voted,
      otherwise the counters and the up-rate in percent before rounding. */
  datatype VoteSummary = NoVotes | Votes(votes: nat, up: nat, down: nat, upRatePercent: real)

  function SummarizeVotes(s: VariantStats): (r: VoteSummary)
    ensures r.NoVotes? <==> s.voteTotal == 0
    ensures r.Votes? ==> r.votes == s.voteTotal && r.up == s.voteUp && r.down == s.voteDown
    ensures r.Votes? ==> r.upRatePercent * s.voteTotal as real == s.voteUp as real * 100.0
  {
    if s.voteTotal == 0 then NoVotes
    else Votes(s.voteTotal, s.voteUp, s.voteDown, s.voteUp as real / s.voteTotal as real * 100.0)
  }

  /** With counters kept consistent, the up-rate is a percentage. */
  lemma UpRateIsPercentage(s: VariantStats)
    requires s.voteTotal == s.voteUp + s.voteDown
    ensures SummarizeVotes(s).Votes? ==> 0.0 <= SummarizeVotes(s).upRatePercent <= 100.0
  {
    if s.voteTotal > 0 {
      var r := SummarizeVotes(s).upRatePercent;
      var t := s.voteTotal as real;
      assert r * t == s.voteUp as real * 100.0;
      assert s.voteUp as real * 100.0 <= 100.0 * t;
    }
  }

  /** Three up-votes and one down-vote give a rate of 75 percent. */
  lemma ThreeUpOneDown()
    ensures SummarizeVotes(StatsOf([Row(UiExperiment, "A", Some(900), Some("up")),
                                    Row(UiExperiment, "A", Some(800), Some("up")),
                                    Row(UiExperiment, "A", None, Some("down")),
                                    Row(UiExperiment, "A", Some(700), Some("up"))], "A"))
            == Votes(4, 3, 1, 75.0)
  {
    var rows := [Row(UiExperiment, "A", Some(900), Some("up")),
                 Row(UiExperiment, "A", Some(800), Some("up")),
                 Row(UiExperiment, "A", None, Some("down")),
                 Row(UiExperiment, "A", Some(700), Some("up"))];
    assert rows[..1][..0] == [];
    assert rows[..2][..1] == rows[..1];
    assert rows[..3][..2] == rows[..2];
    assert rows[..3] == rows[..|rows| - 1];
    assert VoteCount(rows[..1], "A", "up") == 1 && VoteCount(rows[..1], "A", "down") == 0;
    assert VoteCount(rows[..2], "A", "up") == 2 && VoteCount(rows[..2], "A", "down") == 0;
    assert VoteCount(rows[..3], "A", "up") == 2 && VoteCount(rows[..3], "A", "down") == 1;
    assert Voted(rows[..1], "A") == 1;
    assert Voted(rows[..2], "A") == 2;
    assert Voted(rows[..3], "A") == 3;
  }

  /** What the script reports for one variant. */
  datatype VariantReport = VariantReport(variant: string, latency: Option<LatSummary>, votes: VoteSummary)

  /** `main` after the query: selects the analysed experiments, folds the rows,
      then reports A and B in that order. */
  method Analyse(table: seq<Row>) returns (report: seq<VariantReport>)
    ensures |report| == |Variants|
    ensures forall k :: 0 <= k < |report| ==>
      var rows := Select(table, AnalysedExperiments);
      report[k] == VariantReport(Variants[k], SummarizeLat(Latencies(rows, Variants[k])),
                                 SummarizeVotes(StatsOf(rows, Variants[k])))
  {
    var rows := Select(table, AnalysedExperiments);
    var byVariant := AggregateByVariant(rows);
    report := [];
    for k := 0 to |Variants|
      invariant |report| == k
      invariant forall j :: 0 <= j < k ==>
        report[j] == VariantReport(Variants[j], SummarizeLat(Latencies(rows, Variants[j])),
                                   SummarizeVotes(StatsOf(rows, Variants[j])))
    {
      var v := Variants[k];
      var stats := byVariant[v];
      report := report + [VariantReport(v, SummarizeLat(stats.lat), SummarizeVotes(stats))];
    }
  }

  /** What the report is built from: only rows of the analysed experiments and
      of variants A and B, and every vote rate is a percentage. */
  lemma ReportMeaning(table: seq<Row>, v: string)
    requires v in Variants
    ensures var rows := Select(table, AnalysedExperiments);
      && (forall r :: r in rows <==> r in table && r.experiment in AnalysedExperiments)
      && StatsOf(rows, v).voteTotal == StatsOf(rows, v).voteUp + StatsOf(rows, v).voteDown
      && (SummarizeVotes(StatsOf(rows, v)).Votes? ==> 0.0 <= SummarizeVotes(StatsOf(rows, v)).upRatePercent <= 100.0)
  {
    var rows := Select(table, AnalysedExperiments);
    SelectMeaning(table, AnalysedExperiments);
    VotedIsUpPlusDown(rows, v);
    UpRateIsPercentage(StatsOf(rows, v));
  }

  /** An offline run logs latencies but never a vote: its rows leave every
      vote counter of the analysis at zero. */
  lemma OfflineRunCastsNoVotes(sessionId: string, questions: seq<string>, limit: int, pipeline: Pipeline, v: string)
    ensures var rows := RowsOf(OfflineRun(sessionId, Calls(ApplyLimit(questions, limit)), pipeline).events);
      StatsOf(rows, v).voteTotal == 0 && StatsOf(rows, v).voteUp == 0 && StatsOf(rows, v).voteDown == 0
  {
    OfflineEvents(sessionId, questions, limit, pipeline);
    UnvotedEventsCountNoVotes(OfflineRun(sessionId, Calls(ApplyLimit(questions, limit)), pipeline).events, v);
  }
}
