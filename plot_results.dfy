/** The plot script's data preparation: latencies of both experiments, votes of
    the web-form experiment only, and the thumbs-up rate per variant. */
module Plot {
  import opened Wrappers
  import opened EventLog
  import opened Rows

  /** The experiments whose rows are fetched. */
  const FetchedExperiments: set<string> := {UiExperiment, OfflineExperiment}
  const Variants: seq<string> := ["A", "B"]

  /** One entry of `votes`. */
  datatype VoteTally = VoteTally(up: nat, down: nat)

  /** The rows whose votes are counted: those of the web-form experiment. */
  function UiRows(rows: seq<Row>): seq<Row> {
    Select(rows, {UiExperiment})
  }

  /** What `votes[v]` holds once `rows` have been folded in. */
  function TallyOf(rows: seq<Row>, v: string): VoteTally
    decreases |rows|
  {
    if rows == [] then VoteTally(0, 0)
    else
      var t := TallyOf(rows[..|rows| - 1], v);
      var r := rows[|rows| - 1];
      if r.experiment == UiExperiment && r.variant == v then
        VoteTally(t.up + (if r.userVote == Some("up") then 1 else 0),
                  t.down + (if r.userVote == Some("down") then 1 else 0))
      else t
  }

  /** The tally counts exactly the up- and down-votes of the web-form rows. */
  lemma {:induction false} TallyCountsUiVotes(rows: seq<Row>, v: string)
    ensures TallyOf(rows, v) == VoteTally(VoteCount(UiRows(rows), v, "up"), VoteCount(UiRows(rows), v, "down"))
    decreases |rows|
  {
    if rows != [] {
      var init := rows[..|rows| - 1];
      var r := rows[|rows| - 1];
      TallyCountsUiVotes(init, v);
      var ui := UiRows(init);
      assert rows == init + [r];
      SelectAppend(init, r, {UiExperiment});
      if r.experiment == UiExperiment {
        VoteCountAppend(ui, r, v, "up");
        VoteCountAppend(ui, r, v, "down");
      } else {
        assert ui + [] == ui;
      }
    }
  }

  /** The `lat` dictionary once `rows` have been folded in. */
  function LatMap(rows: seq<Row>): map<string, seq<int>> {
    map["A" := Latencies(rows, "A"), "B" := Latencies(rows, "B")]
  }

  /** The `votes` dictionary once `rows` have been folded in. */
  function VoteMap(rows: seq<Row>): map<string, VoteTally> {
    map["A" := TallyOf(rows, "A"), "B" := TallyOf(rows, "B")]
  }

  /** How row `i` changes `lat`. */
  lemma LatMapStep(rows: seq<Row>, i: nat)
    requires i < |rows|
    ensures var r := rows[i];
      var before := LatMap(rows[..i]);
      LatMap(rows[..i + 1]) ==
        if r.variant in before && r.latencyMs.Some? then before[r.variant := before[r.variant] + [r.latencyMs.value]]
        else before
  {
    assert rows[..i + 1][..i] == rows[..i];
    assert Latencies(rows[..i], "A") + [] == Latencies(rows[..i], "A");
    assert Latencies(rows[..i], "B") + [] == Latencies(rows[..i], "B");
  }

  /** How row `i` changes `votes`. */
  lemma VoteMapStep(rows: seq<Row>, i: nat)
    requires i < |rows|
    ensures var r := rows[i];
      var before := VoteMap(rows[..i]);
      VoteMap(rows[..i + 1]) ==
        if r.experiment == UiExperiment && r.variant in before then
          if r.userVote == Some("up") then before[r.variant := before[r.variant].(up := before[r.variant].up + 1)]
          else if r.userVote == Some("down") then before[r.variant := before[r.variant].(down := before[r.variant].down + 1)]
          else before
        else before
  {
    assert rows[..i + 1][..i] == rows[..i];
  }

  /** The row loop of `main`: a non-NULL latency of an A or B row is collected
      whatever the experiment; an `"up"` or `"down"` vote of an A or B row is
      counted only for the web-form experiment. */
  method Tally(rows: seq<Row>) returns (lat: map<string, seq<int>>, votes: map<string, VoteTally>)
    ensures lat == map["A" := Latencies(rows, "A"), "B" := Latencies(rows, "B")]
    ensures votes == map["A" := TallyOf(rows, "A"), "B" := TallyOf(rows, "B")]
  {
    lat := map["A" := [], "B" := []];
    votes := map["A" := VoteTally(0, 0), "B" := VoteTally(0, 0)];
    for i := 0 to |rows|
      invariant lat == LatMap(rows[..i])
      invariant votes == VoteMap(rows[..i])
    {
      var row := rows[i];
      LatMapStep(rows, i);
      VoteMapStep(rows, i);
      if row.variant in lat && row.latencyMs.Some? {
        lat := lat[row.variant := lat[row.variant] + [row.latencyMs.value]];
      }
      if row.experiment == UiExperiment && row.variant in votes {
        if row.userVote == Some("up") {
          votes := votes[row.variant := votes[row.variant].(up := votes[row.variant].up + 1)];
        } else if row.userVote == Some("down") {
          votes := votes[row.variant := votes[row.variant].(down := votes[row.variant].down + 1)];
        }
      }
    }
    assert rows[..|rows|] == rows;
  }

  /** `up / total`, or `None` (the script's `nan`) when nobody voted. */
  function UpRate(t: VoteTally): (rate: Option<real>)
    ensures rate.None? <==> t.up + t.down == 0
    ensures rate.Some? ==> rate.value * (t.up + t.down) as real == t.up as real
    ensures rate.Some? ==> 0.0 <= rate.value <= 1.0
  {
    if t.up + t.down > 0 then
      var r := t.up as real / (t.up + t.down) as real;
      assert r * (t.up + t.down) as real == t.up as real;
      RateAtMostOne(r, t.up as real, (t.up + t.down) as real);
      Some(r)
    else None
  }

  lemma RateAtMostOne(r: real, up: real, total: real)
    requires 0.0 <= up <= total && total > 0.0 && r * total == up
    ensures 0.0 <= r <= 1.0
  {
    assert (1.0 - r) * total == total - up;
  }

  /** The loop after the row loop: the number of votes and the up-rate of A and B. */
  method Rates(votes: map<string, VoteTally>) returns (voteN: map<string, nat>, upRate: map<string, Option<real>>)
    requires forall v :: v in Variants ==> v in votes
    ensures voteN.Keys == upRate.Keys == {"A", "B"}
    ensures forall v :: v in voteN ==> voteN[v] == votes[v].up + votes[v].down
    ensures forall v :: v in upRate ==> upRate[v] == UpRate(votes[v])
  {
    voteN := map[];
    upRate := map[];
    for k := 0 to |Variants|
      invariant voteN.Keys == upRate.Keys == set j | 0 <= j < k :: Variants[j]
      invariant forall v :: v in voteN ==> voteN[v] == votes[v].up + votes[v].down
      invariant forall v :: v in upRate ==> upRate[v] == UpRate(votes[v])
    {
      var v := Variants[k];
      var up := votes[v].up;
      var down := votes[v].down;
      var total := up + down;
      voteN := voteN[v := total];
      upRate := upRate[v := if total > 0 then Some(up as real / total as real) else None];
    }
    assert (set j | 0 <= j < 2 :: Variants[j]) == {"A", "B"} by {
      assert Variants[0] == "A" && Variants[1] == "B";
    }
  }

  /** The data behind the two charts. */
  datatype PlotData = PlotData(lat: map<string, seq<int>>, voteN: map<string, nat>, upRate: map<string, Option<real>>)

  /** `main` up to the drawing: fetch, fold, rates. */
  method PrepareData(table: seq<Row>) returns (data: PlotData)
    ensures var rows := Select(table, FetchedExperiments);
      && data.lat == map["A" := Latencies(rows, "A"), "B" := Latencies(rows, "B")]
      && data.voteN.Keys == data.upRate.Keys == {"A", "B"}
      && forall v :: v in data.voteN ==>
           data.voteN[v] == TallyOf(rows, v).up + TallyOf(rows, v).down &&
           data.upRate[v] == UpRate(TallyOf(rows, v))
  {
    var rows := Select(table, FetchedExperiments);
    var lat, votes := Tally(rows);
    var voteN, upRate := Rates(votes);
    data := PlotData(lat, voteN, upRate);
  }

  /** Rows of the offline experiment, or of any experiment but the web form,
      never change the vote tallies. */
  lemma {:induction false} NonUiRowsCastNoVotes(rows: seq<Row>, extra: seq<Row>, v: string)
    requires forall r :: r in extra ==> r.experiment != UiExperiment
    ensures TallyOf(rows + extra, v) == TallyOf(rows, v)
    decreases |extra|
  {
    if extra == [] {
      assert rows + extra == rows;
    } else {
      var init := extra[..|extra| - 1];
      assert extra[|extra| - 1] in extra;
      assert (rows + extra)[..|rows + extra| - 1] == rows + init;
      NonUiRowsCastNoVotes(rows, init, v);
    }
  }

  /** The web-form votes the plot counts are among those the analysis counts:
      both read the same two experiments, and the plot additionally drops
      every vote outside the web-form experiment. */
  lemma PlotVotesWithinAnalysis(table: seq<Row>, v: string)
    ensures var rows := Select(table, FetchedExperiments);
      && TallyOf(rows, v).up <= VoteCount(rows, v, "up")
      && TallyOf(rows, v).down <= VoteCount(rows, v, "down")
  {
    var rows := Select(table, FetchedExperiments);
    TallyCountsUiVotes(rows, v);
    SelectedVotesAtMost(rows, {UiExperiment}, v, "up");
    SelectedVotesAtMost(rows, {UiExperiment}, v, "down");
  }
}
