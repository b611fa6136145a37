/** Rows read back from the `events` table, and the per-variant quantities the
    analysis and plot scripts derive from them. */
module Rows {
  import opened Wrappers
  import opened EventLog

  /** The columns the scripts select; `None` is SQL NULL. */
  datatype Row = Row(experiment: string, variant: string, latencyMs: Option<int>, userVote: Option<string>)

  /** The row an event becomes once stored. */
  function RowOf(e: Event): Row {
    Row(e.experiment, e.variant, Some(e.latencyMs), e.userVote)
  }

  function RowsOf(events: seq<Event>): (rows: seq<Row>)
    ensures |rows| == |events|
    ensures forall i :: 0 <= i < |events| ==> rows[i] == RowOf(events[i])
  {
    seq(|events|, i requires 0 <= i < |events| => RowOf(events[i]))
  }

  /** `WHERE experiment IN (...)`: the rows of `table` whose experiment is one of `names`. */
  function Select(table: seq<Row>, names: set<string>): seq<Row>
    decreases |table|
  {
    if table == [] then []
    else
      var r := table[|table| - 1];
      Select(table[..|table| - 1], names) + (if r.experiment in names then [r] else [])
  }

  /** A row is selected exactly when it is in the table under one of the names. */
  lemma {:induction false} SelectMeaning(table: seq<Row>, names: set<string>)
    ensures |Select(table, names)| <= |table|
    ensures forall r :: r in Select(table, names) <==> r in table && r.experiment in names
    decreases |table|
  {
    if table != [] {
      var init := table[..|table| - 1];
      SelectMeaning(init, names);
      assert table == init + [table[|table| - 1]];
    }
  }

  lemma SelectAppend(table: seq<Row>, r: Row, names: set<string>)
    ensures Select(table + [r], names) == Select(table, names) + (if r.experiment in names then [r] else [])
  {
    assert (table + [r])[..|table|] == table;
  }

  /** The non-NULL latencies of variant `v`'s rows, in row order. */
  function Latencies(rows: seq<Row>, v: string): seq<int>
    decreases |rows|
  {
    if rows == [] then []
    else
      var r := rows[|rows| - 1];
      Latencies(rows[..|rows| - 1], v) + (if r.variant == v && r.latencyMs.Some? then [r.latencyMs.value] else [])
  }

  /** A latency is listed for `v` exactly when some row of `v` carries it. */
  lemma {:induction false} LatenciesMeaning(rows: seq<Row>, v: string)
    ensures forall x :: x in Latencies(rows, v) <==> exists r :: r in rows && r.variant == v && r.latencyMs == Some(x)
    decreases |rows|
  {
    if rows != [] {
      var init := rows[..|rows| - 1];
      var last := rows[|rows| - 1];
      LatenciesMeaning(init, v);
      assert rows == init + [last];
      forall x | exists r :: r in rows && r.variant == v && r.latencyMs == Some(x)
        ensures x in Latencies(rows, v)
      {
        var r :| r in rows && r.variant == v && r.latencyMs == Some(x);
        if r != last {
          assert r in init;
        }
      }
    }
  }

  /** The number of variant `v`'s rows whose vote is exactly `vote`. */
  function VoteCount(rows: seq<Row>, v: string, vote: string): nat
    decreases |rows|
  {
    if rows == [] then 0
    else
      var r := rows[|rows| - 1];
      VoteCount(rows[..|rows| - 1], v, vote) + (if r.variant == v && r.userVote == Some(vote) then 1 else 0)
  }

  lemma VoteCountAppend(rows: seq<Row>, r: Row, v: string, vote: string)
    ensures VoteCount(rows + [r], v, vote) == VoteCount(rows, v, vote) + (if r.variant == v && r.userVote == Some(vote) then 1 else 0)
  {
    assert (rows + [r])[..|rows|] == rows;
  }

  /** A vote that counts: `"up"` or `"down"`, nothing else. */
  predicate IsVote(vote: Option<string>) {
    vote == Some("up") || vote == Some("down")
  }

  /** The number of variant `v`'s rows that carry a vote that counts. */
  function Voted(rows: seq<Row>, v: string): nat
    decreases |rows|
  {
    if rows == [] then 0
    else
      var r := rows[|rows| - 1];
      Voted(rows[..|rows| - 1], v) + (if r.variant == v && IsVote(r.userVote) then 1 else 0)
  }

  /** Every counted vote is an up-vote or a down-vote, never both. */
  lemma {:induction false} VotedIsUpPlusDown(rows: seq<Row>, v: string)
    ensures Voted(rows, v) == VoteCount(rows, v, "up") + VoteCount(rows, v, "down")
    decreases |rows|
  {
    if rows != [] {
      VotedIsUpPlusDown(rows[..|rows| - 1], v);
    }
  }

  /** Appending rows whose vote does not count leaves every vote counter as it was. */
  lemma {:induction false} NonVotesIgnored(rows: seq<Row>, extra: seq<Row>, v: string)
    requires forall r :: r in extra ==> !IsVote(r.userVote)
    ensures Voted(rows + extra, v) == Voted(rows, v)
    ensures VoteCount(rows + extra, v, "up") == VoteCount(rows, v, "up")
    ensures VoteCount(rows + extra, v, "down") == VoteCount(rows, v, "down")
    decreases |extra|
  {
    if extra == [] {
      assert rows + extra == rows;
    } else {
      var init := extra[..|extra| - 1];
      assert (rows + extra)[..|rows + extra| - 1] == rows + init;
      assert extra[|extra| - 1] in extra;
      NonVotesIgnored(rows, init, v);
    }
  }

  /** Rows of other variants change nothing a variant `v` reports. */
  lemma {:induction false} OtherVariantsIgnored(rows: seq<Row>, extra: seq<Row>, v: string)
    requires forall r :: r in extra ==> r.variant != v
    ensures Latencies(rows + extra, v) == Latencies(rows, v)
    ensures Voted(rows + extra, v) == Voted(rows, v)
    ensures VoteCount(rows + extra, v, "up") == VoteCount(rows, v, "up")
    ensures VoteCount(rows + extra, v, "down") == VoteCount(rows, v, "down")
    decreases |extra|
  {
    if extra == [] {
      assert rows + extra == rows;
    } else {
      var init := extra[..|extra| - 1];
      assert (rows + extra)[..|rows + extra| - 1] == rows + init;
      assert extra[|extra| - 1] in extra;
      OtherVariantsIgnored(rows, init, v);
    }
  }

  /** A vote count over selected rows never exceeds the count over the whole table. */
  lemma {:induction false} SelectedVotesAtMost(table: seq<Row>, names: set<string>, v: string, vote: string)
    ensures VoteCount(Select(table, names), v, vote) <= VoteCount(table, v, vote)
    decreases |table|
  {
    if table != [] {
      var init := table[..|table| - 1];
      var r := table[|table| - 1];
      SelectedVotesAtMost(init, names, v, vote);
      var sel := Select(init, names);
      if r.experiment in names {
        assert (sel + [r])[..|sel|] == sel;
      } else {
        assert sel + [] == sel;
      }
    }
  }

  /** Stored events vote only if their event did: rows of events without a vote
      add nothing to any vote counter. */
  lemma {:induction false} UnvotedEventsCountNoVotes(events: seq<Event>, v: string)
    requires forall i :: 0 <= i < |events| ==> events[i].userVote == None
    ensures Voted(RowsOf(events), v) == 0
    ensures VoteCount(RowsOf(events), v, "up") == 0
    ensures VoteCount(RowsOf(events), v, "down") == 0
    decreases |events|
  {
    if events != [] {
      var init := events[..|events| - 1];
      UnvotedEventsCountNoVotes(init, v);
      assert RowsOf(events)[..|events| - 1] == RowsOf(init);
    }
  }
}
