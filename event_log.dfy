/** The experiment event log: an append-only sequence of answered questions. */
module EventLog {
  import opened Wrappers

  /** The experiment name the web form logs under. */
  const UiExperiment := "topk_ab"
  /** The experiment name the offline runner logs under. */
  const OfflineExperiment := "topk_ab_offline_k2_k4"

  /** One row of the `events` table, without the row id and the UTC timestamp
      the store assigns itself. */
  datatype Event = Event(
    sessionId: string,
    experiment: string,
    variant: string,
    question: string,
    topK: int,
    latencyMs: int,
    citations: string,
    sourcePages: seq<int>,
    answer: string,
    userVote: Option<string>)

  class EventStore {
    var events: seq<Event>

    constructor ()
      ensures events == []
    {
      events := [];
    }

    /** `log_event`: appends one row and never touches the rows already there. */
    method LogEvent(e: Event)
      modifies this
      ensures events == old(events) + [e]
      ensures old(events) <= events
    {
      events := events + [e];
    }
  }
}
