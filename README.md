# rag-ab in Dafny

This project models the deterministic core of a small retrieval-augmented question-answering service and of the A/B experiment built on it. The two variants differ only in how many passages the retriever returns (`top_k`): 2 for variant A and 4 for variant B. The model covers four parts:

- **The answer pipeline's formatting** (`src/rag.py`): `format_sources`, `build_context`, `citations_line`, and the credential check at the top of `answer_question`. Retrieval and generation are passed in as functions.
- **The offline experiment runner** (`src/run_experiment.py`): the `--limit` cut and the nested question × variant loop, which logs one event per answer into an append-only event store.
- **The analysis script** (`src/analyze.py`): the per-variant fold of the logged rows into latency lists and vote counters, and the latency and vote summaries.
- **The plot script's data preparation** (`src/plot_results.py`, lines 31-57): latencies are taken from both experiments, votes only from the web-form experiment, and the thumbs-up rate is computed per variant.

The files follow the program's structure:

| file | module | models |
|---|---|---|
| `wrappers.dfy` | `Wrappers` | `Option` and `Result`, standing in for `None` and raised exceptions |
| `text.dfy` | `Text` | the Python string built-ins the pipeline uses (`strip`, `replace`, slicing, `join`, `str(int)`) and their inverses |
| `sorted_sets.dfy` | `SortedSets` | `sorted(set(xs))` on integers |
| `rag.dfy` | `Rag` | `src/rag.py` |
| `event_log.dfy` | `EventLog` | the `events` table as an append-only store (`src/storage.py`) |
| `runner.dfy` | `Runner` | `src/run_experiment.py` |
| `rows.dfy` | `Rows` | the rows the two reporting scripts read back, and the per-variant quantities both derive from them |
| `analyze.dfy` | `Analyze` | `src/analyze.py` |
| `plot_results.dfy` | `Plot` | `src/plot_results.py`, up to the drawing |

Each loop in the code is a method with loop invariants. Each method is proved against a specification function. The properties the code promises are proved as lemmas about those functions:

- the citation line reads back as the sorted, duplicate-free set of cited pages;
- a run logs exactly two events per question, A before B, with the right widths;
- offline rows never count as votes;
- every rate is a proportion.

Where the code cannot work as written, the model follows the evident intent; see the lines on the answer pipeline's five values and on `source_pages` under "## Left out".

## Model

| member | source | states |
|---|---|---|
| Text.TrimStartShape | src/rag.py:37 | `lstrip` removes a whitespace-only prefix (Python's `isspace` set) and leaves text that is empty or starts with a non-space |
| Text.TrimEndShape | src/rag.py:37 | `rstrip` removes a whitespace-only suffix and leaves text that is empty or ends with a non-space |
| Text.StripShape | src/rag.py:37 | `strip` leaves no whitespace at either end, and its result is empty exactly when the text is all whitespace |
| Text.StripUnique | src/rag.py:37 | text with non-space ends, padded by whitespace on both sides, strips back to exactly itself |
| Text.StripIdempotent | src/rag.py:57 | stripping twice is stripping once |
| Text.ReplaceNewlines | src/rag.py:37 | `replace("\n", " ")` keeps the length, turns each newline into a space, changes nothing else, and leaves no newline |
| Text.Prefix | src/rag.py:39 | the slice `s[:n]` has length `min(len(s), n)` and is a prefix of `s` |
| Text.JoinStartsWithFirst | src/rag.py:60 | a non-empty join starts with its first part |
| Text.SplitJoin | src/rag.py:75 | splitting a join on its separator returns the parts when no part holds the separator's first character |
| Text.IntToString | src/rag.py:58 | `str(n)` is non-empty and made only of decimal digits and the minus sign |
| Text.IntToStringRoundTrip | src/rag.py:75 | `int(str(n)) == n` for every integer |
| SortedSets.Insert | src/rag.py:72 | adding a value to an ascending duplicate-free list keeps it so and adds exactly that value |
| SortedSets.SortedUnique | src/rag.py:72 | `sorted(set(xs))` is strictly ascending and holds exactly the values of `xs` |
| SortedSets.IncreasingUnique | src/rag.py:72 | two strictly ascending lists with the same values are equal, so `sorted(set(xs))` is determined by the set |
| Rag.PageDisplay | src/rag.py:33-35 | an integer page index is shown one higher; any other page value, absent included, is shown unchanged |
| Rag.Snippet | src/rag.py:36-39 | a snippet has no newline and at most 243 characters; a stripped, newline-free text longer than 240 becomes its first 240 characters plus `"..."`, and a shorter one is kept whole |
| Rag.SnippetStable | src/rag.py:37-39 | a snippet that needed no cut is already normal: normalising it again changes nothing |
| Rag.FormatSources | src/rag.py:25-47 | one entry per passage, in passage order, each with the displayed page, the passage's source and its snippet |
| Rag.BuildContext | src/rag.py:51-60 | the context is the parts `[source i \| page p]` + newline + stripped text, with `i` counting from 1, joined by blank lines |
| Rag.ContextShape | src/rag.py:52-60 | the context is empty exactly when no passage was retrieved, and otherwise starts with the header of passage 1 |
| Rag.PagesOfCited | src/rag.py:67-71 | the pages collected are exactly one more than each integer page index |
| Rag.SortedCitedPages | src/rag.py:72 | the cited pages come out strictly ascending, each once, and are exactly {index + 1 \| a passage has an integer page} |
| Rag.SortedCitedPagesUnique | src/rag.py:72 | any ascending, duplicate-free listing of the cited pages is that list |
| Rag.CitationsLine | src/rag.py:65-75 | the loop, the sort and the join give `"Citations: (none)"` for no pages, and otherwise `"Citations: "` + `p.N` items joined by `", "`, for the sorted cited pages |
| Rag.ParseLabelsOf | src/rag.py:75 | every `p.N` item reads back as `N` |
| Rag.CitationsTextRoundTrip | src/rag.py:73-75 | the citation line for any page list parses back to that list |
| Rag.CitationsMeaning | src/rag.py:67-75 | the line is `"Citations: (none)"` exactly when no passage has an integer page, and otherwise it reads back as the sorted distinct cited pages |
| Rag.AnswerQuestion | src/rag.py:81-119 | fails with the missing-key error exactly when the key is empty; otherwise the answer is the stripped model reply to the fixed system prompt and the context built from the retrieved passages, and the citations and sources are those of the retrieved passages |
| EventLog.EventStore.constructor | src/storage.py:25-29 | a new store holds no events |
| EventLog.EventStore.LogEvent | src/storage.py:31-54 | logging appends exactly one event and keeps every earlier one |
| Runner.ApplyLimit | src/run_experiment.py:28-29 | a positive limit keeps the first `min(limit, len)` questions; zero or a negative limit keeps all |
| Runner.CallsShape | src/run_experiment.py:36-38 | the calls number twice the questions; call `j` asks question `j / 2` under variant `j % 2` (A, then B) with that variant's width |
| Runner.OfflineRunLogsEachCall | src/run_experiment.py:36-53 | event `j` comes from call `j`, which returned; a finished run logs every call, and an aborted run stops exactly at the call that raised |
| Runner.AbortIsFinal | src/run_experiment.py:39 | after a call has raised, no later call changes what the run logged |
| Runner.AskBothVariants | src/run_experiment.py:37-53 | the inner loop logs question `q` under A and then B, stopping at the first call that raises, as the run specification says |
| Runner.RunExperiment | src/run_experiment.py:28-53 | the store ends as the old events followed by the run's events over the limited questions, and the error returned is the run's |
| Runner.OfflineEvents | src/run_experiment.py:28-53 | event `j` is question `j / 2` under variant `j % 2` (A before B); its width is `TOPK_BY_VARIANT[variant]`; it has the run's session id and experiment `topk_ab_offline_k2_k4`, no vote, and the answer cut to `min(len, 2000)` characters; a run that does not abort logs exactly two events per question |
| Runner.SingleQuestionRun | src/run_experiment.py:36-52 | one question logs A with width 2 and then B with width 4, neither with a vote |
| Rows.SelectMeaning | src/analyze.py:9-15 | a row is selected exactly when it is in the table under one of the named experiments |
| Rows.LatenciesMeaning | src/analyze.py:25-26 | a latency is listed for a variant exactly when one of that variant's rows carries it non-NULL |
| Rows.VotedIsUpPlusDown | src/analyze.py:27-32 | the vote total always equals up-votes plus down-votes |
| Rows.NonVotesIgnored | src/analyze.py:27 | rows whose vote is NULL or anything but `"up"` or `"down"` leave every vote counter unchanged |
| Rows.OtherVariantsIgnored | src/analyze.py:23-24 | rows of any other variant change neither a variant's latencies nor its counters |
| Rows.SelectedVotesAtMost | src/plot_results.py:43 | counting votes over a selection of rows never gives more than counting over all of them |
| Rows.UnvotedEventsCountNoVotes | src/run_experiment.py:52 | stored events without a vote add nothing to any vote counter |
| Analyze.AggregateByVariant | src/analyze.py:19-32 | `by_variant` ends with keys A and B only; each holds the variant's non-NULL latencies in row order and its up, down and total vote counts, with total = up + down |
| Analyze.SummarizeLat | src/analyze.py:34-41 | no summary exactly for an empty list; otherwise `n` is the list's length and the mean times `n` is the sum |
| Analyze.MeanWithinBounds | src/analyze.py:39 | the mean lies between any lower and upper bound of the latencies |
| Analyze.SummarizeVotes | src/analyze.py:51-57 | only the vote count (zero) when nobody voted, so nothing is divided; otherwise the counters and a rate with rate × total = up × 100 |
| Analyze.UpRateIsPercentage | src/analyze.py:56 | with consistent counters the rate lies in [0, 100] |
| Analyze.ThreeUpOneDown | src/analyze.py:51-57 | three up-votes and one down-vote give 4 votes and a rate of 75 |
| Analyze.Analyse | src/analyze.py:7-57 | the report lists A then B, each with the latency summary and the vote summary of its rows from the two analysed experiments |
| Analyze.ReportMeaning | src/analyze.py:13-32 | only rows of `topk_ab` and `topk_ab_offline_k2_k4` are read, every total is up + down, and every rate is a percentage |
| Analyze.OfflineRunCastsNoVotes | src/analyze.py:27-32 | the rows an offline run logs leave every vote counter of the analysis at zero |
| Plot.TallyCountsUiVotes | src/plot_results.py:43-47 | the vote tally counts exactly the up- and down-votes of the web-form experiment's rows |
| Plot.Tally | src/plot_results.py:31-47 | `lat` holds each variant's non-NULL latencies from every fetched row, in row order; `votes` holds each variant's web-form tally |
| Plot.UpRate | src/plot_results.py:57 | the rate is undefined exactly when there are no votes; otherwise rate × total = up and the rate lies in [0, 1] |
| Plot.Rates | src/plot_results.py:50-57 | `vote_n` and `up_rate` have keys A and B; `vote_n` is up + down and `up_rate` is the rate of each tally |
| Plot.PrepareData | src/plot_results.py:13-57 | the chart data are the latencies of both experiments and the vote counts and rates of the web-form experiment |
| Plot.NonUiRowsCastNoVotes | src/plot_results.py:43-47 | rows of any experiment but `topk_ab`, the offline runs included, never change a vote tally |
| Plot.PlotVotesWithinAnalysis | src/plot_results.py:43 | the plot's up and down counts never exceed the analysis script's counts over the same rows |

## Left out

- The answer pipeline's five values: `answer_question` returns four values (src/rag.py:119), but the runner unpacks five, including `source_pages` (src/run_experiment.py:39). As written, the first call would raise. The runner's pipeline returns the five values its caller expects, and `Rag.AnswerQuestion` returns the four the function builds.
- `source_pages` is annotated `str` (src/storage.py:39), but the runner passes the pipeline's page list, which sqlite3 cannot bind. The model stores it as a list of integers, as the runner intends.
- `src/rag.py:7` imports `CHAT_MODEL` from `src/config.py`, which does not define it, so the import fails as written. The chat model is a parameter of `Rag.AnswerQuestion` (`generate`).
- Retrieval, the embedding and chat calls, and `time.time()` (src/rag.py:85-118) are the parameters `retrieve`, `generate` and `elapsed`. How many passages the retriever returns for a given `top_k` is not modelled.
- `OPENAI_API_KEY` is read from the environment at import time (src/config.py:12). Here it is the parameter `apiKey`, where an empty string means unset.
- `Rag.Snippet`, `Rag.BuildContext`: a passage whose `page_content` is `None` is modelled as empty text, and metadata that is `None` as metadata with no entries. Both go through the code's `or ""` and `or {}` the same way.
- `Rag.PageDisplay`: `isinstance(page, int)` is also true for `True` and `False`, which Python would show as 2 and 1. A metadata page of type `bool` is outside the model.
- `Rag.PageText`: a non-integer page is carried as the text Python prints for it; how other types are printed is not modelled.
- Runner: the question file is not read, argparse is not modelled, and the progress `print`s are left out. The session id from `uuid.uuid4()` is the parameter `sessionId`.
- `Runner.RunExperiment`: the latency is `int(elapsed * 1000)` (src/run_experiment.py:41), taken as an integer the pipeline supplies. The float product and its truncation are not modelled.
- `Runner.RunExperiment`: an exception raised by the pipeline ends the run, and the events already written stay. Other failures inside `log_event` (disk, locking) are not modelled.
- `EventLog.EventStore.LogEvent`: the row id and the UTC timestamp the store assigns are left out, as are the table schema and the connection handling (src/storage.py:8-29).
- Rows, `Analyze.Analyse`, `Plot.PrepareData`: the SQL queries are modelled as filters over a table given as a sequence. SQL without `ORDER BY` fixes no row order; the model takes the table's order.
- Rows: a NULL `variant` column is treated like any other unknown variant; both scripts skip it the same way.
- `Analyze.SummarizeLat`: the mean is exact, not `round(mean, 1)`, and the median (src/analyze.py:40) is not modelled. Both use floating point.
- `Analyze.SummarizeVotes`: the rate is exact, not `round(up / vt * 100, 1)`, which is floating point.
- `Plot.UpRate`: `nan` is modelled as `None`, and the rate is exact rather than a float.
- The matplotlib figure and the file output (src/plot_results.py:59-88) are left out.
- `app/ui.py` (the Streamlit page, its session state and the random A/B assignment), `src/ingest.py` (PDF loading, splitting and embedding), `check_votes.py` (ad-hoc SQL reports) and the command-line `main` of `src/rag.py` are not part of this model.
