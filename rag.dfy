/** The deterministic part of the answer pipeline: turning retrieved passages
    into source records, a numbered context block and a citation line, and the
    credential guard in front of the retrieval and generation calls. */
module Rag {
  import opened Wrappers
  import opened Text
  import opened SortedSets

  /** The `page` entry of a passage's metadata: absent (or `None`), an integer
      0-based page index, or any other value, kept as the text Python prints for it. */
  datatype PageMeta = Missing | IntPage(index: int) | OtherPage(shown: string)

  /** A retrieved passage: its text and the two metadata entries the pipeline reads. */
  datatype Passage = Passage(content: string, page: PageMeta, source: Option<string>)

  /** One entry of `format_sources`: `{page, source, snippet}`. */
  datatype Source = Source(page: PageMeta, source: Option<string>, snippet: string)

  const SnippetLimit: nat := 240
  const Ellipsis := "..."

  /** The page shown to readers: one more than an integer index, anything else as it is. */
  function PageDisplay(page: PageMeta): (shown: PageMeta)
    ensures shown.IntPage? <==> page.IntPage?
    ensures page.IntPage? ==> shown.index == page.index + 1
    ensures !page.IntPage? ==> shown == page
  {
    if page.IntPage? then IntPage(page.index + 1) else page
  }

  /** A passage's text as one stripped line, cut to 240 characters plus an ellipsis. */
  function Snippet(content: string): (snippet: string)
    ensures '\n' !in snippet
    ensures |snippet| <= SnippetLimit + |Ellipsis|
    ensures var line := ReplaceNewlines(Strip(content));
      if |line| > SnippetLimit then snippet == line[..SnippetLimit] + Ellipsis else snippet == line
  {
    var line := ReplaceNewlines(Strip(content));
    Prefix(line, SnippetLimit) + (if |line| > SnippetLimit then Ellipsis else "")
  }

  /** A snippet that needed no cutting is already normal: normalising it again changes nothing. */
  lemma SnippetStable(content: string)
    requires |ReplaceNewlines(Strip(content))| <= SnippetLimit
    ensures Snippet(Snippet(content)) == Snippet(content)
  {
    var t := Strip(content);
    var line := ReplaceNewlines(t);
    StripShape(content);
    assert Snippet(content) == line;
    assert [] + line + [] == line;
    StripUnique([], line, []);
    assert ReplaceNewlines(line) == line;
  }

  function SourceOf(d: Passage): Source {
    Source(PageDisplay(d.page), d.source, Snippet(d.content))
  }

  /** `format_sources`: one normalised entry per passage, in passage order. */
  method FormatSources(docs: seq<Passage>) returns (sources: seq<Source>)
    ensures |sources| == |docs|
    ensures forall i :: 0 <= i < |docs| ==> sources[i] == SourceOf(docs[i])
  {
    sources := [];
    for i := 0 to |docs|
      invariant |sources| == i
      invariant forall k :: 0 <= k < i ==> sources[k] == SourceOf(docs[k])
    {
      var d := docs[i];
      var pageDisplay := PageDisplay(d.page);
      var snippet := Snippet(d.content);
      sources := sources + [Source(pageDisplay, d.source, snippet)];
    }
  }

  /** What `f"{page_display}"` prints. */
  function PageText(page: PageMeta): string {
    match page
    case Missing => "None"
    case IntPage(n) => IntToString(n)
    case OtherPage(shown) => shown
  }

  function Header(i: int, d: Passage): string {
    "[source " + IntToString(i) + " | page " + PageText(PageDisplay(d.page)) + "]"
  }

  /** The `i`-th (1-based) part of the context: its header line, then the stripped text. */
  function ContextPart(i: int, d: Passage): string {
    Header(i, d) + "\n" + Strip(d.content)
  }

  function ContextParts(docs: seq<Passage>): seq<string> {
    seq(|docs|, k requires 0 <= k < |docs| => ContextPart(k + 1, docs[k]))
  }

  const PartSeparator := "\n\n"

  /** `build_context`: the numbered parts, separated by blank lines. */
  method BuildContext(docs: seq<Passage>) returns (context: string)
    ensures context == Join(ContextParts(docs), PartSeparator)
  {
    var parts: seq<string> := [];
    for i := 0 to |docs|
      invariant |parts| == i
      invariant forall k :: 0 <= k < i ==> parts[k] == ContextPart(k + 1, docs[k])
    {
      var d := docs[i];
      var text := Strip(d.content);
      parts := parts + [Header(i + 1, d) + "\n" + text];
    }
    assert parts == ContextParts(docs);
    context := Join(parts, PartSeparator);
  }

  /** The context is empty exactly when nothing was retrieved, and otherwise
      opens with the header of passage 1. */
  lemma ContextShape(docs: seq<Passage>)
    ensures Join(ContextParts(docs), PartSeparator) == "" <==> docs == []
    ensures docs != [] ==> Header(1, docs[0]) <= Join(ContextParts(docs), PartSeparator)
  {
    if docs != [] {
      var parts := ContextParts(docs);
      JoinStartsWithFirst(parts, PartSeparator);
      assert parts[0] == Header(1, docs[0]) + "\n" + Strip(docs[0].content);
      assert Header(1, docs[0]) <= parts[0];
    }
  }

  /** The `pages` list `citations_line` accumulates: the 1-based page of each
      passage that has an integer page, in passage order. */
  function PagesOf(docs: seq<Passage>): seq<int>
    decreases |docs|
  {
    if docs == [] then []
    else
      var last := docs[|docs| - 1];
      PagesOf(docs[..|docs| - 1]) + (if last.page.IntPage? then [last.page.index + 1] else [])
  }

  /** The pages a citation line must list: one more than every integer page index. */
  function CitedPages(docs: seq<Passage>): set<int> {
    set i | 0 <= i < |docs| && docs[i].page.IntPage? :: docs[i].page.index + 1
  }

  lemma {:induction false} PagesOfCited(docs: seq<Passage>)
    ensures Elems(PagesOf(docs)) == CitedPages(docs)
    decreases |docs|
  {
    if docs != [] {
      var n := |docs|;
      var init := docs[..n - 1];
      PagesOfCited(init);
      var extra := if docs[n - 1].page.IntPage? then [docs[n - 1].page.index + 1] else [];
      ElemsAppend(PagesOf(init), extra);
      CitedPagesSnoc(docs);
    }
  }

  /** The pages cited by all passages: those cited by all but the last, and the last one's. */
  lemma CitedPagesSnoc(docs: seq<Passage>)
    requires docs != []
    ensures var last := docs[|docs| - 1];
      CitedPages(docs) == CitedPages(docs[..|docs| - 1]) + (if last.page.IntPage? then {last.page.index + 1} else {})
  {
    var n := |docs|;
    var init := docs[..n - 1];
    forall p | p in CitedPages(docs)
      ensures p in CitedPages(init) || (docs[n - 1].page.IntPage? && p == docs[n - 1].page.index + 1)
    {
      var i :| 0 <= i < n && docs[i].page.IntPage? && p == docs[i].page.index + 1;
      if i < n - 1 {
        assert init[i] == docs[i];
      }
    }
    forall p | p in CitedPages(init) ensures p in CitedPages(docs) {
      var i :| 0 <= i < n - 1 && init[i].page.IntPage? && p == init[i].page.index + 1;
      assert docs[i] == init[i];
    }
  }

  /** `sorted(set(pages))`: the cited pages, ascending, each once. */
  function SortedCitedPages(docs: seq<Passage>): (pages: seq<int>)
    ensures StrictlyIncreasing(pages)
    ensures Elems(pages) == CitedPages(docs)
  {
    PagesOfCited(docs);
    SortedUnique(PagesOf(docs))
  }

  /** No other listing of the cited pages is ascending and free of repeats. */
  lemma SortedCitedPagesUnique(docs: seq<Passage>, pages: seq<int>)
    requires StrictlyIncreasing(pages)
    requires Elems(pages) == CitedPages(docs)
    ensures pages == SortedCitedPages(docs)
  {
    IncreasingUnique(pages, SortedCitedPages(docs));
  }

  const NoCitations := "Citations: (none)"
  const CitationsPrefix := "Citations: "
  const LabelSeparator := ", "

  function PageLabel(p: int): string {
    "p." + IntToString(p)
  }

  function PageLabels(pages: seq<int>): seq<string> {
    seq(|pages|, i requires 0 <= i < |pages| => PageLabel(pages[i]))
  }

  /** The citation line for a list of pages. */
  function CitationsText(pages: seq<int>): string {
    if pages == [] then NoCitations else CitationsPrefix + Join(PageLabels(pages), LabelSeparator)
  }

  /** `citations_line`. */
  method CitationsLine(docs: seq<Passage>) returns (line: string)
    ensures line == CitationsText(SortedCitedPages(docs))
  {
    var pages: seq<int> := [];
    for i := 0 to |docs|
      invariant pages == PagesOf(docs[..i])
    {
      var page := docs[i].page;
      if page.IntPage? {
        pages := pages + [page.index + 1];
      }
      assert docs[..i + 1][..i] == docs[..i];
    }
    assert docs[..|docs|] == docs;
    pages := SortedUnique(pages);
    if pages == [] {
      return NoCitations;
    }
    line := CitationsPrefix + Join(PageLabels(pages), LabelSeparator);
  }

  function ParseLabel(item: string): Option<int> {
    if |item| >= 2 && item[..2] == "p." then ParseInt(item[2..]) else None
  }

  function ParseLabels(labels: seq<string>): Option<seq<int>>
    decreases |labels|
  {
    if labels == [] then Some([])
    else match (ParseLabel(labels[0]), ParseLabels(labels[1..]))
      case (Some(p), Some(ps)) => Some([p] + ps)
      case _ => None
  }

  /** Reads the page numbers back out of a citation line. */
  function ParseCitations(line: string): Option<seq<int>> {
    if line == NoCitations then Some([])
    else if CitationsPrefix <= line then ParseLabels(Split(line[|CitationsPrefix|..], LabelSeparator))
    else None
  }

  lemma ParseLabelOf(p: int)
    ensures ParseLabel(PageLabel(p)) == Some(p)
  {
    var item := PageLabel(p);
    assert item[..2] == "p." && item[2..] == IntToString(p);
    IntToStringRoundTrip(p);
  }

  lemma {:induction false} ParseLabelsOf(pages: seq<int>)
    ensures ParseLabels(PageLabels(pages)) == Some(pages)
    decreases |pages|
  {
    if pages != [] {
      ParseLabelOf(pages[0]);
      assert PageLabels(pages)[1..] == PageLabels(pages[1..]);
      ParseLabelsOf(pages[1..]);
      assert [pages[0]] + pages[1..] == pages;
    }
  }

  /** A citation line can be read back into exactly the list it was made from. */
  lemma CitationsTextRoundTrip(pages: seq<int>)
    ensures ParseCitations(CitationsText(pages)) == Some(pages)
  {
    if pages != [] {
      var labels := PageLabels(pages);
      var body := Join(labels, LabelSeparator);
      var line := CitationsPrefix + body;
      JoinStartsWithFirst(labels, LabelSeparator);
      assert body[0] == 'p';
      assert line[|CitationsPrefix|] != NoCitations[|CitationsPrefix|];
      assert line[|CitationsPrefix|..] == body;
      forall i | 0 <= i < |labels| ensures ',' !in labels[i] {
        var digits := IntToString(pages[i]);
        assert labels[i] == "p." + digits;
      }
      SplitJoin(labels, LabelSeparator);
      ParseLabelsOf(pages);
    }
  }

  /** What the citation line promises: "(none)" exactly when no passage has an
      integer page, and otherwise a list that reads back as the cited pages,
      ascending and each once. */
  lemma CitationsMeaning(docs: seq<Passage>)
    ensures CitationsText(SortedCitedPages(docs)) == NoCitations <==> CitedPages(docs) == {}
    ensures ParseCitations(CitationsText(SortedCitedPages(docs))) == Some(SortedCitedPages(docs))
  {
    var pages := SortedCitedPages(docs);
    CitationsTextRoundTrip(pages);
    if pages != [] {
      assert pages[0] in CitedPages(docs);
      assert ParseCitations(CitationsText(pages)) != Some([]);
    } else {
      assert Elems(pages) == {};
    }
  }

  datatype PipelineError = MissingApiKey | ExternalFailure(message: string)

  /** The four values `answer_question` returns. */
  datatype Answer = Answer(answer: string, citations: string, sources: seq<Source>, elapsed: real)

  const SystemPrompt := "You are a helpful assistant.\nAnswer ONLY using the provided context.\nIf the context does not contain the answer, say exactly:\nI don't know based on the provided document.\n"

  /** `USER_TEMPLATE.format(context=..., question=...)`. */
  function UserMessage(context: string, question: string): string {
    "Context:\n" + context + "\n\nQuestion: " + question + "\n"
  }

  /** `answer_question`. The vector index and the chat model are the functions
      `retrieve` and `generate`; `elapsed` is the clock difference the caller measured. */
  method AnswerQuestion(apiKey: string, question: string, topK: int,
                        retrieve: (string, int) -> seq<Passage>,
                        generate: (string, string) -> string,
                        elapsed: real)
    returns (r: Result<Answer, PipelineError>)
    ensures r.Failure? <==> apiKey == ""
    ensures r.Failure? ==> r.error == MissingApiKey
    ensures r.Success? ==>
      var docs := retrieve(question, topK);
      && r.value.answer == Strip(generate(SystemPrompt, UserMessage(Join(ContextParts(docs), PartSeparator), question)))
      && r.value.citations == CitationsText(SortedCitedPages(docs))
      && |r.value.sources| == |docs|
      && (forall i :: 0 <= i < |docs| ==> r.value.sources[i] == SourceOf(docs[i]))
      && r.value.elapsed == elapsed
  {
    if apiKey == "" {
      return Failure(MissingApiKey);
    }
    var docs := retrieve(question, topK);
    var context := BuildContext(docs);
    var resp := generate(SystemPrompt, UserMessage(context, question));
    var answer := Strip(resp);
    var citations := CitationsLine(docs);
    var sources := FormatSources(docs);
    r := Success(Answer(answer, citations, sources, elapsed));
  }
}
