/**
 * `format_swarm_summary`: the plain-text report built from the extracted
 * sections, one list of lines joined with newlines.
 */
module SwarmSummary {
  import opened Wrappers
  import opened PyStr
  import opened SwarmExtract

  const Title: string := "SWARM ANALYSIS SUMMARY"
  const StatusHeading: string := "\nSWARM STATUS:"
  const ResponsesHeading: string := "\nAGENT RESPONSES:"
  const MetricsHeading: string := "\n\nPERFORMANCE METRICS:"

  /** The default `max_response_length`. */
  const DefaultMaxResponseLength: int := 500

  /** A response as displayed: cut to `maxLen` characters plus "..." when longer, with Python's slice rules for a negative bound. */
  function Shown(text: string, maxLen: int): (r: string)
    ensures |text| <= maxLen ==> r == text
    ensures |text| > maxLen ==> |r| >= 3 && r[|r| - 3..] == "..." && StartsWith(text, r[..|r| - 3])
    ensures maxLen >= 0 ==> |r| <= maxLen + 3
    ensures 0 <= maxLen < |text| ==> r == text[..maxLen] + "..."
    ensures maxLen < 0 ==> r == text[..if |text| + maxLen < 0 then 0 else |text| + maxLen] + "..."
  {
    if |text| > maxLen then
      var cut := Slice(text, 0, maxLen);
      assert cut == text[..|cut|];
      assert (cut + "...")[..|cut|] == cut;
      cut + "..."
    else text
  }

  /** The heading line and the '=' rule under it. */
  function HeaderLines(): seq<string> {
    [Title, Repeat('=', 60)]
  }

  /** A status is shown when it is present and not empty (Python truthiness). */
  predicate HasStatus(status: Option<string>) {
    status.Some? && status.value != []
  }

  function StatusBlock(status: Option<string>): seq<string> {
    if HasStatus(status) then [StatusHeading, Repeat('-', 40), status.value] else []
  }

  /** Two lines per response: the agent id line and the shown response. */
  function ResponseLines(rs: seq<AgentResponse>, maxLen: int): (r: seq<string>)
    ensures |r| == 2 * |rs|
    decreases |rs|
  {
    if rs == [] then []
    else
      var last := rs[|rs| - 1];
      ResponseLines(rs[..|rs| - 1], maxLen) + ["\n" + last.agentId + ":", Shown(last.response, maxLen)]
  }

  function ResponsesBlock(rs: seq<AgentResponse>, maxLen: int): seq<string> {
    if rs == [] then [] else [ResponsesHeading, Repeat('-', 40)] + ResponseLines(rs, maxLen)
  }

  /** Two lines per metrics entry: the agent id line and the metrics text. */
  function MetricLines(ms: seq<AgentMetrics>): (r: seq<string>)
    ensures |r| == 2 * |ms|
    decreases |ms|
  {
    if ms == [] then []
    else
      var last := ms[|ms| - 1];
      MetricLines(ms[..|ms| - 1]) + ["\n" + last.agentId + ":", last.metrics]
  }

  function MetricsBlock(ms: seq<AgentMetrics>): seq<string> {
    if ms == [] then [] else [MetricsHeading, Repeat('-', 40)] + MetricLines(ms)
  }

  /** The list `summary` holds before it is joined. */
  function SummaryLines(sections: Sections, maxLen: int): seq<string> {
    HeaderLines() + StatusBlock(sections.status)
      + ResponsesBlock(sections.responses, maxLen) + MetricsBlock(sections.metrics)
  }

  /** What `format_swarm_summary` returns. */
  function Summary(sections: Sections, maxLen: int): string {
    Join(SummaryLines(sections, maxLen), "\n")
  }

  lemma ResponseLinesSnoc(rs: seq<AgentResponse>, i: nat, maxLen: int)
    requires i < |rs|
    ensures ResponseLines(rs[..i + 1], maxLen)
      == ResponseLines(rs[..i], maxLen) + ["\n" + rs[i].agentId + ":", Shown(rs[i].response, maxLen)]
  {
    assert rs[..i + 1][..i] == rs[..i];
  }

  lemma MetricLinesSnoc(ms: seq<AgentMetrics>, i: nat)
    requires i < |ms|
    ensures MetricLines(ms[..i + 1]) == MetricLines(ms[..i]) + ["\n" + ms[i].agentId + ":", ms[i].metrics]
  {
    assert ms[..i + 1][..i] == ms[..i];
  }

  /** Appends the two lines of one response: its agent id, then its text, cut when it is longer than `maxResponseLength`. */
  method AppendResponse(summary: seq<string>, response: AgentResponse, maxResponseLength: int)
    returns (r: seq<string>)
    ensures r == summary + ["\n" + response.agentId + ":", Shown(response.response, maxResponseLength)]
  {
    r := summary + ["\n" + response.agentId + ":"];
    var responseText := response.response;
    if |responseText| > maxResponseLength {
      r := r + [Slice(responseText, 0, maxResponseLength) + "..."];
    } else {
      r := r + [responseText];
    }
  }

  /** The loop over the responses: two lines for each, in order. */
  method AppendResponseLines(summary: seq<string>, responses: seq<AgentResponse>, maxResponseLength: int)
    returns (r: seq<string>)
    ensures r == summary + ResponseLines(responses, maxResponseLength)
  {
    r := summary;
    for i := 0 to |responses|
      invariant r == summary + ResponseLines(responses[..i], maxResponseLength)
    {
      r := AppendResponse(r, responses[i], maxResponseLength);
      ResponseLinesSnoc(responses, i, maxResponseLength);
    }
    assert responses[..|responses|] == responses;
  }

  /** Appends the responses block to `summary`, when there is a response to show. */
  method AppendResponses(summary: seq<string>, responses: seq<AgentResponse>, maxResponseLength: int)
    returns (r: seq<string>)
    ensures r == summary + ResponsesBlock(responses, maxResponseLength)
  {
    r := summary;
    if responses != [] {
      r := r + [ResponsesHeading, Repeat('-', 40)];
      r := AppendResponseLines(r, responses, maxResponseLength);
    }
  }

  /** Appends the metrics block to `summary`, when there is a metrics entry to show. */
  method AppendMetrics(summary: seq<string>, metrics: seq<AgentMetrics>) returns (r: seq<string>)
    ensures r == summary + MetricsBlock(metrics)
  {
    r := summary;
    if metrics != [] {
      r := r + [MetricsHeading, Repeat('-', 40)];
      r := AppendMetricLines(r, metrics);
    }
  }

  /** The loop over the metrics: two lines for each, in order. */
  method AppendMetricLines(summary: seq<string>, metrics: seq<AgentMetrics>) returns (r: seq<string>)
    ensures r == summary + MetricLines(metrics)
  {
    r := summary;
    for i := 0 to |metrics|
      invariant r == summary + MetricLines(metrics[..i])
    {
      var metric := metrics[i];
      r := r + ["\n" + metric.agentId + ":"];
      r := r + [metric.metrics];
      MetricLinesSnoc(metrics, i);
    }
    assert metrics[..|metrics|] == metrics;
  }

  method FormatSwarmSummary(sections: Sections, maxResponseLength: int := DefaultMaxResponseLength) returns (r: string)
    ensures r == Summary(sections, maxResponseLength)
  {
    var summary: seq<string> := [];
    summary := summary + [Title];
    summary := summary + [Repeat('=', 60)];
    if sections.status.Some? && sections.status.value != [] {
      summary := summary + [StatusHeading, Repeat('-', 40), sections.status.value];
    }
    assert summary == HeaderLines() + StatusBlock(sections.status);
    summary := AppendResponses(summary, sections.responses, maxResponseLength);
    summary := AppendMetrics(summary, sections.metrics);
    r := Join(summary, "\n");
  }

  // ---------------------------------------------------------------------------
  // Properties of the report
  // ---------------------------------------------------------------------------

  /** Response `k` occupies lines 2k and 2k+1 of its block body: its agent id line, then its shown text. */
  lemma {:induction false} ResponseEntryAt(rs: seq<AgentResponse>, maxLen: int, k: nat)
    requires k < |rs|
    ensures ResponseLines(rs, maxLen)[2 * k] == "\n" + rs[k].agentId + ":"
    ensures ResponseLines(rs, maxLen)[2 * k + 1] == Shown(rs[k].response, maxLen)
    decreases |rs|
  {
    var init := rs[..|rs| - 1];
    if k < |init| {
      ResponseEntryAt(init, maxLen, k);
      assert init[k] == rs[k];
    }
  }

  /** Metrics entry `k` occupies lines 2k and 2k+1 of its block body. */
  lemma {:induction false} MetricEntryAt(ms: seq<AgentMetrics>, k: nat)
    requires k < |ms|
    ensures MetricLines(ms)[2 * k] == "\n" + ms[k].agentId + ":"
    ensures MetricLines(ms)[2 * k + 1] == ms[k].metrics
    decreases |ms|
  {
    var init := ms[..|ms| - 1];
    if k < |init| {
      MetricEntryAt(init, k);
      assert init[k] == ms[k];
    }
  }

  /** The number of lines: two for the header, three for a status, two plus two per entry for each non-empty list. */
  lemma SummaryLineCount(sections: Sections, maxLen: int)
    ensures |SummaryLines(sections, maxLen)| ==
      2 + (if HasStatus(sections.status) then 3 else 0)
        + (if sections.responses == [] then 0 else 2 + 2 * |sections.responses|)
        + (if sections.metrics == [] then 0 else 2 + 2 * |sections.metrics|)
  {
  }

  /** The report always opens with the title and the '=' rule. */
  lemma SummaryStartsWithHeader(sections: Sections, maxLen: int)
    ensures StartsWith(Summary(sections, maxLen), Title + "\n" + Repeat('=', 60))
  {
    var rest := StatusBlock(sections.status)
      + ResponsesBlock(sections.responses, maxLen) + MetricsBlock(sections.metrics);
    assert SummaryLines(sections, maxLen) == HeaderLines() + rest;
    assert Join(HeaderLines(), "\n") == Title + "\n" + Repeat('=', 60) by {
      assert HeaderLines()[1..] == [Repeat('=', 60)];
    }
    JoinPrefix(HeaderLines(), rest, "\n");
  }

  lemma SummaryBareIff(sections: Sections, maxLen: int)
    ensures Summary(sections, maxLen) == Title + "\n" + Repeat('=', 60)
        <==> !HasStatus(sections.status) && sections.responses == [] && sections.metrics == []
  {
    var rest := StatusBlock(sections.status)
      + ResponsesBlock(sections.responses, maxLen) + MetricsBlock(sections.metrics);
    var lines := SummaryLines(sections, maxLen);
    assert lines == HeaderLines() + rest;
    var head := Title + "\n" + Repeat('=', 60);
    assert Join(HeaderLines(), "\n") == head by {
      assert HeaderLines()[1..] == [Repeat('=', 60)];
    }
    if rest != [] {
      JoinAppend(HeaderLines(), rest, "\n");
      assert |Summary(sections, maxLen)| > |head|;
    } else {
      assert lines == HeaderLines();
    }
  }
}
