/**
 * `extract_swarm_content`: sorting the text-bearing records of a swarm output
 * list into the swarm status, the agent responses, the agent metrics and the
 * collective knowledge, by substring tests, two regular-expression searches
 * and slicing.
 */
module SwarmExtract {
  import opened Wrappers
  import opened PyStr
  import opened SwarmClean

  // ---------------------------------------------------------------------------
  // The searches `Agent agent_\d+.*<keyword>` and `Agent (agent_\d+)`
  // ---------------------------------------------------------------------------

  const AgentTag: string := "Agent agent_"

  /** `\d`, read as the ASCII digits. */
  predicate IsDigit(c: char) {
    '0' <= c <= '9'
  }

  /** `Agent agent_` followed by at least one digit starts at `i`. */
  predicate AgentAt(s: string, i: nat) {
    OccursAt(s, AgentTag, i) && i + |AgentTag| < |s| && IsDigit(s[i + |AgentTag|])
  }

  /** End of the run of digits that starts at `i`. */
  function DigitsEnd(s: string, i: nat): (j: nat)
    requires i <= |s|
    ensures i <= j <= |s|
    ensures forall k :: i <= k < j ==> IsDigit(s[k])
    ensures j < |s| ==> !IsDigit(s[j])
    decreases |s| - i
  {
    if i < |s| && IsDigit(s[i]) then DigitsEnd(s, i + 1) else i
  }

  /** Index of the first newline at or after `i`, or |s|: how far `.` can reach from `i`. */
  function LineEnd(s: string, i: nat): (j: nat)
    requires i <= |s|
    ensures i <= j <= |s|
    ensures forall k :: i <= k < j ==> s[k] != '\n'
    ensures j < |s| ==> s[j] == '\n'
    decreases |s| - i
  {
    if i < |s| && s[i] != '\n' then LineEnd(s, i + 1) else i
  }

  /**
   * The search for `Agent agent_\d+.*kw`, scanning candidate starts from `i`
   * on: after the tag and its first digit, `.*` reaches up to the end of the
   * line, so the keyword must occur completely before that line ends.
   */
  function AgentThenFrom(s: string, kw: string, i: nat): bool
    requires i <= |s|
    decreases |s| - i
  {
    if i == |s| then false
    else if AgentAt(s, i) then
      var a := i + |AgentTag| + 1;
      Contains(s[a..LineEnd(s, a)], kw) || AgentThenFrom(s, kw, i + 1)
    else AgentThenFrom(s, kw, i + 1)
  }

  /** `re.search(r'Agent agent_\d+.*' + kw, s)` finds a match. */
  predicate AgentThen(s: string, kw: string) {
    AgentThenFrom(s, kw, 0)
  }

  /** The regular expression matches with the tag at `i` and the keyword at `j`. */
  ghost predicate MatchAt(s: string, kw: string, i: nat, j: nat) {
    && AgentAt(s, i)
    && i + |AgentTag| + 1 <= j
    && OccursAt(s, kw, j)
    && (forall k :: i + |AgentTag| + 1 <= k < j ==> s[k] != '\n')
  }

  /** A keyword found on the tag's line gives a regex match. */
  lemma LineHitMatches(s: string, kw: string, i: nat, a: nat, e: nat)
    requires AgentAt(s, i) && a == i + |AgentTag| + 1 && e == LineEnd(s, a)
    requires Contains(s[a..e], kw)
    ensures MatchAt(s, kw, i, a + Find(s[a..e], kw))
  {
    var t := Find(s[a..e], kw);
    assert s[a + t..a + t + |kw|] == s[a..e][t..t + |kw|];
  }

  /** A regex match with the tag at `i` lies on the tag's line. */
  lemma MatchOnLine(s: string, kw: string, i: nat, j: nat)
    requires '\n' !in kw
    requires MatchAt(s, kw, i, j)
    ensures Contains(s[i + |AgentTag| + 1..LineEnd(s, i + |AgentTag| + 1)], kw)
  {
    var a := i + |AgentTag| + 1;
    var e := LineEnd(s, a);
    if e < j {
      assert false;
    }
    if j + |kw| > e {
      assert false;
    }
    var line := s[a..e];
    assert line[j - a..j - a + |kw|] == s[j..j + |kw|];
    assert OccursAt(line, kw, j - a);
  }

  lemma LineSearchAt(s: string, kw: string, i: nat)
    requires '\n' !in kw
    requires AgentAt(s, i)
    ensures Contains(s[i + |AgentTag| + 1..LineEnd(s, i + |AgentTag| + 1)], kw)
        <==> exists j: nat :: MatchAt(s, kw, i, j)
  {
    if Contains(s[i + |AgentTag| + 1..LineEnd(s, i + |AgentTag| + 1)], kw) {
      LineHitMatches(s, kw, i, i + |AgentTag| + 1, LineEnd(s, i + |AgentTag| + 1));
    }
    if exists j: nat :: MatchAt(s, kw, i, j) {
      var j: nat :| MatchAt(s, kw, i, j);
      MatchOnLine(s, kw, i, j);
    }
  }

  lemma {:induction false} AgentThenFromIsSearch(s: string, kw: string, i: nat)
    requires '\n' !in kw
    requires i <= |s|
    ensures AgentThenFrom(s, kw, i) <==> exists p: nat, j: nat :: i <= p && MatchAt(s, kw, p, j)
    decreases |s| - i
  {
    if i < |s| {
      AgentThenFromIsSearch(s, kw, i + 1);
      if AgentAt(s, i) {
        LineSearchAt(s, kw, i);
      }
      MatchHereOrLater(s, kw, i);
    }
  }

  /** A match with the tag at or after `i` has it at `i` or after `i + 1`. */
  lemma MatchHereOrLater(s: string, kw: string, i: nat)
    ensures (exists p: nat, j: nat :: i <= p && MatchAt(s, kw, p, j))
        <==> (exists j: nat :: MatchAt(s, kw, i, j)) || (exists p: nat, j: nat :: i + 1 <= p && MatchAt(s, kw, p, j))
  {
    if exists p: nat, j: nat :: i <= p && MatchAt(s, kw, p, j) {
      var p: nat, j: nat :| i <= p && MatchAt(s, kw, p, j);
      if p > i {
        assert i + 1 <= p;
      } else {
        assert MatchAt(s, kw, i, j);
      }
    }
  }

  /** The scanner decides exactly what `re.search(r'Agent agent_\d+.*' + kw, s)` decides. */
  lemma AgentThenIsSearch(s: string, kw: string)
    requires '\n' !in kw
    ensures AgentThen(s, kw) <==> exists i: nat, j: nat :: MatchAt(s, kw, i, j)
  {
    AgentThenFromIsSearch(s, kw, 0);
  }

  /** Start of the leftmost `Agent agent_\d` at or after `i`. */
  function FirstAgentFrom(s: string, i: nat): (r: Option<nat>)
    requires i <= |s|
    ensures r.Some? ==> i <= r.value < |s| && AgentAt(s, r.value)
    ensures r.Some? ==> forall k :: i <= k < r.value ==> !AgentAt(s, k)
    ensures r.None? ==> forall k :: i <= k < |s| ==> !AgentAt(s, k)
    decreases |s| - i
  {
    if i == |s| then None
    else if AgentAt(s, i) then Some(i)
    else FirstAgentFrom(s, i + 1)
  }

  /** `agent_` followed by one or more digits. */
  predicate IsAgentName(id: string) {
    |id| > 6 && id[..6] == "agent_" && forall k :: 6 <= k < |id| ==> IsDigit(id[k])
  }

  /** Group 1 of `re.search(r'Agent (agent_\d+)', s)`, or 'unknown' when it does not match. */
  function AgentId(s: string): string
  {
    match FirstAgentFrom(s, 0)
    case None => "unknown"
    case Some(i) => s[i + 6..DigitsEnd(s, i + |AgentTag|)]
  }

  /** Whenever the tag occurs at all, the agent id is a real agent name, never 'unknown'. */
  lemma {:induction false} AgentIdOfTagged(s: string, i: nat)
    requires i < |s| && AgentAt(s, i)
    ensures IsAgentName(AgentId(s))
  {
    var p := FirstAgentFrom(s, 0).value;
    var e := DigitsEnd(s, p + |AgentTag|);
    var id := s[p + 6..e];
    assert s[p..p + |AgentTag|] == AgentTag;
    assert id[..6] == s[p + 6..p + 12] == AgentTag[6..];
    forall k | 6 <= k < |id| ensures IsDigit(id[k]) {
      assert id[k] == s[p + 6 + k];
    }
  }

  lemma {:induction false} TaggedWhenSearchMatches(s: string, kw: string, i: nat)
    requires i <= |s|
    requires AgentThenFrom(s, kw, i)
    ensures exists k :: i <= k < |s| && AgentAt(s, k)
    decreases |s| - i
  {
    if !AgentAt(s, i) {
      TaggedWhenSearchMatches(s, kw, i + 1);
    }
  }

  /** In the branches that use it, the 'unknown' fallback is unreachable: the search that selected the branch found a tag. */
  lemma AgentIdOfMatch(s: string, kw: string)
    requires AgentThen(s, kw)
    ensures IsAgentName(AgentId(s))
  {
    TaggedWhenSearchMatches(s, kw, 0);
    var k :| 0 <= k < |s| && AgentAt(s, k);
    AgentIdOfTagged(s, k);
  }

  // ---------------------------------------------------------------------------
  // Sections
  // ---------------------------------------------------------------------------

  datatype AgentResponse = AgentResponse(agentId: string, response: string)
  datatype AgentMetrics = AgentMetrics(agentId: string, metrics: string)

  /** The parsed collective knowledge: a list of JSON objects. */
  type Knowledge = seq<map<string, Value>>

  /** `json.loads` as this code sees it: the list it yields, or None when it raises. */
  type Parser = string -> Option<Knowledge>

  /** The `content_sections` dictionary. */
  datatype Sections = Sections(
    status: Option<string>,
    responses: seq<AgentResponse>,
    metrics: seq<AgentMetrics>,
    knowledge: Knowledge)

  const NoSections: Sections := Sections(None, [], [], [])

  /** Testing `'Swarm Status' in text` on a non-string raises TypeError. */
  const NotIterable: string := "TypeError: argument is not iterable"

  /** Which branch of the if/elif chain a text takes. */
  datatype Kind = StatusKind | ResponseKind | MetricsKind | KnowledgeKind | Unclassified

  function Classify(t: string): Kind
  {
    if Contains(t, "Swarm Status") then StatusKind
    else if AgentThen(t, "Response:") then ResponseKind
    else if AgentThen(t, "Metrics:") then MetricsKind
    else if Contains(t, "Collective Knowledge:") then KnowledgeKind
    else Unclassified
  }

  /** The cleaned, stripped text after the first 'Response:', up to the first blank line before 'Metrics:' or the end. */
  function ResponseBody(t: string): string
  {
    var start := Find(t, "Response:") + 9;
    var end := if Contains(t, "\n\nMetrics:") then Find(t, "\n\nMetrics:") else |t|;
    CleanText(Strip(Slice(t, start, end)))
  }

  /** The cleaned, stripped text after the first 'Metrics:'. */
  function MetricsBody(t: string): string
  {
    CleanText(Strip(Slice(t, Find(t, "Metrics:") + 8, |t|)))
  }

  /** The knowledge list with the `content` field of every entry cleaned. */
  function CleanKnowledge(k: Knowledge): (r: Knowledge)
    ensures |r| == |k|
    ensures forall i :: 0 <= i < |k| ==> r[i].Keys == k[i].Keys
    ensures forall i, key :: 0 <= i < |k| && key in k[i] ==>
      r[i][key] == if key == "content" then CleanValue(k[i][key]) else k[i][key]
  {
    seq(|k|, i requires 0 <= i < |k| =>
      if "content" in k[i] then k[i]["content" := CleanValue(k[i]["content"])] else k[i])
  }

  /** The collective knowledge after a record: the parsed list from the first '[' on, or the old list when there is no '[' or parsing fails. */
  function KnowledgeAfter(old_: Knowledge, t: string, parse: Parser): Knowledge
  {
    var start := Find(t, "[");
    if start == -1 then old_
    else match parse(t[start..])
      case None => old_
      case Some(k) => CleanKnowledge(k)
  }

  /** The effect of one text-bearing record with a string `text`. */
  function Absorb(acc: Sections, t: string, parse: Parser): Sections
  {
    match Classify(t)
    case StatusKind => acc.(status := Some(CleanText(t)))
    case ResponseKind => acc.(responses := acc.responses + [AgentResponse(AgentId(t), ResponseBody(t))])
    case MetricsKind => acc.(metrics := acc.metrics + [AgentMetrics(AgentId(t), MetricsBody(t))])
    case KnowledgeKind => acc.(knowledge := KnowledgeAfter(acc.knowledge, t, parse))
    case Unclassified => acc
  }

  /** The `text` field of a record, when the entry is a dict that has one. */
  function TextOf(item: Item): Option<Value>
  {
    if item.Dict? && "text" in item.fields then Some(item.fields["text"]) else None
  }

  /** What `extract_swarm_content` returns for the records `items`, taken in order. */
  function Extract(items: seq<Item>, parse: Parser): Result<Sections>
    decreases |items|
  {
    if items == [] then Ok(NoSections)
    else
      match Extract(items[..|items| - 1], parse)
      case Err(e) => Err(e)
      case Ok(acc) =>
        match TextOf(items[|items| - 1])
        case None => Ok(acc)
        case Some(Str(t)) => Ok(Absorb(acc, t, parse))
        case Some(_) => Err(NotIterable)
  }

  lemma {:induction false} ErrSticks(items: seq<Item>, n: nat, parse: Parser)
    requires n <= |items|
    requires Extract(items[..n], parse).Err?
    ensures Extract(items, parse) == Extract(items[..n], parse)
    decreases |items| - n
  {
    if n < |items| {
      assert items[..n + 1][..n] == items[..n];
      ErrSticks(items, n + 1, parse);
    } else {
      assert items[..n] == items;
    }
  }

  /** The outcome after one more record of `items`. */
  lemma ExtractPrefixStep(items: seq<Item>, i: nat, parse: Parser)
    requires i < |items| && Extract(items[..i], parse).Ok?
    ensures TextOf(items[i]).None? ==> Extract(items[..i + 1], parse) == Extract(items[..i], parse)
    ensures TextOf(items[i]).Some? && TextOf(items[i]).value.Str? ==>
      Extract(items[..i + 1], parse) == Ok(Absorb(Extract(items[..i], parse).value, TextOf(items[i]).value.s, parse))
    ensures TextOf(items[i]).Some? && !TextOf(items[i]).value.Str? ==>
      Extract(items[..i + 1], parse) == Err(NotIterable)
  {
    assert items[..i + 1][..i] == items[..i];
  }

  /** Cleans the `content` field of every knowledge entry, one entry at a time. */
  method CleanKnowledgeEntries(parsed: Knowledge) returns (entries: Knowledge)
    ensures entries == CleanKnowledge(parsed)
  {
    entries := parsed;
    for k := 0 to |entries|
      invariant |entries| == |parsed|
      invariant forall m :: 0 <= m < k ==> entries[m] == CleanKnowledge(parsed)[m]
      invariant forall m :: k <= m < |entries| ==> entries[m] == parsed[m]
    {
      if "content" in entries[k] {
        var content := CleanSwarmText(entries[k]["content"]);
        entries := entries[k := entries[k]["content" := content]];
      }
    }
  }

  /** The body of the loop for a record whose `text` is the string `text`. */
  method AbsorbText(sections: Sections, text: string, parse: Parser) returns (r: Sections)
    ensures r == Absorb(sections, text, parse)
  {
    r := sections;
    if Contains(text, "Swarm Status") {
      var cleaned := CleanSwarmText(Str(text));
      r := r.(status := Some(cleaned.s));
    } else if AgentThen(text, "Response:") {
      var agentId := AgentId(text);
      var responseStart := Find(text, "Response:") + 9;
      var responseEnd := if Contains(text, "\n\nMetrics:") then Find(text, "\n\nMetrics:") else |text|;
      var body := CleanSwarmText(Str(Strip(Slice(text, responseStart, responseEnd))));
      r := r.(responses := r.responses + [AgentResponse(agentId, body.s)]);
    } else if AgentThen(text, "Metrics:") {
      var agentId := AgentId(text);
      var metricsStart := Find(text, "Metrics:") + 8;
      var body := CleanSwarmText(Str(Strip(Slice(text, metricsStart, |text|))));
      r := r.(metrics := r.metrics + [AgentMetrics(agentId, body.s)]);
    } else if Contains(text, "Collective Knowledge:") {
      var knowledgeStart := Find(text, "[");
      if knowledgeStart != -1 {
        var parsed := parse(text[knowledgeStart..]);
        if parsed.Some? {
          var entries := CleanKnowledgeEntries(parsed.value);
          r := r.(knowledge := entries);
        }
      }
    }
  }

  /**
   * `extract_swarm_content`: one pass over the records, updating the sections
   * dictionary as it goes.
   */
  method ExtractSwarmContent(data: seq<Item>, parse: Parser) returns (r: Result<Sections>)
    ensures r == Extract(data, parse)
  {
    var sections := NoSections;
    var i := 0;
    while i < |data|
      invariant 0 <= i <= |data|
      invariant Extract(data[..i], parse) == Ok(sections)
    {
      ExtractPrefixStep(data, i, parse);
      var item := data[i];
      if item.Dict? && "text" in item.fields {
        var v := item.fields["text"];
        if !v.Str? {
          ErrSticks(data, i + 1, parse);
          return Err(NotIterable);
        }
        sections := AbsorbText(sections, v.s, parse);
      }
      i := i + 1;
    }
    assert data[..|data|] == data;
    r := Ok(sections);
  }

  // ---------------------------------------------------------------------------
  // What the sections hold
  // ---------------------------------------------------------------------------

  /** The record's `text` is present but is not a string. */
  predicate HasNonStringText(item: Item) {
    TextOf(item).Some? && !TextOf(item).value.Str?
  }

  /** The extraction fails exactly when some record's `text` is not a string. */
  lemma {:induction false} ExtractFailsIff(items: seq<Item>, parse: Parser)
    ensures Extract(items, parse).Err? <==> exists k :: 0 <= k < |items| && HasNonStringText(items[k])
    decreases |items|
  {
    if items != [] {
      var p, x := items[..|items| - 1], items[|items| - 1];
      assert items == p + [x];
      ExtractFailsIff(p, parse);
      ErrStep(p, x, parse);
      NonStringSnoc(p, x);
    }
  }

  /** One more record fails the run exactly when the run had failed or the record's text is not a string. */
  lemma ErrStep(p: seq<Item>, x: Item, parse: Parser)
    ensures Extract(p + [x], parse).Err? <==> Extract(p, parse).Err? || HasNonStringText(x)
  {
    assert (p + [x])[..|p|] == p;
  }

  lemma NonStringSnoc(p: seq<Item>, x: Item)
    ensures (exists k :: 0 <= k < |p + [x]| && HasNonStringText((p + [x])[k]))
        <==> (exists k :: 0 <= k < |p| && HasNonStringText(p[k])) || HasNonStringText(x)
  {
    var items := p + [x];
    if exists k :: 0 <= k < |p| && HasNonStringText(p[k]) {
      var k :| 0 <= k < |p| && HasNonStringText(p[k]);
      assert items[k] == p[k];
    }
    if exists k :: 0 <= k < |items| && HasNonStringText(items[k]) {
      var k :| 0 <= k < |items| && HasNonStringText(items[k]);
      if k < |p| {
        assert items[k] == p[k];
      }
    }
    assert items[|p|] == x;
  }


  /** The string text of a record that takes the branch `kind`. */
  function TextOfKind(item: Item, kind: Kind): Option<string>
  {
    match TextOf(item)
    case Some(Str(t)) => if Classify(t) == kind then Some(t) else None
    case _ => None
  }

  function ResponseOf(item: Item): Option<AgentResponse>
  {
    match TextOfKind(item, ResponseKind)
    case Some(t) => Some(AgentResponse(AgentId(t), ResponseBody(t)))
    case None => None
  }

  function MetricsOf(item: Item): Option<AgentMetrics>
  {
    match TextOfKind(item, MetricsKind)
    case Some(t) => Some(AgentMetrics(AgentId(t), MetricsBody(t)))
    case None => None
  }

  /** The values `pick` finds in the records, in record order. */
  function Collect<T>(items: seq<Item>, pick: Item -> Option<T>): seq<T>
  {
    if items == [] then []
    else (if pick(items[0]).Some? then [pick(items[0]).value] else []) + Collect(items[1..], pick)
  }

  lemma {:induction false} CollectSnoc<T>(items: seq<Item>, x: Item, pick: Item -> Option<T>)
    ensures Collect(items + [x], pick) == Collect(items, pick) + (if pick(x).Some? then [pick(x).value] else [])
  {
    if items != [] {
      assert (items + [x])[1..] == items[1..] + [x];
      CollectSnoc(items[1..], x, pick);
    } else {
      assert Collect([x], pick) == (if pick(x).Some? then [pick(x).value] else []) + Collect([], pick);
    }
  }

  /** Responses and metrics are exactly those of the records that take their branch, in input order. */
  lemma {:induction false} ExtractKeepsOrder(items: seq<Item>, parse: Parser)
    requires Extract(items, parse).Ok?
    ensures Extract(items, parse).value.responses == Collect(items, ResponseOf)
    ensures Extract(items, parse).value.metrics == Collect(items, MetricsOf)
    decreases |items|
  {
    if items != [] {
      var p, x := items[..|items| - 1], items[|items| - 1];
      assert items == p + [x];
      ListsStep(p, x, parse);
      ExtractKeepsOrder(p, parse);
      CollectSnoc(p, x, ResponseOf);
      CollectSnoc(p, x, MetricsOf);
    }
  }

  /** One more record changes the sections only as `Absorb` says. */
  lemma ExtractSnoc(p: seq<Item>, x: Item, parse: Parser)
    requires Extract(p + [x], parse).Ok?
    ensures Extract(p, parse).Ok?
    ensures TextOf(x).None? ==> Extract(p + [x], parse) == Extract(p, parse)
    ensures TextOf(x).Some? ==> TextOf(x).value.Str?
    ensures TextOf(x).Some? ==>
      Extract(p + [x], parse).value == Absorb(Extract(p, parse).value, TextOf(x).value.s, parse)
  {
    assert (p + [x])[..|p|] == p;
  }

  /** The status after one more record. */
  lemma StatusStep(p: seq<Item>, x: Item, parse: Parser)
    requires Extract(p + [x], parse).Ok?
    ensures Extract(p, parse).Ok?
    ensures Extract(p + [x], parse).value.status ==
      if TextOfKind(x, StatusKind).Some? then Some(CleanText(TextOfKind(x, StatusKind).value))
      else Extract(p, parse).value.status
  {
    ExtractSnoc(p, x, parse);
  }

  /** The responses and metrics after one more record. */
  lemma ListsStep(p: seq<Item>, x: Item, parse: Parser)
    requires Extract(p + [x], parse).Ok?
    ensures Extract(p, parse).Ok?
    ensures Extract(p + [x], parse).value.responses == Extract(p, parse).value.responses
      + (if ResponseOf(x).Some? then [ResponseOf(x).value] else [])
    ensures Extract(p + [x], parse).value.metrics == Extract(p, parse).value.metrics
      + (if MetricsOf(x).Some? then [MetricsOf(x).value] else [])
  {
    ExtractSnoc(p, x, parse);
  }

  /** The knowledge after one more record that does not take the knowledge branch. */
  lemma KnowledgeStep(p: seq<Item>, x: Item, parse: Parser)
    requires Extract(p + [x], parse).Ok?
    requires TextOfKind(x, KnowledgeKind).None?
    ensures Extract(p, parse).Ok?
    ensures Extract(p + [x], parse).value.knowledge == Extract(p, parse).value.knowledge
  {
    ExtractSnoc(p, x, parse);
  }

  /** Record `k` is a status record and no later record is. */
  predicate LastStatusAt(items: seq<Item>, k: int) {
    && 0 <= k < |items|
    && TextOfKind(items[k], StatusKind).Some?
    && forall j :: k < j < |items| ==> TextOfKind(items[j], StatusKind).None?
  }

  /** The status is the cleaned text of the last status record, and None when there is none. */
  lemma {:induction false} StatusIsLast(items: seq<Item>, parse: Parser)
    requires Extract(items, parse).Ok?
    ensures Extract(items, parse).value.status.None?
        <==> forall k :: 0 <= k < |items| ==> TextOfKind(items[k], StatusKind).None?
    ensures forall k :: LastStatusAt(items, k) ==>
        Extract(items, parse).value.status == Some(CleanText(TextOfKind(items[k], StatusKind).value))
    decreases |items|
  {
    if items != [] {
      var p, x := items[..|items| - 1], items[|items| - 1];
      assert items == p + [x];
      StatusStep(p, x, parse);
      StatusIsLast(p, parse);
      if TextOfKind(x, StatusKind).None? {
        NoStatusStep(p, x);
      } else {
        StatusLastStep(p, x);
      }
    }
  }

  /** A last record that is not a status record changes neither which record is the last status nor whether there is one. */
  lemma NoStatusStep(p: seq<Item>, x: Item)
    requires TextOfKind(x, StatusKind).None?
    ensures forall k :: LastStatusAt(p + [x], k) ==> LastStatusAt(p, k)
    ensures (forall k :: 0 <= k < |p| ==> TextOfKind(p[k], StatusKind).None?)
        <==> (forall k :: 0 <= k < |p + [x]| ==> TextOfKind((p + [x])[k], StatusKind).None?)
  {
    var items := p + [x];
    forall k | LastStatusAt(items, k) ensures LastStatusAt(p, k) {
      forall j | k < j < |p| ensures TextOfKind(p[j], StatusKind).None? {
        assert p[j] == items[j];
      }
    }
    assert forall k :: 0 <= k < |p| ==> items[k] == p[k];
    assert items[|p|] == x;
  }

  /** A last record that is a status record is the last status. */
  lemma StatusLastStep(p: seq<Item>, x: Item)
    requires TextOfKind(x, StatusKind).Some?
    ensures LastStatusAt(p + [x], |p|)
    ensures forall k :: k != |p| ==> !LastStatusAt(p + [x], k)
  {
    var items := p + [x];
    assert items[|p|] == x;
    forall k | k != |p| ensures !LastStatusAt(items, k) {
      if 0 <= k < |p| {
        assert TextOfKind(items[|p|], StatusKind).Some?;
      }
    }
  }

  /** Every response collected from the records names an agent. */
  lemma {:induction false} CollectedResponseNames(items: seq<Item>)
    ensures forall k :: 0 <= k < |Collect(items, ResponseOf)| ==> IsAgentName(Collect(items, ResponseOf)[k].agentId)
  {
    if items != [] {
      var x := items[0];
      var head := if ResponseOf(x).Some? then [ResponseOf(x).value] else [];
      var rest := Collect(items[1..], ResponseOf);
      assert Collect(items, ResponseOf) == head + rest;
      CollectedResponseNames(items[1..]);
      if ResponseOf(x).Some? {
        ResponseOfNamed(x);
      }
    }
  }

  lemma ResponseOfNamed(x: Item)
    requires ResponseOf(x).Some?
    ensures IsAgentName(ResponseOf(x).value.agentId)
  {
    var t := TextOfKind(x, ResponseKind).value;
    assert Classify(t) == ResponseKind;
    AgentIdOfMatch(t, "Response:");
  }

  /** Every metrics entry collected from the records names an agent. */
  lemma {:induction false} CollectedMetricsNames(items: seq<Item>)
    ensures forall k :: 0 <= k < |Collect(items, MetricsOf)| ==> IsAgentName(Collect(items, MetricsOf)[k].agentId)
  {
    if items != [] {
      var x := items[0];
      var head := if MetricsOf(x).Some? then [MetricsOf(x).value] else [];
      var rest := Collect(items[1..], MetricsOf);
      assert Collect(items, MetricsOf) == head + rest;
      CollectedMetricsNames(items[1..]);
      if MetricsOf(x).Some? {
        MetricsOfNamed(x);
      }
    }
  }

  lemma MetricsOfNamed(x: Item)
    requires MetricsOf(x).Some?
    ensures IsAgentName(MetricsOf(x).value.agentId)
  {
    var t := TextOfKind(x, MetricsKind).value;
    assert Classify(t) == MetricsKind;
    AgentIdOfMatch(t, "Metrics:");
  }

  /** Every extracted response and metrics entry carries a real agent name. */
  lemma AgentNamesExtracted(items: seq<Item>, parse: Parser)
    requires Extract(items, parse).Ok?
    ensures forall k :: 0 <= k < |Extract(items, parse).value.responses| ==>
      IsAgentName(Extract(items, parse).value.responses[k].agentId)
    ensures forall k :: 0 <= k < |Extract(items, parse).value.metrics| ==>
      IsAgentName(Extract(items, parse).value.metrics[k].agentId)
  {
    ExtractKeepsOrder(items, parse);
    CollectedResponseNames(items);
    CollectedMetricsNames(items);
  }

  /** With no record mentioning 'Collective Knowledge:' in its branch, the knowledge list stays empty. */
  lemma {:induction false} KnowledgeNeedsMarker(items: seq<Item>, parse: Parser)
    requires Extract(items, parse).Ok?
    requires forall k :: 0 <= k < |items| ==> TextOfKind(items[k], KnowledgeKind).None?
    ensures Extract(items, parse).value.knowledge == []
    decreases |items|
  {
    if items != [] {
      var p, x := items[..|items| - 1], items[|items| - 1];
      assert items == p + [x];
      KnowledgeStep(p, x, parse);
      forall k | 0 <= k < |p| ensures TextOfKind(p[k], KnowledgeKind).None? {
        assert p[k] == items[k];
      }
      KnowledgeNeedsMarker(p, parse);
    }
  }

  // ---------------------------------------------------------------------------
  // Slicing out a response and a metrics block
  // ---------------------------------------------------------------------------

  /** A keyword whose only ':' is its last character is first found right after a prefix that does not contain it. */
  lemma {:induction false} FindAfterPrefix(pre: string, kw: string, rest: string)
    requires ColonKeyword(kw)
    requires !Contains(pre, kw)
    ensures Find(pre + kw + rest, kw) == |pre|
  {
    var t := pre + kw + rest;
    assert t[|pre|..|pre| + |kw|] == kw;
    assert OccursAt(t, kw, |pre|);
    var f := Find(t, kw);
    if f != |pre| {
      assert f < |pre|;
      if f + |kw| <= |pre| {
        assert t[f..f + |kw|] == pre[f..f + |kw|];
        assert OccursAt(pre, kw, f);
        assert false;
      } else {
        assert false;
      }
    }
  }

  /** A keyword like 'Response:' whose only ':' is its last character. */
  predicate ColonKeyword(kw: string) {
    |kw| > 0 && kw[|kw| - 1] == ':' && ':' !in kw[..|kw| - 1]
  }

  lemma KeywordsAreColonKeywords()
    ensures ColonKeyword("Response:") && ColonKeyword("\n\nMetrics:") && ColonKeyword("Metrics:")
  {
    assert "Response:"[..8] == "Response";
    assert "\n\nMetrics:"[..9] == "\n\nMetrics";
    assert "Metrics:"[..7] == "Metrics";
  }

  /** The text after the first occurrence of a colon keyword that follows a prefix without it. */
  lemma {:induction false} TailAfterKeyword(pre: string, kw: string, body: string, t: string)
    requires ColonKeyword(kw) && !Contains(pre, kw) && t == pre + kw + body
    ensures Find(t, kw) == |pre|
    ensures Slice(t, Find(t, kw) + |kw|, |t|) == body
  {
    FindAfterPrefix(pre, kw, body);
    assert t[|pre| + |kw|..] == body;
  }

  /** The text between the first occurrence of one colon keyword and the first occurrence of a second one after it. */
  lemma {:induction false} BodyBetweenKeywords(pre: string, kw: string, body: string, kw2: string, post: string, t: string)
    requires ColonKeyword(kw) && ColonKeyword(kw2)
    requires !Contains(pre, kw) && !Contains(pre + kw + body, kw2)
    requires t == pre + kw + body + kw2 + post
    ensures Find(t, kw) == |pre| && Find(t, kw2) == |pre| + |kw| + |body|
    ensures Slice(t, Find(t, kw) + |kw|, Find(t, kw2)) == body
  {
    var head := pre + kw + body;
    var tail := body + kw2 + post;
    assert t == head + kw2 + post;
    assert t == pre + kw + tail;
    FindAfterPrefix(pre, kw, tail);
    FindAfterPrefix(head, kw2, post);
    assert t[..|head|] == head;
    assert head[|pre| + |kw|..] == body;
  }

  /** The response is the stripped, cleaned text between the first 'Response:' and the first following blank line before 'Metrics:'. */
  lemma ResponseBetween(pre: string, body: string, post: string)
    requires !Contains(pre, "Response:")
    requires !Contains(pre + "Response:" + body, "\n\nMetrics:")
    ensures ResponseBody(pre + "Response:" + body + "\n\nMetrics:" + post) == CleanText(Strip(body))
  {
    KeywordsAreColonKeywords();
    var t := pre + "Response:" + body + "\n\nMetrics:" + post;
    BodyBetweenKeywords(pre, "Response:", body, "\n\nMetrics:", post, t);
  }

  /** Without a later '\n\nMetrics:', the response runs to the end of the text. */
  lemma ResponseToEnd(pre: string, body: string)
    requires !Contains(pre, "Response:")
    requires !Contains(pre + "Response:" + body, "\n\nMetrics:")
    ensures ResponseBody(pre + "Response:" + body) == CleanText(Strip(body))
  {
    KeywordsAreColonKeywords();
    var t := pre + "Response:" + body;
    TailAfterKeyword(pre, "Response:", body, t);
  }

  /** The metrics block is the stripped, cleaned text after the first 'Metrics:'. */
  lemma MetricsAfter(pre: string, body: string)
    requires !Contains(pre, "Metrics:")
    ensures MetricsBody(pre + "Metrics:" + body) == CleanText(Strip(body))
  {
    KeywordsAreColonKeywords();
    var t := pre + "Metrics:" + body;
    TailAfterKeyword(pre, "Metrics:", body, t);
  }
}
