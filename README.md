# Swarm output cleaning, notebook conversion and the e-commerce database server, in Dafny

This project models three parts of a Python agent-tutorial repository and
proves properties about them.

- **Swarm output utilities** (`src/swarm_utils.py`). These cover:
  - cleaning agent output text by removing ANSI colour codes, whether raw or
    written out as `\u001b`, and replacing box-drawing characters with ASCII;
  - cleaning every record of a swarm output list;
  - sorting the records into the swarm status, the agent responses, the
    agent metrics and the collective knowledge;
  - formatting those sections as a plain-text summary.
- **Markdown-to-notebook conversion** (`convert_to_jupyter.py`).
  `create_jupyter_notebook` cuts a Markdown document at its fence lines
  (three backticks) into Markdown and code cells. It then wraps the cells
  in a notebook record with the fixed Python 3 metadata and format 4.4.
- **The e-commerce database server** (`src/mcp_servers/ecommerce_db_server.py`).
  This covers:
  - the global connection, which starts empty and is seeded by
    `initialize_database` at startup or lazily by the first tool call;
  - the tools that read and update the database: product search with
    SQLite `LIKE`, lookups by id and by e-mail, order details with their
    item lines, stock checks, stock updates and table statistics.

Modules:

| file | module | what it holds |
|---|---|---|
| `wrappers.dfy` | `Wrappers` | `Option` and `Result` |
| `pystr.dfy` | `PyStr` | the Python `str` operations the code relies on: `strip`, `find`, slicing with negative and out-of-range bounds, `join`, `split`, `replace`, repetition |
| `swarm_clean.dfy` | `SwarmClean` | `clean_swarm_text` and `clean_swarm_output` |
| `swarm_extract.dfy` | `SwarmExtract` | `extract_swarm_content` and the two regular-expression searches it uses |
| `swarm_summary.dfy` | `SwarmSummary` | `format_swarm_summary` |
| `notebook.dfy` | `Notebook` | `create_jupyter_notebook`, plus a reference definition that cuts the document at its fences |
| `sql_like.dfy` | `SqlLike` | SQLite's `LIKE` operator |
| `inventory.dfy` | `Inventory` | the four tables, the seed rows, and the queries and the stock update as functions on table values |
| `ecommerce_db.dfy` | `EcommerceDb` | the server, a class with the connection as its field, plus one method per tool |

Code that works step by step is modelled as methods with loops, each
proved equal to a specification function. This covers the character-table
loop, the record loops, the line loop of the notebook converter, the
summary builder, the database seeding and the read-modify-write stock
update. Properties of the specification functions are proved as lemmas.

Two things the model makes explicit:

- A swarm record whose `text` is not a string makes
  `'Swarm Status' in text` raise `TypeError`. The model returns an error
  value in that case.
- `json.loads` is a function parameter: it returns either the parsed list
  or None when parsing raises.

`if not conn` is modelled as "no connection has been opened yet", since an
open `sqlite3` connection is always truthy. Query results are modelled in
table insertion order, which is the order SQLite returns these un-ordered
queries in for these tables.

## Model

| member | source | states |
|---|---|---|
| `SwarmClean.RunAtIsRegexMatch` | src/swarm_utils.py:28-29 | The scanner finds a colour-code run at a position exactly when `intro[0-9;]*m` matches there, and the run ends where the match ends. |
| `SwarmClean.StripKeepsOrder` | src/swarm_utils.py:28-29 | Deleting colour-code runs only removes characters: the result is a subsequence of the input, in order. |
| `SwarmClean.StripWithoutIntro` | src/swarm_utils.py:28-29 | Text in which the introducer never occurs passes through the substitution unchanged. |
| `SwarmClean.KeepFirst` | src/swarm_utils.py:28-29 | Putting the same character in front of both strings keeps one a subsequence of the other. |
| `SwarmClean.SkipRunStep` | src/swarm_utils.py:28-29 | Deleting a colour-code run at a position keeps the result a subsequence of the text from there. |
| `SwarmClean.KeepCharStep` | src/swarm_utils.py:28-29 | Keeping a character that starts no run keeps the result a subsequence of the text from there. |
| `SwarmClean.DirectImages` | src/swarm_utils.py:33-39 | Every character of the first group of the table is a box-drawing character and maps to its ASCII image. |
| `SwarmClean.EscapedImages` | src/swarm_utils.py:40-51 | The same holds for the second group of the table. |
| `SwarmClean.EscapedKeys` | src/swarm_utils.py:40-51 | Every key of the second group is a box-drawing character. |
| `SwarmClean.EscapedValues` | src/swarm_utils.py:40-51 | Every key of the second group maps to its ASCII image. |
| `SwarmClean.KeyImages` | src/swarm_utils.py:32-52 | Every key of the merged table is a box-drawing character and maps to its ASCII image: `-` for horizontal lines, a vertical bar for vertical lines, `=` for double horizontals, `+` for corners and junctions. |
| `SwarmClean.BoxCharsAreKeys` | src/swarm_utils.py:32-52 | The table covers the whole set: every box-drawing character is a key. |
| `SwarmClean.SingleLines` | src/swarm_utils.py:34-39 | The single-line characters and the four rounded corners are written in the first group. |
| `SwarmClean.DoubleLinesLow` | src/swarm_utils.py:44-47 | U+2550 to U+255F are all keys of the second group. |
| `SwarmClean.DoubleLinesHigh` | src/swarm_utils.py:48-51 | U+2560 to U+2570 are all keys of the second group. |
| `SwarmClean.BoxMap` | src/swarm_utils.py:54-55 | Replacing through the table keeps the length, maps each character to its image, and leaves no box-drawing character. |
| `SwarmClean.BoxMapIdempotent` | src/swarm_utils.py:54-55 | Replacing a second time changes nothing. |
| `SwarmClean.ImagesAreNotKeys` | src/swarm_utils.py:32-52 | No replacement character is itself a key of the table, so the order of the replacements does not matter. |
| `SwarmClean.ReplaceStep` | src/swarm_utils.py:54-55 | One more `str.replace` keeps the loop state, for any table whose values are not keys: handled keys are replaced, the others are untouched. |
| `SwarmClean.AllReplaced` | src/swarm_utils.py:54-55 | Once every entry is handled, each character has become its ASCII image. |
| `SwarmClean.ReplaceBoxChars` | src/swarm_utils.py:54-55 | The replacement loop, with the entries taken in any order, gives `BoxMap` of its input. |
| `SwarmClean.CleanSwarmText` | src/swarm_utils.py:14-57 | A non-string comes back unchanged. For a string, the per-entry replacement loop gives `CleanValue` whatever order the entries come in. The result is no longer than the input and contains no box-drawing character. |
| `SwarmClean.CleanItem` | src/swarm_utils.py:72-78 | A dict with `text` gets a copy with the same keys, with `text` cleaned and every other field kept. Any other entry is kept as it is. |
| `SwarmClean.CleanSwarmOutput` | src/swarm_utils.py:60-80 | The new list has the same length and order, and each entry is cleaned as `CleanItem` states. |
| `SwarmExtract.AgentThenIsSearch` | src/swarm_utils.py:109-124 | For a keyword without a newline, the scanner decides exactly whether `Agent agent_\d+.*kw` has a match. That means a tag with at least one digit, then the keyword later on the same line. |
| `SwarmExtract.AgentThenFromIsSearch` | src/swarm_utils.py:109-124 | The same, for a scan from any start position. |
| `SwarmExtract.LineHitMatches` | src/swarm_utils.py:109 | A keyword found on the line after a tag gives a match of the regular expression. |
| `SwarmExtract.MatchOnLine` | src/swarm_utils.py:109 | A match with the tag at a position lies on that tag's line. |
| `SwarmExtract.LineSearchAt` | src/swarm_utils.py:109 | For a tag at a position, the keyword is on its line exactly when the regular expression matches with that tag. |
| `SwarmExtract.MatchHereOrLater` | src/swarm_utils.py:109 | A match with the tag at or after a position has it at that position or after the next one. |
| `SwarmExtract.TaggedWhenSearchMatches` | src/swarm_utils.py:109-112 | When the branch search succeeds, a tag occurs in the text. |
| `SwarmExtract.FirstAgentFrom` | src/swarm_utils.py:111-112 | The result is the leftmost position of `Agent agent_\d`, or None when there is none. |
| `SwarmExtract.AgentIdOfTagged` | src/swarm_utils.py:111-112 | Whenever the tag occurs, group 1 is a real agent name (`agent_` followed by digits), never `unknown`. |
| `SwarmExtract.AgentIdOfMatch` | src/swarm_utils.py:109-126 | In the response and metrics branches, the `unknown` fallback cannot be reached. |
| `SwarmExtract.CleanKnowledge` | src/swarm_utils.py:144-146 | The list keeps its length and each entry keeps its keys. `content` is cleaned; every other field is kept. |
| `SwarmExtract.CleanKnowledgeEntries` | src/swarm_utils.py:144-146 | The in-place loop over the entries produces `CleanKnowledge`. |
| `SwarmExtract.AbsorbText` | src/swarm_utils.py:102-149 | The if/elif chain for one string text updates the sections as `Absorb` specifies. |
| `SwarmExtract.ExtractSwarmContent` | src/swarm_utils.py:83-151 | The loop over the records computes `Extract`. It stops with the `TypeError` at the first record whose text is not a string. |
| `SwarmExtract.ExtractPrefixStep` | src/swarm_utils.py:100-149 | One more record leaves the sections unchanged without `text`, applies its branch to a string `text`, and raises otherwise. |
| `SwarmExtract.ErrSticks` | src/swarm_utils.py:100-105 | Once a record raises, the records after it do not change the outcome. |
| `SwarmExtract.ExtractFailsIff` | src/swarm_utils.py:101-105 | Extraction fails exactly when some record has a `text` that is not a string. |
| `SwarmExtract.ErrStep` | src/swarm_utils.py:100-105 | One more record fails the run exactly when the run had failed or the record's `text` is not a string. |
| `SwarmExtract.NonStringSnoc` | src/swarm_utils.py:101-105 | A record with a non-string `text` is among the records plus one exactly when it is among the records or is the new one. |
| `SwarmExtract.ExtractSnoc` | src/swarm_utils.py:100-149 | One more record changes the sections only as its branch says. A record without `text` changes nothing. |
| `SwarmExtract.StatusStep` | src/swarm_utils.py:105-106 | One more record replaces the status exactly when it takes the status branch. |
| `SwarmExtract.ListsStep` | src/swarm_utils.py:109-134 | One more record appends at most one response and at most one metrics entry, each at the end. |
| `SwarmExtract.KnowledgeStep` | src/swarm_utils.py:137-147 | A record outside the knowledge branch leaves the knowledge list unchanged. |
| `SwarmExtract.CollectSnoc` | src/swarm_utils.py:118-131 | Collecting over one more record appends that record's value, if it has one. |
| `SwarmExtract.ExtractKeepsOrder` | src/swarm_utils.py:108-134 | The responses and metrics are exactly those of the records that take their branch, in input order. |
| `SwarmExtract.StatusIsLast` | src/swarm_utils.py:105-106 | The status is None exactly when no record takes the status branch. Otherwise it is the cleaned text of the last record that does. |
| `SwarmExtract.NoStatusStep` | src/swarm_utils.py:105-106 | A new record outside the status branch changes neither which record is the last status one nor whether there is one. |
| `SwarmExtract.StatusLastStep` | src/swarm_utils.py:105-106 | A new record in the status branch is the last status record, and no other record is. |
| `SwarmExtract.ResponseOfNamed` | src/swarm_utils.py:109-121 | A response record's entry names an agent. |
| `SwarmExtract.MetricsOfNamed` | src/swarm_utils.py:124-134 | A metrics record's entry names an agent. |
| `SwarmExtract.CollectedResponseNames` | src/swarm_utils.py:109-121 | Every collected response names an agent. |
| `SwarmExtract.CollectedMetricsNames` | src/swarm_utils.py:124-134 | Every collected metrics entry names an agent. |
| `SwarmExtract.AgentNamesExtracted` | src/swarm_utils.py:108-134 | Every extracted response and metrics entry carries a real agent name. |
| `SwarmExtract.KnowledgeNeedsMarker` | src/swarm_utils.py:137-147 | Without a record in the knowledge branch, the knowledge list stays empty. |
| `SwarmExtract.FindAfterPrefix` | src/swarm_utils.py:114 | A keyword whose only `:` is its last character is found right after a prefix that does not contain it. |
| `SwarmExtract.KeywordsAreColonKeywords` | src/swarm_utils.py:114-128 | `Response:`, `\n\nMetrics:` and `Metrics:` each contain `:` only as their last character. |
| `SwarmExtract.TailAfterKeyword` | src/swarm_utils.py:128-129 | The slice after the first occurrence of such a keyword is the text that follows it. |
| `SwarmExtract.BodyBetweenKeywords` | src/swarm_utils.py:114-116 | The slice between the first occurrence of one such keyword and the first later occurrence of a second is the text between them. |
| `SwarmExtract.ResponseBetween` | src/swarm_utils.py:114-120 | The response body is the stripped, cleaned text between the first `Response:` and the `\n\nMetrics:` that follows it. |
| `SwarmExtract.ResponseToEnd` | src/swarm_utils.py:114-120 | Without `\n\nMetrics:`, the response runs to the end of the text. |
| `SwarmExtract.MetricsAfter` | src/swarm_utils.py:128-133 | The metrics body is the stripped, cleaned text after the first `Metrics:`. |
| `SwarmSummary.Shown` | src/swarm_utils.py:181-185 | A response that fits is shown unchanged. A longer one is `text[:max_response_length] + "..."`: its first `max_response_length` characters for a non-negative bound, or all but the last `-max_response_length` characters (none when that is negative) for a negative bound, as Python slicing gives. It is at most `max_response_length` + 3 characters long. |
| `SwarmSummary.ResponseLines` | src/swarm_utils.py:179-185 | Each response adds two lines. |
| `SwarmSummary.MetricLines` | src/swarm_utils.py:191-193 | Each metrics entry adds two lines. |
| `SwarmSummary.ResponseLinesSnoc` | src/swarm_utils.py:179-185 | One more response adds its agent line and its shown text at the end. |
| `SwarmSummary.MetricLinesSnoc` | src/swarm_utils.py:191-193 | One more metrics entry adds its agent line and its text at the end. |
| `SwarmSummary.AppendResponse` | src/swarm_utils.py:180-185 | One iteration appends `\n<agent_id>:` and then the text, cut with `...` when it is longer than the limit. |
| `SwarmSummary.AppendResponseLines` | src/swarm_utils.py:179-185 | The loop appends two lines per response, in order. |
| `SwarmSummary.AppendMetricLines` | src/swarm_utils.py:191-193 | The loop appends two lines per metrics entry, in order. |
| `SwarmSummary.AppendResponses` | src/swarm_utils.py:175-185 | The loop appends the responses block, or nothing when the list is empty. |
| `SwarmSummary.AppendMetrics` | src/swarm_utils.py:187-193 | The loop appends the metrics block, or nothing when the list is empty. |
| `SwarmSummary.FormatSwarmSummary` | src/swarm_utils.py:154-195 | The appended lines, joined with newlines, give `Summary`. `max_response_length` defaults to 500 (`DefaultMaxResponseLength`). |
| `SwarmSummary.ResponseEntryAt` | src/swarm_utils.py:179-185 | Response k occupies lines 2k and 2k+1 of its block: `\n<agent_id>:` and then the shown text. |
| `SwarmSummary.MetricEntryAt` | src/swarm_utils.py:191-193 | Metrics entry k occupies lines 2k and 2k+1 of its block. |
| `SwarmSummary.SummaryLineCount` | src/swarm_utils.py:165-193 | The line count is 2, plus 3 for a non-empty status, plus 2 + 2n for each non-empty list. |
| `SwarmSummary.SummaryStartsWithHeader` | src/swarm_utils.py:167-168 | The summary always begins with the title and the `=` rule. |
| `SwarmSummary.SummaryBareIff` | src/swarm_utils.py:170-195 | The summary is the bare header exactly when there is no status, no response and no metrics entry to show. |
| `Notebook.CreateNotebook` | convert_to_jupyter.py:4-95 | The line loop, the final flush and the notebook record give `NotebookOf`: the cells, the fixed metadata, and format 4, minor version 4. |
| `Notebook.FeedLine` | convert_to_jupyter.py:16-48 | One iteration of the loop changes the state as `Feed` says: a fence closes or opens a block, any other line is collected. |
| `Notebook.FlushCell` | convert_to_jupyter.py:53-69 | After the loop, the collected lines become one more cell of the open kind unless they are blank. |
| `Notebook.RunSnoc` | convert_to_jupyter.py:14-50 | Running the loop over one more line is one more `Feed` step. |
| `Notebook.FeedFence` | convert_to_jupyter.py:19-46 | A fence closes the open stretch. Its cells join the closed ones, and the block kind flips. |
| `Notebook.RunStepFence` | convert_to_jupyter.py:19-46 | After one more fence line, the loop state still matches the stretches. |
| `Notebook.RunStepPlain` | convert_to_jupyter.py:47-48 | After one more ordinary line, the loop state still matches the stretches. |
| `Notebook.SegmentsSnocFence` | convert_to_jupyter.py:19 | A fence at the end of the document opens a new, empty stretch. |
| `Notebook.SegmentsSnocPlain` | convert_to_jupyter.py:47-48 | Any other line joins the last stretch. |
| `Notebook.SegmentsCons` | convert_to_jupyter.py:19-48 | A fence in front opens a new first stretch; any other line joins the first stretch. |
| `Notebook.SnocFenceStep` | convert_to_jupyter.py:19 | The induction step for a fence at the end. |
| `Notebook.SnocPlainStep` | convert_to_jupyter.py:47-48 | The induction step for an ordinary line at the end. |
| `Notebook.SnocPlainBase` | convert_to_jupyter.py:47-48 | A document of one ordinary line is one stretch holding it. |
| `Notebook.SegmentsOfOne` | convert_to_jupyter.py:47-48 | A single non-fence line is a single stretch. |
| `Notebook.BoundaryThenSnoc` | convert_to_jupyter.py:19-48 | A new stretch in front and a line added to the last stretch commute. |
| `Notebook.LineThenSnoc` | convert_to_jupyter.py:47-48 | A line in front of the first stretch and a line added to the last stretch commute. |
| `Notebook.LineThenEmpty` | convert_to_jupyter.py:19-48 | A line in front of the first stretch and a new empty stretch at the end commute. |
| `Notebook.RunIsSegments` | convert_to_jupyter.py:14-50 | After any prefix, the loop state is given by the stretches between fences. The closed stretches have become cells, the last stretch is open, and a code block is open exactly when that stretch's number is odd. |
| `Notebook.CellsOfIsReference` | convert_to_jupyter.py:14-69 | The converter produces the reference cells. Odd stretches become code cells; even ones become Markdown cells unless they are blank. The last stretch gives a cell only when it is not blank. |
| `Notebook.SegmentsPartition` | convert_to_jupyter.py:14-50 | Cutting at the fences loses no other line, duplicates none and keeps their order. n fences give n + 1 stretches. |
| `Notebook.PartitionStep` | convert_to_jupyter.py:14-50 | One more line in front keeps the partition: the stretches still concatenate to the non-fence lines, one more per fence. |
| `Notebook.FlattenBoundary` | convert_to_jupyter.py:19 | An empty stretch adds no line. |
| `Notebook.FlattenLine` | convert_to_jupyter.py:47-48 | A line in front of the first stretch comes first in the concatenation. |
| `Notebook.FlattenCons` | convert_to_jupyter.py:14-50 | The concatenation is the first stretch followed by the rest. |
| `Notebook.SegmentsArePlain` | convert_to_jupyter.py:19-48 | No stretch holds a fence line. |
| `Notebook.PlainStep` | convert_to_jupyter.py:19-48 | A line without a newline put in front keeps every stretch free of fences and newlines. |
| `Notebook.ConsPlain` | convert_to_jupyter.py:47-48 | A plain line in front of plain lines gives plain lines. |
| `Notebook.SourceOfPlain` | convert_to_jupyter.py:22-28 | Joining newline-free lines and splitting again gives them back. An empty block gives one empty line. |
| `Notebook.ClosedCellsPlain` | convert_to_jupyter.py:20-46 | Cells built from plain stretches hold only plain lines. |
| `Notebook.NoFenceInCells` | convert_to_jupyter.py:4-69 | No cell of the notebook contains a fence line or a newline. |
| `Notebook.LinesGivePlainCells` | convert_to_jupyter.py:14-69 | Lines without newlines give cells that hold no fence line and no newline. |
| `Notebook.ClosedPrefixPlain` | convert_to_jupyter.py:20-46 | The cells of the closed stretches are plain when every stretch is. |
| `Notebook.FinalCellsPlain` | convert_to_jupyter.py:53-69 | The last cell, when there is one, is plain when its stretch is. |
| `Notebook.CellsPlainAppend` | convert_to_jupyter.py:23-69 | Appending plain cells to plain cells gives plain cells. |
| `Notebook.SegmentsWithoutFence` | convert_to_jupyter.py:14-48 | A document without fences is a single stretch. |
| `Notebook.NoFenceOneCell` | convert_to_jupyter.py:53-69 | A document without fence lines becomes a single Markdown cell with all its lines, or no cell at all when it is blank. |
| `Notebook.OneStretchCells` | convert_to_jupyter.py:53-69 | Lines without a fence give one Markdown cell, unless they are blank. |
| `Notebook.ClosedSegmentCellsCount` | convert_to_jupyter.py:20-46 | A closed stretch gives at most one cell. A code stretch always gives exactly one. |
| `Notebook.ClosedCellsCount` | convert_to_jupyter.py:14-50 | n closed stretches give between n/2 and n cells. |
| `SqlLike.Fold` | src/mcp_servers/ecommerce_db_server.py:113-122 | `LIKE` compares ASCII letters case-insensitively and leaves every other character unchanged. |
| `SqlLike.LikeAnything` | src/mcp_servers/ecommerce_db_server.py:113-122 | `%` alone matches every string. |
| `SqlLike.LikeLiteralPrefix` | src/mcp_servers/ecommerce_db_server.py:113-122 | A wildcard-free pattern prefix must match the front of the string, letter for letter up to case. |
| `SqlLike.LikeLeadingPercent` | src/mcp_servers/ecommerce_db_server.py:113-122 | A leading `%` lets the rest of the pattern match some suffix. |
| `SqlLike.LikeIsContains` | src/mcp_servers/ecommerce_db_server.py:113-122 | For a wildcard-free query q, `LIKE '%q%'` holds exactly when q occurs in the string, ignoring ASCII case. |
| `SqlLike.EmptyQueryMatchesAll` | src/mcp_servers/ecommerce_db_server.py:108 | The default empty query makes `%%`, which matches every string. |
| `Inventory.FindProduct` | src/mcp_servers/ecommerce_db_server.py:132-133 | The result is the first row with that id, or None exactly when no row has it. |
| `Inventory.GetProduct` | src/mcp_servers/ecommerce_db_server.py:126-134 | The result is a product row with that id, or None exactly when there is none. |
| `Inventory.FindCustomerBy` | src/mcp_servers/ecommerce_db_server.py:142-143 | The result is the first customer row that matches, or None exactly when none does. |
| `Inventory.GetCustomer` | src/mcp_servers/ecommerce_db_server.py:136-144 | The result is a customer row with that e-mail, or None exactly when there is none. |
| `Inventory.CustomerById` | src/mcp_servers/ecommerce_db_server.py:168-174 | The join of the order with its customer finds the customer with that id, or fails exactly when there is none. |
| `Inventory.FindOrder` | src/mcp_servers/ecommerce_db_server.py:168-174 | The result is the order row with that id, or None exactly when there is none. |
| `Inventory.ItemsOf` | src/mcp_servers/ecommerce_db_server.py:183-188 | The result holds exactly the item rows of that order, each as many times as it occurs in the table. |
| `Inventory.JoinProducts` | src/mcp_servers/ecommerce_db_server.py:183-188 | Every line comes from an item row, and there are at most as many lines as rows. Each line's product name and category are those of a product whose id is the item's `product_id`. |
| `Inventory.GetOrderDetails` | src/mcp_servers/ecommerce_db_server.py:162-192 | The result is None exactly when the order or its customer is missing. Otherwise it is that order, with the name and email of a customer whose id is the order's `customer_id`, and every line comes from one of its items. |
| `Inventory.JoinKeepsAll` | src/mcp_servers/ecommerce_db_server.py:183-190 | When every item refers to an existing product, the join keeps every item, in order. |
| `Inventory.OrderDetailsListAllItems` | src/mcp_servers/ecommerce_db_server.py:162-192 | In a consistent database, the details list exactly the order's item rows, in table order. |
| `Inventory.Search` | src/mcp_servers/ecommerce_db_server.py:107-124 | A product is returned exactly when it is a row the `WHERE` clause admits, each admitted row as many times as it occurs in the table. |
| `Inventory.SearchByCategory` | src/mcp_servers/ecommerce_db_server.py:113-117 | With a category and a wildcard-free query, the result is exactly the products of that category whose name contains the query, ignoring ASCII case. |
| `Inventory.SearchByText` | src/mcp_servers/ecommerce_db_server.py:118-122 | Without a category, the result is exactly the products whose name or description contains the query. |
| `Inventory.SearchEverything` | src/mcp_servers/ecommerce_db_server.py:107-124 | The default search returns every product, in order. |
| `Inventory.CheckStock` | src/mcp_servers/ecommerce_db_server.py:216-233 | A missing product gives `available` false with "Product not found". Otherwise the report shows the product's id, name and stock, and `available` is true exactly when the stock is positive. |
| `Inventory.ApplyStockUpdate` | src/mcp_servers/ecommerce_db_server.py:235-265 | A missing product gives "Product not found". A negative result gives "Insufficient stock" and nothing changes. Otherwise only that product's stock changes, to the old stock plus the change, and the reply carries both values. |
| `Inventory.StockUpdateKeepsConsistent` | src/mcp_servers/ecommerce_db_server.py:235-265 | A stock update keeps every key and foreign key, and no stock ever becomes negative. |
| `Inventory.FindProductSameIds` | src/mcp_servers/ecommerce_db_server.py:242 | A lookup by id finds the same row after a stock change. |
| `Inventory.CheckStockAfterUpdate` | src/mcp_servers/ecommerce_db_server.py:235-265 | After a successful update, `check_stock` reports the new stock and availability. |
| `Inventory.CheckStockOthersUnchanged` | src/mcp_servers/ecommerce_db_server.py:254-258 | An update leaves every other product's stock report unchanged. |
| `Inventory.StockUpdateUndo` | src/mcp_servers/ecommerce_db_server.py:235-265 | In a consistent database, the opposite change undoes a successful update, with the two stock values swapped in the reply. |
| `Inventory.CategoriesBound` | src/mcp_servers/ecommerce_db_server.py:281-282 | There are never more distinct categories than products. |
| `Inventory.DatabaseStats` | src/mcp_servers/ecommerce_db_server.py:267-287 | There are at most as many categories as products, and at least one category when there is a product. |
| `Inventory.SeedProductsListed` | src/mcp_servers/ecommerce_db_server.py:63-76 | The seed has 10 products with ids 1 to 10 in listed order, and the listed stocks. |
| `Inventory.SeedCategories` | src/mcp_servers/ecommerce_db_server.py:63-76 | The seeded products fall into exactly four categories. |
| `Inventory.SeedStats` | src/mcp_servers/ecommerce_db_server.py:267-287 | On the seeded database the statistics are 10 products, 4 customers, 3 orders, 5 order items and 4 categories. |
| `Inventory.SeedConsistent` | src/mcp_servers/ecommerce_db_server.py:18-103 | The seed satisfies every primary key, the unique e-mail and every foreign key, and has no negative stock. |
| `Inventory.SeedIds` | src/mcp_servers/ecommerce_db_server.py:62-102 | The seed rows of every table are numbered 1, 2, … in order. |
| `Inventory.SeedEmails` | src/mcp_servers/ecommerce_db_server.py:78-86 | The four seed customers have distinct e-mails. |
| `Inventory.SeedReferences` | src/mcp_servers/ecommerce_db_server.py:88-102 | Every seed order names an existing customer; every seed item names an existing order and product. |
| `Inventory.SeedStocks` | src/mcp_servers/ecommerce_db_server.py:63-76 | No seed product has a negative stock. |
| `Inventory.NumberedConsistent` | src/mcp_servers/ecommerce_db_server.py:18-103 | Tables numbered 1, 2, … with distinct e-mails, no negative stock and only references to existing rows satisfy every key and foreign key. |
| `EcommerceDb.Opened` | src/mcp_servers/ecommerce_db_server.py:110-111 | A tool works on the open database, or on a freshly seeded one when none is open. |
| `EcommerceDb.Server.constructor` | src/mcp_servers/ecommerce_db_server.py:16 | The server starts without a connection. |
| `EcommerceDb.Server.InitializeDatabase` | src/mcp_servers/ecommerce_db_server.py:18-103 | The insert loops give each row the next autoincrement id. They produce exactly the seed tables, which are consistent. |
| `EcommerceDb.Server.Connect` | src/mcp_servers/ecommerce_db_server.py:110-111 | The database is seeded only when no connection is open. An open one is reused unchanged. |
| `EcommerceDb.Server.SearchProducts` | src/mcp_servers/ecommerce_db_server.py:107-124 | The result is `Search` on the opened database, which is otherwise unchanged. |
| `EcommerceDb.Server.GetProductTool` | src/mcp_servers/ecommerce_db_server.py:126-134 | The result is `GetProduct` on the opened database: None exactly when no product has that id. |
| `EcommerceDb.Server.GetCustomerTool` | src/mcp_servers/ecommerce_db_server.py:136-144 | The result is `GetCustomer` on the opened database. |
| `EcommerceDb.Server.GetOrderDetailsTool` | src/mcp_servers/ecommerce_db_server.py:162-192 | The result is `GetOrderDetails` on the opened database, with one line per item row of the order. |
| `EcommerceDb.Server.CheckStockTool` | src/mcp_servers/ecommerce_db_server.py:216-233 | The result is `CheckStock` on the opened database. A reported stock is never negative. |
| `EcommerceDb.Server.UpdateStock` | src/mcp_servers/ecommerce_db_server.py:235-265 | The read, the check and the write give the tables and the reply `ApplyStockUpdate` specifies. The database stays consistent. |
| `EcommerceDb.Server.GetDatabaseStats` | src/mcp_servers/ecommerce_db_server.py:267-287 | The result is `DatabaseStats` on the opened database. The first call on a fresh server reports 10, 4, 3, 5 and 4. |

## Left out

- Input and output are not modelled: file reading and writing, `json.dump` of the notebook, the `print` calls, and the MCP server transport.
- `json.loads` is a function parameter. Its parsed result is a list of JSON objects, and any exception it raises becomes None.
- A knowledge entry that is not an object is not modelled. Python's `'content' in item` then means a substring test or list membership, or raises.
- JSON values are limited to strings, integers, booleans and null. A `text` field holding a list or an object is not modelled, and neither are floating-point numbers.
- `\d` in the agent searches is read as the ASCII digits only. Python also accepts other Unicode decimal digits.
- In `create_jupyter_notebook`, the `code_language` taken from an opening fence is never used, so it is not modelled.
- `save_cleaned_swarm_output` and `display_swarm_analysis` only compose the modelled functions with file and console I/O, so they are not modelled.
- `get_customer_orders` is not modelled. It orders by `order_date`, a `CURRENT_TIMESTAMP` default that depends on the clock.
- `get_sales_by_category` and the `total_revenue` of `get_database_stats` are not modelled. They sum REAL prices (floating point).
- The `price`, `total_amount`, `order_date` and `created_at` columns are not modelled, for the same reasons. `check_stock` also returns `price`, which is likewise not modelled.
- SQLite itself is not modelled. Tables are sequences in insertion order, which is the order these un-ordered queries return them in; `UPDATE … WHERE id = ?` changes the one row with that id, since ids are unique.
- SQLite's 64-bit INTEGER overflow of `stock + quantity_change` is not modelled; integers are unbounded.
- `EcommerceDb.Server.GetDatabaseStats`: the loop over the four table names is modelled as one record of the four counts.
- Concurrent tool calls are not modelled. The read-modify-write of `update_stock` is a single step.
- The rest of the repository is not part of this model: `src/auth_utils.py`, `src/rag_document_generator.py`, the calculator and template servers, and `check_notebook_format.py`.
