# ServiceNow ticket completeness agent: the deterministic core in Dafny

The agent loads completeness rules from a CSV file and a batch of ServiceNow
tickets as raw text, sends both to a hosted chat-completion model as a
two-message conversation, strips the optional Markdown code fence from the
model's reply, parses it as a JSON array of verdicts and writes those verdicts
as JSON and as CSV. Everything in that pipeline is I/O except four string and
list transforms. Those four transforms are what this project models and proves:

- **Rule loading** (`RuleLoader`, `rules.dfy`). The rule file arrives as rows of
  fields. A rule is the stripped first field of every row whose first field is
  not blank, in row order. `ReadRules` is the loop. `Rules` is its
  specification, and the lemmas about `Rules` prove the filter/map properties.
- **Prompt building** (`PromptBuilder`, `prompt.dfy`). Each rule becomes `"- " + rule`.
  The bullets are joined by `"\n"` and appended to the fixed system text. The
  conversation is one system message followed by one user message that wraps
  the raw ticket text.
- **Fence stripping** (`ResponseExtractor`, `extractor.dfy`). This is Python's
  `strip`, `startswith` and `split(...)[1].split(...)[0]` on the reply. It is
  proved total, proved always to give a trimmed result, and proved to round-trip
  a fenced payload.
- **Report rows** (`ReportWriter`, `report.dfy`). Each verdict object becomes a
  six-cell row, with absent keys defaulted and `missing_fields` joined by `", "`.
  The table is a header followed by one row per verdict. `WriteCsv` is the
  writer's loop, including the partial file left behind when a join raises.

`Text` (`text.dfy`) defines the Python string operations these transforms use,
over `seq<char>`. `strip()` removes exactly the characters for which Python's
`str.isspace()` holds. `split(sep)` scans left to right for non-overlapping
occurrences. `sep.join(parts)` joins the parts. Join and split are proved
inverse in both directions: `JoinSplit` for every text, and `SplitJoin` when
no part contains the separator and the separator has no border (a border is a
proper prefix that is also a suffix; `"\n"` and `", "` have none).
`Wrappers` (`wrappers.dfy`) holds `Option` and `Result`.

Notes on the fence round trip. The reply keeps only the text between the
opening marker and the first closing fence. Whatever follows that fence, such
as a sentence of prose, is dropped (`JsonFenceRoundTrip`, `BareFenceRoundTrip`).
The round trip needs three conditions beyond "the payload contains no three
backticks":

- The payload must not end with a backtick. Otherwise its last backticks run
  into the closing fence, and the first fence found starts early.
  `TrailingBackticksAreLost` proves that such a payload comes back without them.
- For the bare fence, the payload must not start with `json`. Otherwise the
  reply starts with the ```` ```json ```` marker and takes the other branch.
  `BarePayloadReadAsTag` proves what comes back then.
- For the ```` ```json ```` fence, the text after the closing fence must not
  begin with `` `json `` or ``` ``json ```. Line 162 splits the text after the
  marker on the next ```` ```json ````, not on the next three backticks. A second
  marker that shares backticks with the closing fence is then found first, and
  a backtick stays on the payload. `SecondMarkerKeepsBacktick` proves that a
  trimmed payload comes back with one backtick appended in that case.

A JSON array or object never ends with a backtick and never starts with
`json`, so the first two cases do not arise for a well-formed reply.

Three behaviours of the code worth noting:

- Absent keys are defaulted in every column. That includes `type`, which
  becomes `""` (ticket_completeness_agent.py:56).
- A `missing_fields` value that `", ".join` cannot iterate (a number, a
  boolean, null, or an array holding a non-string) raises a `TypeError`
  (ticket_completeness_agent.py:58). That error aborts the CSV after the rows
  already written. The model returns it as a `RowError`.
- A string `missing_fields` is joined character by character, because a
  Python string iterates over its characters (ticket_completeness_agent.py:58).

## Model

| member | source | states |
|---|---|---|
| `Text.TrimStart` | ServiceNow-Ticket-Completeness-Agent/ticket_completeness_agent.py:160 | the result is a suffix of the input; everything dropped is whitespace; the result does not start with whitespace |
| `Text.TrimEnd` | ServiceNow-Ticket-Completeness-Agent/ticket_completeness_agent.py:160 | the result is a prefix of the input; everything dropped is whitespace; the result does not end with whitespace |
| `Text.Strip` | ServiceNow-Ticket-Completeness-Agent/ticket_completeness_agent.py:160 | the result of `strip()` has whitespace at neither end |
| `Text.StripFramed` | ServiceNow-Ticket-Completeness-Agent/ticket_completeness_agent.py:34-35 | `strip()` returns a contiguous piece of the input with only whitespace around it, and returns the empty text exactly when the input is all whitespace |
| `Text.StripPadded` | ServiceNow-Ticket-Completeness-Agent/ticket_completeness_agent.py:160 | stripping whitespace padding off a trimmed text gives that text back |
| `Text.StripTrimmed` | ServiceNow-Ticket-Completeness-Agent/ticket_completeness_agent.py:162 | a trimmed text is its own strip |
| `Text.StripIdempotent` | ServiceNow-Ticket-Completeness-Agent/ticket_completeness_agent.py:160-164 | stripping twice is stripping once |
| `Text.TrimStartOfSpaces` | ServiceNow-Ticket-Completeness-Agent/ticket_completeness_agent.py:160 | leading whitespace before a text that starts with a non-space is exactly what `lstrip` removes |
| `Text.TrimEndOfSpaces` | ServiceNow-Ticket-Completeness-Agent/ticket_completeness_agent.py:160 | trailing whitespace after a text that ends with a non-space is exactly what `rstrip` removes |
| `Text.TrimEndAppend` | ServiceNow-Ticket-Completeness-Agent/ticket_completeness_agent.py:160 | behind a text ending with a non-space, `rstrip` only removes trailing whitespace of what follows |
| `Text.TrimEndPrefix` | ServiceNow-Ticket-Completeness-Agent/ticket_completeness_agent.py:160-162 | what `rstrip` leaves starts with a prefix only when the text did |
| `Text.IndexOf` | ServiceNow-Ticket-Completeness-Agent/ticket_completeness_agent.py:162 | the offset found holds the separator and no earlier offset does; no offset is found exactly when the separator does not occur |
| `Text.IndexOfFirst` | ServiceNow-Ticket-Completeness-Agent/ticket_completeness_agent.py:162 | an occurrence with none before it is the one found |
| `Text.Split` | ServiceNow-Ticket-Completeness-Agent/ticket_completeness_agent.py:162-164 | `split` gives at least one piece, and no piece contains the separator; a text that starts with the separator gives at least two pieces, the first empty, so taking piece 1 after the `startswith` check never fails |
| `Text.SplitAtPrefix` | ServiceNow-Ticket-Completeness-Agent/ticket_completeness_agent.py:162 | splitting a text that starts with the separator gives an empty piece and then the split of the rest |
| `Text.SplitAbsent` | ServiceNow-Ticket-Completeness-Agent/ticket_completeness_agent.py:162-164 | a text without the separator splits into itself alone |
| `Text.SplitHead` | ServiceNow-Ticket-Completeness-Agent/ticket_completeness_agent.py:162 | piece 0 of a split is the text before the first occurrence |
| `Text.JoinAppend` | ServiceNow-Ticket-Completeness-Agent/ticket_completeness_agent.py:136 | appending a part to a join adds one separator and the part, with no separator before the first part or after the last |
| `Text.JoinSplit` | ServiceNow-Ticket-Completeness-Agent/ticket_completeness_agent.py:162-164 | joining the pieces of a split with the separator gives back the text |
| `Text.FirstAfterPiece` | ServiceNow-Ticket-Completeness-Agent/ticket_completeness_agent.py:58 | after a part free of a borderless separator, the first occurrence of the separator is the one that follows the part |
| `Text.SplitJoin` | ServiceNow-Ticket-Completeness-Agent/ticket_completeness_agent.py:58 | splitting a join on a borderless separator gives back the parts, when no part contains the separator |
| `RuleLoader.Rules` | ServiceNow-Ticket-Completeness-Agent/ticket_completeness_agent.py:33-35 | there are no more rules than rows, and every rule is non-empty with no leading or trailing whitespace |
| `RuleLoader.ReadRules` | ServiceNow-Ticket-Completeness-Agent/ticket_completeness_agent.py:30-36 | the loop returns exactly the rules of the specification, each non-empty and trimmed |
| `RuleLoader.RulesAppend` | ServiceNow-Ticket-Completeness-Agent/ticket_completeness_agent.py:33-35 | the rules of two runs of rows are the rules of the first run followed by those of the second, so row order is kept |
| `RuleLoader.KeptRows` | ServiceNow-Ticket-Completeness-Agent/ticket_completeness_agent.py:34 | the kept row indices increase; each names a row that is non-empty and has a non-blank first field, and every such row is named |
| `RuleLoader.RulesFromKeptRows` | ServiceNow-Ticket-Completeness-Agent/ticket_completeness_agent.py:33-35 | there is one rule per kept row, and the k-th rule is the stripped first field of the k-th kept row; other rows and other columns contribute nothing |
| `PromptBuilder.Conversation` | ServiceNow-Ticket-Completeness-Agent/ticket_completeness_agent.py:121-147 | exactly two messages, system then user; the system text is the fixed header followed by the rules section; the user text is the fixed lead, the ticket text verbatim, then the fixed closing instruction to return only the JSON array |
| `PromptBuilder.SystemPromptWithoutRules` | ServiceNow-Ticket-Completeness-Agent/ticket_completeness_agent.py:121-136 | with zero rules, nothing follows the header |
| `PromptBuilder.RulesSectionAppend` | ServiceNow-Ticket-Completeness-Agent/ticket_completeness_agent.py:136 | one more rule adds exactly `"- " + rule`, behind a single newline unless it is the first rule; nothing trails the last bullet |
| `PromptBuilder.NoNewline` | ServiceNow-Ticket-Completeness-Agent/ticket_completeness_agent.py:136 | a text without a newline character contains no newline separator |
| `PromptBuilder.RulesSectionLines` | ServiceNow-Ticket-Completeness-Agent/ticket_completeness_agent.py:136 | split on newlines, the text after the header is one line per rule, in input order, each `"- " + rule` (when no rule contains a newline) |
| `ResponseExtractor.CleanResponse` | ServiceNow-Ticket-Completeness-Agent/ticket_completeness_agent.py:160-164 | the cleaned reply has whitespace at neither end; a reply whose stripped form does not start with three backticks is only stripped |
| `ResponseExtractor.Unfence` | ServiceNow-Ticket-Completeness-Agent/ticket_completeness_agent.py:161-164 | fence removal is total on a stripped reply and gives a trimmed result; an unfenced text is returned unchanged |
| `ResponseExtractor.JsonFenceIsFenced` | ServiceNow-Ticket-Completeness-Agent/ticket_completeness_agent.py:161-163 | every text starting with the ```` ```json ```` marker also starts with three backticks |
| `ResponseExtractor.ClosingFenceFirst` | ServiceNow-Ticket-Completeness-Agent/ticket_completeness_agent.py:162-164 | in payload + fence + anything, the piece before the first fence is the payload, when the payload has no fence and does not end with a backtick |
| `ResponseExtractor.JsonFenceAfterClose` | ServiceNow-Ticket-Completeness-Agent/ticket_completeness_agent.py:162 | in payload + fence + text, the ```` ```json ```` marker never occurs inside the payload, and occurs one or two backticks into the closing fence only when the text completes it there |
| `ResponseExtractor.PayloadBeforeMarker` | ServiceNow-Ticket-Completeness-Agent/ticket_completeness_agent.py:162 | after the marker, the piece before the next marker and then before the next fence is the payload |
| `ResponseExtractor.FirstMarkerPiece` | ServiceNow-Ticket-Completeness-Agent/ticket_completeness_agent.py:162 | the piece before the next marker ends at the closing fence or after it |
| `ResponseExtractor.PieceBeforeMarker` | ServiceNow-Ticket-Completeness-Agent/ticket_completeness_agent.py:162 | cut at the closing fence or anywhere after it, the text still splits on the fence to the payload |
| `ResponseExtractor.UnfenceJson` | ServiceNow-Ticket-Completeness-Agent/ticket_completeness_agent.py:161-162 | removing a ```` ```json ```` fence yields the stripped payload up to the closing fence, whatever text follows that fence, unless the text completes a second marker overlapping the closing backticks |
| `ResponseExtractor.UnfenceBare` | ServiceNow-Ticket-Completeness-Agent/ticket_completeness_agent.py:163-164 | removing a bare fence yields the stripped payload up to the closing fence, whatever text follows it, when the payload does not start with `json` |
| `ResponseExtractor.JsonFenceRoundTrip` | ServiceNow-Ticket-Completeness-Agent/ticket_completeness_agent.py:160-162 | for a payload with no fence and no trailing backtick, a reply of whitespace, ```` ```json ````, the payload, three backticks and any text not completing a second marker cleans to the stripped payload; a trimmed payload comes back unchanged |
| `ResponseExtractor.BareFenceRoundTrip` | ServiceNow-Ticket-Completeness-Agent/ticket_completeness_agent.py:160-164 | the same round trip for a payload between two bare fences followed by any text, when the payload does not start with `json` |
| `ResponseExtractor.StripFenced` | ServiceNow-Ticket-Completeness-Agent/ticket_completeness_agent.py:160 | stripping a reply that opens with a fence after whitespace removes the whitespace and only the trailing whitespace of the text after the closing fence |
| `ResponseExtractor.BareOpeningIsNotMarker` | ServiceNow-Ticket-Completeness-Agent/ticket_completeness_agent.py:161-163 | a bare fence around a payload not starting with `json` does not start with the ```` ```json ```` marker |
| `ResponseExtractor.TrailingBackticksAreLost` | ServiceNow-Ticket-Completeness-Agent/ticket_completeness_agent.py:162 | a payload that ends with backticks comes back without them, so the round trip's no-trailing-backtick condition is needed |
| `ResponseExtractor.BarePayloadReadAsTag` | ServiceNow-Ticket-Completeness-Agent/ticket_completeness_agent.py:161-164 | a bare-fenced payload starting with `json` is read as a ```` ```json ```` fence around the rest, so the bare round trip's condition is needed |
| `ResponseExtractor.SecondMarkerKeepsBacktick` | ServiceNow-Ticket-Completeness-Agent/ticket_completeness_agent.py:160-162 | with `` `json `` right after the closing fence, the cleaned reply is the payload with one backtick appended (stripped), so the round trip's condition on the following text is needed |
| `ResponseExtractor.UnfenceSecondMarker` | ServiceNow-Ticket-Completeness-Agent/ticket_completeness_agent.py:161-162 | fence removal on such a reply yields the stripped payload plus one backtick |
| `ResponseExtractor.MarkerOneIntoClose` | ServiceNow-Ticket-Completeness-Agent/ticket_completeness_agent.py:162 | the first ```` ```json ```` in that text starts one backtick into the closing fence |
| `ResponseExtractor.NoMarkerAtClose` | ServiceNow-Ticket-Completeness-Agent/ticket_completeness_agent.py:162 | the marker does not start right at the closing fence when `` `json `` follows it |
| `ResponseExtractor.BacktickAfterPayload` | ServiceNow-Ticket-Completeness-Agent/ticket_completeness_agent.py:164 | one backtick after an enclosable payload does not form a fence |
| `ReportWriter.ProjectRow` | ServiceNow-Ticket-Completeness-Agent/ticket_completeness_agent.py:53-60 | the row has six cells in column order; present values are copied through into every column but `missing_fields`, whose cell is the strings the join iterates over joined by `", "`; absent `ticket_id` becomes `"unknown"`, absent `ticket_number`, `type`, `remarks` and `missing_fields` become `""`, absent `completeness` becomes `False`; the row fails exactly when `missing_fields` is present and cannot be joined |
| `ReportWriter.WriteCsv` | ServiceNow-Ticket-Completeness-Agent/ticket_completeness_agent.py:49-60 | the loop writes the whole table exactly when the table can be built; on failure it has written the header and the rows of the verdicts before the failing one, and reports that verdict's error |
| `ReportWriter.RowsStopAtFailure` | ServiceNow-Ticket-Completeness-Agent/ticket_completeness_agent.py:52-60 | a failing verdict fails the whole table with its own error, whatever follows it |
| `ReportWriter.TableShape` | ServiceNow-Ticket-Completeness-Agent/ticket_completeness_agent.py:45-60 | a built table has exactly one header row, then one row per verdict in input order, each row the projection of its verdict |
| `ReportWriter.RowsShape` | ServiceNow-Ticket-Completeness-Agent/ticket_completeness_agent.py:52-60 | the data rows are one projection per verdict, in order |
| `ReportWriter.TableFailsAtFirstBadVerdict` | ServiceNow-Ticket-Completeness-Agent/ticket_completeness_agent.py:52-60 | the table is built exactly when every verdict's row can be built; otherwise its error is that of the first verdict that fails |
| `ReportWriter.WellFormedVerdictRow` | ServiceNow-Ticket-Completeness-Agent/ticket_completeness_agent.py:53-60 | a verdict with every key present and well typed keeps every field in its column, with `missing_fields` joined by `", "` |
| `ReportWriter.NamesJoinPieces` | ServiceNow-Ticket-Completeness-Agent/ticket_completeness_agent.py:58 | an array of strings is joined over exactly its entries |
| `ReportWriter.ArrayMissingFields` | ServiceNow-Ticket-Completeness-Agent/ticket_completeness_agent.py:58 | whatever other keys a verdict has, a `missing_fields` array of strings lands in its column as its entries joined by `", "` |
| `ReportWriter.ListSeparatorUnbordered` | ServiceNow-Ticket-Completeness-Agent/ticket_completeness_agent.py:58 | `", "` has no border |
| `ReportWriter.MissingFieldsRoundTrip` | ServiceNow-Ticket-Completeness-Agent/ticket_completeness_agent.py:58 | splitting the `missing_fields` cell on `", "` gives back a non-empty list none of whose entries contains `", "` |
| `ReportWriter.StringMissingFields` | ServiceNow-Ticket-Completeness-Agent/ticket_completeness_agent.py:58 | a string `missing_fields` is joined character by character: the cell splits back into its characters |

## Left out

- File existence checks and reads (ticket_completeness_agent.py:21-24, 28-29, 31) and the `FileNotFoundError` they raise: filesystem I/O. The rule loader takes the rows as a parameter.
- The CSV tokenizer (`csv.reader`): library code. Rows arrive as `seq<seq<string>>`.
- `csv.DictWriter`'s conversion of cell values to text (`str()`, so `False` becomes `False` and `None` becomes the empty text) and its quoting: library code. Rows are the `Value` cells handed to the writer.
- Writing the JSON report (`json.dump`, line 42) and opening both output files: library serialisation and filesystem I/O.
- `json.loads` (line 166) and its `JSONDecodeError` path: library parsing. The extractor's contract ends at the text handed to the parser. `Value` holds integers only, with no floats.
- A report element that is not a JSON object makes `item.get` raise an `AttributeError`: not modelled, because the report is taken as a sequence of objects (`map<string, Value>`).
- The keys of an object `missing_fields` are joined in member order. The model assumes the members carry distinct keys, as they do in the dictionary `json.loads` builds.
- `AzureOpenAIClient` (lines 63-98): environment variables, an HTTPS POST with a 60-second timeout, float temperature 0.2, and the non-200 error. This is network, async and floating point code.
- `asyncio.run`, every `print`, the 500-character truncation of the raw reply for display, and the orchestration in `analyze_tickets_direct`: console output and control flow around I/O.
- The prompt prose (lines 121-142) is copied as fixed constants and not reasoned about.
