# Pipeline editor: node logic and DAG check, in Dafny

This project models the logic core of a small visual pipeline editor. The editor has a
React front end, where nodes are built by a factory and wired with handles, and a
Python back end, which checks that a submitted pipeline is a DAG. The model keeps the
parts that compute something. It leaves out rendering, styling and library plumbing.

- **Template variables.** `VariableScan` is an explicit scanner for the global pattern
  `{{([a-zA-Z_$][a-zA-Z0-9_$]*)}}`. `NodeFactory.ExtractVariableInputs` puts the
  captured names into a `Set`. `TextNode.ExtractVariables` is the `exec` loop as
  written, proved equal to it. The loop appears twice in the sources, identically
  (`nodes/textNode.js:8-18` and `nodes/ComplexNodes/textNode.js:8-18`); the one member
  models both copies.
  - A name is a variable exactly when it is an identifier and `{{name}}` appears in
    the text.
  - Names come out distinct, in order of first capture.
- **Node state.** `NodeFactory` covers:
  - the initial state (`data[key] ?? defaultData[key]`);
  - single-field updates;
  - the write-back into `data`;
  - the static or dynamic choice of ports.
- **Node types**, each built on those mechanics:
  - the text nodes: `TextNode` and `TextEditor`, the latter with its `{{` input
    selector;
  - `ColorNode`, whose `hexToRgb` round-trips with a formatter;
  - `CounterNode`, `SimpleCounterNode`, `ToggleNode` and `InputNode`.
- **Node frame.** `BaseNode` covers the type prefix of a node id and the colour table.
  It also covers handle ids and offsets, and the two-step delete.
- **Builder screen.** `PipelineBuilder` covers `addNode`, `clearPipeline` and the
  `savePipeline` name guard.
- **Back end.**
  - `Dag` is Kahn's algorithm as `is_dag` runs it, in two forms:
    - a functional reference (`Dag.ProcessingOrder`), which terminates on every
      input;
    - the imperative loops (`Dag.IsDag`), proved equal to the reference.
  - On well-formed input (distinct node ids, every edge between listed nodes), the
    answer is true exactly when the edges form no directed cycle.
  - `Backend` adds `parse_pipeline`'s summary and error cases.
- **Shared helpers.**
  - `Js` holds JavaScript values, truthiness, `??`, `||`, `slice`, `toLowerCase`,
    `includes` and number formatting.
  - `Seqs` holds sequence helpers: filter, dedup, distinctness and counting.

JavaScript numbers are exact reals, and NaN is a value of its own.

Three behaviours of the code are worth knowing; the model follows the code:
- The code does not prune edges when a text node loses a variable. Handle ids are
  positional, so the later handles shift instead (`BaseNode.RemovalShiftsHandles`).
- The code shown does not check an edge's endpoints, and the delete button removes a
  node with a single `remove` change that leaves its edges to the graph store. So
  `is_dag` can receive edges to and from unlisted nodes if the store keeps a removed
  node's edges. Such edges can make an acyclic pipeline read as not a DAG
  (`Dag.UnlistedSourceReadsAsCycle`, `Dag.UnlistedTargetOvershoots`), a cyclic one read
  as a DAG (`Dag.UnlistedTargetHidesCycle`), or cancel out
  (`Dag.UnlistedEndpointsCancel`).
- New node ids come from the current node count, not from a counter that only grows.
  So an id can repeat after a removal (`PipelineBuilder.AddAfterRemovalRepeatsId`).

## Model

| member | source | states |
|---|---|---|
| VariableScan.RunEnd | frontend/src/nodes/Factory/NodeFactory.js:226 | the end of the longest run of `[A-Za-z0-9_$]` from a position: every character before it qualifies, the one at it does not |
| VariableScan.MatchEnd | frontend/src/nodes/Factory/NodeFactory.js:226 | one `exec` attempt at a position; a match ends its name at least one character in and leaves room for `}}`; what it captures is stated by MatchEndShape, MatchEndSound and MatchAtPlaceholder |
| VariableScan.Matches | frontend/src/nodes/Factory/NodeFactory.js:230-233 | the names successive `exec` calls capture; stated by MatchesSound and MatchesComplete (sound and complete for placeholders) and CapturePlaceholder/SkipPlainText (the `lastIndex` steps) |
| VariableScan.Extract | frontend/src/nodes/Factory/NodeFactory.js:227-235 | the captured names, each once and none lost; the placeholder iff is ExtractIff and the order ExtractOrder |
| VariableScan.MatchEndShape | frontend/src/nodes/Factory/NodeFactory.js:226 | a match at `i` ending its name at `k` reads `{{`, an identifier start, identifier characters up to `k`, then `}}` |
| VariableScan.MatchEndSound | frontend/src/nodes/Factory/NodeFactory.js:226 | a match at one position captures an identifier `name` with `{{name}}` standing exactly there |
| VariableScan.MatchAtPlaceholder | frontend/src/nodes/Factory/NodeFactory.js:226 | wherever `{{name}}` stands with `name` an identifier, the pattern matches there and captures exactly `name` (no other backtracking result exists) |
| VariableScan.MatchesSound | frontend/src/nodes/Factory/NodeFactory.js:231-233 | every name the `exec` loop captures is an identifier whose placeholder occurs in the text |
| VariableScan.MatchesComplete | frontend/src/nodes/Factory/NodeFactory.js:231-233 | no placeholder at or after the scan position is skipped by the loop |
| VariableScan.MatchReached | frontend/src/nodes/Factory/NodeFactory.js:231-233 | a scan started at or before a match position captures that match's name |
| VariableScan.PlaceholderChars | frontend/src/nodes/Factory/NodeFactory.js:226 | an occurrence of `{{name}}` has the braces around the name where the pattern looks for them |
| VariableScan.RunEndAt | frontend/src/nodes/Factory/NodeFactory.js:226 | the greedy `[a-zA-Z0-9_$]*` run stops at the first non-identifier character |
| VariableScan.NoOverlap | frontend/src/nodes/Factory/NodeFactory.js:226-233 | a match starting before a `{{` ends before it, so leftmost non-overlapping matching never swallows a placeholder |
| VariableScan.ExtractIff | frontend/src/nodes/Factory/NodeFactory.js:228-235 | a name is extracted iff it is an identifier and `{{name}}` occurs in the text |
| VariableScan.ExtractOrder | frontend/src/nodes/Factory/NodeFactory.js:228-235 | the extracted names are the captured names, ordered by first capture (`Set` insertion order) |
| VariableScan.NoBracesNoVariables | frontend/src/nodes/Factory/NodeFactory.js:231-235 | text without any `{{` yields no variables |
| VariableScan.SkipPlainText | frontend/src/nodes/Factory/NodeFactory.js:231 | the scan passes over characters other than `{` without capturing |
| VariableScan.CapturePlaceholder | frontend/src/nodes/Factory/NodeFactory.js:231-232 | at a placeholder the scan captures its name and resumes right after the closing `}}` |
| Seqs.DedupSpec | frontend/src/nodes/Factory/NodeFactory.js:228-235 | adding to a `Set` and reading it back keeps each element once, in order of first insertion, and loses none |
| Seqs.DedupSnoc | frontend/src/nodes/textNode.js:14 | adding one more name to the `Set` appends it unless it is already there |
| NodeFactory.InitialState | frontend/src/nodes/Factory/NodeFactory.js:36-42 | the initial state has exactly the keys of `defaultData`; each value is `data[key]` unless that is `null`/`undefined`, in which case it is the default (`0`, `''`, `false` are kept) |
| NodeFactory.Update | frontend/src/nodes/Factory/NodeFactory.js:67-69 | an update sets its field to the value and leaves every other field unchanged |
| NodeFactory.WriteBack | frontend/src/nodes/Factory/NodeFactory.js:53-58 | the write-back copies every state entry into `data` and keeps `data`'s other entries; without `data` nothing is written |
| NodeFactory.InitialStateIdempotent | frontend/src/nodes/Factory/NodeFactory.js:36-42 | initialising from an initial state gives that state again |
| NodeFactory.RemountRestoresState | frontend/src/nodes/Factory/NodeFactory.js:36-58 | a node remounted from the `data` its state was written to gets the same state back, when no entry is `null`/`undefined` |
| NodeFactory.RemountDropsNull | frontend/src/nodes/Factory/NodeFactory.js:39-56 | a `null` written back does not survive a remount: the default takes its place |
| NodeFactory.StaticPortsIgnoreState | frontend/src/nodes/Factory/NodeFactory.js:45-50 | a static port list is used unchanged, whatever the state |
| NodeFactory.DynamicPortsFollowState | frontend/src/nodes/Factory/NodeFactory.js:45-50 | a dynamic port list is the function applied to the current state |
| NodeFactory.CurrentPorts | frontend/src/nodes/Factory/NodeFactory.js:45-50 | the ports in use: a static list as given, a function applied to the state; for the text node, TextNode.InputsAreVariables states that in a settled state these ports are exactly the stored variables, in order |
| NodeFactory.ExtractVariableInputs | frontend/src/nodes/Factory/NodeFactory.js:224-236 | every returned id is an identifier; ids are pairwise distinct; a name is an id iff `{{name}}` occurs in the text |
| NodeFactory.ExtractIffAll | frontend/src/nodes/Factory/NodeFactory.js:224-236 | the extraction iff, for all names at once |
| NodeFactory.VariableInputsOrder | frontend/src/nodes/Factory/NodeFactory.js:228-235 | the returned ids are the captured names ordered by first occurrence, left to right |
| NodeFactory.HelloExample | frontend/src/nodes/Factory/NodeFactory.js:224-236 | `Hello {{a}} and {{b}}, {{a}} again` yields exactly the inputs `a` then `b` |
| NodeFactory.HelloMatches | frontend/src/nodes/Factory/NodeFactory.js:231-233 | the loop captures `a`, `b`, `a` on that text |
| NodeFactory.VariableInputs | frontend/src/nodes/Factory/NodeFactory.js:245-252 | the derived inputs are those of the field's text; a missing, `null`, `undefined` or empty field gives none |
| NodeFactory.CreateVariableInputs | frontend/src/nodes/Factory/NodeFactory.js:245-252 | the deriver that `createVariableInputs` returns; what it derives is stated by VariableInputs, and for the text node by TextNode.InputsAreVariables |
| TextNode.ExtractVariables | frontend/src/nodes/textNode.js:8-18 | the page's own `exec` loop returns the ids of `extractVariableInputs` on the same text, distinct, and exactly the identifiers whose placeholder occurs |
| TextNode.ScanResult | frontend/src/nodes/textNode.js:8-18 | the deduplicated names of the whole scan are the ids of the factory's dynamic inputs for the same text |
| TextNode.NamesValue | frontend/src/nodes/textNode.js:35-37 | the stored `variables` array holds the names as strings, in order |
| TextNode.NamesValueInjective | frontend/src/nodes/textNode.js:35-37 | different name lists are stored as different arrays |
| TextNode.SyncVariables | frontend/src/nodes/textNode.js:34-38 | the text-change effect stores the text's variables and changes nothing else |
| TextNode.SyncSettles | frontend/src/nodes/textNode.js:34-38 | after the effect `variables` equals the extraction of `text`; running it again changes nothing, and on a settled state it changes nothing |
| TextNode.InputsAreVariables | frontend/src/nodes/textNode.js:170-180 | in a settled state the input handles are exactly the stored variables, in order |
| TextNode.DefaultTextVariables | frontend/src/nodes/textNode.js:173-176 | the default text `{{input}}` extracts to exactly `['input']` |
| TextNode.FreshNodeSettled | frontend/src/nodes/textNode.js:173-180 | a fresh node is settled, has the one input `input` and the one output `output` |
| TextEditor.DataOr | frontend/src/nodes/ComplexNodes/textNode.js:35-36 | the JavaScript `or` of `node.data?.[key]` and a fallback reads the data string when present and non-empty, else the fallback |
| TextEditor.AvailableInputsSpec | frontend/src/nodes/ComplexNodes/textNode.js:30-38 | the list is the `customInput` nodes, kept in flow order with one entry each (same-named inputs give two entries), mapped to entries with id `data.name` or the node id and type `data.type` or `'text'`; an entry is listed iff some input node contributes it |
| TextEditor.AvailableInputsInOrder | frontend/src/nodes/ComplexNodes/textNode.js:30-38 | the list equals the `customInput` nodes filtered in flow order, each mapped to its entry |
| TextEditor.GetAvailableInputs | frontend/src/nodes/ComplexNodes/textNode.js:30-38 | never longer than the node list; its contents and order are stated by AvailableInputsSpec and AvailableInputsInOrder |
| TextEditor.NoInputNodesNoEntries | frontend/src/nodes/ComplexNodes/textNode.js:30-38 | the list is empty iff the flow has no `customInput` node |
| TextEditor.FilterInputs | frontend/src/nodes/ComplexNodes/textNode.js:63-69 | filtering keeps an order-preserving sub-list: every copy of each entry whose lower-cased id includes the lower-cased query, and no copy of any other entry |
| TextEditor.FilterInputsIff | frontend/src/nodes/ComplexNodes/textNode.js:66-68 | an entry survives iff the lower-cased query occurs at some position of its lower-cased id |
| TextEditor.EmptyQueryKeepsAll | frontend/src/nodes/ComplexNodes/textNode.js:65-68 | an empty query keeps every entry |
| TextEditor.FilterIgnoresCase | frontend/src/nodes/ComplexNodes/textNode.js:67 | a query and its lower-cased form filter alike |
| TextEditor.TriggerIff | frontend/src/nodes/ComplexNodes/textNode.js:56-59 | the two characters before the caret read `{{` iff the caret is at 2 or more and the text there is `{{` (negative `slice` indices never produce it) |
| TextEditor.SelectorOpens | frontend/src/nodes/ComplexNodes/textNode.js:56-62 | typing `{{` opens the selector at the caret listing every input node; other edits leave a closed selector closed |
| TextEditor.SelectorFilters | frontend/src/nodes/ComplexNodes/textNode.js:63-70 | while open, with the caret at or after the remembered position, the list equals the input entries filtered by the text typed since that position, duplicate entries included |
| TextEditor.SelectorShowsAllBeforePosition | frontend/src/nodes/ComplexNodes/textNode.js:63-70 | while open, with the caret moved back before the remembered position, `slice` gives `''` and every input entry is listed again |
| TextEditor.OnTextChange | frontend/src/nodes/ComplexNodes/textNode.js:54-71 | the selector part of the text-change effect; stated by TriggerIff, SelectorOpens, SelectorFilters and SelectorShowsAllBeforePosition |
| TextEditor.HandleInputSelection | frontend/src/nodes/ComplexNodes/textNode.js:89-99 | with position p set and within the text, the text becomes prefix + `inputId}}` + suffix (length grows by the id's length plus 2); with p past the end of a shortened text, `inputId}}` is appended; the selector closes with the position cleared; with a null or 0 position nothing changes |
| TextEditor.PickedInputBecomesVariable | frontend/src/nodes/ComplexNodes/textNode.js:89-95 | picking an identifier right after a typed `{{` makes it a variable of the new text |
| TextEditor.FreshNodeHasNoInputs | frontend/src/nodes/ComplexNodes/textNode.js:260-265 | the defaults `text: ''`, `variables: []` are consistent: a fresh node is settled with no input handles |
| BaseNode.NodeTypeOf | frontend/src/nodes/BaseNode.js:97 | the node type is the id up to its first `-`, or the whole id when there is none |
| BaseNode.GetNodeColor | frontend/src/nodes/BaseNode.js:82-95 | the nine listed types get their colour, any other non-prototype name gets `#64748b`, and inherited names yield the inherited member |
| BaseNode.TableAndPrototypeDisjoint | frontend/src/nodes/BaseNode.js:83-93 | no table key is an inherited name |
| BaseNode.ColorOfNode | frontend/src/nodes/BaseNode.js:97-98 | a node `kind-rest` is coloured by `kind` |
| BaseNode.HandleIdsDistinct | frontend/src/nodes/BaseNode.js:202-220 | handle ids of one node differ whenever side or index differ |
| BaseNode.HandleId | frontend/src/nodes/BaseNode.js:202-220 | `${id}-input-${index}` / `${id}-output-${index}`; stated by HandleIdsDistinct |
| BaseNode.HandleOffset | frontend/src/nodes/BaseNode.js:204-222 | the offset `((index + 1) * 100) / (count + 1)` percent; stated by HandleOffsetsOrdered |
| BaseNode.HandleOffsetsOrdered | frontend/src/nodes/BaseNode.js:204-222 | offsets lie strictly between 0 and 100 and strictly increase with the index |
| BaseNode.Handles | frontend/src/nodes/BaseNode.js:197-229 | n ports give n handles, the i-th with id `${id}-input-${i}` (or `-output-`) and offset `((i+1)*100)/(n+1)` |
| BaseNode.HandlesIgnorePortIds | frontend/src/nodes/BaseNode.js:202-220 | handles depend on the number of ports, not on their ids |
| BaseNode.RemovalShiftsHandles | frontend/src/nodes/BaseNode.js:197-202 | removing a middle port hands each later port the handle id of the one before |
| BaseNode.HandleDelete | frontend/src/nodes/BaseNode.js:65-67 | the delete button only opens the dialog and removes nothing |
| BaseNode.ConfirmDelete | frontend/src/nodes/BaseNode.js:72-75 | confirming emits exactly one removal of this node and closes the dialog |
| BaseNode.CancelDelete | frontend/src/nodes/BaseNode.js:235 | closing the dialog removes nothing |
| BaseNode.DeleteNeedsConfirmation | frontend/src/nodes/BaseNode.js:60-75 | delete then confirm removes the node once; delete then cancel removes nothing |
| PipelineBuilder.AddNode | frontend/src/components/PipelineBuilder.js:46-54 | exactly one node is appended and the others are kept; it has id `type-(len+1)`, the selected type, position (100, 100+100·len) and label `type node`; nothing else changes |
| PipelineBuilder.NodeIdInjective | frontend/src/components/PipelineBuilder.js:48 | ids of hyphen-free types are equal only for equal type and number |
| PipelineBuilder.AddNodeKeepsIdsDistinct | frontend/src/components/PipelineBuilder.js:46-54 | while nodes are only added, ids stay pairwise distinct |
| PipelineBuilder.AddAfterRemovalRepeatsId | frontend/src/components/PipelineBuilder.js:48 | after a removal the next id can repeat an existing one |
| PipelineBuilder.ClearPipeline | frontend/src/components/PipelineBuilder.js:56-61 | clearing empties nodes, edges, name and description and keeps the selected type |
| PipelineBuilder.ClearResets | frontend/src/components/PipelineBuilder.js:56-61 | clearing returns to the initial builder (up to the selected type) and is idempotent |
| PipelineBuilder.TrimStart | frontend/src/components/PipelineBuilder.js:64 | the leading white space is removed and nothing else |
| PipelineBuilder.TrimEnd | frontend/src/components/PipelineBuilder.js:64 | the trailing white space is removed and nothing else |
| PipelineBuilder.TrimEmptyIff | frontend/src/components/PipelineBuilder.js:64 | a name trims to empty iff it is all white space |
| PipelineBuilder.Trim | frontend/src/components/PipelineBuilder.js:64 | the trimmed name is no longer than the name and neither starts nor ends with white space; TrimEmptyIff says when it is empty |
| PipelineBuilder.SavePipeline | frontend/src/components/PipelineBuilder.js:63-78 | a blank name is rejected with the error message and nothing is saved; otherwise the record carries name, description, nodes and edges unchanged |
| PipelineBuilder.ClearedCannotBeSaved | frontend/src/components/PipelineBuilder.js:56-67 | a cleared pipeline is rejected until it is named |
| ColorNode.HexBody | frontend/src/nodes/colorNode.js:6 | the pattern accepts a text iff it is six hex digits with or without a leading `#`, and captures those six digits |
| ColorNode.HexToRgb | frontend/src/nodes/colorNode.js:5-12 | the result is non-null iff the text is an optional `#` and six hex digits; each component is below 256 |
| ColorNode.FormatThenParse | frontend/src/nodes/colorNode.js:5-12 | formatting a colour and parsing it gives the colour back |
| ColorNode.ParseThenFormat | frontend/src/nodes/colorNode.js:5-12 | parsing and formatting gives the text back, lower-cased and with `#` |
| ColorNode.FormatDigits | frontend/src/nodes/colorNode.js:5-12 | six hex digits read as a colour and formatted back are the digits lower-cased |
| ColorNode.PairSplit | frontend/src/nodes/colorNode.js:8-10 | each component splits back into its two digit values |
| ColorNode.DigitRoundTrip | frontend/src/nodes/colorNode.js:8-10 | a digit read and written back is the digit lower-cased |
| ColorNode.HexToRgbIgnoresCase | frontend/src/nodes/colorNode.js:6 | upper- and lower-case spellings give the same colour |
| ColorNode.HashIsOptional | frontend/src/nodes/colorNode.js:6 | a leading `#` does not change the result |
| ColorNode.RgbValue | frontend/src/nodes/colorNode.js:7-11 | the stored `rgb` is truthy iff the parse succeeded |
| ColorNode.RgbValueInjective | frontend/src/nodes/colorNode.js:7-11 | different parse results are stored differently |
| ColorNode.HandleColorChange | frontend/src/nodes/colorNode.js:14-19 | a change stores the hex and `hexToRgb(hex)`, so `rgb` agrees with `hex`; other fields are kept |
| ColorNode.DefaultsConsistent | frontend/src/nodes/colorNode.js:144-147 | the defaults satisfy `rgb == hexToRgb(hex)` |
| ColorNode.RemountLosesInvalidColor | frontend/src/nodes/colorNode.js:16-18 | an invalid hex stores a null `rgb`, which after a remount falls back to black, breaking the agreement |
| ColorNode.RenderRgb | frontend/src/nodes/colorNode.js:131 | a null `rgb` renders `Invalid color`; a colour renders `rgb(r, g, b)` with the three components in decimal |
| ColorNode.RenderRgbInjective | frontend/src/nodes/colorNode.js:131 | the rendered text determines the colour: the components read back from `rgb(r, g, b)` |
| CounterNode.FreshCounter | frontend/src/nodes/ComplexNodes/counterNode.js:79-83 | a fresh counter holds 0, with input `reset` and output `value` |
| CounterNode.Decrement | frontend/src/nodes/ComplexNodes/counterNode.js:23 | `-` lowers the count by one and keeps the other fields |
| CounterNode.Increment | frontend/src/nodes/ComplexNodes/counterNode.js:47 | `+` raises the count by one and keeps the other fields |
| CounterNode.ButtonsAreInverse | frontend/src/nodes/ComplexNodes/counterNode.js:23-47 | `+` then `-`, or `-` then `+`, restores the state |
| CounterNode.PressPlus | frontend/src/nodes/ComplexNodes/counterNode.js:47 | k presses of `+` add k |
| CounterNode.PressMinus | frontend/src/nodes/ComplexNodes/counterNode.js:23 | k presses of `-` subtract k |
| CounterNode.CountGoesNegative | frontend/src/nodes/ComplexNodes/counterNode.js:23 | the count has no lower bound: a fresh node shows -k after k presses of `-` |
| SimpleCounterNode.FreshSimpleCounter | frontend/src/nodes/SimpleNodes/simpleCounterNode.js:52-58 | the defaults are name `Counter`, value 0, step 1, with input `input` and output `value` |
| SimpleCounterNode.SetName | frontend/src/nodes/SimpleNodes/simpleCounterNode.js:22 | a name edit changes only `name` |
| SimpleCounterNode.Minus | frontend/src/nodes/SimpleNodes/simpleCounterNode.js:30 | `-` lowers the value by exactly one |
| SimpleCounterNode.Plus | frontend/src/nodes/SimpleNodes/simpleCounterNode.js:32 | `+` raises the value by exactly one |
| SimpleCounterNode.SetStep | frontend/src/nodes/SimpleNodes/simpleCounterNode.js:40 | a step edit stores the parsed number, or 1 when it is 0 or NaN, so the stored step is never 0 |
| SimpleCounterNode.StepIsIgnored | frontend/src/nodes/SimpleNodes/simpleCounterNode.js:30-40 | the buttons move the value by one whatever step was set |
| ToggleNode.Label | frontend/src/nodes/SimpleNodes/toggleNode.js:9 | the label is `ON` iff the value is truthy, else `OFF` |
| ToggleNode.Click | frontend/src/nodes/SimpleNodes/toggleNode.js:8 | a click stores the negation of the value and keeps the other fields |
| ToggleNode.ClickFlipsLabel | frontend/src/nodes/SimpleNodes/toggleNode.js:8-9 | every click flips the label |
| ToggleNode.TwoClicks | frontend/src/nodes/SimpleNodes/toggleNode.js:8 | two clicks restore a boolean value, and turn any other into the boolean of its truthiness |
| ToggleNode.FreshToggle | frontend/src/nodes/SimpleNodes/toggleNode.js:8-22 | a fresh toggle holds `false` and reads `OFF`, one click reads `ON`; input `input`, output `value` |
| InputNode.LoadModule | frontend/src/nodes/ComplexNodes/inputNode.js:63-75 | loading with the counter at n gives default name `input` + n, type `text`, empty default value, no inputs, one output `output`, and moves the counter to n+1 |
| InputNode.EveryNodeIsInput0 | frontend/src/nodes/ComplexNodes/inputNode.js:63-72 | the counter is read once, so every node created without a name is `input0` |
| InputNode.VisibleFields | frontend/src/nodes/ComplexNodes/inputNode.js:34-57 | the default-value box shows iff type is `text`, the file picker iff type is `file` |
| InputNode.FieldsExclusive | frontend/src/nodes/ComplexNodes/inputNode.js:34-57 | the two optional fields never show together |
| InputNode.Edit | frontend/src/nodes/ComplexNodes/inputNode.js:21-39 | a name, type or default-value edit changes only that field |
| InputNode.PickFile | frontend/src/nodes/ComplexNodes/inputNode.js:49-53 | picking a file stores its name as the default value; an empty pick changes nothing |
| Js.Slice | frontend/src/nodes/ComplexNodes/textNode.js:58-65 | `slice` within bounds is the sub-sequence; an end at or before a non-negative start gives `''`; in general the clamped indices (negative ones counted from the end) select the sub-sequence, or `''` when they cross |
| Js.ClampIndex | frontend/src/nodes/ComplexNodes/textNode.js:58-65 | a relative index is kept within bounds, counted from the end when negative, and clamped to `0..len` |
| Js.IncludesIffOccurs | frontend/src/nodes/ComplexNodes/textNode.js:67 | `includes` holds iff the needle occurs at some position |
| Js.NatToString | frontend/src/components/PipelineBuilder.js:48 | a template-literal number is a non-empty digit string without leading zero |
| Js.DecimalRoundTrip | frontend/src/components/PipelineBuilder.js:48 | reading the digits back gives the number |
| Js.NatToStringInjective | frontend/src/nodes/BaseNode.js:202 | different numbers print differently |
| Dag.SuccCountsEdges | backend/main.py:24-27 | `graph[u]` lists each target once per edge from `u` |
| Dag.Succ | backend/main.py:24-27 | `graph[u]` after the edge loop; stated by SuccCountsEdges |
| Dag.InDegrees | backend/main.py:24-28 | `in_degree` after the edge loop; stated by InDegreesCount |
| Dag.Release | backend/main.py:40-43 | the inner loop; stated by ReleaseSpec |
| Dag.Drain | backend/main.py:35-43 | the outer loop; it terminates by DrainMeasure and keeps the invariant by InvStep |
| Dag.InitialQueue | backend/main.py:31 | the listed nodes of in-degree 0 in list order; InvInit shows it starts the invariant |
| Dag.ProcessingOrder | backend/main.py:31-43 | the nodes processed, in order; ProcessedAtMostOnce and AllProcessedNoCycle state what it is |
| Dag.AllProcessed | backend/main.py:46 | `processed == len(nodes)`; IsDagCorrect states that it means no cycle on well-formed input |
| Dag.InDegreesCount | backend/main.py:24-28 | `in_degree[v]` counts the edges into `v` |
| Dag.ReleaseSpec | backend/main.py:40-43 | the inner loop lowers each neighbour's in-degree by its number of occurrences and appends, once each, exactly the neighbours whose in-degree drops to 0 |
| Dag.DrainMeasure | backend/main.py:35-43 | each pop shrinks queue length plus the number of positive in-degrees, so the loop terminates on every input |
| Dag.InvStep | backend/main.py:35-43 | one pop keeps the loop invariant: in-degrees count unprocessed sources, nothing is queued twice, every processed node's sources were processed before it |
| Dag.StepShape | backend/main.py:36-43 | a pop takes the head off the queue, lowers each in-degree by the head's edge count into it, and appends, once each, the nodes whose in-degree it brings to 0 |
| Dag.PopShape | backend/main.py:36-43 | `queue.pop(0)` followed by appends leaves the tail followed by the appended nodes |
| Dag.HeadNotDone | backend/main.py:36 | with nothing queued twice, the popped node had not been processed before |
| Dag.StepCounted | backend/main.py:40-41 | after a pop the in-degrees still count the edges from unprocessed sources |
| Dag.StepNewcomer | backend/main.py:40-43 | a node appended during a pop is listed and was neither processed nor queued |
| Dag.StepListed | backend/main.py:36-43 | after a pop the processed and queued nodes are still listed nodes, none twice |
| Dag.StepZerosQueued | backend/main.py:40-43 | after a pop every listed node whose in-degree is 0 is processed or queued |
| Dag.StepCleared | backend/main.py:40-43 | after a pop no processed or queued node has an edge left from an unprocessed source |
| Dag.StepTopological | backend/main.py:36-37 | the popped node comes after all of its sources |
| Dag.RemainingZero | backend/main.py:41-42 | an in-degree reaches 0 iff all sources of the node were processed |
| Dag.IsDagCorrect | backend/main.py:18-46 | with distinct listed ids and every endpoint listed, the result is true iff the edges form no directed cycle |
| Dag.AllProcessedNoCycle | backend/main.py:46 | when every node was processed, the processing order ranks every edge's source first |
| Dag.UnprocessedCycle | backend/main.py:35-46 | when some node is left, the left-over nodes contain a cycle |
| Dag.BuildGraph | backend/main.py:20-28 | the edge loop builds, for each source, its targets in edge order, and each node's in-degree |
| Dag.ReleaseNeighbors | backend/main.py:40-43 | the inner loop computes the reference release step |
| Dag.IsDag | backend/main.py:18-46 | the imperative loops compute the reference result, which is cycle-freedom on well-formed input |
| Dag.DuplicateIdStart | backend/main.py:20-31 | on edges `a -> v`, `v -> v` with `a` listed twice, `v` starts at in-degree 2 and `a` is queued twice |
| Dag.SelfLoopIsNotDag | backend/main.py:24-46 | a self-loop in a well-formed pipeline gives false |
| Dag.NoEdgesIsDag | backend/main.py:31-46 | distinct nodes without edges give true |
| Dag.NoNodesIsDag | backend/main.py:31-46 | an empty node list gives true whatever the edges |
| Dag.UnlistedTargetHidesCycle | backend/main.py:31-46 | an edge to an unlisted node can make a cyclic pipeline read as a DAG |
| Dag.DuplicateIdHidesCycle | backend/main.py:31-46 | a node listed twice can make a cyclic pipeline read as a DAG |
| Dag.UnlistedSourceReadsAsCycle | backend/main.py:31-46 | an edge from an unlisted node can make an acyclic pipeline read as not a DAG (one instance: `x -> a` with only `a` listed) |
| Dag.UnlistedTargetOvershoots | backend/main.py:40-46 | an unlisted target is processed too, so the count can overshoot and give false (one instance: `a -> x` with only `a` listed) |
| Dag.UnlistedEndpointsCancel | backend/main.py:31-46 | the two effects can cancel: `x -> a`, `c -> y` with `a`, `c` listed is acyclic and reads as a DAG because `y` is counted in place of `a` |
| Dag.ProcessedAtMostOnce | backend/main.py:31-43 | on well-formed input each listed node is processed at most once and `processed` never exceeds the node count |
| Dag.ParallelEdgeIrrelevant | backend/main.py:24-43 | a duplicate edge does not change the result on well-formed input |
| Backend.EdgeError | backend/main.py:24-26 | the edge loop fails iff some edge lacks a key, with the `KeyError` of the first such edge (`source` checked before `target`) |
| Backend.NodeError | backend/main.py:31 | the queue comprehension fails iff some node lacks `id` |
| Backend.CheckDag | backend/main.py:18-46 | `is_dag` answers iff every key it reads is present; edge errors come before node errors |
| Backend.ParsePipeline | backend/main.py:52-67 | unparsable JSON gives `Invalid JSON format`; a non-object body gives the `.get` `AttributeError` text; otherwise a summary (counts of nodes and edges, absent keys as empty lists, and `is_dag`) exactly when every key is present, else only the error |
| Backend.ErrorMessageIsKey | backend/main.py:64-67 | the errors of `is_dag` name the missing key and are never the decoding message |
| Backend.ParseReportsCycles | backend/main.py:52-63 | on a well-formed pipeline the summary reports a DAG iff the edges form no cycle |
| Backend.MissingKeysAreEmpty | backend/main.py:56-63 | an object without `nodes` and `edges` gives zero counts and a DAG |
| Backend.EdgesAreReadFirst | backend/main.py:24-31 | with an incomplete edge, the error names that edge's missing key even when a node lacks `id` too |

## Left out

- JSON decoding: `json.loads` is foreign code. A request is modelled as already decoded: not JSON at all, or a JSON value.
- Request shapes the Python code would reject in other ways are not modelled:
  - non-string ids;
  - `nodes` or `edges` that are not lists;
  - list elements that are not objects.
- FastAPI routing, CORS, the front end's `fetch`, toasts and console logging: transport and I/O.
- Rendering:
  - JSX, styles and hover handlers;
  - the UI helper builders (`createTextInput`, `createTextArea`, `createSelect`);
  - the textarea auto-resize.
- React effect ordering: the model describes the settled state after effects.
- `onStateChange` callbacks: they only log.
- The custom `variableRegex` option of `createVariableInputs`: every caller uses the default pattern.
- The graph store and the reactflow calls (`addEdge`, `onNodesChange`, `useNodesState`, `getNodes`) are library or unseen code.
  - The nodes `getNodes` returns are passed as a parameter.
  - `onConnect` is not modelled.
- The caret position after an insertion is set by the browser and is not modelled.
- The remaining node files are data-only variants or rely on floating point, dates or JSON. They are not part of this model: math, LLM, date, JSON, output, echo, select, number, simple text, and the top-level input node.
- Js.Value: numbers are exact reals. There is no floating-point rounding, no `-0` and no infinity.
- Js.Lower: lower-cases ASCII letters only, where `toLowerCase` also maps other scripts.
- CounterNode.Decrement: requires a numeric count. JavaScript's coercion of a string count is not modelled, because the node only ever stores numbers.
- CounterNode.Increment: requires a numeric count. JavaScript's `+` on a string count concatenates; that case is not modelled, because the node only ever stores numbers.
- SimpleCounterNode.Minus: requires a numeric value, for the same reason.
- SimpleCounterNode.Plus: requires a numeric value, for the same reason.
- SimpleCounterNode.SetStep: takes the result of `Number(text)` as a parameter (a number or NaN). The string-to-number parsing itself is not modelled.
- NodeFactory.VariableInputs: a truthy field value that is not a string is read as empty text. `exec` would convert it to a string first.
- TextNode.TextOf: a text field that is not a string reads as empty.
- BaseNode.GetNodeColor: an inherited `Object.prototype` member is named, not modelled as the function it is.
- PipelineBuilder.Trim: `IsJsSpace` lists the white-space and line-terminator code points; it is stated on code points, as `trim` is.
- Strings are sequences of Unicode code points, where JavaScript strings are sequences of UTF-16 code units. Caret positions (`selectionStart`) and `slice` indices in `TextEditor.OnTextChange`, `TextEditor.HandleInputSelection` and `Js.Slice` are counted in code points. On text with a character outside the Basic Multilingual Plane before the caret, the same number points elsewhere in JavaScript.
- TextEditor.DataOr: models `||` on string-valued `data.name` and `data.type` only. A non-string value there (which the input nodes never store) is not modelled.
