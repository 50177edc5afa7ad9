# TL1 message formats and response records, in Dafny

This project models the grammar engine of the Ruby `tl1` library and the scanner that
cuts a raw TL1 response into records.

- **Format trees.** A format string such as `RTRV-EQPT:<tid>:<aid>:C1=<c1>` is parsed
  into a tree of five node kinds: `Literal`, `Variable`, `ColonSeparatedVariables`,
  `CommaSeparatedVariables` and `CommaSeparatedKeywordVariables`. A tree can also be
  built from its tagged structured form (`as_json` / `from_json`).
- **Rendering.** A tree and a map of values give an input message (`format`).
- **Matching.** A tree and a record text give a record hash (`parse`).
- **Quote-aware splitting.** The splitter never cuts inside a `"..."` span.
- **Response scanning.** The `OutputScanner` skips to each `M <n> COMPLD` status line
  and reads the quoted records that follow it, unescaping `\"..\"` on the way.
- **Format objects and commands.** `InputFormat` and `OutputFormat` cache the parsed
  tree. `Command` adds the `;` terminator to the input message and parses every
  record of a response.

Each stateful piece of the source is modelled as a Dafny method and proved equal to a
specification function:

- the splitter loops (`Split.Split`, `Split.SplitQuoted`);
- the `parse` methods that fill the record hash in place (`Matching.ParseNode` and
  its siblings, over a `Record` object);
- the cursor-driven scanner (`Scanning.OutputScanner`, over a `StringCursor` object);
- the cached `@ast` of the format classes (`Formats.InputFormat`, `Formats.OutputFormat`).

The lemmas then state what the library promises about those functions:

- splitting and joining are inverse;
- parsing classifies each `:` segment as the library does;
- the structured form round-trips;
- an input message rendered from plain values reads back as those values;
- matching writes only the variables of the node;
- a response yields every record, unescaped, in order, across all its blocks. Each block
  has a header of whole lines (possibly none, so the message or the continuation after `>`
  may start with the status line itself), any status line of the form `M`, white space,
  digits, white space, `COMPLD`, and any white space before each record and before the
  `;` or `>` that ends it. Records may hold embedded strings `\"...\"` with backslash
  pairs inside them.

Files, one module each:

| file | module | models |
|---|---|---|
| wrappers.dfy | Wrappers | `Option`, `Result` and the errors the library raises |
| split.dfy | Split | `split`, `split_quoted`, `remove_quotes` |
| ast.dfy | Ast | the node kinds, parsing format strings and the structured form, `as_json`, node equality |
| render.dfy | Rendering | `format` of every node |
| matching.dfy | Matching | `parse(fragment, record:)` of every node |
| readback.dfy | ReadBack | rendering followed by matching |
| scanner.dfy | Scanning | `Command::OutputScanner` |
| responses.dfy | Responses | the response grammar the scanner reads |
| formats.dfy | Formats | `InputFormat`, `OutputFormat` |
| command.dfy | Commands | `Command#input`, `#record_sources`, `#parse_output` |
| witnesses.dfy | Witnesses | the library's own examples, stated as lemmas about the model |
| escapes.dfy | Escapes | the escaped-quote record of the alarm example |

## Model

| member | source | states |
|---|---|---|
| Split.Segments | lib/tl1/ast.rb:35-67 | `split` as a function: at least one segment, and the only error is the unclosed quote |
| Split.UnitLength | lib/tl1/ast.rb:45-48 | the text one step of the loop adds to the segment: a quoted unit up to and including the next `"`, or one character; it fails exactly when a `"` has no partner |
| Split.SegmentsJoin | lib/tl1/ast.rb:35-51 | joining the segments of `s` with the delimiter gives `s` back |
| Split.SegmentsCount | lib/tl1/ast.rb:35-51 | the number of segments is 1 plus the number of delimiters outside quoted spans |
| Split.SegmentsIntact | lib/tl1/ast.rb:45-46 | every segment is made of whole units: its quotes are paired, and any delimiter in it is inside a quoted span |
| Split.JoinSegments | lib/tl1/ast.rb:35-67 | splitting the join of intact parts gives back exactly those parts (the inverse direction) |
| Split.NoQuoteIntact | lib/tl1/ast.rb:47-48 | text with neither a quote nor the delimiter is one intact segment |
| Split.UnclosedQuote | lib/tl1/ast.rb:53-67 | a `"` with no closing quote after it makes `split` raise "Unexpected end of quoted string", whatever came before |
| Split.SplitQuoted | lib/tl1/ast.rb:53-67 | the loop returns the text up to and including the next `"`, or raises when there is none |
| Split.NextUnit | lib/tl1/ast.rb:41-49 | one step of the `split` loop reads exactly the unit `UnitLength` measures |
| Split.Split | lib/tl1/ast.rb:35-51 | the loop with its growing array computes exactly `Segments` |
| Split.RemoveQuotes | lib/tl1/ast.rb:69-75 | one leading and one trailing `"` are removed only when both are present (a lone `"` gives the empty text); otherwise the text is unchanged |
| Ast.TagOf | lib/tl1/ast.rb:259-267 | every node's tag is one of the five names of the tag table |
| Ast.TagOfKind | lib/tl1/ast.rb:259-267 | each of the five node kinds has its own tag: a node has a given tag exactly when it is of that kind |
| Ast.Put | lib/tl1/ast.rb:175-178 | a hash store keeps an existing key in place with its new value, and appends a new key at the end |
| Ast.ToHashDistinct | lib/tl1/ast.rb:175-178 | `to_h` yields distinct keys |
| Ast.ToHashOfDistinct | lib/tl1/ast.rb:175-178 | `to_h` of pairs whose keys are already distinct keeps them as they are, in order |
| Ast.HashOfDistinct | lib/tl1/ast.rb:175-178 | the same, from an empty hash |
| Ast.Get | lib/tl1/ast.rb:28-32 | `source['key']` is the value of the last member with that key (a later duplicate key overrides an earlier one, as in a parsed JSON object), or nil when there is none |
| Ast.Lookup | lib/tl1/ast.rb:208 | `fetch(key)` fails exactly when the key is absent; otherwise it gives a value paired with that key |
| Ast.LookupEntry | lib/tl1/ast.rb:208 | with distinct keys, `fetch` of a keyword gives the variable stored with it |
| Ast.OptionalVariable | lib/tl1/ast.rb:242-244 | the brackets are removed only when they wrap the whole token (with no newline inside); otherwise the token is unchanged |
| Ast.CutAtEquals | lib/tl1/ast.rb:176 | `split('=', 2)` cuts at the first `=`: the key has no `=`, and key, `=` and value make up the pair |
| Ast.CutAtEqualsJoin | lib/tl1/ast.rb:176 | cutting `k=v` with `=`-free `k` gives back `k` and `v` |
| Ast.KeywordPairs | lib/tl1/ast.rb:175-178 | one pair per comma segment; it fails exactly when some segment has no `=` |
| Ast.KeywordPairsKeys | lib/tl1/ast.rb:175-178 | pair `i` is the text before the first `=` of segment `i`, with the variable named after it |
| Ast.OptionalVariables | lib/tl1/ast.rb:140 | a comma node has one variable per segment, each name given by `optional_variable` |
| Ast.Classify | lib/tl1/ast.rb:12-25 | a segment with `=` becomes a keyword node; else one with `,` a comma node; else `<...>` a variable named by `optional_variable`; else a literal of the segment. It fails only on text with `=` or `,`, and never gives a colon node |
| Ast.ParsedChildShape | lib/tl1/ast.rb:12-25 | a classified segment is never a colon node, and a keyword node from text has distinct keywords |
| Ast.ClassifyAll | lib/tl1/ast.rb:109 | one child per segment, each the classification of its segment; on failure, the error of some segment |
| Ast.VariableOfElement | lib/tl1/ast.rb:142 | `Variable.parse(e['fields'])`: a string element works exactly when it contains `fields` (`String#[]` gives that text, else nil), and then names the variable `fields`; nil and arrays raise |
| Ast.VariablesOfElements | lib/tl1/ast.rb:142 | a structured comma node gives one variable per element |
| Ast.KeywordsOfMembers | lib/tl1/ast.rb:180 | a structured keyword node keeps the keywords of the object, in order |
| Ast.KeyText | lib/tl1/ast.rb:180 | `k.to_s` succeeds on a string key (itself) and on nil (empty text) |
| Ast.PairOfItem | lib/tl1/ast.rb:180 | the two-parameter block `k, v` accepts an item only when it is an array of at least two entries, spread over `k` and `v` |
| Ast.KeywordsOfItems | lib/tl1/ast.rb:180 | an array of pairs gives one keyword pair per item |
| Ast.ItemsAsMembers | lib/tl1/ast.rb:180 | an array of `[key, value]` items reads as the same keyword pairs as the object with those members |
| Ast.PairsFormAgrees | lib/tl1/ast.rb:172-184 | a keyword node given as an array of pairs parses to the same node as one given as the object of those pairs |
| Ast.CommaFromStringShape | lib/tl1/ast.rb:137-146 | a comma node from text fails exactly when `split` does, and has one variable per segment named by `optional_variable` |
| Ast.KeywordsFromStringShape | lib/tl1/ast.rb:172-184 | a keyword node from text fails exactly when `split` does or some pair has no `=`, and its keywords are distinct |
| Ast.CommaFromFieldsShape | lib/tl1/ast.rb:137-146 | a structured comma node is a comma node with one variable per array element; an object works only when empty, and nil raises |
| Ast.KeywordsFromFieldsShape | lib/tl1/ast.rb:172-184 | a structured keyword node, from text, an object or an array of pairs, has distinct keywords; nil raises |
| Ast.FromJsonTag | lib/tl1/ast.rb:27-33 | `from_json` builds a node of the class its tag names; a tag not in the table raises "Unknown node type", and a known tag without fields raises |
| Ast.ColonElementShape | lib/tl1/ast.rb:12-25 | nil and arrays raise "Unparseable element"; a string never gives a colon node; an object gives a node of the class its tag names |
| Ast.ColonFromFields | lib/tl1/ast.rb:101-110 | `ColonSeparatedVariables.parse` always builds a colon node |
| Ast.Elements | lib/tl1/ast.rb:109 | one child per element of the structured list |
| Ast.ElementsCons | lib/tl1/ast.rb:109 | the children are the first element's node followed by the others' |
| Ast.ParseMessageFormat | lib/tl1/ast.rb:8-10 | the root of every parsed format is a colon node |
| Ast.FormatStringRoot | lib/tl1/ast.rb:8-10 | a parsed format string has one child per `:` segment, each the classification of its segment |
| Ast.UnknownTag | lib/tl1/ast.rb:28-30 | an element whose tag is not in the tag table raises "Unknown node type" |
| Ast.TaggedMembers | lib/tl1/ast.rb:87-90 | the structured form of a node carries its tag under `node` and its fields under `fields` |
| Ast.AsJsonTag | lib/tl1/ast.rb:87-90 | `as_json` of every node is an object with the node's class name under `node` and non-nil `fields` |
| Ast.ChildrenJson | lib/tl1/ast.rb:116-118 | a colon node's structured form has one element per child |
| Ast.ChildrenJsonAt | lib/tl1/ast.rb:116-118 | element `i` is the structured form of child `i` |
| Ast.NamesJson | lib/tl1/ast.rb:152-154 | a comma node's structured form has one element per variable |
| Ast.KeywordsJson | lib/tl1/ast.rb:186-188 | a keyword node's structured form pairs each keyword with its variable's structured form, in order |
| Ast.KeywordsJsonDistinct | lib/tl1/ast.rb:186-188 | the structured form of a keyword node keeps its keys distinct |
| Ast.VariableOfVariableJson | lib/tl1/ast.rb:238-240 | a structured variable reads back as `optional_variable` of its name |
| Ast.VariableElement | lib/tl1/ast.rb:27-33 | a structured variable, as a colon element, reads back as that variable |
| Ast.VariablesRoundTrip | lib/tl1/ast.rb:142 | the structured variables of a comma node read back as the same names |
| Ast.KeywordsRoundTrip | lib/tl1/ast.rb:180 | the structured members of a keyword node read back as the same pairs |
| Ast.FromJsonKeywords | lib/tl1/ast.rb:27-33 | `from_json` with the keyword tag hands the fields to the keyword class |
| Ast.FromJsonComma | lib/tl1/ast.rb:27-33 | `from_json` with the comma tag hands the fields to the comma class |
| Ast.CommaRoundTrip | lib/tl1/ast.rb:136-154 | a comma node survives `as_json` followed by `from_json` |
| Ast.KeywordRoundTrip | lib/tl1/ast.rb:171-188 | a keyword node with distinct keywords survives `as_json` followed by `from_json` |
| Ast.ElementRoundTrip | lib/tl1/ast.rb:12-33 | any child node of a format survives the trip through the structured form |
| Ast.PortableChild | lib/tl1/ast.rb:12-33 | a child that is not a colon node, has distinct keywords and has stable names makes the trip |
| Ast.ElementsOf | lib/tl1/ast.rb:109 | elements that each read back as their node read back as the list of those nodes |
| Ast.PortableReadsBack | lib/tl1/ast.rb:109-118 | the structured children of portable nodes each read back as their node |
| Ast.ElementsRoundTrip | lib/tl1/ast.rb:109-118 | the structured list of portable children reads back as those children |
| Ast.RoundTrip | lib/tl1/ast.rb:101-118 | `parse_message_format(root.as_json)` gives back the same root |
| Ast.ParsedRoundTrip | lib/tl1/ast.rb:8-33 | a format parsed from a string, with stable variable names, comes back identical from its structured form |
| Ast.SingleSegmentParse | lib/tl1/ast.rb:101-110 | a format string with no `:` and no `"` is a colon root with its one classified segment |
| Ast.SingleVariableJson | lib/tl1/ast.rb:238-244 | a structured variable comes back with `optional_variable` applied to its name |
| Ast.BracketedNameParse | lib/tl1/ast.rb:242-244 | the format string `<<x>>` gives the variable named `<x>` |
| Ast.BracketedNameRoundTrip | lib/tl1/ast.rb:238-244 | that variable does not survive the structured form: it comes back as `x` and compares unequal |
| Ast.NodeEqReflexive | lib/tl1/ast.rb:82-85 | a well-formed node equals itself |
| Ast.NodeEqSymmetric | lib/tl1/ast.rb:82-85 | node equality is symmetric on well-formed nodes |
| Ast.SameEntries | lib/tl1/ast.rb:82-85 | two keyword lists of the same length with the same entries compare equal as hashes |
| Ast.SameHashSymmetric | lib/tl1/ast.rb:82-85 | hash equality is symmetric |
| Ast.ColonEqualsComma | lib/tl1/ast.rb:82-85 | equality compares fields only: a colon node of variables equals the comma node of the same names |
| Ast.KeywordOrderIgnored | lib/tl1/ast.rb:82-85 | keyword nodes with the same pairs in another order are equal |
| Ast.LiteralEquality | lib/tl1/ast.rb:82-85 | a literal equals exactly the literal with the same text |
| Rendering.FormatChildren | lib/tl1/ast.rb:120-122 | one text per child of a colon node |
| Rendering.VariableTexts | lib/tl1/ast.rb:156-158 | text `i` of a comma node is the value of variable `i`, or empty when it has none |
| Rendering.Assignments | lib/tl1/ast.rb:194-202 | a keyword node writes one pair per keyword whose variable has a value |
| Rendering.AssignmentsPresent | lib/tl1/ast.rb:194-202 | the pairs written are `keyword=value` for exactly the keywords whose variable has a value, in definition order |
| Rendering.FormatLocal | lib/tl1/ast.rb:120-122 | a node's text depends only on the values of the variables it mentions |
| Rendering.ChildrenLocal | lib/tl1/ast.rb:120-122 | the same for the children of a colon node |
| Rendering.AssignmentsLocal | lib/tl1/ast.rb:194-202 | the same for a keyword node |
| Matching.ParseRecord | lib/tl1/ast.rb:124-132 | parsing a record succeeds exactly when no node raises |
| Matching.MatchNodeChanges | lib/tl1/ast.rb:124-132 | matching a node writes only the variables of that node, and leaves every other key of the record as it was |
| Matching.MatchChildrenChanges | lib/tl1/ast.rb:124-132 | the same for the children of a colon node from a given segment on |
| Matching.MatchNamesChanges | lib/tl1/ast.rb:160-166 | the same for a comma node |
| Matching.MatchPairsChanges | lib/tl1/ast.rb:204-213 | the same for a keyword node |
| Matching.MatchPairChanges | lib/tl1/ast.rb:205-210 | the same for one pair |
| Matching.NamesFromWithin | lib/tl1/ast.rb:124-132 | the variables of the later children are among those of all children |
| Matching.MatchNamesFails | lib/tl1/ast.rb:160-166 | a comma node raises exactly when there are more segments than variables, naming the first segment left over |
| Matching.MatchNamesKeeps | lib/tl1/ast.rb:160-166 | with no more segments than variables a comma node matches, and a variable with no segment stays unassigned |
| Matching.MatchNamesStores | lib/tl1/ast.rb:160-166 | each segment is stored, unquoted, under the variable at its position; an empty segment stores `""` |
| Matching.TrailingChildrenIgnored | lib/tl1/ast.rb:124-132 | children past the last segment take no part in matching |
| Matching.PairKey | lib/tl1/ast.rb:207 | the keyword of a pair is the text before its first `=`, or the whole pair when it has none |
| Matching.MatchPairEmpty | lib/tl1/ast.rb:206 | an empty pair, as between two adjacent commas, is skipped and changes nothing |
| Matching.MatchPairUnknown | lib/tl1/ast.rb:207-208 | a pair whose keyword the node does not define makes `fetch` raise, naming that keyword, and leaves the record alone |
| Matching.MatchPairKnown | lib/tl1/ast.rb:207-209 | a known keyword without `=` raises; with `=` its value, unquoted, is stored under the keyword's variable |
| Matching.MatchPairAccepted | lib/tl1/ast.rb:205-210 | one pair matches exactly when it is empty or a known keyword with a value; a pair that raises leaves the record as it was |
| Matching.MatchPairsFails | lib/tl1/ast.rb:204-213 | a keyword group raises exactly when one of its pairs is neither empty nor a known keyword with a value |
| Matching.MatchChildrenFails | lib/tl1/ast.rb:124-132 | a colon node with more segments than children raises on the first segment left over |
| Matching.MatchPairsKeeps | lib/tl1/ast.rb:204-213 | a variable whose keyword no pair names is left alone: absent keywords add nothing |
| Matching.LiteralMatch | lib/tl1/ast.rb:230-233 | a literal matches only its own text, never writes the record, and otherwise raises the literal mismatch |
| Matching.ParseNode | lib/tl1/ast.rb:124-132 | `node.parse(fragment, record:)` updates the record in place exactly as `MatchNode` says, and reports its error |
| Matching.ParseChildren | lib/tl1/ast.rb:125-129 | the `zip` loop over the children updates the record as `MatchChildren` says |
| Matching.ParseNames | lib/tl1/ast.rb:160-166 | the `zip` loop over the variables updates the record as `MatchNames` says |
| Matching.ParsePairs | lib/tl1/ast.rb:204-213 | the loop over the pairs updates the record as `MatchPairs` says |
| ReadBack.FormatThenParse | lib/tl1/ast.rb:120-132 | a message rendered from plain values parses back to the value of every variable the message wrote |
| ReadBack.RootReadBack | lib/tl1/ast.rb:120-132 | matching the rendered message of a colon root fills exactly the written variables |
| ReadBack.ChildrenReadBack | lib/tl1/ast.rb:124-132 | the children match their own rendered texts one after the other |
| ReadBack.ChildReadBack | lib/tl1/ast.rb:120-256 | any clean child matches its rendered text |
| ReadBack.CommaReadBack | lib/tl1/ast.rb:156-166 | a comma node matches its rendered text |
| ReadBack.NamesReadBack | lib/tl1/ast.rb:160-166 | each variable reads back its own value |
| ReadBack.KeywordsReadBack | lib/tl1/ast.rb:194-213 | a keyword node matches its rendered text, filling the variables that had values |
| ReadBack.PairsReadBack | lib/tl1/ast.rb:204-213 | the rendered pairs are read one after the other |
| ReadBack.PairReadBack | lib/tl1/ast.rb:204-213 | one rendered pair stores its value under its variable |
| ReadBack.PresentVariables | lib/tl1/ast.rb:194-202 | the variables written by a keyword node are exactly those with values |
| ReadBack.CleanText | lib/tl1/ast.rb:120-202 | a clean node rendered from plain values has no `:` and no `"` |
| ReadBack.PlainUnquoted | lib/tl1/ast.rb:69-75 | text with no `"` is not changed by `remove_quotes` |
| ReadBack.FormatChildrenAt | lib/tl1/ast.rb:120-122 | text `i` of a colon node is the text of child `i` |
| Scanning.SpacesEnd | lib/tl1/command.rb:58 | `skip(/\s*/)` stops at the first character that is not white space |
| Scanning.SpacesSkipped | lib/tl1/command.rb:58 | every character it passes is white space |
| Scanning.DigitsEnd | lib/tl1/command.rb:54 | `\d+` stops at the first non-digit |
| Scanning.DigitsSkipped | lib/tl1/command.rb:54 | every character it passes is a digit |
| Scanning.StatusLineAt | lib/tl1/command.rb:54 | a match of `M\s+\d+\s+COMPLD$` starting at a position ends after it |
| Scanning.FindStatusLine | lib/tl1/command.rb:53-55 | the search for the next status line ends past where it starts |
| Scanning.FindStatusLineNone | lib/tl1/command.rb:53-55 | the search finds nothing exactly when no status line starts at a line start from there on |
| Scanning.FindStatusLineFirst | lib/tl1/command.rb:53-55 | a search that succeeds ends after the first status line from there on |
| Scanning.AfterStatusLine | lib/tl1/command.rb:53-55 | `scan_begin` never moves the cursor backwards or past the end |
| Scanning.EmbeddedBody | lib/tl1/command.rb:98-111 | reading an embedded string moves the cursor forward |
| Scanning.RecordBody | lib/tl1/command.rb:78-96 | reading a record moves the cursor forward |
| Scanning.NextRecord | lib/tl1/command.rb:57-69 | a record found moves the cursor forward |
| Scanning.RecordsFromExtends | lib/tl1/command.rb:41-51 | collecting records only appends: the records already collected stay first, in order |
| Scanning.StringCursor.AtEnd | lib/tl1/command.rb:73 | `eos?` holds exactly at the end of the text |
| Scanning.StringCursor.Getch | lib/tl1/command.rb:59 | `getch` gives the next character and advances by one, or gives nil at the end |
| Scanning.StringCursor.SkipSpaces | lib/tl1/command.rb:58 | `skip(/\s*/)` moves the cursor to `SpacesEnd` |
| Scanning.StringCursor.SkipUntilStatusLine | lib/tl1/command.rb:54 | `skip_until` moves the cursor to after the next status line, or leaves it |
| Scanning.OutputScanner.Records | lib/tl1/command.rb:41-51 | the loop collecting records computes exactly `RecordList` |
| Scanning.OutputScanner.ScanBegin | lib/tl1/command.rb:53-55 | the cursor ends after the next status line, or stays |
| Scanning.OutputScanner.ScanNextRecord | lib/tl1/command.rb:57-69 | the record, the error or the end of the list are those `NextRecord` gives |
| Scanning.OutputScanner.ScanRecord | lib/tl1/command.rb:71-96 | the record text and the cursor after it are those `RecordBody` gives |
| Scanning.OutputScanner.ScanRecordQuotedString | lib/tl1/command.rb:98-111 | the embedded string and the cursor after it are those `EmbeddedBody` gives |
| Responses.EmbeddedRead | lib/tl1/command.rb:98-111 | an embedded string of plain characters (a bare `"` among them) and backslash pairs other than `\"` is read up to its closing `\"`: each pair is kept as both characters and the closing pair becomes a plain `"` |
| Responses.PieceRead | lib/tl1/command.rb:78-96 | a character, a backslash pair or an escaped embedded string (its own backslash pairs kept) is read as its text |
| Responses.RecordRead | lib/tl1/command.rb:78-96 | a record written as valid pieces reads as their text, ending after the closing quote |
| Responses.RecordUnclosed | lib/tl1/command.rb:71-76 | a record with no closing quote raises "Unexpected end of message" |
| Responses.SpacesOver | lib/tl1/command.rb:58 | `skip(/\s*/)` over a run of white space stops at the first character after it |
| Responses.StatusLineRead | lib/tl1/command.rb:54 | any status line `M`, white space, digits, white space, `COMPLD`, at the end of its line, is recognised and ends after `COMPLD` |
| Responses.BlockBegin | lib/tl1/command.rb:53-55 | `scan_begin` from the start of a block passes over its header and stops at the end of its status line |
| Responses.SpaceSkipped | lib/tl1/command.rb:58 | white space before the next record makes no difference to it |
| Responses.LineRead | lib/tl1/command.rb:57-69 | a record after any run of white space is read as its text, ending after its closing quote |
| Responses.ResponseEnd | lib/tl1/command.rb:58-60 | white space and then `;` end the list of records |
| Responses.ResponseContinues | lib/tl1/command.rb:58-64 | white space and then `>` go on with the records after the next status line |
| Responses.ResponseRecords | lib/tl1/command.rb:41-69 | a response of one or more blocks, each with its own status line and its own white space before each record and terminator, yields the text of every record of every block, in order |
| Formats.FormatJson | lib/tl1/output_format.rb:15-17 | `as_json` succeeds exactly when the format parses |
| Formats.FormatWith | lib/tl1/input_format.rb:20-22 | `format` succeeds exactly when the format parses |
| Formats.ParseWith | lib/tl1/output_format.rb:19-21 | a format that does not parse makes `parse` raise its error |
| Formats.MessageReadBack | lib/tl1/output_format.rb:19-21 | a readable format parses its own rendered message back to the values it wrote |
| Formats.JsonFormatAgrees | lib/tl1/output_format.rb:11-21 | a format given as its structured form renders and parses like the format string it came from |
| Formats.InputFormat.Ast | lib/tl1/input_format.rb:12-14 | `ast` is `parse_message_format(source)` and is cached after the first call |
| Formats.InputFormat.AsJson | lib/tl1/input_format.rb:16-18 | `as_json` is the structured form of the tree |
| Formats.InputFormat.Format | lib/tl1/input_format.rb:20-22 | `format` renders the tree, with no terminator |
| Formats.OutputFormat.Ast | lib/tl1/output_format.rb:11-13 | `ast` is `parse_message_format(source)` and is cached after the first call |
| Formats.OutputFormat.AsJson | lib/tl1/output_format.rb:15-17 | `as_json` is the structured form of the tree |
| Formats.OutputFormat.Parse | lib/tl1/output_format.rb:19-21 | `parse` matches the record text against the tree, from an empty record |
| Commands.InputTerminated | lib/tl1/command.rb:16-18 | `input` is the rendered input format followed by exactly one `;`, and fails when the format does |
| Commands.ParseAll | lib/tl1/command.rb:27-29 | one record hash per record text, each what `parse` gives it |
| Commands.ParseAllFirstError | lib/tl1/command.rb:27-29 | on failure the error is that of the first record that fails |
| Commands.OutputWithoutRecords | lib/tl1/command.rb:24-30 | without an output format the raw output is returned; a response with no records gives no hashes |
| Commands.ResponseParsed | lib/tl1/command.rb:24-30 | `parse_output` of a well-formed response parses every record of every block, in order |
| Commands.FormattedResponseParsed | lib/tl1/command.rb:24-30 | a response whose records were rendered by the output format from plain values parses back to those values, record by record |
| Commands.Command.constructor | lib/tl1/command.rb:11-14 | the command holds an input format and, when given one, an output format |
| Commands.Command.Input | lib/tl1/command.rb:16-18 | `input` gives `InputMessage` |
| Commands.Command.RecordSources | lib/tl1/command.rb:20-22 | `record_sources` gives the records of the output |
| Commands.Command.ParseOutput | lib/tl1/command.rb:24-30 | `parse_output` gives `OutputOf` the output |
| Witnesses.QuotedSplitExample | lib/tl1/ast.rb:45-46 | `a,"b,c",d` splits on `,` into `a`, `"b,c"` and `d` |
| Witnesses.SplitClear | lib/tl1/ast.rb:35-51 | parts with no quote and no delimiter split back out of their join |
| Witnesses.VariableSegment | lib/tl1/ast.rb:20-21 | the segment `<x>` is the variable `x` |
| Witnesses.LiteralSegment | lib/tl1/ast.rb:22-23 | plain text not in brackets is a literal |
| Witnesses.CommaSegment | lib/tl1/ast.rb:18-19 | `a,b` is the comma node of their variable names |
| Witnesses.KeywordSegment | lib/tl1/ast.rb:16-17 | `k=v` is a keyword node of one pair |
| Witnesses.KeywordsSegment | lib/tl1/ast.rb:16-17 | `k1=v1,k2=v2` is a keyword node of two pairs, in that order |
| Witnesses.OneElement | lib/tl1/ast.rb:142 | a structured comma node of one element has that element's variable, or raises when the element does |
| Witnesses.StringElements | lib/tl1/ast.rb:142 | the elements `"fields"` and `"my fields"` both give the variable `fields`; a string without `fields` raises |
| Witnesses.PairArrayKeywords | lib/tl1/ast.rb:180 | `[["C1", {"node":"Variable","fields":"c1"}]]` gives the keyword node with `C1` bound to `c1` |
| Witnesses.ClassifyEach | lib/tl1/ast.rb:109 | segments that each classify to a node classify together to those nodes |
| Witnesses.FormatOfSegments | lib/tl1/ast.rb:101-110 | a format string whose segments classify to nodes parses to the colon node of those nodes |
| Witnesses.EquipmentParse | spec/tl1/input_format_spec.rb:8 | `RTRV-EQPT:<tid1>,<tid2:<aid>:C1=<custom1>,C2=<custom2>` parses with the unclosed `<tid2` kept as a variable named `<tid2` |
| Witnesses.EquipmentMessage | spec/tl1/input_format_spec.rb:8-11 | that format with aid, tid1 and custom2 renders `RTRV-EQPT:first,:MS-1:C2=second` |
| Witnesses.ServiceParse | spec/tl1/output_format_spec.rb:71-83 | `<from_aid>,<to_aid>::SERVICENAME=<service_name>` parses with an empty literal in the middle |
| Witnesses.ServiceMatch | spec/tl1/output_format_spec.rb:71-83 | on `a,b:t:` that format reads both names when `t` is empty, and otherwise raises the literal mismatch |
| Witnesses.ServiceExample | spec/tl1/output_format_spec.rb:78-83 | `asdf,asdf::` parses to exactly `from_aid` and `to_aid`, both `asdf` |
| Witnesses.ServiceMismatch | spec/tl1/output_format_spec.rb:71-76 | `asdf,asdf:ASDF:` raises the literal mismatch |
| Witnesses.LiteralInput | spec/tl1/command_spec.rb:49-52 | the input format `EXAMPLE` gives the input `EXAMPLE;` |
| Escapes.CharsThenEncode | lib/tl1/command.rb:92-93 | plain text taken as one character piece each is written as itself |
| Escapes.CharsThenText | lib/tl1/command.rb:92-93 | plain text taken as one character piece each stands for itself in the record |
| Escapes.CharsThenAt | lib/tl1/command.rb:92-93 | text with no quote and no backslash gives valid character pieces, written where the text is |
| Escapes.PartsRead | lib/tl1/command.rb:78-111 | text, an escaped embedded string (backslash pairs inside it kept), more text and a closing quote read, through `Responses.RecordRead`, as the text with plain quotes |
| Escapes.EscapedRecord | spec/tl1/command_spec.rb:65-85 | the record `a\"q\"b"` reads as `a"q"b`, as in the alarm listing `XFP-11-12-3,EQPT:\"XFP missing.\",,,:,` |

## Left out

- lib/tl1/session.rb, lib/tl1/test_io.rb and lib/tl1.rb are not part of this model. They are blocking I/O on a transport, with timeouts.
- lib/tl1/platforms/bti.rb is not part of this model. It is a catalog of command definitions: data, not mechanism.
- JSON text (`to_json`, `JSON.parse`) is not modelled. The structured form is the parsed value, a `Json` datatype with string keys; numbers and booleans are left out because no format uses them.
- Ruby symbols and strings are both modelled as strings. The difference between a symbol key and a string key is lost.
- `Comparable#<=>` is modelled only as the equality it induces (`Ast.NodeEq`); the ordering is not.
- `StringScanner` is modelled as a text and an index. Only the one regex the scanner uses, `^M\s+\d+\s+COMPLD$`, is modelled, by hand.
- Ruby exceptions are modelled as `Err` values of one error type; the messages are not modelled.
- Variable#format returns nil for a missing value and `join` writes it as empty text. The model writes the empty text directly.
- Extra segments crash the source. At lib/tl1/ast.rb:125-128 and 161-162, `zip` pairs an extra segment with nil, and calling `parse` on nil raises NoMethodError. The model gives this crash the error `ExtraSegment`. A separate `ArityMismatch` error is not raised, because the code has none; missing segments leave the trailing variables unassigned, as the code does.
- A backslash as the last character of a record makes the source fail on `record << nil`; the model gives this its own error, `BackslashAtEnd`.
- `scan_next_record` stops silently on any character other than `"`, `;` and `>`, and at the end of the text, as the code does.
- Ast.RoundTrip: requires every variable name to be stable under `optional_variable`. A name that is itself wrapped in `<...>`, which only the format string `<<x>>` produces, does not survive the structured form (`Ast.BracketedNameRoundTrip` shows this).
- Ast.ParsedRoundTrip: the same stable-name requirement.
- Formats.JsonFormatAgrees: the same stable-name requirement.
- ReadBack.FormatThenParse: requires plain values (no `:`, `,` or `"`) and clean formats. Values that contain delimiters or quotes do not read back in general, so no claim is made for them.
- Responses.StatusLineRead: requires a line break after `COMPLD`. The regex's `$` also matches at the very end of the text; no record can follow such a line, so nothing is lost for the record theorems.
- Responses.ResponseRecords: requires that no line of a block's header start with `M`, and that the header be whole lines (empty, or ending in a line break), as the status line must start a line. The source also passes over such a line when it is not a status line; excluding it keeps the search for the status line simple to state. Anything other than white space between records is not covered; the source stops there silently.
- Commands.ResponseParsed: the same header requirement as `Responses.ResponseRecords`.
- Commands.FormattedResponseParsed: the same header requirement as `Responses.ResponseRecords`.
- Ast.KeyText: the `inspect` text that `to_s` gives an array or object key is not modelled; such a key is refused.
- Scanning.OutputScanner.ScanNextRecord: the cursor position is stated only when a record is returned, not after `;`, another character or an error.
- Scanning.OutputScanner.ScanRecord: the cursor position after an error is not stated.
- Scanning.OutputScanner.ScanRecordQuotedString: the cursor position after an error is not stated.
- Escapes.EscapedRecord: requires no quote and no backslash in the text before and after the embedded string. The source also keeps backslash pairs there; `Responses.RecordRead` covers any mix of characters, backslash pairs and embedded strings.
- Escapes.PartsRead: the same requirement on the text around the embedded string.
- Witnesses.ServiceMatch: covers only record texts whose fields are plain names.
- The alarm record's match against its 8-field output format is not stated as a concrete lemma. `ReadBack.FormatThenParse` covers such matches in general.
