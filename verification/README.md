# pljs_fdw: a verified model

pljs_fdw is a PostgreSQL foreign data wrapper whose tables are implemented by
JavaScript modules. This project models the C side's planner and executor logic
(`fdw.c`) and five of the modules that ship with it, and proves what they
promise. `dafny verify dfyconfig.toml` checks everything.

The code that works by changing things is modelled that way: the scanners,
codecs and parsers are methods with loops, and `MsgWriter`, `SocketReader`,
`PgConnection`, the XML row collector, the instance cache, the scan node and the
direct-modify node are classes with the source's own fields. Each method is
proved equal to a specification function or relation, and the theorems are about
those.

- **XML rows** (`Xml*.dfy`). A tree grammar (`Forest`) with its printer, covering
  text written raw, as entities or as references to any code point, quoted
  attributes that may hold `>`, comments, CDATA, instructions, declarations and
  self-closing tags. `RowsOf` says by recursion on the tree which rows a document
  holds; `ScanDocument` shows that the single-pass scanner, run on the printed
  text, finds exactly those, and when they are the rows XML means. Names are
  those of XML's productions [4] and [4a] in ASCII, stated apart from the scanner.
  The control state keeps its invariant on every text, well-formed or not.
- **Planner logic** (`FdwQuals.dfy`, `FdwRefinement.dfy`, `FdwSort.dfy`,
  `FdwDirectModify.dfy`). Expressions are evaluated under three-valued logic over
  an arbitrary meaning of operators and functions. Pushing quals, pruning columns
  and rechecking the rest gives the query's answer; the claimed sort order holds;
  direct modify leaves the table, and reports the count, of the statement with its
  SET expressions evaluated on each row.
- **Executor state** (`FdwCache.dfy`, `FdwScan.dfy`, `FdwForeignScan.dfy`). The
  (role, table) cache is never stale over any run of DDL, module writes and lookups,
  what a lookup must find being read off the catalog's option lists; every iterator
  of a scan is released once, every row it yields reaches the slot, and a scan from
  plan to last slot answers its query.
- **Wire client** (`Utf8.dfy`, `Base64.dfy`, `PgWire.dfy`, `PgQuery.dfy`,
  `PgSession.dfy`, `PgRequests.dfy`, `PgResponses.dfy`). Codecs with their 32-bit
  arithmetic, framing over arbitrarily chunked input, message bodies against section
  55.7 of the PostgreSQL 16 manual, the five messages of `query()` as a server reads
  them, and its reading loop on answers, errors and connections that end early.
- **SCRAM** (`Scram*.dfy`). `scramAuth` over an arbitrary hash and HMAC, against a
  server written from RFC 5802 that forms its keys and the text it authenticates
  itself; when exactly that server accepts the client, and the client the server.
- **CSV** (`CsvParser.dfy`), **self-test table** (`SelfTest.dfy`,
  `SelfTestExecute.dfy`) and **remote SQL** (`SqlReader.dfy`, `RemoteSql*.dfy`,
  `RemoteTable.dfy`): parser and printers, the sort comparator against ORDER BY,
  and generated statements against a lexer and reader of SQL.

`Options.dfy`, `Sequences.dfy`, `ColumnMaps.dfy`, `JsStrings.dfy` and
`JsNumbers.dfy` hold what they share. Strings are sequences of UTF-16 code units;
shifts and masks are written as `/` and `%`.

## Where the code and its description differ

The model follows the code.

- The header of `examples/xml_fdw.js` (lines 12-14) speaks of direct child
  elements. The code captures a column-named element at any depth that is not
  inside another captured column or a nested row element; `DirectChildrenOnly` and
  `RowsAreDirect` say exactly when captures and rows agree, and
  `GrandchildIsCaptured` shows a difference.
- `String.fromCharCode` keeps 16 bits (`examples/xml_fdw.js:129-131`), so a legal
  reference such as `&#128512;` becomes another character: `SmileyIsCut`. Written
  raw, these characters come through.
- Section 2.11 of XML 1.0 turns CR LF, and a lone CR, into one LF; the code hands on
  the file's own line ends (`examples/xml_fdw.js:227-243`): `LineEndIsKept`.
- The scanner reads the ASCII part of a name (`examples/xml_fdw.js:40-61`), so an
  element whose name goes on after it can be taken for a column: `NameIsCut`.
  `NameRightExactly` says when a tag is taken for what it is.
- Where all tags are, a document's rows are right exactly when no column's text
  holds a reference beyond 16 bits or a CR written as itself: `RowsAreRight`.
- `_parseDataRow` compares an unsigned length with -1 (`examples/pgwire.js:551`),
  so the NULL branch is never taken: `UnsignedLength`, `NeverNull`,
  `DataRowExactlyWithoutNull`. The same branch with the length read as signed is
  proved in `DataRowRoundTrip`.
- `compareForSort` negates after nulls have been placed
  (`examples/self_test_fdw.js:130-140`), so `desc` also turns `nullsFirst` round:
  `NullsPlacement`, `ComparesAsTurnedRound`. Nulls are in place in the rows of
  `execute()` all the same, because no generated column mixes them with values.
- Texts are compared by code units, where SQL goes by a collation: the order is
  SQL's under every collation that agrees on the rows' texts (`ExecuteIsCorrect`).
- `evalQual` compares as JavaScript does (`examples/self_test_fdw.js:110-122`): in
  null mode `column <> 5` lets every row through, where the contract of a pushed
  qual lets none (`NullModeLetsNullThrough`), and a text less than another by the
  bytes of UTF-8 need not be so by code units (`CollationLosesRow`). `FilterIsSql`
  says, for any collation, exactly when the filter is SQL's.
- `match_pathkeys` looks only at the first member of an equivalence class that is
  computed from the relation (`fdw.c:1092-1162`), so the claim can stop early:
  `ClaimsLongest`, `ClaimCanStopEarly`.
- A last CSV line without a line end is lost when it is a single empty field
  (`examples/csv_fdw.js:130`): `ParseUnterminated`, `LastEmptyFieldIsLost`. A CR
  alone ends a row too. A negative skipRows gives objects without properties under
  a header and a TypeError without one: `NegativeSkip`.
- `update()` in a loop and one `updateWhere()` agree on every table exactly when
  the row-id column is not among those assigned: `PathsAgreeExactly`. `fdw.c` does
  not look at that when it chooses direct modify.
- A server nonce may legally hold `s=`; the client's `/s=([^,]*)/` then reads the
  salt from inside it and answers with the wrong key: `SaltFound`, `NonceHidesSalt`.
  The same goes for `i=` and a digit: `CountFound`, `NonceHidesCount`.
- RFC 5802 salts the normalized password (SASLprep); the client salts it as it is
  (`examples/pgwire.js:324-325`). A server that turns the password "ª" into "a",
  as SASLprep does, may refuse the client: `OrdinalCanBeRefused`.
- The client is accepted under every hash and HMAC exactly when normalization leaves
  the password alone and it reads the salt and the count that were sent:
  `AcceptedExactly`.
- Bind sends its count of parameters modulo 65536 (`examples/pgwire.js:471`), which a
  batch of many columns can reach: `BindCount`.
- Writes use the local names of columns (`examples/remote_pg_fdw.js:120-206`), while
  scans apply the `column_name` mapping: `WritesAreMapped`, `UpdateWritesLocalName`.
- `insertMany` takes its columns from the first row: `BatchIsSingleInserts` says
  exactly when a batch stores what single inserts would, `BatchDropsValue` shows a
  value lost.
- With no column to set or insert, `update`, `updateWhere`, `insert` and
  `insertMany` build texts that are no SQL statement: `UpdateMeans`,
  `UpdateWhereMeans`, `InsertMeans`.
- `bodyReadCString` and `pgError` never end on a body without its terminator
  (`examples/pgwire.js:236-240`, `366-378`); the model gives `Unterminated`,
  `None` or `NeverEnds` there, exactly as `UnterminatedExactly` and `ErrorTextEnds`
  say.

## Model

| member | source | states |
|---|---|---|
| XmlScanner.ReadName | examples/xml_fdw.js:51-61 | the name at a position, as the longest run of name characters after a name start; which characters these are, AsciiNameIsRead says |
| XmlScanner.SkipToTagEnd | examples/xml_fdw.js:66-91 | where a tag ends and whether it closes itself, whatever stands in quoted values; never more than one past the end of the text |
| XmlScanner.DecodeEntities | examples/xml_fdw.js:96-144 | the index loop computes the recursive decoding, including entities it leaves as written |
| XmlScanner.ReadToken | examples/xml_fdw.js:236-269 | the token the main loop takes at a position depends only on the text from there on |
| XmlRows.OnStart | examples/xml_fdw.js:167-202 | a start tag keeps the invariant: a row is open iff rootSeen is at least 1, and a column is active only with rootSeen 1 and depth at least 1 |
| XmlRows.OnEnd | examples/xml_fdw.js:204-225 | an end tag keeps the invariant, matched or not |
| XmlRows.OnText | examples/xml_fdw.js:227-231 | text keeps the invariant |
| XmlRows.Scan | examples/xml_fdw.js:151-272 | on every text the invariant holds to the end, and the scan ends although a tag may step past the text |
| XmlRows.RowCollector.HandleStart | examples/xml_fdw.js:167-202 | the fields after a start tag are the state function's |
| XmlRows.RowCollector.HandleEnd | examples/xml_fdw.js:204-225 | the fields after an end tag are the state function's |
| XmlRows.RowCollector.HandleText | examples/xml_fdw.js:227-231 | the fields after text are the state function's |
| XmlRows.ParseXmlRows | examples/xml_fdw.js:151-272 | the scanning loop over positions computes Scan |
| XmlRows.TranslateRow | examples/xml_fdw.js:325-330 | the local row has, for each wanted column, what the remote row holds under the mapped name |
| ColumnMaps.RemoteNameIs | examples/xml_fdw.js:318-319 | a column's remote name is what it is mapped to, or its own if that is absent or empty |
| XmlRows.ExecuteXml | examples/xml_fdw.js:313-336 | the rows yielded for a text, a column map and a filter |
| XmlDocuments.EntityRoundTrip | examples/xml_fdw.js:120-132 | each named entity, and each decimal or hexadecimal reference with any digits, decodes to the low 16 bits of its character |
| JsNumbers.DigitValueExactly | examples/xml_fdw.js:128-132 | the digits are 0 to 9 and a to f in either case, by their values |
| JsNumbers.FirstDigitCounts | examples/xml_fdw.js:128-132 | a numeral is worth what positional notation says in base 10 or 16 |
| XmlDocuments.DecodePiece | examples/xml_fdw.js:96-144 | whatever follows, a written character decodes to that unit, for every way of writing one (section 4.1 of XML 1.0) |
| XmlDocuments.DecodesRight | examples/xml_fdw.js:128-132 | it decodes to the character itself iff that fits 16 bits |
| XmlDocuments.SmileyIsCut | examples/xml_fdw.js:128-132 | `&#128512;` decodes to U+F600 |
| XmlDocuments.CapitalX | examples/xml_fdw.js:120-132 | a hexadecimal reference with a capital X is read too |
| XmlDocuments.UnknownIsLeft | examples/xml_fdw.js:93-144 | an unknown entity, and an ampersand without a semicolon after it, stay as written |
| XmlDocuments.MarkupIsXml | examples/xml_fdw.js:236-258 | the markup the scanner looks for is that of XML 1.0, character by character |
| XmlDocuments.ScanOpen | examples/xml_fdw.js:262-268 | a printed start or empty-element tag, with any attributes, is one start event |
| XmlDocuments.ScanClose | examples/xml_fdw.js:258-262 | a printed end tag is one end event |
| XmlDocuments.ScanCData | examples/xml_fdw.js:248-251 | a CDATA section is its content as literal text |
| XmlDocuments.ScanComment | examples/xml_fdw.js:245-247 | a comment changes nothing, whatever it holds |
| XmlDocuments.ScanForest | examples/xml_fdw.js:151-272 | in any valid control state, scanning a printed forest changes it by the forest's meaning as coded; the tags it opened are closed again |
| XmlExtraction.ScanDocument | examples/xml_fdw.js:151-272 | for every document, scanning gives the rows of the recursive tree function as the code reads it; if no tag is taken for another, these are the rows as XML 1.0 reads it iff no column's text holds a reference beyond 16 bits or a raw CR |
| XmlExtraction.NameRightExactly | examples/xml_fdw.js:40-61 | a tag's start means the same under the name the code reads as under its whole name, in every state, iff neither or both are the row element and neither or both the same column |
| XmlExtraction.AsciiNameIsRead | examples/xml_fdw.js:40-61 | a tag whose whole XML name is ASCII by productions [4] and [4a] of section 2.3 of XML 1.0 is read under that name |
| XmlExtraction.AsciiTagIsValid | examples/xml_fdw.js:40-91 | a tag of such a name with nothing, or white space and quoted values in either quote, after it is read by its name |
| XmlExtraction.AsciiNamesAreRight | examples/xml_fdw.js:40-61 | in a well-formed document with only such names no tag is taken for another, whatever is looked for |
| XmlExtraction.ScanAsciiDocument | examples/xml_fdw.js:151-272 | so its rows are XML 1.0's iff no column's text holds a reference beyond 16 bits or a raw CR |
| XmlExtraction.UnclosedIsRest | examples/xml_fdw.js:245-254 | a comment, instruction or CDATA section that is never closed takes the rest of the text |
| XmlExtraction.TextIsRight | examples/xml_fdw.js:227-243 | the text of a column is XML's iff it holds no reference beyond 16 bits and no raw CR (section 2.11 of XML 1.0) |
| XmlExtraction.LineEndIsKept | examples/xml_fdw.js:227-243 | a document with a CR LF that the code keeps |
| XmlExtraction.NameIsCut | examples/xml_fdw.js:40-61 | a document whose element is taken for a column because of its name's ASCII part |
| XmlExtraction.RowsAreRight | examples/xml_fdw.js:151-272 | with no tag taken for another, the coded rows and XML's are the same iff the last content of every column of every row is free of such references and CRs |
| XmlExtraction.DirectChildrenOnly | examples/xml_fdw.js:12-20 | the captures are those of direct children iff other elements hold no column-named descendants |
| XmlExtraction.RowsAreDirect | examples/xml_fdw.js:12-20 | the rows are those of direct children iff no column of a row gets another text from deeper down, in particular if only direct children have columns' names |
| XmlExtraction.GrandchildIsCaptured | examples/xml_fdw.js:167-202 | a document in which a grandchild becomes a column's value |
| XmlExtraction.ExecuteDocument | examples/xml_fdw.js:313-336 | for every document, one row for each row of the tree that passes the filter, in order, each wanted column with the tree's value under the name it is mapped to |
| FdwQuals.ExtractPushableQuals | fdw.c:844-870 | the loop collects the recognized quals in clause order |
| FdwQuals.SimpleQualIsClause | fdw.c:777-838 | a recognized clause is true of a row exactly when its qual accepts the row, either way round and under null |
| FdwQuals.RecognizedExactly | fdw.c:777-838 | a clause gives a qual iff it is `column op constant` of the relation with one of the six operators, either operand under casts, or `constant op column` whose commutator is |
| FdwQuals.QualsToPlanPrivate | fdw.c:909-926 | the encoded list, qual by qual |
| FdwQuals.QualsFromPlanPrivate | fdw.c:929-950 | the decoded list, triple by triple |
| FdwQuals.DecodeEncoded | fdw.c:909-950 | decoding an encoded qual gives it back, but for the link to its clause |
| FdwQuals.CollectNeededAttrs | fdw.c:962-994 | exactly the live columns that targets or clauses use, all of them for a whole-row reference, in ascending order |
| FdwQuals.GetForeignPlan | fdw.c:1459-1505 | the plan's pushed quals, columns and local clauses; a clause is local iff its qual was not pushed |
| FdwQuals.EvalAgrees | fdw.c:962-994 | an expression has the same value on two rows that agree on the columns it refers to |
| FdwQuals.PulledExactly | fdw.c:962-994 | the columns an expression refers to are those of the relation's variables that stand in it |
| FdwQuals.NeededSuffices | fdw.c:962-994 | a row with only the needed columns agrees with the full row on all that the query refers to |
| FdwRefinement.PlanScan | fdw.c:1421-1505 | the planning steps together give such a plan |
| FdwRefinement.RowPasses | fdw.c:777-994 | a row satisfies the query's clauses iff it satisfies the pushed quals and its pruned form the local clauses; the targets are equal |
| FdwRefinement.ScanRefinesQuery | fdw.c:777-994 | for every table, scan, recheck and projection give the query's answer, row for row |
| FdwSort.MatchPathkeys | fdw.c:1092-1162 | keys for the longest leading prefix in which every pathkey yields a key |
| FdwSort.SortkeysToPlanPrivate | fdw.c:1164-1182 | the flat list of triples |
| FdwSort.SortkeysFromPlanPrivate | fdw.c:1184-1209 | key k is read from entries 3k to 3k + 2 |
| FdwSort.TriplesAt | fdw.c:1164-1209 | reading the triples gives back every key |
| FdwSort.SendSortkeys | fdw.c:1164-1209 | the keys execute() receives are the matched ones |
| FdwSort.ClaimSortOrder | fdw.c:1439-1456 | the path claims as many leading pathkeys as there are keys |
| FdwSort.ClaimedOrderHolds | fdw.c:1092-1162 | two rows are in the order of the keys iff they are in the lexicographic order of the claimed pathkeys |
| FdwSort.SortedScanIsSorted | fdw.c:1092-1209 | a row sequence is in key order iff it has the claimed order |
| FdwSort.ClaimsWhenFirstFits | fdw.c:1092-1162 | a pathkey some column could serve is claimed iff the first member computed from the relation already does |
| FdwSort.FitsExactly | fdw.c:1092-1162 | the member that is looked at is the first one computed from the relation and no child |
| FdwSort.ClaimsLongest | fdw.c:1092-1162 | the longest satisfiable prefix is claimed iff in all of it the first member fits; never more is |
| FdwSort.ClaimCanStopEarly | fdw.c:1092-1162 | an expression listed first hides a column that would serve |
| FdwDirectModify.PlanDirectModify | fdw.c:2238-2345 | direct modify is chosen iff nothing would be lost by it: no RETURNING, no local clause, no row trigger, constant SET values, the method present; and what the plan holds then |
| FdwDirectModify.AcceptableExactly | fdw.c:2218-2318 | chosen iff the child scan has nothing to recheck, no row would be returned or fire a trigger, the method is there and every SET value is a constant under casts |
| FdwDirectModify.UpdateRest | fdw.c:2009-2058 | with unique ids and an unassigned id column, the per-row loop evaluates any SET expressions on every matching row once |
| FdwDirectModify.DeleteRest | fdw.c:2062-2107 | with unique ids the per-row deletes do what one set-based delete does |
| FdwDirectModify.PushedIsWhere | fdw.c:2238-2345 | with nothing left to recheck, the pushed quals are the WHERE clause |
| FdwDirectModify.WhereIsStatement | fdw.c:2238-2345 | over the pushed quals, changed rows, deleted rows and their number are the statement's |
| FdwDirectModify.ConstantsAssign | fdw.c:2302-2316 | values sent once give each row what its own SET expressions would, because they are constants |
| FdwDirectModify.NoValuesFit | fdw.c:2302-2316 | for an expression that depends on the row no list of values does |
| FdwDirectModify.DirectModifyAgrees | fdw.c:2009-2374 | whenever direct modify is accepted, the call decoded from the plan leaves the table of the statement with its SET expressions evaluated on each row, and counts the rows the statement affects; so does the per-row loop with unique ids and an unassigned id column |
| FdwDirectModify.PathsAgreeExactly | fdw.c:2009-2345 | loop and call agree on every table with unique ids iff the row-id column is not assigned |
| FdwDirectModify.AssigningTheIdDiffers | fdw.c:2009-2058 | for every list of assignments to the id column, a table on which they differ |
| FdwDirectModify.DirectModifyNode.Begin | fdw.c:2347-2374 | the state holds the decoded quals and SET values, not yet executed; nothing under EXPLAIN |
| FdwDirectModify.DirectModifyNode.Iterate | fdw.c:2376-2429 | one step of the node, tied to its old state |
| FdwDirectModify.ExecutesOnce | fdw.c:2376-2429 | over any number of calls the method is called once and es_processed grows by its count once, only with can_set_tag |
| FdwDirectModify.RunDirectModify | fdw.c:2238-2429 | planning, beginning and iterating: chosen exactly so; one call is made, an error iff it throws, and if the JS method does its part the table becomes the statement's and es_processed grows by the rows it affects, iff can_set_tag |
| FdwCache.GetOption | fdw.c:666-678 | the first option of that name |
| FdwCache.BuildOptions | fdw.c:689-714 | table options win over user mapping options, those over server options |
| FdwCache.PropertiesAre | fdw.c:689-714 | of several options of one name in a list the last one counts |
| FdwCache.FreshIsAsked | fdw.c:597-659 | building afresh gives what the catalog's lists ask for, iff they ask for anything |
| FdwCache.InstanceCache.Add | fdw.c:381-412 | adds an entry, or fails on one already there |
| FdwCache.InstanceCache.Remove | fdw.c:423-434 | removes the entry and frees its context |
| FdwCache.InstanceCache.CheckInvalidation | fdw.c:458-475 | a pending invalidation frees every context and empties the cache |
| FdwCache.InstanceCache.CheckVersion | fdw.c:576-589 | an entry whose module row changed or went is evicted |
| FdwCache.InstanceCache.Build | fdw.c:597-659 | what a build leaves in the cache on success and on each failure |
| FdwCache.InstanceCache.GetOrCreate | fdw.c:566-660 | the whole lookup on the cache's state |
| FdwCache.LookupIsFresh | fdw.c:566-660 | from a coherent state a lookup finds an instance whose source is that of the table's first module option, or the server's if the table has none, and whose options are, name by name, the last of the table's, else of the user mapping's, else of the server's; in a live context, and each error only where it is due |
| FdwCache.StepCoherent | fdw.c:443-475 | DDL, module writes, deletes and lookups keep the cache coherent |
| FdwCache.RunCoherent | fdw.c:361-475 | so does every run of them |
| FdwCache.EveryLookupIsFresh | fdw.c:361-660 | after every run from an empty cache: lookups find such instances, each context is freed at most once, none leaks |
| FdwCache.Serve | fdw.c:443-660 | the running cache object, over every run of events, answers each lookup with such an instance in a live context, or the error that is due |
| FdwCache.SameInstance | fdw.c:497-595 | until there is DDL or a change of the module's row, every lookup finds the same instance in the same context |
| FdwScan.ScanNode.CallExecute | fdw.c:1239-1254 | the call is recorded with its arguments; a throw creates no iterator |
| FdwScan.ScanNode.FreeScanState | fdw.c:1322-1332 | releases the iterator and clears the state |
| FdwScan.ScanNode.Begin | fdw.c:1507-1553 | the new state on success, failure and under EXPLAIN |
| FdwScan.ScanNode.Iterate | fdw.c:1555-1594 | the new state for a row, the end and a throw |
| FdwScan.ScanNode.ReScan | fdw.c:1596-1625 | the old iterator is released and execute() called again |
| FdwScan.ScanNode.End | fdw.c:1627-1629 | the scan state is freed |
| FdwScan.RunReleases | fdw.c:1507-1629 | over every run no iterator is released twice, and none is lost iff no Begin overwrote a scan in progress |
| FdwScan.EndReleasesAll | fdw.c:1627-1629 | after End every iterator has been released exactly once |
| FdwScan.StaysEmpty | fdw.c:1555-1629 | a node without state calls nothing and returns nothing until the next Begin |
| FdwScan.SameArguments | fdw.c:1507-1625 | every rescan passes execute() the quals, columns and sort keys of Begin |
| FdwScan.ArgumentsAreEncoded | fdw.c:909-950 | execute() is given the quals, columns and sort keys that were put in the plan |
| FdwScan.Fetch | fdw.c:1555-1594 | over any list of results of next(), the slot holds what each yielded, and is empty when it is done and from a throw on |
| FdwScan.ScanPasses | fdw.c:1507-1629 | a scan and its rescans deliver each pass's rows in order and then an empty slot, every pass with the same arguments, every iterator released once |
| FdwForeignScan.AnswerQuery | fdw.c:1421-1594 | planned, executed and fetched through the slot, a scan over a module that keeps its contract gives the query's answer for every table |
| Utf8.Utf8Encode | examples/pgwire.js:30-56 | the loop computes the encoding, code point by code point |
| Utf8.Utf8Decode | examples/pgwire.js:58-84 | the loop computes the decoding of a range |
| Utf8.DecodeEncode | examples/pgwire.js:30-84 | decoding the encoding of any code units gives them back, lone surrogates included |
| Utf8.EncodeCodeIsRfc3629 | examples/pgwire.js:30-56 | the bytes of a code point are the one sequence of section 3 of RFC 3629 for it |
| Utf8.PairIsUtf16 | examples/pgwire.js:35-41 | a surrogate pair stands for the code point of section 2.1 of RFC 2781 |
| Utf8.ValidExactlyWhenWellFormed | examples/pgwire.js:30-56 | the bytes are valid UTF-8 iff the string is well-formed UTF-16 |
| Utf8.ZeroByteIsNul | examples/pgwire.js:30-56 | a zero byte appears iff the string holds U+0000 |
| Base64.Base64Encode | examples/pgwire.js:91-113 | the loop computes the encoding |
| Base64.Base64Decode | examples/pgwire.js:115-134 | the loop, with its unmasked 32-bit accumulator, computes the exact bit stream |
| Base64.PushKeepsPending | examples/pgwire.js:123-131 | through every wrap-around the low bits of the accumulator are the pending bits of the stream |
| Base64.DecodeEncode | examples/pgwire.js:91-134 | decoding an encoding gives back every byte sequence |
| Base64.EncodedIsCanonical | examples/pgwire.js:91-113 | an encoding is canonical (sections 3.5 and 4 of RFC 4648) |
| Base64.EncodeIsRfc4648 | examples/pgwire.js:88-113 | every letter is that of Table 1 of RFC 4648 for its six bits, with padding to a multiple of four |
| Base64.OthersAreSkipped | examples/pgwire.js:115-134 | characters that are no letters are skipped |
| Base64.EncodeDecode | examples/pgwire.js:91-134 | encoding a decoding gives the text back iff it is canonical |
| PgWire.BodyReadCString | examples/pgwire.js:236-241 | the string up to the first zero byte and the position after it |
| PgWire.UnterminatedExactly | examples/pgwire.js:236-241 | the search never ends iff no zero byte is left |
| PgWire.UnterminatedString | examples/pgwire.js:236-241 | a body on which it never ends |
| PgWire.CStringRoundTrip | examples/pgwire.js:159-163 | a string without U+0000 written with cstr is read back |
| PgWire.ReadWrittenInt32 | examples/pgwire.js:242-246 | an int32 is read back unsigned: a negative one comes back raised by 2^32 |
| PgWire.Int32IsNetworkOrder | examples/pgwire.js:153-157 | an int32 is written with its highest byte first, a negative one in two's complement |
| PgWire.ReadsNetworkOrder | examples/pgwire.js:242-246 | words are read with the first byte counting most |
| PgWire.MsgWriter.Cstr | examples/pgwire.js:159-163 | appends the encoded string and a zero byte |
| PgWire.MsgWriter.Raw | examples/pgwire.js:165-167 | appends the given bytes |
| PgWire.BuildMessage | examples/pgwire.js:176-186 | tag, length including itself, body |
| PgWire.SocketReader.Fill | examples/pgwire.js:196-209 | chunks are received until there are enough bytes or no more chunks |
| PgWire.SocketReader.ReadBytes | examples/pgwire.js:211-216 | what is read and what stays, on every wire and for every count, negative ones too |
| PgWire.NegativeCount | examples/pgwire.js:211-216 | a negative count leaves that many bytes at the buffer's end and takes those before |
| PgWire.TakeIsStream | examples/pgwire.js:196-216 | for a count that is not negative only the stream matters, not its chunks |
| PgWire.SocketReader.ReadMessage | examples/pgwire.js:228-233 | what is read and what stays, on every wire, also after a length word below 4 |
| PgWire.TakeMessageIsParse | examples/pgwire.js:228-233 | unless the length word is below 4, exactly the first message of the stream is consumed, however it is chunked, or the closed error is given when the stream ends inside it |
| PgWire.ParseMessageBytes | examples/pgwire.js:176-233 | reading undoes writing and leaves the rest of the stream |
| PgWire.ParseCut | examples/pgwire.js:196-233 | a proper prefix of a message never reads as one |
| PgWire.ReadUntilClosed | examples/pgwire.js:190-234 | reading until the close gives the messages sent, for every chunking, and no truncated one |
| PgQuery.ParseRowDescription | examples/pgwire.js:528-540 | the column names of the body |
| PgQuery.RowDescriptionRoundTrip | examples/pgwire.js:528-540 | every list of names comes back from a RowDescription body |
| PgQuery.ParseDataRow | examples/pgwire.js:542-560 | the row object of the body, with the test for a length of -1 as coded |
| PgQuery.UnsignedLength | examples/pgwire.js:242-246 | the length that is compared with -1 is never negative |
| PgQuery.NeverNull | examples/pgwire.js:548-553 | so on every body the NULL branch is not taken |
| PgQuery.CellsRoundTrip | examples/pgwire.js:542-560 | cells come back in order with the offset at their end; NULL too, with the length read as signed |
| PgQuery.DataRowRoundTrip | examples/pgwire.js:542-560 | a DataRow body gives back its cells and ends at the body's end |
| PgQuery.DataRowExactlyWithoutNull | examples/pgwire.js:542-560 | the code reads a row right iff no cell is NULL |
| PgSession.WriteBind | examples/pgwire.js:466-482 | the Bind body |
| PgRequests.BindRoundTrip | examples/pgwire.js:466-482 | every list of fewer than 65536 optional strings is read back from Bind as a server reads it, null as length -1, to the end of the body |
| PgRequests.BindCount | examples/pgwire.js:471 | the count reads back modulo 65536, so iff it is below that |
| PgRequests.RequestIsRead | examples/pgwire.js:456-486 | a server reads the five messages: the SQL prepared, the parameters bound, the portal described, run without a row limit, Sync |
| PgSession.PgError | examples/pgwire.js:366-378 | the loop computes the search over the fields of a body |
| PgResponses.ErrorTextIsMessage | examples/pgwire.js:366-378 | every list of fields gives the text of its last M field, or "unknown error" |
| PgResponses.ErrorTextEnds | examples/pgwire.js:366-378 | the search ends iff the body starts with complete fields and a final zero |
| PgResponses.UnterminatedErrorNeverEnds | examples/pgwire.js:366-378 | a body on which it never ends |
| PgSession.PgConnection.DrainToReady | examples/pgwire.js:438-449 | what it reads, how it ends and what it leaves, on every wire |
| PgSession.PgConnection.ReadResponse | examples/pgwire.js:488-526 | the reading loop as a function of the wire |
| PgSession.PgConnection.Query | examples/pgwire.js:456-526 | sends the five messages and reads one response |
| PgResponses.CycleIsRead | examples/pgwire.js:438-526 | a well-formed cycle is read through its ReadyForQuery and gives the answer its messages carry, or the text of the error that ends them |
| PgResponses.RunQueries | examples/pgwire.js:456-526 | the k-th query gives the answer, or the error, of the k-th cycle, however the stream is chunked, also after errors |
| PgResponses.AnswerCycle | examples/pgwire.js:495-526 | a server's messages for a statement, with or without rows, with or without a count in the tag, and with notices anywhere between them, are a well-formed cycle with that answer |
| PgResponses.QueryResultSet | examples/pgwire.js:456-526 | a query sends its messages and returns the very rows, column by column, count and tag the server encoded, however they are chunked, and leaves the stream at what follows |
| PgResponses.QueryError | examples/pgwire.js:516-518 | a query the server ends with an error throws the last M field's text, or "unknown error", with the stream left after ReadyForQuery |
| PgResponses.SecondErrorIsThrown | examples/pgwire.js:438-449 | a second error before ReadyForQuery is the one thrown |
| PgResponses.QueryCut | examples/pgwire.js:196-233 | a connection that ends anywhere inside a cycle ends the query in the closed error |
| PgResponses.RowNeedsColumns | examples/pgwire.js:542-556 | a row with values before any RowDescription is a TypeError |
| CsvParser.ParseCsv | examples/csv_fdw.js:72-135 | the loop over positions computes the state machine, with the last row flushed |
| CsvParser.ParsePrinted | examples/csv_fdw.js:72-135 | parsing gives back any rows over any characters, quoted or bare, with LF, CRLF or CR |
| CsvParser.ParseUnterminated | examples/csv_fdw.js:129-132 | a last line without an end is read iff it is not a single empty field |
| CsvParser.LastEmptyFieldIsLost | examples/csv_fdw.js:129-132 | a text whose last field is lost |
| CsvParser.ParseOpenQuote | examples/csv_fdw.js:67-70 | a quote still open at the end of the text is closed out: its field is the last of the last row |
| CsvParser.ParseIsNormalForm | examples/csv_fdw.js:72-135 | for every text, parse of print of parse is parse, and no row is empty |
| CsvParser.FillRow | examples/csv_fdw.js:205-210 | each column holds the field under the last occurrence of its name |
| CsvParser.Execute | examples/csv_fdw.js:192-216 | the rows after the header, keyed by its names, filtered in order; also for a skipRows that is NaN or negative |
| CsvParser.ExecutePrinted | examples/csv_fdw.js:192-216 | of any printed file the lines to skip are skipped, the header gives the names and is not yielded, and each data line is one record, in order, if it passes the filter |
| CsvParser.NegativeSkip | examples/csv_fdw.js:196-210 | a negative skipRows gives objects without properties under a header, an error without one |
| CsvParser.ByNameMapping | examples/csv_fdw.js:199-210 | with distinct names a column reads the field in its own place |
| Scram.XorBytes | examples/pgwire.js:250-254 | bytewise exclusive or |
| Scram.XorTwice | examples/pgwire.js:250-254 | exclusive or undoes itself |
| Scram.XorAt | examples/pgwire.js:250-254 | a bit is set iff it is set in exactly one of the two |
| Scram.Pbkdf2 | examples/pgwire.js:258-275 | for every count, U1 xor ... xor Ui of section 2.2 of RFC 5802 |
| ScramExchange.ComputeReply | examples/pgwire.js:307-341 | the client-final-message and the signature expected, or the refusal, for every server-first-message |
| ScramExchange.ScramAuth | examples/pgwire.js:289-362 | what is sent, concluded and left, as a function of the wire |
| ScramServer.RegisterIs | examples/pgwire.js:324-329 | the keys a server of RFC 5802 computes for the normalized password, with its own Hi and labels, are those the client computes from it |
| ScramServer.AuthMessageIs | examples/pgwire.js:331-334 | the text authenticated is that of section 3 of RFC 5802 |
| ScramServer.MalformedIsRefused | examples/pgwire.js:312-314 | a server-first-message without a nonce, a salt or a count is refused |
| ScramServer.ForeignNonceIsRefused | examples/pgwire.js:320-322 | a combined nonce is refused iff it does not begin with the client's own |
| ScramServer.FirstDecides | examples/pgwire.js:302-305 | anything but AuthenticationSASLContinue in answer to the first message ends the exchange |
| ScramServer.SecondDecides | examples/pgwire.js:348-361 | after the first message the exchange succeeds iff the second is AuthenticationSASLFinal with the signature of the password's ServerKey |
| ScramServer.SignatureIsChecked | examples/pgwire.js:348-361 | the client is content exactly with that signature |
| ScramServer.NonceFound | examples/pgwire.js:308-316 | the nonce read is the one the server wrote |
| ScramServer.SaltFound | examples/pgwire.js:309-317 | which salt text is read; the one sent iff the nonce holds no s= with something else after it |
| ScramServer.IterationsPlace | examples/pgwire.js:310 | the count is found in its place iff the nonce holds no i= with a digit |
| ScramServer.CountFound | examples/pgwire.js:310-318 | which count is read; the one sent iff the nonce holds no i= with digits that say something else |
| ScramAcceptance.NonceHidesSalt | examples/pgwire.js:309-325 | for every client nonce, a server nonce with which the client answers under an empty salt |
| ScramAcceptance.NonceHidesCount | examples/pgwire.js:310-325 | for every client nonce, a server nonce with which the client answers after nine iterations |
| ScramServer.ClientReadsServerFirst | examples/pgwire.js:307-341 | to every server-first-message of an honest server the client answers with its nonce and the salt and count it finds |
| ScramServer.ProofIsAccepted | examples/pgwire.js:326-338 | a server that holds the key's hash recovers the key from the proof |
| ScramServer.VerdictIs | examples/pgwire.js:307-361 | the server's verdict on the client's answer comes down to the key it recovers |
| ScramServer.ServerAccepts | examples/pgwire.js:307-361 | a server of RFC 5802 that registered the password and forms keys and authenticated text itself accepts, with the signature the client expects, if normalization leaves the password alone |
| ScramAcceptance.AcceptedExactly | examples/pgwire.js:307-361 | the client is accepted under every hash and HMAC iff normalization leaves its password alone and it reads the salt and count that were sent |
| ScramAcceptance.OrdinalCanBeRefused | examples/pgwire.js:324-325 | a server that normalizes U+00AA to "a" may refuse the client |
| ScramServer.InitialRoundTrip | examples/pgwire.js:294-300 | the first message reads as a SASLInitialResponse, its length word right |
| ScramServer.Completeness | examples/pgwire.js:289-362 | client and server of the same normal password accept each other, and nothing beyond the exchange is read, for every chunking |
| ScramServer.LogIn | examples/pgwire.js:289-362 | the same of the running client |
| SelfTest.CompareForSort | examples/self_test_fdw.js:124-144 | the loop over sort keys computes the comparison |
| SelfTest.NullsPlacement | examples/self_test_fdw.js:130-140 | the comparison is SQL's under a collation iff the collation agrees on the two texts and not (descending and exactly one value null) |
| SelfTest.OrderByMeans | examples/self_test_fdw.js:124-144 | what ORDER BY asks: smaller numbers first if ascending, greater ones if descending, nulls where they are asked to go |
| SelfTest.TextOrderExactly | examples/self_test_fdw.js:136-138 | texts are compared at the first code unit in which they differ, a prefix coming first |
| SelfTest.ComparesAsTurnedRound | examples/self_test_fdw.js:124-144 | on all rows it is SQL's comparison by code units with nullsFirst turned round for descending keys |
| SelfTest.CompareAntisymmetric | examples/self_test_fdw.js:124-144 | swapping the rows negates the comparison |
| SelfTest.CompareTransitive | examples/self_test_fdw.js:124-144 | the comparison is transitive on comparable rows |
| SelfTestExecute.GenerateRows | examples/self_test_fdw.js:89-99 | row i holds exactly the wanted columns with the mode's values |
| SelfTestExecute.GeneratedIs | examples/self_test_fdw.js:65-87 | the value of each mode: the index, the column and the index, the date that many days after 1 January 2020, the three characters, null |
| SelfTestExecute.Execute | examples/self_test_fdw.js:162-174 | generated, filtered, sorted, for every numRows, NaN too; the branches for no quals and no sort keys agree with the general case |
| SelfTestExecute.SortIsStable | examples/self_test_fdw.js:169-171 | rows that compare equal keep their order |
| SelfTestExecute.StableSortIsUnique | examples/self_test_fdw.js:169-171 | two ordered results with the same ties in the same order are equal, so the algorithm behind sort() does not matter |
| SelfTestExecute.ExecuteIsCorrect | examples/self_test_fdw.js:162-174 | for all inputs the result is a stable permutation of the generated rows its filter keeps, SQL-ordered under every collation that agrees with code units on their texts |
| SelfTestExecute.FilterIsSql | examples/self_test_fdw.js:110-122 | under any collation, the filter keeps the rows SQL keeps iff on each row the quals say the same of its texts as by code units, and in null mode some qual, if there is any, keeps null out |
| SelfTestExecute.OperatorsMean | examples/self_test_fdw.js:105-122 | each operator on numbers and dates is that of arithmetic, on texts by code units |
| SelfTestExecute.NullAgainstNumber | examples/self_test_fdw.js:110-122 | which comparisons with a number let null through |
| SelfTestExecute.NullModeLetsNullThrough | examples/self_test_fdw.js:110-122 | a qual under which the filter keeps a null row |
| SelfTestExecute.CollationLosesRow | examples/self_test_fdw.js:110-122 | a qual under which the filter loses a row that SQL keeps by the bytes of UTF-8 |
| SqlReader.EachParameterOnce | examples/remote_pg_fdw.js:138-199 | in a text that means a statement each of $1 to $n stands once and is bound to its value |
| SqlReader.UniformRowNumbers | examples/remote_pg_fdw.js:149-156 | row r, column c has number r * columns + c + 1 |
| RemoteSql.WhereClause | examples/remote_pg_fdw.js:72-87 | the loop gives the clause and, in step with its placeholders, the parameters |
| RemoteTable.SelectQuery | examples/remote_pg_fdw.js:110-116 | a scan's text and parameters mean the select of the wanted columns, conditions and order |
| RemoteTable.InsertMany | examples/remote_pg_fdw.js:138-163 | a batch's text and parameters mean the insert of its rows, columns taken from the first, giving back the rows stored; nothing for no rows |
| RemoteTable.Insert | examples/remote_pg_fdw.js:120-136 | an insert's text and parameters mean the insert of its present columns, giving back the row stored |
| RemoteTable.Update | examples/remote_pg_fdw.js:166-178 | an update's text and parameters mean the assignment of the row where the id column has the id, giving back the row |
| RemoteTable.UpdateWhere | examples/remote_pg_fdw.js:187-199 | text and parameters mean the assignment of the values where the quals hold |
| RemoteTable.Delete | examples/remote_pg_fdw.js:180-185 | text and parameter mean the deletion of the one id |
| RemoteTable.DeleteWhere | examples/remote_pg_fdw.js:201-206 | text and parameters mean the deletion by the quals |
| RemoteTable.InsertIs | examples/remote_pg_fdw.js:120-163 | the names are the keys of the first row that hold a value, in order, and each value is that of its row's entry of the name |
| RemoteTable.ConditionsAre | examples/remote_pg_fdw.js:72-87 | each condition has its qual's mapped column, operator and value |
| RemoteTable.ColumnsAre | examples/remote_pg_fdw.js:61-69 | each column listed is the mapped one under its local name, or all if none is asked for |
| RemoteTable.OrderingsAre | examples/remote_pg_fdw.js:89-101 | each sort key orders by its mapped column, its direction and its place for nulls |
| RemoteSqlLexing.QuoteIdentLexes | examples/remote_pg_fdw.js:33-35 | an SQL lexer recovers every name from quoteIdent, quotes and all |
| RemoteSqlLexing.QuoteIdentExactly | examples/remote_pg_fdw.js:33-35 | what quoteIdent gives is one identifier iff the name is not empty and has no U+0000 |
| RemoteSqlMeaning.WhereLexes | examples/remote_pg_fdw.js:72-87 | the WHERE clause lexes to its conditions, numbered from the offset |
| RemoteSqlTheorems.SelectMeans | examples/remote_pg_fdw.js:61-117 | a scan's text reads as the columns, table, conditions and order asked for, bound to the quals' values |
| RemoteSqlTheorems.InsertMeans | examples/remote_pg_fdw.js:120-163 | an insert's text reads as its table, columns and rows of values; with no column it is no statement |
| RemoteSqlTheorems.UpdateMeans | examples/remote_pg_fdw.js:166-178 | an update's text assigns the row's values where the row-id column has the id; with no column it is no statement |
| RemoteSqlTheorems.UpdateWhereMeans | examples/remote_pg_fdw.js:187-199 | the SET values, then the WHERE values, each bound in its place; with nothing to set it is no statement |
| RemoteSqlTheorems.DeleteMeans | examples/remote_pg_fdw.js:201-206 | a delete's text reads as exactly its conditions |
| RemoteSqlTheorems.DeleteByIdMeans | examples/remote_pg_fdw.js:180-185 | a delete by id reads as that one condition |
| RemoteTable.BatchIsSingleInserts | examples/remote_pg_fdw.js:141-156 | a batch stores what inserting its rows one by one would iff every row has the first row's present columns |
| RemoteTable.BatchDropsValue | examples/remote_pg_fdw.js:141-156 | a batch that drops a value |
| RemoteTable.WritesAreMapped | examples/remote_pg_fdw.js:120-206 | a write addresses the remote columns a scan reads iff the mapping leaves all its names as they are |
| RemoteTable.UpdateWritesLocalName | examples/remote_pg_fdw.js:187-199 | an update that writes another column than a scan reads |

## Left out

- Sockets, OpenSSL and file reading: the wire is a sequence of chunks, hash and HMAC are arbitrary functions with 32-byte results, files are given strings.
- QuickJS and PLJS internals, Datum conversion, build files and patches.
- Implicit casts stripped from a qual or a SET value (`fdw.c:790-791`, `fdw.c:2302-2304`) are taken to keep values; comparable values are taken to lie on one integer line.
- Scans that stay open across a cache flush, constructors that use other foreign tables, and changes to modules that a module requires; (xmin, ctid) is taken to identify a row version.
- The qual filters of the XML and CSV modules are an arbitrary predicate on rows; their number coercions are not modelled. In the self-test table, comparisons between values of different kinds are an arbitrary function.
- Array.prototype.sort is an insertion sort; StableSortIsUnique says that any stable sort gives the same.
- The startup message, the choice of authentication and its cleartext and MD5 forms.
- ScramServer.Completeness: takes passwords and nonces of which AcceptedExactly says that no others are accepted under every hash and HMAC. Nothing is said about secrecy or forgery.
- RemoteTable.SelectQuery: its meaning is stated for the six operators fdw.c sends and for names that are not empty and have no U+0000, as PostgreSQL's are; so it is for the other statements.
- Entities and option values beyond 2^53, where parseInt rounds; epoch milliseconds beyond the range of Date.
- XmlExtraction.ScanDocument: takes declarations without `>` inside, so no DOCTYPE with an internal subset and no entities of its own; its comparison with XML is stated for documents in which no tag is taken for another, as where all names are in ASCII.
- Properties inherited from Object.prototype: row objects and the column set are plain maps and sets. Object.keys order is the order given.
- Cost estimates, EXPLAIN text, TRUNCATE, option validation, batch size, IMPORT FOREIGN SCHEMA and fs_fdw.js.
