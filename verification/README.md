# Verified model of gawkextlib's stateful core

gawkextlib is a set of extensions for GNU awk. Most of them forward calls to libraries; five hold state,
arithmetic and transformations of their own, and these are modelled here:

- **The XML pull parser** (`xml/xml_puller.c`): a client asks for one token at a time; the puller reads
  blocks of a file, feeds them to Expat, merges runs of character data, and restarts a fresh parser where
  one document ends and another begins in the same stream.
- **The awk variables of the XML extension** (`xml/xml_interface.c`): a generation counter stands in for
  clearing every variable before each record, and a version counter for copying the element path.
- **The CSV reader** (`csv/*.c`): a six-state machine with three back ends, the reader of a byte stream
  with its own tracking of quotes, and the positions it records for gawk.
- **The string hash table** (`lib/strhash.c`): chained buckets, growth through a table of primes, and an
  unrolled hash.
- **JSON** (`json/*.cpp`): a writer that decides between objects and lists by sorting, and a SAX handler
  that rebuilds nested arrays with a stack.
- **Signal trapping in select** (`select/select.c`): an asynchronous handler against a main line that
  takes snapshots.

What changes its state in place in the source is a class here, with the same fields and the same loops,
and each of its methods is proved against a function or a list of events; the properties are proved about
those. `select.c` is a state machine, one constructor for each step of the main line, because a signal may
be delivered between any two of them.

## How it is laid out

| file | what it holds |
|---|---|
| `Common.dfy` | bytes, optional values, flattening |
| `XmlEvents.dfy` | Expat's events, the handlers on the shared state, and the tokens they must deliver |
| `XmlRun.dfy` | a whole run: the parser as an oracle, documents, endings |
| `XmlInput.dfy` | the sliding window over the file |
| `TokenPool.dfy` | who owns each token: queue, free list, client |
| `Puller.dfy` | the puller, tied to a run at every step |
| `XmlVariables.dfy`, `XmlInterface.dfy` | the variables a record sets; the lazy reset and the path buffer |
| `XmlNesting.dfy`, `XmlReader.dfy` | start and end elements nest, from callbacks to tokens; a file read record after record |
| `XmlPlaces.dfy` | rows and columns across documents |
| `XmlTokens.dfy`, `XmlRecord.dfy` | nothing lost between callbacks and tokens; from each callback to the variables, by name |
| `CsvParser.dfy` | the six-state machine as a list of callbacks |
| `CsvFormat.dfy` | what any input is made of, and the format of section 2 of RFC 4180 as a printer |
| `CsvStream.dfy` | what one call of `csv_read` takes from a stream |
| `CsvBlank.dfy` | the records that look like the end of the file |
| `CsvAwk.dfy`, `CsvLines.dfy` | the repository's own printer; exactly when gawk gets back what it wrote |
| `CsvWidths.dfy`, `CsvBuffers.dfy` | field positions; growing buffers |
| `CsvMachine.dfy`, `CsvEngine.dfy` | the three back ends; `csv_parse` and the calls built on it |
| `StrHash.dfy`, `StrTable.dfy`, `StringTable.dfy` | hash and sizes; chains against a map; the operations |
| `JsonEvents.dfy`, `JsonRoundTrip.dfy` | events of a value, the handler as a function; what it rebuilds from them |
| `JsonWriter.dfy`, `JsonHandler.dfy` | the writer and the handler |
| `JsonText.dfy`, `JsonDocument.dfy` | what to_json writes, without its sort; what from_json makes of any text |
| `JsonValues.dfy`, `Json.dfy` | when a rebuilt array is the value that was written; there and back |
| `SelectSignals.dfy` | the signal protocol and its invariant |

## What is foreign

- **Expat** is a function from the parser, the chunks it was fed and the final flag to a status, a finite
  list of callbacks and a position. One thing is assumed of it (`XmlRun.WellBehaved`): an error after a
  closed root element is not reported at byte 0 of the document. Only `XmlReader` assumes another
  (`XmlNesting.Nests`): the start and end elements of one document nest. Only `XmlPlaces` assumes a third
  (`XmlPlaces.Placed`): line and column are those of the byte where an event starts, for an encoding in which
  each byte ends the line, takes a column or belongs to the character before it; a CR that ends a line by
  itself is not covered. `XmlTokens` assumes that each handler is called for what it is for
  (`XmlTokens.Sorted`).
- **iconv** is a pure conversion that may fail. `read` may return any number of bytes up to the request,
  or an error.
- **rapidjson** is the list of SAX events; a number comes back as its text, as the flag
  `kParseNumbersAsStringsFlag` asks. Of the text it writes for a fraction, strtod is taken to read that
  double again (`JsonValues.Reads`). **qsort** only moves elements, and sorts when the comparison is a
  total preorder on them.
- **gawk** keeps its variables and arrays; `flatten_array` fails on an empty array, as
  `select/select.c:401` says.

## Where the code departs from its intent

The model follows the code in each case.

- `strhash_get` computes the bucket before it may grow the table (`lib/strhash.c:221`, `:234-238`).
  `StringTable.HashTable.GetAsWritten` keeps this and states exactly when the insertion is lost;
  `StringTable.HashTable.Get` computes the bucket again after growth, and is what the refinement is about.
- `csv_read` returns -1 for any empty awk record (`csv/csv_input.c:208-209`), not only at the end of the
  stream, and `csv_get_record` makes EOF of it (`csv/csv.c:195-213`): gawk sees nothing of a file from the
  first blank line, or pair of quotes, on. `CsvEngine.BlankLineEnds` is such a file; `CsvBlank.BlankLineIff`
  gives the bytes that do it, `CsvEngine.Read` the result for them, `CsvBlank.DeliveredIff` and
  `CsvBlank.FileDeliveredIff` the files delivered whole.
- Where plain `char` is signed, a CSV quote above 127 is never seen by the reader's own tracker
  (`csv/csv_input.c:23`, `:76`), which then loses step with the parser: `CsvStream.SignedQuote` for the quote
  200, `CsvStream.InStepIff` for all. After an unexpected quote the two drift apart as well, so nothing is
  claimed of their agreement from there on.
- For an empty CSVFS the length counted is 0 but one byte is written (`csv/strbuf.c:55-65`):
  `CsvWidths.EmptyFsMisfit`, `CsvWidths.WidthsFitIff`. With no second NUL after it the copy would read past
  the string, so the reader requires one.
- `csvcompose` writes the single empty field, as it writes no field at all, as an empty record, and leaves a
  field with a CR unquoted: `CsvAwk.ComposeSplitsIff`. `CsvLines.GetLine` and `CsvLines.GetLines` say exactly
  which lines gawk gets back, one by one and as a file.
- After a read error or a corrupt offset the pending character data is dropped, although the comment at
  `xml/xml_puller.c:721-724` promises every correct token. `XmlRun.TextLost` loses the text of "<a>b"; by
  `XmlRun.KeptIff` and `Puller.Puller.DroppedIff` all is delivered exactly when it was a parse error that ended
  the run, or no data was pending (`cdata_len` is 0) that could be converted.
- `to_json` fails on an array with an empty array inside (`json/json.cpp:160-226`) and casts a whole number
  to `int64_t` that need not fit (`json/json.cpp:80-82`), which is undefined; and the JSON string `@/` makes
  `length - 3` wrap around when it is read (`json/awkjsonhandler.cpp:115-118`): `Json.EmptyInside`,
  `Json.TooWide`, `Json.AtSlash`. Nothing else is in the way: `Json.ThereAndBack`, where a string in the shape of a
  regex comes back as one. Whatever integer the cast makes, it is another number: `JsonValues.HasTextIff`.

## Model

| member | source | states |
|---|---|---|
| Puller.Puller.Drain | xml/xml_puller.c:704-868 | A client that calls until it gets NULL has seen the coalesced and converted events of the whole run, up to the first failed conversion; the error left is that failure or, with its code, the one that ended the run; the run took the course it must: a new document began exactly where the old one was closed and the error lay behind what was done with, and each ending has its reason (see XmlRun.Conducted); when an error ended it, every complete token was seen exactly when it was a parse error or no data was pending; without an error every byte of the file was parsed, document after document. |
| Puller.Puller.DeliveredTokens | xml/xml_puller.c:178-229 | At any moment, delivered tokens followed by pending ones are the coalesced events of everything that happened so far, converted: order, content, kind and position. |
| Puller.Puller.DroppedIff | xml/xml_puller.c:719-856 | When a run was cut off by an error, the tokens delivered and pending are all that were complete by then exactly when it was a parse error, or there was no data pending that a flush would have delivered. |
| XmlEvents.RunDelivers | xml/xml_puller.c:178-372 | The handlers, which keep pending data and flush it lazily, enqueue exactly the declarative coalescing of any list of events: adjacent data of one kind is one token, empty data none, an error cuts the list off. |
| XmlEvents.SplitText | xml/xml_puller.c:337-372 | Cutting a data callback in two, anywhere in any run, changes no token, no error and no position. |
| XmlEvents.RecutSame | xml/xml_puller.c:337-372 | However the same data is cut into callbacks, in any number of places, the tokens, the error and all positions are the same. |
| XmlEvents.CutIsRecut | xml/xml_puller.c:337-372 | Cutting one data callback, anywhere in a list, gives a list that differs only in its cuts. |
| XmlTokens.AllThere | xml/xml_puller.c:178-372 | Nothing is lost, doubled or reordered: byte for byte and event for event, the tokens of a run without an error are the data and the events of its callbacks. |
| XmlTokens.NoneEmpty | xml/xml_puller.c:178-204 | No token of data is empty. |
| XmlTokens.WholeRun | xml/xml_puller.c:719-856 | The same of a file read to its end, over all its documents, with one END_DOCUMENT for each document when several are wanted. |
| XmlEvents.RunAfterError | xml/xml_puller.c:38-77 | Once an error is set, nothing more is enqueued, and the error and its place never change. |
| XmlEvents.TextDelivers | xml/xml_puller.c:337-372 | A maximal run of data of one kind becomes one token, placed where its first non-empty piece starts; when it is empty or an error follows, none. |
| XmlEvents.TokenDelivers | xml/xml_puller.c:206-229 | An event that asks for a token of its own closes pending data first, and enqueues its conversion or sets the error. |
| XmlRun.DocumentDone | xml/xml_puller.c:778-802 | When a parser stops with an error after its closed root, its document joins the finished ones, which then tile the file up to the error byte, where the next document begins. |
| XmlRun.DocCounts | xml/xml_puller.c:762-800 | After each finished document depth and elements are zero again. |
| XmlRun.CurrentCounts | xml/xml_puller.c:267-335 | depth and elements are those of the callbacks of the current document alone, so the test for a closed root looks at this document only. |
| XmlRun.ChunkFed | xml/xml_puller.c:760-761 | Feeding the bytes just read keeps each parser on one contiguous stretch of the file that starts at its document. |
| XmlRun.RunEnds | xml/xml_puller.c:735-774 | What each way of ending a run (read error, end of file, parse error, corrupt offset) does to the pending data and the error. |
| XmlRun.KeptIff | xml/xml_puller.c:719-774 | At every run: after a parse error all complete tokens are enqueued; after a read error or a corrupt offset, exactly when there is no pending data, or it cannot be converted. |
| XmlRun.EofKeeps | xml/xml_puller.c:745-758 | At the end of the file nothing is left behind: what is pending is enqueued before an error is reported, or before the one END_DOCUMENT when several documents are wanted. |
| XmlRun.ReportedIs | xml/xml_puller.c:735-774 | A run reports the error of its ending, with its code, and no other. |
| XmlRun.TextLost | xml/xml_puller.c:735-743 | A failing case: one chunk gives a start element and text, then a read fails, whatever the error; the token of the text, which a flush would enqueue, is lost. |
| XmlInput.Input.ReadBlock | xml/xml_puller.c:732-733 | The window stays loaded with the file bytes from the document start plus doc_offset; the request is never for zero bytes, so zero means end of file. |
| XmlInput.Input.Chunk | xml/xml_puller.c:760-761 | The bytes handed to XML_Parse are the next file bytes after those already parsed: none lost, repeated or shifted. |
| XmlInput.Input.Restart | xml/xml_puller.c:780-785 | Rewinding to the error location keeps new_start = saved_start + saved_bytes, and the window then starts at the first byte of the new document. |
| XmlInput.Input.Forget | xml/xml_puller.c:807-813 | Outside multi-document mode nothing is saved, and the window stays aligned with the file. |
| XmlInput.Input.Discard | xml/xml_puller.c:820-836 | Dropping the bytes before the last good index moves doc_offset with the window. |
| XmlInput.Input.MoveToFront | xml/xml_puller.c:838-844 | Moving saved data to the front of the buffer changes no byte of the window. |
| XmlInput.Input.MakeRoom | xml/xml_puller.c:846-855 | After growth there is room for a whole read, and the window is unchanged. |
| XmlInput.Input.Keep | xml/xml_puller.c:815-855 | The tail of the loop body leaves the window ready for the next read, with the data not done with yet. |
| Puller.Puller.Next | xml/xml_puller.c:704-868 | A pending token is delivered at once and changes no error; NULL comes only with nothing pending and the run over; each read makes progress through the file, so the call ends. |
| Puller.Puller.ParseBlock | xml/xml_puller.c:760-803 | The restart loop ends, by the measure (saved_bytes + new_bytes, doc_offset), with the whole block parsed or an error set; a new document is begun exactly when several are wanted, the root is closed and the error lies in the window, and a parse error is set exactly when one of these fails. |
| Puller.Puller.Guard | xml/xml_puller.c:763-768 | The guard of the restart, on the counters and the window, holds exactly when a new document may start: several are wanted, the callbacks have closed the root, and the error lies between what the parser was done with before the block and what was read. |
| Puller.Puller.NextDocument | xml/xml_puller.c:776-802 | A restart inserts END_DOCUMENT, saves the position, and leaves the bytes after the error to the fresh parser. |
| Puller.Puller.CloseDocument | xml/xml_puller.c:778-800 | END_DOCUMENT is inserted before the position is saved and the counters are reset. |
| Puller.Puller.ParseChunk | xml/xml_puller.c:760-762 | One XML_Parse call: its callbacks are handled in order, and its status and byte index are those of the parser. |
| Puller.Puller.ParseFailed | xml/xml_puller.c:763-773 | Pending data is flushed before the parse error is set, so it is still delivered. |
| Puller.Puller.FinishAtEof | xml/xml_puller.c:745-758 | At end of file: the last XML_Parse, the flush, then the error or END_DOCUMENT, in this order. |
| Puller.Puller.Stop | xml/xml_puller.c:735-743 | A read error or a corrupt offset sets the error without flushing: the tokens are those a flush would leave exactly when no data was pending. |
| Puller.Puller.AfterBlock | xml/xml_puller.c:804-855 | After a good block the window starts at what the parser is not done with and is ready for the next read, or, with several documents wanted, the offset was out of range and the error is set. |
| Puller.Puller.Round | xml/xml_puller.c:719-856 | One round of the outer loop keeps the whole invariant of the run and reads at least one byte unless the run is over; it is over by a read error only when the last read answered with one. |
| Puller.Puller.NextKept | xml/xml_puller.c:871-878 | The same token, but the client owns it from now on. |
| Puller.Puller.AddText | xml/xml_puller.c:337-372 | add_pending: data of another kind flushes first; after a failed flush the new data is not added. |
| Puller.Puller.AppendData | xml/xml_puller.c:345-371 | The data buffer is always large enough, and the position of a run is that of its first piece. |
| Puller.Puller.Flush | xml/xml_puller.c:178-204 | Pending data becomes one token, or the error of a failed conversion at the place where the data began. |
| Puller.Puller.TokenGet | xml/xml_puller.c:206-221 | Pending data goes first; after an error there is no token. |
| Puller.Puller.HandleToken | xml/xml_puller.c:267-514 | Every handler but the data ones: the token with all its strings converted is enqueued, or, when one conversion fails, it goes back to the free list and the error is set. |
| Puller.Puller.IconvAll | xml/xml_puller.c:277-308 | The attribute loop goes on after a failed conversion, and reports it. |
| Puller.Puller.EndDocument | xml/xml_puller.c:223-230 | END_DOCUMENT closes pending data and is enqueued at the parser position. |
| Puller.Puller.InternalError | xml/xml_puller.c:38-77 | Only the first error is kept, with its place. |
| TokenPool.Queue.Append | xml/xml_puller.c:167-176 | The queue is first in first out although tok_tail is stale when it is empty. |
| TokenPool.Queue.Pop | xml/xml_puller.c:860-865 | The first pending token leaves the queue; the rest stays in order. |
| TokenPool.Pool.Get | xml/xml_puller.c:131-158 | A token is reused or allocated, and comes blank; it is under construction and nowhere else. |
| TokenPool.Pool.Release | xml/xml_puller.c:160-165 | A token without live strings goes on the free list. |
| TokenPool.Pool.Enqueue | xml/xml_puller.c:167-176 | The token under construction becomes the last pending one. |
| TokenPool.Pool.FreeTokenData | xml/xml_puller.c:232-264 | The strings of a token are freed once, and the token is kept for reuse. |
| TokenPool.Pool.FreeHeld | xml/xml_puller.c:259-264 | The client gives back a token it had taken over. |
| TokenPool.Pool.Recycle | xml/xml_puller.c:711-714 | The token lent by the last call is freed, once. |
| TokenPool.Pool.Lend | xml/xml_puller.c:860-865 | The first pending token is lent to the client, and is in no other place. |
| TokenPool.Pool.Give | xml/xml_puller.c:871-878 | The token lent becomes the client's. |
| TokenPool.Pool.FreeTokenList | xml/xml_puller.c:581-593 | Every token of a list is returned to malloc once, its strings with it when they are live. |
| TokenPool.Pool.FreeAll | xml/xml_puller.c:595-617 | XML_PullerFree: each token ever allocated is left to the client that holds it, or has been returned to malloc, once. |
| TokenPool.Pool.Covers | xml/xml_puller.c:131-176 | No token is lost: each one allocated is pending, on the free list, lent, under construction or held by the client. |
| XmlInterface.Interface.GetRecord | xml/xml_interface.c:551-751 | After every record each scalar has the value this record sets, or is empty, as if all had been cleared before; XMLATTR and $0 are those of the token; XMLPATH is the path of this file (before the name is taken off, for an end element). |
| XmlReader.ReadFile | xml/xml_interface.c:551-751 | A file read to its end, one record for each token and a last one for the NULL: $0 is, record by record, that of the puller's tokens, of the whole run coalesced and converted; after the last call the variables are those of the end, or of the error with its place and depth, and all others are empty. |
| XmlReader.GetRecord | xml/xml_interface.c:551-751 | xml_get_record with its XML_PullerNext: whatever documents, restarts, errors and failed conversions come, the token is one the record code can take (an end matches the last open start), and the variables, XMLATTR and $0 are those of the token, the end or the error. |
| XmlReader.DeliveredFit | xml/xml_puller.c:704-868 | At any moment the tokens delivered and pending are such that each end matches the last start still open before it. |
| XmlRecord.KindNamed | xml/xml_interface.c:83-105 | The variable set for an event is the one with its name in varinit, XML and then the name XMLEVENT gets. |
| XmlRecord.TokenShows | xml/xml_interface.c:641-735 | After the record of any token, by the names of varinit: XMLEVENT, the variable of the event, XMLNAME for the events with a name, place and depth; every other variable is empty. |
| XmlRecord.StartRecord | xml/xml_interface.c:648-657 | From the callback of a start tag: its converted name in XMLSTARTELEM and XMLNAME, each converted attribute under its name in XMLATTR, the names in $0, one deeper. |
| XmlRecord.EndRecord | xml/xml_interface.c:658-664 | From the callback of an end tag: its converted name in XMLENDELEM and XMLNAME. |
| XmlRecord.TextRecord | xml/xml_interface.c:665-670 | From a callback with data: XMLCHARDATA or XMLUNPARSED is 1, $0 is the converted data. |
| XmlRecord.MarkRecord | xml/xml_interface.c:671-678 | From a callback without an argument: the variable of the event is 1, and there is no $0. |
| XmlRecord.PiRecord | xml/xml_interface.c:679-685 | From a processing instruction: the target in XMLPROCINST and XMLNAME, the data in $0. |
| XmlRecord.CommentRecord | xml/xml_interface.c:686-691 | From a comment: XMLCOMMENT is 1, $0 is the text. |
| XmlRecord.DeclRecord | xml/xml_interface.c:692-710 | From the XML declaration: VERSION and ENCODING when they are there, STANDALONE as yes or no, each the argument of that name, and nothing else in XMLATTR. |
| XmlRecord.DoctRecord | xml/xml_interface.c:711-727 | From a DOCTYPE: its name in XMLSTARTDOCT and XMLNAME, the public and the system identifier each under its own name, INTERNAL_SUBSET when there is one, and nothing else in XMLATTR. |
| XmlRecord.EndDocumentRecord | xml/xml_interface.c:738-741 | From the end of a document: XMLENDDOCUMENT is 1. |
| XmlRecord.EndShows | xml/xml_interface.c:616-640 | At the end of input no variable is set; after an error its text, its place and the depth, and nothing else. |
| XmlRecord.NamesSeparated | xml/xml_interface.c:437-491 | $0 of a start element is its attribute names in order, with the separator between any two. |
| XmlRecord.PathSeparated | xml/xml_interface.c:494-528 | XMLPATH is every open element after its slash. |
| XmlRecord.AttrMapHas | xml/xml_interface.c:437-491 | XMLATTR of a start element holds each attribute under its name, and no other entry. |
| XmlPlaces.TokensInFile | xml/xml_puller.c:28-36 | Across all documents and restarts: the tokens delivered and pending, and the error, are those of one parser that counts rows and columns from the start of the whole file; each row and column is that of a byte of the file, and prev_last_row and prev_last_col are those of the byte where the current document starts. |
| XmlPlaces.RunMoves | xml/xml_puller.c:776-802 | At every run: counting in documents, with the saved position added after each restart, and counting in the file enqueue the same tokens at the same places. |
| XmlPlaces.PlaceInFile | xml/xml_puller.c:28-36 | set_row_col on a place within a document gives the row and column of the same byte in the file, on the first line of the document and on the others. |
| XmlNesting.NestedFit | xml/xml_puller.c:267-335 | From nested callbacks the handlers make tokens that nest, with converted names, as far as they could be converted. |
| XmlNesting.RunNests | xml/xml_puller.c:762-802 | When the callbacks of each document nest, so do those of a whole run across its restarts. |
| XmlInterface.Interface.ResetBefore | xml/xml_interface.c:399-430 | The counter moves on, past 0 when it wraps; no variable carries the new value; XMLPATH is refreshed when file or version differ. |
| XmlInterface.Interface.ResetAfter | xml/xml_interface.c:335-396 | The lazy reset leaves every variable set in this record alone and empties every other one, also XMLEVENT and XMLNAME when awk code assigned them; counters are 0 or the current one again. |
| XmlInterface.Interface.Assign | xml/xml_interface.c:83-87 | An assignment by awk code to XMLEVENT or XMLNAME cannot break the invariant of the counters. |
| XmlInterface.Interface.ResetPath | xml/xml_interface.c:415-422 | XMLPATH becomes the path of the file, with its version. |
| XmlInterface.Interface.StartOf | xml/xml_interface.c:648-657 | A start element: path, XMLPATH, names, attributes, and the depth after it. |
| XmlInterface.Interface.EndOf | xml/xml_interface.c:658-664 | An end element: XMLPATH keeps the full path while the version moves on, also when it wraps. |
| XmlInterface.Interface.SetKind | xml/xml_interface.c:578-610 | XMLEVENT, the variable of the kind, and XMLNAME for the kinds with a name. |
| XmlInterface.Interface.UpdateAttr | xml/xml_interface.c:437-491 | XMLATTR holds the attributes, and the record text their names in order. |
| XmlInterface.Interface.SetDeclAttrs | xml/xml_interface.c:692-710 | The version, encoding and standalone entries, each when present. |
| XmlInterface.Interface.SetDoctAttrs | xml/xml_interface.c:711-727 | The public, system and internal-subset entries, each when present. |
| XmlInterface.Interface.NoToken | xml/xml_interface.c:616-640 | End of input sets nothing; an error sets its text, place and depth. |
| XmlInterface.Interface.Open | xml/xml_interface.c:232-298 | A new file starts with an empty path, depth 0 and version 1, and disturbs no other. |
| XmlVariables.XmlState.AppendPath | xml/xml_interface.c:494-520 | The path is slash and name over the open elements; the buffer always holds it; the version moves on. |
| XmlVariables.XmlState.ChopPath | xml/xml_interface.c:522-528 | Taking off the last element leaves the path of the others. |
| XmlVariables.XmlState.JoinNames | xml/xml_interface.c:444-491 | Two passes, with growth in between: the names in order with one separator between them, never past the buffer. |
| CsvEngine.Parse | csv/csv_parser.c:29-120 | For each back end, the callbacks made are those of the six-state machine run over the characters handed out, to the end of the input or to the character that stopped it; none is asked for after that. |
| CsvEngine.Act | csv/csv_parser.c:37-96 | The body of the loop: the next state, the callbacks and the end of the run for each state and character. |
| CsvEngine.Finalize | csv/csv_parser.c:99-118 | The end of the record: the closing callbacks of each state. |
| CsvParser.OpsAlternate | csv/csv_parser.c:31-120 | On every input, well formed or not, begin_field and end_field alternate, characters come in between, and no field stays open. |
| CsvParser.ConvertIsJoinOfSplit | csv/csv_convert.c:30-50 | On every input csv_convert_record delivers the fields of csv_split_record joined by the separator. |
| CsvFormat.SplitOfPieces | csv/csv_parser.c:31-120 | On every input, put together from bare text, quoted text with more behind its closing quote, and text behind a quote that is never closed: the fields are what these stand for (a closing quote with text behind it belongs to the field), and the errors reported are those of each piece, in order. |
| CsvFormat.EveryInput | csv/csv_parser.c:31-120 | Every input, well formed or not, is made of such pieces. |
| CsvFormat.SplitOfPrint | csv/csv_split.c:31-112 | Splitting what a printer after section 2 of RFC 4180 wrote returns the fields and reports no error: any fields without NUL, any choice of which are quoted, any text after the end of the record. |
| CsvFormat.NoErrorIffPrinted | csv/csv_parser.c:31-120 | The parser reports no error on exactly the inputs that start with a printed record. |
| CsvEngine.SplitRecord | csv/csv_split.c:90-112 | The array holds the fields of the record, from index 1, and their number is returned. |
| CsvEngine.ConvertRecord | csv/csv_convert.c:82-109 | The result is the fields joined by the separator up to its NUL, and by a single NUL when the separator is empty. |
| CsvMachine.Splitter.EndField | csv/csv_split.c:35-43 | The finished field is stored under the next index. |
| CsvMachine.Splitter.NextChar | csv/csv_split.c:27-29 | Characters are handed out up to the first NUL, and never past it. |
| CsvMachine.Converter.BeginField | csv/csv_convert.c:30-36 | A separator before every field but the first; a NUL when it is empty. |
| CsvEngine.Read | csv/csv_input.c:181-212 | csv_read delivers the next record of the file, its terminator, the equivalent awk record and the field positions; records, terminators and what is left (a pending byte first) always make up the file. The result is -1 exactly when the file goes on with nothing, a blank line, or a quote and then nothing. |
| CsvEngine.BlankLineEnds | csv/csv_input.c:207-211 | A failing case: of a file that begins with an empty line the first call gives -1, with all the rest unread. |
| CsvEngine.GetRecord | csv/csv.c:183-215 | The next awk record of those still to come, or EOF when none is; the file then has fewer bytes left. |
| CsvEngine.GetRecords | csv/csv.c:183-215 | Called until EOF, it has given the awk records of the file up to the first that is empty. |
| CsvBlank.SplitNoneIff | csv/csv_parser.c:31-120 | A string has no field exactly when it is over at once: empty, or at a NUL or a line feed. |
| CsvBlank.SplitEmptyFieldIff | csv/csv_parser.c:31-120 | A string is one empty field exactly when it is a quote and then nothing: the end or a NUL, or the closing quote and then the end, a NUL or a line feed. |
| CsvBlank.BlankLineIff | csv/csv_input.c:41-81 | On the bytes of the stream, when quote and delimiter differ and neither is NUL or LF: exactly which beginnings give a record without a field, or with one empty field. |
| CsvBlank.DeliveredFirst | csv/csv.c:195-213 | What gawk sees are the first records of the file: none of them blank, and the next one, if there is one, blank. |
| CsvBlank.DeliveredIff | csv/csv.c:195-213 | gawk sees every record of a file exactly when none is blank. |
| CsvBlank.FileDeliveredIff | csv/csv.c:195-213 | A printed file is seen whole exactly when no line is without a field or a single empty one. |
| CsvMachine.Reader.NextChar | csv/csv_input.c:41-81 | The reader hands out the bytes of the record, and a NUL at its end, having taken exactly the terminator. |
| CsvMachine.Reader.TakeTerminator | csv/csv_input.c:59-74 | LF, CR or CRLF ends the record; the byte looked at after a CR stays pending. |
| CsvMachine.Reader.BeginField | csv/csv_input.c:83-93 | The separator is written and its length counted before every field but the first. |
| CsvMachine.Reader.EndField | csv/csv_input.c:95-102 | The position of the field is recorded. |
| CsvStream.RecordConserves | csv/csv_input.c:41-81 | Record, terminator and rest are the input, byte for byte, and the terminator is empty, LF, CR or CRLF. |
| CsvStream.RecordEnds | csv/csv_input.c:41-81 | Where a record ends, on the bytes: every line end in it stands behind an odd number of quotes; it ends at a line end behind an even number, at the end of the file, with a NUL, or with a line feed that ends it for the parser. |
| CsvStream.StreamConserves | csv/csv_input.c:182-212 | Reading a whole stream, the records with their terminators are the stream. |
| CsvStream.RecordSplits | csv/csv_input.c:182-212 | The fields csv_read delivers are those csv_split_record gives on the record, also after an error and when it holds a NUL. |
| CsvStream.InStepIff | csv/csv_input.c:56-78 | The two quote trackers agree, until an unexpected quote is reported, on every input exactly when the reader can see the quote and it is not the delimiter (or it is NUL, LF or CR); the parser is then handed a line end only inside a quoted field, on every input. |
| CsvStream.InStepLineEnds | csv/csv_input.c:56-78 | While the two agree, on any one input, a line end reaches the parser only inside a quoted field, and nothing stops it. |
| CsvStream.SignedQuote | csv/csv_input.c:56-78 | A failing case: with the quote 200 and a signed char the record ends at a quoted line feed; with an unsigned one it does not. |
| CsvStream.ReadOfPrint | csv/csv_input.c:41-81 | A printed record in a stream is read back whole, with its terminator, and nothing more, also with line ends inside quotes. |
| CsvStream.FileReadsBack | csv/csv_input.c:182-212 | Calling csv_read to the end of a file of printed records, also after a result of -1, gives them back one by one, whatever the mix of LF, CRLF and CR. |
| CsvAwk.CsvQuote | csv/awklib/csv/csv.awk:35-43 | A field is quoted when it holds the delimiter, the quote or a line feed, and its quotes are doubled. |
| CsvAwk.CsvCompose | csv/awklib/csv/csv.awk:46-56 | The fields at 1, 2, ... up to the first missing index, printed with the delimiter in between. |
| CsvAwk.ComposeSplitsIff | csv/awklib/csv/csv.awk:46-56 | csvsplit undoes csvcompose exactly when the fields are not the single empty field. |
| CsvLines.GetLine | csv/csv.c:183-215 | Where the reader sees the quote, csv_get_record on a line written by csvcompose gives the awk record of its fields exactly when there are fields, not just one empty field, and no field left unquoted holds a CR; then it also gives their number and positions, and leaves the lines after it. |
| CsvLines.GetLines | csv/csv.c:183-215 | Called until EOF on a file of lines written by csvcompose, it gives the awk records of all of them exactly when every line is of this kind. |
| CsvLines.LineIff | csv/awklib/csv/csv.awk:34-56 | What is found in a composed line of any other kind is no field at all, or a shorter awk record. |
| CsvLines.LinesIff | csv/awklib/csv/csv.awk:34-56 | The same of a file, on its bytes: the records delivered are those of all lists of fields exactly when each list is of this kind. |
| CsvAwk.ComposeReadsIff | csv/awklib/csv/csv.awk:34-56 | The fields csv_read finds in a composed line, before its length is looked at, are those written exactly when they are not the single empty field and no field left unquoted holds a CR. |
| CsvWidths.TapeOfInput | csv/csv_input.c:83-117 | The recorded positions are those of the fields: nothing skipped before the first, the separator before the others. |
| CsvWidths.WidthsFitIff | csv/csv_input.c:83-117 | Slicing the awk record by the positions gives the fields and covers it exactly when the length counted for the separator is the number of bytes written for it, or there is at most one field: not for an empty CSVFS. |
| CsvWidths.EmptyFsMisfit | csv/strbuf.c:55-65 | A failing case: for an empty CSVFS and the fields a and b the record has 3 bytes, the positions cover 2. |
| CsvBuffers.StrBuf.PutChar | csv/strbuf.c:36-53 | One character more; there is always room for the final NUL. |
| CsvBuffers.StrBuf.PutString | csv/strbuf.c:55-65 | At least one byte is written, then up to the first NUL. |
| CsvBuffers.FieldInfo.Add | csv/awk_fieldwidth_info.c:19-29 | One entry more; nf never exceeds the capacity, which doubles. |
| StrHash.MyHash | lib/strhash.c:80-133 | The unrolled loop entered in its middle computes the left fold 65599 * h + c modulo 2^64 over every byte, for every length, also 0 and multiples of 8; then it is reduced modulo the table size. |
| StrHash.HashUnit | lib/strhash.c:113-123 | Entered at label n, the loop body hashes exactly the next n bytes. |
| StrHash.HashC | lib/strhash.c:99-104 | Two shifts and a subtraction, each wrapping, are a multiplication by 65599. |
| StrHash.GetTableSize | lib/strhash.c:135-166 | The smallest size above the old one, or the largest when there is none. |
| StringTable.HashTable.Get | lib/strhash.c:218-245 | With the bucket computed after any growth: the entry of the key, or a new one added to the map, or NULL; the table stays valid (each entry in its bucket, keys unique, entries the size of the map, the load bound unless maxed); the index is replaced, by one of the next size, exactly when the insertion outgrows it. |
| StringTable.HashTable.GetAsWritten | lib/strhash.c:218-245 | With the bucket computed before growth, as the code stands: the table stays valid exactly when the insertion does not replace the index; otherwise the map is unchanged, the count is one too high and the entry is lost. |
| StringTable.LoseOne | lib/strhash.c:218-245 | Such a run exists: the 27th insertion into a new table of 13 buckets is not found afterwards. |
| StringTable.HashTable.Grow | lib/strhash.c:188-216 | Growth moves every entry to its bucket in an index of the next size and keeps the map; at the largest size it only marks the table. |
| StrTable.MoveChain | lib/strhash.c:203-211 | Relinking a chain entry by entry adds exactly its entries to the new table. |
| StrTable.MoveAll | lib/strhash.c:201-212 | After all rows the new table holds the same map. |
| StrTable.Push | lib/strhash.c:207-210 | Linking an entry in front of the chain of its bucket adds it to the map. |
| StrTable.Find | lib/strhash.c:224-228 | The search stops at the entry with the key, knows the one before it, and has passed none with the key. |
| StrTable.FoundIff | lib/strhash.c:224-228 | What the search finds in one bucket is what the map holds. |
| StrTable.Unlink | lib/strhash.c:252-262 | Linking around an entry removes it, and it alone, from the map. |
| StringTable.HashTable.Delete | lib/strhash.c:247-273 | 0 and one call of the callback with the removed entry when the key was present; otherwise -1 and nothing changes; the table is valid. |
| StringTable.HashTable.Destroy | lib/strhash.c:275-294 | The callback gets every entry of the map once, and every bucket ends empty. |
| StringTable.HashTable.constructor | lib/strhash.c:174-186 | A new table is empty and of the smallest size above the one asked for. |
| Json.ThereAndBack | json/json.cpp:233-336 | to_json and then from_json on its text give the array back exactly when no array in it is empty, no string in it is "@/" and every whole number in it is in the range of int64_t; what comes back has, at every depth, as object or list, the same indices, the same strings but for the marks of a regex, and for each number a text that is read as this number. |
| Json.EmptyInside | json/json.cpp:160-226 | A failing case of the first kind: an array whose one element is an empty array. |
| Json.AtSlash | json/awkjsonhandler.cpp:112-136 | A failing case of the second kind: the string "@/" is written, and reading it is not defined. |
| Json.TooWide | json/json.cpp:80-82 | A failing case of the third kind: 2^64 is a double, its cast is not defined, and no text of an int64_t is read as this number. |
| JsonValues.HasTextIff | json/json.cpp:80-84 | A whole number is what some int64_t prints exactly when it is in the range; so the cast cannot keep any other. |
| JsonValues.NormSame | json/awkjsonhandler.cpp:149-174 | What the handler builds of a value is the value: indices, strings, numbers, at every depth. |
| JsonValues.NumberKept | json/json.cpp:80-84 | The text written for a number, whole or not, is read as that number. |
| JsonRoundTrip.EventsRebuild | json/awkjsonhandler.cpp:113-268 | On all the events of a value the handler rebuilds it and ends at level 0 with an empty stack, exactly when no string in it is "@/" and no whole number out of range; an empty array inside is no obstacle here. |
| JsonRoundTrip.ValueInstalls | json/awkjsonhandler.cpp:149-268 | On the events of any value the level, stack, key and mode end as they began and exactly one element is installed. |
| JsonRoundTrip.ElemsInstall | json/awkjsonhandler.cpp:208-240 | On the members of an object the handler builds the map of its elements. |
| JsonRoundTrip.ListInstalls | json/awkjsonhandler.cpp:241-268 | On the values of a list the handler builds the same map, by index from 1. |
| JsonRoundTrip.ArrayNorm | json/awkjsonhandler.cpp:149-174 | With unique keys the rebuilt map has the same keys, each with its value. |
| JsonRoundTrip.ListIff | json/json.cpp:134-189 | With do_linear_arrays an array is written as a list exactly when its keys are "1" to "n" in canonical decimal. |
| JsonRoundTrip.ListHasNumerals | json/json.cpp:180-192 | Whatever order the sort leaves, an array written as a list has the keys "1" to "n", in numeric order. |
| JsonRoundTrip.ComparesNumbers | json/json.cpp:135-157 | On canonical decimals compare is the numeric difference, after strtol and the conversion to int. |
| JsonRoundTrip.StrtolOfDecimal | json/json.cpp:147-148 | strtol reads a canonical decimal back. |
| JsonWriter.ToJson | json/json.cpp:318-336 | A text is written exactly when no array in the value is empty. With lists asked for, an array with the indices 1 to n is written as a list of the values at 1, 2, ..., n, any other as an object of its elements in the order of flatten_array, at every depth; where a whole number is out of range, what stands in it is undefined. |
| JsonText.EventsAreText | json/json.cpp:134-226 | What is written with the sort is the text that looks the indices 1 to n up, at every depth. |
| JsonWriter.WriteArray | json/json.cpp:160-226 | A list when the sorted indices are their places, an object otherwise, in the order of flatten_array; an empty array fails. |
| JsonWriter.WriteValue | json/json.cpp:74-115 | Each type of value as its event: a whole number as an integer, or as something undefined when no int64_t holds it; a regex between @/ and /. It fails exactly on an empty array inside. |
| JsonWriter.WriteElem | json/json.cpp:119-128 | The key, then the value. |
| JsonWriter.SortElems | json/json.cpp:173-192 | The sorted elements, and whether each index is its place. |
| JsonHandler.FromJson | json/json.cpp:255-276 | The array is rebuilt from the events alone, for any events; none when a string "@/", an undefined number or an end without a start makes the outcome undefined. |
| JsonDocument.WholeText | json/awkjsonhandler.cpp:112-268 | Any JSON list or object, whoever wrote it and however deep: a list is an array from "1" on, an object an array by its keys of which the last one counts, a string or number a STRNUM or a regex without its marks; level and stack end empty. |
| JsonDocument.BareText | json/awkjsonhandler.cpp:149-174 | A text that is a single value leaves it under the empty index. |
| JsonHandler.AwkJsonHandler.SetElement | json/awkjsonhandler.cpp:149-174 | The current value goes under the key, or under the next index. |
| JsonHandler.AwkJsonHandler.PopMembers | json/awkjsonhandler.cpp:184-194 | What was pushed last comes back, all five members. |
| JsonHandler.AwkJsonHandler.StartObject | json/awkjsonhandler.cpp:209-219 | At the top nothing is pushed; below it the members are pushed and cleared. |
| JsonHandler.AwkJsonHandler.EndObject | json/awkjsonhandler.cpp:222-239 | The finished array becomes the value of an element of the one around it. |
| JsonHandler.AwkJsonHandler.StartArray | json/awkjsonhandler.cpp:241-250 | A list starts as an object does, then counts from 1. |
| JsonHandler.AwkJsonHandler.EndArray | json/awkjsonhandler.cpp:252-268 | A list ends as an object does; at the top the mode is reset. |
| JsonHandler.AwkJsonHandler.String | json/awkjsonhandler.cpp:112-136 | A string in the shape of a regex becomes one, without its marks; any other a STRNUM; only for "@/" the outcome is not defined. |
| SelectSignals.NoneLost | select/select.c:73-490 | In every interleaving of deliveries with calls, with sigaction and sigprocmask: between calls the deliveries are those of the reported windows, in order, and of the open one; each report is its window, the mask the open one, the flag set exactly when the mask is not empty; a snapshot being scanned lies within sigrange. |
| SelectSignals.NeverLosesIff | select/select.c:438-490 | Nothing is ever lost exactly when sigprocmask is there. |
| SelectSignals.LosingRun | select/select.c:457-472 | Without it, a signal that arrives between the copy of the mask and its reset is in no report and no mask. |
| SelectSignals.StepKeeps | select/select.c:73-490 | Every delivery, call and step of the main line keeps the invariant of the protocol. |
| SelectSignals.SignalKeeps | select/select.c:194-243 | select_signal, with its rollback: a trapped signal is within sigrange, or blocked, or just released and about to be added. |
| SelectSignals.SignalCall | select/select.c:137-240 | A whole call of select_signal, whatever is delivered meanwhile, with or without sigprocmask: when the installation succeeds and no handler of another's is there or the override is given, the signal has the new action, a trapped one is in sigrange, which grew no further than it must, and the answer is the old action; otherwise no action and no range is changed, and the answer is empty. All other actions, and the blocked signals, are as before. |
| SelectSignals.SelectCall | select/select.c:438-490 | A whole call of select: it makes one report exactly when it is asked for signals and finds the flag set, as it does when it was set before the call; the report has every signal caught by then and within sigrange; actions, range and blocked signals are as before. |
| SelectSignals.CallReturns | select/select.c:137-490 | Every call returns after a bounded number of steps of the main line, whatever is delivered. |
| SelectSignals.RefusedCall | select/select.c:137-240 | A select_signal that finds a handler of another's and has no override leaves every action and sigrange as they were, whatever is delivered meanwhile, and the handler has not seen the signal. |
| SelectSignals.SelectKeeps | select/select.c:457-490 | The snapshot, the reset and the scan: what was snapshot is what is reported. |

## Left out

- Json.ThereAndBack: arrays of 2^31 or more elements, where the `%d` of a place is negative; and the
  text of JSON, which is rapidjson's.
- JsonRoundTrip.EventsRebuild: the same bound.
- JsonRoundTrip.ListHasNumerals: the same bound.
- JsonRoundTrip.ListIff: the same bound, below which the conversion of a key difference to int is exact; a
  difference that no long holds, which C leaves open, is taken modulo 2^32 like any other.
- JsonWriter.WriteValue: NaN, the infinities and the sign of zero, and the API versions without a boolean type; numbers are reals,
  and the digits of a fraction are rapidjson's.
- JsonHandler.FromJson: what is copied after `length - 3` has wrapped around; texts rapidjson rejects, and values the handler is given by other readers (Int, Double).
- Puller.Puller.Drain: failure to allocate memory or to create a parser; the set of enabled tokens is fixed
  for the run (with or without END_DOCUMENT, all others enabled).
- Puller.Puller.InternalError: the texts of error messages; an error is its cause and its place, and
  row, col and len are one value.
- TokenPool.Pool.Add: the two fields tok_head and tok_tail are a class of their own, and a handler's use of a
  token (get, fill, enqueue) is one call where nothing can come in between.
- XmlInterface.Interface.GetRecord: the cache of converted event names, awk code that assigns XMLPATH, and
  the reuse of a closed file's address; the nodes of the variables are one table, as under `RESET_ARRAY`.
- CsvMachine.Reader.NextChar: errors of `read`, which the code does not tell from data.
- CsvMachine.Reader.Report: the text of the message with its cursor.
- CsvAwk.CsvQuote: quotes that are special in a regular expression, where `gsub` matches something else.
- StringTable.HashTable.GetAsWritten: the write into the index that was freed, which is undefined in C, is a
  write into memory no longer used.
- JsonDocument.WholeText: a text with the string "@/", where what is copied is undefined.
- CsvStream.RecordEnds: a line feed behind an odd number of quotes may end the record for the parser alone.
- StrHash.MyHash: `unsigned long` is taken to have 64 bits.
- SelectSignals.NoneLost: platforms without sigaction, the file descriptors and timeout of select, and the
  names put into the result array.
- Expat, iconv, rapidjson, the gawk API and the C library themselves.
- `xml/xml_enc_handler.c`: its tables are not part of this model.
- The extensions that check arguments and forward them to a library or a server (haru, redis, pgsql, lmdb,
  gd, mpfr, abort, errno, nl_langinfo), and aregex, mbs and reclen: they would only add easy members.
