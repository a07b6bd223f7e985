# Verification of the generic_main algorithms

A Dafny model of the algorithmic core of the `generic_main` component and of the inflate driver beside it, with
proofs about it. Sockets, clocks, the file system, the compressor and the HTTP server are byte sequences, parameters
or contracts; the code between them is modelled as classes, arrays and loops, each loop proved against a function,
and the functions are what the main theorems are about.

| part | modules |
|---|---|
| embedded filesystem: tree walk, image, reader, HTTP delivery, circular window | `DirTree`, `FsFormat`, `FsGen`, `FsRead`, `FsServe`, `Inflate` |
| HTML template engine: tag stack, self-flushing buffer | `HtmlMachine`, `HtmlPrefix`, `HtmlReader`, `HtmlBuffer`, `WebTemplate` |
| select loop: descriptor table, deadlines, dispatch | `Time`, `FdTable`, `Dispatch`, `SelectTask`, `SelectTurn` |
| Improv serial framing | `ImprovFrame`, `ImprovStream`, `ImprovBytes`, `ImprovWifi` |
| STUN client: reply parser, retry machine | `StunPacket`, `StunReply`, `StunRun`, `StunClient` |
| pattern substitution | `PatternString` |
| bytes, words, C strings, bit masks | `Bytes` |

`dafny verify dfyconfig.toml` checks everything.

The compression library enters as a datatype of functions (`Inflate.Zlib`) with three assumptions: decompression
undoes compression, the inflator delivers a stream's meaning piece by piece inside the room it is given
(`Delivers`), and, where stated, it asks to be called again only with a full window (`Fills`).
`AssumptionsAreConsistent` shows that they can be met. Handlers of the select loop are arbitrary functions of what
has happened so far, and in the class arbitrary scripts of calls.

## Where the code differs from its evident intent

Each of these is modelled as the code has it, and the exact condition under which the intended property holds is
proved.

- The list of suffixes not to compress never matches (`FsGen.HasListedSuffix`); the round trip does not depend on it.
- Pathnames longer than 1023 bytes are cut off; the round trip holds exactly when there are none
  (`FsRead.RoundTripExact`, `LongPathIsLost`).
- A file the server inflates itself is followed by an empty chunk after every window's worth, so that a client
  receives at most its first 32768 bytes (`FsServe.PackAndServe`, `ServedShort`). The server inflates only for clients
  that list "deflate" followed by a character other than a comma, a semicolon or a line end, and sends the deflated
  form also to those that do not list it (`FsServe.Response.ReadFile`).
- A piece of HTML of 1024 characters or more can be cut off (`HtmlBuffer.LongestPiece`,
  `WebTemplate.PrintDocument`, `CutParagraph`).
- The frame decoder keeps its running sum when it starts over, so that noise holding an "I" spoils the next frame
  unless its partial matches add up to a multiple of 256, and a byte that ends a partial match is not tried as the
  first of a frame (`ImprovStream.FrameAfterNoise`,
  `StrayLetterSpoilsFrame`, `LetterInFrontLosesFrame`).
- In the pass after select() found nothing ready, the flag for lateness is not reset, so that descriptors after one
  with less than ten milliseconds left are timed out too (`SelectTurn.LateFlag`, `TimedOutEarly`). A deadline that has
  passed does not do this, because nothing behind it is monitored.
- The scan stops at the first deadline that has passed, so that descriptors behind it, ready or not, wait for a later
  turn (`SelectTurn.BehindExpiredWaits`); the one it stops at is served (`FirstExpiredIsServed`).
- The time is read before select() and not again, so that a turn that waits ten milliseconds or more for a deadline
  serves nobody; the descriptor waited for is served in a later turn (`SelectTurn.NobodyAfterWait`).
- The port of a masked IPv4 address is unmasked with the wrong half of the cookie, and an IPv6 address without the
  transaction identifier (`StunReply.MaskedV4Returns`, `MaskedV6Returns`; section 14.2 of RFC 8489).
- A STUN request that cannot be sent, or a stop while waiting, drops the run without telling its caller
  (`StunRun.FinishedUnlessLost`, `UnsentIsLost`).
- The STUN parser trusts the declared length as long as it is not less than what arrived, and can read beyond the
  receive buffer exactly for lengths above 985 (`StunPacket.StaysInsideExactly`).

## Model

| member | source | states |
|---|---|---|
| FsRead.RoundTrip | components/generic_main/filesystem_generator/fs_gen.c:137-325 | For every directory tree with proper sibling names and pathnames of at most 1023 bytes whose image has at most 4 MiB: looking any path up in the image prints data if and only if the tree holds a regular file with that data under the names the path spells, none of them "." or ".."; otherwise the path is reported missing, and the reader never leaves the image |
| FsRead.RoundTripExact | components/generic_main/filesystem_generator/fs_gen.c:75-87 | Every path makes the round trip if and only if every file's full pathname fits the 1024-byte pathname buffer; otherwise some file cannot be found under its name |
| FsRead.LongPathIsMissing | components/generic_main/filesystem_generator/fs_gen.c:75-87 | Any pathname that does not fit the buffer is reported missing, also where the tree holds a file |
| FsRead.LongPathIsLost | components/generic_main/filesystem_generator/fs_gen.c:75-87 | An input: an empty file below four directories with names of 255 bytes is packed and cannot be found |
| FsRead.FirstIsInTree | components/generic_main/filesystem_generator/fs_gen.c:53-129 | The first file walked that has a path is the file the tree holds there |
| FsRead.PackAndRead | components/generic_main/filesystem_generator/fs_read.c:79-101 | Generator followed by reader: ends well exactly when the image fits 4 MiB, and then reads back exactly the tree |
| FsGen.Generator.WriteFile | components/generic_main/filesystem_generator/fs_gen.c:137-242 | Appends one file to the image and the table, keeping the invariant that the image, header count, index and table are those of the files so far; when a name runs past the image, when data are refused and when the file is stored is stated exactly |
| FsGen.Generator.StoreRecord | components/generic_main/filesystem_generator/fs_gen.c:167-236 | The image gains exactly the pathname, its terminator and the stored data, the header counts one more, and the entry gives their places; everything written earlier stays; each outcome has its exact condition |
| FsGen.Generator.StoreData | components/generic_main/filesystem_generator/fs_gen.c:173-237 | Empty files store nothing (method 1), files below 100 bytes themselves (0), others their compressed form (2), and exactly when the data do not fit |
| FsGen.Generator.Grow | components/generic_main/filesystem_generator/fs_gen.c:156-163 | Doubling the full table keeps every entry |
| FsGen.Generator.AddEntry | components/generic_main/filesystem_generator/fs_gen.c:156-165 | The next slot, after growth if needed, holds the new entry and the listing is that of one more file |
| FsGen.Generator.CountFile | components/generic_main/filesystem_generator/fs_gen.c:171-171 | Only the header's counter changes, by one |
| FsGen.HasListedSuffix | components/generic_main/filesystem_generator/fs_gen.c:176-184 | No name ever matches the suffix list, because the suffixes are listed without the dot the text starts with |
| FsGen.Generator.Descend | components/generic_main/filesystem_generator/fs_gen.c:53-129 | The recursive walk stores exactly the files of the subtree in depth-first order, after those already stored, or ends because they do not fit |
| FsGen.Generator.Visit | components/generic_main/filesystem_generator/fs_gen.c:74-126 | One directory entry: skipped, descended into, written or ignored, as the walk function says |
| FsGen.Generator.Finish | components/generic_main/filesystem_generator/fs_gen.c:300-312 | Alignment, table offset and table: succeeds exactly when the image fits and then returns the image function of the files |
| FsGen.Generate | components/generic_main/filesystem_generator/fs_gen.c:279-315 | Header, walk and table: succeeds if and only if the whole image is at most 4 MiB, and then returns that image |
| FsGen.FinishImage | components/generic_main/filesystem_generator/fs_gen.c:300-312 | The stored offset, padding and table complete what was written to the finished image |
| DirTree.WalkSound | components/generic_main/filesystem_generator/fs_gen.c:53-129 | Every file the walk reports is a regular file of the tree, reached through names other than "." and ".." that its pathname spells with a slash between each two |
| DirTree.WalkComplete | components/generic_main/filesystem_generator/fs_gen.c:53-129 | Every regular file of the tree, at any depth and under any names but "." and "..", is reported under its pathname |
| DirTree.WalkDistinct | components/generic_main/filesystem_generator/fs_gen.c:83-87 | Distinct files get distinct pathnames, given only what a file system guarantees of names |
| DirTree.BufferIsHarmless | components/generic_main/filesystem_generator/fs_gen.c:75-87 | The bounded pathname buffer changes nothing if and only if every full pathname fits it |
| DirTree.WalkCut | components/generic_main/filesystem_generator/fs_gen.c:83-87 | With the buffer, each file is stored under the first bytes of its full pathname, as many as fit |
| DirTree.WalkCStrings | components/generic_main/filesystem_generator/fs_gen.c:83-87 | Pathnames of a proper tree hold no terminator |
| FsFormat.Layout | components/generic_main/filesystem_generator/fs_gen.c:167-174 | Every file's name and data lie past the header and before the table, data right after the name; an earlier file's ranges lie before a later one's |
| FsFormat.Append | components/generic_main/filesystem_generator/fs_gen.c:164-174 | Later files leave entries and records of earlier ones unchanged |
| FsFormat.StartsIncrease | components/generic_main/filesystem_generator/fs_gen.c:167-174 | Records start in strictly increasing places |
| FsFormat.RecordAt | components/generic_main/filesystem_generator/fs_gen.c:164-236 | In the finished image each file's name, terminator and stored data are where its entry says |
| FsFormat.ImageParts | components/generic_main/filesystem_generator/fs_gen.c:300-312 | The finished image begins with the header and ends with the table |
| FsFormat.TableEntryAt | components/generic_main/filesystem_generator/fs_gen.c:310-311 | The k-th 20-byte slot of the table holds the k-th entry |
| FsFormat.AppendWrites | components/generic_main/filesystem_generator/fs_gen.c:167-172 | A copy at the output pointer extends what was written and leaves header and earlier bytes alone |
| FsFormat.CountWrites | components/generic_main/filesystem_generator/fs_gen.c:171-171 | Reading, adding one and storing the header counter keeps all else |
| FsRead.EntryReads | components/generic_main/filesystem_generator/fs_read.c:79-80 | A table entry reads back field by field from its bytes |
| FsRead.ImageDescribes | components/generic_main/filesystem_generator/fs_read.c:79-86 | Header, table and records of a generated image describe exactly the files stored |
| FsRead.FileIsPacked | components/generic_main/include/compressed_fs.h:11-23 | Byte for byte: the magic, the number of files at 80, the table's place at 84, the five little-endian words of the k-th entry, and behind them the file's name, its terminator and what is stored of it by its size |
| FsRead.SearchFinds | components/generic_main/filesystem_generator/fs_read.c:82-91 | The lookup loop on such an image finds the first file with the name, or none |
| FsRead.ReadingImage | components/generic_main/filesystem_generator/fs_read.c:29-91 | Looking a path up in an image of files prints the first such file's data, or reports it missing |
| FsRead.ContentsRead | components/generic_main/filesystem_generator/fs_read.c:29-44 | What an entry points at decodes to the file's data for each storage method |
| FsRead.ReadFile | components/generic_main/filesystem_generator/fs_read.c:21-44 | Prints exactly the bytes an entry stands for, inflating through the driver |
| FsRead.FindEntry | components/generic_main/filesystem_generator/fs_read.c:82-91 | The loop with its early exit computes the table search |
| FsRead.Read | components/generic_main/filesystem_generator/fs_read.c:79-101 | The reader's main program: search, print or report missing |
| Bytes.Le32RoundTrip | components/generic_main/include/compressed_fs.h:11-23 | A word stored little-endian reads back modulo 2^32 |
| FsServe.PackAndServe | components/generic_main/compressed_fs.c:98-133 | Packing a tree and answering a request: a file is found exactly if the tree has one there; its client receives, in chunks of at most 4096 bytes, the file if it has less than 100 bytes, else its deflated stream and the header, or its first 32768 bytes inflated, which is whole if and only if it has no more; which of the two is decided by the characters of the Accept-Encoding value |
| FsServe.HttpFileHandler | components/generic_main/compressed_fs.c:114-123 | The handler's search and answer for any image that describes its files |
| FsServe.ServeFile | components/generic_main/compressed_fs.c:57-96 | One packed file is served as stated for every Accept-Encoding value |
| FsServe.InflatesExactly | components/generic_main/compressed_fs.c:73-89 | For every header value: the server inflates if and only if a character other than a comma, semicolon, zero, carriage return or line feed stands right behind its first "deflate" |
| FsServe.ServedShort | components/generic_main/compressed_fs.c:71-88 | An input: a file of 40000 bytes requested with "deflate-x" arrives as its first 32768 bytes |
| FsServe.Response.ReadFile | components/generic_main/compressed_fs.c:57-96 | The chunks sent are at most 4096 bytes each, are ended, concatenate to the payload of the chosen branch, and what a client takes up to the first empty chunk is as stated; the header is set exactly in the deflate branch |
| FsServe.Response.SendChunks | components/generic_main/compressed_fs.c:25-39 | Chunks of at most 4096 bytes that concatenate to the data, then one empty chunk |
| FsServe.Response.ProcessSlices | components/generic_main/compressed_fs.c:41-46 | One sequence of chunks for every inflated slice; together all slices, of which the client receives the first |
| FsServe.Response.SendUncompressedFile | components/generic_main/compressed_fs.c:48-55 | The chunks sent while inflating concatenate to the inflated stream |
| FsServe.DeliveryThen | components/generic_main/compressed_fs.c:38-38 | What follows an empty chunk is not received |
| FsServe.FirstSlice | components/generic_main/compressed_fs.c:41-55 | The first slice is the window's worth of the whole |
| Inflate.DecompressMemToCallback | components/miniz/miniz.c:10-38 | Terminates; the consumed input is the sum of what the calls of the inflator took, each made with the state, rest of the input and window the former ones left, and never exceeds the input; slices concatenate to what the calls produced, the whole meaning of the stream when all are accepted; 1 exactly on a stream ending well with no refusal, -1 without memory |
| Inflate.Turn | components/miniz/miniz.c:20-34 | Each turn of the loop keeps the invariant of offsets, window and slices, or ends with the stated result |
| Inflate.CallInflator | components/miniz/miniz.c:22-25 | One call writes the next bytes of the stream in place and keeps the window right; offsets stay in range |
| Inflate.PutSlice | components/miniz/miniz.c:26-27 | Empty slices are not handed over; the loop goes on exactly when all were accepted |
| Inflate.NextOffset | components/miniz/miniz.c:33-33 | The masked offset is the number of bytes produced modulo 32768 |
| Inflate.WindowAdvances | components/miniz/miniz.c:22-33 | After every write each dictionary cell still holds the most recent byte whose index is congruent to it |
| Inflate.WrapIsModulo | components/miniz/miniz.c:33-33 | The bit mask is reduction modulo the window size |
| Bytes.MaskIsModulo | components/miniz/miniz.c:33-33 | Masking with a power of two less one is the remainder by that power, for every number |
| Inflate.AssumptionsAreConsistent | components/miniz/miniz.c:22-24 | The assumptions about the decompressor and compressor hold together of a concrete library |
| WebTemplate.PrintDocument | components/generic_main/web_template.c:103-169 | For every document and prologue: the document is finished exactly once, after everything is sent and with an empty stack; the client is sent exactly the prologue and the rendering if and only if no piece is cut off by the buffer, and there is one complaint for each that is; a reader of the characters sent finds the document again |
| WebTemplate.CutParagraph | components/generic_main/web_template.c:29-39 | An input: a paragraph of 3000 characters is complained of, and what is sent is not its rendering |
| HtmlMachine.TreePrints | components/generic_main/web_template.c:103-169 | Issuing a document's calls in tree order adds exactly its rendering to the text, leaves the stack as it was and finishes once if it was at the bottom |
| HtmlMachine.ForestPrints | components/generic_main/web_template.c:103-169 | The same for any sequence of documents |
| HtmlMachine.TreeLegal | components/generic_main/web_template.c:116-158 | Printing a document makes only calls of which the engine does not complain |
| HtmlReader.ReadsBack | components/generic_main/web_template.c:103-169 | A reader of start tags, quoted attributes, text and matching end tags, written from the characters alone, gives any documents back from their text, if names, values and texts hold none of the characters that end them and no text is empty or next to another |
| HtmlReader.ReadsMerged | components/generic_main/web_template.c:103-169 | Without the last condition it gives them back with neighbouring texts joined |
| HtmlReader.PrintedIsBalanced | components/generic_main/web_template.c:59-158 | What any legal calls of such names, values and texts have printed, with the pending end tags, is read as balanced documents |
| HtmlReader.OpenReads | components/generic_main/web_template.c:103-131 | A start tag and its attributes are read from their characters |
| HtmlReader.CloseReads | components/generic_main/web_template.c:146-146 | An end tag is read from its characters |
| HtmlMachine.StepSound | components/generic_main/web_template.c:59-158 | Every call keeps the stack invariant: only the top tag can be open, all below are closed and nest; a void tag survives only attribute calls; text only grows |
| HtmlMachine.RunSound | components/generic_main/web_template.c:59-158 | The stack invariant holds after every run of calls |
| HtmlPrefix.PrefixOfForest | components/generic_main/web_template.c:59-158 | After any legal calls, ending the tags still on the stack completes documents: the calls and those ends are exactly the calls of the documents in tree order, their rendering is what is printed then, and the text so far is its beginning |
| HtmlPrefix.LegalIsPrefix | components/generic_main/web_template.c:59-158 | A run of calls is legal if and only if some ends after it make it the calls of some documents |
| HtmlPrefix.RunPrints | components/generic_main/web_template.c:103-169 | After any legal calls the text is exactly that of the document they give, finished parts and elements begun |
| HtmlPrefix.GrowRepresents | components/generic_main/web_template.c:103-169 | Each legal call extends the document under construction by exactly that call, in step with the stack |
| HtmlPrefix.RunRepresents | components/generic_main/web_template.c:103-169 | The document built up by folding the calls of any legal run has the stack reached, and is given by exactly those calls |
| HtmlPrefix.GrowPrints | components/generic_main/web_template.c:103-169 | What a legal call prints is what it adds to the text of the document under construction |
| HtmlPrefix.ClosedIsForest | components/generic_main/web_template.c:139-158 | Legal calls that leave nothing to end are the calls of the documents they give |
| HtmlPrefix.EndsLegal | components/generic_main/web_template.c:139-158 | Ending the tags of any reachable stack, once each, is legal and empties it |
| HtmlBuffer.PiecesAreText | components/generic_main/web_template.c:103-169 | The pieces a call emits are exactly what it adds to the text |
| HtmlBuffer.LongestPiece | components/generic_main/web_template.c:29-39 | Pieces of a given length are never cut off at any index up to 1024 if and only if the length is at most 1023 |
| HtmlBuffer.TwoTexts | components/generic_main/web_template.c:29-39 | When one of two texts is cut off, by their lengths: the buffer takes less than 2048 characters and is sent once it has more than 1024 |
| HtmlBuffer.LongTextIsCut | components/generic_main/web_template.c:29-39 | A text longer than the buffer is cut off wherever it comes in a run of calls |
| HtmlBuffer.FittingRunIsWhole | components/generic_main/web_template.c:29-39 | No piece is cut off in any run whose names have at most 1020 and texts at most 1023 characters, and the index stays at most 1024 |
| WebTemplate.Template.Emit | components/generic_main/web_template.c:29-39 | One emission: chunks sent and buffer together stay everything emitted, the index and the number of cut pieces advance as the buffer function says, and the buffer is at most half full after it |
| WebTemplate.Template.Put | components/generic_main/web_template.c:32-35 | Formatting into the rest of the buffer: what does not fit is cut with a terminator and complained of |
| WebTemplate.Template.Place | components/generic_main/web_template.c:32-33 | The buffer's contents gain the piece, or its beginning and a terminator |
| WebTemplate.Template.Flush | components/generic_main/web_template.c:76-81 | What waits in the buffer is sent, as many characters as the index says, with what lies behind the buffer if that is beyond its end; nothing is lost or repeated |
| WebTemplate.Template.CompleteTag | components/generic_main/web_template.c:59-74 | The linked stack and the text follow the machine when the top tag is completed; a void tag is removed |
| WebTemplate.Template.Splice | components/generic_main/web_template.c:93-101 | A new node becomes the top of the linked stack; the rest is unchanged |
| WebTemplate.Template.HtmlTag | components/generic_main/web_template.c:103-114 | Refines the machine's step for a tag, with buffer index, losses and complaints |
| WebTemplate.Template.HtmlAttr | components/generic_main/web_template.c:116-131 | Refines the machine's step for an attribute, complaining if no tag is open |
| WebTemplate.Template.HtmlText | components/generic_main/web_template.c:160-169 | Refines the machine's step for text |
| WebTemplate.Template.HtmlEnd | components/generic_main/web_template.c:139-158 | Refines the machine's step for an end, complaining if there is nothing to end; the document is finished only with the buffer empty |
| WebTemplate.Template.IssueAll | components/generic_main/web_template.c:103-169 | Any run of calls, of whatever length, does what the machine does, and complains only of pieces cut off if the calls are legal |
| Dispatch.ReadyPassOrderly | components/generic_main/select_task.c:188-231 | For arbitrary re-entrant handlers, a ready pass calls each descriptor at most once, in ascending order, only if monitored at the start, with the handler and data current just before the call, reporting exactly what select() found; a timed-out descriptor is unregistered before its handler is entered |
| Dispatch.ZeroPassOrderly | components/generic_main/select_task.c:232-263 | The same for the pass after select() found nothing; every call is a timeout |
| Dispatch.DispatchedSurvives | components/generic_main/select_task.c:217-227 | What the handler of a descriptor leaves in its own slot, such as a re-registration, is there at the end of the ready pass, unless the handler of another descriptor called later changed it |
| Dispatch.TimedOutSurvives | components/generic_main/select_task.c:251-260 | The same for the pass after nothing was ready, where every descriptor called was unregistered first |
| Dispatch.ReadyPassKeeps | components/generic_main/select_task.c:188-231 | Between two handlers the dispatcher itself changes no descriptor before the one at hand |
| Dispatch.ZeroPassKeeps | components/generic_main/select_task.c:232-263 | The same for the pass after nothing was ready |
| Dispatch.ReadyPassCalls | components/generic_main/select_task.c:189-230 | For any handlers, a descriptor that earlier calls left alone is called in a ready pass if and only if it is monitored, has a handler, and is ready or due, also while the limit changes under the loop |
| Dispatch.ReadyPassFinds | components/generic_main/select_task.c:217-226 | Its call finds the handler, data and deadline that were there when the pass began |
| Dispatch.ZeroPassCalls | components/generic_main/select_task.c:232-263 | For any handlers, a descriptor that earlier calls left alone is called after nothing was ready if and only if it is monitored, has a handler, and it or a monitored one before it is due |
| Dispatch.ZeroPassFinds | components/generic_main/select_task.c:251-260 | Its call finds the slot that was there when the pass began |
| Dispatch.LeaveAloneSpares | components/generic_main/select_task.c:188-263 | Handlers that never register or unregister a descriptor leave it alone in every run |
| Dispatch.OnlyDueAreCalled | components/generic_main/select_task.c:233-260 | For any handlers and any monitored set: of the descriptors that earlier calls left alone only due ones are called if and only if no monitored one with a handler that is not due follows one that is |
| SelectTurn.TimedOutEarly | components/generic_main/select_task.c:124-263 | An input, run through the loop's registration, scan and dispatch: a descriptor with ninety-seven seconds left is timed out because an earlier one has five milliseconds left |
| SelectTurn.LateFlag | components/generic_main/select_task.c:142-263 | On what the scan computes, for any handlers: a turn that finds nothing ready calls only due descriptors, of those earlier calls left alone, if and only if no monitored one with a handler that is not due follows a monitored one whose deadline is zero to ten milliseconds ahead |
| SelectTurn.LateFlagTidy | components/generic_main/select_task.c:142-263 | Where handlers leave monitored descriptors after their own alone, the table and the time alone decide that |
| SelectTurn.BehindExpiredWaits | components/generic_main/select_task.c:155-158 | Behind a descriptor whose deadline has passed nothing is called in that turn, ready or not |
| SelectTurn.WaitsUnlessDue | components/generic_main/select_task.c:130-185 | The loop waits ten milliseconds or more if and only if no monitored descriptor is due |
| SelectTurn.NobodyAfterWait | components/generic_main/select_task.c:140-263 | After such a wait a turn that finds nothing ready changes nothing and calls nobody, whatever the handlers |
| SelectTurn.DueIsServed | components/generic_main/select_task.c:188-263 | A monitored descriptor that is due and has a handler is called in the turn unless an earlier call changed it |
| SelectTurn.FirstExpiredIsServed | components/generic_main/select_task.c:142-263 | In every turn that dispatches, the first expired open watched descriptor with a handler is called unless an earlier call changed it |
| SelectTask.SelectLoop.Register | components/generic_main/select_task.c:54-96 | Stores exactly the handler, data, deadline and the three events in their six tables at the descriptor, nothing else in them, and raises the limit if needed |
| SelectTask.SelectLoop.Unregister | components/generic_main/select_task.c:98-119 | Clears the descriptor in all six tables, nothing else in them, and, if it was the last, lowers the limit to one above the highest remaining set descriptor |
| SelectTask.SelectLoop.Scan | components/generic_main/select_task.c:142-166 | The wait is zero if any open watched descriptor's deadline has passed, else exactly the least of 365 days and all remaining times in microseconds; which descriptors are monitored |
| SelectTask.SelectLoop.DispatchReady | components/generic_main/select_task.c:188-231 | The loop computes the ready pass, for any handlers |
| SelectTask.SelectLoop.DispatchZero | components/generic_main/select_task.c:232-263 | The loop computes the zero-ready pass, with its flag kept from one descriptor to the next |
| SelectTask.SelectLoop.Turn | components/generic_main/select_task.c:124-272 | One turn: scan, then the ready pass or the zero-ready pass over the table, or nothing, by what select() reports; every call of the turn is in order, for a monitored descriptor and current |
| FdTable.ApplyLimit | components/generic_main/select_task.c:54-119 | The limit bounds every watched descriptor after each call, and stays exact except after a registration that watches nothing at or above the top |
| FdTable.LimitOverRuns | components/generic_main/select_task.c:54-119 | Over every sequence of calls every watched descriptor is below the limit, and the limit is exactly one above the highest watched one, or 0, if every registration watches something |
| FdTable.ExactIsTopWatched | components/generic_main/select_task.c:107-116 | The limit is exact if and only if it is 0 or the descriptor just below it is watched |
| FdTable.OthersUntouched | components/generic_main/select_task.c:54-119 | Calls for other descriptors leave a descriptor's slot alone |
| FdTable.TimesStayNormal | components/generic_main/select_task.c:65-75 | Deadlines stay normalised over every sequence of calls made at normalised times |
| Time.MicrosAgree | components/generic_main/select_task.c:153-163 | Comparison and subtraction of normalised (seconds, microseconds) pairs agree with total microseconds |
| Time.DueMicros | components/generic_main/select_task.c:203-215 | A deadline counts as reached exactly when it is less than ten milliseconds ahead |
| ImprovStream.WireReads | components/generic_main/improv_wifi.c:113-294 | What the encoder wrote, with noise before each frame that holds neither "I" nor 0xc0, is read back as the same types and payloads in order if and only if no three line ends come in a row before the last byte |
| ImprovStream.StreamReads | components/generic_main/improv_wifi.c:214-294 | Repeated reading of frames and noise gives the frames in order if and only if there is no third line end in a row |
| ImprovStream.FrameAfterNoise | components/generic_main/improv_wifi.c:245-291 | After any noise whatever, a frame is decoded at its end if and only if the noise leaves the matcher at its start, the partial matches in it add up to a multiple of 256, since the running sum is not cleared, and no third line end in a row occurs |
| ImprovStream.StrayLetterSpoilsFrame | components/generic_main/improv_wifi.c:246-257 | After "I " every frame is rejected |
| ImprovStream.LetterInFrontLosesFrame | components/generic_main/improv_wifi.c:246-257 | An input: an "I" just before a frame loses it, whatever it is |
| ImprovStream.MidMatchMisses | components/generic_main/improv_wifi.c:245-282 | A frame met in the middle of a match is never what is decoded at its end |
| ImprovFrame.FrameMatches | components/generic_main/improv_wifi.c:245-291 | A frame read from its start is decoded if the earlier sum is a multiple of 256 and rejected otherwise |
| ImprovFrame.ReadThrough | components/generic_main/improv_wifi.c:229-283 | Counting line ends and matching do not disturb each other |
| ImprovBytes.FrameBytes | components/generic_main/improv_wifi.c:112-130 | Every byte of a frame: the six letters, version 1, type, length, payload, and the sum of all before it |
| ImprovBytes.ReadyFrame | components/generic_main/improv_wifi.c:112-130 | The eleven bytes of the frame for the state "ready" |
| ImprovBytes.VersionIsChecked | components/generic_main/improv_wifi.c:260-265 | After quiet noise and the six letters, reading ends with a bad version at the seventh byte if and only if that is not 1 |
| ImprovBytes.SlipRestarts | components/generic_main/improv_wifi.c:245-257 | Before the version, a byte restarts the chip if and only if it is 0xc0 |
| ImprovBytes.RestartIsSlip | components/generic_main/improv_wifi.c:245-257 | Whatever the input, a reading that restarts the chip took 0xc0 last |
| ImprovBytes.ChecksumIsChecked | components/generic_main/improv_wifi.c:267-293 | After quiet noise and a header and payload byte for byte, the last byte decides: decoded if it is the sum of the others, rejected otherwise |
| ImprovBytes.NoTripleMeans | components/generic_main/improv_wifi.c:231-237 | Counting line ends finds exactly three carriage returns or line feeds in a row, those before included |
| ImprovBytes.ThirdLineEndEnds | components/generic_main/improv_wifi.c:231-234 | A third line end in a row ends the protocol unless the match ended before |
| ImprovBytes.InputEnds | components/generic_main/improv_wifi.c:240-242 | Input that ends before the match does is taken whole |
| ImprovWifi.Port.Send | components/generic_main/improv_wifi.c:112-130 | Appends exactly the frame and a line feed to the output |
| ImprovWifi.Checksum | components/generic_main/improv_wifi.c:124-125 | The loop adds up the bytes of the buffer |
| ImprovWifi.Port.ReadFrame | components/generic_main/improv_wifi.c:214-294 | The byte loop computes the reading function: verdict, bytes taken, line ends counted, payload in the caller's buffer, and an error frame sent exactly for a bad version or checksum |
| ImprovWifi.TakeByte | components/generic_main/improv_wifi.c:245-282 | One byte advances the locals and the buffer as the matcher says |
| ImprovWifi.Port.SendDeviceInformation | components/generic_main/improv_wifi.c:359-371 | Writes the frame whose payload is the command, the strings' encoded size and the three strings |
| ImprovWifi.StoreString | components/generic_main/improv_wifi.c:132-142 | Stores the length byte and the string behind it and returns their size |
| ImprovWifi.FetchString | components/generic_main/improv_wifi.c:296-303 | Copies out the string at a place with a terminator and returns the size it took |
| ImprovStream.StringReturns | components/generic_main/improv_wifi.c:296-303 | A string comes back if and only if its length fits the length byte |
| ImprovStream.StringsReturn | components/generic_main/improv_wifi.c:296-303 | Decoding as many strings as were encoded gives them back and uses exactly the encoded size |
| ImprovStream.ResultReturns | components/generic_main/improv_wifi.c:359-371 | A result frame read back and decoded gives the strings, and its size byte is exactly the bytes they take |
| StunPacket.AcceptedExactly | components/generic_main/stun.c:313-382 | A packet is accepted if and only if its declared length is not less than what arrived, attributes of size 4 plus length rounded up to 4 tile it exactly, none is an ERROR-CODE, and one is a MAPPED-ADDRESS or XOR-MAPPED-ADDRESS |
| StunPacket.AcceptedAddress | components/generic_main/stun.c:331-348 | The address of an accepted packet is that of the last XOR-MAPPED-ADDRESS if any, else of the last MAPPED-ADDRESS, and the declared length is a multiple of 4 |
| StunPacket.AcceptedTiles | components/generic_main/stun.c:325-375 | The attributes of an accepted packet tile the length, with the address picked by the rule above |
| StunPacket.TiledIsAccepted | components/generic_main/stun.c:325-381 | A tiled length without an ERROR-CODE is rejected only for want of an address |
| StunPacket.TilesForward | components/generic_main/stun.c:362-374 | What attributes tile is a multiple of 4 |
| StunPacket.WalkStaysInside | components/generic_main/stun.c:325-375 | No byte beyond the buffer is read when 20 bytes lie behind the attributes |
| StunPacket.StaysInsideExactly | components/generic_main/stun.c:319-375 | In the zeroed receive buffer of 1024 bytes, no reply of a declared length makes the parser read beyond it if and only if that length is at most 985 |
| StunPacket.StaysInsideWhateverIsThere | components/generic_main/stun.c:319-375 | Whatever else the buffer holds, the bound is 984 |
| StunPacket.OverlongOverruns | components/generic_main/stun.c:319-375 | An input for every larger length: attributes that end in the type of a masked address just before the buffer's end |
| StunPacket.ProcessReceivedPacket | components/generic_main/stun.c:313-382 | The loop over the buffer computes the parser, with its early rejections and the address stored by then |
| StunPacket.Increment | components/generic_main/stun.c:362-367 | The masked padding is rounding up to 4 |
| StunPacket.MaskMatters | components/generic_main/stun.c:192-193 | Bytes masked with one pattern and unmasked with another return if and only if the patterns are equal |
| StunPacket.XorBits | components/generic_main/stun.c:192-193 | A bit of the masked value is set exactly when it is set in one of value and mask |
| StunReply.MaskedReply | components/generic_main/stun.c:183-204 | From a server's reply, with any other attributes and padding, to the client's IPv4 address: the last masked address is returned |
| StunReply.PlainReply | components/generic_main/stun.c:152-169 | A plain address, port included, returns whole when no masked one is present |
| StunReply.MessageReturns | components/generic_main/stun.c:313-382 | A message written attribute by attribute is parsed into what its attributes mean, whatever lies behind it |
| StunReply.MaskedV4Returns | components/generic_main/stun.c:186-194 | From a masked IPv4 address the client takes the right address and never the right port |
| StunReply.MaskedV6Returns | components/generic_main/stun.c:195-204 | From a masked IPv6 address the client takes the right address if and only if the transaction identifier repeats the cookie, and the right port if and only if that is zero |
| StunRun.OneRequest | components/generic_main/stun.c:417-493 | Over every run of one request, with any failures, replies, timeouts, stops and other code's registrations between: at most six attempts, one report and one free; a freed record is neither queued nor reachable from the table; failure is reported only after six attempts; at most twelve turns |
| StunRun.FinishedUnlessLost | components/generic_main/stun.c:423-425 | When nothing is queued or awaited any more, the run was finished if and only if no request failed to be sent and no stop came while waiting; at most one such event happens |
| StunRun.UnsentIsLost | components/generic_main/stun.c:423-425 | An input: one request whose host cannot be resolved ends the run with nothing queued, awaited, freed or reported |
| StunRun.SuccessIsAccepted | components/generic_main/stun.c:436-448 | Success is reported only for a reply that arrived and was accepted, with the address it holds |
| StunRun.AcceptedIsReported | components/generic_main/stun.c:436-448 | An accepted reply is reported with its address, the record freed, and nothing queued or registered |
| StunRun.OtherwiseIsRetried | components/generic_main/stun.c:436-464 | Any other event of the socket counts one try: another request is queued, or after the sixth failure is reported and the record freed |
| StunRun.SentIsWatched | components/generic_main/stun.c:417-428 | A request that is sent is registered for reading and exceptions with a deadline five seconds ahead |
| StunRun.SuccessExactly | components/generic_main/stun.c:417-464 | Success is reported in exactly the runs in which an accepted reply arrives |
| StunRun.BroughtIsReported | components/generic_main/stun.c:436-448 | A run in which an accepted reply arrives ends with that report and no other |
| StunRun.FreedIsOver | components/generic_main/stun.c:417-464 | Once the record is freed nothing is sent, received, reported or freed any more |
| StunRun.RunKeeps | components/generic_main/stun.c:417-493 | Over every run the invariant holds, and the record is in exactly one place: queued, registered, freed or lost |
| StunRun.StepKeeps | components/generic_main/stun.c:417-493 | Every event keeps the invariant |
| StunRun.ReceiveQuiets | components/generic_main/stun.c:436-453 | After stun_receive no descriptor leads to it any more |
| StunRun.StepAccounts | components/generic_main/stun.c:417-493 | No event duplicates the record, and each send or receive uses up one of the turns left |
| StunClient.Client.StunSend | components/generic_main/stun.c:417-428 | Refines the machine's step for a send on the select loop's tables |
| StunClient.Client.StunReceive | components/generic_main/stun.c:430-464 | Refines the machine's step for a receive |
| StunClient.Client.ReceiveStunResponse | components/generic_main/stun.c:403-414 | Too short or rejected replies give -1; in every case the socket is unregistered |
| StunClient.Client.StunStop | components/generic_main/stun.c:485-493 | Refines the machine's step for a stop |
| PatternString.ExpandMeans | components/generic_main/pattern_string.c:6-88 | For every template of text and {name} parts, when names stand for fixed values: the result is the text with every name replaced, values not rescanned, exactly when every name is known and every name, value and the whole with its terminator fit; otherwise failure |
| PatternString.ExpandedIsProper | components/generic_main/pattern_string.c:14-34 | Whatever expands is made of text and proper {name} parts; malformed braces and empty names fail |
| PatternString.GmPatternString | components/generic_main/pattern_string.c:6-88 | The in-place loop returns 0 exactly when there is an expansion that fits, for any coroutine, whose answers may depend on all it was asked before, and the buffer then holds it as a terminated string; where only the last text does not fit the buffer is left empty |
| PatternString.PutReplacement | components/generic_main/pattern_string.c:37-70 | The text, then the name, then the value in the name's place: what was written before stays, and the used part of the buffer is what was done plus the text and the value |
| PatternString.PutLast | components/generic_main/pattern_string.c:77-84 | The last text is copied with its terminator |
| PatternString.RoomForTerminator | components/generic_main/pattern_string.c:40-83 | An expansion always leaves a byte for the terminator |
| PatternString.SplitPart | components/generic_main/pattern_string.c:16-35 | A part at the front is what the scan splits off |
| PatternString.SplitIsPart | components/generic_main/pattern_string.c:16-35 | What the scan splits off is a proper part at the front |
| PatternString.ProgressNext | components/generic_main/pattern_string.c:36-65 | After each replacement the rest of the template completes what has been written |

## Left out

- Opening, mapping, truncating and closing files, their error exits, and failures of memory allocation; the image is an array and the source directory a datatype.
- fstatat for entries of unknown type: a directory entry is a file, a directory or something else from the start.
- The 80 magic bytes of the image header are a parameter.
- The compressor and the inflator themselves, which are not part of the repository: contracts stand for them.
- FsGen.Generator.StoreRecord: a pathname that would be copied past the end of the mapped image ends the model with an outcome of its own, since the code does not check for it.
- HTTP registration, URI parsing, the root redirect and the 404 answer; the name search of http_file_handler is the reader's loop, used by both.
- Accept-Encoding values longer than the 127 characters the handler's buffer holds are seen as absent.
- printf formatting: emitted pieces are the formatted strings. The memory behind the buffer, which is sent after a piece was cut off, does not change.
- The pending void tag at the end of a document outside any element, which is completed only by the next call.
- timer_tasks: no task can be added, so its loop never runs.
- Waking up a select() under way, and registrations made by other threads during a pass; handlers run to completion.
- SelectTask.SelectLoop.Turn: the times of registrations made by handlers are given in their scripts; descriptors are below 100, as the arrays demand.
- Wrap-around of the 32-bit seconds counter.
- Improv WiFi state, credentials, network scan, URL report, events and the UART; the restart on a SLIP byte is a verdict.
- ImprovWifi.Port.SendDeviceInformation: the build version has at most 221 characters, which is what its buffer holds; a payload of exactly 256 bytes is sent with length byte 0.
- Host names, sockets and the random choice of a server and transaction identifier; the parser checks neither cookie nor transaction identifier, and so neither does the model.
- StunPacket.ProcessReceivedPacket: what a read beyond the receive buffer yields; it is a verdict of its own, and counts as a rejected reply in the retry machine.
- StunRun.OneRequest: one request at a time; a second one started before the first has ended would share its socket.
- The second close() of a socket that was closed already.
- PatternString.GmPatternString: what a coroutine leaves in the area when it refuses.
- uri_decode.c, uri_parse.c, param_parse.c: percent decoding, query parameters.
- array.c, all_zeroes.c, timer_to_human.c, port_control_protocol.c, event_server.c, console commands, web handlers, dynamic DNS, public IP, non-volatile storage, log server: small, or wrappers of libraries.
