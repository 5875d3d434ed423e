# Verified models of the reactor server

The repository is a C++ reactor server with an HTTP parser, timers, a thread
pool and an RTSP/H.264 streaming stack; its build tools contain cpplint. This
project models eight of its parts in Dafny and proves what each is for.
`dafny verify dfyconfig.toml` checks everything.

| part | files | what is proved |
|---|---|---|
| H.264 over RTP | `Rtp`, `Avc`, `H264Packets`, `H264Encoder`, `H264Theorems` | A receiver written from RFC 2326, RFC 3550 and RFC 6184 reads back, from the bytes sent, exactly the units the encoder owes for everything it was fed: the frames in order, and before exactly the IDR pictures the parameter sets fed last. |
| H.264 files | `AnnexB`, `MediaStream` | Splitting an Annex B stream undoes joining it, under an exact condition; a file can be scanned exactly if there is a start code in front; it is replayed cyclically and keeps pace with the clock for exactly as long as the clock can show the time. |
| cpplint | `Brackets`, `ExpressionScanner`, `ScannerTheorems`, `AngleWords`, `AngleTheorems`, `Nesting`, `NestingTheorems`, `NestingHeads` | The two bracket matchers find the shortest balanced stretch of the text, or from an angle bracket the template argument list, exactly where there is one, and undo each other; which block each head and brace opens follows from the text; preprocessor branches that are not taken leave no trace in the nesting stack, and what happens inside a block never touches the blocks around it. |
| HTTP requests | `HttpParser`, `HttpTheorems`, `HttpResume` | The parser completes exactly the printed form of well-formed requests, with exactly their contents, and throws exactly on one kind of header line; a message that comes in two reads can be cut at exactly one place. |
| Base64 | `Base64` | The bit-accumulator encoder writes the encoding of RFC 4648, section 4; decoding undoes encoding, and refuses exactly what is not in the alphabet. |
| Thread pool | `ThreadPool` | Over all interleavings: conservation and order of tasks, no lost wakeup, a shutdown that always ends, and what has run when it ends. |
| Timers | `TimerQueue` | The queue's invariant with callbacks that add timers, what one expiry does to it, and when the descriptor is armed. |
| Connection output | `Connection` | Until the first hard error the bytes on the wire and in the buffer are what was sent. |

`Options` and `Sequences` hold an option type and two facts about concatenation.

Code that changes state in place is modelled by classes and loops. Their
contracts tie the new state to a function of the old one (`Step`, `After`,
`Feed`, `Parse`, `Next`), and the lemmas are about all runs of that function.
These reference definitions come from elsewhere than the code they are compared
with: the grammars `Word` of balanced texts and `Inside` of template argument
lists, the depacketizer `ReceiveAll`, the Exp-Golomb reader `ReadUe` and the
encoding `Encode`. The tests of the code that they rest on (characters, unit
types, header names, the alphabet) are stated in their own words beside them. The
printed requests `Print` follow the states of the parser, because the language it
accepts is its own.

Where the code and its evident intent differ, the model follows the code:

- The picture parameter set is sent with the length of the sequence parameter
  set (`src/Rtsp/H264Rtp.cpp:30`). `PictureSetIntact` says exactly when this is
  harmless; bytes read past its end are an arbitrary function `beyond`.
- A unit of `mtu - 14` bytes goes to the fragmenting path and is one byte short
  for a first full fragment. `FragmentableExactly` shows that it is the only such
  length. `PackRtpFu` then sends that fragment with the byte behind the unit and
  returns false, where the size of the source wraps below zero and its next copy
  runs off the unit; the methods that call it return false with it.
- A `<` or `>` that looks like an operator is not where a list begins or ends, but
  the search from it goes on to the next bracket (`OperatorIsPassed`,
  `OperatorIsPassedBack`). The two matchers do not agree on what an operator is: the
  forward one takes the `>` of `>=` for the end of a list, and looks for the word
  `operator` one character too early before a `>`. `OpenUndoesCloseList` is about lines without
  such operators; `OperatorNameIsNotUndone` shows one with.
- The first slice of a picture is told by the first bit behind the header byte. In a
  slice that is `first_mb_in_slice` 0 (`TestsExactly`); data partitions of types 3 and
  4 begin with another field, to which the code applies the same test.
- A unit that ends in a zero byte loses it to a 3-byte start code after it.
  `SplitUndoesJoin` has the exact condition, `SplitLosesZero` two such units.
- White space before the method and extra blanks before the protocol are kept in
  the stored method and protocol (`Wire.gap`, `Wire.blanks`); the character after
  a header's colon is dropped whatever it is (`Header.gap`); a header line that
  ends right after its colon makes the parser throw (`ThrowsExactly`, `StubThrows`); and the
  length header is spelled `Content-Lenght`. The maps of the message before are kept.
- The parser keeps its state between calls but not its cursors, and every call
  reads the terminator behind its text. `RtspServer::OnMessage` resets the state
  only after a complete request and does not close the connection otherwise, so a
  later read goes on from there. `CutsExactly` says at which places a text can be cut
  whatever comes next, and `EmptyLineIsLost` that a request of which only the
  empty line comes later never completes.
- Scanning a file without a start code in front never ends (`StuckExactly`,
  `OneByteIsStuck`); `ScanParameterSets` returns false there. Further on nothing
  can go wrong: a unit ends in front of another or at the end of the file.
- The replay compares a product that wraps at 32 bits with the time elapsed. It is
  never more than 2^32 - 64 microseconds (`ClockReaches`), so 71 minutes after the
  start the loop never ends; nor does it for a file without the first slice of a
  picture, for which the clock stands still (`ClockMovesExactly`).
- Lines that end inside an `#else` branch do not leave the state that they leave
  without it (`OpenElseLeavesATrace`).
- A pool without workers closes with tasks that never ran (`ClosedMeansDone`,
  `NoWorkersNothingRuns`).

## Model

| member | source | states |
|---|---|---|
| `ExpressionScanner.FindEndOfExpressionInLine` | build_support/cpplint.py:1744-1819 | One line of the forward matcher, with the stack carried in and out, agrees with `Forward` |
| `ExpressionScanner.FindStartOfExpressionInLine` | build_support/cpplint.py:1866-1940 | One line of the backward matcher agrees with `Back` |
| `ExpressionScanner.CloseExpression` | build_support/cpplint.py:1822-1863 | The loop over the lines returns the position `CloseSpot`, or the end of the file |
| `ExpressionScanner.ReverseCloseExpression` | build_support/cpplint.py:1943-1978 | The loop over the lines returns the position `OpenSpot`, or the start of the file |
| `ScannerTheorems.StepForward` | build_support/cpplint.py:1757-1816 | The stack without its angle brackets moves as a plain bracket stack does, whatever `<`, `>`, `;` and operators come |
| `ScannerTheorems.StepBack` | build_support/cpplint.py:1883-1937 | The same for the backward matcher, against the mirror image of the text |
| `ScannerTheorems.SkippedIsNoBracket` | build_support/cpplint.py:1888-1920 | A character the backward matcher steps over is never a bracket |
| `ScannerTheorems.LineForward` | build_support/cpplint.py:1744-1819 | A line scanned forward gives what a plain bracket scan of it gives, with the angle brackets dropped from the stack |
| `ScannerTheorems.LineBack` | build_support/cpplint.py:1866-1940 | A line scanned backward gives what a plain scan of its mirror image gives, skipped characters included |
| `ScannerTheorems.CloseIsShortest` | build_support/cpplint.py:1822-1863 | From an opening bracket a position is found if and only if a balanced stretch starts there, and it is the end of the shortest one |
| `ScannerTheorems.OpenIsShortest` | build_support/cpplint.py:1943-1978 | From a closing bracket a position is found if and only if a balanced stretch ends there, and it is the start of the shortest one |
| `ScannerTheorems.OpenUndoesClose` | build_support/cpplint.py:1822-1978 | Searching back from where the forward search ended returns the starting line and column |
| `ScannerTheorems.CloseUndoesOpen` | build_support/cpplint.py:1822-1978 | Searching forward from where the backward search ended returns the starting line and column |
| `ScannerTheorems.LineBreaksDoNotMatter` | build_support/cpplint.py:1844-1860 | Scanning line by line with the carried stack agrees with scanning the flattened text |
| `AngleTheorems.OperatorExactly` | build_support/cpplint.py:1770-1799 | The pattern for an operator's name matches if and only if the text ends with the whole word `operator` and white space |
| `AngleWords.RunFindsList` | build_support/cpplint.py:1757-1816 | On the tokens of either matcher: from the start of a list the stack runs empty exactly behind its end, for the grammar of lists, and for nothing else |
| `AngleTheorems.CloseListExactly` | build_support/cpplint.py:1822-1863 | From a `<` that is no operator a position is found, over any lines, if and only if a whole template argument list lies between: text, groups with anything in them, and nested lists, up to the `>` |
| `AngleTheorems.CloseListInRange` | build_support/cpplint.py:1843-1863 | What is found is behind a `>`; from `<<` and `<=` nothing is found |
| `AngleTheorems.OperatorIsPassed` | build_support/cpplint.py:1762-1775 | From a `<` of an operator the search does what it would do from the next bracket of the line |
| `AngleTheorems.OpenListExactly` | build_support/cpplint.py:1943-1978 | From a `>` that is no operator a position is found if and only if what is read from there back is a whole list |
| `AngleTheorems.OpenListInRange` | build_support/cpplint.py:1943-1978 | What is found is a `<` in front of it |
| `AngleTheorems.OperatorIsPassedBack` | build_support/cpplint.py:1888-1898 | From a `>` of an operator the search does what it would do from the next bracket before that operator |
| `AngleTheorems.OpenUndoesCloseList` | build_support/cpplint.py:1822-1978 | On lines without operators that look like angle brackets, searching back from where a list ends returns its `<` |
| `AngleTheorems.CloseUndoesOpenList` | build_support/cpplint.py:1822-1978 | Searching forward from where the backward search ended returns the `>`, if and only if the `<` does not begin `<=` |
| `AngleTheorems.OperatorNameIsNotUndone` | build_support/cpplint.py:1798-1800 | The line `<operator>` is a list for the forward matcher and none for the backward one |
| `Nesting.NestingState.UpdatePreprocessor` | build_support/cpplint.py:2757-2811 | `#if`, `#else`/`#elif` and `#endif` save, restore and drop checkpoints of the nesting stack |
| `Nesting.NestingState.ConsumeNamespaces` | build_support/cpplint.py:2864-2879 | Leading namespace heads are pushed, and consumed with their brace |
| `Nesting.NestingState.ConsumeBraces` | build_support/cpplint.py:2940-2976 | The brace loop over the rest of a line |
| `Nesting.NestingState.Update` | build_support/cpplint.py:2814-2976 | A whole line, in the order of the source, is the step `Step` of the runs |
| `Nesting.Simulation` | build_support/cpplint.py:2757-2976 | The state on all lines and the state on the lines kept stay related at every line, with conditionals open and inside branches not taken |
| `Nesting.ErasureOnWellNested` | build_support/cpplint.py:2757-2976 | On well-nested lines, deleting everything from the first `#else`/`#elif` to its `#endif` gives the same nesting stack, from any state; the checkpoint stack ends as it began; nothing left is an `#else` |
| `Nesting.ErasureOnAnyLines` | build_support/cpplint.py:2757-2976 | On any lines at all the same holds from a fresh state, if and only if the end is not inside an `#else` branch |
| `Nesting.OpenElseLeavesATrace` | build_support/cpplint.py:2778-2797 | Two concrete lines that end inside an `#else` branch and leave another state than their erasure |
| `Nesting.ErasedHasNoElse` | build_support/cpplint.py:2778-2811 | What is left after deleting is well-nested and has no `#else` or `#elif` |
| `NestingTheorems.BracesOnOpened` | build_support/cpplint.py:2940-2976 | On open blocks the brace loop moves the depth by the braces of the line; blocks below the lowest point reached are the old ones, those above it are new and belong to this line |
| `NestingTheorems.HeadOpensOrGoes` | build_support/cpplint.py:2940-2976 | A head without its brace stays until a token comes: `;`, `)` and `}` take it away, and `{` opens it, after which it is a block like the others |
| `NestingTheorems.ClassLineLeavesNoTrace` | build_support/cpplint.py:2886-2976 | A class head that ends on its line, by a semicolon or by its own balanced braces, only counts its parentheses for the block around it |
| `NestingTheorems.BlocksAreLocal` | build_support/cpplint.py:2757-2976 | On well-nested lines that never need a block below some height, everything under that height stays as it is, whatever namespaces, classes, labels, parentheses, assembly and conditionals the lines hold |
| `NestingTheorems.MembersKeepTheirClass` | build_support/cpplint.py:2840-2976 | After any lines that do not close it, members that span lines and nested classes included, a class is still on the same blocks; its access is that of the last label among the lines it is on top of and no head begins, and its open parentheses are the sum over the lines it is on top of |
| `NestingTheorems.MembersByText` | build_support/cpplint.py:2840-2976 | Of lines without heads the text alone tells this: they do not close the block if and only if their joined braces never do, and it is on top on exactly the lines that begin at depth 1 |
| `NestingHeads.ClassByText` | build_support/cpplint.py:2494-2530 | A class from its head, on one line or several, through any lines that do not close it: its name and line, derived if and only if a line of the head has a bare colon, its access that of the last label, or else public for a struct and private for a class, its open parentheses, and the blocks around it |
| `NestingHeads.PlainLine` | build_support/cpplint.py:2840-2976 | A line that begins no namespace and no class, because it names none, parentheses are open, or it is a template argument, moves the depth by its braces; blocks, labels and parentheses follow from its text |
| `NestingHeads.BraceOpens` | build_support/cpplint.py:2940-2958 | On open blocks a brace opens an `extern "C"` block, or a plain one with or without assembly, by the text behind the token before it |
| `NestingHeads.HeadByText` | build_support/cpplint.py:2940-2976 | A head that waits is opened by `{` and taken away by `;`, `)` or `}`, and by no other text |
| `NestingHeads.NamespaceLine` | build_support/cpplint.py:2864-2879 | A line of namespace heads puts a block of each, with its name, opened if a brace follows it, on the blocks that were there |
| `NestingHeads.AsmBegins` | build_support/cpplint.py:2846-2857 | When a line of its own has been read, a block outside assembly is inside if and only if the line brings its open parentheses to one and begins as assembly does |
| `NestingTheorems.BranchesStartAnew` | build_support/cpplint.py:2778-2797 | After any lines inside a conditional an `#else` or `#elif` of it starts from the blocks in front of its `#if` |
| `NestingTheorems.AsmStaysInside` | build_support/cpplint.py:2840-2976 | Through any lines that do not close it, heads, braces and inner blocks included, a block is inside assembly for as long as the parentheses of the lines it is on top of are open |
| `NestingTheorems.AsmEndsWhenClosed` | build_support/cpplint.py:2840-2976 | The line it is on top of that closes them ends the assembly, and after the next such line the block is outside, or inside a new one |
| `H264Packets.FragmentableExactly` | src/Rtsp/H264Rtp.cpp:64-109 | Among the lengths that are fragmented, all can be but `mtu - 14` |
| `H264Packets.FragmentGap` | src/Rtsp/H264Rtp.cpp:64-96 | A concrete unit of the one length that cannot be fragmented |
| `H264Packets.FragmentsAreWellFormed` | src/Rtsp/H264Rtp.cpp:82-109 | At least two fragments, S on exactly the first, E on exactly the last, every packet within the limit, and the fragments cover the unit |
| `H264Packets.StapAReceived` | src/Rtsp/H264Rtp.cpp:72-80 | A receiver reads an aggregation packet as the one unit in it |
| `H264Packets.UnitReceived` | src/Rtsp/H264Rtp.cpp:64-109 | A receiver gets back the unit byte for byte, header included, whichever way it was packed |
| `H264Packets.PayloadsFit` | src/Rtsp/H264Rtp.cpp:64-109 | Every packet of a unit keeps within the MTU |
| `H264Encoder.H264RtpEncoder.MakeRtp` | src/Rtsp/H264Rtp.cpp:112-142 | The interleaved frame header and the RTP header, and the next sequence number modulo 65536 |
| `H264Encoder.H264RtpEncoder.PackRtpStapA` | src/Rtsp/H264Rtp.cpp:72-80 | One aggregation packet is sent, filled in place |
| `H264Encoder.H264RtpEncoder.PackRtpFu` | src/Rtsp/H264Rtp.cpp:82-109 | The loop terminates and sends the fragments of the unit, in order; false exactly at length `mtu - 14`, after the one fragment that reads a byte too far |
| `H264Encoder.H264RtpEncoder.PackRtp` | src/Rtsp/H264Rtp.cpp:64-70 | A unit of any length is sent in the packets that a receiver puts together, or refused exactly at length `mtu - 14` |
| `H264Encoder.H264RtpEncoder.InsertConfigFrame` | src/Rtsp/H264Rtp.cpp:24-31 | The parameter sets held now are sent, if both are known; false exactly when one cannot be fragmented |
| `H264Encoder.H264RtpEncoder.InputFrameL` | src/Rtsp/H264Rtp.cpp:55-62 | Parameter sets before a key frame, then the frame; false exactly when one of them cannot be fragmented |
| `H264Encoder.H264RtpEncoder.InputFrame` | src/Rtsp/H264Rtp.cpp:33-53 | Units of types 6 and 9 change nothing, those of types 7 and 8 only the parameter sets, any other takes the place of the frame held back. Any unit fed: every packet ever sent is determined by everything ever fed, and the i-th packet has number i modulo 65536; false exactly when a unit that is released cannot be fragmented |
| `Avc.FirstMbIsZero` | src/Rtsp/H264.cpp:82-84 | The Exp-Golomb number behind the header byte, read as the standard says, is 0 if and only if there is a second byte with its first bit set |
| `H264Encoder.TestsExactly` | src/Rtsp/H264.cpp:62-84 | In the terms of the standard: dropped are types 6 and 9, the clock is moved by types 1 to 5 with first_mb_in_slice 0, a key frame has type 5 and first_mb_in_slice 0 |
| `H264Encoder.AfterIsHistory` | src/Rtsp/H264Rtp.cpp:24-62 | What the encoder remembers and has sent is the latest parameter sets, the last frame held back, and a release of every earlier frame with the sets held when the next frame came |
| `H264Encoder.UnitsAreSendable` | src/Rtsp/H264Rtp.cpp:24-62 | If no unit fed has the length that cannot be fragmented, nothing that is ever released has it |
| `H264Theorems.StreamRead` | src/Rtsp/H264Rtp.cpp:112-142 | The bytes of all packets parse back, uniquely, into interleaved frames and RTP packets with the fields that were put in |
| `H264Theorems.SlotsFacts` | src/Rtsp/H264Rtp.cpp:72-109 | The packets of a unit carry its time, and the marker at most on the last |
| `H264Theorems.StreamCarriesUnits` | src/Rtsp/H264Rtp.cpp:24-142 | For every sequence of units fed, depacketizing all bytes sent gives exactly the units owed, in order, and the i-th packet carries number i modulo 65536 |
| `H264Theorems.SentCarriesFed` | src/Rtsp/H264Rtp.cpp:24-142 | The same of the encoder object: the bytes in its send log carry exactly what everything fed to it asks for |
| `H264Theorems.FramesAreReleased` | src/Rtsp/H264Rtp.cpp:33-62 | Without the parameter sets, the units owed are the frames in order but the one held back, marked exactly when the next frame has another time |
| `H264Theorems.SetsBeforeFrame` | src/Rtsp/H264Rtp.cpp:24-62 | Between a frame unit and the one before it there are parameter sets if and only if the frame begins an IDR picture and one of each type had been fed when the next frame came: the two fed last, the sequence parameter set first, unmarked, with the time of the frame |
| `H264Theorems.MarkedPackets` | src/Rtsp/H264Rtp.cpp:33-109 | On the packets read from the bytes sent: each carries the time of its unit, and the marker is on exactly the last packets of the frames whose next frame has another time |
| `H264Theorems.PictureSetIntact` | src/Rtsp/H264Rtp.cpp:24-31 | The picture parameter set is sent intact if and only if the two parameter sets have the same length |
| `H264Theorems.PictureSetCut` | src/Rtsp/H264Rtp.cpp:30 | A concrete picture parameter set that is cut short |
| `AnnexB.H264Nalu.GetAnnexbNalu` | src/Rtsp/H264.cpp:11-60 | The index loops take the first unit of a stream, or 0 when there is no start code in front |
| `AnnexB.TakesExactly` | src/Rtsp/H264.cpp:18-60 | A unit is taken if and only if the stream begins with a start code: what lies between that and the first one behind it, unless that is at the very end, or all the rest |
| `AnnexB.TakeFirst` | src/Rtsp/H264.cpp:11-60 | Of joined units the first is taken whole, at least 4 bytes are consumed, and what remains is the rest joined |
| `AnnexB.TakeFirstShort` | src/Rtsp/H264.cpp:36-53 | A unit that ends in a zero before a short start code comes out shorter |
| `AnnexB.SplitUndoesJoin` | src/Rtsp/H264.cpp:11-60 | Repeated taking returns exactly the units joined and consumes every byte, if and only if no unit that ends in a zero is followed by a 3-byte start code |
| `AnnexB.SplitLosesZero` | src/Rtsp/H264.cpp:36-53 | Two concrete units that are not split as they were joined |
| `AnnexB.StuckExactly` | src/Rtsp/H264.cpp:18-33 | Taking one unit after another comes to bytes from which nothing is taken if and only if the stream has bytes but no start code in front |
| `AnnexB.OneByteIsStuck` | src/Rtsp/H264.cpp:18-33 | A concrete file from which nothing is ever taken |
| `MediaStream.RtspMediaStream.ScanParameterSets` | src/Rtsp/RtspMediaStream.cpp:19-42 | The loop ends if and only if the file is empty or has a start code in front; of any such file it finds the latest parameter sets of the shortest start that has both, or of all its units |
| `MediaStream.RtspMediaStream.FeedOne` | src/Rtsp/RtspMediaStream.cpp:104-120 | Of any file with a start code in front one round of the loop feeds the next unit, wrapping at its end, and moves the clock by 40 ms exactly on the first slice of a picture; false exactly when a unit that becomes due cannot be fragmented |
| `MediaStream.RtspMediaStream.ReadFrame` | src/Rtsp/RtspMediaStream.cpp:103-121 | For a file with a picture the loop ends for every time that the clock can show, at or past it, overshoots by less than 40 ms if it fed anything, and only adds to what was fed |
| `MediaStream.CyclicAt` | src/Rtsp/RtspMediaStream.cpp:103-121 | The i-th unit ever fed is the i-th of the file going round, stamped with the time its predecessors add up to, modulo 2^32 |
| `MediaStream.TakeAt` | src/Rtsp/RtspMediaStream.cpp:25-41 | Of any file with a start code in front, taking at the place of a unit gives that unit and leads to the next, or to the end |
| `MediaStream.JoinedFile` | src/Rtsp/RtspMediaStream.cpp:103-121 | A file put together from clean, separated units can be scanned, its units are those, and they are fed in turn |
| `MediaStream.ClockMovesExactly` | src/Rtsp/RtspMediaStream.cpp:113-115 | The clock ever moves if and only if a unit of the file has type 1 to 5 and first_mb_in_slice 0 |
| `MediaStream.PicturesCount` | src/Rtsp/RtspMediaStream.cpp:113-115 | Each such unit fed moves it, and no other |
| `MediaStream.ClockReaches` | src/Rtsp/RtspMediaStream.cpp:105 | The wrapping product gets to a time if and only if that is at most 2^32 - 64 microseconds |
| `HttpParser.HttpContext.AdvanceLine` | src/http/HttpContext.cpp:43-95 | The switch on the states up to the URL, over the cursors, is the step of the cursor-free machine over the text since `start` |
| `HttpParser.HttpContext.AdvanceParam` | src/http/HttpContext.cpp:96-142 | The same for the parameters, with the slices cut at `colon` |
| `HttpParser.HttpContext.AdvanceProtocol` | src/http/HttpContext.cpp:143-184 | The same for the protocol and the version |
| `HttpParser.HttpContext.AdvanceHeader` | src/http/HttpContext.cpp:187-203 | The same for the header lines, including the slice that ends before it starts |
| `HttpParser.HttpContext.AdvanceLineEnd` | src/http/HttpContext.cpp:205-255 | The same for what comes between lines and for the empty line |
| `HttpParser.HttpContext.ChooseBody` | src/http/HttpContext.cpp:237-249 | Whether a body is read after the empty line, also when nothing follows it |
| `HttpParser.HttpContext.ParaseRequest` | src/http/HttpContext.cpp:24-275 | From any state and any message the loop leaves the state and request of the cursor-free machine `Parse`, or throws when it does; of a message whose size is negative as an int nothing is read |
| `HttpParser.HttpContext.ResetContextStatus` | src/http/HttpContext.cpp:20-22 | Only the state is reset |
| `HttpTheorems.ParseUndoesPrint` | src/http/HttpContext.cpp:31-275 | Parsing a printed well-formed request completes with its fields, its pairs laid over the previous maps, and its body, or the previous one if the last `Content-Lenght` printed, or else kept, is not positive |
| `HttpTheorems.BodyAsAnnounced` | src/http/HttpContext.cpp:237-249 | A body is taken if and only if the last header printed as `Content-Lenght`, or without one that kept from before, gives a positive number, or there is neither |
| `HttpTheorems.CompletesExactly` | src/http/HttpContext.cpp:54-264 | From the start state a message completes if and only if it is a printed well-formed request: slices and delimiters tile the whole message |
| `HttpTheorems.ThrowsExactly` | src/http/HttpContext.cpp:194-203 | From the start state a message throws if and only if, after a well-formed beginning, a header line has nothing between its colon and its carriage return; the request then holds all that came before |
| `HttpTheorems.StubThrows` | src/http/HttpContext.cpp:194-203 | A concrete message that makes the parser throw |
| `HttpResume.CutsExactly` | src/http/HttpContext.cpp:31-275 | Whatever comes next, a text read in two calls is read as in one call if and only if the cut is behind the blank after the method, or no continuation of the text completes or throws, or it begins with a whole request that wants no body |
| `HttpResume.CanEnd` | src/http/HttpContext.cpp:31-275 | Every request that has been begun and not refused has a continuation that completes it or throws |
| `HttpResume.ResumesExactly` | src/http/HttpContext.cpp:31-275 | The same in terms of the parser: the request is over without a body, or nothing has been read since `start` and the terminator leaves the state as it is |
| `HttpResume.LuckyCuts` | src/http/HttpContext.cpp:96-255 | Three places where the terminator moves the state and a given continuation can still be read the same |
| `HttpResume.RefusedCuts` | src/http/HttpContext.cpp:31-275 | Cut in the method, the version or a line end, the terminator refuses the request and every continuation with it |
| `HttpResume.EmptyLineIsLost` | src/Rtsp/RtspServer.cpp:33-50 | Any well-formed request whose empty line comes in a second read stays in a header line, although in one read it completes |
| `HttpResume.SplitRequest` | src/Rtsp/RtspServer.cpp:33-50 | For example `GET / RTSP/1.0` |
| `HttpTheorems.LastPairWins` | src/http/HttpRequest.cpp:36-57 | The last pair of a key is the one looked up |
| `HttpTheorems.OtherKeysStay` | src/http/HttpRequest.cpp:36-57 | A key of no pair keeps the value of the message before |
| `Base64.TablesAreInverse` | src/Util/base64.cpp:10-52 | The decoding table undoes the alphabet and knows no padding |
| `Base64.AlphabetIsStandard` | src/Util/base64.cpp:10-52 | The symbols of the values by the ranges of RFC 4648, and back |
| `Base64.KnownExactly` | src/Util/base64.cpp:10-37 | Characters outside the alphabet have no value |
| `Base64.DecodesByText` | src/Util/base64.cpp:24-43 | Decoding is refused if and only if a character before the end or the padding is not in the alphabet; else each byte joins the bits of two neighbouring symbols |
| `Base64.EmitsSextet` | src/Util/base64.cpp:62-71 | With any pending shift, the wrapping accumulator yields the next group of six bits |
| `Base64.StoreSymbols` | src/Util/base64.cpp:62-71 | The nested loops store all symbols of the input in place |
| `Base64.EncodeInto` | src/Util/base64.cpp:51-78 | The buffer holds the encoding of RFC 4648 and a terminator, the rest of it is untouched, and too long an input or too small a buffer is refused |
| `Base64.EncodeAt` | src/Util/base64.cpp:62-73 | The encoding by places: symbol j spells the j-th group of six bits, the rest is padding, the length is 4 times n/3 rounded up |
| `Base64.EncodeIsHeadAndPads` | src/Util/base64.cpp:62-73 | The recursive encoding of the standard is the symbols followed by the padding |
| `Base64.Accept` | src/Util/base64.cpp:34-39 | A symbol's value completes the right byte although the accumulator wraps |
| `Base64.DecodeInto` | src/Util/base64.cpp:24-43 | The loop stores the decoded bytes as far as there is room, or returns -1 at an unknown symbol before the padding |
| `Base64.DecodeUndoesEncode` | src/Util/base64.cpp:24-78 | Decoding the encoding of any bytes gives them back |
| `Base64.EncodeBase64` | src/Util/base64.cpp:84-97 | The string wrapper gives the encoding within the size guard; for every longer input, what the conversions of its sizes to 32-bit ints lead to |
| `Base64.DecodeBase64` | src/Util/base64.cpp:99-112 | The string wrapper gives the decoded bytes, as far as the room held in an int goes, or an empty string on a bad symbol; with less than 2 GiB of text all of them |
| `Base64.RoundTrip` | src/Util/base64.cpp:84-112 | The two wrappers in a row return every input within the size guard |
| `ThreadPool.Shared.Add` | src/Thread/ThreadPool.h:37-59 | A task is queued behind the others, or refused by a stopped pool |
| `ThreadPool.Shared.Critical` | src/Thread/ThreadPool.cpp:9-17 | A worker's critical section: wait, return, or take the first task |
| `ThreadPool.Shared.SetStop` | src/Thread/ThreadPool.cpp:25-28 | The destructor's flag |
| `ThreadPool.StepKeepsInv` | src/Thread/ThreadPool.cpp:7-34 | Every step of a worker, a submitter or the destructor keeps the invariant of the pool |
| `ThreadPool.TasksAreConserved` | src/Thread/ThreadPool.cpp:7-18 | In every reachable state tasks started in the order of acceptance, each accepted one is finished, running on exactly one worker, or queued, and the numbers add up |
| `ThreadPool.NoLostWakeup` | src/Thread/ThreadPool.cpp:11-13 | While a worker sleeps every queued task has a notification owed or a worker on its way; in a stopping pool a sleeper has notify_all to come |
| `ThreadPool.StoppingAdvances` | src/Thread/ThreadPool.cpp:7-34 | In a stopping pool every step that changes anything lowers a measure |
| `ThreadPool.StoppingGoesOn` | src/Thread/ThreadPool.cpp:24-34 | In a stopping pool that has not closed some step is enabled |
| `ThreadPool.StoppingRunIsBounded` | src/Thread/ThreadPool.cpp:24-34 | Every run of a stopping pool is bounded by the measure |
| `ThreadPool.StoppingCloses` | src/Thread/ThreadPool.cpp:24-34 | From every such state some run closes the pool |
| `ThreadPool.ClosedMeansDone` | src/Thread/ThreadPool.cpp:24-34 | When the destructor returns every accepted task has run, if and only if there was a worker or nothing was accepted |
| `ThreadPool.NoWorkersNothingRuns` | src/Thread/ThreadPool.cpp:24-34 | A concrete run after which the pool is closed and a task has not run |
| `TimerQueue.Timer.Run` | src/Timer/Timer.cpp:16-20 | A timer goes on repeating only if its callback says so and it has an interval |
| `TimerQueue.Timer.ReStart` | src/Timer/Timer.cpp:11-13 | The new expiration is now plus the interval, its products rounded by any function and truncated to microseconds |
| `TimerQueue.AddTimeIsClose` | src/Timer/TimeStamp.h:68-90 | With products rounded to 53 bits, every interval of up to 71 years is added to within two microseconds |
| `TimerQueue.TimerQueue.ResetTimerFd` | src/Timer/TimerQueue.cpp:84-99 | The descriptor is armed for the later of the expiration and 100 microseconds from now, through seconds and nanoseconds |
| `TimerQueue.TimerQueue.Insert` | src/Timer/TimerQueue.cpp:60-67 | Keys stay sorted, current and distinct; re-arming is asked for exactly when the new timer is strictly first |
| `TimerQueue.TimerQueue.AddTimer` | src/Timer/TimerQueue.cpp:52-59 | The set gains the timer, and a watched queue stays watched |
| `TimerQueue.TimerQueue.TakeExpired` | src/Timer/TimerQueue.cpp:43-45 | Exactly the timers strictly before now are removed, in order |
| `TimerQueue.TimerQueue.RunActive` | src/Timer/TimerQueue.cpp:46-49 | Each expired timer runs once, in order, while callbacks add timers |
| `TimerQueue.TimerQueue.ResetTimers` | src/Timer/TimerQueue.cpp:68-83 | The repeating ones are stamped anew and put back, and the descriptor is armed for the first timer |
| `TimerQueue.TimerQueue.HandleRead` | src/Timer/TimerQueue.cpp:39-51 | The timers expiring strictly before now run once each in order; afterwards the set is the unexpired, the added and the re-stamped ones, keys are current, and the descriptor watches the first |
| `TimerQueue.InsertedKeeps` | src/Timer/TimerQueue.cpp:60-67 | Inserting keeps the order and adds one timer, wherever it falls among equal keys |
| `Connection.Buffer.EnsureWriteableBytes` | src/NetWork/Buffer.h:65 | Moving the bytes down or growing the array keeps the contents and makes room |
| `Connection.Buffer.Append` | src/NetWork/Buffer.h:36-38 | The message is put behind the contents |
| `Connection.Buffer.AppendPrepend` | src/NetWork/Buffer.h:35 | The message is put in front of the contents, if there is room |
| `Connection.Buffer.Retrieve` | src/NetWork/Buffer.h:53 | The contents lose their front |
| `Connection.TcpConnection.Send` | src/NetWork/TcpConnection.cpp:105-142 | A direct write and the leftover in the buffer are the step `After` of the stream |
| `Connection.TcpConnection.WriteNonBlocking` | src/NetWork/TcpConnection.cpp:177-196 | An event-driven write is the step `After`; a hard error closes the connection, clears the callback and gives the buffer one byte back |
| `Connection.TcpConnection.OnWritable` | src/NetWork/TcpConnection.cpp:84-87 | A cleared callback writes nothing |
| `Connection.StreamIsKept` | src/NetWork/TcpConnection.cpp:105-196 | Over every run up to the first hard error, bytes written followed by bytes waiting are all that was sent, waiting bytes have write interest registered, and what was written is always a prefix of what was sent |
| `Connection.WireIsTaken` | src/NetWork/TcpConnection.cpp:105-196 | Over every run exactly the bytes that the kernel took went to the wire, of a message at once if none waited before it |
| `Connection.WritesDrain` | src/NetWork/TcpConnection.cpp:177-196 | As many successful writes as bytes wait leave none waiting |

## Left out

- H264Encoder.H264RtpEncoder.InputFrame: after it has returned false nothing is promised, because the copy of the source is undefined there; mtu lies between 15 and 65535, so that lengths fit their 16-bit fields. The missing return value is not modelled.
- AnnexB.H264Nalu.GetAnnexbNalu: bytes past the end of the stream read as zero; a stream that does not start with a start code is not searched, as in the code, and the type of a unit that was not taken, which the code leaves uninitialized, is that of no parameter set. `SplitUndoesJoin` is about units without an embedded start code, which the standard guarantees.
- MediaStream.RtspMediaStream.ReadFrame: requires that the loop ends, which `ClockReaches` and `ClockMovesExactly` say when it does; opening the file and the wall clock are parameters. After it has returned false nothing is promised, as for `InputFrame`.
- The receiver in `Rtp` reads no padding, header extension or contributing sources, which the encoder never sends.
- Nesting.NestingState.Update: blocks are values, so the sharing that `deepcopy` breaks is not modelled; error reporting, and the text of a class needed only for it, are left out. The patterns of the lines are an arbitrary `Lexicon`.
- AngleTheorems.OpenUndoesCloseList: on lines with operators that look like brackets, whether the backward search returns is said by `OpenListExactly` on what it reads, not by a condition on the text.
- The patterns of the bracket matchers treat white space and word characters as ASCII.
- HttpParser.HttpContext.ParaseRequest: `atoi` is an arbitrary function; characters are classified as in the C locale; messages of 4 GiB or more, whose size is cut to 32 bits, are excluded. It is the overload for strings, and the one for C strings, whose text ends with a NUL; the one with a pointer and a size reads whatever byte lies behind the text. `CompletesExactly` and `ThrowsExactly` are about messages read from the start state; for messages that come in two reads see `CutsExactly`.
- HttpResume.CutsExactly: quantifies over what comes next. For one given continuation two calls can agree by luck at other places too (`LuckyCuts`), which is not characterized in full.
- Base64.DecodeBase64: the place where decoding stops is below 2^31, so that the index of the loop does not overflow.
- HttpRequest's setters are assignments to its fields.
- The tables of Base64 are parameters of its loops; the wrappers pass the ones of the source.
- ThreadPool: tasks are values that end; futures, exceptions inside tasks and the creation of threads are left out. Mutual exclusion is taken for granted: a critical section is one step.
- TimerQueue.Timer.ReStart: doubles are real numbers, and their rounding is an arbitrary function, close to the identity where `AddTimeIsClose` needs it.
- TimerQueue: equal keys are ordered by address, so a new timer may go anywhere among them; clock readings and callbacks are parameters; the two clocks of the code are taken to agree, and sums do not overflow 64 bits. Timers are not run or restarted from outside the queue.
- The bodies of the buffer's methods are in `src/NetWork/Buffer.cpp`, which is cited by its header because of its encoding.
- Connection: what the kernel answers to a write is a parameter, bounded by what it was given; `RetrieveUtil` and the reading side are left out.
- Sockets, epoll, accept, files, logging, RTSP sessions, SDP, RTCP, HTTP responses, the rest of cpplint and the other build scripts are left out: input and output, or string assembly without a deeper invariant.
