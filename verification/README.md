# Verified models of the Sprefence fence camera and its Spresense examples

Sprefence is a camera-driven electric fence: a Spresense board looks for moving objects and faces, switches a
fence through two pins and sends pictures over a serial line to a PC server. The repository also carries the
examples of the Spresense SDK. This project models the parts of both that have real loops, state or protocols,
and proves what they keep over every input, every chunking of their input, or every interleaving of their threads.

| file | models |
|---|---|
| `SerialLink.dfy` | the serial image link: 7-into-8 packer, end marker, receive loop and decoder |
| `Detections.dfy`, `Clustering.dfy`, `WeightedMeans.dfy`, `NonMaxSuppression.dfy` | weighted non-maximum suppression against a greedy specification |
| `FacePipeline.dfy` | anchors, box decoding, score filter, and the pipeline up to the reported detection |
| `AtSync.dfy`, `AtLines.dfy` | the AT-command emulator: two-thread semaphore protocol and line assembly |
| `SimpleFifo.dfy`, `PlayerFeed.dfy` | the byte FIFO, and the player's producer and consumer interleaved byte by byte |
| `FwPackage.dfy` | streaming of firmware packages in bounded chunks |
| `Fence.dfy`, `BlackCenter.dfy` | the fence controller over whole runs, and the integer centroid of a frame difference |
| `RcFilter.dfy`, `Downmix.dfy`, `AsyncRing.dfy` | in-place RC filter, in-place channel downmix, ring of asynchronous argument buffers |
| `Wav.dfy`, `ImageNames.dfy` | WAV writer and reader, and fresh picture names |
| `Bytes.dfy`, `LittleEndian.dfy` | shared helpers |

Code that updates buffers and fields in loops is modelled by classes, arrays and methods with loops; each method is
proved against a specification function on values, and the properties are lemmas about those functions. Protocols
between threads are state machines whose steps are the shared-memory accesses. Integers are unbounded, with C's
truncating division (`TruncDiv`), 16-bit wrap-around and 32-bit overflow written out where they matter; floats are
reals. Nothing here has been executed.

Where a property that one would expect of the code does not hold for all inputs, the exact condition is proved:

- The serial link returns the image it was given if and only if its length is a multiple of 7, because the decoder
  takes the last group's length from a size that still counts the marker (`RoundTrip`, `PrefixExact`).
- The receive loop takes the whole frame if and only if its first read brings ten bytes or more and the frame fits
  the buffer (`Framing`, `Overlong`, `EndToEnd`).
- Suppression returns every greedy cluster if and only if no leader but the last has zero area
  (`SuppressionIsGreedy`); the merged bottom edge is the right edge (`MergeBounds`), so a lone box survives merging
  unchanged if and only if its bottom and right edges are equal (`MergeOfOne`).
- Line assembly equals splitting the stream if and only if every terminator ends its read and no line outgrows the
  buffer (`LineAssembly`).
- A truncated package is noticed if and only if the cut lies behind the record's header (`Truncation`), and a failed
  download stops the update if and only if it is the last chunk of its record (`MidRecordErrorIgnored`). The update
  follows a complete delivery if and only if every record but the last is answered with 0 and the last without an
  error (`UpdateIff`); a positive answer in between updates with the rest unsent (`PositiveReplySkips`).
- A brightness change is cancelled if and only if the summed difference keeps its sign or is a multiple of the pixel
  count (`BrightnessCancelled`, `CancelledIff`, `BrightnessShows`); the moments of all frames whose weights keep a
  bound fit an int if and only if the bound is at most 175 (`WeightLimit`).
- Filtering block by block equals filtering the join if and only if the carried state is not silent or the priming
  is (`BlockSplit`, `EmptyBlock`); wrap-around is impossible if and only if the amplitude is at most 3276
  (`AmplitudeLimit`), and then rounding never takes the filter 400 away from the exact one (`TracksIdeal`).
- One-channel downmix in place is right if and only if the input is constant (`MonoUnsafe`), and its writes leave
  the frames it reads (`WritesInside`).
- Outstanding DSP messages keep their arguments if and only if at most 8 requests, sent or not, were made since the
  oldest of them (`RingLaw`, `UnsentRequestsOverwrite`).
- After a rescan no picture is overwritten before the next one if and only if no picture has more digits than the
  alphabetically last one, or there is none when scandir fails (`OverwriteIff`, `LaterNameTaken`,
  `FailedScanOverwrites`); already the first name can be taken if and only if the last number is all nines, of four
  digits or more (`TakenIffNines`, `OneNameTwice`).
- A WAV header reads back without overflow in the writer if and only if its length is at most 1073741805 and rate,
  width and their product are in range (`HeaderDefined`).

## Model

| member | source | states |
|---|---|---|
| `SerialLink.CarryBits` | sprefence/web_source/web_source_main.c:301-314 | bit 6 - k of the carry byte is the top bit of byte k of the group, for every group and every prefix of it, and the carry stays below 128 |
| `SerialLink.AlphabetInOrder` | sprefence/web_source/web_source_main.c:305-320 | the shift is the increasing one-to-one map of 0..127 onto the printable bytes, and the PC undoes it on each of them |
| `SerialLink.UnpackPack` | sprefence/web_source/web_source_main.c:299-320 | the PC's group decoder undoes the board's group encoder for every group of up to 7 bytes, including the carry and the alphabet shift |
| `SerialLink.FillGroup` | sprefence/web_source/web_source_main.c:299-320 | the inner loop leaves in `wbuf` the packed group, low seven bits shifted and the carry last |
| `SerialLink.SendGroup` | sprefence/web_source/web_source_main.c:293-321 | the bytes written for group i are the packing of that group, shortened for the last one |
| `SerialLink.SendImage` | sprefence/web_source/web_source_main.c:287-331 | everything written for a capture is the frame of its image part, and the bare marker when the capture holds no image |
| `SerialLink.ImagePart` | sprefence/web_source/web_source_main.c:287-306 | the payload is what lies behind the first 153600 bytes of a capture, byte for byte |
| `SerialLink.EmptyCapture` | sprefence/web_source/web_source_main.c:287-331 | without an image the wire carries the ten bytes of EndOfFile and a NUL |
| `SerialLink.BodyLength` | sprefence/web_source/web_source_main.c:291-321 | n payload bytes become n plus the number of started groups |
| `SerialLink.AsWrittenSplits` | SprefenceServer/SprefenceServer/WebServer.cs:122-145 | decoding a frame gives the whole groups unharmed followed by seven bytes decoded across the marker for a shorter last group |
| `SerialLink.SpoiledBytes` | SprefenceServer/SprefenceServer/WebServer.cs:125-143 | across a short last group each of the seven bytes takes its low bits from the payload, the carry byte or the marker, and its top bit from the marker byte that is read as the carry |
| `SerialLink.ReceivedImage` | SprefenceServer/SprefenceServer/WebServer.cs:122-145 | for every payload: how many bytes come back (rounded up to whole groups), which are exact, and the exact value of every other one, the surplus included |
| `SerialLink.RoundTrip` | SprefenceServer/SprefenceServer/WebServer.cs:122-145 | decoding the frame gives the payload if and only if its length is a multiple of 7; with the marker left out of the group length it does so for every payload |
| `SerialLink.RoundTripTrimmed` | SprefenceServer/SprefenceServer/WebServer.cs:123-143 | the variant whose group length leaves the marker out is a left inverse of the packer for every payload, whatever follows |
| `SerialLink.PrefixExact` | SprefenceServer/SprefenceServer/WebServer.cs:125-143 | the payload is a prefix of the result if and only if the top bits of the short last group happen to be those of the marker |
| `SerialLink.BodyIsPrintable` | sprefence/web_source/web_source_main.c:305-320 | every encoded byte lies in 32..126 or 160..192 |
| `SerialLink.ZeroIsLast` | sprefence/web_source/web_source_main.c:305-331 | a byte of a frame is zero if and only if it is the last one |
| `SerialLink.OnlyWholeFrameEnds` | SprefenceServer/SprefenceServer/WebServer.cs:61-72 | a prefix of a frame ends with the marker if and only if it is the whole frame |
| `SerialLink.Framing` | SprefenceServer/SprefenceServer/WebServer.cs:109-121 | for every way of cutting a frame into reads the loop stops at its last byte and not before, and fails if and only if the first read has fewer than ten bytes |
| `SerialLink.Overlong` | SprefenceServer/SprefenceServer/WebServer.cs:109-121 | a frame that is longer than the buffer overruns it, however it is cut into reads of which the first has ten bytes |
| `SerialLink.EndToEnd` | SprefenceServer/SprefenceServer/WebServer.cs:109-145 | for every payload, buffer size and chunking: the image arrives unharmed if and only if the first read has ten bytes or more, the frame fits the buffer and the length is a multiple of 7 |
| `SerialLink.WebServer.constructor` | SprefenceServer/SprefenceServer/WebServer.cs:24 | the buffer holds 1 MiB |
| `SerialLink.WebServer.IsEnd` | SprefenceServer/SprefenceServer/WebServer.cs:61-72 | true exactly when the received bytes end with the marker; out of range exactly below ten bytes |
| `SerialLink.WebServer.Read` | SprefenceServer/SprefenceServer/WebServer.cs:116 | a read appends its block to the bytes already in the buffer |
| `SerialLink.WebServer.Receive` | SprefenceServer/SprefenceServer/WebServer.cs:109-121 | the loop's outcome for every list of reads, with the buffer holding exactly the bytes received |
| `SerialLink.WebServer.DecodeGroup` | SprefenceServer/SprefenceServer/WebServer.cs:130-144 | the inner loop rejoins every byte of the group with its bit of the carry |
| `SerialLink.WebServer.DecodeBuffer` | SprefenceServer/SprefenceServer/WebServer.cs:122-145 | the outer loop decodes the buffer as specified, group lengths taken from the size with the marker |
| `Detections.OverlapMeasure` | sprefence/face_detect/non_max_suppression.cxx:14-45 | for boxes of non-negative size the overlap lies in [0, 1], is 0 if either has no area and 1 between a proper box and itself |
| `Detections.OverlapSymmetric` | sprefence/face_detect/non_max_suppression.cxx:14-45 | the overlap does not depend on the order of the boxes |
| `Detections.IntersectionIsCommon` | sprefence/face_detect/non_max_suppression.cxx:14-34 | the intersection rectangle holds exactly the points that lie in both boxes |
| `Detections.OverlapIsIou` | sprefence/face_detect/non_max_suppression.cxx:36-45 | the overlap times the area of the union is the common area, and 0 for boxes that do not meet |
| `Detections.OverlapInEdges` | sprefence/face_detect/non_max_suppression.cxx:14-45 | the same written in the edges and sides of the two boxes |
| `Detections.OverlapThreshold` | sprefence/face_detect/non_max_suppression.cxx:36-45 | the overlap exceeds 0.3 if and only if the boxes meet and thirteen times the common area exceeds three times the sum of their areas |
| `Clustering.GreedyLeaders` | sprefence/face_detect/non_max_suppression.cxx:72-133 | the worklist loop without its break leads exactly the positions of which no earlier leader is near |
| `Clustering.BreakIffFlat` | sprefence/face_detect/non_max_suppression.cxx:125-132 | the worklist stops shrinking, and the loop breaks, if and only if its leader has no area; otherwise at least the leader is gone |
| `Clustering.StopsAtFlat` | sprefence/face_detect/non_max_suppression.cxx:72-133 | the loop forms the greedy clusters up to and including the first whose leader has no area |
| `Clustering.RefinesGreedy` | sprefence/face_detect/non_max_suppression.cxx:72-133 | the loop's clusters are a prefix of the greedy ones, and all of them if and only if no leader but the last has no area |
| `Clustering.MemberOfFirst` | sprefence/face_detect/non_max_suppression.cxx:80-91 | a box belongs to a cluster if and only if that cluster's leader is the first one near it |
| `Clustering.OneClusterEach` | sprefence/face_detect/non_max_suppression.cxx:72-133 | every box with area belongs to exactly one cluster |
| `Clustering.LeadersApart` | sprefence/face_detect/non_max_suppression.cxx:72-133 | no leader is near an earlier one |
| `Clustering.LeaderOutscores` | sprefence/face_detect/non_max_suppression.cxx:61-133 | neither a member of its cluster nor a later leader outscores a leader |
| `WeightedMeans.MeanBetween` | sprefence/face_detect/non_max_suppression.cxx:94-120 | a score-weighted mean lies between any bounds of its values |
| `WeightedMeans.MeanOrder` | sprefence/face_detect/non_max_suppression.cxx:94-120 | raising every value cannot lower the weighted mean, which is why right edges stay right of left edges |
| `NonMaxSuppression.MergeBounds` | sprefence/face_detect/non_max_suppression.cxx:93-120 | a merged box keeps its leader's score and class, its left, right and top edges lie between the extremes of its members, its width is not negative, and its bottom edge is its right edge |
| `NonMaxSuppression.MergeOfOne` | sprefence/face_detect/non_max_suppression.cxx:93-120 | merging a lone box gives it back if and only if its bottom equals its right edge |
| `NonMaxSuppression.MergeOfTwo` | sprefence/face_detect/non_max_suppression.cxx:93-120 | left, right and top edge of two merged boxes are the means of theirs with the scores as weights |
| `NonMaxSuppression.FlatUnchanged` | sprefence/face_detect/non_max_suppression.cxx:93-122 | a leader without area is returned as it is |
| `NonMaxSuppression.SuppressionIsGreedy` | sprefence/face_detect/non_max_suppression.cxx:47-135 | for every ranking by score the result is the merged greedy clusters up to and including the first leader without area, the greedy leaders are those of the specification, and the result is complete if and only if no leader but the last has no area |
| `NonMaxSuppression.LeadersSpread` | sprefence/face_detect/non_max_suppression.cxx:72-133 | leaders of returned clusters overlap by at most 0.3 and returned scores do not increase |
| `NonMaxSuppression.BestFirst` | sprefence/face_detect/non_max_suppression.cxx:61-122 | the first detection returned carries the best score of the input |
| `NonMaxSuppression.EveryBoxOnce` | sprefence/face_detect/non_max_suppression.cxx:72-133 | when all boxes have area, each lies in exactly one returned cluster, that of the first leader it overlaps by more than 0.3, which scores at least as high |
| `NonMaxSuppression.SortByScore` | sprefence/face_detect/non_max_suppression.cxx:56-61 | some ranking: every index once, scores not increasing |
| `NonMaxSuppression.Partition` | sprefence/face_detect/non_max_suppression.cxx:80-91 | candidates and remained are the worklist entries near the leader and the others, each in order; NearInAreas says in areas what near means |
| `NonMaxSuppression.NearInAreas` | sprefence/face_detect/non_max_suppression.cxx:82-84 | two boxes are clustered if and only if thirteen times their common area exceeds three times the sum of their areas |
| `NonMaxSuppression.Sums` | sprefence/face_detect/non_max_suppression.cxx:96-111 | the running sums are the weighted edges of the candidates and their total score, the bottom sum being the right one |
| `NonMaxSuppression.WeightedDetection` | sprefence/face_detect/non_max_suppression.cxx:93-120 | the merge step computes the merged box, or the leader when there are no candidates |
| `NonMaxSuppression.Round` | sprefence/face_detect/non_max_suppression.cxx:72-133 | one pass peels one detection off the specified result and leaves a worklist that yields the others |
| `NonMaxSuppression.Suppress` | sprefence/face_detect/non_max_suppression.cxx:47-135 | the whole function returns the specified detections for the ranking its sort produced |
| `FacePipeline.LoopIndex` | sprefence/face_detect/ssd_anchors.cxx:81-104 | the triple loop places the anchor of cell (x, y) at index (y * side + x) * n + a |
| `FacePipeline.GenerateRun` | sprefence/face_detect/ssd_anchors.cxx:76-104 | the triple loop produces the anchors of one run of equal strides |
| `FacePipeline.GenerateAnchors` | sprefence/face_detect/ssd_anchors.cxx:31-107 | for any list of strides, neighbouring equal strides become one run, two anchors a layer |
| `FacePipeline.AnchorLayout` | sprefence/face_detect/ssd_anchors.cxx:31-109 | there are 896 anchors: 512 on the 16 by 16 grid and 384 on the 8 by 8 grid, with the centre of each given by its index |
| `FacePipeline.AnchorCentres` | sprefence/face_detect/ssd_anchors.cxx:76-100 | the centre of every anchor as a number of its index: odd 32nds along 16 columns and rows, then odd 16ths along 8; all of unit size |
| `FacePipeline.DecodeBox` | sprefence/face_detect/tensors_to_detections.cxx:20-72 | one box's corners and key points are decoded into its own 16 cells and no other cell changes |
| `FacePipeline.DecodeBoxes` | sprefence/face_detect/tensors_to_detections.cxx:20-72 | every box's corners and key points end up decoded against its anchor, none overwritten by a later box |
| `FacePipeline.CandidateDecoded` | sprefence/face_detect/tensors_to_detections.cxx:37-48 | 128 times the centre offset and the size of box i are its raw values times the size of its anchor |
| `FacePipeline.CornersDecoded` | sprefence/face_detect/tensors_to_detections.cxx:37-53 | the same of the middle and distance of the decoded edges |
| `FacePipeline.KeypointDecoded` | sprefence/face_detect/tensors_to_detections.cxx:55-70 | the same of the key points, x from even and y from odd values |
| `FacePipeline.ConvertToDetection` | sprefence/face_detect/tensors_to_detections.cxx:74-86 | the centre and size form has exactly the given edges, score and class |
| `FacePipeline.Tensors2Detections` | sprefence/face_detect/tensors_to_detections.cxx:88-142 | the result is the order-preserving selection of all boxes with enough score and non-negative size, with their decoded centre and size |
| `FacePipeline.AcceptedIff` | sprefence/face_detect/tensors_to_detections.cxx:92-111 | a box is accepted if and only if its score is at least 0.75 and neither raw size has the wrong sign |
| `FacePipeline.SelectionInNumbers` | sprefence/face_detect/tensors_to_detections.cxx:88-142 | what is handed on is exactly the boxes with score at least 0.75 and raw sizes not negative, in order, each with its centre, size, score and class in the raw values |
| `FacePipeline.SelectionIsScored` | sprefence/face_detect/tensors_to_detections.cxx:88-142 | whatever the network outputs, every selected box has a positive score and non-negative size, so suppression never divides by zero |
| `FacePipeline.SuppressionReports` | sprefence/face_detect/main_handler.cxx:82-84 | every detection reported has a non-negative width and the score of an accepted box, the first one the best of them; nothing is reported if and only if no box was accepted |
| `FacePipeline.DetectFaces` | sprefence/face_detect/main_handler.cxx:78-84 | for every tensor output the pipeline reports the suppression of the selected boxes under some ranking, and meets that guarantee |
| `AtSync.BalancedStep` | spresense/examples/gnss_atcmd/gnss_atcmd_main.c:428-680 | every step of either thread keeps the permit balance |
| `AtSync.Protocol` | spresense/examples/gnss_atcmd/gnss_atcmd_main.c:428-680 | in every state of every interleaving: permits plus threads in a section are 1 while the loop runs, commands and reports never overlap, atcmd_info is not read before it is filled, and there are two permits if and only if a failed poll ended the loop and the sub thread holds none |
| `AtSync.WhoBlocks` | spresense/examples/gnss_atcmd/gnss_atcmd_main.c:464-469 | the emulator is kept waiting only by a section of the sub thread or by one that aborted with the permit |
| `AtSync.AbortSilences` | spresense/examples/gnss_atcmd/gnss_atcmd_main.c:568-622 | after the sub thread aborted during set-up no command executes any more, in any continuation |
| `AtSync.SurplusReachable` | spresense/examples/gnss_atcmd/gnss_atcmd_main.c:451-456 | a failed poll followed by the post after the loop really leaves two permits |
| `AtSync.CommandReachable` | spresense/examples/gnss_atcmd/gnss_atcmd_main.c:435-513 | some run enters the command section with the sub thread set up |
| `AtSync.ReportReachable` | spresense/examples/gnss_atcmd/gnss_atcmd_main.c:624-666 | every such run can be continued into a report section |
| `AtLines.LineAssembly` | spresense/examples/gnss_atcmd/gnss_atcmd_main.c:472-511 | for every chunking the executed lines and the buffered rest are the stream split at its terminators if and only if every terminator ends its read and no line outgrows the buffer |
| `AtLines.OneLine` | spresense/examples/gnss_atcmd/gnss_atcmd_main.c:480-510 | a text without CR, LF and NUL waits in the buffer, each of the three behind it makes it a command, and 128 bytes are a command of 127 |
| `AtLines.CleanRun` | spresense/examples/gnss_atcmd/gnss_atcmd_main.c:472-511 | under those conditions the result does not depend on the chunking, from any buffered prefix |
| `AtLines.AssembleAccounts` | spresense/examples/gnss_atcmd/gnss_atcmd_main.c:472-511 | for every chunking each byte read is in a line, a terminator, the buffer, or counted as dropped |
| `AtLines.SplitAccounts` | spresense/examples/gnss_atcmd/gnss_atcmd_main.c:482-488 | splitting a stream loses nothing and its lines hold no terminator |
| `AtLines.NothingDropped` | spresense/examples/gnss_atcmd/gnss_atcmd_main.c:482-511 | if nothing is dropped and no line holds a terminator, every terminator ended its read |
| `AtLines.LineReader.constructor` | spresense/examples/gnss_atcmd/gnss_atcmd_main.c:432-433 | the buffer starts empty with all 128 bytes free |
| `AtLines.LineReader.Read` | spresense/examples/gnss_atcmd/gnss_atcmd_main.c:474 | a read appends to the buffered bytes and stays inside the buffer |
| `AtLines.LineReader.Scan` | spresense/examples/gnss_atcmd/gnss_atcmd_main.c:482-488 | the scan stops at the first terminator of the new bytes, or at their end |
| `AtLines.LineReader.Step` | spresense/examples/gnss_atcmd/gnss_atcmd_main.c:472-511 | one pass keeps the buffer invariant (remain is 128 minus the buffered bytes, at least 1, no terminator buffered) and executes exactly the specified line |
| `AtLines.LineReader.Dispatch` | spresense/examples/gnss_atcmd/gnss_atcmd_main.c:502-510 | the line handed over ends with a NUL and the buffer is empty again |
| `AtLines.LineReader.Emulate` | spresense/examples/gnss_atcmd/gnss_atcmd_main.c:435-513 | the loop over any list of reads executes the specified lines, and ends with the first command that answers -ESHUTDOWN and not before |
| `SimpleFifo.OccupiedPlusVacant` | spresense/sdk/modules/memutils/simple_fifo/src/CMN_SimpleFifo.c:79-104 | occupied and vacant sizes add up to the capacity, one less than the memory |
| `SimpleFifo.NewWpWraps` | spresense/sdk/modules/memutils/simple_fifo/src/CMN_SimpleFifo.c:233-277 | the new write pointer is the old one advanced around the ring, and the occupied size grows by the offer |
| `SimpleFifo.NewRpWraps` | spresense/sdk/modules/memutils/simple_fifo/src/CMN_SimpleFifo.c:355-389 | the new read pointer is the old one advanced around the ring, and the occupied size shrinks by the poll |
| `SimpleFifo.WriteAhead` | spresense/sdk/modules/memutils/simple_fifo/src/CMN_SimpleFifo.c:233-277 | storing into the vacant part does not change the queue a consumer sees |
| `SimpleFifo.Publish` | spresense/sdk/modules/memutils/simple_fifo/src/CMN_SimpleFifo.c:233-277 | moving the write pointer appends exactly the bytes stored behind it |
| `SimpleFifo.Release` | spresense/sdk/modules/memutils/simple_fifo/src/CMN_SimpleFifo.c:355-389 | moving the read pointer removes exactly the oldest bytes |
| `SimpleFifo.Fifo.constructor` | spresense/sdk/modules/memutils/simple_fifo/src/CMN_SimpleFifo.c:200-219 | a new FIFO is empty |
| `SimpleFifo.Fifo.Offer` | spresense/sdk/modules/memutils/simple_fifo/src/CMN_SimpleFifo.c:221-277 | an offer is appended whole if it fits, across the wrap, and otherwise refused with the queue unchanged |
| `SimpleFifo.Fifo.Poll` | spresense/sdk/modules/memutils/simple_fifo/src/CMN_SimpleFifo.c:348-389 | a poll takes the oldest bytes if there are enough, and otherwise nothing |
| `PlayerFeed.NextInv` | spresense/examples/audio_dual_players/audio_dual_players_main.cxx:306-373 | every step of producer or consumer keeps the invariant: bytes in order, room for every offer still due |
| `PlayerFeed.FeedConserves` | spresense/examples/audio_dual_players/audio_dual_players_main.cxx:306-373 | in every state of every interleaving, with any short reads, consumed, queued, held and unread bytes make up the file in order, no offer is refused, and the end is reported only with every byte queued |
| `PlayerFeed.EndIffQueued` | spresense/examples/audio_dual_players/audio_dual_players_main.cxx:323-373 | over every run, when the last push of a refill ends, the end of the file is reported if and only if every byte has been queued |
| `PlayerFeed.PushesGoOn` | spresense/examples/audio_dual_players/audio_dual_players_main.cxx:333-373 | over every run, the first filling goes on exactly while the file holds more and pushes are left, a refill exactly while pushes are left |
| `PlayerFeed.RefillAmount` | spresense/examples/audio_dual_players/audio_dual_players_main.cxx:349-370 | a refill pushes if and only if more than 7680 bytes are vacant: as many elements as fit, ten at most |
| `PlayerFeed.FirstFilling` | spresense/examples/audio_dual_players/audio_dual_players_main.cxx:333-347 | the first filling is of nineteen elements at most and fits the empty ring |
| `PlayerFeed.PlayedIsPrefix` | spresense/examples/audio_dual_players/audio_dual_players_main.cxx:844-888 | what has been played is always a prefix of the file |
| `FwPackage.PartialDelivers` | spresense/examples/fwupdate/fwupdate_package.c:106-147 | one record's chunks are passed on in order until a malloc fails; the reply to the last of them is the result, or -ENOMEM |
| `FwPackage.PartialRunsDry` | spresense/examples/fwupdate/fwupdate_package.c:106-147 | a payload that ends early gives -ENODATA whatever the downloader answers, or -ENOMEM when a malloc fails first |
| `FwPackage.ChunkBounds` | spresense/examples/fwupdate/fwupdate_package.c:114-144 | every chunk is non-empty and no larger than the work memory |
| `FwPackage.ReassembleChunks` | spresense/examples/fwupdate/fwupdate_package.c:106-147 | joining the chunks of a record, sorted out by their announced size, gives the record back |
| `FwPackage.PackageReplays` | spresense/examples/fwupdate/fwupdate_package.c:149-194 | parsing a concatenation of records meets exactly those records, one by one, whatever follows them and whatever malloc and the downloader answer |
| `FwPackage.PackageVerdict` | spresense/examples/fwupdate/fwupdate_package.c:149-194 | for all answers the result of a package is that of the first record whose last reply is not 0 or whose malloc failed, and otherwise the number of stray bytes |
| `FwPackage.UpdateIff` | spresense/examples/fwupdate/fwupdate_package.c:149-236 | for every package and all answers: update is called, last, if and only if the verdict is not negative; and it follows a complete delivery if and only if every record but the last gets a 0 for its last chunk and the last one no error |
| `FwPackage.PositiveReplySkips` | spresense/examples/fwupdate/fwupdate_package.c:185-236 | a positive reply to the last chunk of the first record means that the other records are never sent and the update is made all the same |
| `FwPackage.OtherRepliesIgnored` | spresense/examples/fwupdate/fwupdate_package.c:134-146 | for every package, replies to chunks that are not the last of their record change neither calls nor result |
| `FwPackage.EncodeRecord` | spresense/examples/fwupdate/fwupdate_package.c:72-76 | every non-empty image with 32-bit type and size has an encoding that parses back to it |
| `FwPackage.WireRecord` | spresense/examples/fwupdate/fwupdate_package.c:72-76 | type and size of a record in its eight header bytes, low byte first, and when bytes are a record |
| `FwPackage.EmptyRecordFails` | spresense/examples/fwupdate/fwupdate_package.c:179-183 | a record of size 0 behind any others fails with -ENOENT and withholds the update, for all answers, unless a record in front of it has decided already |
| `FwPackage.PackageDownloads` | spresense/examples/fwupdate/fwupdate_package.c:149-194 | the package loop makes no update call |
| `FwPackage.Delivery` | spresense/examples/fwupdate/fwupdate_package.c:149-236 | with all downloads accepted, the downloaded chunks join to exactly the records of the package in order, each chunk bounded, and the update call follows once and last |
| `FwPackage.Truncation` | spresense/examples/fwupdate/fwupdate_package.c:149-236 | a package cut inside its last record fails and withholds the update if and only if the cut lies behind that record's header |
| `FwPackage.MidRecordErrorIgnored` | spresense/examples/fwupdate/fwupdate_package.c:134-146 | for every package, one failed download with any error withholds the update if and only if it is the last chunk of its record |
| `FwPackage.DoPartialDownload` | spresense/examples/fwupdate/fwupdate_package.c:106-147 | the loop makes the specified calls, returns the specified result and leaves the file where the specification leaves it |
| `FwPackage.DoPackageDownload` | spresense/examples/fwupdate/fwupdate_package.c:149-194 | the record loop has the specified outcome for every file and every reply |
| `FwPackage.UpdatePackage` | spresense/examples/fwupdate/fwupdate_package.c:200-240 | update is called after a non-negative download result and not otherwise, and its result is returned |
| `Fence.PulsesPerActivation` | sprefence/diff_ditect/diff_ditect_main.c:284-309 | over every sequence of calls MISO falls exactly twice per activation and rests high |
| `Fence.LatestVerdict` | sprefence/diff_ditect/diff_ditect_main.c:385-495 | over every run isOn is the verdict of the last pass, named by the result, that had one by manual command or detection, or off when there was none; ManualCommand and DetectionObeyed say what the verdicts are |
| `Fence.ManualCommand` | sprefence/diff_ditect/diff_ditect_main.c:401-410 | the bytes of "on" turn the fence on and those of "off" turn it off, each with its call whatever the state, and other bytes do nothing |
| `Fence.DetectionObeyed` | sprefence/diff_ditect/diff_ditect_main.c:416-493 | a detection sets isOn to the hazard at the one centre found or at the middle of both, leaves it when none is found, and makes a call exactly on a change |
| `Fence.FailedPass` | sprefence/diff_ditect/diff_ditect_main.c:416-433 | a pass without a picture changes nothing, one without a camera image ends main and leaves the fence |
| `Fence.PassCounter` | sprefence/diff_ditect/diff_ditect_main.c:492-493 | over every run of completed passes the counter is their number modulo 60 |
| `Fence.LastActDecides` | sprefence/diff_ditect/diff_ditect_main.c:385-495 | over every run isOn says whether the last call was Fence_on |
| `Fence.StrictAlternation` | sprefence/diff_ditect/diff_ditect_main.c:385-495 | without manual commands the calls strictly alternate, starting with Fence_on |
| `Fence.Controller.constructor` | sprefence/diff_ditect/diff_ditect_main.c:275-282 | after GPIO_init the fence is off, both pins are high and nothing is loaded |
| `Fence.Controller.FenceOn` | sprefence/diff_ditect/diff_ditect_main.c:284-304 | SCK goes low, MISO ends high, and the pin writes are the two pulses |
| `Fence.Controller.FenceOff` | sprefence/diff_ditect/diff_ditect_main.c:306-309 | SCK floats and MISO is not written |
| `Fence.Controller.FindPosition` | sprefence/diff_ditect/diff_ditect_main.c:443-467 | the position is that of the one centre found, or the truncated mean of both |
| `Fence.Controller.Obey` | sprefence/diff_ditect/diff_ditect_main.c:473-488 | the pins are written exactly when the detection changes isOn |
| `Fence.Controller.Step` | sprefence/diff_ditect/diff_ditect_main.c:385-495 | one pass keeps SCK low exactly when isOn, MISO high, and makes exactly the specified calls |
| `Fence.Controller.Run` | sprefence/diff_ditect/diff_ditect_main.c:365-498 | over every list of passes the state and pin writes are those of the specified calls, with two MISO pulses per activation |
| `BlackCenter.CenterInside` | sprefence/diff_ditect/diff_ditect_main.c:202-228 | the centre lies between the extreme columns and rows of the pixels that carry weight |
| `BlackCenter.CenterAmongChanged` | sprefence/diff_ditect/diff_ditect_main.c:202-228 | on frames: the centre lies between the extreme columns and rows of the pixels whose corrected camera luma exceeds the picture by 25 or more |
| `BlackCenter.OneChangedPixel` | sprefence/diff_ditect/diff_ditect_main.c:186-229 | a single such pixel is found exactly where it is |
| `BlackCenter.CenterInFrame` | sprefence/diff_ditect/diff_ditect_main.c:186-229 | nothing is found if and only if no pixel has weight; while no weight exceeds 175 a centre is found in every other case; and a centre is a pixel of the frame |
| `BlackCenter.WeightFits` | sprefence/diff_ditect/diff_ditect_main.c:193-215 | the difference sum and the weight sum fit an int for all frames |
| `BlackCenter.TruncShift` | sprefence/diff_ditect/diff_ditect_main.c:201 | the truncated mean shifts along with its values if and only if it does not cross zero or is exact |
| `BlackCenter.BrightnessCancelled` | sprefence/diff_ditect/diff_ditect_main.c:186-229 | a uniform brightness change is cancelled in the offset if and only if the summed difference keeps its sign or is a multiple of the pixel count, and then the whole result is unchanged |
| `BlackCenter.CancelledIff` | sprefence/diff_ditect/diff_ditect_main.c:186-229 | for frames whose corrected luma can be met by a picture byte, the result is unchanged for every picture luma if and only if the summed difference keeps its sign or is a multiple of the pixel count |
| `BlackCenter.NotCancelled` | sprefence/diff_ditect/diff_ditect_main.c:186-229 | otherwise some picture luma turns a centre into none or none into a centre |
| `BlackCenter.BrightnessShows` | sprefence/diff_ditect/diff_ditect_main.c:186-229 | concrete frames in which one step of brightness turns nothing found into every pixel counting |
| `BlackCenter.OverflowHappens` | sprefence/diff_ditect/diff_ditect_main.c:202-215 | for every uniform weight above 175, frames whose column moment does not fit an int |
| `BlackCenter.WeightLimit` | sprefence/diff_ditect/diff_ditect_main.c:202-215 | a bound on the weights keeps both moments of every pair of frames inside an int if and only if it is at most 175 |
| `BlackCenter.OverflowIsFinal` | sprefence/diff_ditect/diff_ditect_main.c:202-215 | an accumulator that has left the int range never returns to it |
| `BlackCenter.SumDifferences` | sprefence/diff_ditect/diff_ditect_main.c:193-199 | the first pass adds up the differences of all pixels |
| `BlackCenter.AddRow` | sprefence/diff_ditect/diff_ditect_main.c:204-214 | one row extends weight and both moments to the next row, or reports a true overflow |
| `BlackCenter.FindBlackCenter` | sprefence/diff_ditect/diff_ditect_main.c:186-229 | both passes together find the specified centre, overflow or none |
| `RcFilter.BlockSplit` | spresense/examples/audio_sound_effector/audio_sound_effector.cxx:83-110 | filtering two non-empty blocks equals filtering their join if and only if the carried state is not silent or the second block primes it with silence |
| `RcFilter.EmptyBlock` | spresense/examples/audio_sound_effector/audio_sound_effector.cxx:93-109 | a call with an empty block changes the next block if and only if the state was silent and is primed with something other than silence or the priming of that next block |
| `RcFilter.StepBound` | spresense/examples/audio_sound_effector/audio_sound_effector.cxx:99-107 | on samples up to 3276 a state up to 32760 stays there without wrapping |
| `RcFilter.RunBound` | spresense/examples/audio_sound_effector/audio_sound_effector.cxx:83-110 | in every sequence of blocks with samples up to 3276 no state or output ever leaves 16 bits |
| `RcFilter.AmplitudeLimit` | spresense/examples/audio_sound_effector/audio_sound_effector.cxx:83-110 | an amplitude bound keeps every run free of wrap-around if and only if it is at most 3276 |
| `RcFilter.Decay` | spresense/examples/audio_sound_effector/audio_sound_effector.cxx:99-107 | on silence the magnitude falls strictly until it is 0 and then stays, within as many samples as its value |
| `RcFilter.FilteredTracks` | spresense/examples/audio_sound_effector/audio_sound_effector.cxx:101-102 | one step is within two of 0.995 of the last output plus 0.05 of the sample |
| `RcFilter.FilteredOrder` | spresense/examples/audio_sound_effector/audio_sound_effector.cxx:101-102 | raising the sample or the last output cannot lower the next output |
| `RcFilter.TracksIdeal` | spresense/examples/audio_sound_effector/audio_sound_effector.cxx:83-110 | every output of every block on samples up to 3276, however long, stays within 400 of the filter without rounding, started from the state or from ten times the first sample |
| `RcFilter.FirstOutput` | spresense/examples/audio_sound_effector/audio_sound_effector.cxx:93-102 | the first output of each channel after silence is ten times its own first sample, but for rounding |
| `RcFilter.Effector.constructor` | spresense/examples/audio_sound_effector/audio_sound_effector.cxx:90-91 | both channels start silent |
| `RcFilter.Effector.FilterFrame` | spresense/examples/audio_sound_effector/audio_sound_effector.cxx:99-107 | one frame is overwritten in place by the two new states and nothing else changes |
| `RcFilter.Effector.FilterSample` | spresense/examples/audio_sound_effector/audio_sound_effector.cxx:83-110 | the block is replaced in place by its filtered form, the state is carried, the rest of the buffer stays, and an empty block still primes |
| `Downmix.MeanFits` | spresense/examples/audio_oscillator/audio_synthesizer.cxx:94-116 | the truncated mean of any frame of 16-bit samples fits 16 bits |
| `Downmix.WritesInside` | spresense/examples/audio_oscillator/audio_synthesizer.cxx:98-114 | where the frames fill the buffer, the writes stay inside it if and only if there are two or more channels or no frames |
| `Downmix.UnreadIntact` | spresense/examples/audio_oscillator/audio_synthesizer.cxx:94-116 | from any frame on, with two or more channels, a sample not yet read is never overwritten |
| `Downmix.InPlaceIsSafe` | spresense/examples/audio_oscillator/audio_synthesizer.cxx:94-116 | with two or more channels the in-place loop gives the out-of-place downmix and leaves the rest of the buffer alone |
| `Downmix.OutputInNumbers` | spresense/examples/audio_oscillator/audio_synthesizer.cxx:101-114 | both output samples of frame j are the mean, truncated towards zero, of the original samples j * ch up to (j + 1) * ch |
| `Downmix.StereoInNumbers` | spresense/examples/audio_oscillator/audio_synthesizer.cxx:101-114 | for two channels that is half the sum of the two samples |
| `Downmix.MonoUnsafe` | spresense/examples/audio_oscillator/audio_synthesizer.cxx:94-116 | with one channel and room for its output, in place equals out of place if and only if all samples are equal |
| `Downmix.MixInPlace` | spresense/examples/audio_oscillator/audio_synthesizer.cxx:94-116 | the frame loop leaves what the frame-by-frame specification leaves, and runs past the buffer if and only if two samples a frame do not fit it |
| `Downmix.DoneCallback` | spresense/examples/audio_oscillator/audio_synthesizer.cxx:94-116 | all frames of the buffer are mixed and the reported size is four bytes a frame, unless the writes run past the buffer, which is said exactly |
| `Downmix.WholeFrames` | spresense/examples/audio_oscillator/audio_synthesizer.cxx:98 | every whole frame of the buffer is mixed: the frame count times the channels leaves less than one frame |
| `AsyncRing.AlwaysInv` | spresense/examples/fft/dsp_rpc.c:77-107 | over every run each slot holds the words of its latest request and each message points to the slot of its request |
| `AsyncRing.RingLaw` | spresense/examples/fft/dsp_rpc.c:77-107 | in every state of every run all outstanding messages own their slots if and only if at most 8 requests were made since the oldest; then the slots are distinct and hold the words stored for them |
| `AsyncRing.UnsentRequestsOverwrite` | spresense/examples/fft/dsp_rpc.c:90-107 | one outstanding message is overwritten by eight requests whose sends failed |
| `AsyncRing.Caller.GetAsyncBuffer` | spresense/examples/fft/dsp_rpc.c:77-88 | the current slot is handed out and the index advances around the ring |
| `AsyncRing.Caller.DspSend` | spresense/examples/fft/dsp_rpc.c:90-107 | a message is queued exactly when the send succeeds |
| `AsyncRing.Caller.FftRequest` | spresense/examples/fft/dsp_rpc.c:157-165 | the request is a step of the ring with its two words |
| `AsyncRing.Caller.FftStreamInput` | spresense/examples/fft/dsp_rpc.c:204-213 | the request is a step of the ring with its three words |
| `LittleEndian.FieldRoundTrip` | spresense/examples/digital_filter/wav.c:149-211 | a stored little-endian field reads back as its value modulo its width |
| `LittleEndian.FromWord` | spresense/examples/digital_filter/wav.c:74-145 | four stored bytes are a number with the low byte first |
| `Wav.HeaderRoundTrip` | spresense/examples/digital_filter/wav.c:74-145 | reading a written header gives the same rate, width and length if and only if they fit their fields |
| `Wav.HeaderDefined` | spresense/examples/digital_filter/wav.c:165-207 | counting signed overflow in the writer as failure, a header reads back if and only if rate, width and their product are in range and the length is at most 1073741805 |
| `Wav.HeaderInNumbers` | spresense/examples/digital_filter/wav.c:159-208 | the number in every field of a written header: both chunk sizes, format, channel count, rate, byte rate, block size and width |
| `Wav.TextFields` | spresense/examples/digital_filter/wav.c:159-205 | the letters of the four chunk names and their places |
| `Wav.SampleAt` | spresense/examples/digital_filter/wav.c:241-256 | the two bytes at sample k of a written file read back as sample k |
| `Wav.AnyBlocks` | spresense/examples/digital_filter/wav.c:241-256 | whatever the block sizes, the blocks join to the samples in order, none twice, ending at the length |
| `Wav.Writer.constructor` | spresense/examples/digital_filter/wav.c:149-211 | a new file is the 44-byte header |
| `Wav.Writer.WriteHeader` | spresense/examples/digital_filter/wav.c:159-208 | the writes lay the fields out in header order |
| `Wav.Writer.WriteData16` | spresense/examples/digital_filter/wav.c:285-293 | the file stays header plus the encoding of all samples written so far |
| `Wav.Reader.constructor` | spresense/examples/digital_filter/wav.c:74-145 | reading the fields in file order gives the parsed header and stops at its end |
| `Wav.Reader.ReadData16` | spresense/examples/digital_filter/wav.c:241-256 | a read delivers the next samples, at most len and never past the length, and advances by as many |
| `Wav.WriteThenRead` | spresense/examples/digital_filter/wav.c:74-293 | a file written and read back in blocks of any sizes has the same rate, width and length, and its samples are cut into exactly those blocks |
| `ImageNames.IndexOfName` | spresense/examples/dsc/dsc_file.c:184-187 | atoi of a formatted name gives the counter back, for every counter |
| `ImageNames.NameSpelled` | spresense/examples/dsc/dsc_file.c:184-187 | the names numbered below 10000, letter by letter |
| `ImageNames.DigitsOrder` | spresense/examples/dsc/dsc_file.c:78 | among numbers printed equally wide alphabetical order is numerical order |
| `ImageNames.NextSortsBefore` | spresense/examples/dsc/dsc_file.c:78-94 | the next name sorts before this one if and only if the number's digits are all nines |
| `ImageNames.GetNextIndex` | spresense/examples/dsc/dsc_file.c:70-104 | the index is one more than that of the last listed name with the prefix, and 0 when there is none or the listing fails |
| `ImageNames.TakenIffNines` | spresense/examples/dsc/dsc_file.c:70-104 | the first name after last picture n can be taken on some card if and only if n is all nines, of four digits or more |
| `ImageNames.LastIsLargest` | spresense/examples/dsc/dsc_file.c:86-94 | the alphabetically last picture carries the largest number if and only if no picture has more digits |
| `ImageNames.FourDigitsAreSafe` | spresense/examples/dsc/dsc_file.c:86-94 | while all numbers are below 10000 that is so for every listing |
| `ImageNames.LaterNameTaken` | spresense/examples/dsc/dsc_file.c:86-94 | with 9998 and 10005 on the card the next name is free and a later one is not |
| `ImageNames.NamesAreFresh` | spresense/examples/dsc/dsc_file.c:130-187 | over every run of rescans, failed rescans, writes, failed writes and outside changes, no picture is written under an existing name as long as each rescan finds no picture with more digits than the last one, and none at all when scandir fails |
| `ImageNames.OverwriteIff` | spresense/examples/dsc/dsc_file.c:70-187 | after a rescan of any card, no run up to the next rescan overwrites a picture if and only if the last picture listed has the most digits, or, when scandir failed, the card has no picture |
| `ImageNames.FailedScanOverwrites` | spresense/examples/dsc/dsc_file.c:79-82 | a failed scandir on a card with picture 0 makes the next write overwrite it |
| `ImageNames.OneNameTwice` | spresense/examples/dsc/dsc_file.c:130-187 | with a row of nines on the card, four digits or more, a rescan between two writes gives both the same name |
| `ImageNames.ImageFiles.CheckSdcardContent` | spresense/examples/dsc/dsc_file.c:130-156 | a rescan is a step of the run model, and changes nothing without a card |
| `ImageNames.ImageFiles.FileWriteImage` | spresense/examples/dsc/dsc_file.c:178-207 | a write is a step of the run model under the name of the old counter, which moves on even when fopen fails; the file appears exactly when fopen succeeds, and the result is 0 exactly when it was also written whole |

## Left out

- Camera, V4L2, GPIO drivers, serial port settings, HTTP listener, WPF window and JavaScript pages: input and output only; pin values, byte streams and replies are the model's state and parameters.
- Sleeping, drain calls, time limits and the play time of the players: no clock is modelled; a write to the serial port is taken to be complete.
- `find_skin_center`, `Load_setting`, `IsHazard` geometry and `/sethazard`: the fence model takes the hazard test as an arbitrary predicate.
- `DeOffset`, the crop selection of the face detector and the network itself: the tensors are arbitrary inputs.
- Anchor widths, heights and scales: computed but never stored; the score and class that the anchors leave unset are 0 in the model.
- Floating-point rounding and NaN: reals are used.
- The y extent of merged boxes beyond the fact that the bottom edge is the right edge.
- `print_nmea` runs outside the semaphore section, so exclusion is not claimed for it; a failing `read` in the emulator changes nothing and is not an event of `AtLines`.
- Player threads use values instead of heap objects (`PlayerFeed`), because two threads interleave in it; file repeats, player errors and the stop command are not modelled.
- Opening files: a missing package or WAV file and other fopen failures are outside `FwPackage` and `Wav`; malloc failures and download replies are parameters.
- WAV files that are shorter than announced, stereo files and the float variants of read and write: a `Reader` is given a whole header and the announced samples.
- SortByScore: stands for an unstable library sort, so it promises a ranking and not which one.
- FindBlackCenter: signed overflow has no meaning in C, so it is reported as `Overflow` instead of a number.
- DoneCallback: only the 16-bit sample width is modelled, and what a write past the buffer does to other memory is not.
- HeaderRoundTrip: takes the writer's arithmetic modulo the width of each field; HeaderDefined adds the condition under which it does not overflow.
- CancelledIff: frames with corrected luma below 25 or above 279 are covered one way only, by BrightnessCancelled, because no picture byte can put those pixels at the threshold.
- GetNextIndex: the range of int is not modelled for names with more digits than an int holds.
- The other SDK examples (audio recorders, Bluetooth, GNSS, sensors, AWS, FIR and decimator mains, pnm_util and the like): library call sequences or easier members.
