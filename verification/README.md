# bionicx: verified models of its tools, fixtures and probes

This project models the algorithmic parts of bionicx in Dafny 4.11 and proves what they promise, for all
inputs. `dafny verify dfyconfig.toml` checks everything.

| files | what they model |
|---|---|
| `ElfDeps.dfy`, `ElfCopy.dfy` | the DT_NEEDED closure (a FIFO worklist over a possibly cyclic graph) and its copy into one directory |
| `Frames.dfy`, `FramesLiveness.dfy`, `FramesSchedule.dfy`, `FramesTeardown.dfy`, `FramesClient.dfy` | the frames-in-flight presenter: a state machine of client calls and GPU completions, its liveness with a fair schedule, its teardown, and the calling program |
| `Decimal.dfy`, `KeyOrder.dfy`, `Bencode.dfy` | bencoding (BEP 3) with a strict decoder as partner |
| `PngFilter.dfy`, `PngReader.dfy`, `PngAgree.dfy`, `PngWriter.dfy` | two separately written PNG decoders, the row filters (section 6 of RFC 2083), and the writer |
| `Riff.dfy`, `Avi.dfy` | RIFF chunks, the AVI muxer and a demuxer that goes through `idx1` |
| `Pdf.dfy` | the PDF writer and random access through `startxref` (ISO 32000-1, sections 7.5.4 and 7.5.5) |
| `X11Wire.dfy`, `X11Buffer.dfy` | hand-built X11 requests, the buffer they are built in, and a server that cuts the stream |
| `Relocate.dfy` | same-length prefix relocation and when it can be undone |
| `WindowTree.dfy`, `WindowSearch.dfy` | bounded search of the window tree and the focus test |
| `Tone.dfy` | the 32-bit phase accumulator |
| `KeyStream.dfy` | the synthetic key stream, replayed on a keyboard |
| `Octets.dfy`, `Arith.dfy` | shared byte strings and arithmetic |

Fixed sizes of the original (frame and slot counts, image and frame sizes, object lists, chunk sizes) are
parameters here. Where the original raises or exits, the model returns an error value. Readers that the
original does not have (the bencode decoder, the demuxer, the PDF reader, the X11 server, the keyboard) are
independent definitions that give the writers' output its meaning.

Where code and expectation part:

- `copy_to` files that are already there are never overwritten, so the copied tree is self-contained exactly
  when no stale file of other contents has a wanted name (`ResolveAndCopy`); `StaleRun` is a run that succeeds
  with a directory that is not.
- `relocate-prefix.py` can be undone exactly when, in the input, no copied bytes in front of an occurrence begin
  the new prefix in such a way that the new prefix completes itself (`ReversibleIffNoStray`); both halves of the
  caller's simpler condition are needed (`BothConditionsMatter`).
- The two PNG decoders accept different inputs. Decoder A (Chrome) ignores the interlace method, accepts long
  or cut IHDR chunks of at least ten bytes and up to three stray bytes at the end; decoder B (GLX) accepts raw
  data that ends early and fills the rest of the row with zeros (`InterlacedOnlyA`, `CutRowOnlyB`). When both
  accept, they agree.
- `relocate-prefix.py` rewrites a file once for each path that leads to it. Through a link that does harm exactly
  when copied bytes and new prefixes next to each other in the first rewrite form the old prefix anew, which is a
  condition on the input (`SecondVisit`, `OldOccursIffArises`, `AliasRewritesTwice`).
- `type_ascii` reports success whatever the keymap does. Status 0 means that the text has arrived exactly when each
  character has an ordinary key, the modifiers asked for can be held, and the character sits at the level that is
  asked for (`TypeAndReplay`); a character without a key is skipped (`SilentLoss`), and one at another level comes
  out as its neighbour (`WrongLevel`).
- `find_class` multiplies the extents of a window as a C int. It finds the window with the fewest pixels exactly
  when no candidate's product overflows, or all do (`FindsGlobalMinimum`); otherwise a larger one can win
  (`OverflowPicksLarger`).
- After a failed call an acquire fence can be destroyed while its acquisition is still outstanding: exactly if the
  call is the wait for it, at a moment when the image is still to come, or an acquire that took effect all the same
  (`AcquireFencesAfterFailure`, with the runs `FailedWaitDestroysPendingFence` and `OutOfRangeDestroysPendingFence`).
  Without a failed call this does not happen (`AcquireFencesAtDestroy`).

## Model

| member | source | states |
|---|---|---|
| ElfDeps.BuildIndex | tools/resolve-elf-deps.py:78-82 | each file name is indexed with the resolved paths of that name, in listing order |
| ElfDeps.DependencyIsFirstChoice | tools/resolve-elf-deps.py:78-111 | a needed name resolves in the first run path that has such a file; otherwise to the first listed path of that name; otherwise not at all |
| ElfDeps.ReportMeans | tools/resolve-elf-deps.py:98-117 | an object is recorded with what readelf reports and the dependencies of exactly its resolvable names |
| ElfDeps.VisitMissing | tools/resolve-elf-deps.py:105-107 | each missing name lists its owners in the order in which they were visited, once for each need |
| ElfDeps.Closure.constructor | tools/resolve-elf-deps.py:84-92 | entries are queued resolved and named by their requested basename |
| ElfDeps.Closure.Record | tools/resolve-elf-deps.py:100-111 | one needed name: recorded as missing, or its first candidate is resolved, named and queued |
| ElfDeps.Closure.Process | tools/resolve-elf-deps.py:97-117 | one object: all names handled in order, then it is seen with its needed names, resolved names, run path and interpreter |
| ElfDeps.Closure.Run | tools/resolve-elf-deps.py:93-117 | terminates on any graph; fails exactly when a reachable object is unreadable; otherwise the tables are complete |
| ElfDeps.EmptyQueueIsComplete | tools/resolve-elf-deps.py:93-117 | on exit `seen` is exactly what the entries reach, `copy_names` has the same keys and exact names, `missing` lists exactly the unresolved occurrences with their multiplicity |
| ElfDeps.VisitInv | tools/resolve-elf-deps.py:97-117 | visiting an object keeps the worklist invariant |
| ElfDeps.MissingStep | tools/resolve-elf-deps.py:105-107 | each handled name keeps the occurrence counts of `missing` exact |
| ElfDeps.NamesStep | tools/resolve-elf-deps.py:108-111 | each handled name keeps the copy names exact |
| ElfDeps.ResolvedNamesExact | tools/resolve-elf-deps.py:98-116 | an object's report maps exactly its resolvable names to their first candidates |
| ElfDeps.ClosedCoversReachable | tools/resolve-elf-deps.py:93-111 | a set with the entries that is closed under dependencies holds everything reachable |
| ElfCopy.CopyObject | tools/resolve-elf-deps.py:135-142 | an object is stored under each name unless the name was copied from other bytes |
| ElfCopy.CopyTree | tools/resolve-elf-deps.py:129-142 | exits with a collision exactly when two objects with different bytes want one name; otherwise every name holds its object |
| ElfCopy.ExcludedMeans | tools/resolve-elf-deps.py:132-134 | a path is excluded exactly if it is a root or lies below one |
| ElfCopy.PlacedIsWanted | tools/resolve-elf-deps.py:108-135 | the copy phase places an object under exactly the names by which an entry or a reachable object asks for it |
| ElfCopy.CopiedIsWritten | tools/resolve-elf-deps.py:129-142 | the directory keeps every earlier file, holds each wanted object under each free name, and nothing else |
| ElfCopy.SelfContainedIffNothingStale | tools/resolve-elf-deps.py:84-142 | each needed name of a reachable object is missing with that owner, resolved under an excluded root, or held byte for byte, exactly when no stale file had a wanted name and other bytes |
| ElfCopy.StaleRun | tools/resolve-elf-deps.py:139-141 | a run with status 0 whose directory holds a stale file under a needed name |
| ElfCopy.MissingIffAny | tools/resolve-elf-deps.py:149-150 | `missing` is empty exactly when every reachable needed name resolves |
| ElfCopy.ResolveAndCopy | tools/resolve-elf-deps.py:64-150 | the whole run: dependencies are first choices; an error exactly when something reachable is unreadable, a collision exit exactly when two objects of different bytes are wanted under one name, otherwise complete tables, the exact directory, self-contained if it was empty and in general exactly when nothing stale was in it, and status 3 exactly when something is missing |
| Frames.SucceedInv | examples/vulkan-probe/vulkan-chrome-frames.c:74-185 | every successful call of the frame loop keeps the invariant |
| Frames.CompleteInv | examples/vulkan-probe/vulkan-chrome-frames.c:155-165 | a submission that completes at any moment keeps the invariant |
| Frames.StepInv | examples/vulkan-probe/vulkan-chrome-frames.c:82-176 | every step of client, GPU or presentation engine, failures included, keeps the invariant |
| Frames.RunIsSafe | examples/vulkan-probe/vulkan-chrome-frames.c:82-310 | in every reachable state the next call is valid usage: fences are reset, buffers reset and recorded, and slot objects destroyed only when no submission uses them; waits are for fences that are or will be signaled; at most one submission a slot is outstanding |
| FramesLiveness.NeverStuck | examples/vulkan-probe/vulkan-chrome-frames.c:91-104 | no reachable state is a deadlock |
| FramesLiveness.FairExecutionCompletes | examples/vulkan-probe/vulkan-chrome-frames.c:259-300 | with a fair GPU and successful calls, every execution ends with all frames completed, for any frame and slot counts |
| FramesLiveness.ExecutionInv | examples/vulkan-probe/vulkan-chrome-frames.c:260-279 | along a successful execution the invariant holds, and outside the loop all frames are completed |
| FramesSchedule.EveryConfigurationCompletes | examples/vulkan-probe/vulkan-chrome-frames.c:259-300 | for any number of frames and slots a fair execution exists, and it presents every frame |
| FramesClient.Presenter.constructor | examples/vulkan-probe/vulkan-chrome-frames.c:219-247 | the slots start with signaled submit fences; the loop is skipped when an object is missing |
| FramesClient.Presenter.Call | examples/vulkan-probe/vulkan-chrome-frames.c:82-176 | a call is made where the state machine expects it, with arbitrary device progress before it |
| FramesClient.Presenter.PresentColor | examples/vulkan-probe/vulkan-chrome-frames.c:74-185 | ten calls in order; success completes one frame, failure leaves the loop |
| FramesClient.Presenter.ClaimSlot | examples/vulkan-probe/vulkan-chrome-frames.c:82-110 | the first five calls: image and slot fences are waited for and reset |
| FramesClient.Presenter.TearDown | examples/vulkan-probe/vulkan-chrome-frames.c:302-312 | the wait for the device, then destruction |
| FramesClient.Presenter.RunFrames | examples/vulkan-probe/vulkan-chrome-frames.c:258-312 | the program reaches its end, and every state on the way is safe |
| FramesTeardown.AcquireFencesAtDestroy | examples/vulkan-probe/vulkan-chrome-frames.c:82-97 | at destruction at most the current slot's acquisition is outstanding, and none if no call failed |
| FramesTeardown.AcquireFencesAfterFailure | examples/vulkan-probe/vulkan-chrome-frames.c:82-312 | after a failing call no fence can be destroyed before its signal, exactly if the call is neither a wait whose image is still to come nor an acquire that took effect |
| FramesTeardown.FailedWaitDestroysPendingFence | examples/vulkan-probe/vulkan-chrome-frames.c:91-97 | a run whose failed wait leads to the destruction of a fence that is still to be signaled |
| FramesTeardown.OutOfRangeDestroysPendingFence | examples/vulkan-probe/vulkan-chrome-frames.c:85-89 | a run without any wait that ends so, after an image index out of range |
| Octets.ByteOrders | examples/popular-apps/build-y4m-fixture.py:16-16 | little-endian and big-endian words, spelled out |
| Decimal.ValueOfDigits | examples/popular-apps/build-torrent-fixture.py:14-17 | printed numbers read back, without leading zeros |
| Decimal.DigitsOfValue | examples/popular-apps/build-torrent-fixture.py:14-17 | a text without leading zeros is the printed form of its value |
| KeyOrder.SortCorrect | examples/popular-apps/build-torrent-fixture.py:21-22 | sorting distinct keys gives a sorted list of the same keys |
| KeyOrder.SortedUnique | examples/popular-apps/build-torrent-fixture.py:21-22 | a sorted list is determined by its members, hence insertion order does not matter |
| KeyOrder.LessIsByteOrder | examples/popular-apps/build-torrent-fixture.py:21-22 | a key is less exactly if at the first difference it has the smaller byte, or ends there |
| Bencode.DecodeEncode | examples/popular-apps/build-torrent-fixture.py:13-24 | decode(bencode(v) + rest) is v with sorted dictionaries, and rest, for every nested value and suffix |
| Bencode.EncodeDecode | examples/popular-apps/build-torrent-fixture.py:13-24 | whatever the strict decoder accepts is the encoding of its result followed by the rest |
| Bencode.PrefixFree | examples/popular-apps/build-torrent-fixture.py:13-24 | encodings are injective up to key order and prefix-free |
| Bencode.EncodeIsCanonical | examples/popular-apps/build-torrent-fixture.py:19-23 | two values encode alike exactly when they are equal, whatever the insertion orders of their dictionaries |
| Bencode.KeysArePrintedInOrder | examples/popular-apps/build-torrent-fixture.py:19-23 | a dictionary is read back with the same keys, in increasing byte order as they are printed |
| Bencode.TwoEntries | examples/popular-apps/build-torrent-fixture.py:20-23 | two entries are printed in key order though they were inserted the other way round |
| Bencode.PrintedDictionary | examples/popular-apps/build-torrent-fixture.py:19-23 | a dictionary with b before a, spelled out |
| Bencode.PrintedScalars | examples/popular-apps/build-torrent-fixture.py:14-17 | integers and a string, spelled out |
| Bencode.PrintedList | examples/popular-apps/build-torrent-fixture.py:18-18 | a nested list, spelled out |
| Bencode.IntReads | examples/popular-apps/build-torrent-fixture.py:14-15 | integers of either sign read back |
| PngFilter.PaethIsFirstNearest | examples/chrome/assert-example-page.py:10-17 | the predictor is the nearest of left, above, upper left to a+b-c, the first on a tie, and the first-index-of-minimum form is the same |
| PngFilter.UnfilterFilter | examples/chrome/assert-example-page.py:47-68 | unfiltering a filtered row returns it, for every filter type and channel count |
| PngFilter.FilterUnfilter | examples/chrome/assert-example-page.py:47-68 | filtering an unfiltered row returns the scan line |
| PngFilter.UnfilterMeans | examples/chrome/assert-example-page.py:52-66 | for each filter type, what is added to a scan byte: nothing, left, above, half their sum, or the Paeth choice |
| PngReader.CollectA | examples/chrome/assert-example-page.py:24-38 | the loop over offsets computes the chunk walk over the remaining bytes |
| PngReader.CollectB | examples/glx-probe/assert-screenshot.py:15-30 | the loop over positions computes the other chunk walk |
| PngReader.FillRowA | examples/chrome/assert-example-page.py:49-66 | the in-place row loop yields the unfiltered row, or the first error |
| PngReader.FillRowB | examples/glx-probe/assert-screenshot.py:47-67 | the in-place row loop yields the unfiltered bytes that are there and zeros behind them, or an unknown-filter error |
| PngReader.ReadRowsA | examples/chrome/assert-example-page.py:43-68 | the rows of decoder A, each from the row before it |
| PngReader.ReadRowsB | examples/glx-probe/assert-screenshot.py:38-69 | the rows of decoder B |
| PngReader.ReadPngA | examples/chrome/assert-example-page.py:20-69 | decoder A as a whole equals its specification, errors included |
| PngReader.ReadPngB | examples/glx-probe/assert-screenshot.py:10-70 | decoder B as a whole equals its specification, errors included |
| PngAgree.BothAgree | examples/glx-probe/assert-screenshot.py:10-70 | on any bytes, two accepted decodings are the same picture |
| PngAgree.WhenBAccepts | examples/glx-probe/assert-screenshot.py:18-36 | of the inputs decoder A accepts, B accepts exactly those with 13 byte headers, no interlacing and no one to three stray bytes |
| PngAgree.WhenAAccepts | examples/chrome/assert-example-page.py:39-61 | of the inputs decoder B accepts, A accepts exactly those with IDAT bytes and height times (1 + row length) raw bytes |
| PngAgree.RowsInvertFiltering | examples/chrome/assert-example-page.py:43-69 | both row loops invert RFC 2083 filtering of a whole image, any size, channel count and choice of filter types |
| PngAgree.FilteringInvertsRows | examples/chrome/assert-example-page.py:43-69 | filtering the decoded rows by their own filter types gives the raw bytes back |
| PngAgree.RowAMeans | examples/chrome/assert-example-page.py:49-66 | each byte of row A is its scan byte plus what its filter type says |
| PngAgree.RowBMeans | examples/glx-probe/assert-screenshot.py:47-67 | the same for row B as far as the scan line goes, and zeros behind it |
| PngAgree.RowsAMean | examples/chrome/assert-example-page.py:43-68 | each byte of each row is reconstructed from the raw byte in its place and the row above |
| PngAgree.DecodedBytes | examples/chrome/assert-example-page.py:20-69 | size and channels are those of the header, and each byte of the picture is reconstructed from the decompressed bytes |
| PngAgree.HeaderFields | examples/glx-probe/assert-screenshot.py:22-25 | where width, height, depth, color and interlace stand |
| PngWriter.WritePng | examples/xfce-apps/build-png-fixtures.py:16-32 | the loops write the signature and the three chunks of the generated image, or fail when a length does not fit |
| PngWriter.FrontPart | examples/xfce-apps/build-png-fixtures.py:9-13 | a reader finds an encoded chunk's name and payload, and what follows it |
| PngWriter.WalkAIsGather | examples/chrome/assert-example-page.py:27-38 | the walk over the bytes is a walk over the chunks, whatever follows IEND |
| PngWriter.Repackaging | examples/chrome/assert-example-page.py:24-46 | files with the same headers and the same IDAT bytes decode alike: however IDAT is split, whatever chunks are inserted, whatever CRCs are written, whatever follows IEND |
| PngWriter.ReadsWhatWasWritten | examples/xfce-apps/build-png-fixtures.py:16-32 | given an inverse pair for zlib on this image, both decoders read exactly the generated pixels from any packaging |
| PngWriter.WriterParts | examples/xfce-apps/build-png-fixtures.py:28-32 | the written file is one such packaging |
| PngWriter.PixelMeans | examples/xfce-apps/build-png-fixtures.py:22-27 | bands of alternating colors, brighter by 35 where there is room inside the frame |
| PngWriter.PixelAt | examples/xfce-apps/build-png-fixtures.py:20-27 | the three bytes of a pixel in its row |
| PngWriter.WrittenBytes | examples/xfce-apps/build-png-fixtures.py:9-32 | signature and chunks, spelled out |
| PngWriter.SubExample | examples/glx-probe/assert-screenshot.py:47-67 | a file of two pixels with filter type 1, and what both decoders make of it |
| PngWriter.WriteAndRead | examples/xfce-apps/build-png-fixtures.py:16-32 | writing, then reading with both decoders, gives the generated pixels, if decompression undoes the compression of this image |
| PngWriter.InterlacedOnlyA | examples/glx-probe/assert-screenshot.py:31-36 | an interlaced file that A reads and B refuses |
| PngWriter.CutRowOnlyB | examples/chrome/assert-example-page.py:49-61 | a file cut inside the last row that B reads and A refuses |
| Riff.ParseInverts | examples/popular-apps/build-y4m-fixture.py:15-20 | parsing a chunk sequence returns it: sizes are body lengths, odd payloads are padded |
| Riff.ChunkIsThere | examples/popular-apps/build-y4m-fixture.py:15-16 | a chunk's tag, length and payload are where it was appended |
| Riff.EntryPointsAtChunk | examples/popular-apps/build-y4m-fixture.py:62-69 | the k-th index entry has the key frame flag and its chunk's length, and its offset, counted from the movi tag and read back, lands on the k-th chunk while the movie fits in a word |
| Riff.IndexInverts | examples/popular-apps/build-y4m-fixture.py:54-69 | reading a stream through the index returns its payloads in order |
| Riff.Tags | examples/popular-apps/build-y4m-fixture.py:15-72 | the four letters of each tag |
| Riff.ChunkBytes | examples/popular-apps/build-y4m-fixture.py:15-16 | a chunk with an odd payload and its index entry, spelled out |
| Avi.AddPacket | examples/popular-apps/build-y4m-fixture.py:66-69 | one packet extends movie, index and offset together, or does not fit |
| Avi.BuildAvi | examples/popular-apps/build-y4m-fixture.py:23-72 | the loops build the file, and raise exactly when the body is too long for its size field |
| Avi.DemuxInverts | examples/popular-apps/build-y4m-fixture.py:54-72 | demuxing inverts muxing for any packets and headers |
| Avi.HeadersInvert | examples/popular-apps/build-y4m-fixture.py:19-52 | the nested hdrl and strl lists of the file parse back to the header structures |
| Avi.FileLayout | examples/popular-apps/build-y4m-fixture.py:70-72 | the file has its headers, its movie and its index, in this order |
| Avi.PacketAt | examples/popular-apps/build-y4m-fixture.py:57-69 | for each frame the movie has its slice of the video, then its slice of the audio |
| Avi.StreamsOfFrames | examples/popular-apps/build-y4m-fixture.py:57-65 | the packets of n frames carry the first n frames' worth of video and audio |
| Avi.AviRoundTrip | examples/popular-apps/build-y4m-fixture.py:23-72 | the original video and audio come back exactly when the frames cover them |
| Pdf.BuildPdf | examples/wps/build-pdf-fixture.py:45-64 | the loops write objects, table and trailer with the recorded offsets |
| Pdf.EntriesLength | examples/wps/build-pdf-fixture.py:55-57 | all entries are twenty bytes exactly when all offsets fit in ten digits |
| Pdf.TableIsFound | examples/wps/build-pdf-fixture.py:53-63 | startxref points at the table, which counts the objects and the free entry |
| Pdf.EntryOfObject | examples/wps/build-pdf-fixture.py:47-57 | the k-th entry parses to the offset of object k |
| Pdf.RandomAccess | examples/wps/build-pdf-fixture.py:45-64 | the bytes from the k-th offset to the next boundary are exactly object k with header and trailer |
| Pdf.FetchedObjectReads | examples/wps/build-pdf-fixture.py:45-64 | a reader of indirect objects finds in them the number k and exactly the k-th body |
| Pdf.ObjectReads | examples/wps/build-pdf-fixture.py:49-51 | an object's number and body read back, whatever the body |
| Pdf.SmallestFile | examples/wps/build-pdf-fixture.py:45-64 | the file of one object, line by line |
| Pdf.NoFurtherObject | examples/wps/build-pdf-fixture.py:53-57 | there is no entry beyond the last object |
| Pdf.StreamReads | examples/wps/build-pdf-fixture.py:8-13 | /Length is the exact byte count of the stream, whatever its contents |
| Pdf.PaddedReads | examples/wps/build-pdf-fixture.py:56-57 | a padded offset has ten digits and its own value |
| X11Wire.SplitJoins | examples/sync-x11-probe/sync-x11-probe.c:125-169 | every signed 64-bit value survives its hi/lo halves |
| X11Wire.SelfDelimiting | examples/compositor-x11-probe/compositor-x11-probe.c:157-322 | each builder's length member is the true size of its structure |
| X11Wire.DecodeWire | examples/sync-x11-probe/sync-x11-probe.c:97-303 | a decoder with fixed offsets, strict about constants and padding, recovers each request, signed values included |
| X11Wire.WireBytes | examples/sync-x11-probe/sync-x11-probe.c:130-140 | two requests, byte by byte |
| X11Wire.ReceiveInverts | examples/compositor-x11-probe/compositor-x11-probe.c:148-322 | cutting the stream by the length members recovers the requests in order |
| X11Buffer.Display.constructor | examples/compositor-x11-probe/compositor-x11-probe.c:148-155 | an empty buffer with room for the longest request |
| X11Buffer.Display.Flush | examples/compositor-x11-probe/compositor-x11-probe.c:149-149 | writes out whole requests only and empties the buffer |
| X11Buffer.Display.Reserve | examples/compositor-x11-probe/compositor-x11-probe.c:148-155 | space inside the buffer, flushing only when it is full; the request counter advances |
| X11Buffer.Display.Build | examples/compositor-x11-probe/compositor-x11-probe.c:157-322 | the reserved bytes become exactly the request, with no stale byte |
| X11Buffer.Display.QueryCounter | examples/sync-x11-probe/sync-x11-probe.c:156-172 | sends the request, then joins the halves of the reply's value |
| X11Buffer.ReplyCarriesValue | examples/sync-x11-probe/sync-x11-probe.c:166-170 | a reply with the halves of a value yields the value |
| X11Buffer.Session | examples/sync-x11-probe/sync-x11-probe.c:88-303 | for any calls and flushes the server receives exactly the requests, and `request` counts them |
| Relocate.ReplaceBytes | tools/relocate-prefix.py:29-29 | length is kept; bytes inside replaced occurrences are the new prefix, all others are unchanged |
| Relocate.EveryOccurrenceIsCovered | tools/relocate-prefix.py:29-29 | no occurrence of the old prefix starts outside the replaced ones |
| Relocate.BlocksAreDisjoint | tools/relocate-prefix.py:29-29 | replaced occurrences do not overlap |
| Relocate.ReversibleIffNoStray | tools/relocate-prefix.py:29-29 | relocating back restores the file exactly when the input has no stray start: copied bytes in front of an occurrence that begin the new prefix, whose rest is its own beginning, or an old copy of the new prefix |
| Relocate.LeadIsFirst | tools/relocate-prefix.py:29-29 | the lead that this condition speaks of is the first occurrence of the old prefix |
| Relocate.StrayMeans | tools/relocate-prefix.py:29-29 | that condition on the input says that the new prefix starts at a copied byte of the output |
| Relocate.RelocationIsReversible | tools/relocate-prefix.py:14-29 | a borderless new prefix that does not occur in the file can be undone |
| Relocate.BothConditionsMatter | tools/relocate-prefix.py:29-29 | neither condition can be dropped |
| Relocate.Contains | tools/relocate-prefix.py:27-27 | substring test |
| Relocate.RelocateTree | tools/relocate-prefix.py:16-34 | usage error exactly on different lengths; otherwise each readable file is rewritten once for each path that leads to it, and a path is reported exactly if its visit rewrote something |
| Relocate.WithoutAliases | tools/relocate-prefix.py:21-30 | when no two paths lead to one file, each is rewritten once, and reported exactly if the old prefix occurs in it |
| Relocate.OldOccursIffArises | tools/relocate-prefix.py:27-29 | the test of a second visit succeeds exactly when, seen from the input, copied bytes and new prefixes next to each other form the old prefix |
| Relocate.SecondVisit | tools/relocate-prefix.py:27-29 | a second visit changes nothing exactly when no old prefix arises so, or it is the new one; then any number of visits does what one does |
| Relocate.AliasRewritesTwice | tools/relocate-prefix.py:27-29 | a file that two visits rewrite further than one |
| WindowTree.WindowInTree | examples/desktop-session/desktop-session.c:124-139 | the loop over children computes the bounded descent |
| WindowTree.InTreeIsWithin | examples/desktop-session/desktop-session.c:124-139 | the descent finds exactly what climbing parents reaches in the levels left |
| WindowTree.ToplevelFrame | examples/desktop-session/desktop-session.c:141-155 | the child of the root above the window, if at most twelve steps away, else the window itself |
| WindowTree.FocusBelongs | examples/desktop-session/desktop-session.c:157-166 | on any tree: true exactly if the focus is a window of it within twelve levels of the client or of its frame |
| WindowTree.BelongsIsSameTop | examples/desktop-session/desktop-session.c:157-166 | such a focus lies under the same child of the root as the client; with the client at most twelve and the focus at most thirteen levels deep, in particular on trees of height at most twelve, the two say the same |
| WindowSearch.Search.ConsiderWindow | examples/desktop-session/desktop-session.c:66-84 | keeps the best so far unless a smaller candidate comes |
| WindowSearch.Search.WalkClass | examples/desktop-session/desktop-session.c:86-102 | the recursion through shared variables folds over the windows visited in preorder |
| WindowSearch.FindClass | examples/desktop-session/desktop-session.c:104-110 | starts the walk at the root with nothing found; returns a visited window that suits in its own fields, and None exactly when none does |
| WindowSearch.CandidateSuits | examples/desktop-session/desktop-session.c:57-78 | a candidate is a window that is viewable, at least 80 by 40, and whose class or instance name has the wanted letters, capital or small |
| WindowSearch.FullReaches | examples/desktop-session/desktop-session.c:86-102 | without the bound on visits, the walk covers what at most five steps reach, each to one of the first 64 children |
| WindowSearch.WalkIsBounded | examples/desktop-session/desktop-session.c:86-102 | at most 257 windows are visited on any input |
| WindowSearch.WalkIsFront | examples/desktop-session/desktop-session.c:86-102 | the walk is the preorder cut after the 257th window |
| WindowSearch.FindsFirstSmallestVisited | examples/desktop-session/desktop-session.c:66-110 | the result is the first smallest candidate among the windows visited |
| WindowSearch.SmallTreeIsWalked | examples/desktop-session/desktop-session.c:86-102 | a tree within the three bounds is visited completely, each window once |
| WindowSearch.FindsGlobalMinimum | examples/desktop-session/desktop-session.c:66-110 | on such a tree the result is a candidate of the smallest area, or None exactly when there is none; it has the fewest pixels exactly when no candidate's product overflows or all do |
| WindowSearch.OverflowPicksLarger | examples/desktop-session/desktop-session.c:79-83 | a tree with two candidates where the larger one is returned |
| WindowSearch.FirstOfEqualWins | examples/desktop-session/desktop-session.c:80-83 | of two candidates of one size the first child is returned |
| WindowSearch.AreaFits | examples/desktop-session/desktop-session.c:79-79 | the int area of 16-bit extents is their product exactly when that is below 2^31 |
| Tone.PlayTone | examples/audio-probe/audio-probe.c:64-78 | the chunked loops write the samples of the wrapped accumulator, on both channels |
| Tone.RenderTone | examples/popular-apps/build-y4m-fixture.py:113-124 | the single loop writes the same wave |
| Tone.PhaseAdvances | examples/audio-probe/audio-probe.c:71-71 | wrapping at each step keeps the phase n times the step modulo 2^32 |
| Tone.HighIsOdd | examples/audio-probe/audio-probe.c:70-70 | the top bit is the parity of the half cycles that are over |
| Tone.SampleSign | examples/audio-probe/audio-probe.c:70-70 | the even half cycles, from the first one on, are low and the odd ones high |
| Tone.RunLength | examples/audio-probe/audio-probe.c:67-73 | every complete run of one sign has floor or ceiling of 2^31/step samples |
| Tone.ProbeRuns | examples/audio-probe/audio-probe.c:66-73 | the step of the 440 Hz tone, whose runs have 54 or 55 samples |
| Tone.Drift | examples/audio-probe/audio-probe.c:66-71 | for fewer than 2^32 samples the completed cycles are the ideal count or one less |
| KeyStream.Injector.TapKey | examples/wps/x11-send-key.c:114-121 | a press and a release |
| KeyStream.Injector.SendCombo | examples/wps/x11-send-key.c:123-153 | modifiers around the tap, released in reverse; nothing without a key |
| KeyStream.Injector.TypeAscii | examples/wps/x11-send-key.c:155-203 | sends exactly the characters before the first unsupported one, and returns 2 there |
| KeyStream.SupportedCharacters | examples/wps/x11-send-key.c:158-198 | the supported characters, which keysym each has, and for which Shift is held |
| KeyStream.ModifierKeys | examples/wps/x11-send-key.c:126-127 | the keysyms of the modifiers |
| KeyStream.ComboReplays | examples/wps/x11-send-key.c:123-153 | on any keymap, a replayed combination types what arrives of its keysym and leaves all keys up |
| KeyStream.ComboTypes | examples/wps/x11-send-key.c:123-153 | with an ordinary key this is what the key has at the selected level, once, with exactly the requested modifiers held |
| KeyStream.ComboTypesItself | examples/wps/x11-send-key.c:123-153 | asked for at the level where it sits, a keysym types itself |
| KeyStream.CtrlShiftP | examples/wps/x11-send-key.c:255-256 | Control and Shift with p types P with both held |
| KeyStream.TypingTypes | examples/wps/x11-send-key.c:155-203 | on any keymap, replaying the key stream types what arrives of each character, and all keys are up |
| KeyStream.TypesTheText | examples/wps/x11-send-key.c:155-203 | on any keymap, exactly the text arrives if and only if each character has an ordinary key, its modifiers can be held, and it sits at the level asked for |
| KeyStream.PlacingKeymapTypes | examples/wps/x11-send-key.c:155-203 | on a keymap that places its keysyms as expected, exactly the text arrives if and only if every character has a key |
| KeyStream.SilentLoss | examples/wps/x11-send-key.c:127-130 | a text that is not typed although the status is 0 |
| KeyStream.WrongLevel | examples/wps/x11-send-key.c:184-185 | a layout with / above 7, on which 7 is typed and the status is 0 |
| KeyStream.TypeAndReplay | examples/wps/x11-send-key.c:155-203 | on any text and keymap, sending and replaying types what arrives of the supported part; status 0 says that all is supported, and then the text arrives exactly when the keymap can type each character |

## Left out

- `readelf` output parsing, `$ORIGIN` expansion, path normalisation and the file system walk: object metadata, existing paths, resolution and the listing of the search roots are given as finite values with an idempotent resolution.
- Needed names with a slash: a destination is a plain file name in one directory.
- The JSON form of the report of `resolve-elf-deps.py`.
- Binary semaphores of the Vulkan loop: an acquire precedes the wait for the slot's submit fence, so the order of calls alone does not establish their reuse; fences, command buffers and object lifetime are covered.
- Loss of the Vulkan device: `vkDeviceWaitIdle` is taken to return when the queue is idle.
- The contents of the AVI header structures, which the muxing theorems hold for whatever they are.
- zlib, CRC32 and SHA-1: parameters of the PNG writer and readers; the piece hashes of the torrent are a plain byte string in it.
- Bencode dictionaries with keys that are no byte strings, and Python booleans, which are integers to the encoder.
- Xlib's handling of replies and events besides the SYNC counter value, and the `Lock`/`UnlockDisplay` pair.
- Signed overflow of a window's area is undefined in C; the model takes the machine's wrap-around.
- Changes of the window tree while it is searched.
- The server's error for a key event of code 0, which ends the program; the keyboard of the model ignores such an event.
- Errors while `relocate-prefix.py` writes a file.
- Delays, watchdogs, printed messages, floating-point click positions, and the screenshot colour thresholds.
- The Android X server, the executor and the native runtime.
- The remaining probe programs: finite scripts that report PASS or FAIL about a server which they only observe.
