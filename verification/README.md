# Pictus: verified model

Pictus is an image viewer. This project models five parts of it in Dafny and proves what they are for. Every
statement below holds for all inputs, all runs or all reachable states unless it says otherwise.
`dafny verify dfyconfig.toml` checks the whole project.

**The tiled scroll cache** (`TileGrid`, `TileManager`, `TiledRedraw`, `TileRendering`). A grid of 512 x 512 tiles acts
as a ring buffer in two dimensions. The classes keep the deques, the offset and the recorded sizes as the program does;
a ghost `picture` says what the tiles hold for each pixel of the view. `Replay` runs any history of paints and device
losses: each frame shows exactly what a full redraw would show. The zoomed image is an arbitrary function from pixels to
colours; `TileRendering` shows that rendering source pixels to a tile is drawing such a function. `PanIsTurned`: what is
drawn is the region of the turned image at the pan, exactly if the pan is not past the end.

**The background decoder** (`ImageLoader`, `WorkList`, `ImageQueue`, `WorkerThread`, `DecoderProtocol`,
`MemoryLimits`, `ImageCache`). The classes carry out single operations; `DecoderProtocol` interleaves a user
interface thread and a worker in steps that are atomic because of the mutexes. Codecs answer arbitrarily, but report
an abort only if their flag is set. The methods of `WorkerThread` and `ImageCache` are shown to be its steps.

**GIF decoding** (`Bits`, `StreamConverter`, `LzwDecoder`, `LzwEncoder`, `LzwClearCodes`, `Interlace`, `StringTable`,
`GifCodec`, `GifWriting`, `GifReplay`, `GifComposer`, `GifAnimation`). The decoder is specified as a function on bits,
compared with an encoder written after GIF89a, Appendix F, and the in-place string table is proved to compute it.
Frames are placed by Appendix E and composed by section 23 of the same standard. `PlayDecoded` goes the whole way from
encoded frames to the canvas.

**TGA run-length decoding** (`TgaRle`, `TgaDecoder`). Packets are serialised and read back across rows and
batches, under signed strides, with the two flips and the alpha reset done in place. `PacketsShown` says which colours
each place of the surface has, in terms of the bytes in the file.

**Pixel kernels** (`PixelMix`, `Blending`, `Rotation`, `RotateFixed`, `Resampling`, `Interpolation`, `FilterJobs`,
`Render`, on top of `Buffers` and `FilterBuffer`; `Geometry` and `Common` serve all parts). The packed mix, the
rotations, the resampling loops with their chunks, and the rendering of a region are each proved equal to a simple
reference on whole images; `Interpolation` says where a zoomed pixel comes from and that bilinear weights are exact.
Zoom is a positive real number.

## Where the code does less than it seems to promise

Each point names the condition under which the code does what one expects, and a case in which it does not.

- A call of `OnRender` with an empty client area resizes the tiles without recording the size
  (`source/Pictus/w32_rs_tiled.cpp:41`). `IntactUnlessLost`: the cache survives exactly if the tiles still hold all
  that was painted, and a full redraw makes good for it. `PaintAgain`: otherwise a repeated paint shows a fresh
  texture; `WidthLost` is a view of 1100 pixels. The viewport itself paints only if neither its window nor the zoomed
  image is empty (`source/Pictus/viewport.cpp:177`), so this takes a call that has got past that guard.
- Behind a clear code the next word is taken as it stands, once there are as many bits as the clear code has
  (`source/deps/illa/gif_stringtable.cpp:145-164`). `RoundTrip`: the pixels come back exactly if each clear code is
  followed by the code of pixels and by that many bits. The one exception, for code size 8 only, is a clear code
  behind another that passes for a pixel (`SecondClearPasses`). Failing streams: `SecondClearIsDrawn`, `EndIsDrawn`,
  `NothingDrawsTheEnd`, `LastZeroIsLost`.
- An interlaced frame 2, 3 or 4 rows high gets only its first row (`RowOrder`, `FrameInPlace`).
- Advancing an animation while the next frame is not decoded composes the current frame again
  (`source/deps/illa/imagecomposer.cpp:19-22`). If its predecessor stays and will be returned to, what is remembered
  then contains the current frame. `Advance` gives the exact condition, `AdvanceTooEarly` and `ReturnedTo` the
  consequence in every such state, `DotStays` an animation; `NeverTooEarly` and `SometimesTooEarly` say in which
  animations it can happen. `Play`: it is over by the next round.
- Only one picture is remembered, the one before the last frame that follows one that stays
  (`source/deps/illa/imagecomposer_gif.cpp:50-58`). `NextRightIff`: the frame behind one disposed to previous is right
  exactly if it looks the same over that picture as over the one before the removed frame; `AllRightIff` extends this
  to whole animations. That holds if no frame disposed to previous, but the last, comes right after one disposed to
  background (`RestorableIsRight`), and fails in `FillIsForgotten`.
- `ImageQueue::RemoveImage` erases one entry only. `RemovalNeedsDistinctQueue`: the image is gone exactly if the
  queue held it at most once, which `ApplyPriorities` guarantees.
- Bilinear interpolation needs two pixels in each dimension (`NeighboursExist`).
- A window panned past the end of an image that is shown mirrored or turned draws the image from its edge on
  (`source/Pictus/w32_renderer.cpp:36-64`): `PanIsTurned`, `PanIsCut`.
- The memory limit is enforced when the work list is rebuilt (`UpdateFits`), not while it is worked through: a
  package is compared only with those queued before it (`LocatedFits`). `LimitKept`: beginning to load keeps the
  limit exactly if the package fits besides all others; `LimitExceeded` is a run that takes 12 units of 10.
- `SolidColor` reads from the top left of its source whatever the region
  (`source/deps/illa/filter_solidcolor.cpp:25`). `BlendsAskedIff`: that is the region asked for, for every image,
  exactly if it starts there.
- The corners of a region to be resampled are cropped one by one, after rounding to source pixels, and the region is
  then what lies between them (`source/deps/illa/filter_int.cpp:4-23`). `CroppedLandsIff`: unless it is empty, it lies
  in the zoomed image and fits the destination exactly if neither end overhangs, that is, lies a pixel or more, but
  less than half a source pixel, beyond the zoomed image, as it can by a zoom above 2; if it runs backwards, it must
  besides neither start left of the image nor be longer than the destination. `CrossedEnds` is a region of two columns
  that becomes four, past the image. `CropKeeps`: for regions of the zoomed image nothing is cropped.

## Model

| member | source | states |
|---|---|---|
| `TileGrid.RotationMovesTexels` | source/Pictus/w32_rs_tilemanager.cpp:19-53 | Rotating rows and columns of tiles moves every pixel of the torus by whole tiles |
| `TileGrid.ShiftMovesView` | source/Pictus/w32_rs_tilemanager.cpp:6-61 | Through the new offset, the rotated grid shows at every pixel what the old one showed a pan away; the offset stays below 512 |
| `TileGrid.ShiftsCompose` | source/Pictus/w32_rs_tilemanager.cpp:6-61 | Shifting is an action on the tile torus: a then b is a + b, and -a undoes a, grid and offset alike |
| `TileManagement.TruncationFloors` | source/Pictus/w32_rs_tilemanager.cpp:10-17 | Truncating division after the correction for negative offsets is floor division, as the number of rotations needs |
| `TileManagement.TileManager.AddOffset` | source/Pictus/w32_rs_tilemanager.cpp:6-61 | The deque rotations and the two normalising loops compute exactly the shift of grid and offset; each pixel seen keeps its content |
| `TileManagement.TileManager.SetViewportSize` | source/Pictus/w32_rs_tilemanager.cpp:63-88 | Negative sizes are refused without effect; otherwise the tiles cover the view from any offset, pixels on both grids keep their content, and all others show a fresh texture |
| `TileManagement.TileManager.DetermineLockableRect` | source/Pictus/w32_rs_tilemanager.cpp:144-172 | Error cases for any rectangle, when the part starts off its tile, and for a request inside the view exactly the part of one tile that it can have |
| `TileManagement.TileManager.RequestDDSurface` | source/Pictus/w32_rs_tilemanager.cpp:174-205 | A request inside the view always gets a loan, of the right tile and no larger than it |
| `TileManagement.RoomIsMost` | source/Pictus/w32_rs_tilemanager.cpp:153-170 | A loan ends with the request or at the edge of the tile, whichever comes first |
| `TileManagement.TileManager.DrawOn` | source/Pictus/w32_rs_tiled.cpp:132-137 | Drawing on a loan changes exactly the rectangle of the view it was lent for |
| `TileManagement.TileManager.PresentTile` | source/Pictus/w32_rs_tilemanager.cpp:114-137 | One tile is presented exactly where it shows in the view, with its own pixels |
| `TileManagement.TileManager.Render` | source/Pictus/w32_rs_tilemanager.cpp:96-142 | The presented rectangles partition the view: each screen pixel is covered once, with the colour the tiles hold for it |
| `TiledRedraw.RedrawStrategyTiled.RenderArea` | source/Pictus/w32_rs_tiled.cpp:117-143 | Terminates, draws every pixel of the destination exactly once, never across two tiles, and nothing outside |
| `TiledRedraw.RedrawStrategyTiled.Update` | source/Pictus/w32_rs_tiled.cpp:69-96 | Shift and bars: if the cache was right on what old and new view share, it is right on the whole new view |
| `TiledRedraw.RedrawStrategyTiled.Refresh` | source/Pictus/w32_rs_tiled.cpp:48-96 | When all is redrawn; full and incremental redraw end in the same picture, and if nothing has changed it stays as it is |
| `TiledRedraw.RedrawStrategyTiled.OnRender` | source/Pictus/w32_rs_tiled.cpp:21-110 | Outcome for every surface and size, and what is recorded after each; with an intact cache the frame shows the image, and that is, once turned, the region of the turned image at the pan of the screen exactly if the pan fits; a repeated paint on too few tiles shows a fresh texture |
| `TiledRedraw.PanIsTurned` | source/Pictus/w32_renderer.cpp:36-64 | For all eight angles: each pixel drawn comes from the pixel of the image that the turned image has there, exactly if, where the angle reverses an axis, the window is not panned past the end of the image |
| `TiledRedraw.PanIsCut` | source/Pictus/w32_renderer.cpp:36-64 | Panned further than that, the image is drawn from its edge on |
| `TiledRedraw.PanIsRotateRect` | source/Pictus/w32_renderer.cpp:36-64 | For a window inside the turned image, pan and client are the rectangle that rendering to a buffer takes for it |
| `TiledRedraw.MarginCentres` | source/Pictus/w32_rs_tiled.cpp:105-107 | The margins on both sides of the client differ by at most a pixel |
| `Geometry.ZoomedSizeRounds` | source/deps/orz/geom.h:413-415 | The zoomed size is the nearest whole number of pixels |
| `TiledRedraw.RedrawStrategyTiled.OnReset` | source/Pictus/w32_rs_tiled.cpp:145-148 | A lost device drops the tiles and forces a full redraw |
| `TiledRedraw.Replay` | source/Pictus/w32_rs_tiled.cpp:21-110 | For every history of paints and resets, every frame shows what a full redraw would show, unless tiles it relies on were thrown away by a call with an empty client and not painted anew since |
| `TiledRedraw.IntactUnlessLost` | source/Pictus/w32_rs_tiled.cpp:39-43 | Exactly the empty calls that leave too few tiles for what was painted harm the cache, and exactly a full redraw mends it |
| `TiledRedraw.IntactThroughout` | source/Pictus/w32_rs_tiled.cpp:39-43 | A history without such a call keeps the cache intact, and so every frame right, with any number of harmless empty calls |
| `TiledRedraw.PaintAgain` | source/Pictus/w32_rs_tiled.cpp:39-110 | An empty call between two equal paints: the second frame shows the image if the tiles left held all of it, and otherwise a fresh texture at the far corner |
| `TiledRedraw.WidthLost` | source/Pictus/w32_rs_tiled.cpp:39-110 | A client 1100 wide, then none, then 1100 again: the last frame shows a fresh texture |
| `TileRendering.Stage` | source/Pictus/w32_renderer.cpp:145-166 | The staging buffer shows the part of the source image, zoomed and blended, that was asked for |
| `TileRendering.RenderToDDSurface` | source/Pictus/w32_renderer.cpp:145-177 | Seen through the offset, exactly the rectangle lent shows the source image, zoomed and blended, from the given position on |
| `StreamConversion.StreamConverter.AddBytes` | source/deps/orz/streamconv.cpp:12-22 | Bytes join the bit queue at its end, least significant bit first |
| `StreamConversion.StreamConverter.IsWordsLeft` | source/deps/orz/streamconv.cpp:114-117 | True exactly if the queue holds a whole word |
| `StreamConversion.StreamConverter.GetWord` | source/deps/orz/streamconv.cpp:24-52 | Masking and shifting across byte borders takes exactly the first bits of the queue as a number |
| `LzwDecoding.FeedSplits` | source/deps/illa/gif_stringtable.cpp:136-184 | Splitting the data at any bit changes neither pixels nor decoder state, also in a word or right behind a clear code |
| `LzwDecoding.FeedDrains` | source/deps/illa/gif_stringtable.cpp:152-182 | A call that wants more data leaves less than one word |
| `LzwEncoding.RoundTrip` | source/deps/illa/gif_stringtable.cpp:33-184 | For code sizes 2 to 8, any pixels, any number of clear codes at every point, a full table and any padding: the Appendix F encoding is decoded to the pixels if each clear code is followed by the code of pixels and by as many bits as it takes, and otherwise goes wrong in one of three ways; exactly then, up to code size 7 or without clear codes in a row |
| `LzwClearCodes.SecondClearIsDrawn` | source/deps/illa/gif_stringtable.cpp:161-164 | The codes 4 4 0 5 give the pixels 4 0 |
| `LzwClearCodes.EndIsDrawn` | source/deps/illa/gif_stringtable.cpp:161-164 | The codes 0 4 5 give the pixels 0 5, and the end is never seen |
| `LzwClearCodes.NothingDrawsTheEnd` | source/deps/illa/gif_stringtable.cpp:161-164 | The codes 4 5, for no pixels, give the pixel 5 |
| `LzwClearCodes.LastZeroIsLost` | source/deps/illa/gif_stringtable.cpp:161-161 | A stream in which every clear code is followed by the code of pixels, but one by too few bits: the pixels do not come back |
| `LzwClearCodes.SecondClearPasses` | source/deps/illa/gif_stringtable.cpp:33-164 | With code size 8 a second clear code can pass for a zero and the pixels be right all the same |
| `LzwEncoding.MatchLength` | source/deps/illa/gif_stringtable.cpp:171-179 | The reference encoder matches greedily |
| `LzwEncoding.ReadMatch` | source/deps/illa/gif_stringtable.cpp:111-134 | With the table in step, a code is read as the string it was written for |
| `LzwEncoding.ReadMatchLagging` | source/deps/illa/gif_stringtable.cpp:111-180 | One entry behind, including the code that is only about to be assigned, the decoder reads the same string and catches up |
| `Interlacing.AppendixEVisitsEachRowOnce` | source/deps/illa/gif_stringtable.cpp:57-107 | The row order of GIF89a, Appendix E, visits each row once |
| `Interlacing.RowOrder` | source/deps/illa/gif_stringtable.cpp:72-105 | The rows are written in Appendix E order exactly if the height is none of 2, 3 and 4; for those only row 0 is written |
| `Interlacing.PixelPlace` | source/deps/illa/gif_stringtable.cpp:45-109 | The pixel at column x of row y lies y strides and x pixels into the surface |
| `Interlacing.PaintedInPlace` | source/deps/illa/gif_stringtable.cpp:45-109 | However many pixels have come, each is at its line and column, and nothing else has changed |
| `Interlacing.FrameInPlace` | source/deps/illa/gif_stringtable.cpp:45-109 | A complete frame has every pixel in place, and every row is covered unless it is interlaced and 2 to 4 high |
| `StringTables.StringTable.constructor` | source/deps/illa/gif_stringtable.cpp:9-31 | A new table is the initial decoder state |
| `StringTables.StringTable.ResetTable` | source/deps/illa/gif_stringtable.cpp:33-43 | Each entry keeps only its first character; word size and code count start over |
| `StringTables.StringTable.WriteString` | source/deps/illa/gif_stringtable.cpp:45-109 | Appends the string to what is decoded; the surface shows it and the cursor follows |
| `StringTables.StringTable.AddString` | source/deps/illa/gif_stringtable.cpp:111-134 | The error case, the full table, and the new entry with the word size it brings |
| `StringTables.StringTable.Decompress` | source/deps/illa/gif_stringtable.cpp:136-184 | The loop over the words computes the decoder function on the bits it is given, and the surface shows the result |
| `GifCodec.PieceLeadsOn` | source/deps/illa/c_gif.cpp:123-131 | Decoding one sub-block more gets nearer the same final pixels, or there |
| `GifCodec.CodecGIF.LoadChunk` | source/deps/illa/c_gif.cpp:121-136 | One sub-block: cropped files, the empty block, the end code and invalid data each end the frame as the file has it |
| `GifCodec.CodecGIF.LoadImageData` | source/deps/illa/c_gif.cpp:102-148 | All frames counted as finished look as their data taken in one piece make them look, wherever sub-blocks end and loading was interrupted; when it finishes, fails, is aborted or throws |
| `GifCodec.EncodedFrameIsShown` | source/deps/illa/c_gif.cpp:102-148 | A frame encoded by Appendix F with its clear codes readable, and cut into sub-blocks anywhere, is shown pixel by pixel as it was |
| `GifWriting.SubBlocksAreRead` | source/deps/illa/c_gif.cpp:123-136 | Data cut into sub-blocks in any way, anywhere in a file, are read as they were |
| `GifWriting.WrittenIsDecoded` | source/deps/illa/c_gif.cpp:102-136 | A frame written with any pixels, readable clear codes, padding and cut into sub-blocks, anywhere in a file, is decoded to these pixels |
| `GifComposer.ImageComposerGif.ComposeCurrentSurface` | source/deps/illa/imagecomposer_gif.cpp:16-69 | Point by point: where the frame has a pixel that is not its transparent colour key, the canvas has the colour of its palette entry, and elsewhere what the disposal of the previous frame left; and what is remembered |
| `GifReplay.PaintedOver` | source/deps/illa/imagecomposer_gif.cpp:60-65 | Painting a frame, point by point, in terms of its indices, palette, colour key and transparency |
| `GifReplay.DisposedLeaves` | source/deps/illa/imagecomposer_gif.cpp:44-58 | What a frame leaves, point by point: the canvas, what is remembered, or its area in the colour key of the next frame, without alpha if that is transparent |
| `GifReplay.WholePictureAt` | source/deps/illa/imagecomposer_gif.cpp:4-28 | The only frame of a file shows its transparent colour key without alpha |
| `GifReplay.ReplayAt` | source/deps/illa/imagecomposer_gif.cpp:44-65 | The replay in the same terms |
| `GifComposer.ImageComposerGif.OnAdvance` | source/deps/illa/imagecomposer_gif.cpp:71-84 | When the current frame moves on, wraps around, or waits |
| `GifReplay.NextRightIff` | source/deps/illa/imagecomposer_gif.cpp:44-69 | If all frames so far are right, the next is, except behind a frame disposed to previous, and there exactly if it looks the same over what is remembered as over what should be returned to |
| `GifReplay.AllRightIff` | source/deps/illa/imagecomposer_gif.cpp:16-69 | The first n frames composed in place equal their from-scratch replays exactly if that holds for each frame disposed to previous among them that another follows |
| `GifReplay.RestorableIsRight` | source/deps/illa/imagecomposer_gif.cpp:16-69 | So does every animation in which no frame disposed to previous, but the last, comes right after one disposed to background |
| `GifReplay.PastRemoved` | source/deps/illa/imagecomposer_gif.cpp:50-58 | What is remembered: behind a frame disposed to previous, the next is painted over the canvas before the last frame that followed one that stays |
| `GifComposer.ImageComposerGif.Advance` | source/deps/illa/imagecomposer.cpp:19-22 | In every animation keeps canvas and memory those of composing in turn exactly if it is not premature, or the frame composed twice adds nothing to what is remembered; coming round to frame 0 always makes them so |
| `GifComposer.ImageComposerGif.AdvanceToNext` | source/deps/illa/imagecomposer_gif.cpp:71-84 | With the next frame decoded: what it is painted over, what is then remembered, and that it is in step if the one before was |
| `GifComposer.ImageComposerGif.Restart` | source/deps/illa/imagecomposer_gif.cpp:102-106 | Always back in step, on frame 0 |
| `GifComposer.ImageComposerGif.RequestCurrentSurface` | source/deps/illa/imagecomposer.cpp:4-17 | In any state hands out the canvas, or the bare frame if there is only one; in step, that is the canvas of composing in turn, or a clear one before the frame is decoded |
| `GifComposer.ImageComposerGif.Play` | source/deps/illa/imagecomposer_gif.cpp:16-122 | After any sequence of calls in any animation, premature ones included, the canvas is that of composing in turn, and so equals the replay exactly where that does, unless an advance was premature since frame 0 was last current; with all frames decoded, a restart or one round of advances makes it so for good |
| `GifComposer.OneRoundAtMost` | source/deps/illa/imagecomposer_gif.cpp:71-84 | Once all frames are decoded, a canvas that is wrong was wrong before and is right again when the run comes round |
| `GifComposer.NeverTooEarly` | source/deps/illa/imagecomposer_gif.cpp:71-84 | Unless a frame that stays comes before one disposed to previous that is not the last, no call of any run is premature, decoded or not |
| `GifComposer.SometimesTooEarly` | source/deps/illa/imagecomposer_gif.cpp:71-84 | In every other animation some run comes to a premature advance |
| `GifComposer.ImageComposerGif.AdvanceTooEarly` | source/deps/illa/imagecomposer_gif.cpp:71-84 | After every premature advance, once the frames have arrived: behind the frame that returns to what was remembered, the next is painted over the canvas of the frame composed twice |
| `GifReplay.ReturnedTo` | source/deps/illa/imagecomposer_gif.cpp:50-58 | In turn, that frame is painted over the canvas of the frame before |
| `GifComposer.DotStays` | source/deps/illa/imagecomposer_gif.cpp:71-84 | An animation of three frames, advanced once too early, keeps a dot that the replay removes |
| `GifComposer.FillIsForgotten` | source/deps/illa/imagecomposer_gif.cpp:44-58 | An animation of three frames, disposed to background, to previous and not at all, that loses the filled area |
| `GifAnimation.HeldIsMeant` | source/deps/illa/gif_stringtable.cpp:45-109 | A complete surface holds for each point of the canvas the pixel that the frame has there, interlaced or not |
| `GifAnimation.PlayDecoded` | source/deps/illa/c_gif.cpp:102-148 | From encoded frames to the canvas: decoded and composed by any sequence of calls, it is the replay of the frames as they were before they were encoded; each point of the current frame has the palette colour of its source pixel, unless that is transparent, and all others show what was there before |
| `ImageLoading.ImageLoader.Allocate` | source/Pictus/ic_imageloader.cpp:60-113 | The stage reached for every answer of the codec and the hint; throws only if a full allocation is unsupported |
| `ImageLoading.ImageLoader.LoadHeader` | source/Pictus/ic_imageloader.cpp:37-58 | A codec with the header, or failure |
| `ImageLoading.ImageLoader.LoadImageData` | source/Pictus/ic_imageloader.cpp:115-128 | Ends the pass unless it was aborted |
| `ImageLoading.ImageLoader.Load` | source/Pictus/ic_imageloader.cpp:228-247 | One step of loading: the stage reached for every answer while reading the header or the data, an abort changes nothing and needs the flag, what throws fails the image and is reported, and so is the event |
| `ImageLoading.ImageLoader.MemoryRequirements` | source/Pictus/ic_imageloader.cpp:130-137 | The estimate of the codec, 0 after a failure; asking without a header is the call that would throw |
| `ImageLoading.StepRaisesRank` | source/Pictus/ic_imageloader.cpp:228-247 | A codec exists exactly from the header to the end; a step raises the rank exactly if it was not aborted |
| `WorkLists.RebuiltImages` | source/Pictus/ic_worklist.cpp:8-29 | After rebuilding, exactly the images asked for are worked on, in that order |
| `WorkLists.MergedKeeps` | source/Pictus/ic_worklist.cpp:16-25 | An image already on the list keeps its loader, every other gets a fresh one |
| `WorkLists.RebuiltFits` | source/Pictus/ic_worklist.cpp:31-43 | What is loading or done after a rebuild takes at most the limit, or the first image alone |
| `WorkLists.RebuiltExactly` | source/Pictus/ic_worklist.cpp:31-43 | Place by place, a loader keeps stage and codec exactly if it is the first, takes no memory for image data, or fits under the limit behind all that is left before it; otherwise it is unprocessed |
| `WorkLists.NothingDeallocated` | source/Pictus/ic_worklist.cpp:31-43 | If all that is loading or done fits under the limit, nothing is deallocated |
| `WorkLists.NothingToDo` | source/Pictus/ic_worklist.cpp:46-57 | No package is found exactly if each image is done, failed, or does not fit under the limit with everything before it; the first that has not failed is then done |
| `WorkLists.LocatedFits` | source/Pictus/ic_worklist.cpp:81-89 | A package handed out has no header yet, or nothing before it, or fits with all before it |
| `WorkLists.FastPassesFirst` | source/Pictus/ic_worklist.cpp:59-63 | A package past its fast pass, behind others, is handed out only if no fast pass is left to do anywhere on the list |
| `WorkLists.WorkList.Rebuild` | source/Pictus/ic_worklist.cpp:5-44 | The two loops over loaders compute the merged and pruned list, and deallocate exactly what does not fit; no loader is shared or lost |
| `WorkLists.WorkList.FetchPackage` | source/Pictus/ic_worklist.cpp:59-63 | Fast passes first, then full ones; no memory question is asked that would throw |
| `WorkLists.WorkList.SuitableWorkPackage` | source/Pictus/ic_worklist.cpp:81-89 | The decision for one package |
| `ImageQueues.ErasedOccurrences` | source/Pictus/ic_queue.cpp:9-14 | Removal takes away one occurrence, so an image is gone exactly if it was there at most once |
| `ImageQueues.ErasedOnce` | source/Pictus/ic_queue.cpp:9-14 | From a queue without duplicates, removal leaves nothing of the image and keeps the rest |
| `ImageQueues.ImageQueue.RemoveImage` | source/Pictus/ic_queue.cpp:9-14 | Erases the first entry of an image |
| `DecoderProtocol.StepKeepsInv` | source/Pictus/ic_workerthread.cpp:24-118 | Every step of either thread keeps the invariant of the protocol |
| `DecoderProtocol.RunSafe` | source/Pictus/ic_backgroundprocessor.cpp:16-24 | In every interleaving, work list, current package and queue refer only to images that exist; when a wait is over nothing refers to what is about to be erased |
| `DecoderProtocol.WokenByRebuild` | source/Pictus/ic_workerthread.cpp:33-38 | A wait ends only by a rebuild from a queue without the image |
| `DecoderProtocol.AbortIsSetAndCleared` | source/Pictus/ic_workerthread.cpp:88-118 | Updating and terminating leave the abort flag of the current package set and touch no other, returning clears it |
| `DecoderProtocol.NothingTouched` | source/Pictus/ic_backgroundprocessor.cpp:16-24 | From the removal until the wait is over no step of either thread changes files or queue |
| `DecoderProtocol.RemovalNeedsDistinctQueue` | source/Pictus/imagecache.cpp:28-32 | The rebuild after a removal keeps the image exactly if the queue held it twice |
| `DecoderProtocol.WaitEnds` | source/Pictus/ic_workerthread.cpp:106-118 | A thread waiting in Update or for the end of the worker is never stuck: at most three steps of the worker lie before it |
| `DecoderProtocol.WorkerMakesProgress` | source/Pictus/ic_workerthread.cpp:46-49 | Between updates every step of the worker uses up a bounded budget; an abort costs at most one step per loader |
| `DecoderProtocol.WorkerComesToRest` | source/Pictus/ic_workerthread.cpp:26-50 | Left alone the worker sleeps after finitely many steps, and then the first image that has not failed is fully loaded and every other is done, failed or does not fit |
| `DecoderProtocol.UpdateFits` | source/Pictus/ic_workerthread.cpp:135-138 | After every update the memory limit in force holds |
| `MemoryLimits.ProcessTakes` | source/Pictus/ic_imageloader.cpp:228-247 | A step of loading changes the memory taken only when it begins a pass, ends the fast one or fails |
| `MemoryLimits.LimitKept` | source/Pictus/ic_worklist.cpp:81-89 | Between rebuilds, every step of either thread keeps the limit, except one that begins to load: it does exactly if the package fits besides all that is loading or done |
| `MemoryLimits.LimitExceeded` | source/Pictus/ic_worklist.cpp:81-89 | A run from the start with two images of 6 units that takes 12 under a limit of 10 |
| `WorkerThreads.DecoderWorkerThread.Update` | source/Pictus/ic_workerthread.cpp:106-118 | The method is the update step of the protocol |
| `WorkerThreads.DecoderWorkerThread.Terminate` | source/Pictus/ic_workerthread.cpp:88-100 | Up to the join, the terminate step |
| `WorkerThreads.DecoderWorkerThread.Section` | source/Pictus/ic_workerthread.cpp:26-44 | What happens under the mutex is a locate, rebuild or stop step |
| `WorkerThreads.DecoderWorkerThread.MemoryLimit` | source/Pictus/ic_workerthread.cpp:131-133 | The method is the limit step |
| `WorkerThreads.DecoderWorkerThread.PerformUpdate` | source/Pictus/ic_workerthread.cpp:135-138 | Rebuilds from the queue and forgets the package |
| `WorkerThreads.DecoderWorkerThread.ProcessImage` | source/Pictus/ic_workerthread.cpp:74-86 | Loading without the mutex is a process step |
| `WorkerThreads.DecoderWorkerThread.ReturnPackage` | source/Pictus/ic_worklist.cpp:65-70 | Handing a package back clears its abort flag |
| `ImageCache.Cacher.PeekRelativeIndex` | source/Pictus/imagecache.cpp:375-389 | The neighbour for every distance, with and without wrapping, which happens once; none for an empty cache |
| `ImageCache.Cacher.ApplyPriorities` | source/Pictus/imagecache.cpp:34-57 | The queue handed over has the current image first, its neighbours behind, no image twice and only images that exist; away from the ends exactly the current one, the next, the one before and those beyond, in the direction of travel; it is the cache step of the protocol |
| `ImageCache.Cacher.AddImageLast` | source/Pictus/imagecache.cpp:105-123 | Adds a file only if a codec claims it, and keeps the current image |
| `ImageCache.Cacher.RemoveCurrentImage` | source/Pictus/imagecache.cpp:125-137 | The image is gone from queue and files; which image is current then, also when the index falls below zero |
| `ImageCache.Cacher.RemoveImageIndex` | source/Pictus/imagecache.cpp:139-155 | Removing another image leaves the current one current; out of bounds is an error |
| `ImageCache.Cacher.Clear` | source/Pictus/imagecache.cpp:59-65 | Empties queue and files |
| `ImageCache.Cacher.Unqueue` | source/Pictus/imagecache.cpp:131-131 | Taking an image out of the queue is the remove step |
| `ImageCache.Cacher.DropFile` | source/Pictus/imagecache.cpp:132-132 | Dropping the file when the wait is over is the erase step |
| `TgaPackets.FillYields` | source/deps/illa/c_tga_rle.cpp:72-101 | Packets may cross the pieces in which they are read freely: each piece gets the next pixels |
| `TgaPackets.RowsOfPackets` | source/deps/illa/c_tga_rle.cpp:57-106 | Packets that expand to enough pixels are read as these pixels cut into rows |
| `TgaPackets.RowsOfSum` | source/deps/illa/c_tga_rle.cpp:57-106 | Reading rows in batches of any size is reading them in one go |
| `TgaDecoder.CodecTgaRleDecoder.ReadHeader` | source/deps/illa/c_tga_rle.cpp:78-85 | The next packet header and the pixel of a run |
| `TgaDecoder.CodecTgaRleDecoder.DecodeRow` | source/deps/illa/c_tga_rle.cpp:62-103 | One row of the buffer is overwritten with what the reader yields, as far as the file goes, and nothing else |
| `TgaDecoder.CodecTgaRleDecoder.PrepareBatch` | source/deps/illa/c_tga_decoder.cpp:41-68 | How many rows, where the first of them lies and how far the next, upwards or downwards |
| `TgaDecoder.CodecTgaRleDecoder.OnProcess` | source/deps/illa/c_tga_rle.cpp:57-106 | The rows of a batch are read over the right rows of the surface |
| `TgaDecoder.CodecTgaRleDecoder.FlipHorizontalBatch` | source/deps/illa/c_tga_decoder.h:33-46 | Each row of the batch is reversed in place |
| `TgaDecoder.CodecTgaRleDecoder.FinalizeBatch` | source/deps/illa/c_tga_decoder.cpp:70-110 | Each row of the batch is mirrored and made opaque as the header asks, exactly once; finished exactly at the last row |
| `TgaDecoder.CodecTgaRleDecoder.Process` | source/deps/illa/c_tga_decoder.cpp:20-37 | One batch: the next rows are decoded, each row once |
| `TgaDecoder.CodecTgaRleDecoder.LoadImageData` | source/deps/illa/c_tga.cpp:81-89 | However often it is interrupted, the rows so far are those read from the beginning in one go |
| `TgaDecoder.CodecTgaRleDecoder.PacketsShown` | source/deps/illa/c_tga_decoder.cpp:20-110 | Any packets that expand to the size of the image end up as their pixels cut into rows, each pixel where the two flips of the header put it and with the colours of its bytes in the file, padding untouched |
| `TgaPackets.StoredColours` | source/deps/illa/c_tga_rle.cpp:5-43 | The word in memory has blue, green and red from the first three bytes and, for 24 bits, alpha 255; shorter pixels are kept byte by byte |
| `TgaDecoder.TreatedColours` | source/deps/illa/c_tga_decoder.cpp:86-101 | Without alpha, only the alpha of a 32-bit pixel is made 255 |
| `TgaPackets.ExpandedAt` | source/deps/illa/c_tga_rle.cpp:72-101 | Each pixel that packets stand for is made of its own bytes |
| `PixelMix.LanesAreSeparate` | source/deps/illa/color_conv.h:50-65 | Two lanes at once are two lanes one by one: no borrow, carry or wrap reaches the other |
| `PixelMix.MixIsExact` | source/deps/illa/color_conv.h:50-70 | Every channel of the packed mix is dst + floor((src - dst) * ia / 256) |
| `PixelMix.MixedChannelBetween` | source/deps/illa/color_conv.h:51-51 | A mixed channel lies between its inputs, and alpha 0 and 255 give one of them |
| `PixelMix.MixedChannelClose` | source/deps/illa/color_conv.h:51-51 | It is less than one and a half away from the exact blend at alpha / 255 |
| `PixelMix.MixNothing` | source/deps/illa/color_conv.h:50-70 | Alpha 0 leaves the first pixel |
| `PixelMix.MixEverything` | source/deps/illa/color_conv.h:50-70 | Alpha 255 gives the second pixel |
| `Blending.SolidColor` | source/deps/illa/filter_solidcolor.cpp:5-43 | Which region is blended, and that each of its pixels is the mix, also in place, with nothing around it touched |
| `Blending.BlendsAskedIff` | source/deps/illa/filter_solidcolor.cpp:23-39 | The region blended is the one asked for, for every image, exactly if the clipped region starts at the top left |
| `Blending.OverIsExact` | source/deps/illa/filter_solidcolor.cpp:28-40 | The exact channels for whole images |
| `Blending.Crossblend` | source/deps/illa/filter_crossblend.cpp:5-31 | Each pixel of the destination region is the mix of the two sources, of which either may be the destination |
| `Blending.BlendIsExact` | source/deps/illa/filter_crossblend.cpp:5-31 | The exact channels of each pixel: the first source over the second by its own alpha |
| `Rotation.FinalAngleIsBoth` | source/deps/illa/types.cpp:81-180 | For all 64 pairs of angles: turning by the one and then by the other is turning by the final angle |
| `Rotation.RotationIsUndone` | source/deps/illa/types.cpp:81-180 | Every angle has an inverse |
| `Rotation.CropOfRotated` | source/deps/illa/render.cpp:7-36 | For the six supported angles and any region: turning the part that RotateRect picks gives the region of the turned image |
| `FilterBuffers.AreaPlace` | source/deps/illa/filter_rotatefixed.cpp:52-81 | Where in memory a pixel of a rectangle lies: rows are a stride apart |
| `RotateFixed.MirrorCopy` | source/deps/illa/filter_rotatefixed.cpp:66-81 | The copying mirror on strided buffers |
| `RotateFixed.MirrorInPlace` | source/deps/illa/filter_rotatefixed.cpp:52-65 | The in-place mirror does the same |
| `RotateFixed.FlipCopy` | source/deps/illa/filter_rotatefixed.cpp:111-121 | The copying flip on strided buffers |
| `RotateFixed.FlipInPlace` | source/deps/illa/filter_rotatefixed.cpp:94-110 | The in-place flip does the same |
| `RotateFixed.Rot90` | source/deps/illa/filter_rotatefixed.cpp:124-140 | A clockwise quarter turn between strided buffers |
| `RotateFixed.Rot270` | source/deps/illa/filter_rotatefixed.cpp:142-158 | A counter-clockwise quarter turn between strided buffers |
| `RotateFixed.RotateRegion` | source/deps/illa/filter_rotatefixed.cpp:160-192 | For every angle the error cases, and otherwise the region turned, with nothing around it touched |
| `RotateFixed.TurnTwiceAndOnce` | source/deps/illa/filter_rotatefixed.cpp:160-192 | Two turns through a buffer between leave in memory the image that one turn by the final angle leaves |
| `Resampling.NeighboursExist` | source/deps/illa/filter_bilinear.cpp:13-27 | A sampled index and its successor are in bounds exactly if the dimension is at least 2; weights are complementary |
| `Resampling.WeightsSum` | source/deps/illa/filter_bilinear.cpp:82-88 | The four weights sum to 2^22 |
| `Resampling.ChannelBetween` | source/deps/illa/filter_bilinear.cpp:113-121 | The 32-bit sum does not wrap and the channel lies between the least and the greatest of the four |
| `Resampling.AssembledBetween` | source/deps/illa/filter_bilinear.cpp:113-121 | The same for all channels of the assembled pixel |
| `Resampling.PerformBilinear` | source/deps/illa/filter_bilinear.cpp:51-98 | Each pixel written depends only on its absolute zoomed coordinate |
| `Interpolation.BilinearIsExact` | source/deps/illa/filter_bilinear.cpp:76-98 | Where a channel of the image is linear in each coordinate, the zoomed channel is that function at the offset sampled, rounded down |
| `Interpolation.BilinearAtPixel` | source/deps/illa/filter_bilinear.cpp:76-98 | At whole pixels that have neighbours, any image is met exactly |
| `Interpolation.OffsetRounds` | source/deps/illa/filter_bilinear.cpp:62-69 | The offset is the zoomed position and a quarter, divided by the zoom, in 2048ths, rounded down |
| `Resampling.ColumnExists` | source/deps/illa/filter_nearest.cpp:33-48 | Stepping in fixed point never leaves the source row |
| `Resampling.PerformNearest` | source/deps/illa/filter_nearest.cpp:31-60 | Each pixel written depends only on its absolute zoomed coordinate, although the loop accumulates |
| `Interpolation.NearestPlace` | source/deps/illa/filter_nearest.cpp:28-46 | It comes from the row of its position rounded down, and from a column that is not right of its position, and left of it by less than one pixel and the error of the steps |
| `Resampling.ResampledPart` | source/deps/illa/filterjob.cpp:13-31 | Rendering part of a region gives that part of the rendered region |
| `FilterJobs.ChunksPartition` | source/deps/illa/filter.cpp:58-67 | Every row is in exactly one chunk |
| `FilterJobs.DirectCopy` | source/deps/illa/filter_directcopy.cpp:7-27 | Without zoom the region is copied |
| `FilterJobs.CopiedAt` | source/deps/illa/filter_directcopy.cpp:7-27 | Each pixel is the one at its place |
| `FilterJobs.FilterRegion` | source/deps/illa/filter.cpp:51-76 | Chunks taken in any order give the region rendered in one go |
| `FilterJobs.AutoFilter` | source/deps/illa/filter.cpp:18-76 | A negative corner is refused, an empty region leaves the destination alone, and any other shows the cropped region at its top left, with nothing around it touched |
| `FilterJobs.CropKeeps` | source/deps/illa/filter_int.cpp:11-23 | A region of the zoomed image that the destination has room for is not cropped, and lands |
| `FilterJobs.CroppedLandsIff` | source/deps/illa/filter_int.cpp:11-23 | Unless it is empty, the region between the cropped corners lies in the zoomed image and fits the destination exactly if, along both axes, neither end overhangs, and a region that runs backwards neither starts left of the image nor is longer than the destination |
| `FilterJobs.AxisLandsIff` | source/deps/illa/filter_int.cpp:4-23 | The same along one axis |
| `FilterJobs.CrossedEnds` | source/deps/illa/filter_int.cpp:11-23 | Two columns at 104, of an image zoomed to 100, become four from 100 on: the near end overhangs and the far one is cropped behind it |
| `FilterJobs.RunsBackwards` | source/deps/illa/filter_int.cpp:22-22 | A region of negative extent is rendered like the one that runs forwards |
| `FilterJobs.CropReachesIff` | source/deps/illa/filter_int.cpp:4-9 | A single corner is left inside the zoomed image exactly if it does not overhang, which takes a zoom above 2 |
| `Render.PartOfWhole` | source/deps/illa/render.cpp:43-89 | Zooming, blending and turning only the part needed gives the region of the whole |
| `Render.FinishedAt` | source/deps/illa/render.cpp:76-78 | The background is mixed under each pixel by its own alpha, channel by channel |
| `Render.RenderToBuffer` | source/deps/illa/render.cpp:40-90 | The two errors; otherwise any destination that is large enough shows exactly the region of the whole image zoomed, blended and turned, in place or through a second buffer, and how much of it is written |

## Left out

- Integers are unbounded, except where wrapping matters: pixel words are taken modulo 2^32 and the index of the cache below zero becomes the greatest unsigned value. Overflow of coordinates and of fixed-point offsets is not modelled.
- Floating point: zoom and its quotients are real numbers, so rounding of floats is not modelled.
- Textures are pixel maps and are not shared between tiles; GPU behaviour, `GenerateQuad` and drawing to a window are not modelled. Presenting is a list of rectangles with colours.
- TileRendering.RenderToDDSurface: the part drawn lies in the zoomed image; the redraw strategy calls it through `DrawOn` with an arbitrary picture, of which the picture of source pixels is one. Locking a staging texture is a buffer.
- Failing to create a texture half way through `SetViewportSize`, and other failures of memory.
- `m_panDelta`, `m_maxCode` and `m_pos` are written but never read; they are not fields of the model.
- GIF headers, colour tables and extension blocks: a frame is given by its size, its file offset, its surface and how it is painted.
- GifComposer.ImageComposerGif.Play: the descriptors are fixed from the start, since no frame is composed before it is complete; the reference fills a frame disposed to background with the colour the code uses, which section 23 of GIF89a leaves to the background; frames are taken to lie inside the canvas, as section 20 demands; the locks around composing and the flag for recomposing, which GIF never sets, are left out, and a frame arriving is one step.
- DecoderProtocol.RunSafe: assumes no spurious wake-up of the waiting user interface, no exception that ends the worker, and that loading and aborting one image do not race inside the codec.
- A step of loading is atomic; files, codec detection, metadata, messages to the receiver and the state of `Image` objects are not modelled. Images are identities.
- Sorting, searching by name and stepping through the cache: easy members.
- TGA headers, colour maps and the uncompressed decoder; a pixel is the list of its bytes in memory.
- LzwEncoding.RoundTrip: the encoder matches greedily and assigns a code after each match while there is room, as Appendix F describes; encoders that do otherwise are not modelled.
- Blending.SolidColor: a negative position in the destination, where the program would write before a row, and source and destination that share memory without being the same buffer.
- Blending.Crossblend: the program checks none of its arguments; here the regions are assumed to fit their buffers, and to be the same if they share memory.
- RotateFixed.RotateRegion: buffers that share memory are taken to be equal in all fields, and null buffers do not occur.
- Render.RenderToBuffer: a region that reaches past the right or lower edge of the turned image, which the program crops without turning what it has cropped; the destination is large enough for the region; gamma, brightness and contrast are left at their neutral values.
- FilterJobs.AutoFilter: chunks run one after the other, in any order; since no row is in two chunks, threads that write at the same time write to different places. `FilterJob::Run` looks at the mode shared by all jobs, so that the empty last chunk runs too, and writes nothing. A cropped region that does not land in the zoomed image and the destination, which the program does not check, is excluded, and buffers are not null; Lanczos and the 16-bit formats are left out, and a pixel converter stands for the others.
- JPEG, PNG, WebP, TIFF, XYZ, BMP, PCX, PSP and PSD, dialogs, settings, IPC and the shell extension: outside the five parts.
