/** Loading the frames of a GIF: the sub-blocks of each are handed to a string table, one at a time. */
module GifCodec {
  import opened Bits
  import opened Buffers
  import opened LzwDecoding
  import opened LzwEncoding
  import opened Interlacing
  import opened StringTables

  const MAX_CODE_SIZE: nat := 12

  datatype Descriptor = Descriptor(frame: Frame, fileOffset: nat, surface: array<Byte>)

  // An exception ends the loading for good, as Finished does.
  datatype LoadStatus = Loading | Finished | Failed | Aborted | Threw

  type File = seq<Byte>

  /** The bytes of the sub-block whose size is at `pos`; a cropped file may hold only some of them. */
  function Chunk(file: File, pos: nat): (c: seq<Byte>)
    requires pos < |file|
    ensures |c| <= file[pos] && pos + 1 + |c| <= |file|
  {
    if pos + 1 + file[pos] <= |file| then file[pos + 1..pos + 1 + file[pos]] else file[pos + 1..]
  }

  /** All bytes of the sub-blocks from `pos` on, up to the empty one or the end of the file. */
  function Data(file: File, pos: nat): seq<Byte>
    decreases |file| - pos
  {
    if pos >= |file| || file[pos] == 0 then [] else Chunk(file, pos) + Data(file, pos + 1 + |Chunk(file, pos)|)
  }

  lemma ChunkThenRest(file: File, pos: nat, after: nat)
    requires pos < |file| && file[pos] > 0 && after == pos + 1 + |Chunk(file, pos)|
    ensures Data(file, pos) == Chunk(file, pos) + Data(file, after)
  {
  }

  lemma CroppedChunkIsLast(file: File, pos: nat, after: nat)
    requires pos < |file| && after == pos + 1 + |Chunk(file, pos)| && |Chunk(file, pos)| < file[pos]
    ensures Data(file, after) == []
  {
    assert after == |file|;
  }

  function Blank(length: nat, background: Byte): seq<Byte> {
    seq(length, _ => background)
  }

  /** Whether decoding of a frame can begin. */
  predicate Startable(file: File, offset: nat) { offset < |file| && file[offset] < MAX_CODE_SIZE }

  /** The pixels that the sub-blocks of a frame stand for, read as one piece. */
  function Decoded(file: File, offset: nat): Text
    requires Startable(file, offset)
  {
    Feed(Start(file[offset]), BytesToBits(Data(file, offset + 1))).state.out
  }

  function PixelsOf(r: Result): Text { r.state.out }

  /** What is left of the data takes the decoder to these pixels. */
  ghost predicate LeadsTo(d: Decoder, rest: seq<Byte>, out: Text) {
    d.Valid() && |d.bits| < d.wordSize && forall r | r == Feed(d, BytesToBits(rest)) :: PixelsOf(r) == out
  }

  lemma StartLeadsTo(file: File, offset: nat)
    requires Startable(file, offset)
    ensures LeadsTo(Start(file[offset]), Data(file, offset + 1), Decoded(file, offset))
  {
  }

  /** A piece of the data gets the decoder there, or nearer. */
  lemma PieceLeadsOn(d: Decoder, piece: seq<Byte>, rest: seq<Byte>, out: Text)
    requires LeadsTo(d, piece + rest, out)
    ensures var r := Feed(d, BytesToBits(piece));
            if r.More? then LeadsTo(r.state, rest, out) else r.state.out == out
  {
    var r := Feed(d, BytesToBits(piece));
    assert PixelsOf(Feed(d, BytesToBits(piece + rest))) == out;
    BytesToBitsConcat(piece, rest);
    FeedSplits(d, BytesToBits(piece), BytesToBits(rest));
    FeedDrains(d, BytesToBits(piece));
  }

  lemma NothingLeft(d: Decoder, out: Text)
    requires LeadsTo(d, [], out)
    ensures d.out == out
  {
    assert d.(bits := d.bits + []) == d;
    assert PixelsOf(Feed(d, BytesToBits([]))) == out;
  }

  class CodecGIF {
    const file: File
    const ids: seq<Descriptor>
    const background: Byte
    var position: nat
    var currentImage: nat
    var table: StringTable?
    var frameLoading: nat      // as the composer knows it

    ghost function Surfaces(): set<object>
    {
      set i | 0 <= i < |ids| :: ids[i].surface
    }

    ghost function TableRepr(): set<object>
      reads this
    {
      if table == null then {} else {table, table.table, table.stream}
    }

    /** The frame looks as its data taken in one piece make it look. */
    ghost predicate Shown(i: nat)
      requires i < |ids|
      reads ids[i].surface
    {
      var id := ids[i];
      Startable(file, id.fileOffset)
      && id.surface[..] == Painted(id.frame, Blank(id.surface.Length, background), Decoded(file, id.fileOffset)).0
    }

    ghost predicate Untouched(i: nat)
      requires i < |ids|
      reads ids[i].surface
    {
      ids[i].surface[..] == Blank(ids[i].surface.Length, background)
    }

    ghost predicate SurfacesOk()
    {
      && (forall i :: 0 <= i < |ids| ==> ids[i].frame.FitsIn(ids[i].surface.Length))
      && forall i, j :: 0 <= i < j < |ids| ==> ids[i].surface != ids[j].surface
    }

    ghost function OtherSurfaces(k: nat): set<object>
    {
      set i | 0 <= i < |ids| && i != k :: ids[i].surface
    }

    /** Frames before the k-th are complete; those behind it have not been written to. */
    ghost predicate OthersOk(k: nat)
      reads OtherSurfaces(k)
    {
      && (forall i :: 0 <= i < k && i < |ids| ==> Shown(i))
      && forall i :: k < i < |ids| ==> Untouched(i)
    }

    /** The table works on the surface of the current frame, and has decoded what it was given. */
    ghost predicate CurrentOk()
      requires currentImage < |ids|
      reads this, ids[currentImage].surface, TableRepr()
    {
      if table == null then Untouched(currentImage)
      else
        var id := ids[currentImage];
        && table.dest == id.surface && table.frame == id.frame && table.Valid()
        && table.initial == Blank(id.surface.Length, background)
        && Startable(file, id.fileOffset) && position <= |file|
        && LeadsTo(table.state, Data(file, position), Decoded(file, id.fileOffset))
    }

    /** Counted as the composer counts them, the frames before the current one are complete. */
    ghost predicate FramesOk()
      reads this, Surfaces()
    {
      SurfacesOk() && currentImage <= |ids| && frameLoading == currentImage && OthersOk(currentImage)
    }

    ghost predicate Valid()
      reads this, Surfaces(), TableRepr()
    {
      FramesOk() && currentImage < |ids| && CurrentOk()
    }

    constructor (file: File, ids: seq<Descriptor>, background: Byte)
      requires forall i :: 0 <= i < |ids| ==> ids[i].frame.FitsIn(ids[i].surface.Length)
      requires forall i, j :: 0 <= i < j < |ids| ==> ids[i].surface != ids[j].surface
      requires forall i :: 0 <= i < |ids| ==> ids[i].surface[..] == Blank(ids[i].surface.Length, background)
      ensures FramesOk() && (ids != [] ==> Valid()) && this.file == file && this.ids == ids
              && this.background == background
      ensures currentImage == 0 && table == null
    {
      this.file, this.ids, this.background := file, ids, background;
      position, currentImage, table, frameLoading := 0, 0, null, 0;
    }

    /** Sets up the table of the current frame. */
    method StartFrame() returns (status: LoadStatus)
      requires currentImage < |ids| && CurrentOk() && table == null
      requires ids[currentImage].frame.FitsIn(ids[currentImage].surface.Length)
      modifies this`position, this`table
      ensures CurrentOk() && fresh(TableRepr())
      ensures status in {Loading, LoadStatus.Failed, Threw}
      ensures status == Loading <==> Startable(file, ids[currentImage].fileOffset)
      ensures status == Loading <==> table != null
      ensures status == LoadStatus.Failed <==>
                ids[currentImage].fileOffset < |file| && file[ids[currentImage].fileOffset] > MAX_CODE_SIZE
    {
      var id := ids[currentImage];
      if id.fileOffset >= |file| {
        return Threw;
      }
      var codeSize := file[id.fileOffset];
      position := id.fileOffset + 1;
      if codeSize > MAX_CODE_SIZE {
        return LoadStatus.Failed;
      }
      if codeSize == MAX_CODE_SIZE {
        return Threw;
      }
      NewTable();
      return Loading;
    }

    method NewTable()
      requires currentImage < |ids| && CurrentOk() && table == null
      requires ids[currentImage].frame.FitsIn(ids[currentImage].surface.Length)
      requires Startable(file, ids[currentImage].fileOffset) && position == ids[currentImage].fileOffset + 1
      modifies this`table
      ensures CurrentOk() && table != null && fresh(TableRepr())
    {
      var id := ids[currentImage];
      StartLeadsTo(file, id.fileOffset);
      table := new StringTable(id.frame, id.surface, file[id.fileOffset]);
    }

    /** Hands the next sub-block to the table. */
    method LoadChunk() returns (status: LoadStatus)
      requires currentImage < |ids| && CurrentOk() && table != null
      modifies this`position, TableRepr(), ids[currentImage].surface
      ensures status in {Loading, Finished, Threw}
      ensures status == Loading ==> CurrentOk() && old(position) < position <= |file|
      ensures status != Loading ==> Shown(currentImage)
      ensures old(position) == |file| ==> status == Threw
      ensures old(position) < |file| && file[old(position)] == 0 ==> status == Finished
    {
      ghost var id := ids[currentImage];
      if position == |file| {
        NothingLeft(table.state, Decoded(file, id.fileOffset));
        return Threw;
      }
      var left := file[position];
      if left == 0 {
        NothingLeft(table.state, Decoded(file, id.fileOffset));
        position := position + 1;
        return Finished;
      }
      status := DecodeChunk(left);
    }

    method DecodeChunk(left: nat) returns (status: LoadStatus)
      requires currentImage < |ids| && CurrentOk() && table != null
      requires position < |file| && left == file[position] > 0
      modifies this`position, TableRepr(), ids[currentImage].surface
      ensures status in {Loading, Finished, Threw}
      ensures status == Loading ==> CurrentOk() && old(position) < position <= |file|
      ensures status != Loading ==> Shown(currentImage)
    {
      var chunk := Chunk(file, position);
      position := position + 1 + |chunk|;
      ghost var goal := Decoded(file, ids[currentImage].fileOffset);
      ChunkThenRest(file, old(position), position);
      var s := DecodePiece(chunk, Data(file, position), goal);
      if s != GoOn {
        return if s == CodecError then Threw else Finished;
      }
      if |chunk| != left {
        CroppedChunkIsLast(file, old(position), position);
        NothingLeft(table.state, goal);
        return Finished;
      }
      return Loading;
    }

    /** The bytes of one sub-block. */
    method DecodePiece(chunk: seq<Byte>, ghost rest: seq<Byte>, ghost goal: Text) returns (s: Status)
      requires table != null && table.Valid() && LeadsTo(table.state, chunk + rest, goal)
      modifies TableRepr() - {this}, table.dest
      ensures table.Valid()
      ensures if s == GoOn then LeadsTo(table.state, rest, goal) else table.state.out == goal
    {
      PieceLeadsOn(table.state, chunk, rest, goal);
      s := table.Decompress(chunk);
    }

    /** The same; the other frames stay as they are. */
    method LoadChunkAlone() returns (status: LoadStatus)
      requires Valid() && table != null
      modifies this`position, TableRepr(), ids[currentImage].surface
      ensures status in {Loading, Finished, Threw}
      ensures status == Loading ==> CurrentOk() && old(position) < position <= |file|
      ensures status != Loading ==> Shown(currentImage)
      ensures FramesOk()
    {
      assert TableRepr() !! OtherSurfaces(currentImage);
      assert ids[currentImage].surface !in OtherSurfaces(currentImage);
      status := LoadChunk();
    }

    /** The next frame becomes the current one, and the composer is told. */
    method FinishFrame()
      requires FramesOk() && currentImage < |ids| && Shown(currentImage)
      modifies this`table, this`currentImage, this`frameLoading
      ensures currentImage == old(currentImage) + 1 && table == null && FramesOk()
      ensures currentImage < |ids| ==> Valid()
    {
      table := null;
      currentImage := currentImage + 1;
      frameLoading := currentImage;
    }

    /** Loads until all frames are there, the abort flag is seen, or something is wrong with the file. */
    method LoadImageData(abort: nat -> bool) returns (status: LoadStatus)
      requires Valid()
      modifies this`position, this`currentImage, this`table, this`frameLoading, TableRepr(), Surfaces()
      ensures status in {Finished, LoadStatus.Failed, Aborted, Threw}
      ensures FramesOk() && old(currentImage) <= currentImage
      ensures status == Finished <==> currentImage == |ids|
      ensures status == Aborted ==> Valid() && exists i: nat :: abort(i)
      ensures status == LoadStatus.Failed ==>
                var o := ids[currentImage].fileOffset; o < |file| && file[o] > MAX_CODE_SIZE
      ensures status == Threw ==>
                if table != null then Shown(currentImage) else !Startable(file, ids[currentImage].fileOffset)
    {
      var turn := 0;
      while !abort(turn)
        modifies this`position, this`currentImage, this`table, this`frameLoading, TableRepr(), Surfaces()
        invariant Valid() && old(currentImage) <= currentImage
        invariant TableRepr() <= old(TableRepr()) || fresh(TableRepr())
        decreases |ids| - currentImage, if table == null then |file| + 1 else |file| - position
      {
        status := Turn();
        if status != Loading {
          return;
        }
        turn := turn + 1;
      }
      return Aborted;
    }

    /** One turn of the loop. */
    method Turn() returns (status: LoadStatus)
      requires Valid()
      modifies this`position, this`currentImage, this`table, this`frameLoading, TableRepr(), Surfaces()
      ensures TableRepr() <= old(TableRepr()) || fresh(TableRepr())
      ensures status in {Loading, Finished, LoadStatus.Failed, Threw}
      ensures FramesOk() && old(currentImage) <= currentImage
      ensures status == Loading ==> Valid()
      ensures status == Loading && currentImage == old(currentImage) ==>
                table != null && position <= |file| && (old(table) != null ==> position > old(position))
      ensures status == Finished <==> currentImage == |ids|
      ensures status == LoadStatus.Failed ==>
                var o := ids[currentImage].fileOffset; o < |file| && file[o] > MAX_CODE_SIZE
      ensures status == Threw ==>
                if table != null then Shown(currentImage) else !Startable(file, ids[currentImage].fileOffset)
    {
      if table == null {
        status := StartFrame();
        if status != Loading {
          return;
        }
      }
      status := NextChunk();
    }

    /** The next sub-block, and the next frame if that was the last one. */
    method NextChunk() returns (status: LoadStatus)
      requires Valid() && table != null
      modifies this`position, this`currentImage, this`table, this`frameLoading, TableRepr(), ids[currentImage].surface
      ensures table == null || (table == old(table) && TableRepr() == old(TableRepr()))
      ensures status in {Loading, Finished, Threw}
      ensures FramesOk() && old(currentImage) <= currentImage
      ensures status == Loading ==> Valid()
      ensures status == Loading && currentImage == old(currentImage) ==>
                table != null && old(position) < position <= |file|
      ensures status == Finished <==> currentImage == |ids|
      ensures status == Threw ==> table != null && Shown(currentImage)
    {
      status := LoadChunkAlone();
      if status == Finished {
        FinishFrame();
        status := if currentImage == |ids| then Finished else Loading;
      }
    }
  }

  /**
   A frame readably encoded by Appendix F and cut into sub-blocks anywhere is shown as it was: pixel c of the r-th
   line in writing order ends up at column c of the r-th row of that order.
   */
  lemma EncodedFrameIsShown(file: File, id: Descriptor, background: Byte, p: Text, clears: nat -> nat,
                            padding: seq<Bit>)
    requires IsEncoded(file, id.fileOffset, p, clears, padding)
    requires id.frame.FitsIn(id.surface.Length) && id.frame.width > 0
    requires |p| == RowStart(id.frame.height, id.frame.width)
    ensures Decoded(file, id.fileOffset) == p
    ensures var shown := Painted(id.frame, Blank(id.surface.Length, background), p).0;
            forall r, c :: 0 <= r < |id.frame.Rows()| && 0 <= c < id.frame.width ==>
              HasPixel(id.frame, id.frame.Rows(), shown, p, r, c)
  {
    RoundTrip(file[id.fileOffset], p, clears, padding);
    FrameInPlace(id.frame, Blank(id.surface.Length, background), p);
  }

  /** The sub-blocks at `offset` hold a readable encoding of the pixels. */
  ghost predicate IsEncoded(file: File, offset: nat, p: Text, clears: nat -> nat, padding: seq<Bit>) {
    && offset < |file| && 2 <= file[offset] <= 8 && InRange(file[offset], p)
    && var ts := Encode(file[offset], p, clears);
    && BytesToBits(Data(file, offset + 1)) == TokenBits(ts) + padding
    && Readable(file[offset], ts, |padding|)
  }
}
