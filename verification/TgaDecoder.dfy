/** Decoding a run-length coded TGA into a surface, a batch of rows at a time. */
module TgaDecoder {
  import opened Common
  import opened Bits
  import opened Buffers
  import opened TgaPackets

  const ROWS_PER_BATCH: nat := 64

  type Row = seq<Pixel>

  datatype Header = Header(width: nat, height: nat, format: Format, flipVertical: bool, flipHorizontal: bool,
                           noAlpha: bool)
  {
    /** The row of the surface for a row of the file. */
    function SurfaceRow(r: nat): (s: nat)
      requires r < height
      ensures s < height
    {
      if flipVertical then height - 1 - r else r
    }

    /** What becomes of a row once it is read: mirrored and made opaque if the header says so. */
    function Treated(row: Row): Row {
      var mirrored := if flipHorizontal then Reversed(row) else row;
      if format == Bits32 && noAlpha then AllOpaque(mirrored) else mirrored
    }
  }

  /** A pixel of a row once it is mirrored and made opaque as the header says. */
  lemma TreatedAt(h: Header, row: Row, c: nat)
    requires c < |row|
    ensures var x := if h.flipHorizontal then |row| - 1 - c else c;
            && |h.Treated(row)| == |row|
            && h.Treated(row)[x] == if h.format == Bits32 && h.noAlpha then Opaque(row[c]) else row[c]
  {
  }

  /** Only the alpha of a pixel is made opaque. */
  lemma TreatedColours(f: Format, noAlpha: bool, raw: seq<Byte>)
    requires |raw| == f.Size()
    ensures ShownAs(f, noAlpha, raw, if f == Bits32 && noAlpha then Opaque(f.Stored(raw)) else f.Stored(raw))
  {
    if f == Bits32 && noAlpha {
      ColoursInMemory(Opaque(f.Stored(raw)));
    } else {
      StoredColours(f, raw);
    }
  }

  lemma RawOfPixel(h: Header, ps: seq<Packet>, rows: seq<seq<Pixel>>, r: nat, c: nat, k: nat)
    requires r < h.height && c < h.width && AllValid(h.format, ps) && k == RowStart(r, h.width) + c
    requires RowStart(h.height, h.width) <= |Expanded(h.format, ps)|
    requires rows == Cut(Expanded(h.format, ps), h.width, h.height)
    ensures |rows[r]| == h.width && k < |RawsOf(ps)| && |RawsOf(ps)[k]| == h.format.Size()
    ensures rows[r][c] == h.format.Stored(RawsOf(ps)[k])
  {
    ExpandedLength(h.format, ps);
    CutLength(Expanded(h.format, ps), h.width, h.height, r);
    ExpandedAt(h.format, ps, k);
  }

  lemma PixelOfRow(buffer: seq<Pixel>, g: Region, s: nat, row: Row, x: nat)
    requires g.FitsIn(|buffer|) && s < g.height && x < g.width && HoldsRow(buffer, g, s, row)
    ensures g.At(s) + x < |buffer| && |row| == g.width && buffer[g.At(s) + x] == row[x]
  {
    g.RowFits(s, |buffer|);
  }

  /** Column c of row r in the file: where the flips of the header put it, it has the colours it has in the file. */
  ghost predicate ColoursShown(h: Header, buffer: seq<Pixel>, g: Region, raws: seq<seq<Byte>>, r: nat, c: nat)
    requires r < h.height && c < h.width
  {
    var s := if h.flipVertical then h.height - 1 - r else r;
    var x := if h.flipHorizontal then h.width - 1 - c else c;
    var i, k := g.At(s) + x, RowStart(r, h.width) + c;
    && i < |buffer| && k < |raws| && |raws[k]| == h.format.Size()
    && ShownAs(h.format, h.noAlpha, raws[k], buffer[i])
  }

  lemma PixelShown(h: Header, buffer: seq<Pixel>, g: Region, row: Row, raws: seq<seq<Byte>>, r: nat, c: nat, k: nat)
    requires r < h.height == g.height && c < h.width == g.width == |row| && g.FitsIn(|buffer|)
    requires HoldsRow(buffer, g, h.SurfaceRow(r), h.Treated(row)) && k == RowStart(r, h.width) + c
    requires k < |raws| && |raws[k]| == h.format.Size() && row[c] == h.format.Stored(raws[k])
    ensures ColoursShown(h, buffer, g, raws, r, c)
  {
    TreatedAt(h, row, c);
    TreatedColours(h.format, h.noAlpha, raws[k]);
    PixelOfRow(buffer, g, h.SurfaceRow(r), h.Treated(row), if h.flipHorizontal then h.width - 1 - c else c);
  }

  lemma AllColoursShown(h: Header, buffer: seq<Pixel>, g: Region, ps: seq<Packet>, rows: seq<seq<Pixel>>)
    requires h.height == g.height && h.width == g.width && g.FitsIn(|buffer|) && AllValid(h.format, ps)
    requires RowStart(h.height, h.width) <= |Expanded(h.format, ps)|
    requires rows == Cut(Expanded(h.format, ps), h.width, h.height)
    requires forall r :: 0 <= r < h.height ==>
               |rows[r]| == h.width && HoldsRow(buffer, g, h.SurfaceRow(r), h.Treated(rows[r]))
    ensures forall r, c :: 0 <= r < h.height && 0 <= c < h.width ==> ColoursShown(h, buffer, g, RawsOf(ps), r, c)
  {
    forall r, c | 0 <= r < h.height && 0 <= c < h.width
      ensures ColoursShown(h, buffer, g, RawsOf(ps), r, c)
    {
      RawOfPixel(h, ps, rows, r, c, RowStart(r, h.width) + c);
      PixelShown(h, buffer, g, rows[r], RawsOf(ps), r, c, RowStart(r, h.width) + c);
    }
  }

  function Opaque(p: Pixel): Pixel { if |p| == 4 then p[3 := 255] else p }

  function AllOpaque(row: Row): (r: Row)
    ensures |r| == |row|
  {
    seq(|row|, i requires 0 <= i < |row| => Opaque(row[i]))
  }

  /** Pixels written over the beginning of a row. */
  function Over(pixels: seq<Pixel>, row: Row): (r: Row)
    ensures |pixels| <= |row| ==> |r| == |row|
  {
    if |pixels| <= |row| then pixels + row[|pixels|..] else pixels
  }

  /** A picture, surface row by surface row, in which some rows of the file have been replaced. */
  ghost predicate Replaced(h: Header, before: seq<Row>, after: seq<Row>, first: nat, rows: seq<Row>) {
    && |before| == |after| == h.height && first + |rows| <= h.height
    && forall r :: 0 <= r < h.height ==>
         after[h.SurfaceRow(r)] == if first <= r < first + |rows| then rows[r - first] else before[h.SurfaceRow(r)]
  }

  lemma OneMoreReplaced(h: Header, before: seq<Row>, after: seq<Row>, first: nat, rows: seq<Row>, row: Row)
    requires Replaced(h, before, after, first, rows) && first + |rows| < h.height
    ensures after[h.SurfaceRow(first + |rows|)] == before[h.SurfaceRow(first + |rows|)]
    ensures Replaced(h, before, after[h.SurfaceRow(first + |rows|) := row], first, rows + [row])
  {
  }

  /** The rows of the file that a picture shows from `first` on. */
  function FileRows(h: Header, picture: seq<Row>, first: nat, count: nat): (rows: seq<Row>)
    requires |picture| == h.height && first + count <= h.height
    ensures |rows| == count
  {
    seq(count, i requires 0 <= i < count => picture[h.SurfaceRow(first + i)])
  }

  function AllOver(read: seq<seq<Pixel>>, rows: seq<Row>): (r: seq<Row>)
    requires |read| == |rows|
    ensures |r| == |rows|
  {
    seq(|rows|, i requires 0 <= i < |rows| => Over(read[i], rows[i]))
  }

  /** The rows read have been written over those of the picture. */
  ghost predicate ReadOver(h: Header, before: seq<Row>, after: seq<Row>, first: nat, read: seq<seq<Pixel>>) {
    && |before| == h.height && first + |read| <= h.height
    && Replaced(h, before, after, first, AllOver(read, FileRows(h, before, first, |read|)))
  }

  lemma OneMoreRead(h: Header, before: seq<Row>, after: seq<Row>, first: nat, read: seq<seq<Pixel>>, pixels: seq<Pixel>)
    requires ReadOver(h, before, after, first, read) && first + |read| < h.height
    ensures var s := h.SurfaceRow(first + |read|);
            ReadOver(h, before, after[s := Over(pixels, after[s])], first, read + [pixels])
  {
    var s := h.SurfaceRow(first + |read|);
    var rows := AllOver(read, FileRows(h, before, first, |read|));
    OneMoreReplaced(h, before, after, first, rows, Over(pixels, after[s]));
    assert rows + [Over(pixels, after[s])] == AllOver(read + [pixels], FileRows(h, before, first, |read| + 1));
  }

  lemma NothingMoreRead(h: Header, before: seq<Row>, after: seq<Row>, first: nat, read: seq<seq<Pixel>>, count: nat)
    requires ReadOver(h, before, after, first, read) && first + |read| + count <= h.height
    ensures ReadOver(h, before, after, first, read + Repeat([], count))
  {
    var all := AllOver(read + Repeat([], count), FileRows(h, before, first, |read| + count));
    forall r | 0 <= r < h.height
      ensures after[h.SurfaceRow(r)] == if first <= r < first + |all| then all[r - first] else before[h.SurfaceRow(r)]
    {
      if first <= r < first + |read| {
        assert all[r - first] == AllOver(read, FileRows(h, before, first, |read|))[r - first];
      } else if first <= r < first + |all| {
        assert all[r - first] == Over([], before[h.SurfaceRow(r)]);
      }
    }
  }

  lemma BatchEnds(h: Header, r: Reader, before: seq<Row>, after: seq<Row>, first: nat, w: Rows, y: nat, count: nat)
    requires w == RowsOf(h.format, r, h.width, y) && y <= count && first + count <= h.height
             && (w.stopped || y == count)
    requires ReadOver(h, before, after, first, w.rows)
    ensures var all := RowsOf(h.format, r, h.width, count);
            all.reader == w.reader && all.stopped == w.stopped && ReadOver(h, before, after, first, all.rows)
  {
    var all := RowsOf(h.format, r, h.width, count);
    RowsWhenStopped(h.format, r, h.width, y, count);
    NoRowsMore(h, before, after, first, w, all, count - y);
  }

  lemma RowsWhenStopped(f: Format, r: Reader, width: nat, y: nat, count: nat)
    requires y <= count && (RowsOf(f, r, width, y).stopped || y == count)
    ensures var w := RowsOf(f, r, width, y);
            RowsOf(f, r, width, count) == w.(rows := w.rows + Repeat([], count - y))
  {
    RowsAfterStop(f, r, width, y, count - y);
    assert y + (count - y) == count;
  }

  lemma NoRowsMore(h: Header, before: seq<Row>, after: seq<Row>, first: nat, w: Rows, all: Rows, n: nat)
    requires ReadOver(h, before, after, first, w.rows) && first + |w.rows| + n <= h.height
    requires all == w.(rows := w.rows + Repeat([], n))
    ensures all.reader == w.reader && all.stopped == w.stopped && ReadOver(h, before, after, first, all.rows)
  {
    NothingMoreRead(h, before, after, first, w.rows, n);
  }

  /** A function applied to each row. */
  function Mapped(f: Row -> Row, rows: seq<Row>): (r: seq<Row>)
    ensures |r| == |rows| && forall i :: 0 <= i < |rows| ==> r[i] == f(rows[i])
  {
    seq(|rows|, i requires 0 <= i < |rows| => f(rows[i]))
  }

  lemma OneMoreMapped(h: Header, before: seq<Row>, after: seq<Row>, first: nat, y: nat, f: Row -> Row)
    requires |before| == h.height && first + y < h.height
    requires Replaced(h, before, after, first, Mapped(f, FileRows(h, before, first, y)))
    ensures var s := h.SurfaceRow(first + y);
            Replaced(h, before, after[s := f(after[s])], first, Mapped(f, FileRows(h, before, first, y + 1)))
  {
    var s := h.SurfaceRow(first + y);
    var rows := Mapped(f, FileRows(h, before, first, y));
    OneMoreReplaced(h, before, after, first, rows, f(after[s]));
    assert rows + [f(after[s])] == Mapped(f, FileRows(h, before, first, y + 1));
  }

  lemma NothingMapped(h: Header, picture: seq<Row>, first: nat, count: nat)
    requires |picture| == h.height && first + count <= h.height
    ensures Replaced(h, picture, picture, first, FileRows(h, picture, first, count))
  {
  }

  /** Mirroring first and the alpha afterwards is the treatment of the header. */
  lemma TreatedInTwo(h: Header, a: seq<Row>, b: seq<Row>, c: seq<Row>, first: nat, count: nat)
    requires |a| == |b| == |c| == h.height && first + count <= h.height
    requires if h.flipHorizontal then Replaced(h, a, b, first, Mapped(Reversed, FileRows(h, a, first, count)))
             else b == a
    requires if h.format == Bits32 && h.noAlpha
             then Replaced(h, b, c, first, Mapped(AllOpaque, FileRows(h, b, first, count)))
             else c == b
    ensures Replaced(h, a, c, first, Mapped(h.Treated, FileRows(h, a, first, count)))
  {
    var rows := Mapped(h.Treated, FileRows(h, a, first, count));
    forall r | 0 <= r < h.height
      ensures c[h.SurfaceRow(r)] == if first <= r < first + count then rows[r - first] else a[h.SurfaceRow(r)]
    {
      if first <= r < first + count {
        assert FileRows(h, a, first, count)[r - first] == a[h.SurfaceRow(r)];
        assert FileRows(h, b, first, count)[r - first] == b[h.SurfaceRow(r)];
      }
    }
  }

  /** What the rows of the file look like on the surface, given what was there. */
  function OnSurface(h: Header, initial: seq<Row>, read: seq<seq<Pixel>>): (rows: seq<Row>)
    requires |initial| == h.height && |read| <= h.height
    ensures |rows| == |read|
  {
    Mapped(h.Treated, AllOver(read, FileRows(h, initial, 0, |read|)))
  }

  lemma BatchTreated(h: Header, initial: seq<Row>, before: seq<Row>, read: seq<Row>, after: seq<Row>,
                     rows: seq<seq<Pixel>>, more: seq<seq<Pixel>>)
    requires |initial| == h.height && |rows| + |more| <= h.height
    requires Replaced(h, initial, before, 0, OnSurface(h, initial, rows))
    requires ReadOver(h, before, read, |rows|, more)
    requires |read| == h.height
             && Replaced(h, read, after, |rows|, Mapped(h.Treated, FileRows(h, read, |rows|, |more|)))
    ensures Replaced(h, initial, after, 0, OnSurface(h, initial, rows + more))
  {
    var all := OnSurface(h, initial, rows + more);
    forall r | 0 <= r < h.height
      ensures after[h.SurfaceRow(r)] == if r < |all| then all[r] else initial[h.SurfaceRow(r)]
    {
      if r < |rows| {
        RowOnSurface(h, initial, rows, r);
        RowOnSurface(h, initial, rows + more, r);
      } else if r < |all| {
        NewRowTreated(h, initial, before, read, after, rows, more, r);
      }
    }
  }

  lemma RowOnSurface(h: Header, initial: seq<Row>, rows: seq<seq<Pixel>>, r: nat)
    requires |initial| == h.height && r < |rows| <= h.height
    ensures OnSurface(h, initial, rows)[r] == h.Treated(Over(rows[r], initial[h.SurfaceRow(r)]))
  {
  }

  lemma NewRowTreated(h: Header, initial: seq<Row>, before: seq<Row>, read: seq<Row>, after: seq<Row>,
                      rows: seq<seq<Pixel>>, more: seq<seq<Pixel>>, r: nat)
    requires |initial| == h.height && |rows| + |more| <= h.height && |rows| <= r < |rows| + |more|
    requires Replaced(h, initial, before, 0, OnSurface(h, initial, rows))
    requires ReadOver(h, before, read, |rows|, more)
    requires |read| == h.height
             && Replaced(h, read, after, |rows|, Mapped(h.Treated, FileRows(h, read, |rows|, |more|)))
    ensures after[h.SurfaceRow(r)] == OnSurface(h, initial, rows + more)[r]
  {
    ReplacedRow(h, initial, before, 0, OnSurface(h, initial, rows), r);
    ReadRowAt(h, before, read, |rows|, more, r);
    TreatedRowAt(h, read, after, |rows|, |more|, r);
    RowOnSurface(h, initial, rows + more, r);
  }

  lemma FileRowAt(h: Header, picture: seq<Row>, first: nat, count: nat, r: nat, k: nat)
    requires |picture| == h.height && first + count <= h.height && first <= r < first + count && r == first + k
    ensures FileRows(h, picture, first, count)[k] == picture[h.SurfaceRow(r)]
  {
  }

  lemma ReadRowAt(h: Header, before: seq<Row>, read: seq<Row>, first: nat, more: seq<seq<Pixel>>, r: nat)
    requires ReadOver(h, before, read, first, more) && first <= r < first + |more|
    ensures read[h.SurfaceRow(r)] == Over(more[r - first], before[h.SurfaceRow(r)])
  {
    ReplacedRow(h, before, read, first, AllOver(more, FileRows(h, before, first, |more|)), r);
    FileRowAt(h, before, first, |more|, r, r - first);
  }

  lemma TreatedRowAt(h: Header, read: seq<Row>, after: seq<Row>, first: nat, count: nat, r: nat)
    requires |read| == h.height && first + count <= h.height && first <= r < first + count
    requires Replaced(h, read, after, first, Mapped(h.Treated, FileRows(h, read, first, count)))
    ensures after[h.SurfaceRow(r)] == h.Treated(read[h.SurfaceRow(r)])
  {
    ReplacedRow(h, read, after, first, Mapped(h.Treated, FileRows(h, read, first, count)), r);
    FileRowAt(h, read, first, count, r, r - first);
  }

  lemma ReplacedRow(h: Header, before: seq<Row>, after: seq<Row>, first: nat, rows: seq<Row>, r: nat)
    requires Replaced(h, before, after, first, rows) && r < h.height
    ensures after[h.SurfaceRow(r)] == if first <= r < first + |rows| then rows[r - first] else before[h.SurfaceRow(r)]
  {
  }

  class CodecTgaRleDecoder {
    const header: Header
    // The surface, row by row.
    const dest: array<Pixel>
    const region: Region
    var currentScanline: nat
    var numRlePixels: nat
    var isRleBlock: bool
    var pix: Pixel
    var stream: seq<Byte>

    // Rows of the file decoded so far, the surface before them, and the surface now, row by row.
    ghost var rows: seq<seq<Pixel>>
    ghost const source: seq<Byte>
    ghost const initial: Row
    ghost const initialPicture: seq<Row>
    ghost var picture: seq<Row>

    constructor (header: Header, dest: array<Pixel>, region: Region, stream: seq<Byte>, ghost picture: seq<Row>)
      requires region.width == header.width && region.height == header.height && region.FitsIn(dest.Length)
      requires Holds(dest[..], region, picture)
      ensures Valid() && State() == Start(stream) && rows == [] && initial == dest[..] && initialPicture == picture
      ensures this.header == header && this.dest == dest && this.region == region && source == stream && Decoded(false)
    {
      this.header, this.dest, this.region, this.stream := header, dest, region, stream;
      numRlePixels, pix, isRleBlock := 0, [255, 255, 255, 255], false;
      currentScanline := if header.flipVertical then header.height else 0;
      rows, initial, initialPicture, this.picture, source := [], dest[..], picture, picture, stream;
    }

    /** What is decoded is on the surface, mirrored as the header says; what is not yet is as it was. */
    ghost predicate Valid()
      reads this, dest
    {
      && |rows| <= header.height && currentScanline == (if header.flipVertical then header.height - |rows| else |rows|)
      && Shows(initial, picture) && Holds(initial, region, initialPicture)
      && Replaced(header, initialPicture, picture, 0, OnSurface(header, initialPicture, rows))
    }

    ghost function State(): Reader
      reads this
    {
      Reader(numRlePixels, isRleBlock, pix, stream)
    }

    /** Copies the run's pixel. */
    method PutRun(at: nat, count: nat)
      requires at + count <= dest.Length
      modifies dest
      ensures dest[..] == Patched(old(dest[..]), at, Repeat(pix, count))
    {
      for i := 0 to count
        invariant dest[..] == Patched(old(dest[..]), at, Repeat(pix, i))
      {
        ghost var before := old(dest[..]);
        PatchedOn(before, at, Repeat(pix, i), [pix]);
        assert Repeat(pix, i) + [pix] == Repeat(pix, i + 1);
        dest[at + i] := pix;
        assert dest[..] == Patched(Patched(before, at, Repeat(pix, i)), at + i, [pix]);
      }
      assert dest[..] == Patched(old(dest[..]), at, Repeat(pix, count));
    }

    method ReadPixel() returns (p: Pixel)
      requires |stream| >= header.format.Size()
      modifies this`stream
      ensures p == header.format.Stored(old(stream)[..header.format.Size()])
      ensures stream == old(stream)[header.format.Size()..]
    {
      p := header.format.Stored(stream[..header.format.Size()]);
      stream := stream[header.format.Size()..];
    }

    method PutLiterals(at: nat, count: nat)
      requires at + count <= dest.Length && |stream| >= Length(count, header.format.Size())
      modifies dest, this`stream
      ensures var (pixels, rest) := ReadMany(header.format, old(stream), count);
              dest[..] == Patched(old(dest[..]), at, pixels) && stream == rest
    {
      ghost var before, all := dest[..], ReadMany(header.format, stream, count);
      ghost var done: seq<Pixel> := [];
      assert dest[..] == Patched(before, at, []) && [] + all.0 == all.0;
      for i := 0 to count
        invariant |done| == i && Reading(all, done, count - i)
        invariant dest[..] == Patched(before, at, done)
      {
        done := PutLiteral(at + i, count - i, before, at, all, done);
      }
      assert done + [] == done;
    }

    /** What is read already, and what the stream still holds, are all the literal pixels. */
    ghost predicate Reading(all: (seq<Pixel>, seq<Byte>), done: seq<Pixel>, count: nat)
      reads this
    {
      |stream| >= Length(count, header.format.Size())
      && var (left, rest) := ReadMany(header.format, stream, count); all == (done + left, rest)
    }

    method PutLiteral(place: nat, count: nat, ghost before: Row, ghost at: nat, ghost all: (seq<Pixel>, seq<Byte>),
                      ghost done: seq<Pixel>) returns (ghost more: seq<Pixel>)
      requires count > 0 && Reading(all, done, count) && place == at + |done| && place < dest.Length == |before|
      requires dest[..] == Patched(before, at, done)
      modifies dest, this`stream
      ensures |more| == |done| + 1 && Reading(all, more, count - 1) && dest[..] == Patched(before, at, more)
    {
      var p := ReadPixel();
      PatchedOn(before, at, done, [p]);
      dest[place] := p;
      assert dest[..] == Patched(Patched(before, at, done), place, [p]);
      ConcatAssociates(done, [p], ReadMany(header.format, stream, count - 1).0);
      more := done + [p];
    }

    /** The header of the next packet, and the pixel of a run. */
    method ReadHeader()
      requires |stream| >= 1 + header.format.Size()
      modifies this`numRlePixels, this`isRleBlock, this`pix, this`stream
      ensures State() == TgaPackets.Header(header.format, old(State()))
    {
      var repField := stream[0];
      stream := stream[1..];
      isRleBlock := repField >= 128;
      numRlePixels := (if isRleBlock then repField - 128 else repField) + 1;
      if isRleBlock {
        ghost var bytes, size := stream, header.format.Size();
        pix := ReadPixel();
      }
    }

    /** With these pixels and what the reader still fills, the goal is reached. */
    ghost predicate Filling(goal: Filled, done: seq<Pixel>, wanted: nat)
      reads this
    {
      forall w | w == Fill(header.format, State(), wanted) :: Prefixed(done, w) == goal
    }

    /** One row of the file, as far as the file goes. */
    method DecodeRow(at: nat) returns (stopped: bool)
      requires at + header.width <= dest.Length
      modifies dest, this`numRlePixels, this`isRleBlock, this`pix, this`stream
      ensures var w := Fill(header.format, old(State()), header.width);
              dest[..] == Patched(old(dest[..]), at, w.pixels) && State() == w.reader && stopped == w.stopped
    {
      var currX := 0;
      ghost var before, goal := dest[..], Fill(header.format, State(), header.width);
      ghost var done: seq<Pixel> := [];
      NothingDone(at, goal);
      stopped := false;
      while currX < header.width && !stopped
        modifies dest, this`numRlePixels, this`isRleBlock, this`pix, this`stream
        invariant |done| == currX <= header.width && dest[..] == Patched(before, at, done)
        invariant if stopped then goal == Filled(done, State(), true) else Filling(goal, done, header.width - currX)
        decreases header.width - currX, !stopped
      {
        stopped, currX, done := NextPixels(at, currX, before, goal, done);
      }
      if !stopped {
        NothingWanted(goal, done, header.width - currX);
      }
    }

    lemma NothingDone(at: nat, goal: Filled)
      requires at <= dest.Length
      ensures dest[..] == Patched(dest[..], at, [])
      ensures goal == Fill(header.format, State(), header.width) ==> Filling(goal, [], header.width)
    {
      assert [] + goal.pixels == goal.pixels;
    }

    lemma NothingWanted(goal: Filled, done: seq<Pixel>, wanted: nat)
      requires Filling(goal, done, wanted) && wanted == 0
      ensures goal == Filled(done, State(), false)
    {
      assert Prefixed(done, Fill(header.format, State(), wanted)) == goal;
      assert done + [] == done;
    }

    /** The rest of the current packet, or of the next one if there is none. */
    method NextPixels(at: nat, currX: nat, ghost before: Row, ghost goal: Filled, ghost done: seq<Pixel>)
      returns (stopped: bool, nextX: nat, ghost more: seq<Pixel>)
      requires |done| == currX < header.width && at + header.width <= dest.Length == |before|
      requires dest[..] == Patched(before, at, done) && Filling(goal, done, header.width - currX)
      modifies dest, this`numRlePixels, this`isRleBlock, this`pix, this`stream
      ensures |more| == nextX <= header.width && dest[..] == Patched(before, at, more)
      ensures if stopped then more == done && goal == Filled(more, State(), true)
              else nextX > currX && Filling(goal, more, header.width - nextX)
    {
      var wanted := header.width - currX;
      assert Prefixed(done, Fill(header.format, State(), wanted)) == goal;
      stopped := NextPacket(wanted, goal, done);
      if stopped {
        return true, currX, done;
      }
      var n;
      stopped, n, more := TakePixels(at + currX, wanted, at, before, goal, done);
      nextX := currX + n;
    }

    /** Writes what the packet has for the row behind what is done. */
    method TakePixels(place: nat, wanted: nat, ghost at: nat, ghost before: Row, ghost goal: Filled,
                      ghost done: seq<Pixel>)
      returns (stopped: bool, n: nat, ghost more: seq<Pixel>)
      requires numRlePixels > 0 && wanted > 0 && place == at + |done| && place + wanted <= dest.Length == |before|
      requires dest[..] == Patched(before, at, done) && goal == Prefixed(done, Transfer(header.format, State(), wanted))
      modifies dest, this`numRlePixels, this`stream
      ensures n <= wanted && |more| == |done| + n && dest[..] == Patched(before, at, more)
      ensures if stopped then n == 0 && more == done && goal == Filled(more, State(), true)
              else n > 0 && Filling(goal, more, wanted - n)
    {
      ghost var taken;
      stopped, n, taken := TransferPixels(place, wanted);
      if stopped {
        assert done + [] == done;
        return true, 0, done;
      }
      PatchedOn(before, at, done, taken);
      PrefixedTwice(done, taken, Fill(header.format, State(), wanted - n));
      more := done + taken;
    }

    /** Reads a header if there is nothing left of the current packet. */
    method NextPacket(wanted: nat, ghost goal: Filled, ghost done: seq<Pixel>) returns (stopped: bool)
      requires wanted > 0 && goal == Prefixed(done, Fill(header.format, State(), wanted))
      modifies this`numRlePixels, this`isRleBlock, this`pix, this`stream
      ensures stopped ==> goal == Filled(done, State(), true)
      ensures !stopped ==> numRlePixels > 0 && goal == Prefixed(done, Transfer(header.format, State(), wanted))
    {
      if numRlePixels == 0 {
        if |stream| < 1 + header.format.Size() {
          assert done + [] == done;
          return true;
        }
        ReadHeader();
      }
      return false;
    }

    /** As many pixels as the packet has, or the row wants. */
    method TransferPixels(at: nat, wanted: nat) returns (stopped: bool, n: nat, ghost taken: seq<Pixel>)
      requires numRlePixels > 0 && wanted > 0 && at + wanted <= dest.Length
      modifies dest, this`numRlePixels, this`stream
      ensures stopped ==>
                Transfer(header.format, old(State()), wanted) == Filled([], State(), true) && dest[..] == old(dest[..])
      ensures !stopped ==>
                && |taken| == n == Min(wanted, old(numRlePixels))
                && dest[..] == Patched(old(dest[..]), at, taken)
                && Transfer(header.format, old(State()), wanted)
                   == Prefixed(taken, Fill(header.format, State(), wanted - |taken|))
    {
      n := Min(wanted, numRlePixels);
      numRlePixels := numRlePixels - n;
      if isRleBlock {
        taken := Repeat(pix, n);
        PutRun(at, n);
      } else {
        if |stream| < Length(n, header.format.Size()) {
          return true, n, [];
        }
        taken := ReadMany(header.format, stream, n).0;
        PutLiterals(at, n);
      }
      stopped := false;
    }

    /** Sets the alpha of every pixel of one row. */
    method ResetAlpha(at: nat)
      requires at + header.width <= dest.Length
      modifies dest
      ensures dest[..] == Patched(old(dest[..]), at, AllOpaque(old(dest[..])[at..at + header.width]))
    {
      ghost var before := dest[..];
      ghost var row := before[at..at + header.width];
      ghost var t := row;
      assert dest[..] == Patched(before, at, t);
      for x := 0 to header.width
        invariant |t| == header.width && dest[..] == Patched(before, at, t)
        invariant forall k :: 0 <= k < header.width ==> t[k] == if k < x then Opaque(row[k]) else row[k]
      {
        PatchedAt(before, at, t, x, Opaque(t[x]));
        dest[at + x] := Opaque(dest[at + x]);
        t := t[x := Opaque(t[x])];
      }
      assert t == AllOpaque(row);
    }

    /** The surface shows this picture; what lies between its rows is as it was at the beginning. */
    ghost predicate Shows(initial: Row, picture: seq<Row>)
      reads dest
    {
      && region.FitsIn(dest.Length) && region.width == header.width && region.height == header.height
      && Holds(dest[..], region, picture) && OutsideKept(initial, dest[..], region)
    }

    /** Where a row of the file lies. */
    ghost function Position(r: nat): (at: nat)
      requires r < header.height && region.FitsIn(dest.Length)
      requires region.width == header.width && region.height == header.height
      ensures at + header.width <= dest.Length
    {
      region.RowFits(header.SurfaceRow(r), dest.Length);
      region.At(header.SurfaceRow(r))
    }

    /** One row of the file has been rewritten. */
    lemma ShowsRewritten(before: Row, r: nat, row: Row)
      requires r < header.height && |row| == header.width && |before| == dest.Length && region.FitsIn(dest.Length)
      requires region.width == header.width && region.height == header.height
      requires Holds(before, region, picture) && OutsideKept(initial, before, region)
      requires dest[..] == Patched(before, Position(r), row)
      ensures Shows(initial, picture[header.SurfaceRow(r) := row])
    {
      RowRewritten(before, dest[..], region, picture, header.SurfaceRow(r), row);
    }

    /** The rows of the next batch: how many, where the first one is, and how far the next is from it. */
    method PrepareBatch(rowsToProcess: nat) returns (numRows: nat, start: nat, step: int)
      requires Valid() && |rows| < header.height && rowsToProcess > 0
      ensures numRows == Min(rowsToProcess, header.height - |rows|)
      ensures start == Position(|rows|) && step == Step()
    {
      numRows := Min(rowsToProcess, if header.flipVertical then currentScanline else header.height - currentScanline);
      if header.flipVertical {
        start := region.At(currentScanline - numRows) + RowStart(numRows - 1, region.stride);
        RowStartSum(currentScanline - numRows, numRows - 1, region.stride);
      } else {
        start := region.At(currentScanline);
      }
      step := Step();
    }

    function Step(): int {
      var stride: int := region.stride;
      if header.flipVertical then -stride else stride
    }

    lemma NextPosition(r: nat)
      requires r + 1 < header.height && region.FitsIn(dest.Length)
      requires region.width == header.width && region.height == header.height
      ensures Position(r + 1) == Position(r) + Step()
    {
    }

    /** Decodes the rows of a batch, as far as the file goes. */
    method OnProcess(ghost first: nat, numRows: nat, start: nat, step: int) returns (stopped: bool)
      requires Shows(initial, picture) && 0 < numRows && first + numRows <= header.height
      requires start == Position(first) && step == Step()
      modifies dest, this`numRlePixels, this`isRleBlock, this`pix, this`stream, this`picture
      ensures Shows(initial, picture)
      ensures ReadSoFar(first, old(picture), RowsOf(header.format, old(State()), header.width, numRows), stopped)
    {
      var at: int, y: nat := start, 0;
      ghost var r, reader, before := first, State(), picture;
      stopped := false;
      while y < numRows && !stopped
        modifies dest, this`numRlePixels, this`isRleBlock, this`pix, this`stream, this`picture
        invariant y <= numRows && InBatch(first, r, before, reader, y, at, stopped)
      {
        stopped, at, r := ProcessRow(first, r, before, reader, y, at, step);
        y := y + 1;
      }
      BatchEnded(first, r, before, reader, y, at, stopped, numRows);
    }

    ghost predicate ReadSoFar(first: nat, before: seq<Row>, w: Rows, stopped: bool)
      reads this
    {
      w.reader == State() && w.stopped == stopped && ReadOver(header, before, picture, first, w.rows)
    }

    /** The first rows of the batch are read, and row r of the file is next. */
    ghost predicate InBatch(first: nat, r: nat, before: seq<Row>, reader: Reader, y: nat, at: int, stopped: bool)
      reads this, dest
    {
      && Shows(initial, picture) && r == first + y && (r < header.height ==> at == Position(r))
      && forall w | w == RowsOf(header.format, reader, header.width, y) :: ReadSoFar(first, before, w, stopped)
    }

    lemma BatchEnded(first: nat, r: nat, before: seq<Row>, reader: Reader, y: nat, at: int, stopped: bool, numRows: nat)
      requires InBatch(first, r, before, reader, y, at, stopped)
      requires y <= numRows && first + numRows <= header.height && (stopped || y == numRows)
      ensures ReadSoFar(first, before, RowsOf(header.format, reader, header.width, numRows), stopped)
    {
      var w := RowsOf(header.format, reader, header.width, y);
      assert ReadSoFar(first, before, w, stopped);
      BatchEnds(header, reader, before, picture, first, w, y, numRows);
    }

    method ProcessRow(ghost first: nat, ghost r: nat, ghost before: seq<Row>, ghost reader: Reader, ghost y: nat,
                      at: int, step: int) returns (stopped: bool, next: int, ghost s: nat)
      requires InBatch(first, r, before, reader, y, at, false) && r < header.height && step == Step()
      modifies dest, this`numRlePixels, this`isRleBlock, this`pix, this`stream, this`picture
      ensures InBatch(first, s, before, reader, y + 1, next, stopped)
    {
      ghost var w := RowsOf(header.format, reader, header.width, y);
      assert ReadSoFar(first, before, w, false);
      ghost var row := Fill(header.format, State(), header.width);
      OneMoreRead(header, before, picture, first, w.rows, row.pixels);
      stopped := ReadRow(r, at, row);
      next, s := NextRow(r, at, step);
      RowsOfNext(header.format, reader, header.width, y, w);
      assert ReadSoFar(first, before, Rows(w.rows + [row.pixels], row.reader, row.stopped), stopped);
    }

    /** Moves on to the next row of the file, unless this is the last. */
    method NextRow(ghost r: nat, at: int, step: int) returns (next: int, ghost s: nat)
      requires r < header.height && step == Step() && region.FitsIn(dest.Length)
      requires region.width == header.width && region.height == header.height && at == Position(r)
      ensures s == r + 1 && (s < header.height ==> next == Position(s))
    {
      if r + 1 < header.height {
        NextPosition(r);
      }
      next, s := at + step, r + 1;
    }

    /** One row, read over what is there. */
    method ReadRow(ghost r: nat, at: nat, ghost row: Filled) returns (stopped: bool)
      requires r < header.height && Shows(initial, picture) && at == Position(r)
      requires row == Fill(header.format, State(), header.width)
      modifies dest, this`numRlePixels, this`isRleBlock, this`pix, this`stream, this`picture
      ensures Shows(initial, picture) && State() == row.reader && stopped == row.stopped
      ensures var s := header.SurfaceRow(r); picture == old(picture)[s := Over(row.pixels, old(picture)[s])]
    {
      ghost var before, s := dest[..], header.SurfaceRow(r);
      assert HoldsRow(before, region, s, picture[s]);
      stopped := DecodeRow(at);
      PatchedOver(before, at, row.pixels, picture[s]);
      ShowsRewritten(before, r, Over(row.pixels, picture[s]));
      picture := picture[s := Over(row.pixels, picture[s])];
    }

    /** The first rows of the batch are treated, and row r of the file is next. */
    ghost predicate InMapping(first: nat, r: nat, before: seq<Row>, y: nat, at: int, f: Row -> Row)
      reads this, dest
    {
      && Shows(initial, picture) && r == first + y <= header.height == |before|
        && (r < header.height ==> at == Position(r))
      && Replaced(header, before, picture, first, Mapped(f, FileRows(header, before, first, y)))
    }

    /** Swaps the pixels of each row of the batch end for end. */
    method FlipHorizontalBatch(ghost first: nat, numRows: nat, start: nat, step: int)
      requires Shows(initial, picture) && 0 < numRows && first + numRows <= header.height
      requires start == Position(first) && step == Step()
      modifies dest, this`picture
      ensures Shows(initial, picture)
      ensures Replaced(header, old(picture), picture, first,
                       Mapped(Reversed, FileRows(header, old(picture), first, numRows)))
    {
      var at: int, y: nat := start, 0;
      ghost var r, before := first, picture;
      while y < numRows
        modifies dest, this`picture
        invariant y <= numRows && InMapping(first, r, before, y, at, Reversed)
      {
        at, r := FlipPictureRowNext(first, r, before, y, at, step);
        y := y + 1;
      }
    }

    method FlipPictureRowNext(ghost first: nat, ghost r: nat, ghost before: seq<Row>, ghost y: nat, at: int, step: int)
      returns (next: int, ghost s: nat)
      requires InMapping(first, r, before, y, at, Reversed) && r < header.height && step == Step()
      modifies dest, this`picture
      ensures InMapping(first, s, before, y + 1, next, Reversed)
    {
      OneMoreMapped(header, before, picture, first, y, Reversed);
      FlipPictureRow(r, at);
      next, s := NextRow(r, at, step);
    }

    method FlipPictureRow(ghost r: nat, at: nat)
      requires r < header.height && Shows(initial, picture) && at == Position(r)
      modifies dest, this`picture
      ensures Shows(initial, picture)
      ensures var s := header.SurfaceRow(r); picture == old(picture)[s := Reversed(old(picture)[s])]
    {
      ghost var before, s := dest[..], header.SurfaceRow(r);
      assert HoldsRow(before, region, s, picture[s]);
      ReverseStretch(dest, at, header.width);
      ShowsRewritten(before, r, Reversed(picture[s]));
      picture := picture[s := Reversed(picture[s])];
    }

    /** Sets the alpha of all pixels of the batch. */
    method ResetAlphaBatch(ghost first: nat, numRows: nat, start: nat, step: int)
      requires Shows(initial, picture) && 0 < numRows && first + numRows <= header.height
      requires start == Position(first) && step == Step()
      modifies dest, this`picture
      ensures Shows(initial, picture)
      ensures Replaced(header, old(picture), picture, first,
                       Mapped(AllOpaque, FileRows(header, old(picture), first, numRows)))
    {
      var at: int, y: nat := start, 0;
      ghost var r, before := first, picture;
      while y < numRows
        modifies dest, this`picture
        invariant y <= numRows && InMapping(first, r, before, y, at, AllOpaque)
      {
        at, r := ResetPictureRowNext(first, r, before, y, at, step);
        y := y + 1;
      }
    }

    method ResetPictureRowNext(ghost first: nat, ghost r: nat, ghost before: seq<Row>, ghost y: nat, at: int, step: int)
      returns (next: int, ghost s: nat)
      requires InMapping(first, r, before, y, at, AllOpaque) && r < header.height && step == Step()
      modifies dest, this`picture
      ensures InMapping(first, s, before, y + 1, next, AllOpaque)
    {
      OneMoreMapped(header, before, picture, first, y, AllOpaque);
      ResetPictureRow(r, at);
      next, s := NextRow(r, at, step);
    }

    method ResetPictureRow(ghost r: nat, at: nat)
      requires r < header.height && Shows(initial, picture) && at == Position(r)
      modifies dest, this`picture
      ensures Shows(initial, picture)
      ensures var s := header.SurfaceRow(r); picture == old(picture)[s := AllOpaque(old(picture)[s])]
    {
      ghost var before, s := dest[..], header.SurfaceRow(r);
      assert HoldsRow(before, region, s, picture[s]);
      ResetAlpha(at);
      ShowsRewritten(before, r, AllOpaque(picture[s]));
      picture := picture[s := AllOpaque(picture[s])];
    }

    /** Treats the rows of the batch as the header asks, and moves on. */
    method FinalizeBatch(ghost first: nat, numRows: nat, start: nat, step: int) returns (finished: bool)
      requires Shows(initial, picture) && 0 < numRows && first + numRows <= header.height
      requires start == Position(first) && step == Step()
      requires currentScanline == if header.flipVertical then header.height - first else first
      modifies dest, this`picture, this`currentScanline
      ensures Shows(initial, picture)
      ensures Replaced(header, old(picture), picture, first,
                       Mapped(header.Treated, FileRows(header, old(picture), first, numRows)))
      ensures currentScanline == if header.flipVertical then header.height - (first + numRows) else first + numRows
      ensures finished <==> first + numRows == header.height
    {
      ghost var before := picture;
      NothingMapped(header, picture, first, numRows);
      if header.flipHorizontal {
        FlipHorizontalBatch(first, numRows, start, step);
      }
      ghost var flipped := picture;
      if header.format == Bits32 && header.noAlpha {
        ResetAlphaBatch(first, numRows, start, step);
      }
      TreatedInTwo(header, before, flipped, picture, first, numRows);
      if header.flipVertical {
        currentScanline := currentScanline - numRows;
      } else {
        currentScanline := currentScanline + numRows;
      }
      finished := if header.flipVertical then currentScanline == 0 else currentScanline == header.height;
    }

    /** Decodes the next batch. */
    method Process() returns (finished: bool)
      requires Valid() && |rows| < header.height
      modifies this`currentScanline, this`numRlePixels, this`isRleBlock, this`pix, this`stream, this`rows, this`picture,
        dest
      ensures Valid()
      ensures var w := RowsOf(header.format, old(State()), header.width,
                              Min(ROWS_PER_BATCH, header.height - |old(rows)|));
              && rows == old(rows) + w.rows && State() == w.reader
              && finished == (w.stopped || |rows| == header.height)
    {
      ghost var batch := Min(ROWS_PER_BATCH, header.height - |rows|);
      ghost var w := RowsOf(header.format, State(), header.width, batch);
      var numRows, start, step := PrepareBatch(ROWS_PER_BATCH);
      assert numRows == batch;
      finished := RunBatch(numRows, start, step, w);
    }

    method RunBatch(numRows: nat, start: nat, step: int, ghost w: Rows) returns (finished: bool)
      requires Valid() && 0 < numRows && |rows| + numRows <= header.height && start == Position(|rows|)
               && step == Step()
      requires w == RowsOf(header.format, State(), header.width, numRows)
      modifies this`currentScanline, this`numRlePixels, this`isRleBlock, this`pix, this`stream, this`rows, this`picture,
        dest
      ensures Valid()
      ensures rows == old(rows) + w.rows && State() == w.reader && finished == (w.stopped || |rows| == header.height)
    {
      ghost var first, before := |rows|, picture;
      var isFinishedProcess := OnProcess(first, numRows, start, step);
      assert ReadSoFar(first, before, w, isFinishedProcess);
      ghost var read := picture;
      var isFinishedFinalized := FinalizeBatch(first, numRows, start, step);
      BatchTreated(header, initialPicture, before, read, picture, rows, w.rows);
      rows := rows + w.rows;
      finished := isFinishedFinalized || isFinishedProcess;
    }

    /** All rows so far, read from the beginning of the data in one go. */
    ghost predicate Decoded(stopped: bool)
      reads this
    {
      RowsOf(header.format, Start(source), header.width, |rows|) == Rows(rows, State(), stopped)
    }

    /** Processes batches until the image is done, the file ends, or the abort flag is seen; it may then be resumed. */
    method LoadImageData(abort: nat -> bool) returns (finished: bool, ghost stopped: bool)
      requires Valid() && |rows| < header.height && Decoded(false)
      modifies this`currentScanline, this`numRlePixels, this`isRleBlock, this`pix, this`stream, this`rows, this`picture,
        dest
      ensures Valid() && Decoded(stopped)
      ensures finished <==> stopped || |rows| == header.height
      ensures !finished ==> exists turn: nat :: abort(turn)
    {
      var turn := 0;
      stopped := false;
      while !abort(turn)
        modifies this`currentScanline, this`numRlePixels, this`isRleBlock, this`pix, this`stream, this`rows,
          this`picture, dest
        invariant Valid() && |rows| < header.height && Decoded(false) && !stopped
        decreases header.height - |rows|
      {
        finished, stopped := NextBatch();
        if finished {
          return;
        }
        turn := turn + 1;
      }
      return false, false;
    }

    method NextBatch() returns (finished: bool, ghost stopped: bool)
      requires Valid() && |rows| < header.height && Decoded(false)
      modifies this`currentScanline, this`numRlePixels, this`isRleBlock, this`pix, this`stream, this`rows, this`picture,
        dest
      ensures Valid() && Decoded(stopped) && |rows| > |old(rows)|
      ensures finished <==> stopped || |rows| == header.height
    {
      ghost var first := Rows(rows, State(), false);
      ghost var batch := Min(ROWS_PER_BATCH, header.height - |rows|);
      stopped := RowsOf(header.format, first.reader, header.width, batch).stopped;
      finished := Process();
      RowsJoin(header.format, Start(source), header.width, |first.rows|, batch, |rows|, first);
    }

    /**
     The whole image: packets that stand for enough pixels, crossing rows and batches as they like, are shown as
     their pixels cut into rows, each row where the header has it and mirrored as the header says. Each pixel has the
     colours that its bytes in the file have.
     */
    lemma PacketsShown(ps: seq<Packet>, rest: seq<Byte>, stopped: bool)
      requires Valid() && Decoded(stopped) && (stopped || |rows| == header.height)
      requires source == Serialized(ps) + rest && AllValid(header.format, ps)
      requires |Expanded(header.format, ps)| >= RowStart(header.height, header.width)
      ensures !stopped && rows == Cut(Expanded(header.format, ps), header.width, header.height)
      ensures forall r :: 0 <= r < header.height ==>
                |rows[r]| == header.width
                && HoldsRow(dest[..], region, header.SurfaceRow(r), header.Treated(rows[r]))
      ensures forall r, c :: 0 <= r < header.height && 0 <= c < header.width ==>
                ColoursShown(header, dest[..], region, RawsOf(ps), r, c)
      ensures OutsideKept(initial, dest[..], region)
    {
      PacketRowsShown(ps, rest, stopped);
      AllColoursShown(header, dest[..], region, ps, rows);
    }

    lemma PacketRowsShown(ps: seq<Packet>, rest: seq<Byte>, stopped: bool)
      requires Valid() && Decoded(stopped) && (stopped || |rows| == header.height)
      requires source == Serialized(ps) + rest && AllValid(header.format, ps)
      requires |Expanded(header.format, ps)| >= RowStart(header.height, header.width)
      ensures !stopped && rows == Cut(Expanded(header.format, ps), header.width, header.height)
      ensures forall r :: 0 <= r < header.height ==>
                |rows[r]| == header.width
                && HoldsRow(dest[..], region, header.SurfaceRow(r), header.Treated(rows[r]))
      ensures OutsideKept(initial, dest[..], region)
    {
      var pixels := Expanded(header.format, ps);
      if |rows| < header.height {
        RowStartMonotone(|rows|, header.height, header.width);
      }
      var _, _ := RowsOfPackets(header.format, ps, rest, header.width, |rows|);
      forall r | 0 <= r < header.height
        ensures |rows[r]| == header.width && HoldsRow(dest[..], region, header.SurfaceRow(r), header.Treated(rows[r]))
      {
        CutLength(pixels, header.width, header.height, r);
        FullRowShown(r);
      }
    }

    lemma FullRowShown(r: nat)
      requires Valid() && r < |rows| && |rows[r]| == header.width
      ensures HoldsRow(dest[..], region, header.SurfaceRow(r), header.Treated(rows[r]))
    {
      var s := header.SurfaceRow(r);
      assert HoldsRow(dest[..], region, s, picture[s]);
      InitialLength(r);
      assert Over(rows[r], initialPicture[s]) == rows[r];
      assert OnSurface(header, initialPicture, rows)[r] == header.Treated(rows[r]);
    }

    lemma InitialLength(r: nat)
      requires Valid() && r < header.height
      ensures |initialPicture[header.SurfaceRow(r)]| == header.width
    {
      var s := header.SurfaceRow(r);
      assert HoldsRow(initial, region, s, initialPicture[s]);
      region.RowFits(s, |initial|);
      assert |initial[region.At(s)..region.At(s) + region.width]| == region.width;
    }
  }

  lemma PatchedOver(s: Row, at: nat, pixels: Row, row: Row)
    requires at + |row| <= |s| && |pixels| <= |row| && row == s[at..at + |row|]
    ensures Patched(s, at, pixels) == Patched(s, at, Over(pixels, row))
  {
  }

  function Min(a: nat, b: nat): nat { if a < b then a else b }

  lemma PrefixedTwice(a: seq<Pixel>, b: seq<Pixel>, w: Filled)
    ensures Prefixed(a, Prefixed(b, w)) == Prefixed(a + b, w)
  {
  }
}
