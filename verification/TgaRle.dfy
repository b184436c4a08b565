/** Run-length packets of TGA images, and reading them in pieces of any length. */
module TgaPackets {
  import opened Common
  import opened Bits
  import opened Buffers
  import opened PixelMix

  // The bytes of a pixel as they lie in memory.
  type Pixel = seq<Byte>

  /** How many bytes a pixel has in the file; 24-bit pixels are stored with a fourth, opaque one. */
  datatype Format = Bits8 | Bits16 | Bits24 | Bits32
  {
    function Size(): (n: nat)
      ensures 1 <= n <= 4
    {
      match this case Bits8 => 1 case Bits16 => 2 case Bits24 => 3 case Bits32 => 4
    }

    function Stored(bytes: seq<Byte>): Pixel { if this == Bits24 then bytes + [255] else bytes }
  }

  type Count = n: nat | 1 <= n <= 128 witness 1
  type Raws = s: seq<seq<Byte>> | 1 <= |s| <= 128 witness [[]]

  datatype Packet = Run(count: Count, raw: seq<Byte>) | Literal(raws: Raws)
  {
    ghost predicate Valid(f: Format) {
      match this
      case Run(count, raw) => |raw| == f.Size()
      case Literal(raws) => forall i :: 0 <= i < |raws| ==> |raws[i]| == f.Size()
    }
  }

  function Repeat<T>(x: T, count: nat): (r: seq<T>)
    ensures |r| == count && forall i :: 0 <= i < count ==> r[i] == x
  {
    seq(count, _ => x)
  }

  /** What the file holds. */
  function Serialized(ps: seq<Packet>): seq<Byte> {
    if ps == [] then []
    else
      (match ps[0]
       case Run(count, raw) => [127 + count] + raw
       case Literal(raws) => [|raws| - 1] + Flatten(raws))
      + Serialized(ps[1..])
  }

  function AllStored(f: Format, raws: seq<seq<Byte>>): (r: seq<Pixel>)
    ensures |r| == |raws|
  {
    seq(|raws|, i requires 0 <= i < |raws| => f.Stored(raws[i]))
  }

  /** What it stands for. */
  function Expanded(f: Format, ps: seq<Packet>): seq<Pixel> {
    if ps == [] then []
    else
      (match ps[0]
       case Run(count, raw) => Repeat(f.Stored(raw), count)
       case Literal(raws) => AllStored(f, raws))
      + Expanded(f, ps[1..])
  }

  // The colours of a pixel.

  /** Four bytes in memory, the lowest first, as a word. */
  function InMemory(p: Pixel): Word
    requires |p| == 4
  {
    ToARGB(p[3], p[2], p[1], p[0])
  }

  /** A pixel in memory has the colours of its bytes in the file: blue, green, red and, if it has any, alpha. */
  ghost predicate ShownAs(f: Format, noAlpha: bool, raw: seq<Byte>, p: Pixel)
    requires |raw| == f.Size()
  {
    match f
    case Bits24 => |p| == 4 && HasColours(InMemory(p), raw[0], raw[1], raw[2], 255)
    case Bits32 => |p| == 4 && HasColours(InMemory(p), raw[0], raw[1], raw[2], if noAlpha then 255 else raw[3])
    case Bits16 => |p| == 2 && p[0] == raw[0] && p[1] == raw[1]
    case Bits8 => |p| == 1 && p[0] == raw[0]
  }

  predicate HasColours(w: Word, blue: int, green: int, red: int, alpha: int) {
    Blue(w) == blue && Green(w) == green && Red(w) == red && Alpha(w) == alpha
  }

  lemma ColoursInMemory(p: Pixel)
    requires |p| == 4
    ensures HasColours(InMemory(p), p[0], p[1], p[2], p[3])
  {
    ChannelsOf(p[3], p[2], p[1], p[0]);
  }

  lemma StoredColours(f: Format, raw: seq<Byte>)
    requires |raw| == f.Size()
    ensures ShownAs(f, false, raw, f.Stored(raw))
  {
    if f == Bits24 || f == Bits32 {
      ColoursInMemory(f.Stored(raw));
    }
  }

  /** The bytes of each pixel that the packets stand for. */
  function RawsOf(ps: seq<Packet>): seq<seq<Byte>> {
    if ps == [] then []
    else (match ps[0] case Run(count, raw) => Repeat(raw, count) case Literal(raws) => raws) + RawsOf(ps[1..])
  }

  lemma {:induction false} ExpandedAt(f: Format, ps: seq<Packet>, k: nat)
    requires AllValid(f, ps) && k < |RawsOf(ps)|
    ensures |Expanded(f, ps)| == |RawsOf(ps)| && |RawsOf(ps)[k]| == f.Size()
    ensures Expanded(f, ps)[k] == f.Stored(RawsOf(ps)[k])
  {
    assert ps[0].Valid(f);
    var first := |RawsOf(ps)| - |RawsOf(ps[1..])|;
    if k >= first {
      ExpandedAt(f, ps[1..], k - first);
    } else {
      ExpandedLength(f, ps);
    }
  }

  lemma {:induction false} ExpandedLength(f: Format, ps: seq<Packet>)
    ensures |Expanded(f, ps)| == |RawsOf(ps)|
  {
    if ps != [] {
      ExpandedLength(f, ps[1..]);
    }
  }

  /** The reader between two pixels: what is left of the current packet, and the bytes to come. */
  datatype Reader = Reader(left: nat, isRun: bool, pixel: Pixel, bytes: seq<Byte>)

  /** Pixels read, the reader after them, and whether the file ended too early. */
  datatype Filled = Filled(pixels: seq<Pixel>, reader: Reader, stopped: bool)

  function Start(bytes: seq<Byte>): Reader { Reader(0, false, [255, 255, 255, 255], bytes) }

  /** The header of the next packet, with the pixel if it is a run. */
  function Header(f: Format, r: Reader): (s: Reader)
    requires |r.bytes| >= 1 + f.Size()
    ensures 1 <= s.left <= 128
  {
    var field, size := r.bytes[0], f.Size();
    var count := (if field >= 128 then field - 128 else field) + 1;
    if field >= 128 then Reader(count, true, f.Stored(r.bytes[1..1 + size]), r.bytes[1 + size..])
    else Reader(count, false, r.pixel, r.bytes[1..])
  }

  function ReadMany(f: Format, bytes: seq<Byte>, count: nat): (r: (seq<Pixel>, seq<Byte>))
    requires |bytes| >= Length(count, f.Size())
    ensures |r.0| == count
  {
    if count == 0 then ([], bytes)
    else
      var (pixels, rest) := ReadMany(f, bytes[f.Size()..], count - 1);
      ([f.Stored(bytes[..f.Size()])] + pixels, rest)
  }

  function Length(count: nat, size: nat): nat {
    if count == 0 then 0 else size + Length(count - 1, size)
  }

  /**
   Fills up to `wanted` pixels from the rest of the packet, then from further ones. A packet of literal pixels
   that the file does not complete is not begun.
   */
  function Fill(f: Format, r: Reader, wanted: nat): (w: Filled)
    ensures |w.pixels| <= wanted && (|w.pixels| == wanted || w.stopped)
    decreases wanted
  {
    if wanted == 0 then Filled([], r, false)
    else if r.left == 0 && |r.bytes| < 1 + f.Size() then Filled([], r, true)
    else Transfer(f, if r.left == 0 then Header(f, r) else r, wanted)
  }

  function Transfer(f: Format, r: Reader, wanted: nat): (w: Filled)
    requires r.left > 0 && wanted > 0
    ensures |w.pixels| <= wanted && (|w.pixels| == wanted || w.stopped)
    decreases wanted, 0
  {
    var n := if wanted < r.left then wanted else r.left;
    var s := r.(left := r.left - n);
    if r.isRun then Prefixed(Repeat(r.pixel, n), Fill(f, s, wanted - n))
    else if |r.bytes| < Length(n, f.Size()) then Filled([], s, true)
    else var (pixels, rest) := ReadMany(f, r.bytes, n); Prefixed(pixels, Fill(f, s.(bytes := rest), wanted - n))
  }

  function Prefixed(pixels: seq<Pixel>, w: Filled): Filled { w.(pixels := pixels + w.pixels) }

  // Reading what was written.

  ghost predicate AllValid(f: Format, ps: seq<Packet>) { forall i :: 0 <= i < |ps| ==> ps[i].Valid(f) }

  ghost predicate AllSized(f: Format, raws: seq<seq<Byte>>) { forall i :: 0 <= i < |raws| ==> |raws[i]| == f.Size() }

  /**
   The reader is somewhere in the packets: it will yield these pixels, from the literal pixels left of the
   current packet or its run, and from the packets behind it.
   */
  ghost predicate Yields(f: Format, r: Reader, pixels: seq<Pixel>, raws: seq<seq<Byte>>, ps: seq<Packet>,
                         rest: seq<Byte>) {
    && AllValid(f, ps) && AllSized(f, raws) && |raws| == (if r.isRun then 0 else r.left)
    && forall bytes, shown | bytes == BytesOf(raws, ps, rest) && shown == PixelsOf(f, r, raws, ps) ::
         Are(r, bytes, pixels, shown)
  }

  ghost predicate Are(r: Reader, bytes: seq<Byte>, pixels: seq<Pixel>, shown: seq<Pixel>) {
    r.bytes == bytes && pixels == shown
  }

  function BytesOf(raws: seq<seq<Byte>>, ps: seq<Packet>, rest: seq<Byte>): seq<Byte> {
    Flatten(raws) + (Serialized(ps) + rest)
  }

  function PixelsOf(f: Format, r: Reader, raws: seq<seq<Byte>>, ps: seq<Packet>): seq<Pixel> {
    (if r.isRun then Repeat(r.pixel, r.left) else AllStored(f, raws)) + Expanded(f, ps)
  }

  lemma YieldsWhat(f: Format, r: Reader, pixels: seq<Pixel>, raws: seq<seq<Byte>>, ps: seq<Packet>, rest: seq<Byte>)
    requires Yields(f, r, pixels, raws, ps, rest)
    ensures r.bytes == BytesOf(raws, ps, rest) && pixels == PixelsOf(f, r, raws, ps)
  {
    assert Are(r, BytesOf(raws, ps, rest), pixels, PixelsOf(f, r, raws, ps));
  }

  lemma {:induction false} ReadManyOfFlat(f: Format, raws: seq<seq<Byte>>, tail: seq<Byte>, count: nat)
    requires AllSized(f, raws) && count <= |raws|
    ensures |Flatten(raws)| >= Length(count, f.Size())
    ensures ReadMany(f, Flatten(raws) + tail, count) == (AllStored(f, raws[..count]), Flatten(raws[count..]) + tail)
  {
    if count > 0 {
      var bytes := Flatten(raws) + tail;
      assert bytes == raws[0] + (Flatten(raws[1..]) + tail);
      assert bytes[..f.Size()] == raws[0] && bytes[f.Size()..] == Flatten(raws[1..]) + tail;
      ReadManyOfFlat(f, raws[1..], tail, count - 1);
      assert raws[1..][..count - 1] == raws[1..count] && raws[1..][count - 1..] == raws[count..];
      assert AllStored(f, raws[..count]) == [f.Stored(raws[0])] + AllStored(f, raws[1..count]);
    }
  }

  lemma RunHeader(f: Format, r: Reader, count: Count, raw: seq<Byte>, more: seq<Byte>)
    requires |raw| == f.Size() && r.bytes == [127 + count] + raw + more
    ensures Header(f, r) == Reader(count, true, f.Stored(raw), more)
  {
    assert r.bytes[1..1 + f.Size()] == raw && r.bytes[1 + f.Size()..] == more;
  }

  lemma LiteralHeader(f: Format, r: Reader, raws: Raws, more: seq<Byte>)
    requires AllSized(f, raws) && r.bytes == [|raws| - 1] + Flatten(raws) + more
    ensures |r.bytes| >= 1 + f.Size()
    ensures Header(f, r) == Reader(|raws|, false, r.pixel, Flatten(raws) + more)
  {
    assert |raws[0]| == f.Size() && |Flatten(raws)| >= |raws[0]|;
    assert r.bytes[0] == |raws| - 1;
    AfterFirst(|raws| - 1, Flatten(raws), more);
  }

  lemma AfterFirst(x: Byte, a: seq<Byte>, b: seq<Byte>)
    ensures ([x] + a + b)[1..] == a + b
  {
  }

  /** Reading a header starts on the next packet. */
  lemma HeaderYields(f: Format, r: Reader, ps: seq<Packet>, rest: seq<Byte>) returns (raws: seq<seq<Byte>>)
    requires r.left == 0 && AllValid(f, ps) && ps != [] && r.bytes == Serialized(ps) + rest
    ensures |r.bytes| >= 1 + f.Size() && Yields(f, Header(f, r), Expanded(f, ps), raws, ps[1..], rest)
  {
    assert ps[0].Valid(f);
    if ps[0].Run? {
      raws := [];
      RunHeaderYields(f, r, ps, rest, ps[0].count, ps[0].raw);
    } else {
      raws := ps[0].raws;
      LiteralHeaderYields(f, r, ps, rest, ps[0].raws);
    }
  }

  lemma RunHeaderYields(f: Format, r: Reader, ps: seq<Packet>, rest: seq<Byte>, count: Count, raw: seq<Byte>)
    requires r.left == 0 && AllValid(f, ps) && ps != [] && r.bytes == Serialized(ps) + rest
    requires ps[0] == Run(count, raw) && |raw| == f.Size()
    ensures |r.bytes| >= 1 + f.Size() && Yields(f, Header(f, r), Expanded(f, ps), [], ps[1..], rest)
  {
    var tail := Serialized(ps[1..]);
    ConcatAssociates([127 + count as Byte] + raw, tail, rest);
    RunHeader(f, r, count, raw, tail + rest);
    RunIsNext(f, ps, rest, count, raw, Reader(count, true, f.Stored(raw), tail + rest));
  }

  lemma RunIsNext(f: Format, ps: seq<Packet>, rest: seq<Byte>, count: Count, raw: seq<Byte>, r: Reader)
    requires AllValid(f, ps) && ps != [] && ps[0] == Run(count, raw)
    requires r == Reader(count, true, f.Stored(raw), Serialized(ps[1..]) + rest)
    ensures Yields(f, r, Expanded(f, ps), [], ps[1..], rest)
  {
    assert BytesOf([], ps[1..], rest) == Serialized(ps[1..]) + rest;
  }

  lemma LiteralHeaderYields(f: Format, r: Reader, ps: seq<Packet>, rest: seq<Byte>, raws: Raws)
    requires r.left == 0 && AllValid(f, ps) && ps != [] && r.bytes == Serialized(ps) + rest
    requires ps[0] == Literal(raws) && AllSized(f, raws)
    ensures |r.bytes| >= 1 + f.Size() && Yields(f, Header(f, r), Expanded(f, ps), raws, ps[1..], rest)
  {
    var tail := Serialized(ps[1..]);
    ConcatAssociates([|raws| - 1 as Byte] + Flatten(raws), tail, rest);
    LiteralHeader(f, r, raws, tail + rest);
    LiteralIsNext(f, ps, rest, raws, Reader(|raws|, false, r.pixel, Flatten(raws) + (tail + rest)));
  }

  lemma LiteralIsNext(f: Format, ps: seq<Packet>, rest: seq<Byte>, raws: Raws, r: Reader)
    requires AllValid(f, ps) && ps != [] && ps[0] == Literal(raws) && AllSized(f, raws)
    requires r == Reader(|raws|, false, r.pixel, Flatten(raws) + (Serialized(ps[1..]) + rest))
    ensures Yields(f, r, Expanded(f, ps), raws, ps[1..], rest)
  {
  }

  lemma FrontOf<T>(a: seq<T>, b: seq<T>, n: nat)
    requires n <= |a|
    ensures (a + b)[..n] == a[..n] && (a + b)[n..] == a[n..] + b
  {
  }

  /** Transferring takes pixels off a run. */
  lemma RunYields(f: Format, r: Reader, pixels: seq<Pixel>, raws: seq<seq<Byte>>, ps: seq<Packet>, rest: seq<Byte>,
                  n: nat)
    requires Yields(f, r, pixels, raws, ps, rest) && 0 < n <= r.left && r.isRun
    ensures n <= |pixels| && Repeat(r.pixel, n) == pixels[..n]
    ensures Yields(f, r.(left := r.left - n), pixels[n..], raws, ps, rest)
  {
    YieldsWhat(f, r, pixels, raws, ps, rest);
    FrontOf(Repeat(r.pixel, r.left), Expanded(f, ps), n);
    RepeatFront(r.pixel, r.left, n);
  }

  lemma RepeatFront<T>(x: T, count: nat, n: nat)
    requires n <= count
    ensures Repeat(x, count)[..n] == Repeat(x, n) && Repeat(x, count)[n..] == Repeat(x, count - n)
  {
  }

  /** ... or off literal pixels. */
  lemma LiteralYields(f: Format, r: Reader, pixels: seq<Pixel>, raws: seq<seq<Byte>>, ps: seq<Packet>, rest: seq<Byte>,
                      n: nat)
    requires Yields(f, r, pixels, raws, ps, rest) && 0 < n <= r.left && !r.isRun
    ensures n <= |pixels| && |r.bytes| >= Length(n, f.Size()) && ReadMany(f, r.bytes, n).0 == pixels[..n]
    ensures Yields(f, r.(left := r.left - n, bytes := ReadMany(f, r.bytes, n).1), pixels[n..], raws[n..], ps, rest)
  {
    YieldsWhat(f, r, pixels, raws, ps, rest);
    LiteralRead(f, r, raws, Serialized(ps) + rest, n);
    FrontOf(AllStored(f, raws), Expanded(f, ps), n);
    StoredFront(f, raws, n);
  }

  lemma LiteralRead(f: Format, r: Reader, raws: seq<seq<Byte>>, tail: seq<Byte>, n: nat)
    requires AllSized(f, raws) && n <= |raws| && r.bytes == Flatten(raws) + tail
    ensures AllSized(f, raws[n..]) && |r.bytes| >= Length(n, f.Size())
    ensures ReadMany(f, r.bytes, n) == (AllStored(f, raws[..n]), Flatten(raws[n..]) + tail)
  {
    ReadManyOfFlat(f, raws, tail, n);
  }

  lemma StoredFront(f: Format, raws: seq<seq<Byte>>, n: nat)
    requires n <= |raws|
    ensures AllStored(f, raws)[..n] == AllStored(f, raws[..n]) && AllStored(f, raws)[n..] == AllStored(f, raws[n..])
  {
  }

  /** As many pixels as were wanted are the next ones, and the reader yields those that follow. */
  ghost predicate FillsAs(f: Format, w: Filled, pixels: seq<Pixel>, wanted: nat, raws: seq<seq<Byte>>, ps: seq<Packet>,
                          rest: seq<Byte>) {
    && wanted <= |pixels| && !w.stopped && w.pixels == pixels[..wanted]
    && Yields(f, w.reader, pixels[wanted..], raws, ps, rest)
  }

  lemma PrefixedFillsAs(f: Format, w: Filled, pixels: seq<Pixel>, behind: seq<Pixel>, n: nat, m: nat,
                        raws: seq<seq<Byte>>, ps: seq<Packet>, rest: seq<Byte>)
    requires n + m <= |pixels| && behind == pixels[n..] && FillsAs(f, w, behind, m, raws, ps, rest)
    ensures FillsAs(f, Prefixed(pixels[..n], w), pixels, n + m, raws, ps, rest)
  {
    assert pixels[..n] + behind[..m] == pixels[..n + m];
    assert behind[m..] == pixels[n + m..];
  }

  /**
   Packets may cross the pieces in which they are read freely: as long as there are pixels, a piece of any
   length is filled with the next ones, and the reader is then ready for those that follow.
   */
  lemma {:induction false} FillYields(f: Format, r: Reader, pixels: seq<Pixel>, raws: seq<seq<Byte>>, ps: seq<Packet>,
                                      rest: seq<Byte>, wanted: nat) returns (raws': seq<seq<Byte>>, ps': seq<Packet>)
    requires Yields(f, r, pixels, raws, ps, rest) && wanted <= |pixels|
    ensures FillsAs(f, Fill(f, r, wanted), pixels, wanted, raws', ps', rest)
    decreases wanted
  {
    if wanted == 0 {
      return raws, ps;
    }
    if r.left == 0 {
      YieldsWhat(f, r, pixels, raws, ps, rest);
      assert Flatten([]) + (Serialized(ps) + rest) == Serialized(ps) + rest;
      assert pixels == Expanded(f, ps);
      var rawsS := HeaderYields(f, r, ps, rest);
      raws', ps' := TransferFills(f, Header(f, r), pixels, rawsS, ps[1..], rest, wanted);
    } else {
      raws', ps' := TransferFills(f, r, pixels, raws, ps, rest, wanted);
    }
  }

  lemma {:induction false} TransferFills(f: Format, r: Reader, pixels: seq<Pixel>, raws: seq<seq<Byte>>,
                                         ps: seq<Packet>,
                                         rest: seq<Byte>, wanted: nat) returns (raws': seq<seq<Byte>>, ps': seq<Packet>)
    requires Yields(f, r, pixels, raws, ps, rest) && 0 < wanted <= |pixels| && r.left > 0
    ensures FillsAs(f, Transfer(f, r, wanted), pixels, wanted, raws', ps', rest)
    decreases wanted, 0
  {
    var n := if wanted < r.left then wanted else r.left;
    var next, rawsN := NextReader(f, r, pixels, raws, ps, rest, wanted, n);
    var m, behind := wanted - n, pixels[n..];
    raws', ps' := FillYields(f, next, behind, rawsN, ps, rest, m);
    PrefixedFillsAs(f, Fill(f, next, m), pixels, behind, n, m, raws', ps', rest);
  }

  /** The reader after a transfer. */
  lemma NextReader(f: Format, r: Reader, pixels: seq<Pixel>, raws: seq<seq<Byte>>, ps: seq<Packet>, rest: seq<Byte>,
                   wanted: nat, n: nat) returns (next: Reader, rawsN: seq<seq<Byte>>)
    requires Yields(f, r, pixels, raws, ps, rest) && 0 < wanted && 0 < r.left
    requires n == if wanted < r.left then wanted else r.left
    ensures n <= |pixels| && Yields(f, next, pixels[n..], rawsN, ps, rest)
    ensures Transfer(f, r, wanted) == Prefixed(pixels[..n], Fill(f, next, wanted - n))
  {
    if r.isRun {
      RunYields(f, r, pixels, raws, ps, rest, n);
      next, rawsN := r.(left := r.left - n), raws;
    } else {
      LiteralYields(f, r, pixels, raws, ps, rest, n);
      next, rawsN := r.(left := r.left - n, bytes := ReadMany(f, r.bytes, n).1), raws[n..];
    }
    TransferIs(f, r, wanted, n, pixels[..n], next, Fill(f, next, wanted - n));
  }

  lemma TransferIs(f: Format, r: Reader, wanted: nat, n: nat, taken: seq<Pixel>, next: Reader, w: Filled)
    requires 0 < wanted && 0 < r.left && n == (if wanted < r.left then wanted else r.left)
             && w == Fill(f, next, wanted - n)
    requires r.isRun ==> taken == Repeat(r.pixel, n) && next == r.(left := r.left - n)
    requires !r.isRun ==>
               && |r.bytes| >= Length(n, f.Size())
               && taken == ReadMany(f, r.bytes, n).0
               && next == r.(left := r.left - n, bytes := ReadMany(f, r.bytes, n).1)
    ensures Transfer(f, r, wanted) == Prefixed(taken, w)
  {
  }

  // Rows.

  /** Rows read one after the other; if the file ends, the rows behind remain empty. */
  datatype Rows = Rows(rows: seq<seq<Pixel>>, reader: Reader, stopped: bool)

  function RowsOf(f: Format, r: Reader, width: nat, count: nat): (w: Rows)
    ensures |w.rows| == count
  {
    if count == 0 then Rows([], r, false)
    else
      var first := RowsOf(f, r, width, count - 1);
      if first.stopped then first.(rows := first.rows + [[]])
      else
        WithRow(f, first, width)
  }

  lemma RowsOfNext(f: Format, r: Reader, width: nat, count: nat, w: Rows)
    requires w == RowsOf(f, r, width, count) && !w.stopped
    ensures RowsOf(f, r, width, count + 1) == WithRow(f, w, width)
  {
  }

  lemma {:induction false} RowsAfterStop(f: Format, r: Reader, width: nat, count: nat, more: nat)
    requires RowsOf(f, r, width, count).stopped || more == 0
    ensures var w := RowsOf(f, r, width, count);
            RowsOf(f, r, width, count + more) == w.(rows := w.rows + Repeat([], more))
  {
    if more == 0 {
      assert RowsOf(f, r, width, count).rows + Repeat([], 0) == RowsOf(f, r, width, count).rows;
    } else {
      RowsAfterStop(f, r, width, count, more - 1);
      var none: seq<Pixel> := [];
      assert Repeat(none, more) == Repeat(none, more - 1) + [none];
    }
  }

  /** Pixels cut into rows. */
  function Cut(pixels: seq<Pixel>, width: nat, count: nat): (rows: seq<seq<Pixel>>)
    requires RowStart(count, width) <= |pixels|
    ensures |rows| == count
  {
    if count == 0 then []
    else Cut(pixels, width, count - 1) + [pixels[RowStart(count - 1, width)..RowStart(count, width)]]
  }

  lemma {:induction false} CutLength(pixels: seq<Pixel>, width: nat, count: nat, k: nat)
    requires RowStart(count, width) <= |pixels| && k < count
    ensures |Cut(pixels, width, count)[k]| == width
    ensures RowStart(k, width) + width <= |pixels|
    ensures Cut(pixels, width, count)[k] == pixels[RowStart(k, width)..RowStart(k, width) + width]
  {
    if k < count - 1 {
      CutLength(pixels, width, count - 1, k);
    }
  }

  /** The rows read are the pixels cut into rows, and the reader yields those that follow. */
  ghost predicate RowsAs(f: Format, w: Rows, pixels: seq<Pixel>, width: nat, count: nat, raws: seq<seq<Byte>>,
                         ps: seq<Packet>, rest: seq<Byte>) {
    && RowStart(count, width) <= |pixels| && !w.stopped && w.rows == Cut(pixels, width, count)
    && Yields(f, w.reader, pixels[RowStart(count, width)..], raws, ps, rest)
  }

  lemma RowAdded(f: Format, w: Rows, row: Filled, pixels: seq<Pixel>, behind: seq<Pixel>, width: nat, count: nat,
                 next: nat, raws: seq<seq<Byte>>, ps: seq<Packet>, rest: seq<Byte>)
    requires next == count + 1 && RowStart(next, width) <= |pixels| && behind == pixels[RowStart(count, width)..]
    requires w.rows == Cut(pixels, width, count) && FillsAs(f, row, behind, width, raws, ps, rest)
    ensures RowsAs(f, Rows(w.rows + [row.pixels], row.reader, row.stopped), pixels, width, next, raws, ps, rest)
  {
    var at := RowStart(count, width);
    assert behind[..width] == pixels[at..at + width];
    assert behind[width..] == pixels[at + width..];
  }

  /** Packets that stand for enough pixels are read as these pixels cut into rows. */
  lemma {:induction false} RowsOfPackets(f: Format, ps: seq<Packet>, rest: seq<Byte>, width: nat, count: nat)
    returns (raws': seq<seq<Byte>>, ps': seq<Packet>)
    requires AllValid(f, ps) && |Expanded(f, ps)| >= RowStart(count, width)
    ensures RowsAs(f, RowsOf(f, Start(Serialized(ps) + rest), width, count), Expanded(f, ps), width, count, raws', ps',
                   rest)
  {
    var pixels := Expanded(f, ps);
    if count == 0 {
      raws', ps' := [], ps;
      StartYields(f, ps, rest);
    } else {
      var n, start := count - 1, Start(Serialized(ps) + rest);
      var raws1, ps1 := RowsOfPackets(f, ps, rest, width, n);
      var first := RowsOf(f, start, width, n);
      raws', ps' := NextRow(f, first, pixels, width, n, count, raws1, ps1, rest);
      assert RowsOf(f, start, width, count) == WithRow(f, first, width);
    }
  }

  function WithRow(f: Format, first: Rows, width: nat): Rows {
    var row := Fill(f, first.reader, width);
    Rows(first.rows + [row.pixels], row.reader, row.stopped)
  }

  lemma NextRow(f: Format, first: Rows, pixels: seq<Pixel>, width: nat, count: nat, next: nat, raws: seq<seq<Byte>>,
                ps: seq<Packet>, rest: seq<Byte>) returns (raws': seq<seq<Byte>>, ps': seq<Packet>)
    requires next == count + 1 && RowStart(next, width) <= |pixels|
    requires RowsAs(f, first, pixels, width, count, raws, ps, rest)
    ensures RowsAs(f, WithRow(f, first, width), pixels, width, next, raws', ps', rest)
  {
    var behind := pixels[RowStart(count, width)..];
    raws', ps' := FillYields(f, first.reader, behind, raws, ps, rest, width);
    RowAdded(f, first, Fill(f, first.reader, width), pixels, behind, width, count, next, raws', ps', rest);
  }

  lemma StartYields(f: Format, ps: seq<Packet>, rest: seq<Byte>)
    requires AllValid(f, ps)
    ensures Yields(f, Start(Serialized(ps) + rest), Expanded(f, ps), [], ps, rest)
    ensures Expanded(f, ps)[0..] == Expanded(f, ps)
  {
    assert Flatten([]) + (Serialized(ps) + rest) == Serialized(ps) + rest;
    assert AllStored(f, []) + Expanded(f, ps) == Expanded(f, ps);
  }

  /** Reading on where the last batch of rows ended is reading the rows in one go. */
  lemma {:induction false} RowsOfSum(f: Format, r: Reader, width: nat, a: nat, b: nat)
    requires !RowsOf(f, r, width, a).stopped
    ensures var first, both := RowsOf(f, r, width, a), RowsOf(f, r, width, a + b);
            var second := RowsOf(f, first.reader, width, b);
            both == Rows(first.rows + second.rows, second.reader, second.stopped)
  {
    if b > 0 {
      RowsOfSum(f, r, width, a, b - 1);
      var first, second := RowsOf(f, r, width, a), RowsOf(f, RowsOf(f, r, width, a).reader, width, b - 1);
      if second.stopped {
        ConcatAssociates(first.rows, second.rows, [[]]);
      } else {
        ConcatAssociates(first.rows, second.rows, [Fill(f, second.reader, width).pixels]);
      }
    } else {
      assert RowsOf(f, r, width, a).rows + [] == RowsOf(f, r, width, a).rows;
    }
  }

  lemma RowsJoin(f: Format, r: Reader, width: nat, a: nat, b: nat, all: nat, first: Rows)
    requires all == a + b && first == RowsOf(f, r, width, a) && !first.stopped
    ensures var second := RowsOf(f, first.reader, width, b);
            RowsOf(f, r, width, all) == Rows(first.rows + second.rows, second.reader, second.stopped)
  {
    RowsOfSum(f, r, width, a, b);
  }
}
