/** Where the decoded pixels of a GIF frame go: row order, plain or interlaced, and the strided buffer. */
module Interlacing {
  import opened Common
  import opened Bits
  import opened Buffers
  import opened LzwDecoding

  /** Rows start, start + step, ... below the height. */
  function Every(start: nat, step: nat, height: nat): (r: seq<nat>)
    requires step > 0
    ensures forall i :: 0 <= i < |r| ==> start <= r[i] < height
    decreases height - start
  {
    if start >= height then [] else [start] + Every(start + step, step, height)
  }

  /** The order of GIF89a, Appendix E: every 8th row from 0, from 4, every 4th from 2, every 2nd from 1. */
  function AppendixE(height: nat): seq<nat> {
    Every(0, 8, height) + Every(4, 8, height) + Every(2, 4, height) + Every(1, 2, height)
  }

  /** The row and pass that follow the end of a row. */
  function NextRow(y: nat, pass: nat, height: nat): (r: (nat, nat))
    requires pass <= 3
    ensures r.1 <= 3
  {
    if pass == 0 then (if y + 8 >= height then (4, 1) else (y + 8, 0))
    else if pass == 1 then (if y + 8 >= height then (2, 2) else (y + 8, 1))
    else if pass == 2 then (if y + 4 >= height then (1, 3) else (y + 4, 2))
    else (y + 2, 3)
  }

  /** The rows that are still written from here on; writing stops at the first row beyond the height. */
  function Visited(y: nat, pass: nat, height: nat): (r: seq<nat>)
    requires pass <= 3
    ensures forall i :: 0 <= i < |r| ==> r[i] < height
    decreases 3 - pass, height - y
  {
    if y >= height then [] else var next := NextRow(y, pass, height); [y] + Visited(next.0, next.1, height)
  }

  function Count(rows: seq<nat>, y: nat): nat {
    if rows == [] then 0 else (if rows[0] == y then 1 else 0) + Count(rows[1..], y)
  }

  lemma {:induction false} CountConcat(a: seq<nat>, b: seq<nat>, y: nat)
    ensures Count(a + b, y) == Count(a, y) + Count(b, y)
  {
    if a == [] {
      assert a + b == b;
    } else {
      CountConcat(a[1..], b, y);
      assert (a + b)[0] == a[0] && (a + b)[1..] == a[1..] + b;
    }
  }

  /** The rows that a pass from `start` with the given step comes across. */
  predicate OnPass(start: nat, step: nat, y: nat)
    requires step in {2, 4, 8}
  {
    y >= start && (if step == 8 then (y - start) % 8 else if step == 4 then (y - start) % 4 else (y - start) % 2) == 0
  }

  lemma {:induction false} EveryCount(start: nat, step: nat, height: nat, y: nat)
    requires step in {2, 4, 8}
    ensures Count(Every(start, step, height), y) == if y < height && OnPass(start, step, y) then 1 else 0
    decreases height - start
  {
    if start < height {
      EveryCount(start + step, step, height, y);
      var rest := Every(start + step, step, height);
      assert ([start] + rest)[1..] == rest;
      NextOnPass(start, step, y);
    }
  }

  lemma NextOnPass(start: nat, step: nat, y: nat)
    requires step in {2, 4, 8}
    ensures OnPass(start, step, y) <==> y == start || OnPass(start + step, step, y)
  {
    var d := y - start;
    if step == 8 {
      assert d >= 8 ==> (d - 8) % 8 == d % 8;
    } else if step == 4 {
      assert d >= 4 ==> (d - 4) % 4 == d % 4;
    } else {
      assert d >= 2 ==> (d - 2) % 2 == d % 2;
    }
  }

  lemma FourPasses(y: nat)
    ensures (if OnPass(0, 8, y) then 1 else 0) + (if OnPass(4, 8, y) then 1 else 0)
            + (if OnPass(2, 4, y) then 1 else 0) + (if OnPass(1, 2, y) then 1 else 0) == 1
  {
    var q, r := y / 8, y % 8;
    OnEighth(y, q, r);
    OnQuarter(y, 2 * q + r / 4, r % 4);
    OnHalf(y, 4 * q + r / 2, r % 2);
  }

  lemma RemainderOf8(x: int, q: int, r: int)
    requires x == 8 * q + r && 0 <= r < 8
    ensures x % 8 == r
  {
  }

  lemma OnEighth(y: nat, q: nat, r: nat)
    requires y == 8 * q + r && r < 8
    ensures (OnPass(0, 8, y) <==> r == 0) && (OnPass(4, 8, y) <==> r == 4)
  {
    RemainderOf8(y, q, r);
    if y >= 4 {
      if r >= 4 {
        RemainderOf8(y - 4, q, r - 4);
      } else {
        RemainderOf8(y - 4, q - 1, r + 4);
      }
    }
  }

  lemma OnQuarter(y: nat, q: nat, r: nat)
    requires y == 4 * q + r && r < 4
    ensures OnPass(2, 4, y) <==> r == 2
  {
    assert y >= 2 ==> y - 2 == if r >= 2 then 4 * q + (r - 2) else 4 * (q - 1) + (r + 2);
  }

  lemma OnHalf(y: nat, q: nat, r: nat)
    requires y == 2 * q + r && r < 2
    ensures OnPass(1, 2, y) <==> r == 1
  {
    assert y >= 1 ==> y - 1 == if r == 1 then 2 * q else 2 * (q - 1) + 1;
  }

  /** Appendix E visits each row once. */
  lemma AppendixEVisitsEachRowOnce(height: nat, y: nat)
    ensures Count(AppendixE(height), y) == if y < height then 1 else 0
  {
    EveryCount(0, 8, height, y);
    EveryCount(4, 8, height, y);
    EveryCount(2, 4, height, y);
    EveryCount(1, 2, height, y);
    var a, b, c, d := Every(0, 8, height), Every(4, 8, height), Every(2, 4, height), Every(1, 2, height);
    CountConcat(a + b + c, d, y);
    CountConcat(a + b, c, y);
    CountConcat(a, b, y);
    FourPasses(y);
  }

  lemma {:induction false} LastPass(y: nat, height: nat)
    ensures Visited(y, 3, height) == Every(y, 2, height)
    decreases height - y
  {
    if y < height {
      LastPass(y + 2, height);
    }
  }

  lemma {:induction false} EarlierPass(y: nat, pass: nat, height: nat)
    requires pass <= 2 && y < height
    ensures Visited(y, pass, height)
            == if pass == 0 then Every(y, 8, height) + Visited(4, 1, height)
               else if pass == 1 then Every(y, 8, height) + Visited(2, 2, height)
               else Every(y, 4, height) + Visited(1, 3, height)
    decreases height - y
  {
    var step := if pass == 2 then 4 else 8;
    if y + step < height {
      EarlierPass(y + step, pass, height);
    } else {
      assert Every(y + step, step, height) == [];
    }
  }

  lemma HighEnough(height: nat)
    requires height >= 5
    ensures Visited(0, 0, height) == AppendixE(height)
  {
    EarlierPass(0, 0, height);
    EarlierPass(4, 1, height);
    EarlierPass(2, 2, height);
    LastPass(1, height);
    var a, b, c, d := Every(0, 8, height), Every(4, 8, height), Every(2, 4, height), Every(1, 2, height);
    ConcatAssociates(b, c, d);
    ConcatAssociates(a, b, c);
    ConcatAssociates(a, b + c, d);
  }

  lemma TooLow(height: nat)
    requires height in {2, 3, 4}
    ensures Visited(0, 0, height) == [0] && |AppendixE(height)| > 1
  {
    assert NextRow(0, 0, height) == (4, 1) && Visited(4, 1, height) == [];
    assert Every(0, 8, height) != [] && Every(1, 2, height) != [];
  }

  lemma AtMostOneRow(height: nat)
    requires height <= 1
    ensures Visited(0, 0, height) == AppendixE(height)
  {
    assert NextRow(0, 0, height) == (4, 1) && Visited(4, 1, height) == [];
    assert Every(0, 8, height) == if height == 0 then [] else [0];
    assert Every(4, 8, height) == Every(2, 4, height) == Every(1, 2, height) == [];
  }

  /**
   The rows are written in the order of Appendix E exactly when the height is none of 2, 3 and 4; for
   those only the first row is ever written.
   */
  lemma RowOrder(height: nat)
    ensures Visited(0, 0, height) == AppendixE(height) <==> height !in {2, 3, 4}
    ensures height in {2, 3, 4} ==> Visited(0, 0, height) == [0]
  {
    if height >= 5 {
      HighEnough(height);
    } else if height >= 2 {
      TooLow(height);
    } else {
      AtMostOneRow(height);
    }
  }

  // The buffer.

  /** The frame: its size, the distance between rows of the buffer, and whether it is interlaced. */
  datatype Frame = Frame(width: nat, height: nat, stride: nat, interlace: bool)
  {
    function PixelIndex(x: nat, y: nat): nat { x + RowStart(y, stride) }

    /** The rows in the order in which they are written. */
    function Rows(): seq<nat> {
      if interlace then Visited(0, 0, height) else Every(0, 1, height)
    }

    ghost predicate FitsIn(size: nat) { width <= stride && RowStart(height, stride) <= size }
  }

  lemma PixelPlace(f: Frame, x: nat, y: nat)
    ensures f.PixelIndex(x, y) == y * f.stride + x
  {
    RowStartIs(y, f.stride);
  }

  datatype Cursor = Cursor(x: nat, y: nat, pass: nat)

  /** Where writing goes on after a pixel. */
  function Advanced(f: Frame, c: Cursor): (r: Cursor)
    requires c.pass <= 3
    ensures r.pass <= 3
  {
    if c.x + 1 != f.width then c.(x := c.x + 1)
    else if f.interlace then var next := NextRow(c.y, c.pass, f.height); Cursor(0, next.0, next.1)
    else Cursor(0, c.y + 1, c.pass)
  }

  /** The buffer and the cursor after the pixels of a text; pixels beyond the frame are dropped. */
  function Painted(f: Frame, buffer: seq<Byte>, t: Text): (r: (seq<Byte>, Cursor))
    ensures |r.0| == |buffer| && r.1.pass <= 3
    decreases |t|
  {
    if t == [] then (buffer, Cursor(0, 0, 0))
    else
      var (b, c) := Painted(f, buffer, t[..|t| - 1]);
      if c.x >= f.width || c.y >= f.height then (b, c)
      else (if f.PixelIndex(c.x, c.y) < |b| then b[f.PixelIndex(c.x, c.y) := t[|t| - 1]] else b, Advanced(f, c))
  }

  /** The cursor is at column `column` of line `line`, counting lines in writing order. */
  ghost predicate CursorAt(f: Frame, rows: seq<nat>, c: Cursor, line: nat, column: nat) {
    && c.pass <= 3 && line <= |rows|
    && c.x == column < f.width
    && (f.interlace ==> Visited(c.y, c.pass, f.height) == rows[line..])
    && (!f.interlace ==> Every(c.y, 1, f.height) == rows[line..])
  }

  lemma CursorRow(f: Frame, rows: seq<nat>, c: Cursor, line: nat, column: nat)
    requires CursorAt(f, rows, c, line, column)
    ensures c.y < f.height <==> line < |rows|
    ensures line < |rows| ==> rows[line] == c.y
  {
    if line < |rows| {
      assert rows[line..][0] == rows[line];
    }
  }

  lemma CursorMoves(f: Frame, rows: seq<nat>, c: Cursor, line: nat, column: nat)
    requires CursorAt(f, rows, c, line, column) && line < |rows|
    ensures CursorAt(f, rows, Advanced(f, c), if column + 1 == f.width then line + 1 else line,
                     if column + 1 == f.width then 0 else column + 1)
  {
    CursorRow(f, rows, c, line, column);
    if column + 1 == f.width {
      assert rows[line..][1..] == rows[line + 1..];
    }
  }

  lemma {:induction false} EveryDistinct(start: nat, step: nat, height: nat)
    requires step > 0
    ensures Distinct(Every(start, step, height))
    decreases height - start
  {
    if start < height {
      EveryDistinct(start + step, step, height);
    }
  }

  lemma RowsDistinct(f: Frame)
    ensures Distinct(f.Rows())
  {
    if !f.interlace {
      EveryDistinct(0, 1, f.height);
    } else {
      RowOrder(f.height);
      if f.height !in {2, 3, 4} {
        var rows := AppendixE(f.height);
        forall i, j | 0 <= i < j < |rows|
          ensures rows[i] != rows[j]
        {
          AppendixEVisitsEachRowOnce(f.height, rows[i]);
          if rows[i] == rows[j] {
            TwiceCounts(rows, i, j);
          }
        }
      }
    }
  }

  lemma {:induction false} TwiceCounts(s: seq<nat>, i: nat, j: nat)
    requires i < j < |s| && s[i] == s[j]
    ensures Count(s, s[i]) >= 2
  {
    assert s[1..][j - 1] == s[j];
    if i == 0 {
      OnceCounts(s[1..], j - 1);
    } else {
      TwiceCounts(s[1..], i - 1, j - 1);
    }
  }

  lemma {:induction false} OnceCounts(s: seq<nat>, i: nat)
    requires i < |s|
    ensures Count(s, s[i]) >= 1
  {
    if i > 0 {
      OnceCounts(s[1..], i - 1);
    }
  }

  lemma PixelsApart(f: Frame, size: nat, x1: nat, y1: nat, x2: nat, y2: nat)
    requires f.FitsIn(size) && x1 < f.width && x2 < f.width && y1 < f.height && y2 < f.height
    ensures f.PixelIndex(x1, y1) < size
    ensures f.PixelIndex(x1, y1) == f.PixelIndex(x2, y2) <==> x1 == x2 && y1 == y2
  {
    RowStartMonotone(y1, f.height, f.stride);
    if y1 < y2 {
      RowStartMonotone(y1, y2, f.stride);
    } else if y2 < y1 {
      RowStartMonotone(y2, y1, f.stride);
    }
  }

  predicate IsWritten(r: nat, c: nat, line: nat, column: nat) { r < line || (r == line && c < column) }

  /** Up to the cursor the buffer holds the text, line by line in writing order; elsewhere it is unchanged. */
  ghost predicate InPlace(f: Frame, rows: seq<nat>, before: seq<Byte>, after: seq<Byte>, t: Text, line: nat,
                          column: nat)
  {
    && |after| == |before|
    && line <= |rows| && (line == |rows| ==> column == 0)
    && (forall r, c :: 0 <= r < |rows| && 0 <= c < f.width && IsWritten(r, c, line, column) ==>
          HasPixel(f, rows, after, t, r, c))
    && forall i :: 0 <= i < |after| && after[i] != before[i] ==> Reached(f, rows, i, line, column)
  }

  /** A place in the buffer that is before the cursor. */
  ghost predicate Reached(f: Frame, rows: seq<nat>, i: nat, line: nat, column: nat) {
    exists r, c :: 0 <= r < |rows| && 0 <= c < f.width && IsWritten(r, c, line, column) && f.PixelIndex(c, rows[r]) == i
  }

  ghost predicate HasPixel(f: Frame, rows: seq<nat>, buffer: seq<Byte>, t: Text, r: nat, c: nat)
    requires r < |rows|
  {
    && f.PixelIndex(c, rows[r]) < |buffer| && RowStart(r, f.width) + c < |t|
    && buffer[f.PixelIndex(c, rows[r])] == t[RowStart(r, f.width) + c]
  }

  lemma {:induction false} PaintedInPlace(f: Frame, buffer: seq<Byte>, t: Text) returns (line: nat, column: nat)
    requires f.FitsIn(|buffer|) && f.width > 0
    ensures CursorAt(f, f.Rows(), Painted(f, buffer, t).1, line, column)
    ensures InPlace(f, f.Rows(), buffer, Painted(f, buffer, t).0, t, line, column)
    ensures if line < |f.Rows()| then |t| == RowStart(line, f.width) + column else |t| >= RowStart(line, f.width)
    decreases |t|
  {
    if t == [] {
      line, column := 0, 0;
      return;
    }
    var shorter, next := t[..|t| - 1], t[|t| - 1];
    var l, k := PaintedInPlace(f, buffer, shorter);
    var (b, c) := Painted(f, buffer, shorter);
    RowsDistinct(f);
    line, column := OnePixelMore(f, f.Rows(), buffer, b, shorter, next, c, l, k);
    assert t == shorter + [next];
  }

  /** What becomes of everything when one more pixel is painted. */
  lemma OnePixelMore(f: Frame, rows: seq<nat>, before: seq<Byte>, b: seq<Byte>, t: Text, next: Byte, cur: Cursor,
                     line: nat, column: nat) returns (line': nat, column': nat)
    requires f.FitsIn(|before|) && f.width > 0 && Distinct(rows) && (forall r :: 0 <= r < |rows| ==> rows[r] < f.height)
    requires CursorAt(f, rows, cur, line, column) && InPlace(f, rows, before, b, t, line, column)
    requires if line < |rows| then |t| == RowStart(line, f.width) + column else |t| >= RowStart(line, f.width)
    ensures if line < |rows| then |t| + 1 == RowStart(line', f.width) + column' else |t| + 1 >= RowStart(line', f.width)
    ensures cur.x >= f.width || cur.y >= f.height ==>
              CursorAt(f, rows, cur, line', column') && InPlace(f, rows, before, b, t + [next], line', column')
    ensures cur.x < f.width && cur.y < f.height ==>
              && f.PixelIndex(cur.x, cur.y) < |b| && CursorAt(f, rows, Advanced(f, cur), line', column')
              && InPlace(f, rows, before, b[f.PixelIndex(cur.x, cur.y) := next], t + [next], line', column')
    ensures line == |rows| ==> line' == |rows|
  {
    line', column' := line, column;
    CursorRow(f, rows, cur, line, column);
    TextGrows(f, rows, before, b, t, next, line, column);
    if line < |rows| {
      line' := if column + 1 == f.width then line + 1 else line;
      column' := if column + 1 == f.width then 0 else column + 1;
      CursorMoves(f, rows, cur, line, column);
      PixelAdded(f, rows, before, b, t + [next], next, line, column, line', column');
    }
  }

  lemma TextGrows(f: Frame, rows: seq<nat>, before: seq<Byte>, after: seq<Byte>, t: Text, next: Byte, line: nat,
                  column: nat)
    requires InPlace(f, rows, before, after, t, line, column)
    ensures InPlace(f, rows, before, after, t + [next], line, column)
  {
    forall r, c | 0 <= r < |rows| && 0 <= c < f.width && IsWritten(r, c, line, column)
      ensures HasPixel(f, rows, after, t + [next], r, c)
    {
      assert HasPixel(f, rows, after, t, r, c);
    }
  }

  /** Writing at the cursor puts one more pixel in place and disturbs none of the others. */
  lemma PixelAdded(f: Frame, rows: seq<nat>, before: seq<Byte>, b: seq<Byte>, t: Text, next: Byte, line: nat,
                   column: nat, line': nat, column': nat)
    requires f.FitsIn(|before|) && Distinct(rows) && (forall r :: 0 <= r < |rows| ==> rows[r] < f.height)
    requires InPlace(f, rows, before, b, t, line, column) && line < |rows| && column < f.width
    requires RowStart(line, f.width) + column < |t| && t[RowStart(line, f.width) + column] == next
    requires line' == if column + 1 == f.width then line + 1 else line
    requires column' == if column + 1 == f.width then 0 else column + 1
    ensures f.PixelIndex(column, rows[line]) < |b|
    ensures InPlace(f, rows, before, b[f.PixelIndex(column, rows[line]) := next], t, line', column')
  {
    PixelsApart(f, |before|, column, rows[line], column, rows[line]);
    var index := f.PixelIndex(column, rows[line]);
    var after := b[index := next];
    forall r, c | 0 <= r < |rows| && 0 <= c < f.width && IsWritten(r, c, line', column')
      ensures HasPixel(f, rows, after, t, r, c)
    {
      assert (r == line && c == column) || IsWritten(r, c, line, column);
      PixelHeld(f, rows, b, t, next, line, column, r, c);
    }
    forall i | 0 <= i < |after| && after[i] != before[i]
      ensures Reached(f, rows, i, line', column')
    {
      ReachedStays(f, rows, i, line, column, line', column');
    }
  }

  lemma PixelHeld(f: Frame, rows: seq<nat>, b: seq<Byte>, t: Text, next: Byte, line: nat, column: nat, r: nat, c: nat)
    requires f.FitsIn(|b|) && Distinct(rows) && line < |rows| && r < |rows| && rows[line] < f.height
             && rows[r] < f.height
    requires column < f.width && c < f.width && f.PixelIndex(column, rows[line]) < |b|
    requires RowStart(line, f.width) + column < |t| && t[RowStart(line, f.width) + column] == next
    requires (r == line && c == column) || HasPixel(f, rows, b, t, r, c)
    ensures HasPixel(f, rows, b[f.PixelIndex(column, rows[line]) := next], t, r, c)
  {
    if r != line || c != column {
      PixelKept(f, rows, b, t, next, line, column, r, c);
    }
  }

  lemma PixelKept(f: Frame, rows: seq<nat>, b: seq<Byte>, t: Text, next: Byte, line: nat, column: nat, r: nat, c: nat)
    requires f.FitsIn(|b|) && Distinct(rows) && line < |rows| && r < |rows| && rows[line] < f.height
             && rows[r] < f.height
    requires column < f.width && c < f.width && (r != line || c != column)
    requires HasPixel(f, rows, b, t, r, c) && f.PixelIndex(column, rows[line]) < |b|
    ensures HasPixel(f, rows, b[f.PixelIndex(column, rows[line]) := next], t, r, c)
  {
    assert rows[r] != rows[line] || c != column;
    PixelsApart(f, |b|, c, rows[r], column, rows[line]);
  }

  lemma ReachedStays(f: Frame, rows: seq<nat>, i: nat, line: nat, column: nat, line': nat, column': nat)
    requires line < |rows| && column < f.width && IsWritten(line, column, line', column')
    requires line < line' || (line == line' && column < column')
    requires i == f.PixelIndex(column, rows[line]) || Reached(f, rows, i, line, column)
    ensures Reached(f, rows, i, line', column')
  {
    if i != f.PixelIndex(column, rows[line]) {
      var r, c :| 0 <= r < |rows| && 0 <= c < f.width && IsWritten(r, c, line, column) && f.PixelIndex(c, rows[r]) == i;
      assert IsWritten(r, c, line', column');
    }
  }

  /**
   Once all pixels of a frame have been decoded, pixel c of the r-th line in writing order is at column c of
   the r-th row of that order; and unless an interlaced frame is 2, 3 or 4 rows high, that order visits
   every row.
   */
  lemma FrameInPlace(f: Frame, buffer: seq<Byte>, t: Text)
    requires f.FitsIn(|buffer|) && f.width > 0 && |t| == RowStart(f.height, f.width)
    ensures forall r, c :: 0 <= r < |f.Rows()| && 0 <= c < f.width ==>
              HasPixel(f, f.Rows(), Painted(f, buffer, t).0, t, r, c)
    ensures (forall y :: 0 <= y < f.height ==> Count(f.Rows(), y) == 1) <==> !(f.interlace && f.height in {2, 3, 4})
    ensures f.interlace && f.height !in {2, 3, 4} ==> f.Rows() == AppendixE(f.height)
  {
    var line, column := PaintedInPlace(f, buffer, t);
    RowsAtMostHeight(f);
    if line < |f.Rows()| {
      RowStartMonotone(line, f.height, f.width);
      assert false;
    }
    forall r, c | 0 <= r < |f.Rows()| && 0 <= c < f.width
      ensures HasPixel(f, f.Rows(), Painted(f, buffer, t).0, t, r, c)
    {
      assert IsWritten(r, c, line, column);
    }
    EachRowOnce(f);
  }

  lemma EachRowOnce(f: Frame)
    ensures (forall y :: 0 <= y < f.height ==> Count(f.Rows(), y) == 1) <==> !(f.interlace && f.height in {2, 3, 4})
    ensures f.interlace && f.height !in {2, 3, 4} ==> f.Rows() == AppendixE(f.height)
  {
    RowOrder(f.height);
    if f.interlace && f.height in {2, 3, 4} {
      assert f.Rows()[1..] == [];
      assert Count(f.Rows(), 1) == 0;
    } else {
      forall y | 0 <= y < f.height
        ensures Count(f.Rows(), y) == 1
      {
        if f.interlace {
          AppendixEVisitsEachRowOnce(f.height, y);
        } else {
          PlainCount(0, f.height, y);
        }
      }
    }
  }

  lemma {:induction false} PlainCount(start: nat, height: nat, y: nat)
    ensures Count(Every(start, 1, height), y) == if start <= y < height then 1 else 0
    decreases height - start
  {
    if start < height {
      PlainCount(start + 1, height, y);
      assert ([start] + Every(start + 1, 1, height))[1..] == Every(start + 1, 1, height);
    }
  }

  lemma {:induction false} EveryLength(start: nat, step: nat, height: nat)
    requires step in {1, 2, 4, 8}
    ensures start >= height ==> Every(start, step, height) == []
    ensures start < height ==>
              |Every(start, step, height)| == if step == 8 then (height - start + 7) / 8
                                              else if step == 4 then (height - start + 3) / 4
                                              else if step == 2 then (height - start + 1) / 2
                                              else height - start
    decreases height - start
  {
    if start < height {
      EveryLength(start + step, step, height);
    }
  }

  /** Four passes of an eighth, an eighth, a quarter and a half of the rows. */
  lemma AppendixELength(height: nat)
    ensures |AppendixE(height)| <= height
  {
    EveryLength(0, 8, height);
    EveryLength(4, 8, height);
    EveryLength(2, 4, height);
    EveryLength(1, 2, height);
    PassesFit(height, |Every(0, 8, height)|, |Every(4, 8, height)|, |Every(2, 4, height)|, |Every(1, 2, height)|);
  }

  lemma PassesFit(h: nat, a: nat, b: nat, c: nat, d: nat)
    requires a == (h + 7) / 8
    requires b == if h > 4 then (h + 3) / 8 else 0
    requires c == if h > 2 then (h + 1) / 4 else 0
    requires d == h / 2
    ensures a + b + c + d <= h
  {
    var q, r := h / 8, h % 8;
    assert a == q + (if r > 0 then 1 else 0) && b == q + (if r > 4 then 1 else 0);
    assert c == 2 * q + (r + 1) / 4 && d == 4 * q + r / 2;
  }

  lemma RowsAtMostHeight(f: Frame)
    ensures |f.Rows()| <= f.height
  {
    if f.interlace {
      RowOrder(f.height);
      AppendixELength(f.height);
    } else {
      EveryLength(0, 1, f.height);
    }
  }
}
