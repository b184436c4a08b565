/** Pixel buffers whose rows lie a stride apart. */
module Buffers {
  /** Index of the first pixel of a row: as many lengths as there are rows before it. */
  function RowStart(row: nat, length: nat): (r: nat)
    ensures length == 0 ==> r == 0
  {
    if row == 0 then 0 else RowStart(row - 1, length) + length
  }

  lemma {:induction false} RowStartMonotone(a: nat, b: nat, length: nat)
    requires a < b
    ensures RowStart(a, length) + length <= RowStart(b, length)
  {
    if a < b - 1 {
      RowStartMonotone(a, b - 1, length);
    }
  }

  lemma {:induction false} RowStartSum(a: nat, b: nat, length: nat)
    ensures RowStart(a + b, length) == RowStart(a, length) + RowStart(b, length)
  {
    if b > 0 {
      RowStartSum(a, b - 1, length);
    }
  }

  lemma {:induction false} RowStartIs(row: nat, length: nat)
    ensures RowStart(row, length) == row * length
  {
    if row > 0 {
      RowStartIs(row - 1, length);
    }
  }

  /** A region of a buffer: where it starts, its size, and the distance between its rows. */
  datatype Region = Region(start: nat, width: nat, height: nat, stride: nat)
  {
    predicate FitsIn(size: nat) {
      width <= stride && (height > 0 ==> start + RowStart(height - 1, stride) + width <= size)
    }

    function At(row: nat): nat { start + RowStart(row, stride) }

    ghost predicate Covers(i: nat) { exists r :: 0 <= r < height && At(r) <= i < At(r) + width }

    /** Rows lie a stride apart. */
    lemma Place(row: nat)
      ensures At(row) == start + row * stride
    {
      RowStartIs(row, stride);
    }

    lemma RowFits(row: nat, size: nat)
      requires FitsIn(size) && row < height
      ensures At(row) + width <= size
    {
      if row < height - 1 {
        RowStartMonotone(row, height - 1, stride);
      }
    }

    lemma RowsApart(a: nat, b: nat)
      requires a < b && width <= stride
      ensures At(a) + width <= At(b)
    {
      RowStartMonotone(a, b, stride);
    }
  }

  /** The rows of a region of the buffer. */
  ghost predicate Holds<T>(buffer: seq<T>, g: Region, rows: seq<seq<T>>)
    requires g.FitsIn(|buffer|)
  {
    && |rows| == g.height
    && forall r :: 0 <= r < g.height ==> HoldsRow(buffer, g, r, rows[r])
  }

  ghost predicate HoldsRow<T>(buffer: seq<T>, g: Region, r: nat, row: seq<T>)
    requires g.FitsIn(|buffer|) && r < g.height
  {
    g.RowFits(r, |buffer|);
    buffer[g.At(r)..g.At(r) + g.width] == row
  }

  function RowsIn<T>(buffer: seq<T>, g: Region): (rows: seq<seq<T>>)
    requires g.FitsIn(|buffer|)
    ensures Holds(buffer, g, rows)
  {
    seq(g.height, r requires 0 <= r < g.height => (g.RowFits(r, |buffer|); buffer[g.At(r)..g.At(r) + g.width]))
  }

  lemma HoldsOnlyRows<T>(buffer: seq<T>, g: Region, rows: seq<seq<T>>)
    requires g.FitsIn(|buffer|) && Holds(buffer, g, rows)
    ensures rows == RowsIn(buffer, g)
    ensures forall r :: 0 <= r < g.height ==> |rows[r]| == g.width
  {
    forall r | 0 <= r < g.height
      ensures rows[r] == RowsIn(buffer, g)[r] && |rows[r]| == g.width
    {
      assert HoldsRow(buffer, g, r, rows[r]);
      g.RowFits(r, |buffer|);
    }
  }

  /** Nothing but this stretch of the buffer has changed. */
  ghost predicate OnlyWithin<T>(before: seq<T>, after: seq<T>, at: nat, length: nat) {
    |after| == |before| && forall i :: 0 <= i < |before| && !(at <= i < at + length) ==> after[i] == before[i]
  }

  /** What does not belong to the region has not changed. */
  ghost predicate OutsideKept<T>(before: seq<T>, after: seq<T>, g: Region) {
    |after| == |before| && forall i :: 0 <= i < |before| && !g.Covers(i) ==> after[i] == before[i]
  }

  /** Rewriting one row of a region leaves its other rows and everything around it alone. */
  lemma RowRewritten<T>(before: seq<T>, after: seq<T>, g: Region, rows: seq<seq<T>>, k: nat, row: seq<T>)
    requires g.FitsIn(|before|) && Holds(before, g, rows) && k < g.height
    requires OnlyWithin(before, after, g.At(k), g.width) && HoldsRow(after, g, k, row)
    ensures Holds(after, g, rows[k := row]) && OutsideKept(before, after, g)
  {
    var rewritten := rows[k := row];
    forall r | 0 <= r < g.height
      ensures HoldsRow(after, g, r, rewritten[r])
    {
      assert HoldsRow(before, g, r, rows[r]);
      g.RowFits(r, |before|);
      if r < k {
        g.RowsApart(r, k);
      } else if k < r {
        g.RowsApart(k, r);
      }
      if r != k {
        assert after[g.At(r)..g.At(r) + g.width] == before[g.At(r)..g.At(r) + g.width];
      }
    }
    forall i | 0 <= i < |before| && !g.Covers(i)
      ensures after[i] == before[i]
    {
      assert !(g.At(k) <= i < g.At(k) + g.width);
    }
  }

  // Bands of rows.

  /** Some of the rows of a region. */
  function Band(g: Region, first: nat, count: nat): (b: Region)
    requires first + count <= g.height
  {
    Region(g.At(first), g.width, count, g.stride)
  }

  lemma BandRow(g: Region, first: nat, count: nat, r: nat)
    requires first + count <= g.height && r < count
    ensures Band(g, first, count).At(r) == g.At(first + r)
  {
    RowStartSum(first, r, g.stride);
  }

  lemma BandFits(g: Region, first: nat, count: nat, size: nat)
    requires first + count <= g.height && g.FitsIn(size)
    ensures Band(g, first, count).FitsIn(size)
  {
    if count > 0 {
      BandRow(g, first, count, count - 1);
      g.RowFits(first + count - 1, size);
    }
  }

  /** A band covers nothing of the rows outside it. */
  lemma BandCovers(g: Region, first: nat, count: nat, r: nat, i: nat)
    requires first + count <= g.height && g.width <= g.stride && r < g.height
    requires g.At(r) <= i < g.At(r) + g.width
    ensures Band(g, first, count).Covers(i) <==> first <= r < first + count
  {
    if first <= r < first + count {
      BandRow(g, first, count, r - first);
    } else {
      forall k | 0 <= k < count
        ensures !(Band(g, first, count).At(k) <= i < Band(g, first, count).At(k) + g.width)
      {
        BandRow(g, first, count, k);
        if first + k < r {
          g.RowsApart(first + k, r);
        } else {
          g.RowsApart(r, first + k);
        }
      }
    }
  }

  /** Writing within a band replaces these rows of the region and nothing else. */
  lemma BandRewritten<T>(before: seq<T>, after: seq<T>, g: Region, first: nat, count: nat)
    requires first + count <= g.height && g.FitsIn(|before|) && OutsideKept(before, after, Band(g, first, count))
    ensures Band(g, first, count).FitsIn(|before|)
    ensures forall r :: 0 <= r < g.height ==>
              RowsIn(after, g)[r] == if first <= r < first + count then RowsIn(after, Band(g, first, count))[r - first]
                                     else RowsIn(before, g)[r]
    ensures OutsideKept(before, after, g)
  {
    var b := Band(g, first, count);
    BandFits(g, first, count, |before|);
    forall r | 0 <= r < g.height
      ensures RowsIn(after, g)[r] == if first <= r < first + count then RowsIn(after, b)[r - first]
              else RowsIn(before, g)[r]
    {
      g.RowFits(r, |before|);
      assert HoldsRow(after, g, r, RowsIn(after, g)[r]) && HoldsRow(before, g, r, RowsIn(before, g)[r]);
      if first <= r < first + count {
        BandRow(g, first, count, r - first);
        assert HoldsRow(after, b, r - first, RowsIn(after, b)[r - first]);
      } else {
        forall i | g.At(r) <= i < g.At(r) + g.width
          ensures after[i] == before[i]
        {
          BandCovers(g, first, count, r, i);
        }
        assert after[g.At(r)..g.At(r) + g.width] == before[g.At(r)..g.At(r) + g.width];
      }
    }
    forall i | 0 <= i < |before| && !g.Covers(i)
      ensures after[i] == before[i]
    {
      forall k | 0 <= k < count
        ensures !(b.At(k) <= i < b.At(k) + g.width)
      {
        BandRow(g, first, count, k);
      }
    }
  }

  // Writing over a stretch.

  function Reversed<T>(s: seq<T>): (r: seq<T>)
    ensures |r| == |s|
  {
    seq(|s|, i requires 0 <= i < |s| => s[|s| - 1 - i])
  }

  /** The outermost elements changed places, as many on each side as given. */
  function Swapped<T>(s: seq<T>, count: nat): (r: seq<T>)
    ensures |r| == |s|
  {
    seq(|s|, i requires 0 <= i < |s| => if count <= i < |s| - count then s[i] else s[|s| - 1 - i])
  }

  /** A stretch of a buffer written over. */
  function Patched<T>(s: seq<T>, at: nat, t: seq<T>): (r: seq<T>)
    requires at + |t| <= |s|
    ensures |r| == |s| && OnlyWithin(s, r, at, |t|) && r[at..at + |t|] == t
  {
    s[..at] + t + s[at + |t|..]
  }

  lemma PatchedOn<T>(s: seq<T>, at: nat, t: seq<T>, u: seq<T>)
    requires at + |t| + |u| <= |s|
    ensures Patched(Patched(s, at, t), at + |t|, u) == Patched(s, at, t + u)
  {
  }

  lemma PatchedAt<T>(s: seq<T>, at: nat, t: seq<T>, k: nat, x: T)
    requires at + |t| <= |s| && k < |t|
    ensures Patched(s, at, t)[at + k := x] == Patched(s, at, t[k := x])
    ensures Patched(s, at, t)[at + k] == t[k]
  {
  }

  lemma SwappedOnce<T>(s: seq<T>, x: nat)
    requires x < |s| / 2
    ensures var t, y := Swapped(s, x), |s| - 1 - x; t[x := t[y]][y := t[x]] == Swapped(s, x + 1)
  {
  }

  lemma SwappedEnds<T>(s: seq<T>)
    ensures Swapped(s, 0) == s && Swapped(s, |s| / 2) == Reversed(s)
  {
  }

  lemma OneMoreSwap<T>(s: seq<T>, at: nat, row: seq<T>, x: nat, i: nat, j: nat)
    requires at + |row| <= |s| && x < |row| / 2 && i == at + x && j == at + |row| - 1 - x
    ensures var now := Patched(s, at, Swapped(row, x));
            now[i := now[j]][j := now[i]] == Patched(s, at, Swapped(row, x + 1))
  {
    var y, t := |row| - 1 - x, Swapped(row, x);
    PatchedAt(s, at, t, x, t[y]);
    PatchedAt(s, at, t, y, t[x]);
    PatchedAt(s, at, t[x := t[y]], y, t[x]);
    SwappedOnce(row, x);
  }

  lemma PatchedSame<T>(s: seq<T>, at: nat, length: nat)
    requires at + length <= |s|
    ensures Patched(s, at, s[at..at + length]) == s
  {
  }

  method Swap<T>(a: array<T>, i: nat, j: nat)
    requires i < a.Length && j < a.Length
    modifies a
    ensures a[..] == old(a[..])[i := old(a[j])][j := old(a[i])]
  {
    a[i], a[j] := a[j], a[i];
  }

  /** Swaps the elements of a stretch end for end, in place. */
  method ReverseStretch<T>(a: array<T>, at: nat, length: nat)
    requires at + length <= a.Length
    modifies a
    ensures a[..] == Patched(old(a[..]), at, Reversed(old(a[..])[at..at + length]))
  {
    ghost var before := a[..];
    ghost var row := before[at..at + length];
    SwappedEnds(row);
    PatchedSame(before, at, length);
    for x := 0 to length / 2
      invariant a[..] == Patched(before, at, Swapped(row, x))
    {
      var i, j := at + x, at + length - 1 - x;
      OneMoreSwap(before, at, row, x, i, j);
      Swap(a, i, j);
    }
  }
}
