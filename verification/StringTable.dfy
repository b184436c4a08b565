/** The string table of a GIF frame: LZW decoding straight into the surface of the frame. */
module StringTables {
  import opened Common
  import opened Bits
  import opened StreamConversion
  import opened LzwDecoding
  import opened Interlacing

  datatype Status = GoOn | EndReached | CodecError

  class StringTable {
    const frame: Frame
    // The locked surface of the frame.
    const dest: array<Byte>
    const codeSize: nat
    const clearCode: nat
    const endCode: nat
    const table: array<Text>
    const stream: StreamConverter
    var x: nat
    var y: nat
    var pass: nat
    var lastCode: int
    var numCodes: nat
    var startWithClear: bool
    // The state of the decoder as a value, and the surface before the first pixel.
    ghost var state: Decoder
    ghost const initial: seq<Byte>

    /** The fields are those of the decoder. */
    ghost predicate Represents(d: Decoder)
      reads this, table, stream
    {
      && stream.Valid() && d.bits == stream.Queue() && d.wordSize == stream.wordSize
      && d.codeSize == codeSize && d.table == table[..] && d.numCodes == numCodes
      && d.lastCode == lastCode && d.startWithClear == startWithClear
    }

    /** The surface holds what has been decoded, and the cursor is where it belongs. */
    ghost predicate Shows(out: Text)
      reads this, dest
    {
      && frame.FitsIn(dest.Length) && |initial| == dest.Length
      && Painted(frame, initial, out) == (dest[..], Cursor(x, y, pass))
    }

    ghost predicate Valid()
      reads this, dest, table, stream
    {
      && state.Valid() && Represents(state) && Shows(state.out)
      && clearCode == Pow2(codeSize) && endCode == Pow2(codeSize) + 1
    }

    constructor (frame: Frame, dest: array<Byte>, minCodeSize: nat)
      requires minCodeSize <= 11 && frame.FitsIn(dest.Length)
      ensures Valid() && state == Start(minCodeSize)
      ensures this.frame == frame && this.dest == dest && initial == dest[..]
      ensures fresh(table) && fresh(stream)
    {
      this.frame, this.dest, this.codeSize := frame, dest, minCodeSize;
      clearCode, endCode := Pow2(minCodeSize), Pow2(minCodeSize) + 1;
      table := new Text[TABLE_SIZE](_ => []);
      stream := new StreamConverter();
      x, y, pass, lastCode, startWithClear := 0, 0, 0, -1, false;
      numCodes := 0;
      initial := dest[..];
      new;
      ResetTable();
      state := Start(minCodeSize);
      assert table[..] == state.table;
    }

    /** Leaves every entry with one character: its own number if it had none, else its first. */
    method ResetTable()
      requires stream.Valid() && table.Length == TABLE_SIZE
      modifies this`numCodes, table, stream`wordSize
      ensures stream.Valid() && stream.Queue() == old(stream.Queue())
      ensures numCodes == Pow2(codeSize) + 2 && stream.wordSize == codeSize + 1
      ensures forall i :: 0 <= i < TABLE_SIZE ==>
                table[i] == if old(table[i]) == [] then [i % 256] else old(table[i])[..1]
    {
      stream.ChangeWordSize(codeSize + 1);
      var i := 0;
      while i < TABLE_SIZE
        modifies table
        invariant 0 <= i <= TABLE_SIZE
        invariant forall j :: 0 <= j < TABLE_SIZE ==>
                    table[j] == if i <= j then old(table[j])
                                else if old(table[j]) == [] then [j % 256] else old(table[j])[..1]
      {
        table[i] := if table[i] == [] then [i % 256] else table[i][..1];
        i := i + 1;
      }
      numCodes := Pow2(codeSize) + 2;
    }

    /** Starting over, once the table is filled. */
    method StartOver()
      requires Valid()
      modifies this`numCodes, this`state, table, stream`wordSize
      ensures Valid() && state == LzwDecoding.ResetTable(old(state))
    {
      ResetTable();
      state := LzwDecoding.ResetTable(state);
      assert table[..] == state.table;
    }

    /** Writes the string of a code at the cursor; what no longer fits the frame is dropped. */
    method WriteString(code: nat)
      requires Valid() && code < TABLE_SIZE
      modifies this`x, this`y, this`pass, this`state, dest
      ensures Valid() && state == Emit(old(state), code)
    {
      WritePixels(state.out, table[code]);
      state := Emit(state, code);
    }

    method WritePixels(ghost before: Text, current: Text)
      requires Shows(before)
      modifies this`x, this`y, this`pass, dest
      ensures Shows(before + current)
    {
      var i := 0;
      TextSplits(before, current, 0);
      while i < |current|
        modifies this`x, this`y, this`pass, dest
        invariant 0 <= i <= |current|
        invariant Shows(before + current[..i])
      {
        TextSplits(before, current, i);
        if x >= frame.width || y >= frame.height {
          PaintedStays(frame, initial, before + current[..i], current[i..]);
          return;
        }
        WritePixel(before + current[..i], current[i]);
        i := i + 1;
      }
      TextSplits(before, current, i);
    }

    method WritePixel(ghost before: Text, pixel: Byte)
      requires Shows(before) && x < frame.width && y < frame.height
      modifies this`x, this`y, this`pass, dest
      ensures Shows(before + [pixel])
    {
      assert (before + [pixel])[..|before|] == before;
      CursorInBuffer(Cursor(x, y, pass));
      dest[frame.PixelIndex(x, y)] := pixel;
      AdvanceCursor();
    }

    method AdvanceCursor()
      requires pass <= 3
      modifies this`x, this`y, this`pass
      ensures Cursor(x, y, pass) == Advanced(frame, old(Cursor(x, y, pass)))
    {
      x := x + 1;
      if x == frame.width {
        x := 0;
        if !frame.interlace {
          y := y + 1;
        } else if pass == 0 {
          y := y + 8;
          if y >= frame.height {
            y, pass := 4, 1;
          }
        } else if pass == 1 {
          y := y + 8;
          if y >= frame.height {
            y, pass := 2, 2;
          }
        } else if pass == 2 {
          y := y + 4;
          if y >= frame.height {
            y, pass := 1, 3;
          }
        } else if pass == 3 {
          y := y + 2;
        }
      }
    }

    lemma CursorInBuffer(c: Cursor)
      requires frame.FitsIn(dest.Length) && c.x < frame.width && c.y < frame.height
      ensures frame.PixelIndex(c.x, c.y) < dest.Length
    {
      PixelsApart(frame, dest.Length, c.x, c.y, c.x, c.y);
    }

    /** Assigns the next code unless the table is full; without a last code the stream is invalid. */
    method AddString(last: int, current: int) returns (code: Option<nat>)
      requires Valid() && -1 <= last < TABLE_SIZE && -1 <= current < TABLE_SIZE
      modifies this`numCodes, this`state, table, stream`wordSize
      ensures Valid()
      ensures code.None? <==> old(numCodes) < TABLE_SIZE && (last < 0 || current < 0)
      ensures code.Some? ==> code.value == old(numCodes)
      ensures state == if last < 0 || current < 0 then old(state) else LzwDecoding.AddString(old(state), last, current)
    {
      if numCodes == TABLE_SIZE {
        return Some(numCodes);
      }
      if last < 0 || current < 0 {
        return None;
      }
      table[numCodes] := table[last] + [table[current][0]];
      numCodes := numCodes + 1;
      var size := stream.wordSize;
      if numCodes >= Pow2(size) && size < MAX_WORD {
        stream.ChangeWordSize(size + 1);
      }
      state := LzwDecoding.AddString(state, last, current);
      return Some(numCodes - 1);
    }

    /** Decodes as much as the data allow. */
    method Decompress(source: seq<Byte>) returns (status: Status)
      requires Valid()
      modifies this`x, this`y, this`pass, this`lastCode, this`numCodes, this`startWithClear, this`state
      modifies dest, table, stream
      ensures Valid()
      ensures Ends(Feed(old(state), BytesToBits(source)), state, status)
    {
      ghost var goal := Feed(state, BytesToBits(source));
      TakeIn(source);
      status := GoOn;
      while stream.IsWordsLeft() && status == GoOn
        modifies this`x, this`y, this`pass, this`lastCode, this`numCodes, this`startWithClear, this`state
        modifies dest, table, stream
        invariant Valid()
        invariant if status == GoOn then Loop(state) == goal else Ends(goal, state, status)
        decreases |state.bits|, status == GoOn
      {
        status := Step();
      }
    }

    /** Queues the data, and makes up for a clear code whose word has been waited for. */
    method TakeIn(source: seq<Byte>)
      requires Valid()
      modifies this`x, this`y, this`pass, this`lastCode, this`numCodes, this`startWithClear, this`state
      modifies dest, table, stream
      ensures Valid() && Feed(old(state), BytesToBits(source)) == Loop(state)
    {
      stream.AddBytes(source);
      state := state.(bits := state.bits + BytesToBits(source));
      if startWithClear && stream.IsWordsLeft() {
        StartOver();
        FirstAfterClear();
      }
    }

    /** One turn of the loop: the next word and what follows from it. */
    method Step() returns (status: Status)
      requires Valid() && stream.IsWordsLeft()
      modifies this`x, this`y, this`pass, this`lastCode, this`numCodes, this`startWithClear, this`state
      modifies dest, table, stream
      ensures Valid() && |state.bits| < |old(state.bits)|
      ensures if status == GoOn then Loop(state) == Loop(old(state)) else Ends(Loop(old(state)), state, status)
    {
      var currentCode := NextWord();
      if currentCode == endCode {
        return EndReached;
      }
      if currentCode == clearCode {
        OnClear();
        return GoOn;
      }
      status := OnOrdinaryCode(currentCode);
    }

    method NextWord() returns (word: nat)
      requires Valid() && stream.IsWordsLeft()
      modifies stream`source, stream`srcPos, this`state
      ensures Valid() && word == Word(old(state)) && word < TABLE_SIZE
      ensures state == DropWord(old(state))
    {
      word := stream.GetWord();
      state := DropWord(state);
    }

    /** The word behind a clear code, taken as it stands. */
    method FirstAfterClear()
      requires Valid() && stream.IsWordsLeft()
      modifies this`x, this`y, this`pass, this`lastCode, this`startWithClear, this`state, dest, stream`source,
        stream`srcPos
      ensures Valid()
      ensures state
              == Emit(DropWord(old(state)), Word(old(state))).(lastCode := Word(old(state)), startWithClear := false)
    {
      var code := NextWord();
      WriteString(code);
      lastCode, startWithClear := code, false;
      state := state.(lastCode := code, startWithClear := false);
    }

    /** A clear code: the word behind it follows at once, or is waited for. */
    method OnClear()
      requires Valid()
      modifies this`x, this`y, this`pass, this`lastCode, this`numCodes, this`startWithClear, this`state
      modifies dest, table, stream
      ensures Valid()
      ensures state == if |old(state.bits)| >= old(state).wordSize then AfterClear(old(state))
                       else old(state).(startWithClear := true)
    {
      if stream.IsWordsLeft() {
        StartOver();
        FirstAfterClear();
      } else {
        startWithClear, state := true, state.(startWithClear := true);
      }
    }

    method OnOrdinaryCode(currentCode: nat) returns (status: Status)
      requires Valid() && currentCode < TABLE_SIZE
      modifies this`x, this`y, this`pass, this`lastCode, this`numCodes, this`state, dest, table, stream`wordSize
      ensures Valid()
      ensures status == if old(numCodes > currentCode || lastCode >= 0) then GoOn else CodecError
      ensures state == if status == GoOn then OnCode(old(state), currentCode) else old(state)
    {
      if numCodes > currentCode {
        WriteString(currentCode);
        if lastCode != -1 {
          var _ := AddString(lastCode, currentCode);
        }
      } else {
        var newCode := AddString(lastCode, lastCode);
        if newCode.None? {
          return CodecError;
        }
        WriteString(newCode.value);
      }
      lastCode, state := currentCode, state.(lastCode := currentCode);
      return GoOn;
    }
  }

  /** A call ends in this decoder state with this status. */
  ghost predicate Ends(r: Result, state: Decoder, status: Status) {
    state == r.state && status == if r.More? then GoOn else if r.Done? then EndReached else CodecError
  }

  lemma TextSplits(before: Text, current: Text, i: nat)
    requires i <= |current|
    ensures before + current[..i] + current[i..] == before + current
    ensures i < |current| ==> before + current[..i] + [current[i]] == before + current[..i + 1]
    ensures i == 0 ==> before + current[..i] == before
    ensures i == |current| ==> before + current[..i] == before + current
  {
  }

  /** A cursor beyond the frame stays there, and the surface stays as it is. */
  lemma {:induction false} PaintedStays(f: Frame, buffer: seq<Byte>, t: Text, more: Text)
    requires var c := Painted(f, buffer, t).1; c.x >= f.width || c.y >= f.height
    ensures Painted(f, buffer, t + more) == Painted(f, buffer, t)
    decreases |more|
  {
    if more == [] {
      assert t + more == t;
    } else {
      PaintedStays(f, buffer, t, more[..|more| - 1]);
      assert (t + more)[..|t + more| - 1] == t + more[..|more| - 1];
    }
  }
}
