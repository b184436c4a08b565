/**
 The LZW decoder of GIF images as a function of its state and the bits it is fed. The state machine of
 the string table is proved to compute this function.
 */
module LzwDecoding {
  import opened Bits

  const TABLE_SIZE: nat := 4096
  const MAX_WORD: nat := 12

  type Text = seq<Byte>

  datatype Decoder = Decoder(
    codeSize: nat,         // the initial code size
    table: seq<Text>,
    numCodes: nat,         // codes below this are assigned
    wordSize: nat,
    lastCode: int,         // -1 before the first code
    startWithClear: bool,  // a clear code was read, the word after it has not arrived yet
    bits: seq<Bit>,        // not consumed yet
    out: Text)             // all pixels decoded so far
  {
    function ClearCode(): nat { Pow2(codeSize) }

    function EndCode(): nat { Pow2(codeSize) + 1 }

    ghost predicate Valid() {
      && codeSize <= 11
      && |table| == TABLE_SIZE && (forall i :: 0 <= i < TABLE_SIZE ==> table[i] != [])
      && numCodes <= TABLE_SIZE
      && codeSize < wordSize <= MAX_WORD
      && -1 <= lastCode < TABLE_SIZE
    }
  }

  /** The outcome of consuming bits: out of words, end code read, or an invalid stream. */
  datatype Result = More(state: Decoder) | Done(state: Decoder) | Failed(state: Decoder)

  function FreshTable(): (t: seq<Text>)
    ensures |t| == TABLE_SIZE && forall i :: 0 <= i < TABLE_SIZE ==> t[i] == [i % 256]
  {
    seq(TABLE_SIZE, i requires 0 <= i < TABLE_SIZE => [i % 256])
  }

  function Start(codeSize: nat): (d: Decoder)
    requires codeSize <= 11
    ensures d.Valid()
  {
    CodeSizeFits(codeSize);
    Decoder(codeSize, FreshTable(), Pow2(codeSize) + 2, codeSize + 1, -1, false, [], [])
  }

  lemma CodeSizeFits(codeSize: nat)
    requires codeSize <= 11
    ensures Pow2(codeSize) + 2 <= TABLE_SIZE
  {
    Pow2Grows(codeSize, 11);
  }

  lemma WordFits(bits: seq<Bit>)
    requires |bits| <= MAX_WORD
    ensures ValueOf(bits) < TABLE_SIZE
  {
    Pow2Grows(|bits|, MAX_WORD);
  }

  /** Resetting shortens every string to its first character; assigned codes start over. */
  function ResetTable(d: Decoder): (r: Decoder)
    requires d.Valid()
    ensures r.Valid()
  {
    CodeSizeFits(d.codeSize);
    d.(table := seq(TABLE_SIZE, i requires 0 <= i < TABLE_SIZE => d.table[i][..1]),
       numCodes := Pow2(d.codeSize) + 2, wordSize := d.codeSize + 1)
  }

  /** The next word, provided there is one. */
  function Word(d: Decoder): (w: nat)
    requires d.Valid() && |d.bits| >= d.wordSize
    ensures w < TABLE_SIZE
  {
    WordFits(d.bits[..d.wordSize]);
    ValueOf(d.bits[..d.wordSize])
  }

  function DropWord(d: Decoder): (r: Decoder)
    requires d.Valid() && |d.bits| >= d.wordSize
    ensures r.Valid()
  {
    d.(bits := d.bits[d.wordSize..])
  }

  function Emit(d: Decoder, code: nat): (r: Decoder)
    requires d.Valid() && code < TABLE_SIZE
    ensures r.Valid()
  {
    d.(out := d.out + d.table[code])
  }

  /** Assigns the next code, unless the table is full, and widens the words once they need it. */
  function AddString(d: Decoder, last: nat, current: nat): (r: Decoder)
    requires d.Valid() && last < TABLE_SIZE && current < TABLE_SIZE
    ensures r.Valid()
  {
    if d.numCodes == TABLE_SIZE then d
    else
      var n := d.numCodes + 1;
      d.(table := d.table[d.numCodes := d.table[last] + [d.table[current][0]]],
         numCodes := n,
         wordSize := if n >= Pow2(d.wordSize) && d.wordSize < MAX_WORD then d.wordSize + 1 else d.wordSize)
  }

  /** A word that is neither the clear nor the end code. */
  function OnCode(d: Decoder, code: nat): (r: Decoder)
    requires d.Valid() && code < TABLE_SIZE && (d.numCodes > code || d.lastCode >= 0)
    ensures r.Valid() && r.bits == d.bits && r.startWithClear == d.startWithClear && r.codeSize == d.codeSize
  {
    var r :=
      if d.numCodes > code then
        var e := Emit(d, code);
        if d.lastCode != -1 then AddString(e, d.lastCode, code) else e
      else
        // The code about to be assigned: the last string and its own first character.
        Emit(AddString(d, d.lastCode, d.lastCode), d.numCodes);
    r.(lastCode := code)
  }

  /** The table starts over and the next word is taken as it stands, without assigning a code. */
  function AfterClear(d: Decoder): (r: Decoder)
    requires d.Valid() && |d.bits| >= d.wordSize
    ensures r.Valid() && |r.bits| < |d.bits| && !r.startWithClear
  {
    var reset := ResetTable(d);
    var code := Word(reset);
    Emit(DropWord(reset), code).(lastCode := code, startWithClear := false)
  }

  /** Consumes words for as long as there are any. */
  function Loop(d: Decoder): (r: Result)
    requires d.Valid()
    ensures r.state.Valid()
    decreases |d.bits|
  {
    if |d.bits| < d.wordSize then More(d)
    else
      var code, rest := Word(d), DropWord(d);
      if code == d.EndCode() then Done(rest)
      else if code == d.ClearCode() then
        // Whether a word is left is judged by the old word size, although a new one is about to hold.
        if |rest.bits| >= rest.wordSize then Loop(AfterClear(rest)) else Loop(rest.(startWithClear := true))
      else if d.numCodes <= code && d.lastCode < 0 then Failed(rest)
      else Loop(OnCode(rest, code))
  }

  /** One call of the decoder with the bits that have newly arrived. */
  function Feed(d: Decoder, chunk: seq<Bit>): (r: Result)
    requires d.Valid()
    ensures r.state.Valid()
  {
    Resume(d.(bits := d.bits + chunk))
  }

  function Resume(d: Decoder): (r: Result)
    requires d.Valid()
    ensures r.state.Valid()
  {
    if d.startWithClear && |d.bits| >= d.wordSize then Loop(AfterClear(d)) else Loop(d)
  }

  function WithMore(r: Result, more: seq<Bit>): Result
  {
    match r
    case More(d) => More(d.(bits := d.bits + more))
    case Done(d) => Done(d.(bits := d.bits + more))
    case Failed(d) => Failed(d.(bits := d.bits + more))
  }

  /** What a decoder in the given outcome does with further bits. */
  function Continue(r: Result, more: seq<Bit>): Result
    requires r.state.Valid()
  {
    if r.More? then Resume(r.state.(bits := r.state.bits + more)) else WithMore(r, more)
  }

  lemma WordOfLonger(d: Decoder, more: seq<Bit>)
    requires d.Valid() && |d.bits| >= d.wordSize
    ensures var longer := d.(bits := d.bits + more);
            && Word(longer) == Word(d)
            && DropWord(longer) == DropWord(d).(bits := DropWord(d).bits + more)
  {
    assert (d.bits + more)[..d.wordSize] == d.bits[..d.wordSize];
    assert (d.bits + more)[d.wordSize..] == d.bits[d.wordSize..] + more;
  }

  lemma AfterClearOfLonger(d: Decoder, more: seq<Bit>)
    requires d.Valid() && |d.bits| >= d.wordSize
    ensures AfterClear(d.(bits := d.bits + more)) == AfterClear(d).(bits := AfterClear(d).bits + more)
  {
    WordOfLonger(ResetTable(d), more);
  }

  /**
   Bits that arrive later continue exactly where the words ran out: also in the middle of a word, and
   right after a clear code.
   */
  lemma {:induction false} LoopOfLonger(d: Decoder, more: seq<Bit>)
    requires d.Valid() && !d.startWithClear
    ensures Loop(d.(bits := d.bits + more)) == Continue(Loop(d), more)
    decreases |d.bits|
  {
    if |d.bits| >= d.wordSize {
      var code, rest := Word(d), DropWord(d);
      WordOfLonger(d, more);
      if code == d.EndCode() {
      } else if code == d.ClearCode() {
        if |rest.bits| >= rest.wordSize {
          AfterClearOfLonger(rest, more);
          LoopOfLonger(AfterClear(rest), more);
        } else {
          LoopAfterLateClear(rest, more);
        }
      } else if d.numCodes <= code && d.lastCode < 0 {
      } else {
        OnCodeKeepsBits(rest, code, more);
        LoopOfLonger(OnCode(rest, code), more);
      }
    }
  }

  lemma LoopAfterLateClear(rest: Decoder, more: seq<Bit>)
    requires rest.Valid() && |rest.bits| < rest.wordSize && !rest.startWithClear
    ensures var longer := rest.(bits := rest.bits + more);
            (if |longer.bits| >= longer.wordSize then Loop(AfterClear(longer))
             else Loop(longer.(startWithClear := true)))
            == Continue(Loop(rest.(startWithClear := true)), more)
  {
    var longer := rest.(bits := rest.bits + more);
    if |longer.bits| >= longer.wordSize {
      assert AfterClear(longer.(startWithClear := true)) == AfterClear(longer);
    }
  }

  lemma OnCodeKeepsBits(d: Decoder, code: nat, more: seq<Bit>)
    requires d.Valid() && code < TABLE_SIZE && (d.numCodes > code || d.lastCode >= 0)
    ensures OnCode(d.(bits := d.bits + more), code) == OnCode(d, code).(bits := OnCode(d, code).bits + more)
  {
  }

  /** As long as there is a whole word, decoding goes on. */
  lemma {:induction false} LoopDrains(d: Decoder)
    requires d.Valid()
    ensures var r := Loop(d); r.More? ==> |r.state.bits| < r.state.wordSize
    decreases |d.bits|
  {
    if |d.bits| >= d.wordSize {
      var code, rest := Word(d), DropWord(d);
      if code == d.EndCode() {
      } else if code == d.ClearCode() {
        if |rest.bits| >= rest.wordSize {
          LoopDrains(AfterClear(rest));
        }
      } else if d.numCodes > code || d.lastCode >= 0 {
        LoopDrains(OnCode(rest, code));
      }
    }
  }

  lemma FeedDrains(d: Decoder, chunk: seq<Bit>)
    requires d.Valid()
    ensures var r := Feed(d, chunk); r.More? ==> |r.state.bits| < r.state.wordSize
  {
    var fed := d.(bits := d.bits + chunk);
    LoopDrains(if fed.startWithClear && |fed.bits| >= fed.wordSize then AfterClear(fed) else fed);
  }

  /**
   Splitting the data changes nothing: feeding two pieces one after the other is feeding them at once,
   pixels and decoder state alike. Once the end code is read, later pieces stay unread.
   */
  lemma FeedSplits(d: Decoder, a: seq<Bit>, b: seq<Bit>)
    requires d.Valid()
    ensures Feed(d, a + b) == Continue(Feed(d, a), b)
  {
    var da := d.(bits := d.bits + a);
    assert d.bits + (a + b) == da.bits + b;
    if da.startWithClear && |da.bits| >= da.wordSize {
      AfterClearOfLonger(da, b);
      LoopOfLonger(AfterClear(da), b);
    } else if !da.startWithClear {
      LoopOfLonger(da, b);
    }
  }
}
