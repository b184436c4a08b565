/**
 The variable-length-code LZW compression of GIF89a, Appendix F, as a reference for the decoder: greedy
 matching, any number of clear codes between any two codes, and the possibility to go on with a full table.
 */
module LzwEncoding {
  import opened Common
  import opened Bits
  import opened LzwDecoding

  /** A code and the number of bits it is written with. */
  datatype Token = Token(code: nat, width: nat)

  function TokenBits(ts: seq<Token>): seq<Bit> {
    if ts == [] then [] else ToBits(ts[0].code, ts[0].width) + TokenBits(ts[1..])
  }

  /** The first code that can stand for more than one pixel. */
  function FirstCode(cs: nat): nat { Pow2(cs) + 2 }

  predicate Known(s: Text, entries: seq<Text>) { |s| == 1 || s in entries }

  function IndexOf(s: Text, entries: seq<Text>): (i: nat)
    requires s in entries
    ensures i < |entries| && entries[i] == s
  {
    if entries[0] == s then 0 else 1 + IndexOf(s, entries[1..])
  }

  function CodeOf(cs: nat, s: Text, entries: seq<Text>): nat
    requires Known(s, entries) && s != []
  {
    if |s| == 1 then s[0] else FirstCode(cs) + IndexOf(s, entries)
  }

  /** Extends a known prefix of the pixels for as long as it stays known. */
  function MatchLength(p: Text, entries: seq<Text>, k: nat): (r: nat)
    requires 0 < k <= |p| && Known(p[..k], entries)
    ensures k <= r <= |p| && Known(p[..r], entries)
    ensures r < |p| ==> !Known(p[..r + 1], entries)
    decreases |p| - k
  {
    if k < |p| && Known(p[..k + 1], entries) then MatchLength(p, entries, k + 1) else k
  }

  /** A word widens when the newest assigned code no longer fits. */
  function Widened(width: nat, codes: nat): nat {
    if codes >= Pow2(width) && width < MAX_WORD then width + 1 else width
  }

  function ClearToken(cs: nat, width: nat): Token { Token(Pow2(cs), width) }

  function EndToken(cs: nat, width: nat): Token { Token(Pow2(cs) + 1, width) }

  /** Codes the pixels that are left; `clears` says, by how many are left, how often to start over first. */
  function EncodeFrom(cs: nat, p: Text, entries: seq<Text>, width: nat, clears: nat -> nat): seq<Token>
    decreases |p|, 2, 0
  {
    if clears(|p|) > 0 then [ClearToken(cs, width)] + EncodeCleared(cs, p, clears(|p|) - 1, clears)
    else EncodeMatch(cs, p, entries, width, clears)
  }

  /** What follows a clear code, the first of further ones included. */
  function EncodeCleared(cs: nat, p: Text, more: nat, clears: nat -> nat): seq<Token>
    decreases |p|, 1, more
  {
    if more > 0 then [ClearToken(cs, cs + 1)] + EncodeCleared(cs, p, more - 1, clears)
    else EncodeMatch(cs, p, [], cs + 1, clears)
  }

  /** The code of the longest known string, or the end code. */
  function EncodeMatch(cs: nat, p: Text, entries: seq<Text>, width: nat, clears: nat -> nat): seq<Token>
    decreases |p|, 0, 0
  {
    if p == [] then [EndToken(cs, width)]
    else
      var k := MatchLength(p, entries, 1);
      [Token(CodeOf(cs, p[..k], entries), width)]
      + EncodeFrom(cs, p[k..], Grown(cs, entries, p, k), Widened(width, FirstCode(cs) + |entries|), clears)
  }

  /** The string just coded and the next pixel, if there is one, become an entry while there is room. */
  function Grown(cs: nat, entries: seq<Text>, p: Text, k: nat): seq<Text>
    requires k <= |p|
  {
    if k < |p| && FirstCode(cs) + |entries| < TABLE_SIZE then entries + [p[..k + 1]] else entries
  }

  function Encode(cs: nat, p: Text, clears: nat -> nat): seq<Token> { EncodeFrom(cs, p, [], cs + 1, clears) }

  /**
   Every clear code is followed by the code of pixels, neither by another clear code nor by the end code, and
   by at least as many bits as it takes itself: codes, the end code, and whatever pads the data.
   */
  predicate Readable(cs: nat, ts: seq<Token>, padding: nat)
  {
    ts != [] ==>
      && (ts[0].code == Pow2(cs) ==>
            && |TokenBits(ts[1..])| + padding >= ts[0].width
            && ts[1..] != [] && ts[1].code != Pow2(cs) && ts[1].code != Pow2(cs) + 1)
      && Readable(cs, ts[1..], padding)
  }

  /** Somewhere a clear code follows another. */
  ghost predicate TwoClears(cs: nat, ts: seq<Token>) {
    exists i :: 0 <= i < |ts| - 1 && ts[i].code == Pow2(cs) && ts[i + 1].code == Pow2(cs)
  }

  // The decoder in step with the encoder.

  /** The decoder's table means the encoder's entries. */
  ghost predicate Holds(d: Decoder, entries: seq<Text>)
    requires d.Valid()
  {
    && d.numCodes == FirstCode(d.codeSize) + |entries|
    && HasRoots(d)
    && forall i :: 0 <= i < |entries| ==> d.table[FirstCode(d.codeSize) + i] == entries[i]
  }

  ghost predicate HasRoots(d: Decoder)
    requires d.Valid()
  {
    forall i :: 0 <= i < FirstCode(d.codeSize) && i < TABLE_SIZE ==> d.table[i] == [i % 256]
  }

  ghost predicate InRange(cs: nat, p: Text) { forall i :: 0 <= i < |p| ==> p[i] < Pow2(cs) }

  /** All assigned codes fit the width, which never exceeds what is needed by more than the lag. */
  ghost predicate WidthOk(cs: nat, entries: seq<Text>, width: nat) {
    && cs < width <= MAX_WORD
    && FirstCode(cs) + |entries| <= Pow2(width)
    && FirstCode(cs) + |entries| <= TABLE_SIZE
  }

  /** Ready for the next code: the decoder may lag one entry behind, the one the next code completes. */
  ghost predicate Ready(d: Decoder, p: Text, entries: seq<Text>, width: nat) {
    && d.Valid() && !d.startWithClear && 2 <= d.codeSize <= 8
    && p != [] && InRange(d.codeSize, p)
    && d.wordSize == width && WidthOk(d.codeSize, entries, width)
    && (AtStart(d, entries, width) || Lagging(d, p[0], entries) || Full(d, entries))
  }

  ghost predicate AtStart(d: Decoder, entries: seq<Text>, width: nat)
    requires d.Valid()
  {
    d.lastCode == -1 && entries == [] && width == d.codeSize + 1 && Holds(d, [])
  }

  /** All but the newest entry is in the table; that one continues the last string with the next pixel. */
  ghost predicate Lagging(d: Decoder, next: Byte, entries: seq<Text>)
    requires d.Valid()
  {
    && d.lastCode >= 0 && |entries| > 0 && Holds(d, entries[..|entries| - 1])
    && entries[|entries| - 1] == d.table[d.lastCode] + [next]
  }

  ghost predicate Full(d: Decoder, entries: seq<Text>)
    requires d.Valid()
  {
    d.lastCode >= 0 && FirstCode(d.codeSize) + |entries| == TABLE_SIZE && Holds(d, entries)
  }

  /** Just after the code for the first k pixels was read. */
  ghost predicate After(d: Decoder, p: Text, k: nat, entries: seq<Text>, width: nat) {
    && d.Valid() && !d.startWithClear && 2 <= d.codeSize <= 8
    && 0 < k <= |p| && InRange(d.codeSize, p)
    && d.wordSize == width && WidthOk(d.codeSize, entries, width)
    && (FirstCode(d.codeSize) + |entries| == Pow2(width) ==> width == MAX_WORD)
    && Holds(d, entries)
    && d.lastCode >= 0 && d.table[d.lastCode] == p[..k]
  }

  lemma Powers()
    ensures Pow2(2) == 4 && Pow2(8) == 256 && Pow2(12) == TABLE_SIZE
  {
  }

  lemma SmallPowers(cs: nat)
    requires 2 <= cs <= 8
    ensures 4 <= Pow2(cs) <= 256 && FirstCode(cs) < Pow2(cs + 1)
  {
    Powers();
    Pow2Grows(2, cs);
    Pow2Grows(cs, 8);
  }

  /** The code of a known string: a root, or an entry; never the clear or the end code. */
  lemma CodeInRange(cs: nat, p: Text, k: nat, entries: seq<Text>, width: nat)
    requires 2 <= cs <= 8 && 0 < k <= |p| && InRange(cs, p) && Known(p[..k], entries) && WidthOk(cs, entries, width)
    ensures var code := CodeOf(cs, p[..k], entries);
            && code < Pow2(width) && code < TABLE_SIZE && code < FirstCode(cs) + |entries|
            && code != Pow2(cs) && code != Pow2(cs) + 1
            && (k == 1 ==> code == p[0] < Pow2(cs))
            && (code < Pow2(cs) ==> k == 1 && code == p[0])
            && (k > 1 ==> code >= FirstCode(cs) && entries[code - FirstCode(cs)] == p[..k])
  {
    SmallPowers(cs);
  }

  lemma FullIsWide(cs: nat, entries: seq<Text>, width: nat)
    requires WidthOk(cs, entries, width) && FirstCode(cs) + |entries| == TABLE_SIZE
    ensures width == MAX_WORD
  {
    Powers();
    if width < MAX_WORD {
      Pow2Grows(width, MAX_WORD);
    }
  }

  /** The string of a code that the table already holds. */
  lemma StringOfCode(d: Decoder, p: Text, k: nat, entries: seq<Text>, held: seq<Text>, width: nat)
    requires d.Valid() && 2 <= d.codeSize <= 8 && 0 < k <= |p| && InRange(d.codeSize, p) && Known(p[..k], entries)
    requires WidthOk(d.codeSize, entries, width)
    requires held <= entries && Holds(d, held)
    requires CodeOf(d.codeSize, p[..k], entries) < d.numCodes
    ensures CodeOf(d.codeSize, p[..k], entries) < TABLE_SIZE && d.table[CodeOf(d.codeSize, p[..k], entries)] == p[..k]
  {
    CodeInRange(d.codeSize, p, k, entries, width);
    SmallPowers(d.codeSize);
    var code := CodeOf(d.codeSize, p[..k], entries);
    if k == 1 {
      assert p[..k] == [p[0]];
    } else {
      assert d.table[FirstCode(d.codeSize) + (code - FirstCode(d.codeSize))] == held[code - FirstCode(d.codeSize)];
    }
  }

  ghost predicate MatchRead(d: Decoder, p: Text, k: nat, code: nat, entries: seq<Text>, width: nat)
    requires d.Valid() && 0 < k <= |p|
  {
    && code < Pow2(width) && code < TABLE_SIZE && code != d.ClearCode() && code != d.EndCode()
    && (d.numCodes > code || d.lastCode >= 0)
    && After(OnCode(d, code), p, k, entries, Widened(width, FirstCode(d.codeSize) + |entries|))
    && OnCode(d, code).out == d.out + p[..k]
  }

  /** Reading one matched code brings the decoder from `Ready` to `After`, emitting the match. */
  lemma ReadMatch(d: Decoder, p: Text, entries: seq<Text>, width: nat)
    requires Ready(d, p, entries, width)
    ensures var k := MatchLength(p, entries, 1);
            MatchRead(d, p, k, CodeOf(d.codeSize, p[..k], entries), entries, width)
  {
    var k := MatchLength(p, entries, 1);
    if AtStart(d, entries, width) {
      ReadMatchAtStart(d, p, k, entries, width);
    } else if Full(d, entries) {
      ReadMatchFull(d, p, k, entries, width);
    } else {
      ReadMatchLagging(d, p, k, entries, width);
    }
  }

  lemma ReadMatchAtStart(d: Decoder, p: Text, k: nat, entries: seq<Text>, width: nat)
    requires Ready(d, p, entries, width) && AtStart(d, entries, width) && 0 < k <= |p| && Known(p[..k], entries)
    ensures MatchRead(d, p, k, CodeOf(d.codeSize, p[..k], entries), entries, width)
  {
    CodeInRange(d.codeSize, p, k, entries, width);
    SmallPowers(d.codeSize);
    StringOfCode(d, p, k, entries, entries, width);
  }

  lemma ReadMatchFull(d: Decoder, p: Text, k: nat, entries: seq<Text>, width: nat)
    requires Ready(d, p, entries, width) && Full(d, entries) && 0 < k <= |p| && Known(p[..k], entries)
    ensures MatchRead(d, p, k, CodeOf(d.codeSize, p[..k], entries), entries, width)
  {
    CodeInRange(d.codeSize, p, k, entries, width);
    SmallPowers(d.codeSize);
    StringOfCode(d, p, k, entries, entries, width);
    FullIsWide(d.codeSize, entries, width);
  }

  /** The lagging entry is completed by the code just read, even when it is that very entry. */
  lemma ReadMatchLagging(d: Decoder, p: Text, k: nat, entries: seq<Text>, width: nat)
    requires Ready(d, p, entries, width) && Lagging(d, p[0], entries) && 0 < k <= |p| && Known(p[..k], entries)
    ensures MatchRead(d, p, k, CodeOf(d.codeSize, p[..k], entries), entries, width)
  {
    var code := CodeOf(d.codeSize, p[..k], entries);
    var held, last := entries[..|entries| - 1], entries[|entries| - 1];
    CodeInRange(d.codeSize, p, k, entries, width);
    SmallPowers(d.codeSize);
    if code < d.numCodes {
      ReadOlderCode(d, p, k, entries, held, last, width, code);
    } else {
      ReadNewestCode(d, p, k, entries, held, last, width, code);
    }
    TableGrows(d, OnCode(d, code), held, last);
    assert held + [last] == entries;
    WidenedFits(d.codeSize, entries, width);
  }

  /** Reading a code completes the newest entry. */
  ghost predicate Completes(d: Decoder, p: Text, k: nat, code: nat, last: Text)
    requires d.Valid() && k <= |p| && code < TABLE_SIZE && (d.numCodes > code || d.lastCode >= 0)
  {
    var r := OnCode(d, code);
    && d.numCodes < TABLE_SIZE && r.table == d.table[d.numCodes := last] && r.numCodes == d.numCodes + 1
    && r.wordSize == Widened(d.wordSize, r.numCodes) && r.lastCode == code && r.table[code] == p[..k]
    && r.out == d.out + p[..k]
  }

  lemma ReadOlderCode(d: Decoder, p: Text, k: nat, entries: seq<Text>, held: seq<Text>, last: Text, width: nat,
                      code: nat)
    requires Ready(d, p, entries, width) && Lagging(d, p[0], entries) && 0 < k <= |p| && Known(p[..k], entries)
    requires held == entries[..|entries| - 1] && last == entries[|entries| - 1]
    requires code == CodeOf(d.codeSize, p[..k], entries) < d.numCodes && code < TABLE_SIZE
    ensures Completes(d, p, k, code, last)
  {
    CodeInRange(d.codeSize, p, k, entries, width);
    SmallPowers(d.codeSize);
    StringOfCode(d, p, k, entries, held, width);
  }

  /** The code stands for the entry that is only now completed. */
  lemma ReadNewestCode(d: Decoder, p: Text, k: nat, entries: seq<Text>, held: seq<Text>, last: Text, width: nat,
                       code: nat)
    requires Ready(d, p, entries, width) && Lagging(d, p[0], entries) && 0 < k <= |p| && Known(p[..k], entries)
    requires held == entries[..|entries| - 1] && last == entries[|entries| - 1]
    requires d.numCodes <= code == CodeOf(d.codeSize, p[..k], entries) && code < TABLE_SIZE
    ensures Completes(d, p, k, code, last)
  {
    CodeInRange(d.codeSize, p, k, entries, width);
    SmallPowers(d.codeSize);
    assert p[..k] == last;
    assert d.table[d.lastCode] + [p[0]] == last;
    assert p[0] == d.table[d.lastCode][0];
  }

  lemma TableGrows(d: Decoder, r: Decoder, held: seq<Text>, last: Text)
    requires d.Valid() && r.Valid() && Holds(d, held) && d.numCodes < TABLE_SIZE
    requires r.codeSize == d.codeSize && r.table == d.table[d.numCodes := last] && r.numCodes == d.numCodes + 1
    ensures Holds(r, held + [last])
  {
  }

  lemma WidenedFits(cs: nat, entries: seq<Text>, width: nat)
    requires WidthOk(cs, entries, width)
    ensures var w := Widened(width, FirstCode(cs) + |entries|);
            WidthOk(cs, entries, w) && (FirstCode(cs) + |entries| == Pow2(w) ==> w == MAX_WORD)
  {
    Pow2Grows(width, width + 1);
  }

  lemma WordOfToken(d: Decoder, t: Token, rest: seq<Bit>)
    requires d.Valid() && t.width == d.wordSize && t.code < Pow2(t.width)
    requires d.bits == ToBits(t.code, t.width) + rest
    ensures Word(d) == t.code && DropWord(d) == d.(bits := rest)
  {
    assert d.bits[..d.wordSize] == ToBits(t.code, t.width);
    assert d.bits[d.wordSize..] == rest;
    ValueOfToBits(t.code, t.width);
  }

  /**
   What becomes of an encoding that is not readable. The decoder waits for more data; or it has drawn a clear
   code as a pixel; or, behind all pixels, the end code.
   */
  ghost predicate GoesWrong(cs: nat, ts: seq<Token>, r: Result, before: Text, p: Text) {
    || (r.More? && exists n :: 0 <= n <= |p| && r.state.out == before + p[..n])
    || (TwoClears(cs, ts) && exists n :: 0 <= n <= |p| && before + p[..n] + [Pow2(cs) % 256] <= r.state.out)
    || before + p + [(Pow2(cs) + 1) % 256] <= r.state.out
  }

  ghost predicate DecodesTo(cs: nat, ts: seq<Token>, padding: nat, r: Result, before: Text, p: Text) {
    if Readable(cs, ts, padding) then r.Done? && r.state.out == before + p else GoesWrong(cs, ts, r, before, p)
  }

  lemma TwoClearsLater(cs: nat, t: Token, ts: seq<Token>)
    requires TwoClears(cs, ts)
    ensures TwoClears(cs, [t] + ts)
  {
    var i :| 0 <= i < |ts| - 1 && ts[i].code == Pow2(cs) && ts[i + 1].code == Pow2(cs);
    assert ([t] + ts)[i + 1] == ts[i] && ([t] + ts)[i + 2] == ts[i + 1];
  }

  lemma PrefixJoins(before: Text, p: Text, k: nat, n: nat)
    requires k <= |p| && n <= |p| - k
    ensures before + p[..k] + p[k..][..n] == before + p[..k + n]
    ensures before + p[..k] + p[k..] == before + p
  {
    assert p[..k] + p[k..][..n] == p[..k + n];
    assert p[..k] + p[k..] == p;
    ConcatAssociates(before, p[..k], p[k..][..n]);
    ConcatAssociates(before, p[..k], p[k..]);
  }

  /** One token more in front, which stood for the first k pixels. */
  lemma DecodesToLonger(cs: nat, t: Token, ts: seq<Token>, padding: nat, r: Result, before: Text, p: Text, k: nat)
    requires k <= |p| && DecodesTo(cs, ts, padding, r, before + p[..k], p[k..])
    requires t.code == Pow2(cs) ==> Readable(cs, [t] + ts, padding) == Readable(cs, ts, padding)
    ensures DecodesTo(cs, [t] + ts, padding, r, before, p)
  {
    assert ([t] + ts)[1..] == ts;
    PrefixJoins(before, p, k, 0);
    if !Readable(cs, ts, padding) {
      GoesWrongLonger(cs, t, ts, r, before, p, k);
    }
  }

  lemma GoesWrongLonger(cs: nat, t: Token, ts: seq<Token>, r: Result, before: Text, p: Text, k: nat)
    requires k <= |p| && GoesWrong(cs, ts, r, before + p[..k], p[k..])
    ensures GoesWrong(cs, [t] + ts, r, before, p)
  {
    PrefixJoins(before, p, k, 0);
    if r.More? && exists n :: 0 <= n <= |p[k..]| && r.state.out == before + p[..k] + p[k..][..n] {
      var n :| 0 <= n <= |p[k..]| && r.state.out == before + p[..k] + p[k..][..n];
      PrefixJoins(before, p, k, n);
    } else if TwoClears(cs, ts)
              && exists n :: 0 <= n <= |p[k..]| && before + p[..k] + p[k..][..n] + [Pow2(cs) % 256] <= r.state.out {
      var n :| 0 <= n <= |p[k..]| && before + p[..k] + p[k..][..n] + [Pow2(cs) % 256] <= r.state.out;
      PrefixJoins(before, p, k, n);
      TwoClearsLater(cs, t, ts);
      assert before + p[..k + n] + [Pow2(cs) % 256] <= r.state.out;
    }
  }

  /** Decoding only ever appends pixels. */
  lemma {:induction false} LoopAppends(d: Decoder)
    requires d.Valid()
    ensures d.out <= Loop(d).state.out
    decreases |d.bits|
  {
    if |d.bits| >= d.wordSize {
      var code, rest := Word(d), DropWord(d);
      if code == d.EndCode() {
      } else if code == d.ClearCode() {
        if |rest.bits| >= rest.wordSize {
          LoopAppends(AfterClear(rest));
        }
      } else if d.numCodes > code || d.lastCode >= 0 {
        LoopAppends(OnCode(rest, code));
      }
    }
  }

  /** Between two codes: ready for the next, if there are pixels left. */
  ghost predicate AtGap(d: Decoder, p: Text, entries: seq<Text>, width: nat) {
    && d.Valid() && !d.startWithClear && 2 <= d.codeSize <= 8 && HasRoots(d)
    && InRange(d.codeSize, p) && d.wordSize == width
    && (p != [] ==> Ready(d, p, entries, width))
  }

  /** From there, the decoder reads all that the encoder wrote for the pixels that are left. */
  lemma DecodesFrom(d: Decoder, p: Text, entries: seq<Text>, width: nat, clears: nat -> nat, padding: seq<Bit>)
    requires AtGap(d, p, entries, width)
    requires d.bits == TokenBits(EncodeFrom(d.codeSize, p, entries, width, clears)) + padding
    ensures DecodesTo(d.codeSize, EncodeFrom(d.codeSize, p, entries, width, clears), |padding|, Loop(d), d.out, p)
    decreases |p|, 2
  {
    if clears(|p|) > 0 {
      DecodesClear(d, p, clears(|p|) - 1, EncodeCleared(d.codeSize, p, clears(|p|) - 1, clears), clears, padding);
    } else {
      DecodesMatch(d, p, entries, width, clears, padding);
    }
  }

  lemma DecodesMatch(d: Decoder, p: Text, entries: seq<Text>, width: nat, clears: nat -> nat, padding: seq<Bit>)
    requires AtGap(d, p, entries, width)
    requires d.bits == TokenBits(EncodeMatch(d.codeSize, p, entries, width, clears)) + padding
    ensures DecodesTo(d.codeSize, EncodeMatch(d.codeSize, p, entries, width, clears), |padding|, Loop(d), d.out, p)
    decreases |p|, 0
  {
    if p == [] {
      DecodesEnd(d, width, padding);
      assert d.out + p == d.out;
    } else {
      var cs, k := d.codeSize, MatchLength(p, entries, 1);
      var t := Token(CodeOf(cs, p[..k], entries), width);
      var w', grown := Widened(width, FirstCode(cs) + |entries|), Grown(cs, entries, p, k);
      var tail := EncodeFrom(cs, p[k..], grown, w', clears);
      ReadMatch(d, p, entries, width);
      TokensSplit(t, tail, padding);
      WordOfToken(d, t, TokenBits(tail) + padding);
      var rest := DropWord(d);
      HoldsWithBits(d, rest.bits, p, entries, width);
      ReadMatch(rest, p, entries, width);
      var r := OnCode(rest, t.code);
      AfterIsGap(r, p, k, entries, w');
      DecodesFrom(r, p[k..], grown, w', clears, padding);
      DecodesToLonger(cs, t, tail, |padding|, Loop(d), d.out, p, k);
    }
  }

  lemma HoldsWithBits(d: Decoder, bits: seq<Bit>, p: Text, entries: seq<Text>, width: nat)
    requires Ready(d, p, entries, width)
    ensures Ready(d.(bits := bits), p, entries, width)
  {
  }

  lemma TokensSplit(t: Token, ts: seq<Token>, padding: seq<Bit>)
    ensures TokenBits([t] + ts) + padding == ToBits(t.code, t.width) + (TokenBits(ts) + padding)
  {
    assert ([t] + ts)[1..] == ts;
    ConcatAssociates(ToBits(t.code, t.width), TokenBits(ts), padding);
  }

  lemma DecodesClear(d: Decoder, p: Text, more: nat, ts: seq<Token>, clears: nat -> nat, padding: seq<Bit>)
    requires d.Valid() && 2 <= d.codeSize <= 8 && !d.startWithClear && HasRoots(d) && InRange(d.codeSize, p)
    requires ts == EncodeCleared(d.codeSize, p, more, clears)
    requires d.bits == TokenBits([ClearToken(d.codeSize, d.wordSize)] + ts) + padding
    ensures DecodesTo(d.codeSize, [ClearToken(d.codeSize, d.wordSize)] + ts, |padding|, Loop(d), d.out, p)
    decreases |p|, 1
  {
    var t := ClearToken(d.codeSize, d.wordSize);
    assert ([t] + ts)[1..] == ts;
    TokensSplit(t, ts, padding);
    var after := d.(bits := TokenBits(ts) + padding);
    ReadClear(d, after.bits);
    if |after.bits| < d.wordSize {
      assert d.out + p[..0] == d.out;
    } else if more > 0 {
      StumblesOverClear(after, p, ts, EncodeCleared(d.codeSize, p, more - 1, clears), padding);
    } else if p == [] {
      StumblesOverEnd(after, padding);
    } else {
      DecodesAfterClear(after, p, ts, clears, padding);
      DecodesToAfterClear(after, t, ts, padding, p);
    }
  }

  lemma DecodesToAfterClear(d: Decoder, t: Token, ts: seq<Token>, padding: seq<Bit>, p: Text)
    requires d.Valid() && |d.bits| >= d.wordSize && d.bits == TokenBits(ts) + padding
             && t == ClearToken(d.codeSize, d.wordSize)
    requires ts != [] && ts[0].code != Pow2(d.codeSize) && ts[0].code != Pow2(d.codeSize) + 1
    requires DecodesTo(d.codeSize, ts, |padding|, Loop(AfterClear(d)), d.out, p)
    ensures DecodesTo(d.codeSize, [t] + ts, |padding|, Loop(AfterClear(d)), d.out, p)
  {
    assert ([t] + ts)[1..] == ts && ([t] + ts)[1] == ts[0];
    assert p[0..] == p && d.out + p[..0] == d.out;
    DecodesToLonger(d.codeSize, t, ts, |padding|, Loop(AfterClear(d)), d.out, p, 0);
  }

  /** The word behind a clear code is drawn whatever it is. */
  lemma DrawsWord(d: Decoder, t: Token, rest: seq<Bit>)
    requires d.Valid() && 2 <= d.codeSize <= 8 && HasRoots(d) && |d.bits| >= d.wordSize
    requires t.width == d.codeSize + 1 && t.code < FirstCode(d.codeSize) && d.bits == ToBits(t.code, t.width) + rest
    ensures AfterClear(d).out == d.out + [t.code % 256] && AfterClear(d).bits == rest
    ensures d.out + [t.code % 256] <= Loop(AfterClear(d)).state.out
  {
    SmallPowers(d.codeSize);
    Powers();
    WordOfToken(ResetTable(d), t, rest);
    assert ResetTable(d).table[t.code] == [t.code % 256];
    LoopAppends(AfterClear(d));
  }

  lemma StumblesOverClear(d: Decoder, p: Text, ts: seq<Token>, tail: seq<Token>, padding: seq<Bit>)
    requires d.Valid() && 2 <= d.codeSize <= 8 && HasRoots(d) && |d.bits| >= d.wordSize
    requires ts == [ClearToken(d.codeSize, d.codeSize + 1)] + tail && d.bits == TokenBits(ts) + padding
    ensures DecodesTo(d.codeSize, [ClearToken(d.codeSize, d.wordSize)] + ts, |padding|, Loop(AfterClear(d)), d.out, p)
  {
    var all := [ClearToken(d.codeSize, d.wordSize)] + ts;
    assert all[1..] == ts && all[0].code == all[1].code == Pow2(d.codeSize);
    TokensSplit(ts[0], tail, padding);
    DrawsWord(d, ts[0], TokenBits(tail) + padding);
    assert d.out + p[..0] == d.out;
    assert all[0 + 1].code == Pow2(d.codeSize);
  }

  lemma StumblesOverEnd(d: Decoder, padding: seq<Bit>)
    requires d.Valid() && 2 <= d.codeSize <= 8 && HasRoots(d) && |d.bits| >= d.wordSize
    requires d.bits == TokenBits([EndToken(d.codeSize, d.codeSize + 1)]) + padding
    ensures DecodesTo(d.codeSize, [ClearToken(d.codeSize, d.wordSize), EndToken(d.codeSize, d.codeSize + 1)], |padding|,
                      Loop(AfterClear(d)), d.out, [])
    ensures [ClearToken(d.codeSize, d.wordSize)] + [EndToken(d.codeSize, d.codeSize + 1)]
            == [ClearToken(d.codeSize, d.wordSize), EndToken(d.codeSize, d.codeSize + 1)]
  {
    var t := EndToken(d.codeSize, d.codeSize + 1);
    assert [ClearToken(d.codeSize, d.wordSize), t][1..] == [t];
    assert [t] + [] == [t];
    TokensSplit(t, [], padding);
    DrawsWord(d, t, TokenBits([]) + padding);
    assert d.out + [] == d.out;
  }

  lemma DecodesEnd(d: Decoder, width: nat, padding: seq<Bit>)
    requires d.Valid() && 2 <= d.codeSize <= 8 && d.wordSize == width
    requires d.bits == TokenBits([EndToken(d.codeSize, width)]) + padding
    ensures Loop(d).Done? && Loop(d).state.out == d.out
    ensures Readable(d.codeSize, [EndToken(d.codeSize, width)], |padding|)
  {
    EndIsReadable(d.codeSize, EndToken(d.codeSize, width), |padding|);
    WordOfEnd(d, padding);
    LoopEnds(d);
  }

  lemma WordOfEnd(d: Decoder, padding: seq<Bit>)
    requires d.Valid() && 2 <= d.codeSize <= 8
    requires d.bits == TokenBits([EndToken(d.codeSize, d.wordSize)]) + padding
    ensures |d.bits| >= d.wordSize && Word(d) == d.EndCode()
  {
    var t := EndToken(d.codeSize, d.wordSize);
    SmallPowers(d.codeSize);
    Pow2Grows(d.codeSize + 1, d.wordSize);
    assert [t] + [] == [t];
    TokensSplit(t, [], padding);
    WordOfToken(d, t, TokenBits([]) + padding);
  }

  lemma EndIsReadable(cs: nat, t: Token, padding: nat)
    requires t.code != Pow2(cs)
    ensures Readable(cs, [t], padding)
  {
    assert [t][1..] == [];
  }

  lemma LoopEnds(d: Decoder)
    requires d.Valid() && |d.bits| >= d.wordSize && Word(d) == d.EndCode()
    ensures Loop(d) == Done(DropWord(d))
  {
  }

  /** A clear code with enough bits behind it starts over; otherwise the decoder waits. */
  lemma ReadClear(d: Decoder, rest: seq<Bit>)
    requires d.Valid() && 2 <= d.codeSize <= 8 && !d.startWithClear
    requires d.bits == ToBits(Pow2(d.codeSize), d.wordSize) + rest
    ensures var after := d.(bits := rest);
            Loop(d) == if |rest| >= d.wordSize then Loop(AfterClear(after)) else More(after.(startWithClear := true))
  {
    SmallPowers(d.codeSize);
    Pow2Grows(d.codeSize + 1, d.wordSize);
    WordOfToken(d, Token(Pow2(d.codeSize), d.wordSize), rest);
  }

  lemma AfterIsGap(d: Decoder, p: Text, k: nat, entries: seq<Text>, width: nat)
    requires After(d, p, k, entries, width)
    ensures AtGap(d, p[k..], Grown(d.codeSize, entries, p, k), width)
  {
    if k < |p| {
      GrownIsReady(d, p, k, entries, width);
    }
  }

  lemma GrownIsReady(d: Decoder, p: Text, k: nat, entries: seq<Text>, width: nat)
    requires After(d, p, k, entries, width) && k < |p|
    ensures Ready(d, p[k..], Grown(d.codeSize, entries, p, k), width)
  {
    var grown := Grown(d.codeSize, entries, p, k);
    Powers();
    assert p[..k + 1] == p[..k] + [p[k..][0]];
    if FirstCode(d.codeSize) + |entries| < TABLE_SIZE {
      assert grown[..|grown| - 1] == entries;
      if FirstCode(d.codeSize) + |entries| == Pow2(width) {
        assert false;
      }
    }
  }

  /** The decoder takes the code after a clear on its own; the encoder's first match is one pixel long. */
  lemma DecodesAfterClear(d: Decoder, p: Text, ts: seq<Token>, clears: nat -> nat, padding: seq<Bit>)
    requires d.Valid() && 2 <= d.codeSize <= 8 && p != [] && InRange(d.codeSize, p)
    requires HasRoots(d)
    requires ts == EncodeMatch(d.codeSize, p, [], d.codeSize + 1, clears)
    requires d.bits == TokenBits(ts) + padding
    requires |d.bits| >= d.wordSize
    ensures DecodesTo(d.codeSize, ts, |padding|, Loop(AfterClear(d)), d.out, p)
    ensures ts != [] && ts[0].code != Pow2(d.codeSize) && ts[0].code != Pow2(d.codeSize) + 1
    decreases |p|, 0
  {
    var cs, w := d.codeSize, d.codeSize + 1;
    SmallPowers(cs);
    assert MatchLength(p, [], 1) == 1;
    var t := Token(p[0], w);
    var w' := Widened(w, FirstCode(cs));
    var tail := EncodeFrom(cs, p[1..], Grown(cs, [], p, 1), w', clears);
    assert ts == [t] + tail;
    TokensSplit(t, tail, padding);
    DrawsPixel(d, p, t, TokenBits(tail) + padding);
    AfterIsGap(AfterClear(d), p, 1, [], w');
    DecodesFrom(AfterClear(d), p[1..], Grown(cs, [], p, 1), w', clears, padding);
    DecodesToLonger(cs, t, tail, |padding|, Loop(AfterClear(d)), d.out, p, 1);
  }

  /** A pixel behind a clear code is drawn, and everything is as if its code had been read. */
  lemma DrawsPixel(d: Decoder, p: Text, t: Token, rest: seq<Bit>)
    requires d.Valid() && 2 <= d.codeSize <= 8 && HasRoots(d) && |d.bits| >= d.wordSize
    requires p != [] && InRange(d.codeSize, p) && t == Token(p[0], d.codeSize + 1)
    requires d.bits == ToBits(t.code, t.width) + rest
    ensures var r := AfterClear(d);
            && After(r, p, 1, [], Widened(d.codeSize + 1, FirstCode(d.codeSize)))
            && r.codeSize == d.codeSize && r.out == d.out + p[..1] && r.bits == rest
  {
    SmallPowers(d.codeSize);
    Powers();
    WordOfToken(ResetTable(d), t, rest);
    assert AfterClear(d).table[p[0]] == p[..1];
  }

  ghost predicate Returns(r: Result, p: Text) { r.Done? && r.state.out == p }

  /**
   Round trip. For code sizes 2 to 8, any pixels, any number of clear codes anywhere and any padding: the decoder
   returns the pixels and stops at the end code if the encoding is readable, and otherwise goes wrong in one of
   three ways. Up to code size 7, or without clear codes in a row, it then never returns the pixels: a clear or
   an end code is no pixel, or there are too many or too few.
   */
  lemma RoundTrip(cs: nat, p: Text, clears: nat -> nat, padding: seq<Bit>)
    requires 2 <= cs <= 8 && InRange(cs, p)
    ensures var ts := Encode(cs, p, clears);
            var r := Feed(Start(cs), TokenBits(ts) + padding);
            && (Readable(cs, ts, |padding|) ==> Returns(r, p))
            && (!Readable(cs, ts, |padding|) ==> GoesWrong(cs, ts, r, [], p))
            && (cs < 8 || !TwoClears(cs, ts) ==> (Returns(r, p) <==> Readable(cs, ts, |padding|)))
  {
    var ts := Encode(cs, p, clears);
    var bits := TokenBits(ts) + padding;
    StartIsGap(cs, p, bits);
    DecodesFrom(Start(cs).(bits := bits), p, [], cs + 1, clears, padding);
    Verdict(cs, ts, |padding|, Feed(Start(cs), bits), p);
  }

  lemma Verdict(cs: nat, ts: seq<Token>, padding: nat, r: Result, p: Text)
    requires 2 <= cs <= 8 && InRange(cs, p) && DecodesTo(cs, ts, padding, r, [], p)
    ensures Readable(cs, ts, padding) ==> Returns(r, p)
    ensures !Readable(cs, ts, padding) ==> GoesWrong(cs, ts, r, [], p)
    ensures cs < 8 || !TwoClears(cs, ts) ==> (Returns(r, p) <==> Readable(cs, ts, padding))
  {
    assert [] + p == p;
    if !Readable(cs, ts, padding) && (cs < 8 || !TwoClears(cs, ts)) {
      WrongIsNotRight(cs, ts, r, p);
    }
  }

  lemma StartIsGap(cs: nat, p: Text, bits: seq<Bit>)
    requires 2 <= cs <= 8 && InRange(cs, p)
    ensures AtGap(Start(cs).(bits := bits), p, [], cs + 1)
    ensures Feed(Start(cs), bits) == Loop(Start(cs).(bits := bits))
  {
    SmallPowers(cs);
    Powers();
    assert Start(cs).bits + bits == bits;
  }

  lemma WrongIsNotRight(cs: nat, ts: seq<Token>, r: Result, p: Text)
    requires 2 <= cs <= 8 && InRange(cs, p) && GoesWrong(cs, ts, r, [], p) && (cs < 8 || !TwoClears(cs, ts))
    ensures !Returns(r, p)
  {
    SmallPowers(cs);
    assert [] + p == p;
    if r.Done? && TwoClears(cs, ts) {
      Pow2Grows(cs, 7);
      forall n | 0 <= n <= |p| && [] + p[..n] + [Pow2(cs) % 256] <= r.state.out
        ensures r.state.out[n] == Pow2(cs) && !Returns(r, p)
      {
        assert ([] + p[..n] + [Pow2(cs) % 256])[n] == Pow2(cs);
      }
    }
  }
}
