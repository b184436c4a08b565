/** Encodings whose clear codes the decoder misreads, each with what it makes of them. */
module LzwClearCodes {
  import opened Bits
  import opened LzwDecoding
  import opened LzwEncoding

  /** `count` clear codes before the code for the last `at` pixels, and no others. */
  function ClearsAt(at: nat, count: nat): nat -> nat { n => if n == at then count else 0 }

  /** One word of the loop. */
  lemma LoopStep(d: Decoder, t: Token, rest: seq<Bit>)
    requires d.Valid() && t.width == d.wordSize && t.code < Pow2(t.width) && t.code < TABLE_SIZE
    requires d.bits == ToBits(t.code, t.width) + rest
    ensures var e := d.(bits := rest);
            Loop(d) ==
            if t.code == d.EndCode() then Done(e)
            else if t.code == d.ClearCode() then
              if |rest| >= d.wordSize then Loop(AfterClear(e)) else Loop(e.(startWithClear := true))
            else if d.numCodes <= t.code && d.lastCode < 0 then Failed(e)
            else Loop(OnCode(e, t.code))
  {
    WordOfToken(d, t, rest);
  }

  lemma ClearStep(d: Decoder, t: Token, rest: seq<Bit>)
    requires d.Valid() && |d.bits| >= d.wordSize && t.width == d.codeSize + 1 && t.code < Pow2(t.width)
    requires d.bits == ToBits(t.code, t.width) + rest
    ensures t.code < TABLE_SIZE
    ensures AfterClear(d) == Emit(ResetTable(d).(bits := rest), t.code).(lastCode := t.code, startWithClear := false)
  {
    WordOfToken(ResetTable(d), t, rest);
  }

  lemma SplitFirst(t: Token, ts: seq<Token>)
    ensures TokenBits([t] + ts) == ToBits(t.code, t.width) + TokenBits(ts)
  {
    assert ([t] + ts)[1..] == ts;
  }

  lemma Powers2()
    ensures Pow2(2) == 4 && Pow2(3) == 8 && Pow2(4) == 16 && Pow2(5) == 32 && Pow2(6) == 64 && FirstCode(2) == 6
  {
  }

  lemma OnePixelMatch(p: Text, entries: seq<Text>)
    requires p != [] && (|p| == 1 || p[..2] !in entries)
    ensures MatchLength(p, entries, 1) == 1
  {
  }

  lemma FeedIsLoop(cs: nat, bits: seq<Bit>)
    requires cs <= 11
    ensures Feed(Start(cs), bits) == Loop(Start(cs).(bits := bits))
  {
    assert Start(cs).bits + bits == bits;
  }

  // Two clear codes in a row.

  lemma TwoClearsEncoding(ts: seq<Token>)
    requires ts == [Token(4, 3)] + ([Token(4, 3)] + ([Token(0, 3)] + ([Token(5, 3)] + [])))
    ensures Encode(2, [0], ClearsAt(1, 2)) == ts
  {
    Powers2();
    var p: Text, clears := [0], ClearsAt(1, 2);
    OnePixelMatch(p, []);
    assert p[..1] == [0] && p[1..] == [];
    assert EncodeFrom(2, [], Grown(2, [], p, 1), 3, clears) == [Token(5, 3)] + [];
    assert EncodeMatch(2, p, [], 3, clears) == [Token(0, 3)] + ([Token(5, 3)] + []);
    assert EncodeCleared(2, p, 0, clears) == EncodeMatch(2, p, [], 3, clears);
    assert EncodeCleared(2, p, 1, clears) == [Token(4, 3)] + EncodeCleared(2, p, 0, clears);
  }

  /** The second clear code comes out as a pixel: 4 0 instead of 0. */
  lemma SecondClearIsDrawn()
    ensures var ts := Encode(2, [0], ClearsAt(1, 2));
            var r := Feed(Start(2), TokenBits(ts));
            ts == [Token(4, 3), Token(4, 3), Token(0, 3), Token(5, 3)] && r.Done? && r.state.out == [4, 0]
  {
    Powers2();
    var t3 := [Token(5, 3)] + [];
    var t2 := [Token(0, 3)] + t3;
    var t1 := [Token(4, 3)] + t2;
    var ts := [Token(4, 3)] + t1;
    TwoClearsEncoding(ts);
    SplitFirst(Token(4, 3), t1);
    SplitFirst(Token(4, 3), t2);
    SplitFirst(Token(0, 3), t3);
    SplitFirst(Token(5, 3), []);
    FeedIsLoop(2, TokenBits(ts));
    var d0 := Start(2).(bits := TokenBits(ts));
    LoopStep(d0, Token(4, 3), TokenBits(t1));
    ClearStep(d0.(bits := TokenBits(t1)), Token(4, 3), TokenBits(t2));
    var d1 := AfterClear(d0.(bits := TokenBits(t1)));
    LoopStep(d1, Token(0, 3), TokenBits(t3));
    LoopStep(OnCode(d1.(bits := TokenBits(t3)), 0), Token(5, 3), []);
  }

  // A clear code before the end code.

  lemma ClearAtEndEncoding(ts: seq<Token>)
    requires ts == [Token(0, 3)] + ([Token(4, 3)] + ([Token(5, 3)] + []))
    ensures Encode(2, [0], ClearsAt(0, 1)) == ts
  {
    Powers2();
    var p: Text, clears := [0], ClearsAt(0, 1);
    OnePixelMatch(p, []);
    assert p[..1] == [0] && p[1..] == [];
    assert EncodeMatch(2, [], [], 3, clears) == [Token(5, 3)] + [];
    assert EncodeCleared(2, [], 0, clears) == [Token(5, 3)] + [];
    assert EncodeFrom(2, [], Grown(2, [], p, 1), 3, clears) == [Token(4, 3)] + ([Token(5, 3)] + []);
  }

  /** The end code comes out as a pixel, and the decoder waits for more. */
  lemma EndIsDrawn()
    ensures var ts := Encode(2, [0], ClearsAt(0, 1));
            var r := Feed(Start(2), TokenBits(ts));
            ts == [Token(0, 3), Token(4, 3), Token(5, 3)] && r.More? && r.state.out == [0, 5]
  {
    Powers2();
    var t2 := [Token(5, 3)] + [];
    var t1 := [Token(4, 3)] + t2;
    var ts := [Token(0, 3)] + t1;
    ClearAtEndEncoding(ts);
    SplitFirst(Token(0, 3), t1);
    SplitFirst(Token(4, 3), t2);
    SplitFirst(Token(5, 3), []);
    FeedIsLoop(2, TokenBits(ts));
    var d0 := Start(2).(bits := TokenBits(ts));
    LoopStep(d0, Token(0, 3), TokenBits(t1));
    var d1 := OnCode(d0.(bits := TokenBits(t1)), 0);
    LoopStep(d1, Token(4, 3), TokenBits(t2));
    ClearStep(d1.(bits := TokenBits(t2)), Token(5, 3), []);
  }

  /** Without any pixels, the same happens to the end code alone. */
  lemma NothingDrawsTheEnd()
    ensures var ts := Encode(2, [], ClearsAt(0, 1));
            var r := Feed(Start(2), TokenBits(ts));
            ts == [Token(4, 3), Token(5, 3)] && r.More? && r.state.out == [5]
  {
    Powers2();
    var clears := ClearsAt(0, 1);
    var t1 := [Token(5, 3)] + [];
    var ts := [Token(4, 3)] + t1;
    assert EncodeMatch(2, [], [], 3, clears) == t1;
    assert EncodeCleared(2, [], 0, clears) == t1;
    assert Encode(2, [], clears) == ts;
    SplitFirst(Token(4, 3), t1);
    SplitFirst(Token(5, 3), []);
    FeedIsLoop(2, TokenBits(ts));
    var d0 := Start(2).(bits := TokenBits(ts));
    LoopStep(d0, Token(4, 3), TokenBits(t1));
    ClearStep(d0.(bits := TokenBits(t1)), Token(5, 3), []);
  }

  // A clear code of more bits than follow it.

  function Zeros(n: nat): (r: Text)
    ensures |r| == n
  {
    seq(n, _ => 0)
  }

  /** The strings of 2 to m + 1 zeros, as they are assigned when nothing but zeros is coded. */
  function ZeroEntries(m: nat): seq<Text> { seq(m, i requires 0 <= i < m => Zeros(i + 2)) }

  /** The zeros left after m codes, so that one is left after 59. */
  function ZerosAfter(m: nat): (n: nat)
    requires m <= 59
    ensures n > 0 && (n == 1 <==> m == 59)
    decreases 59 - m
  {
    if m == 59 then 1 else m + 1 + ZerosAfter(m + 1)
  }

  function WidthAfter(m: nat): nat {
    if m <= 2 then 3 else if m <= 10 then 4 else if m <= 26 then 5 else if m <= 58 then 6 else 7
  }

  lemma ZerosKnown(m: nat)
    ensures forall j :: 1 <= j <= m + 1 ==> Known(Zeros(j), ZeroEntries(m))
  {
    forall j | 1 <= j <= m + 1
      ensures Known(Zeros(j), ZeroEntries(m))
    {
      assert j > 1 ==> Zeros(j) == ZeroEntries(m)[j - 2];
    }
  }

  lemma ZeroMatch(n: nat, m: nat)
    requires n > m + 1
    ensures MatchLength(Zeros(n), ZeroEntries(m), 1) == m + 1
    ensures Grown(2, ZeroEntries(m), Zeros(n), m + 1)
            == if 6 + m < TABLE_SIZE then ZeroEntries(m + 1) else ZeroEntries(m)
  {
    Powers2();
    var p, entries := Zeros(n), ZeroEntries(m);
    var r := MatchLength(p, entries, 1);
    assert |p[..r]| == r;
    assert r < |p| ==> p[..r + 1] == Zeros(r + 1);
    ZerosKnown(m);
    assert p[..m + 2] == Zeros(m + 2);
    assert entries + [Zeros(m + 2)] == ZeroEntries(m + 1);
  }

  ghost predicate OnlyRoomLacks(ts: seq<Token>) {
    && !Readable(2, ts, 0) && ts != []
    && forall i :: 0 <= i < |ts| && ts[i].code == 4 ==>
         i + 1 < |ts| && ts[i + 1].code != 4 && ts[i + 1].code != 5
  }

  lemma OnlyRoomLacksLonger(t: Token, ts: seq<Token>)
    requires OnlyRoomLacks(ts) && t.code != 4
    ensures OnlyRoomLacks([t] + ts)
  {
    Powers2();
    assert ([t] + ts)[1..] == ts;
    forall i | 0 <= i < |[t] + ts| && ([t] + ts)[i].code == 4
      ensures i + 1 < |[t] + ts| && ([t] + ts)[i + 1].code != 4 && ([t] + ts)[i + 1].code != 5
    {
      assert ([t] + ts)[i] == ts[i - 1];
      assert ([t] + ts)[i + 1] == ts[i];
    }
  }

  lemma {:induction false} ZerosLackRoom(m: nat)
    requires m <= 59
    ensures OnlyRoomLacks(EncodeFrom(2, Zeros(ZerosAfter(m)), ZeroEntries(m), WidthAfter(m), ClearsAt(1, 1)))
    decreases 59 - m
  {
    var n, clears := ZerosAfter(m), ClearsAt(1, 1);
    var p, entries := Zeros(n), ZeroEntries(m);
    if m == 59 {
      LastZeroLacksRoom(p, entries, clears);
    } else {
      Powers2();
      ZeroMatch(n, m);
      assert p[m + 1..] == Zeros(ZerosAfter(m + 1));
      assert Widened(WidthAfter(m), 6 + m) == WidthAfter(m + 1);
      ZerosLackRoom(m + 1);
      var t := Token(CodeOf(2, p[..m + 1], entries), WidthAfter(m));
      OnlyRoomLacksLonger(t, EncodeFrom(2, Zeros(ZerosAfter(m + 1)), ZeroEntries(m + 1), WidthAfter(m + 1), clears));
    }
  }

  lemma LastZeroLacksRoom(p: Text, entries: seq<Text>, clears: nat -> nat)
    requires p == Zeros(1) && clears == ClearsAt(1, 1)
    ensures OnlyRoomLacks(EncodeFrom(2, p, entries, 7, clears))
  {
    Powers2();
    var t2 := [Token(5, 3)] + [];
    var t1 := [Token(0, 3)] + t2;
    var ts := [Token(4, 7)] + t1;
    OnePixelMatch(p, []);
    assert p[..1] == [0] && p[1..] == [];
    assert EncodeFrom(2, [], Grown(2, [], p, 1), 3, clears) == t2;
    assert EncodeMatch(2, p, [], 3, clears) == t1;
    assert EncodeFrom(2, p, entries, 7, clears) == ts;
    assert ts[1..] == t1;
    SplitFirst(Token(0, 3), t2);
    SplitFirst(Token(5, 3), []);
  }

  /**
   Each clear code is followed by the code of a pixel, yet the last takes 7 bits and has 6 behind it: they are
   never read.
   */
  lemma LastZeroIsLost()
    ensures var ts := Encode(2, Zeros(ZerosAfter(0)), ClearsAt(1, 1));
            OnlyRoomLacks(ts) && !Returns(Feed(Start(2), TokenBits(ts)), Zeros(ZerosAfter(0)))
  {
    var p, clears := Zeros(ZerosAfter(0)), ClearsAt(1, 1);
    assert ZeroEntries(0) == [];
    ZerosLackRoom(0);
    RoundTrip(2, p, clears, []);
    assert TokenBits(Encode(2, p, clears)) + [] == TokenBits(Encode(2, p, clears));
  }

  // With code size 8 a clear code drawn as a pixel can pass for one.

  lemma Powers8()
    ensures Pow2(8) == 256 && Pow2(9) == 512 && FirstCode(8) == 258
  {
    Powers();
  }

  lemma LastThreeZeros(clears: nat -> nat)
    requires clears == ClearsAt(6, 2)
    ensures EncodeFrom(8, Zeros(3), [[0, 0], [0, 0, 0]], 9, clears) == [Token(259, 9)] + ([Token(257, 9)] + [])
  {
    Powers8();
    var p, entries: seq<Text> := Zeros(3), [[0, 0], [0, 0, 0]];
    assert p[..2] == [0, 0] && p[..3] == [0, 0, 0] && p[3..] == [];
    assert MatchLength(p, entries, 1) == 3;
    assert EncodeFrom(8, [], entries, 9, clears) == [Token(257, 9)] + [];
  }

  lemma LastFiveZeros(clears: nat -> nat)
    requires clears == ClearsAt(6, 2)
    ensures EncodeFrom(8, Zeros(5), [[0, 0]], 9, clears)
            == [Token(258, 9)] + ([Token(259, 9)] + ([Token(257, 9)] + []))
  {
    Powers8();
    var p, entries: seq<Text> := Zeros(5), [[0, 0]];
    assert p[..2] == [0, 0] && p[..3] == [0, 0, 0] && p[2..] == Zeros(3);
    assert p[..3] != [0, 0] && MatchLength(p, entries, 1) == 2;
    assert Grown(8, entries, p, 2) == [[0, 0], [0, 0, 0]];
    LastThreeZeros(clears);
  }

  lemma SixZerosEncoding(ts: seq<Token>, t2: seq<Token>)
    requires t2 == [Token(0, 9)] + ([Token(258, 9)] + ([Token(259, 9)] + ([Token(257, 9)] + [])))
    requires ts == [Token(256, 9)] + ([Token(256, 9)] + t2)
    ensures Encode(8, Zeros(6), ClearsAt(6, 2)) == ts
  {
    Powers8();
    var p, clears := Zeros(6), ClearsAt(6, 2);
    OnePixelMatch(p, []);
    assert p[..1] == [0] && p[..2] == [0, 0] && p[1..] == Zeros(5);
    assert Grown(8, [], p, 1) == [[0, 0]];
    LastFiveZeros(clears);
    assert EncodeMatch(8, p, [], 9, clears) == t2;
    assert EncodeCleared(8, p, 0, clears) == t2;
    assert EncodeCleared(8, p, 1, clears) == [Token(256, 9)] + t2;
  }

  /** What the decoder has in its table and has put out when it has just read a code. */
  ghost predicate At(d: Decoder, count: nat, last: nat, out: Text) {
    && d.Valid() && d.codeSize == 8 && d.wordSize == 9 && d.numCodes == count && !d.startWithClear
    && last < count && d.lastCode == last && d.out == out && d.table[0] == [0]
    && d.table[last] == Zeros(|d.table[last]|)
  }

  /** A code that stands for zeros is read, and the last string with another zero becomes an entry. */
  lemma ReadZeros(d: Decoder, count: nat, last: nat, code: nat, rest: seq<Bit>)
    requires At(d, count, last, d.out) && code < count < 511 && code != 256 && code != 257
    requires d.table[code] == Zeros(|d.table[code]|)
    requires d.bits == ToBits(code, 9) + rest
    ensures var e := OnCode(d.(bits := rest), code);
            && Loop(d) == Loop(e) && e.bits == rest && At(e, count + 1, code, d.out + d.table[code])
            && e.table == d.table[count := Zeros(|d.table[last]| + 1)]
  {
    Powers8();
    LoopStep(d, Token(code, 9), rest);
    assert Zeros(|d.table[last]|) + [0] == Zeros(|d.table[last]| + 1);
  }

  /** Not readable, for two clear codes follow one another, and still right: the second passes for a zero. */
  lemma SecondClearPasses()
    ensures var ts := Encode(8, Zeros(6), ClearsAt(6, 2));
            !Readable(8, ts, 0) && Returns(Feed(Start(8), TokenBits(ts)), Zeros(6))
  {
    Powers8();
    var t5 := [Token(257, 9)] + [];
    var t4 := [Token(259, 9)] + t5;
    var t3 := [Token(258, 9)] + t4;
    var t2 := [Token(0, 9)] + t3;
    var t1 := [Token(256, 9)] + t2;
    var ts := [Token(256, 9)] + t1;
    SixZerosEncoding(ts, t2);
    assert ts[1] == t1[0];
    SplitFirst(Token(256, 9), t1);
    SplitFirst(Token(256, 9), t2);
    SplitFirst(Token(0, 9), t3);
    SplitFirst(Token(258, 9), t4);
    SplitFirst(Token(259, 9), t5);
    SplitFirst(Token(257, 9), []);
    FeedIsLoop(8, TokenBits(ts));
    var d := ReadsTwoClears(TokenBits(ts), TokenBits(t1), TokenBits(t2));
    ReadsSixZeros(d, t3, t4, t5);
  }

  /** The second clear code is put out as 0 and remembered as the last code. */
  lemma ReadsTwoClears(bits: seq<Bit>, rest: seq<Bit>, after: seq<Bit>) returns (d: Decoder)
    requires bits == ToBits(256, 9) + rest && rest == ToBits(256, 9) + after
    ensures At(d, 258, 256, [0]) && d.table[256] == [0] && d.bits == after
    ensures Loop(Start(8).(bits := bits)) == Loop(d)
  {
    Powers8();
    LoopStep(Start(8).(bits := bits), Token(256, 9), rest);
    var cleared := Start(8).(bits := rest);
    ClearStep(cleared, Token(256, 9), after);
    d := AfterClear(cleared);
    assert [0] == Zeros(1);
  }

  lemma ReadsSixZeros(d: Decoder, t3: seq<Token>, t4: seq<Token>, t5: seq<Token>)
    requires At(d, 258, 256, [0]) && d.table[256] == [0]
    requires d.bits == ToBits(0, 9) + TokenBits(t3) && TokenBits(t3) == ToBits(258, 9) + TokenBits(t4)
    requires TokenBits(t4) == ToBits(259, 9) + TokenBits(t5) && TokenBits(t5) == ToBits(257, 9) + []
    ensures Returns(Loop(d), Zeros(6))
  {
    assert [0] == Zeros(1) && [0] + [0] == Zeros(2);
    ReadZeros(d, 258, 256, 0, TokenBits(t3));
    ReadsFourZeros(OnCode(d.(bits := TokenBits(t3)), 0), t4, t5);
  }

  lemma ReadsFourZeros(d: Decoder, t4: seq<Token>, t5: seq<Token>)
    requires At(d, 259, 0, Zeros(2)) && d.table[258] == Zeros(2)
    requires d.bits == ToBits(258, 9) + TokenBits(t4) && TokenBits(t4) == ToBits(259, 9) + TokenBits(t5)
    requires TokenBits(t5) == ToBits(257, 9) + []
    ensures Returns(Loop(d), Zeros(6))
  {
    assert Zeros(2) + Zeros(2) == Zeros(4);
    ReadZeros(d, 259, 0, 258, TokenBits(t4));
    ReadsTwoZeros(OnCode(d.(bits := TokenBits(t4)), 258), t5);
  }

  lemma ReadsTwoZeros(d: Decoder, t5: seq<Token>)
    requires At(d, 260, 258, Zeros(4)) && d.table[259] == Zeros(2)
    requires d.bits == ToBits(259, 9) + TokenBits(t5) && TokenBits(t5) == ToBits(257, 9) + []
    ensures Returns(Loop(d), Zeros(6))
  {
    assert Zeros(4) + Zeros(2) == Zeros(6);
    ReadZeros(d, 260, 258, 259, TokenBits(t5));
    Powers8();
    LoopStep(OnCode(d.(bits := TokenBits(t5)), 259), Token(257, 9), []);
  }
}
