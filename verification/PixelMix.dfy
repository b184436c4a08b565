/** Mixing packed pixels two channels at a time, in 32-bit arithmetic that wraps around. */
module PixelMix {
  const WORD: nat := 0x1_0000_0000

  type Word = n: nat | n < WORD
  type Channel = n: nat | n < 256

  function ToARGB(alpha: Channel, red: Channel, green: Channel, blue: Channel): Word {
    alpha * 0x100_0000 + red * 0x1_0000 + green * 0x100 + blue
  }

  function Alpha(w: Word): Channel { w / 0x100_0000 }

  function Red(w: Word): Channel { w / 0x1_0000 % 256 }

  function Green(w: Word): Channel { w / 0x100 % 256 }

  function Blue(w: Word): Channel { w % 256 }

  // The arithmetic of unsigned words.

  function Subtract(a: Word, b: Word): Word { if a >= b then a - b else a - b + WORD }

  function Add(a: Word, b: Word): Word { if a + b >= WORD then a + b - WORD else a + b }

  function Multiply(a: Word, b: nat): Word { a * b % WORD }

  function ShiftedRight8(a: Word): Word { a / 256 }

  function ShiftedLeft8(a: Word): Word { a * 256 % WORD }

  /** The mask 0x00FF00FF. */
  function EvenLanes(a: Word): Word { a / 0x1_0000 % 256 * 0x1_0000 + a % 256 }

  /** The mask 0xFF00FF00. */
  function OddLanes(a: Word): Word { a / 0x100_0000 * 0x100_0000 + a / 0x100 % 256 * 0x100 }

  /** Alpha in 256ths, so that 255 becomes the whole. */
  function Weight(alpha: Channel): (ia: nat)
    ensures ia <= 256
  {
    alpha + alpha / 128
  }

  /** Two lanes of the second pixel mixed into two lanes of the first; what wraps or leaks is masked off later. */
  function MixedLanes(dst: Word, src: Word, ia: nat): Word {
    Add(ShiftedRight8(Multiply(Subtract(src, dst), ia)), dst)
  }

  function Mix(pix1: Word, pix2: Word, alpha: Channel): Word {
    var ia := Weight(alpha);
    var rb := EvenLanes(MixedLanes(EvenLanes(pix1), EvenLanes(pix2), ia));
    var ag := OddLanes(ShiftedLeft8(MixedLanes(EvenLanes(ShiftedRight8(pix1)), EvenLanes(ShiftedRight8(pix2)), ia)));
    OnesOf(rb, ag)
  }

  /** Bitwise or of words that share no lane. */
  function OnesOf(even: Word, odd: Word): Word { EvenLanes(even) + OddLanes(odd) }

  /** What mixing one channel should give. */
  function MixedChannel(dst: Channel, src: Channel, alpha: Channel): int {
    dst + (src - dst) * Weight(alpha) / 256
  }

  lemma {:induction false} ProductGrows(a: nat, b: nat, c: nat)
    requires b <= c
    ensures 0 <= a * b <= a * c
  {
    if a > 0 {
      ProductGrows(a - 1, b, c);
      assert a * b == (a - 1) * b + b && a * c == (a - 1) * c + c;
    }
  }

  lemma WeightedBounds(dst: Channel, src: Channel, ia: nat)
    requires ia <= 256
    ensures if src >= dst then 0 <= (src - dst) * ia <= (src - dst) * 256
            else (src - dst) * 256 <= (src - dst) * ia <= 0
  {
    if src >= dst {
      ProductGrows(src - dst, ia, 256);
    } else {
      ProductGrows(dst - src, ia, 256);
      assert (src - dst) * ia == -((dst - src) * ia);
    }
  }

  /** Each mixed channel lies between the two it is mixed from. */
  lemma MixedChannelBetween(dst: Channel, src: Channel, alpha: Channel)
    ensures if src >= dst then dst <= MixedChannel(dst, src, alpha) <= src
            else src <= MixedChannel(dst, src, alpha) <= dst
    ensures alpha == 0 ==> MixedChannel(dst, src, alpha) == dst
    ensures alpha == 255 ==> MixedChannel(dst, src, alpha) == src
  {
    WeightedBounds(dst, src, Weight(alpha));
  }

  /** Whole words more or less make no difference to what is left of a word. */
  lemma WordsDropOut(x: int, words: int)
    ensures (x + words * 0x1_0000_0000) % 0x1_0000_0000 == x % 0x1_0000_0000
  {
    var q, r := x / 0x1_0000_0000, x % 0x1_0000_0000;
    assert x + words * 0x1_0000_0000 == (q + words) * 0x1_0000_0000 + r;
  }

  lemma WrappedProduct(d: Word, s: Word, ia: nat)
    ensures Multiply(Subtract(s, d), ia) == (s - d) * ia % 0x1_0000_0000
  {
    if s < d {
      assert (s - d + WORD) * ia == (s - d) * ia + ia * 0x1_0000_0000;
      WordsDropOut((s - d) * ia, ia);
    }
  }

  /** Two lanes at once are two lanes one by one: neither the borrow nor the wrap reaches the other lane. */
  lemma LanesAreSeparate(dHigh: Channel, dLow: Channel, sHigh: Channel, sLow: Channel, alpha: Channel)
    ensures EvenLanes(MixedLanes(dHigh * 0x1_0000 + dLow, sHigh * 0x1_0000 + sLow, Weight(alpha)))
            == MixedChannel(dHigh, sHigh, alpha) * 0x1_0000 + MixedChannel(dLow, sLow, alpha)
  {
    var ia := Weight(alpha);
    var d: Word, s: Word := dHigh * 0x1_0000 + dLow, sHigh * 0x1_0000 + sLow;
    var u, v := (sHigh - dHigh) * ia, (sLow - dLow) * ia;
    WeightedBounds(dHigh, sHigh, ia);
    WeightedBounds(dLow, sLow, ia);
    MixedChannelBetween(dHigh, sHigh, alpha);
    MixedChannelBetween(dLow, sLow, alpha);
    WrappedProduct(d, s, ia);
    LanesOfProduct(sHigh - dHigh, sLow - dLow, ia);
    assert s - d == (sHigh - dHigh) * 0x1_0000 + (sLow - dLow);
    LanesOfSum(dHigh, dLow, u, v, d, Multiply(Subtract(s, d), ia));
  }

  lemma LanesOfProduct(high: int, low: int, ia: nat)
    ensures (high * 0x1_0000 + low) * ia == high * ia * 0x1_0000 + low * ia
  {
  }

  lemma LanesOfSum(dHigh: Channel, dLow: Channel, u: int, v: int, d: Word, product: Word)
    requires 0 <= dHigh + u / 256 < 256 && 0 <= dLow + v / 256 < 256
    requires d == dHigh * 0x1_0000 + dLow && product == (u * 0x1_0000 + v) % 0x1_0000_0000
    ensures EvenLanes(Add(ShiftedRight8(product), d)) == (dHigh + u / 256) * 0x1_0000 + (dLow + v / 256)
  {
    var a := u * 0x1_0000 + v;
    var words := a / 0x1_0000_0000;
    By256(a, u * 256 + v / 256, v % 256);
    By256(product, a / 256 - words * 0x100_0000, v % 256);
    var sum := Add(ShiftedRight8(product), d);
    var carry := if ShiftedRight8(product) + d >= WORD then 256 else 0;
    LanesOf(sum, dHigh + u / 256, u % 256, dLow + v / 256, words + carry);
  }

  lemma LanesOf(sum: Word, high: Channel, between: Channel, low: Channel, rest: int)
    requires sum == high * 0x1_0000 + between * 256 + low - rest * 0x100_0000
    ensures EvenLanes(sum) == high * 0x1_0000 + low
  {
    By65536(sum, high - rest * 256, between * 256 + low);
    By256(high - rest * 256, -rest, high);
    By256(sum, high * 256 + between - rest * 0x1_0000, low);
  }

  // Quotient and remainder by the powers of two that separate the lanes.

  lemma By256(x: int, q: int, r: int)
    requires x == q * 256 + r && 0 <= r < 256
    ensures x / 256 == q && x % 256 == r
  {
  }

  lemma By65536(x: int, q: int, r: int)
    requires x == q * 0x1_0000 + r && 0 <= r < 0x1_0000
    ensures x / 0x1_0000 == q
  {
  }

  lemma By16777216(x: int, q: int, r: int)
    requires x == q * 0x100_0000 + r && 0 <= r < 0x100_0000
    ensures x / 0x100_0000 == q
  {
  }

  lemma ByWord(x: int, q: int, r: int)
    requires x == q * 0x1_0000_0000 + r && 0 <= r < 0x1_0000_0000
    ensures x % 0x1_0000_0000 == r
  {
  }

  lemma ShiftedLanes(a: Word)
    ensures OddLanes(ShiftedLeft8(a)) == EvenLanes(a) * 256
  {
    LanesOfWord(a);
    ShiftedChannels(Alpha(a), Red(a), Green(a), Blue(a));
    ChannelsOf(Red(a), Green(a), Blue(a), 0);
  }

  /** Shifting drops the top channel and moves up the others. */
  lemma ShiftedChannels(a: Channel, r: Channel, g: Channel, b: Channel)
    ensures ShiftedLeft8(ToARGB(a, r, g, b)) == ToARGB(r, g, b, 0)
  {
    ByWord(ToARGB(a, r, g, b) * 256, a, ToARGB(r, g, b, 0));
  }

  lemma LanesOfWord(w: Word)
    ensures EvenLanes(w) == Red(w) * 0x1_0000 + Blue(w)
    ensures EvenLanes(ShiftedRight8(w)) == Alpha(w) * 0x1_0000 + Green(w)
    ensures w == ToARGB(Alpha(w), Red(w), Green(w), Blue(w))
  {
    var above := w / 256;
    By256(above / 256, Alpha(w), above / 256 % 256);
    By65536(w, above / 256, above % 256 * 256 + w % 256);
    By16777216(w, above / 256 / 256, above / 256 % 256 * 0x1_0000 + above % 256 * 256 + w % 256);
    By65536(above, above / 256 / 256, above / 256 % 256 * 256 + above % 256);
  }

  lemma ChannelsOf(a: Channel, r: Channel, g: Channel, b: Channel)
    ensures var w := ToARGB(a, r, g, b); Alpha(w) == a && Red(w) == r && Green(w) == g && Blue(w) == b
  {
    var w := ToARGB(a, r, g, b);
    By16777216(w, a, r * 0x1_0000 + g * 256 + b);
    By65536(w, a * 256 + r, g * 256 + b);
    By256(a * 256 + r, a, r);
    By256(w, a * 0x1_0000 + r * 256 + g, b);
    By256(a * 0x1_0000 + r * 256 + g, a * 256 + r, g);
  }

  lemma EvenOf(r: Channel, b: Channel)
    ensures EvenLanes(r * 0x1_0000 + b) == r * 0x1_0000 + b
  {
  }

  lemma OddOf(a: Channel, g: Channel)
    ensures OddLanes((a * 0x1_0000 + g) * 256) == (a * 0x1_0000 + g) * 256
  {
    var odd: Word := (a * 0x1_0000 + g) * 256;
    assert odd / 0x100_0000 == a;
    assert odd / 0x100 == a * 0x1_0000 + g;
  }

  lemma Assembled(a: Channel, r: Channel, g: Channel, b: Channel, rb: Word, ag: Word)
    requires EvenLanes(rb) == r * 0x1_0000 + b && EvenLanes(ag) == a * 0x1_0000 + g
    ensures OnesOf(EvenLanes(rb), OddLanes(ShiftedLeft8(ag))) == ToARGB(a, r, g, b)
  {
    ShiftedLanes(ag);
    EvenOf(r, b);
    OddOf(a, g);
  }

  lemma MixedTwoLanes(d: Word, s: Word, dHigh: Channel, dLow: Channel, sHigh: Channel, sLow: Channel, alpha: Channel)
    returns (high: Channel, low: Channel)
    requires d == dHigh * 0x1_0000 + dLow && s == sHigh * 0x1_0000 + sLow
    ensures high == MixedChannel(dHigh, sHigh, alpha) && low == MixedChannel(dLow, sLow, alpha)
    ensures EvenLanes(MixedLanes(d, s, Weight(alpha))) == high * 0x1_0000 + low
  {
    LanesAreSeparate(dHigh, dLow, sHigh, sLow, alpha);
    MixedChannelBetween(dHigh, sHigh, alpha);
    MixedChannelBetween(dLow, sLow, alpha);
    high, low := MixedChannel(dHigh, sHigh, alpha), MixedChannel(dLow, sLow, alpha);
  }

  /**
   The packed mix is exact in every channel: the first pixel plus the weighted difference, rounded down.
   */
  lemma MixIsExact(pix1: Word, pix2: Word, alpha: Channel)
    ensures var m := Mix(pix1, pix2, alpha);
            && Alpha(m) == MixedChannel(Alpha(pix1), Alpha(pix2), alpha)
            && Red(m) == MixedChannel(Red(pix1), Red(pix2), alpha)
            && Green(m) == MixedChannel(Green(pix1), Green(pix2), alpha)
            && Blue(m) == MixedChannel(Blue(pix1), Blue(pix2), alpha)
  {
    LanesOfWord(pix1);
    LanesOfWord(pix2);
    var r, b := MixedTwoLanes(EvenLanes(pix1), EvenLanes(pix2), Red(pix1), Blue(pix1), Red(pix2), Blue(pix2), alpha);
    var a, g := MixedTwoLanes(EvenLanes(ShiftedRight8(pix1)), EvenLanes(ShiftedRight8(pix2)),
                              Alpha(pix1), Green(pix1), Alpha(pix2), Green(pix2), alpha);
    Assembled(a, r, g, b, MixedLanes(EvenLanes(pix1), EvenLanes(pix2), Weight(alpha)),
              MixedLanes(EvenLanes(ShiftedRight8(pix1)), EvenLanes(ShiftedRight8(pix2)), Weight(alpha)));
    ChannelsOf(a, r, g, b);
  }

  lemma SameChannels(v: Word, w: Word)
    requires Alpha(v) == Alpha(w) && Red(v) == Red(w) && Green(v) == Green(w) && Blue(v) == Blue(w)
    ensures v == w
  {
    LanesOfWord(v);
    LanesOfWord(w);
  }

  /** No alpha leaves the first pixel. */
  lemma MixNothing(pix1: Word, pix2: Word)
    ensures Mix(pix1, pix2, 0) == pix1
  {
    MixIsExact(pix1, pix2, 0);
    MixedChannelBetween(Alpha(pix1), Alpha(pix2), 0);
    MixedChannelBetween(Red(pix1), Red(pix2), 0);
    MixedChannelBetween(Green(pix1), Green(pix2), 0);
    MixedChannelBetween(Blue(pix1), Blue(pix2), 0);
    SameChannels(Mix(pix1, pix2, 0), pix1);
  }

  /** In between, a mixed channel is less than one and a half away from the exact blend at alpha / 255. */
  lemma MixedChannelClose(dst: Channel, src: Channel, alpha: Channel)
    ensures var m := MixedChannel(dst, src, alpha);
            -97410 <= 65280 * (m - dst) - 256 * ((src - dst) * alpha) <= 32385
  {
    var d, ia, a := src - dst, Weight(alpha), alpha as int;
    var q, r := d * ia / 256, d * ia % 256;
    assert d * ia == 256 * q + r;
    var off := 255 * ia - 256 * a;
    assert -127 <= off <= 127;
    assert d * off == 255 * (d * ia) - 256 * (d * a);
    SmallProduct(d, off);
  }

  lemma SmallProduct(d: int, off: int)
    requires -255 <= d <= 255 && -127 <= off <= 127
    ensures -32385 <= d * off <= 32385
  {
    var n, e := if off >= 0 then off else -off, if d >= 0 then d else -d;
    ProductGrows(n, e, 255);
    assert d * off == n * e || d * off == -(n * e);
  }

  /** Full alpha gives the second pixel. */
  lemma MixEverything(pix1: Word, pix2: Word)
    ensures Mix(pix1, pix2, 255) == pix2
  {
    MixIsExact(pix1, pix2, 255);
    MixedChannelBetween(Alpha(pix1), Alpha(pix2), 255);
    MixedChannelBetween(Red(pix1), Red(pix2), 255);
    MixedChannelBetween(Green(pix1), Green(pix2), 255);
    MixedChannelBetween(Blue(pix1), Blue(pix2), 255);
    SameChannels(Mix(pix1, pix2, 255), pix2);
  }
}
