/** Writing a frame: codes packed into bytes and cut into sub-blocks, as a reference for what loading reads. */
module GifWriting {
  import opened Common
  import opened Bits
  import opened LzwDecoding
  import opened LzwEncoding
  import opened GifCodec

  /** A sub-block begins with its size, which is not 0; the empty one ends the data. */
  ghost predicate AreBlocks(pieces: seq<seq<Byte>>) { forall i :: 0 <= i < |pieces| ==> 0 < |pieces[i]| < 256 }

  function SubBlocks(pieces: seq<seq<Byte>>): seq<Byte>
    requires AreBlocks(pieces)
  {
    if pieces == [] then [0] else [|pieces[0]|] + pieces[0] + SubBlocks(pieces[1..])
  }

  /** Whatever stands before and behind them, the sub-blocks are read as the data that was cut up. */
  lemma {:induction false} SubBlocksAreRead(file: seq<Byte>, pos: nat, pieces: seq<seq<Byte>>, behind: seq<Byte>)
    requires AreBlocks(pieces) && pos <= |file| && file[pos..] == SubBlocks(pieces) + behind
    ensures Data(file, pos) == Flatten(pieces)
    decreases |pieces|
  {
    if pieces == [] {
      BlockAt(file, pos, [], behind);
    } else {
      var next := pos + 1 + |pieces[0]|;
      ConcatAssociates([|pieces[0]|] + pieces[0], SubBlocks(pieces[1..]), behind);
      BlockAt(file, pos, pieces[0], SubBlocks(pieces[1..]) + behind);
      SubBlocksAreRead(file, next, pieces[1..], behind);
      ChunkThenRest(file, pos, next);
    }
  }

  lemma BlockAt(file: seq<Byte>, pos: nat, piece: seq<Byte>, rest: seq<Byte>)
    requires pos <= |file| && |piece| < 256 && file[pos..] == [|piece|] + piece + rest
    ensures pos < |file| && file[pos] == |piece| && Chunk(file, pos) == piece
    ensures pos + 1 + |piece| <= |file| && file[pos + 1 + |piece|..] == rest
  {
    var bytes := file[pos..];
    assert bytes[0] == file[pos];
    assert bytes[1..1 + |piece|] == file[pos + 1..pos + 1 + |piece|];
    assert bytes[1 + |piece|..] == file[pos + 1 + |piece|..];
  }

  /** Bits packed into bytes, the first bit lowest. */
  function Packed(bits: seq<Bit>): (bytes: seq<Byte>)
    requires |bits| % BYTE_BITS == 0
    ensures BYTE_BITS * |bytes| == |bits|
  {
    if bits == [] then []
    else Pow2Of8(); [ValueOf(bits[..BYTE_BITS])] + Packed(bits[BYTE_BITS..])
  }

  lemma Pow2Of8()
    ensures Pow2(BYTE_BITS) == 256
  {
  }

  lemma {:induction false} BitsOfValue(bits: seq<Bit>)
    ensures ToBits(ValueOf(bits), |bits|) == bits
  {
    if bits != [] {
      BitsOfValue(bits[1..]);
      ToBitsTail(ValueOf(bits), |bits|);
      assert bits == [bits[0]] + bits[1..];
    }
  }

  lemma {:induction false} PackedIsRead(bits: seq<Bit>)
    requires |bits| % BYTE_BITS == 0
    ensures BytesToBits(Packed(bits)) == bits
  {
    if bits != [] {
      var first, rest := bits[..BYTE_BITS], bits[BYTE_BITS..];
      Pow2Of8();
      BitsOfValue(first);
      PackedIsRead(rest);
      assert Packed(bits) == [ValueOf(first)] + Packed(rest);
      assert bits == first + rest;
    }
  }

  /**
   A frame written with any pixels, any readable choice of clear codes, any padding to whole bytes and any cut into
   sub-blocks, anywhere in a file, is one that loading decodes to these pixels.
   */
  lemma WrittenIsDecoded(before: seq<Byte>, cs: nat, p: Text, clears: nat -> nat, padding: seq<Bit>,
                         pieces: seq<seq<Byte>>, behind: seq<Byte>)
    requires 2 <= cs <= 8 && InRange(cs, p) && AreBlocks(pieces)
    requires var bits := TokenBits(Encode(cs, p, clears)) + padding;
             |bits| % BYTE_BITS == 0 && Flatten(pieces) == Packed(bits)
    requires Readable(cs, Encode(cs, p, clears), |padding|)
    ensures var file := before + [cs] + SubBlocks(pieces) + behind;
            IsEncoded(file, |before|, p, clears, padding) && Decoded(file, |before|) == p
  {
    var file := before + [cs] + SubBlocks(pieces) + behind;
    ConcatAssociates(before + [cs], SubBlocks(pieces), behind);
    FileParts(file, before, cs, SubBlocks(pieces) + behind);
    SubBlocksAreRead(file, |before| + 1, pieces, behind);
    PackedIsRead(TokenBits(Encode(cs, p, clears)) + padding);
    EncodedIsDecoded(file, |before|, p, clears, padding);
  }

  lemma FileParts(file: seq<Byte>, before: seq<Byte>, cs: Byte, behind: seq<Byte>)
    requires file == before + [cs] + behind
    ensures |before| < |file| && file[|before|] == cs && file[|before| + 1..] == behind
  {
  }

  lemma EncodedIsDecoded(file: File, offset: nat, p: Text, clears: nat -> nat, padding: seq<Bit>)
    requires IsEncoded(file, offset, p, clears, padding)
    ensures Startable(file, offset) && Decoded(file, offset) == p
  {
    RoundTrip(file[offset], p, clears, padding);
  }
}
