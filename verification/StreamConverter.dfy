/** Regroups a queue of bytes into words of a changeable number of bits. */
module StreamConversion {
  import opened Bits

  class StreamConverter {
    var source: seq<Byte>
    var srcPos: nat
    var wordSize: nat

    ghost predicate Valid()
      reads this
    {
      srcPos < 8 && (source == [] ==> srcPos == 0)
    }

    /** The bits not yet handed out. */
    ghost function Queue(): (r: seq<Bit>)
      reads this
      requires Valid()
      ensures |r| == 8 * |source| - srcPos
    {
      BytesToBits(source)[srcPos..]
    }

    constructor ()
      ensures Valid() && Queue() == [] && wordSize == 8
    {
      source, srcPos, wordSize := [], 0, 8;
    }

    method AddBytes(bytes: seq<Byte>)
      requires Valid()
      modifies this`source
      ensures Valid() && Queue() == old(Queue()) + BytesToBits(bytes)
    {
      ghost var before := source;
      var i := 0;
      while i < |bytes|
        modifies this`source
        invariant 0 <= i <= |bytes|
        invariant source == before + bytes[..i]
      {
        source := source + [bytes[i]];
        i := i + 1;
      }
      assert bytes[..i] == bytes;
      BytesToBitsConcat(before, bytes);
    }

    method ChangeWordSize(newBitCount: nat)
      modifies this`wordSize
      ensures wordSize == newBitCount
    {
      wordSize := newBitCount;
    }

    predicate IsWordsLeft()
      reads this
      requires Valid()
      ensures IsWordsLeft() <==> |Queue()| >= wordSize
    {
      8 * |source| - srcPos >= wordSize
    }

    /** The next word: its first bit in the queue is its least significant. */
    method GetWord() returns (word: nat)
      requires Valid() && 0 < wordSize && IsWordsLeft()
      modifies this`source, this`srcPos
      ensures Valid()
      ensures word == ValueOf(old(Queue())[..wordSize])
      ensures Queue() == old(Queue())[wordSize..]
    {
      word := 0;
      var copied := 0;
      ghost var queue := Queue();
      assert queue[..0] == [];
      while copied < wordSize
        modifies this`source, this`srcPos
        invariant Valid() && copied <= wordSize
        invariant Queue() == queue[copied..]
        invariant word == ValueOf(queue[..copied])
        decreases wordSize - copied
      {
        word, copied := NextPart(queue, word, copied);
      }
      assert queue[..copied] == queue[..wordSize];
    }

    /** As many bits as the first byte has left, or the word wants. */
    method NextPart(ghost queue: seq<Bit>, word: nat, copied: nat) returns (more: nat, next: nat)
      requires Valid() && copied < wordSize <= |queue|
      requires Queue() == queue[copied..] && word == ValueOf(queue[..copied])
      modifies this`source, this`srcPos
      ensures Valid() && copied < next <= wordSize
      ensures Queue() == queue[next..] && more == ValueOf(queue[..next])
    {
      var toCopy := if 8 - srcPos < wordSize - copied then 8 - srcPos else wordSize - copied;
      // Shifting the masked byte down leaves these bits; shifting them up places them above the rest.
      var part := LowBits(ShiftRight(source[0], srcPos), toCopy);
      TakePart(toCopy);
      ExtendWord(queue, copied, toCopy);
      Advance(toCopy);
      more, next := word + ShiftLeft(part, copied), copied + toCopy;
    }

    /** Moves on within the first byte, or past it. */
    method Advance(count: nat)
      requires Valid() && source != [] && count <= 8 - srcPos
      modifies this`source, this`srcPos
      ensures Valid() && count <= |old(Queue())| && Queue() == old(Queue())[count..]
    {
      DropPart(count);
      srcPos := srcPos + count;
      if srcPos > 7 {
        srcPos := 0;
        source := source[1..];
      }
    }

    lemma TakePart(count: nat)
      requires Valid() && source != [] && 0 < count <= 8 - srcPos
      ensures ValueOf(Queue()[..count]) == LowBits(ShiftRight(source[0], srcPos), count)
    {
      SliceOfBits(source[0], BYTE_BITS, srcPos, count);
      assert Queue()[..count] == ToBits(source[0], BYTE_BITS)[srcPos..srcPos + count];
    }

    /** Advancing within the first byte, or past it, drops bits from the queue. */
    lemma DropPart(count: nat)
      requires Valid() && source != [] && count <= 8 - srcPos
      ensures Queue()[count..]
              == if srcPos + count > 7 then BytesToBits(source[1..]) else BytesToBits(source)[srcPos + count..]
    {
      var all := BytesToBits(source);
      assert Queue()[count..] == all[srcPos + count..];
      assert all[BYTE_BITS..] == BytesToBits(source[1..]);
    }
  }

  lemma ExtendWord(queue: seq<Bit>, copied: nat, more: nat)
    requires copied + more <= |queue|
    ensures ValueOf(queue[..copied + more])
            == ValueOf(queue[..copied]) + ShiftLeft(ValueOf(queue[copied..][..more]), copied)
    ensures queue[copied..][more..] == queue[copied + more..]
  {
    assert queue[..copied + more] == queue[..copied] + queue[copied..][..more];
    ValueOfConcat(queue[..copied], queue[copied..][..more]);
  }
}
