/** A disk image seen as 16-bit words, as the drives of 16-bit controllers use it. */
module ImageOfWords {
  import opened Words
  import opened StorageImage

  /** Little-endian words, as the ARM host stores them. */
  function Pair(lo: Byte, hi: Byte): Word { lo + 0x100 * hi }

  function WordAt(data: seq<Byte>, k: nat): Word { Pair(ByteAt(data, 2 * k), ByteAt(data, 2 * k + 1)) }

  /** What a read of the file delivers, as words; a failed stream gives zeros. */
  function WordSeen(f: File, k: nat): Word { if f.failed then 0 else WordAt(f.data, k) }

  function WordsSeen(f: File, offset: nat, n: nat): (r: seq<Word>)
    ensures |r| == n && forall i | 0 <= i < n :: r[i] == WordSeen(f, offset + i)
  {
    seq<Word>(n, i requires i >= 0 => WordSeen(f, offset + i))
  }

  /** The file after that read. */
  function AfterReadWords(f: File, offset: nat, n: nat): File { AfterRead(f, 2 * offset, 2 * n) }

  lemma WordsSeenSplit(f: File, offset: nat, c: nat, n: nat)
    requires c <= n
    ensures WordsSeen(f, offset, n) == WordsSeen(f, offset, c) + WordsSeen(f, offset + c, n - c)
    ensures WordsSeen(f, offset, c) == WordsSeen(f, offset, n)[..c]
  {
  }

  /** Behind a read the same words are seen whether or not it ran short: behind the
      end of the file they are all zero. */
  lemma NothingLostBehindEnd(f: File, offset: nat, c: nat, p: nat, n: nat)
    requires p >= offset + c
    ensures WordsSeen(AfterReadWords(f, offset, c), p, n) == WordsSeen(f, p, n)
  {
  }

  lemma ReadsJoin(f: File, offset: nat, c: nat, n: nat)
    requires n > 0
    ensures AfterReadWords(AfterReadWords(f, offset, c), offset + c, n) == AfterReadWords(f, offset, c + n)
  {
  }

  function BytesOf(words: seq<Word>): (r: seq<Byte>)
    ensures |r| == 2 * |words|
  {
    seq<Byte>(2 * |words|, i requires 0 <= i < 2 * |words| =>
      if i % 2 == 0 then words[i / 2] % 0x100 else words[i / 2] / 0x100)
  }

  /** Words written to the image are read back, and no others change. */
  lemma WordsWritten(data: seq<Byte>, offset: nat, words: seq<Word>, k: nat)
    ensures WordAt(WriteBytes(data, 2 * offset, BytesOf(words)), k)
            == if offset <= k < offset + |words| then words[k - offset] else WordAt(data, k)
  {
    hide WriteBytes;
    var bytes := BytesOf(words);
    WriteMeaning(data, 2 * offset, bytes, 2 * k);
    WriteMeaning(data, 2 * offset, bytes, 2 * k + 1);
    if offset <= k < offset + |words| {
      var i := k - offset;
      assert bytes[2 * i] == words[i] % 0x100 && bytes[2 * i + 1] == words[i] / 0x100;
    }
  }

  /** In the image the low byte of a word comes first. */
  lemma LowByteFirst(data: seq<Byte>, offset: nat, words: seq<Word>, i: nat)
    requires i < |words|
    ensures var data' := WriteBytes(data, 2 * offset, BytesOf(words));
            && ByteAt(data', 2 * (offset + i)) == words[i] % 0x100
            && ByteAt(data', 2 * (offset + i) + 1) == words[i] / 0x100
  {
    hide WriteBytes;
    var bytes := BytesOf(words);
    WriteMeaning(data, 2 * offset, bytes, 2 * (offset + i));
    WriteMeaning(data, 2 * offset, bytes, 2 * (offset + i) + 1);
    assert bytes[2 * i] == words[i] % 0x100 && bytes[2 * i + 1] == words[i] / 0x100;
  }

  lemma BytesAreWords(f: File, offset: nat, n: nat)
    ensures forall k | 0 <= k < n ::
              WordsSeen(f, offset, n)[k]
              == Pair(Delivered(f, 2 * offset, 2 * n)[2 * k], Delivered(f, 2 * offset, 2 * n)[2 * k + 1])
  {
  }

  /** image_read into a buffer of words. */
  method ReadWords(image: BinFile, offset: nat, buffer: array<Word>)
    requires buffer.Length > 0
    modifies buffer, image`failed
    ensures buffer[..] == WordsSeen(old(image.Content()), offset, buffer.Length)
    ensures image.Content() == AfterReadWords(old(image.Content()), offset, buffer.Length)
  {
    ghost var f := image.Content();
    var bytes := image.Read(2 * offset, 2 * buffer.Length);
    BytesAreWords(f, offset, buffer.Length);
    var k := 0;
    while k < buffer.Length
      invariant 0 <= k <= buffer.Length && bytes[..] == Delivered(f, 2 * offset, 2 * buffer.Length)
      invariant forall j | 0 <= j < k :: buffer[j] == WordsSeen(f, offset, buffer.Length)[j]
      modifies buffer
    {
      assert bytes[2 * k] == bytes[..][2 * k] && bytes[2 * k + 1] == bytes[..][2 * k + 1];
      assert WordsSeen(f, offset, buffer.Length)[k] == Pair(bytes[2 * k], bytes[2 * k + 1]);
      buffer[k] := Pair(bytes[2 * k], bytes[2 * k + 1]);
      k := k + 1;
    }
  }

  /** The bytes image_write finds in a buffer of words. */
  method ToBytes(buffer: array<Word>) returns (bytes: array<Byte>)
    ensures fresh(bytes) && bytes[..] == BytesOf(buffer[..])
  {
    bytes := new Byte[2 * buffer.Length];
    var k := 0;
    while k < buffer.Length
      invariant 0 <= k <= buffer.Length
      invariant forall j | 0 <= j < 2 * k :: bytes[j] == BytesOf(buffer[..])[j]
    {
      bytes[2 * k], bytes[2 * k + 1] := buffer[k] % 0x100, buffer[k] / 0x100;
      k := k + 1;
    }
  }
}
