/** DMA between a device and the memory of the PDP-11: words from address 0 up to
    the end of memory, behind which a bus cycle times out. */
module HostMemory {
  import opened ImageOfWords
  import opened StorageImage
  import opened Words

  /** How many of n words from a byte address on exist, in a memory of `size` words
      from address 0 on. */
  function Existing(size: nat, address: nat, n: nat): (e: nat)
    ensures e <= n
  {
    if address / 2 + n <= size then n
    else if address / 2 <= size then size - address / 2 else 0
  }

  /** The words a DMA read of n words delivers; the rest of the buffer stays zero. */
  function DmaIn(memory: seq<Word>, address: nat, n: nat, size: nat): (r: seq<Word>)
    ensures |r| == size
  {
    seq<Word>(size, i requires i >= 0 => WordIn(memory, address, n, i))
  }

  function WordIn(memory: seq<Word>, address: nat, n: nat, i: nat): Word {
    if i < n && address / 2 + i < |memory| then memory[address / 2 + i] else 0
  }

  lemma WordInShift(memory: seq<Word>, address: nat, c: nat, n: nat, i: nat)
    ensures WordIn(memory, address + 2 * c, n, i) == WordIn(memory, address, c + n, c + i)
  {
  }

  /** A DMA write stores the words that have a place in memory. */
  function DmaOut(memory: seq<Word>, address: nat, words: seq<Word>): (m: seq<Word>)
    ensures |m| == |memory|
  {
    seq<Word>(|memory|, i requires 0 <= i < |memory| =>
      if address / 2 <= i < address / 2 + |words| then words[i - address / 2] else memory[i])
  }

  /** qunibus_end_addr: the last word transferred, or the first that does not exist. */
  function EndAddress(size: nat, address: nat, n: nat): nat
    requires n > 0
  {
    var k := Existing(size, address, n);
    if k == n then address + 2 * (n - 1) else address + 2 * k
  }

  /** A word exists if its place is in memory. */
  lemma ExistingCounts(size: nat, address: nat, n: nat, i: nat)
    requires i < n
    ensures i < Existing(size, address, n) <==> address / 2 + i < size
  {
  }

  /** The words that exist arrive in order from the address on, and no other place of
      memory changes; read from there they come back. */
  lemma DmaReadsBack(memory: seq<Word>, address: nat, words: seq<Word>)
    ensures var m, k := DmaOut(memory, address, words), Existing(|memory|, address, |words|); var first := address / 2;
            && (k > 0 ==> first + k <= |memory| && m == memory[..first] + words[..k] + memory[first + k..])
            && (k == 0 ==> m == memory)
            && DmaIn(m, address, k, k) == words[..k]
  {
    var m, k := DmaOut(memory, address, words), Existing(|memory|, address, |words|);
    if k > 0 {
      assert m == memory[..address / 2] + words[..k] + memory[address / 2 + k..];
    }
  }

  lemma ExistingSplit(size: nat, address: nat, c: nat, n: nat)
    requires c <= n
    ensures Existing(size, address, c) < c ==> Existing(size, address, n) == Existing(size, address, c)
    ensures Existing(size, address, c) == c && address % 2 == 0 ==>
              Existing(size, address, n) == c + Existing(size, address + 2 * c, n - c)
  {
  }

  lemma DmaOutSplit(memory: seq<Word>, address: nat, x: seq<Word>, y: seq<Word>)
    requires address % 2 == 0
    ensures Existing(|memory|, address, |x|) < |x| ==> DmaOut(memory, address, x + y) == DmaOut(memory, address, x)
    ensures DmaOut(DmaOut(memory, address, x), address + 2 * |x|, y) == DmaOut(memory, address, x + y)
  {
  }

  lemma WordsInOrder(words: seq<Word>, memory: seq<Word>, address: nat, n: nat)
    requires |words| == n && address / 2 + n <= |memory|
    requires forall i | 0 <= i < n :: words[i] == WordIn(memory, address, n, i)
    ensures words == memory[address / 2..address / 2 + n]
  {
  }

  /** A sector of `size` words written from memory: n words, zeros behind the last,
      and no other word of the image changed. */
  lemma PaddedSectorStored(data: seq<Byte>, data': seq<Byte>, first: nat, size: nat,
                           memory: seq<Word>, address: nat, n: nat, q: nat)
    requires data' == WriteBytes(data, 2 * first, BytesOf(DmaIn(memory, address, n, size)))
    ensures WordAt(data', q)
            == if first <= q < first + size then WordIn(memory, address, n, q - first) else WordAt(data, q)
  {
    WordsWritten(data, first, DmaIn(memory, address, n, size), q);
  }

  /** Words from a buffer to memory, whose new content is returned. */
  method Dato(memory: seq<Word>, address: nat, buffer: array<Word>, n: nat)
    returns (memory': seq<Word>, success: bool, end: nat)
    requires 0 < n <= buffer.Length
    ensures memory' == DmaOut(memory, address, buffer[..n])
    ensures success == (Existing(|memory|, address, n) == n) && end == EndAddress(|memory|, address, n)
    ensures address % 2 == 0 ==> end % 2 == 0
  {
    var first := address / 2;
    var k := 0;
    memory' := memory;
    while k < n && first + k < |memory|
      invariant 0 <= k <= n && |memory'| == |memory|
      invariant k > 0 ==> first + k <= |memory|
      invariant forall i | 0 <= i < |memory| ::
                  memory'[i] == if first <= i < first + k then buffer[i - first] else memory[i]
    {
      memory' := memory'[first + k := buffer[k]];
      k := k + 1;
    }
    success := k == n;
    end := if success then address + 2 * (n - 1) else address + 2 * k;
    assert memory' == DmaOut(memory, address, buffer[..n]);
  }

  /** Words from memory to a cleared buffer. */
  method Dati(memory: seq<Word>, address: nat, buffer: array<Word>, n: nat) returns (success: bool, end: nat)
    requires 0 < n <= buffer.Length && forall i | 0 <= i < buffer.Length :: buffer[i] == 0
    modifies buffer
    ensures buffer[..] == DmaIn(memory, address, n, buffer.Length)
    ensures success == (Existing(|memory|, address, n) == n) && end == EndAddress(|memory|, address, n)
    ensures address % 2 == 0 ==> end % 2 == 0
  {
    var first := address / 2;
    var k := 0;
    while k < n && first + k < |memory|
      invariant 0 <= k <= n
      invariant k > 0 ==> first + k <= |memory|
      invariant forall i | 0 <= i < buffer.Length ::
                  buffer[i] == if i < k then WordIn(memory, address, n, i) else 0
    {
      buffer[k] := memory[first + k];
      k := k + 1;
    }
    success := k == n;
    end := if success then address + 2 * (n - 1) else address + 2 * k;
  }

  method Clear(buffer: array<Word>)
    modifies buffer
    ensures forall i | 0 <= i < buffer.Length :: buffer[i] == 0
  {
    forall i | 0 <= i < buffer.Length {
      buffer[i] := 0;
    }
  }
}
