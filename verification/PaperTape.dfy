/** The absolute loader for paper tapes (papertape.cpp), with the memory it loads
    (testbus.cpp). */
module PaperTape {
  import opened Words

  // ---- memory -------------------------------------------------------------

  /** The byte at an address of word memory. */
  function MemByte(memory: seq<Word>, a: nat): Byte
    requires a / 2 < |memory|
  {
    if a % 2 == 1 then memory[a / 2] / 0x100 else memory[a / 2] % 0x100
  }

  /** mem_deposit_byte: replaces one half of a word. */
  function Deposit(memory: seq<Word>, a: nat, value: Byte): (m: seq<Word>)
    requires a / 2 < |memory|
    ensures |m| == |memory|
  {
    var w := memory[a / 2];
    memory[a / 2 := if a % 2 == 1 then w % 0x100 + value * 0x100 else w / 0x100 * 0x100 + value]
  }

  lemma DepositMeaning(memory: seq<Word>, a: nat, value: Byte, q: nat)
    requires a / 2 < |memory| && q / 2 < |memory|
    ensures MemByte(Deposit(memory, a, value), q) == if q == a then value else MemByte(memory, q)
  {
  }

  // ---- the loader ---------------------------------------------------------

  datatype Outcome = Loaded | Botch | OutsideMemory(address: Word)

  datatype Option = None | Some(value: Outcome)

  /** What follows the data of a block, or the outcome if they could not be loaded. */
  datatype Loading = Done(rest: seq<Byte>, sum: Byte, memory: seq<Word>) | Stopped(outcome: Outcome, memory: seq<Word>)

  /** The data bytes of a block; sum and address wrap. */
  function LoadData(tape: seq<Byte>, n: nat, a: Word, sum: Byte, memory: seq<Word>): (l: Loading)
    ensures l.Done? ==> |l.rest| <= |tape|
    decreases n
  {
    if n == 0 then Done(tape, sum, memory)
    else if tape == [] then Stopped(Botch, memory)
    else if a / 2 >= |memory| then Stopped(OutsideMemory(a), memory)
    else LoadData(tape[1..], n - 1, (a + 1) % 0x1_0000, (sum + tape[0]) % 0x100, Deposit(memory, a, tape[0]))
  }

  function WordOf(lo: Byte, hi: Byte): Word { lo + 0x100 * hi }

  function Sum(bytes: seq<Byte>): nat
    decreases |bytes|
  {
    if bytes == [] then 0 else bytes[0] + Sum(bytes[1..])
  }

  /** The loader from a place of the tape on. */
  function LoadTape(tape: seq<Byte>, memory: seq<Word>): (Outcome, seq<Word>)
    decreases |tape|
  {
    if |tape| == 0 then (Loaded, memory)
    else if tape[0] != 1 then LoadTape(tape[1..], memory)
    else if |tape| == 1 then (Loaded, memory)
    else if tape[1] != 0 then LoadTape(tape[2..], memory)
    else if |tape| < 6 then (Botch, memory)
    else
      var n, a := WordOf(tape[2], tape[3]), WordOf(tape[4], tape[5]);
      if a == 1 then (Loaded, memory)
      else if n == 0 then LoadTape(tape[6..], memory)
      else
        match LoadData(tape[6..], (n - 6) % 0x1_0000, a, Sum(tape[..6]) % 0x100, memory)
        case Stopped(outcome, m) => (outcome, m)
        case Done(rest, sum, m) =>
          if rest == [] || (sum + rest[0]) % 0x100 != 0 then (Botch, m) else LoadTape(rest[1..], m)
  }

  // ---- the tape -----------------------------------------------------------

  /** A block, with the leader before it. */
  datatype Block = Block(leader: seq<Byte>, address: Word, data: seq<Byte>)

  /** Bytes the loader skips: anything but a 1, a 1 together with the byte behind it
      unless that is a 0, and headers with a count of 0. */
  predicate Leader(bytes: seq<Byte>)
    decreases |bytes|
  {
    || bytes == []
    || (bytes[0] != 1 && Leader(bytes[1..]))
    || (|bytes| >= 2 && bytes[0] == 1 && bytes[1] != 0 && Leader(bytes[2..]))
    || (|bytes| >= 6 && EmptyHeader(bytes) && Leader(bytes[6..]))
  }

  /** A header whose count is 0, not of an end block. */
  predicate EmptyHeader(h: seq<Byte>)
    requires |h| >= 6
  {
    h[0] == 1 && h[1] == 0 && h[2] == 0 && h[3] == 0 && WordOf(h[4], h[5]) != 1
  }

  /** The byte count has 16 bits. */
  predicate Encodable(b: Block) { |b.data| + 6 < 0x1_0000 }

  /** There is a place in memory for every byte. */
  predicate Inside(a: nat, n: nat, size: nat) { n > 0 ==> a + n <= 0x1_0000 && a + n <= 2 * size }

  /** Data inside memory, and the address not that of an end block. */
  predicate Fits(b: Block, size: nat) {
    Encodable(b) && Leader(b.leader) && b.address != 1 && Inside(b.address, |b.data|, size)
  }

  predicate AllFit(blocks: seq<Block>, size: nat) { forall b | b in blocks :: Encodable(b) && Fits(b, size) }

  function Header(b: Block): (h: seq<Byte>)
    requires Encodable(b)
    ensures |h| == 6
  {
    var n := |b.data| + 6;
    [1, 0, n % 0x100, n / 0x100, b.address % 0x100, b.address / 0x100]
  }

  function Checksum(b: Block): Byte
    requires Encodable(b)
  {
    (-(Sum(Header(b)) + Sum(b.data))) % 0x100
  }

  function EncodeBlock(b: Block): seq<Byte>
    requires Encodable(b)
  {
    b.leader + Header(b) + b.data + [Checksum(b)]
  }

  /** The tape of a list of blocks, with what comes behind them. */
  function Encode(blocks: seq<Block>, trailer: seq<Byte>): seq<Byte>
    requires forall b | b in blocks :: Encodable(b)
    decreases |blocks|
  {
    if blocks == [] then trailer else EncodeBlock(blocks[0]) + Encode(blocks[1..], trailer)
  }

  /** Behind the last block: leader, and possibly an end block with anything behind it. */
  predicate Trailer(bytes: seq<Byte>)
    decreases |bytes|
  {
    || bytes == []
    || bytes == [1]
    || (bytes[0] != 1 && Trailer(bytes[1..]))
    || (|bytes| >= 2 && bytes[0] == 1 && bytes[1] != 0 && Trailer(bytes[2..]))
    || (|bytes| >= 6 && EmptyHeader(bytes) && Trailer(bytes[6..]))
    || (|bytes| >= 6 && bytes[0] == 1 && bytes[1] == 0 && bytes[4] == 1 && bytes[5] == 0)
  }

  /** Memory after the data of a block, or of blocks, byte by byte. */
  function Placed(memory: seq<Word>, a: nat, data: seq<Byte>): (m: seq<Word>)
    requires Inside(a, |data|, |memory|)
    ensures |m| == |memory|
    decreases |data|
  {
    if data == [] then memory else Placed(Deposit(memory, a, data[0]), a + 1, data[1..])
  }

  function AllPlaced(memory: seq<Word>, blocks: seq<Block>): (m: seq<Word>)
    requires AllFit(blocks, |memory|)
    ensures |m| == |memory|
    decreases |blocks|
  {
    if blocks == [] then memory
    else
      assert Fits(blocks[0], |memory|);
      AllPlaced(Placed(memory, blocks[0].address, blocks[0].data), blocks[1..])
  }

  /** Exactly the bytes of the data are in memory, at even and odd addresses alike. */
  lemma {:induction false} PlacedMeaning(memory: seq<Word>, a: nat, data: seq<Byte>, q: nat)
    requires Inside(a, |data|, |memory|) && q < 2 * |memory|
    ensures MemByte(Placed(memory, a, data), q) == if a <= q < a + |data| then data[q - a] else MemByte(memory, q)
    decreases |data|
  {
    if data != [] {
      DepositMeaning(memory, a, data[0], q);
      PlacedMeaning(Deposit(memory, a, data[0]), a + 1, data[1..], q);
    }
  }

  /** The value a byte of memory gets from the blocks: that of the last block over it. */
  function Latest(blocks: seq<Block>, q: nat, old_: Byte): Byte
    decreases |blocks|
  {
    if blocks == [] then old_
    else
      var b := blocks[0];
      Latest(blocks[1..], q, if b.address <= q < b.address + |b.data| then b.data[q - b.address] else old_)
  }

  lemma {:induction false} AllPlacedMeaning(memory: seq<Word>, blocks: seq<Block>, q: nat)
    requires AllFit(blocks, |memory|)
    requires q < 2 * |memory|
    ensures MemByte(AllPlaced(memory, blocks), q) == Latest(blocks, q, MemByte(memory, q))
    decreases |blocks|
  {
    if blocks != [] {
      var b := blocks[0];
      assert Fits(b, |memory|);
      PlacedMeaning(memory, b.address, b.data, q);
      AllPlacedMeaning(Placed(memory, b.address, b.data), blocks[1..], q);
    }
  }

  // ---- loading what was encoded -------------------------------------------

  lemma EmptySkipped(tape: seq<Byte>, memory: seq<Word>)
    requires |tape| >= 6 && EmptyHeader(tape)
    ensures LoadTape(tape, memory) == LoadTape(tape[6..], memory)
  {
    hide LoadTape, LoadData, Sum;
    EmptyFields(tape);
    hide EmptyHeader, WordOf;
    BlockUnfolds(tape, memory);
  }

  lemma EmptyFields(tape: seq<Byte>)
    requires |tape| >= 6 && EmptyHeader(tape)
    ensures tape[0] == 1 && tape[1] == 0 && WordOf(tape[2], tape[3]) == 0 && WordOf(tape[4], tape[5]) != 1
  {
  }

  lemma {:induction false} LeaderSkipped(leader: seq<Byte>, rest: seq<Byte>, memory: seq<Word>)
    requires Leader(leader)
    ensures LoadTape(leader + rest, memory) == LoadTape(rest, memory)
    decreases |leader|
  {
    if leader == [] {
      assert leader + rest == rest;
    } else if leader[0] != 1 {
      assert (leader + rest)[1..] == leader[1..] + rest;
      LeaderSkipped(leader[1..], rest, memory);
    } else if leader[1] != 0 {
      assert (leader + rest)[2..] == leader[2..] + rest;
      LeaderSkipped(leader[2..], rest, memory);
    } else {
      assert (leader + rest)[6..] == leader[6..] + rest;
      EmptySkipped(leader + rest, memory);
      LeaderSkipped(leader[6..], rest, memory);
    }
  }

  lemma SumWraps(x: int, y: int)
    ensures (x % 0x100 + y) % 0x100 == (x + y) % 0x100
  {
  }

  lemma SumFirst(data: seq<Byte>)
    requires data != []
    ensures Sum(data) == data[0] + Sum(data[1..])
  {
  }

  lemma ByteLoaded(byte: Byte, rest: seq<Byte>, n: nat, a: Word, sum: Byte, memory: seq<Word>)
    requires n > 0 && a / 2 < |memory|
    ensures LoadData([byte] + rest, n, a, sum, memory)
            == LoadData(rest, n - 1, (a + 1) % 0x1_0000, (sum + byte) % 0x100, Deposit(memory, a, byte))
  {
    assert ([byte] + rest)[1..] == rest;
  }

  lemma SumStep(data: seq<Byte>, sum: Byte)
    requires data != []
    ensures (SumOf(sum, data[0]) + Sum(data[1..])) % 0x100 == (sum + Sum(data)) % 0x100
  {
    SumWraps(sum + data[0], Sum(data[1..]));
    SumFirst(data);
  }

  /** `w` is the address as the loader keeps it, in 16 bits. */
  lemma {:induction false} DataLoaded(data: seq<Byte>, rest: seq<Byte>, a: nat, w: Word, sum: Byte, memory: seq<Word>)
    requires Inside(a, |data|, |memory|) && (data != [] ==> w == a)
    ensures LoadData(data + rest, |data|, w, sum, memory)
            == Done(rest, (sum + Sum(data)) % 0x100, Placed(memory, a, data))
    decreases |data|
  {
    hide LoadData, Deposit, Sum, SumOf, Inside, Placed;
    if data == [] {
      NoData(rest, a, w, sum, memory);
      assert data + rest == rest;
    } else {
      InsideStep(a, |data|, |memory|);
      LoadStep(data, rest, a, sum, memory);
      SumStep(data, sum);
      PlacedStep(memory, a, data);
      DataLoaded(data[1..], rest, a + 1, (a + 1) % 0x1_0000, SumOf(sum, data[0]), Deposit(memory, a, data[0]));
    }
  }

  lemma NoData(rest: seq<Byte>, a: nat, w: Word, sum: Byte, memory: seq<Word>)
    ensures Inside(a, 0, |memory|)
    ensures LoadData(rest, 0, w, sum, memory) == Done(rest, (sum + Sum([])) % 0x100, Placed(memory, a, []))
  {
  }

  lemma PlacedStep(memory: seq<Word>, a: nat, data: seq<Byte>)
    requires Inside(a, |data|, |memory|) && data != []
    ensures a / 2 < |memory| && Inside(a + 1, |data| - 1, |memory|)
    ensures Placed(memory, a, data) == Placed(Deposit(memory, a, data[0]), a + 1, data[1..])
  {
    hide Deposit;
  }

  function SumOf(sum: Byte, byte: Byte): Byte { (sum + byte) % 0x100 }

  lemma FirstByte(data: seq<Byte>, rest: seq<Byte>)
    requires data != []
    ensures data + rest == [data[0]] + (data[1..] + rest)
  {
  }

  lemma InsideStep(a: nat, n: nat, size: nat)
    requires Inside(a, n, size) && n > 0
    ensures a < 0x1_0000 && a / 2 < size && Inside(a + 1, n - 1, size)
  {
  }

  lemma LoadStep(data: seq<Byte>, rest: seq<Byte>, a: Word, sum: Byte, memory: seq<Word>)
    requires data != [] && a / 2 < |memory|
    ensures LoadData(data + rest, |data|, a, sum, memory)
            == LoadData(data[1..] + rest, |data| - 1, (a + 1) % 0x1_0000, SumOf(sum, data[0]),
                        Deposit(memory, a, data[0]))
  {
    FirstByte(data, rest);
    ByteLoaded(data[0], data[1..] + rest, |data|, a, sum, memory);
    hide LoadData, Deposit;
  }

  lemma TotalWraps(x: nat, y: nat, z: nat)
    ensures ((x % 0x100 + y) % 0x100 + z) % 0x100 == (x + y + z) % 0x100
  {
    SumWraps(x, y);
    SumWraps(x + y, z);
  }

  /** What the loader finds in a header. */
  lemma HeaderRead(b: Block, tape: seq<Byte>)
    requires Encodable(b) && |tape| >= 6 && tape[..6] == Header(b)
    ensures tape[0] == 1 && tape[1] == 0
    ensures WordOf(tape[2], tape[3]) == |b.data| + 6 && WordOf(tape[4], tape[5]) == b.address
  {
    forall i | 0 <= i < 6 ensures tape[i] == Header(b)[i] {
      assert tape[i] == tape[..6][i];
    }
  }

  lemma Reassociate(leader: seq<Byte>, h: seq<Byte>, data: seq<Byte>, check: Byte, rest: seq<Byte>)
    ensures leader + h + data + [check] + rest == leader + (h + data + [check] + rest)
    ensures |h| == 6 ==> (h + data + [check] + rest)[..6] == h
    ensures |h| == 6 ==> (h + data + [check] + rest)[6..] == data + ([check] + rest)
    ensures ([check] + rest)[1..] == rest
  {
  }

  /** A header, data and one more byte: loaded if the sum is right, else a botch. */
  lemma BlockRead(b: Block, data: seq<Byte>, check: Byte, rest: seq<Byte>, memory: seq<Word>)
    requires Fits(b, |memory|) && |data| == |b.data|
    ensures var placed := Placed(memory, b.address, data);
            LoadTape(Header(b) + data + [check] + rest, memory)
            == if (Sum(Header(b)) + Sum(data) + check) % 0x100 == 0 then LoadTape(rest, placed) else (Botch, placed)
  {
    hide LoadTape, LoadData, Sum, Placed, WordOf;
    var h, a := Header(b), b.address;
    var tape := h + data + [check] + rest;
    assert tape[..6] == h && tape[6..] == data + ([check] + rest);
    HeaderRead(b, tape);
    hide Header;
    DataLoaded(data, [check] + rest, a, a, Sum(h) % 0x100, memory);
    TotalWraps(Sum(h), Sum(data), check);
    OneBlock(tape, h, |data|, a, [check] + rest, memory);
    assert ([check] + rest)[1..] == rest;
  }

  /** One round of the loader, over a block whose data are loaded. */
  lemma OneBlock(tape: seq<Byte>, h: seq<Byte>, n: nat, a: Word, after: seq<Byte>, memory: seq<Word>)
    requires |tape| >= 6 && tape[..6] == h && tape[0] == 1 && tape[1] == 0
    requires WordOf(tape[2], tape[3]) == n + 6 && WordOf(tape[4], tape[5]) == a && a != 1
    requires after != [] && LoadData(tape[6..], n, a, Sum(h) % 0x100, memory).Done?
    requires LoadData(tape[6..], n, a, Sum(h) % 0x100, memory).rest == after
    ensures var l := LoadData(tape[6..], n, a, Sum(h) % 0x100, memory);
            LoadTape(tape, memory)
            == if (l.sum + after[0]) % 0x100 != 0 then (Botch, l.memory) else LoadTape(after[1..], l.memory)
  {
    hide LoadData, Sum, WordOf;
    assert (n + 6 - 6) % 0x1_0000 == n;
  }

  lemma {:induction false} TrailerEnds(trailer: seq<Byte>, memory: seq<Word>)
    requires Trailer(trailer)
    ensures LoadTape(trailer, memory) == (Loaded, memory)
    decreases |trailer|
  {
    if trailer != [] && trailer[0] != 1 {
      TrailerEnds(trailer[1..], memory);
    } else if |trailer| >= 2 && trailer[1] != 0 {
      TrailerEnds(trailer[2..], memory);
    } else if |trailer| >= 6 && EmptyHeader(trailer) {
      EmptySkipped(trailer, memory);
      TrailerEnds(trailer[6..], memory);
    }
  }

  lemma ChecksumHolds(b: Block)
    requires Encodable(b)
    ensures (Sum(Header(b)) + Sum(b.data) + Checksum(b)) % 0x100 == 0
  {
    hide Header, Sum;
  }

  lemma BlockLoaded(b: Block, rest: seq<Byte>, memory: seq<Word>)
    requires Fits(b, |memory|)
    ensures LoadTape(EncodeBlock(b) + rest, memory) == LoadTape(rest, Placed(memory, b.address, b.data))
  {
    hide LoadTape, Header, Sum, Placed, Checksum;
    BlockRead(b, b.data, Checksum(b), rest, memory);
    LeaderSkipped(b.leader, Header(b) + b.data + [Checksum(b)] + rest, memory);
    Reassociate(b.leader, Header(b), b.data, Checksum(b), rest);
    ChecksumHolds(b);
  }

  /** The tape of any list of blocks loads them in order and reports success. */
  lemma {:induction false} TapeLoads(blocks: seq<Block>, trailer: seq<Byte>, memory: seq<Word>)
    requires AllFit(blocks, |memory|) && Trailer(trailer)
    ensures LoadTape(Encode(blocks, trailer), memory) == (Loaded, AllPlaced(memory, blocks))
    decreases |blocks|
  {
    if blocks == [] {
      TrailerEnds(trailer, memory);
    } else {
      BlockLoaded(blocks[0], Encode(blocks[1..], trailer), memory);
      TapeLoads(blocks[1..], trailer, Placed(memory, blocks[0].address, blocks[0].data));
    }
  }

  // ---- a changed byte -----------------------------------------------------

  lemma {:induction false} SumOfChanged(data: seq<Byte>, i: nat, value: Byte)
    requires i < |data|
    ensures Sum(data[i := value]) == Sum(data) - data[i] + value
    decreases |data|
  {
    var changed := data[i := value];
    if i == 0 {
      assert changed[1..] == data[1..];
    } else {
      assert changed[1..] == data[1..][i - 1 := value];
      SumOfChanged(data[1..], i - 1, value);
    }
  }

  /** The tape with the data byte i of block k changed. */
  function Damaged(blocks: seq<Block>, trailer: seq<Byte>, k: nat, i: nat, value: Byte): seq<Byte>
    requires forall b | b in blocks :: Encodable(b)
    requires k < |blocks| && i < |blocks[k].data|
  {
    var t := Encode(blocks, trailer);
    PlaceOnTape(blocks, trailer, k, i);
    t[DataPosition(blocks, k, i) := value]
  }

  function DataPosition(blocks: seq<Block>, k: nat, i: nat): nat
    requires forall b | b in blocks :: Encodable(b)
    requires k < |blocks|
    decreases k
  {
    if k == 0 then |blocks[0].leader| + 6 + i else |EncodeBlock(blocks[0])| + DataPosition(blocks[1..], k - 1, i)
  }

  lemma {:induction false} PlaceOnTape(blocks: seq<Block>, trailer: seq<Byte>, k: nat, i: nat)
    requires forall b | b in blocks :: Encodable(b)
    requires k < |blocks| && i < |blocks[k].data|
    ensures DataPosition(blocks, k, i) < |Encode(blocks, trailer)|
    ensures Encode(blocks, trailer)[DataPosition(blocks, k, i)] == blocks[k].data[i]
    decreases k
  {
    if k > 0 {
      PlaceOnTape(blocks[1..], trailer, k - 1, i);
    }
  }

  lemma ChecksumFails(b: Block, i: nat, value: Byte)
    requires Encodable(b) && i < |b.data| && value != b.data[i]
    ensures (Sum(Header(b)) + Sum(b.data[i := value]) + Checksum(b)) % 0x100 != 0
  {
    SumOfChanged(b.data, i, value);
    hide Header, Sum;
  }

  lemma FirstBlockDamaged(b: Block, i: nat, value: Byte, rest: seq<Byte>, memory: seq<Word>)
    requires Fits(b, |memory|) && i < |b.data| && value != b.data[i]
    ensures LoadTape(b.leader + Header(b) + b.data[i := value] + [Checksum(b)] + rest, memory).0 == Botch
  {
    hide LoadTape, Header, Sum, Placed, Checksum;
    var data := b.data[i := value];
    BlockRead(b, data, Checksum(b), rest, memory);
    LeaderSkipped(b.leader, Header(b) + data + [Checksum(b)] + rest, memory);
    Reassociate(b.leader, Header(b), data, Checksum(b), rest);
    ChecksumFails(b, i, value);
  }

  lemma DamagedParts(blocks: seq<Block>, trailer: seq<Byte>, k: nat, i: nat, value: Byte)
    requires forall b | b in blocks :: Encodable(b)
    requires k < |blocks| && i < |blocks[k].data|
    ensures var b := blocks[0]; var rest := Encode(blocks[1..], trailer);
            Damaged(blocks, trailer, k, i, value)
            == if k == 0 then b.leader + Header(b) + b.data[i := value] + [Checksum(b)] + rest
               else EncodeBlock(b) + Damaged(blocks[1..], trailer, k - 1, i, value)
  {
    PlaceOnTape(blocks, trailer, k, i);
    hide Header, Checksum;
  }

  /** Changing the value of any single data byte is reported as a botched tape. */
  lemma {:induction false} DamageDetected(blocks: seq<Block>, trailer: seq<Byte>, memory: seq<Word>,
                                          k: nat, i: nat, value: Byte)
    requires AllFit(blocks, |memory|)
    requires k < |blocks| && i < |blocks[k].data| && value != blocks[k].data[i]
    ensures LoadTape(Damaged(blocks, trailer, k, i, value), memory).0 == Botch
    decreases k
  {
    var b := blocks[0];
    DamagedParts(blocks, trailer, k, i, value);
    hide LoadTape, Damaged, EncodeBlock, Placed, Header, Checksum;
    if k == 0 {
      FirstBlockDamaged(b, i, value, Encode(blocks[1..], trailer), memory);
    } else {
      BlockLoaded(b, Damaged(blocks[1..], trailer, k - 1, i, value), memory);
      DamageDetected(blocks[1..], trailer, Placed(memory, b.address, b.data), k - 1, i, value);
    }
  }

  // ---- tapes that end early, and tapes for a larger memory ----------------

  /** The tape ends within the data. */
  lemma {:induction false} DataCut(data: seq<Byte>, n: nat, a: nat, w: Word, sum: Byte, memory: seq<Word>)
    requires |data| < n && Inside(a, |data|, |memory|) && (data != [] ==> w == a)
    ensures LoadData(data, n, w, sum, memory) == Stopped(Botch, Placed(memory, a, data))
    decreases |data|
  {
    if data != [] {
      InsideStep(a, |data|, |memory|);
      PlacedStep(memory, a, data);
      DataCut(data[1..], n - 1, a + 1, (a + 1) % 0x1_0000, SumOf(sum, data[0]), Deposit(memory, a, data[0]));
    }
    hide Deposit;
  }

  /** Memory ends within the data. */
  lemma {:induction false} DataOutside(data: seq<Byte>, rest: seq<Byte>, n: nat, a: Word, sum: Byte, memory: seq<Word>)
    requires |data| < n && rest != [] && Inside(a, |data|, |memory|) && 2 * |memory| <= a + |data| < 0x1_0000
    ensures LoadData(data + rest, n, a, sum, memory)
            == Stopped(OutsideMemory(a + |data|), Placed(memory, a, data))
    decreases |data|
  {
    hide LoadData, Deposit, Placed, Inside;
    if data == [] {
      assert data + rest == rest;
      NoPlace(rest, n, a, sum, memory);
    } else {
      InsideStep(a, |data|, |memory|);
      PlacedStep(memory, a, data);
      FirstByte(data, rest);
      ByteLoaded(data[0], data[1..] + rest, n, a, sum, memory);
      DataOutside(data[1..], rest, n - 1, a + 1, SumOf(sum, data[0]), Deposit(memory, a, data[0]));
    }
  }

  lemma NoPlace(rest: seq<Byte>, n: nat, a: Word, sum: Byte, memory: seq<Word>)
    requires n > 0 && rest != [] && 2 * |memory| <= a
    ensures Inside(a, 0, |memory|)
    ensures LoadData(rest, n, a, sum, memory) == Stopped(OutsideMemory(a), Placed(memory, a, []))
  {
  }

  function BlockBytes(b: Block): seq<Byte>
    requires Encodable(b)
  {
    Header(b) + b.data + [Checksum(b)]
  }

  lemma InsidePart(a: nat, n: nat, k: nat, size: nat)
    requires Inside(a, n, size) && k <= n
    ensures Inside(a, k, size)
  {
  }

  lemma CutInData(b: Block, data: seq<Byte>, memory: seq<Word>)
    requires Encodable(b) && b.address != 1 && |data| < |b.data| && Inside(b.address, |data|, |memory|)
    ensures LoadTape(Header(b) + data, memory) == (Botch, Placed(memory, b.address, data))
  {
    hide LoadTape, LoadData, Sum, Placed, WordOf, Inside;
    var tape, n := Header(b) + data, |b.data|;
    assert tape[..6] == Header(b) && tape[6..] == data;
    HeaderRead(b, tape);
    hide Header;
    BlockUnfolds(tape, memory);
    assert (n + 6 - 6) % 0x1_0000 == n;
    DataCut(data, n, b.address, b.address, Sum(tape[..6]) % 0x100, memory);
  }

  lemma CutBeforeChecksum(b: Block, memory: seq<Word>)
    requires Encodable(b) && b.address != 1 && Inside(b.address, |b.data|, |memory|)
    ensures LoadTape(Header(b) + b.data, memory) == (Botch, Placed(memory, b.address, b.data))
  {
    hide LoadTape, LoadData, Sum, Placed, WordOf, Inside;
    var tape, n := Header(b) + b.data, |b.data|;
    assert tape[..6] == Header(b) && tape[6..] == b.data;
    HeaderRead(b, tape);
    hide Header;
    BlockUnfolds(tape, memory);
    assert (n + 6 - 6) % 0x1_0000 == n;
    assert b.data + [] == b.data;
    DataLoaded(b.data, [], b.address, b.address, Sum(tape[..6]) % 0x100, memory);
  }

  /** A tape that ends within a block is a botch, but for one that ends with the first
      byte of its header; the data before the end are in memory. */
  lemma TruncationDetected(b: Block, cut: nat, memory: seq<Word>)
    requires Fits(b, |memory|) && cut < |BlockBytes(b)|
    ensures var n := if cut < 6 then 0 else if cut - 6 < |b.data| then cut - 6 else |b.data|;
            Inside(b.address, n, |memory|)
            && LoadTape(b.leader + BlockBytes(b)[..cut], memory)
               == (if cut < 2 then Loaded else Botch, Placed(memory, b.address, b.data[..n]))
  {
    hide LoadTape, Sum, Placed, Checksum, Inside, Leader;
    LeaderSkipped(b.leader, BlockBytes(b)[..cut], memory);
    if cut < 6 {
      HeaderCut(b, cut, memory);
      NoData([], b.address, 0, 0, memory);
      assert b.data[..0] == [];
    } else {
      var data := b.data[..cut - 6];
      assert BlockBytes(b)[..cut] == Header(b) + data;
      InsidePart(b.address, |b.data|, |data|, |memory|);
      if |data| < |b.data| {
        CutInData(b, data, memory);
      } else {
        assert data == b.data;
        CutBeforeChecksum(b, memory);
      }
    }
  }

  lemma HeaderCut(b: Block, cut: nat, memory: seq<Word>)
    requires Encodable(b) && cut < 6
    ensures LoadTape(BlockBytes(b)[..cut], memory) == (if cut < 2 then Loaded else Botch, memory)
  {
    var tape := BlockBytes(b)[..cut];
    assert cut > 0 ==> tape[0] == 1;
    assert cut > 1 ==> tape[1] == 0;
  }

  lemma EndsOutside(b: Block, k: nat, behind: seq<Byte>, memory: seq<Word>)
    requires Encodable(b) && b.address != 1 && k < |b.data| && behind != []
    requires Inside(b.address, k, |memory|) && 2 * |memory| <= b.address + k < 0x1_0000
    ensures LoadTape(Header(b) + b.data + behind, memory)
            == (OutsideMemory(b.address + k), Placed(memory, b.address, b.data[..k]))
  {
    hide LoadTape, LoadData, Sum, Placed, Checksum, WordOf, Inside, Leader, Trailer;
    var tape := Header(b) + b.data + behind;
    assert tape[..6] == Header(b) && tape[6..] == b.data[..k] + (b.data[k..] + behind);
    HeaderRead(b, tape);
    hide Header;
    BlockUnfolds(tape, memory);
    DataOutside(b.data[..k], b.data[k..] + behind, |b.data|, b.address, Sum(tape[..6]) % 0x100, memory);
  }

  lemma LeadersSkipped(b: Block, rest: seq<Byte>, memory: seq<Word>)
    requires Encodable(b) && Leader(b.leader)
    ensures LoadTape(EncodeBlock(b) + rest, memory) == LoadTape(Header(b) + b.data + ([Checksum(b)] + rest), memory)
  {
    hide LoadTape, Header, Checksum, Leader;
    LeaderSkipped(b.leader, Header(b) + b.data + ([Checksum(b)] + rest), memory);
    Regroup(b.leader, Header(b), b.data, [Checksum(b)], rest);
  }

  /** A block that reaches beyond memory stops at the first byte outside. */
  lemma OutsideFound(b: Block, rest: seq<Byte>, memory: seq<Word>)
    requires Encodable(b) && Leader(b.leader) && b.address != 1
    requires 2 * |memory| < b.address + |b.data| <= 0x1_0000 && b.data != []
    ensures var k := if b.address < 2 * |memory| then 2 * |memory| - b.address else 0;
            k < |b.data| && Inside(b.address, k, |memory|)
            && LoadTape(EncodeBlock(b) + rest, memory)
               == (OutsideMemory(b.address + k), Placed(memory, b.address, b.data[..k]))
  {
    hide LoadTape, Header, Sum, Placed, Checksum, Leader, EncodeBlock;
    LeadersSkipped(b, rest, memory);
    EndsOutside(b, if b.address < 2 * |memory| then 2 * |memory| - b.address else 0, [Checksum(b)] + rest, memory);
  }

  lemma Regroup(a: seq<Byte>, b: seq<Byte>, c: seq<Byte>, d: seq<Byte>, e: seq<Byte>)
    ensures a + b + c + d + e == a + (b + c + (d + e))
  {
  }

  // ---- the loader in place ------------------------------------------------

  class TestBus {
    const memory: array<Word>

    constructor (words: nat)
      ensures fresh(memory) && memory.Length == words
    {
      memory := new Word[words](_ => 0);
    }

    method MemDepositByte(addr: Word, value: Byte) returns (ok: bool)
      modifies memory
      ensures ok == (addr / 2 < memory.Length)
      ensures memory[..] == if ok then Deposit(old(memory[..]), addr, value) else old(memory[..])
    {
      if addr / 2 >= memory.Length {
        return false;
      }
      var w := memory[addr / 2];
      if addr % 2 == 1 {
        w := w % 0x100 + value * 0x100;
      } else {
        w := w / 0x100 * 0x100 + value;
      }
      memory[addr / 2] := w;
      return true;
    }
  }

  /** The loop over the n data bytes of a block. */
  method ReadData(tape: seq<Byte>, start: nat, n: nat, address: Word, sum0: Byte, bus: TestBus)
    returns (position: nat, sum: Byte, failure: Outcome)
    requires start <= |tape|
    modifies bus.memory
    ensures start <= position <= |tape|
    ensures LoadData(tape[start..], n, address, sum0, old(bus.memory[..]))
            == if failure == Loaded then Done(tape[position..], sum, bus.memory[..])
               else Stopped(failure, bus.memory[..])
  {
    var left: int, a: int := n, address;
    position, sum, failure := start, sum0, Loaded;
    while left > 0
      invariant start <= position <= |tape| && failure == Loaded && left >= 0 && 0 <= a < 0x1_0000
      invariant LoadData(tape[position..], left, a, sum, bus.memory[..])
                == LoadData(tape[start..], n, address, sum0, old(bus.memory[..]))
    {
      if position >= |tape| {
        failure := Botch;
        return;
      }
      assert tape[position..][1..] == tape[position + 1..];
      var lo := tape[position];
      position := position + 1;
      sum := (sum + lo) % 0x100;
      var ok := bus.MemDepositByte(a, lo);
      if !ok {
        failure := OutsideMemory(a);
        return;
      }
      a := (a + 1) % 0x1_0000;
      left := left - 1;
    }
  }

  /** What the loader does with a block whose header is complete. */
  lemma BlockUnfolds(tape: seq<Byte>, memory: seq<Word>)
    requires |tape| >= 6 && tape[0] == 1 && tape[1] == 0
    ensures var n, a := WordOf(tape[2], tape[3]), WordOf(tape[4], tape[5]);
            var l := LoadData(tape[6..], (n - 6) % 0x1_0000, a, Sum(tape[..6]) % 0x100, memory);
            LoadTape(tape, memory)
            == if a == 1 then (Loaded, memory)
               else if n == 0 then LoadTape(tape[6..], memory)
               else if l.Stopped? then (l.outcome, l.memory)
               else if l.rest == [] || (l.sum + l.rest[0]) % 0x100 != 0 then (Botch, l.memory)
               else LoadTape(l.rest[1..], l.memory)
  {
    hide LoadData, WordOf, Sum;
  }

  /** A block from its byte count on; `outcome` is None when the tape goes on. */
  method LoadBlock(tape: seq<Byte>, start: nat, bus: TestBus) returns (position: nat, outcome: Option)
    requires start + 6 <= |tape| && tape[start] == 1 && tape[start + 1] == 0
    modifies bus.memory
    ensures start < position <= |tape|
    ensures LoadTape(tape[start..], old(bus.memory[..]))
            == if outcome.None? then LoadTape(tape[position..], bus.memory[..]) else (outcome.value, bus.memory[..])
  {
    hide LoadData, WordOf, Sum, LoadTape;
    ghost var block := tape[start..];
    assert block[6..] == tape[start + 6..] && block[..6] == tape[start..start + 6];
    var n: int, a: int := WordOf(tape[start + 2], tape[start + 3]), WordOf(tape[start + 4], tape[start + 5]);
    assert n == WordOf(block[2], block[3]) && a == WordOf(block[4], block[5]);
    BlockUnfolds(block, bus.memory[..]);
    position := start + 6;
    if a == 1 {
      return position, Some(Loaded);
    }
    if n == 0 {
      return position, None;
    }
    var count := (n - 6) % 0x1_0000;
    var sum: int := HeaderSum(tape[start..start + 6]);
    ghost var loading := LoadData(block[6..], count, a, sum, bus.memory[..]);
    var failure;
    position, sum, failure := ReadData(tape, start + 6, count, a, sum, bus);
    assert loading == if failure == Loaded then Done(tape[position..], sum, bus.memory[..])
                      else Stopped(failure, bus.memory[..]);
    if failure != Loaded {
      return position, Some(failure);
    }
    if position >= |tape| || (sum + tape[position]) % 0x100 != 0 {
      return position, Some(Botch);
    }
    assert loading.rest[1..] == tape[position + 1..];
    return position + 1, None;
  }

  /** papertape_load, on the content of the file. */
  method PapertapeLoad(tape: seq<Byte>, bus: TestBus) returns (outcome: Outcome)
    modifies bus.memory
    ensures (outcome, bus.memory[..]) == LoadTape(tape, old(bus.memory[..]))
  {
    hide LoadData, WordOf, Sum;
    var position := 0;
    assert tape[0..] == tape;
    while true
      invariant 0 <= position <= |tape|
      invariant LoadTape(tape[position..], bus.memory[..]) == LoadTape(tape, old(bus.memory[..]))
      decreases |tape| - position
    {
      ghost var rest := tape[position..];
      if position >= |tape| {
        return Loaded;
      }
      if tape[position] != 1 {
        assert rest[1..] == tape[position + 1..];
        position := position + 1;
        continue;
      }
      if position + 1 >= |tape| {
        return Loaded;
      }
      if tape[position + 1] != 0 {
        assert rest[2..] == tape[position + 2..];
        position := position + 2;
        continue;
      }
      if position + 6 > |tape| {
        return Botch;
      }
      var ended;
      position, ended := LoadBlock(tape, position, bus);
      if ended.Some? {
        return ended.value;
      }
    }
  }

  /** The sum of the header bytes, as it is kept in 8 bits. */
  method HeaderSum(h: seq<Byte>) returns (sum: Byte)
    ensures sum == Sum(h) % 0x100
  {
    sum := 0;
    for i := 0 to |h|
      invariant (sum + Sum(h[i..])) % 0x100 == Sum(h) % 0x100
    {
      assert h[i..][1..] == h[i + 1..];
      SumWraps(sum + h[i], Sum(h[i + 1..]));
      sum := (sum + h[i]) % 0x100;
    }
  }
}
