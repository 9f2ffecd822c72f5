/** The port of the MSCP controller (uda.cpp): the SA and IP registers, the
    four-step initialization and the descriptor rings in host memory.

    Host memory maps the (even) byte addresses of existing words to their
    contents; a DMA access to any other address is a bus timeout. */
module UdaPort {
  import opened Words

  type Memory = map<int, Word>

  datatype InitStep = Uninitialized | Step1 | Step2 | Step3 | Step4 | Complete

  const STEP1 := 0x0800
  const STEP2 := 0x1000
  const STEP3 := 0x2000
  const STEP4 := 0x4000
  const STEP1_22_BIT := 0x200
  const UDA50_ID := 0x0063
  const RQDX3_ID := 0x0133
  const PORT_ERROR := 0x8000
  const PORT_ERROR_PACKET_READ := 1
  const PORT_ERROR_RING_READ := 6
  const MAX_MESSAGE_LENGTH := 0x1000

  /** The fields of uda_c, and the host memory it sees. */
  datatype Port = Port(
    step: InitStep, nextStep: bool, sa: Word, step1Value: Word,
    ringBase: int, commandLength: nat, responseLength: nat,
    commandPointer: nat, responsePointer: nat,
    vector: nat, interruptEnable: bool, purge: bool,
    wide: bool,        // 22-bit DMA
    rqdx3: bool,       // controller type
    memory: Memory)

  function HeaderSize(p: Port): int { if p.purge then 8 else 4 }
  function SlotAddress(base: int, i: nat): int { base + 4 * i }
  function ResponseAddress(p: Port, i: nat): int { SlotAddress(p.ringBase, i) }
  function CommandAddress(p: Port, i: nat): int { SlotAddress(p.ringBase, p.responseLength + i) }

  // ---- initialization -----------------------------------------------------

  /** DMAWriteWord: a word that does not exist stays so. */
  function Put(m: Memory, a: int, w: Word): (m': Memory)
    ensures m'.Keys == m.Keys
  {
    if a in m then m[a := w] else m
  }

  /** n words from address lo on, zeroed one after the other. */
  ghost function ZeroedWords(m: Memory, lo: int, n: nat): (m': Memory)
    ensures m'.Keys == m.Keys
    ensures forall a | a in m && (a < lo || lo + 2 * n <= a) :: m'[a] == m[a]
  {
    if n == 0 then m else Put(ZeroedWords(m, lo, n - 1), lo + 2 * (n - 1), 0)
  }

  /** A blank descriptor owned by the port; given up if its first word does not exist. */
  function BlankSlot(m: Memory, a: int): (m': Memory)
    ensures m'.Keys == m.Keys
  {
    if a in m then Put(Put(m, a, 0), a + 2, 0x8000) else m
  }

  /** n blank descriptors from address base on. */
  ghost function OwnedSlots(m: Memory, base: int, n: nat): (m': Memory)
    ensures m'.Keys == m.Keys
    ensures forall a | a in m && (a < base || base + 4 * n <= a) :: m'[a] == m[a]
  {
    if n == 0 then m else BlankSlot(OwnedSlots(m, base, n - 1), SlotAddress(base, n - 1))
  }

  /** The communications area as the host finds it in step 4. */
  ghost function ClearedArea(m: Memory, base: int, header: int, r: nat, c: nat): Memory {
    OwnedSlots(ZeroedWords(m, base - header, AreaWords(header, r, c)), base, r)
  }

  function AreaWords(header: int, r: nat, c: nat): nat {
    if header >= 0 then 2 * (r + c) + header / 2 else 0
  }

  /** ... of the port's own memory. */
  ghost function Cleared(p: Port, m: Memory): Memory {
    ClearedArea(m, p.ringBase, HeaderSize(p), p.responseLength, p.commandLength)
  }

  /** A write of SA by the host. */
  ghost function WriteSA(p: Port, value: Word): Port {
    match p.step
    case Uninitialized => WriteStep1(p, value)
    case Step1 => WriteStep1(p, value)
    case Step2 =>
      p.(ringBase := value - value % 2, purge := value % 2 == 1, step := Step3, nextStep := true)
    case Step3 =>
      p.(ringBase := Or(p.ringBase, (value % 0x8000) * 0x1_0000), step := Step4, nextStep := true)
    case Step4 =>
      if value % 2 == 1 then p.(step := Complete, nextStep := true, sa := 0) else p
    case Complete => p
  }

  ghost function WriteStep1(p: Port, value: Word): Port {
    p.(step1Value := value, vector := (value % 0x80) * 4, interruptEnable := Bit(value, 7),
       responseLength := Pow2((value / 0x100) % 8), commandLength := Pow2((value / 0x800) % 8),
       step := Step2, nextStep := true)
  }

  /** One pass of the worker, which has been woken by nextStep. */
  ghost function Work(p: Port): Port {
    var q := p.(nextStep := false);
    match p.step
    case Uninitialized =>
      q.(sa := 0, ringBase := 0, commandLength := 0, responseLength := 0, commandPointer := 0,
         responsePointer := 0, vector := 0, interruptEnable := false, purge := false,
         step := Step1, nextStep := true)
    case Step1 => q.(sa := STEP1 + (if p.wide then STEP1_22_BIT else 0))
    case Step2 => q.(sa := STEP2 + p.step1Value / 0x100)
    case Step3 => q.(sa := STEP3 + p.step1Value % 0x100)
    case Step4 =>
      q.(memory := Cleared(p, p.memory), sa := STEP4 + (if p.rqdx3 then RQDX3_ID else UDA50_ID))
    case Complete => q
  }

  // ---- the handshake ------------------------------------------------------

  /** `words`: what the host wrote in steps 1 to 3; `before`: the memory at the start. */
  datatype Handshake = Handshake(port: Port, words: seq<Word>, before: Memory)

  datatype Event = Worker | HostWrites(value: Word)

  predicate Shows(sa: Word, stepBit: int)
    requires stepBit > 0
  {
    (sa / stepBit) % 2 == 1
  }

  function StepBit(n: nat): int {
    if n == 0 then STEP1 else if n == 1 then STEP2 else if n == 2 then STEP3 else STEP4
  }

  /** The host writes its next word only after it has seen the matching step bit. */
  predicate Enabled(h: Handshake, e: Event) {
    match e
    case Worker => h.port.nextStep
    case HostWrites(_) => Shows(h.port.sa, StepBit(|h.words|))
  }

  ghost function Step(h: Handshake, e: Event): Handshake {
    match e
    case Worker => h.(port := Work(h.port))
    case HostWrites(v) =>
      h.(port := WriteSA(h.port, v), words := if |h.words| < 3 then h.words + [v] else h.words)
  }

  ghost predicate Possible(h: Handshake, es: seq<Event>)
    decreases |es|
  {
    es != [] ==> Enabled(h, es[0]) && Possible(Step(h, es[0]), es[1..])
  }

  ghost function After(h: Handshake, es: seq<Event>): Handshake
    requires Possible(h, es)
    decreases |es|
  {
    if es == [] then h else After(Step(h, es[0]), es[1..])
  }

  /** After a reset: IP written, or power came up. */
  ghost predicate Start(h: Handshake) {
    && h.port.step == Uninitialized && h.port.nextStep && h.port.sa == 0
    && h.words == [] && h.before == h.port.memory
  }

  /** What the host's words say. */
  ghost predicate Configured(p: Port, words: seq<Word>) {
    && p.commandPointer == 0 && p.responsePointer == 0
    && (|words| >= 1 ==>
          && p.step1Value == words[0]
          && p.responseLength == Pow2((words[0] / 0x100) % 8)
          && p.commandLength == Pow2((words[0] / 0x800) % 8)
          && p.vector == 4 * (words[0] % 0x80)
          && (p.interruptEnable <==> Bit(words[0], 7)))
    && (|words| >= 2 ==> (p.purge <==> words[1] % 2 == 1))
    && (|words| == 2 ==> p.ringBase == words[1] - words[1] % 2)
    && (|words| == 3 ==> p.ringBase == JoinedBase(words[1], words[2]))
  }

  function JoinedBase(low: int, high: int): int {
    low - low % 2 + 0x1_0000 * (high % 0x8000)
  }

  /** The step, what the host has written and what SA shows go together. */
  ghost predicate Control(h: Handshake) {
    var p, n := h.port, |h.words|;
    && n == Written(p.step)
    && (p.step == Uninitialized || (p.step == Step1 && p.nextStep) ==> p.sa == 0)
    && (p.step == Uninitialized ==> p.nextStep)
    && (p.step == Complete ==> p.sa == 0)
    && (p.step.Step1? && !p.nextStep ==> TopBit(p.sa, 0))
    && (p.step.Step2? || p.step.Step3? || p.step.Step4? ==>
          TopBit(p.sa, if p.nextStep then n - 1 else n))
  }

  ghost predicate Area(h: Handshake) {
    var p := h.port;
    p.memory == if p.step == Complete || (p.step == Step4 && !p.nextStep)
                then Cleared(p, h.before) else h.before
  }

  ghost predicate Inv(h: Handshake) {
    Control(h) && Area(h) && (h.port.step != Uninitialized ==> Configured(h.port, h.words))
  }

  function Written(step: InitStep): nat {
    match step
    case Uninitialized => 0
    case Step1 => 0
    case Step2 => 1
    case Step3 => 2
    case Step4 => 3
    case Complete => 3
  }

  /** The n-th step bit is the highest bit of SA. */
  ghost predicate TopBit(sa: Word, n: nat) {
    StepBit(n) <= sa < 2 * StepBit(n)
  }

  lemma TopBitShows(sa: Word, n: nat, k: nat)
    requires TopBit(sa, n) && n <= k <= 3
    ensures Shows(sa, StepBit(k)) <==> k == n
  {
  }

  lemma RingBaseJoin(low: Word, high: Word)
    ensures Or(low - low % 2, (high % 0x8000) * 0x1_0000) == JoinedBase(low, high)
  {
    Pow2Values();
    OrDisjoint(high % 0x8000, low - low % 2, 16, 0x1_0000);
  }

  /** The host's guard: it writes only when the port waits for that word. */
  lemma WriteIsAwaited(h: Handshake, v: Word)
    requires Control(h) && Enabled(h, HostWrites(v))
    ensures h.port.step in {Step1, Step2, Step3, Step4} && !h.port.nextStep
  {
    var p, n := h.port, |h.words|;
    if p.nextStep && n > 0 && p.step != Complete {
      TopBitShows(p.sa, n - 1, n);
    }
  }

  lemma StepKeepsControl(h: Handshake, e: Event)
    requires Control(h) && Enabled(h, e)
    ensures Control(Step(h, e))
  {
    if e.HostWrites? {
      WriteIsAwaited(h, e.value);
    }
  }

  lemma StepKeepsConfiguration(h: Handshake, e: Event)
    requires Control(h) && Enabled(h, e)
    requires h.port.step != Uninitialized ==> Configured(h.port, h.words)
    ensures Step(h, e).port.step != Uninitialized ==> Configured(Step(h, e).port, Step(h, e).words)
  {
    if e.HostWrites? {
      WriteIsAwaited(h, e.value);
      if h.port.step == Step3 {
        RingBaseJoin(h.words[1], e.value);
      }
    }
  }

  lemma StepKeepsArea(h: Handshake, e: Event)
    requires Control(h) && Area(h) && Enabled(h, e)
    ensures Area(Step(h, e))
  {
    if e.HostWrites? {
      WriteIsAwaited(h, e.value);
    }
  }

  lemma StepKeepsInv(h: Handshake, e: Event)
    requires Inv(h) && Enabled(h, e)
    ensures Inv(Step(h, e))
  {
    StepKeepsControl(h, e);
    StepKeepsArea(h, e);
    StepKeepsConfiguration(h, e);
  }

  lemma {:induction false} ReachableInv(h: Handshake, es: seq<Event>)
    requires Inv(h) && Possible(h, es)
    ensures Inv(After(h, es)) && After(h, es).before == h.before
    decreases |es|
  {
    if es != [] {
      StepKeepsInv(h, es[0]);
      ReachableInv(Step(h, es[0]), es[1..]);
    }
  }

  /** Whatever the interleaving, an initialization that completes has set the port
      up as the host's words say, and has written the communications area and
      nothing else. */
  lemma HandshakeCompletes(h: Handshake, es: seq<Event>)
    requires Start(h) && Possible(h, es)
    ensures var h' := After(h, es);
            h'.port.step == Complete ==>
              && |h'.words| == 3 && Configured(h'.port, h'.words) && h'.port.sa == 0
              && h'.port.memory == Cleared(h'.port, h.port.memory)
  {
    ReachableInv(h, es);
  }

  /** A host that sets GO when the port waits for it. */
  ghost predicate Earnest(h: Handshake, es: seq<Event>)
    requires Possible(h, es)
    decreases |es|
  {
    es != [] ==>
      && (h.port.step == Step4 && es[0].HostWrites? ==> es[0].value % 2 == 1)
      && Earnest(Step(h, es[0]), es[1..])
  }

  /** Events to come: one of the worker for every step, one of the host for every word. */
  function EventsLeft(p: Port): nat {
    (match p.step
     case Uninitialized => 9
     case Step1 => 8
     case Step2 => 6
     case Step3 => 4
     case Step4 => 2
     case Complete => 0)
    + if p.nextStep then 1 else 0
  }

  lemma EventPasses(h: Handshake, e: Event)
    requires Control(h) && Enabled(h, e)
    requires h.port.step == Step4 && e.HostWrites? ==> e.value % 2 == 1
    ensures EventsLeft(Step(h, e).port) == EventsLeft(h.port) - 1
  {
    if e.HostWrites? {
      WriteIsAwaited(h, e.value);
    }
  }

  lemma {:induction false} EventsPass(h: Handshake, es: seq<Event>)
    requires Control(h) && Possible(h, es) && Earnest(h, es)
    ensures Control(After(h, es)) && EventsLeft(After(h, es).port) == EventsLeft(h.port) - |es|
    decreases |es|
  {
    if es != [] {
      StepKeepsControl(h, es[0]);
      EventPasses(h, es[0]);
      EventsPass(Step(h, es[0]), es[1..]);
    }
  }

  /** With such a host every initialization completes, with its ninth event, and is never
      stuck before: either the worker has a step to do or the host may write. */
  lemma HandshakeEnds(h: Handshake, es: seq<Event>, value: Word)
    requires Start(h) && Possible(h, es) && Earnest(h, es)
    ensures var h' := After(h, es);
            && |es| <= 10 && (h'.port.step == Complete <==> |es| >= 9)
            && (|es| < 10 ==> Enabled(h', Worker) || Enabled(h', HostWrites(value)))
  {
    EventsPass(h, es);
    var h' := After(h, es);
    if !h'.port.nextStep && h'.port.step != Complete {
      TopBitShows(h'.port.sa, |h'.words|, |h'.words|);
    }
  }

  /** A host that does not set GO. */
  ghost predicate WithoutGo(h: Handshake, es: seq<Event>)
    requires Possible(h, es)
    decreases |es|
  {
    es != [] ==>
      && (h.port.step == Step4 && es[0].HostWrites? ==> es[0].value % 2 == 0)
      && WithoutGo(Step(h, es[0]), es[1..])
  }

  /** The port waits for GO. */
  lemma {:induction false} HandshakeWaits(h: Handshake, es: seq<Event>)
    requires h.port.step != Complete && Possible(h, es) && WithoutGo(h, es)
    ensures After(h, es).port.step != Complete
    decreases |es|
  {
    if es != [] {
      HandshakeWaits(Step(h, es[0]), es[1..]);
    }
  }

  /** What the host reads in SA once the worker has done the step: the step bit, with the
      22-bit flag, the upper and the lower half of the host's first word, or the model. */
  ghost predicate Announced(h: Handshake) {
    var p := h.port;
    !p.nextStep ==>
      match p.step
      case Uninitialized => false
      case Step1 => p.sa == Or(0x0800, if p.wide then 0x0200 else 0)
      case Step2 => |h.words| == 1 && p.sa == Or(0x1000, h.words[0] / 0x100)
      case Step3 => |h.words| == 2 && p.sa == Or(0x2000, h.words[0] % 0x100)
      case Step4 => |h.words| == 3 && p.sa == Or(0x4000, if p.rqdx3 then 0x0133 else 0x0063)
      case Complete => p.sa == 0
  }

  lemma StepBitJoins(x: int)
    requires 0 <= x < 0x800
    ensures Or(0x0800, x) == 0x0800 + x && Or(0x1000, x) == 0x1000 + x
    ensures Or(0x2000, x) == 0x2000 + x && Or(0x4000, x) == 0x4000 + x
  {
    Pow2Values();
    assert Pow2(11) == 0x800 by { Pow2Add(8, 3); }
    OrDisjoint(1, x, 11, 0x800);
    OrDisjoint(2, x, 11, 0x800);
    OrDisjoint(4, x, 11, 0x800);
    OrDisjoint(8, x, 11, 0x800);
  }

  lemma WorkAnnounces(h: Handshake)
    requires |h.words| == Written(h.port.step) && h.port.nextStep
    requires h.words != [] ==> h.port.step1Value == h.words[0]
    requires h.port.step == Complete ==> h.port.sa == 0
    ensures Announced(h.(port := Work(h.port)))
  {
    hide Cleared, Or;
    StepBitJoins(if h.port.wide then 0x0200 else 0);
    StepBitJoins(if h.port.rqdx3 then 0x0133 else 0x0063);
    if h.words != [] {
      StepBitJoins(h.words[0] / 0x100);
      StepBitJoins(h.words[0] % 0x100);
    }
  }

  lemma StepKeepsAnnounced(h: Handshake, e: Event)
    requires Inv(h) && Announced(h) && Enabled(h, e)
    ensures Announced(Step(h, e))
  {
    hide JoinedBase, Area, Work, Or;
    if e.HostWrites? {
      WriteIsAwaited(h, e.value);
    } else {
      hide Announced;
      WorkAnnounces(h);
    }
  }

  /** The host finds its first word echoed, half in step 2 and half in step 3. */
  lemma {:induction false} StepsAnnounced(h: Handshake, es: seq<Event>)
    requires Inv(h) && Announced(h) && Possible(h, es)
    ensures Announced(After(h, es))
    decreases |es|
  {
    hide Inv, Announced;
    if es != [] {
      StepKeepsInv(h, es[0]);
      StepKeepsAnnounced(h, es[0]);
      StepsAnnounced(Step(h, es[0]), es[1..]);
    }
  }

  lemma HandshakeAnnounced(h: Handshake, es: seq<Event>)
    requires Start(h) && Possible(h, es)
    ensures Announced(After(h, es))
  {
    StepsAnnounced(h, es);
  }

  /** A descriptor: an 18-bit envelope address, Flag and Ownership. */
  datatype Descriptor = Descriptor(envelope: int, flag: bool, own: bool)

  function Decode(w0: Word, w1: Word): Descriptor {
    Descriptor(w0 + (w1 % 4) * 0x1_0000, Bit(w1, 14), Bit(w1, 15))
  }

  /** The descriptor at an address, if its two words exist. */
  predicate HasDescriptor(m: Memory, a: int) { a in m && a + 2 in m }

  function DescriptorAt(m: Memory, a: int): Descriptor
    requires HasDescriptor(m, a)
  {
    Decode(m[a], m[a + 2])
  }

  /** Word 1 of a descriptor handed back to the host: Ownership clear, Flag set. */
  function HandedBack(w1: Word): Word {
    w1 % 0x4000 + 0x4000
  }

  lemma HandedBackMeaning(w0: Word, w1: Word)
    ensures Decode(w0, HandedBack(w1)) == Decode(w0, w1).(flag := true, own := false)
  {
    var w2 := HandedBack(w1);
    assert w2 < 0x8000 && w2 >= 0x4000 && w2 % 4 == w1 % 4;
    DescriptorBits(w2);
  }

  lemma DescriptorBits(w1: Word)
    ensures Bit(w1, 15) <==> w1 >= 0x8000
    ensures Bit(w1, 14) <==> w1 % 0x8000 >= 0x4000
  {
    Pow2Values();
    assert Pow2(15) == 2 * Pow2(14);
  }

  // ---- layout of the communications area ----------------------------------

  /** Header, response and command descriptors tile the area: a word at or above
      the ring base lies in exactly the descriptor its address says. */
  lemma DescriptorsTile(p: Port, a: int)
    requires (a - p.ringBase) % 2 == 0
    requires p.ringBase <= a < p.ringBase + 4 * (p.responseLength + p.commandLength)
    ensures var k := (a - p.ringBase) / 4;
            if k < p.responseLength then a - ResponseAddress(p, k) in {0, 2}
            else k - p.responseLength < p.commandLength && a - CommandAddress(p, k - p.responseLength) in {0, 2}
  {
  }

  lemma DescriptorsApart(p: Port, i: nat, j: nat)
    ensures i != j ==> Abs(ResponseAddress(p, i) - ResponseAddress(p, j)) >= 4
    ensures i != j ==> Abs(CommandAddress(p, i) - CommandAddress(p, j)) >= 4
    ensures i < p.responseLength ==> ResponseAddress(p, i) + 4 <= CommandAddress(p, j)
  {
  }

  lemma ResponseCleared(p: Port, m: Memory, i: nat)
    requires i < p.responseLength && HasDescriptor(m, ResponseAddress(p, i))
    ensures HasDescriptor(Cleared(p, m), ResponseAddress(p, i))
    ensures DescriptorAt(Cleared(p, m), ResponseAddress(p, i)) == Descriptor(0, false, true)
  {
    OwnedAt(ZeroedWords(m, p.ringBase - HeaderSize(p), AreaWords(HeaderSize(p), p.responseLength, p.commandLength)),
            p.ringBase, p.responseLength, i);
    BlankDescriptors();
  }

  lemma CommandCleared(p: Port, m: Memory, j: nat)
    requires j < p.commandLength && HasDescriptor(m, CommandAddress(p, j))
    ensures HasDescriptor(Cleared(p, m), CommandAddress(p, j))
    ensures DescriptorAt(Cleared(p, m), CommandAddress(p, j)) == Descriptor(0, false, false)
  {
    var a := CommandAddress(p, j);
    var k := p.responseLength + j;
    ClearedZero(m, p.ringBase, HeaderSize(p), p.responseLength, p.commandLength, 2 * k);
    ClearedZero(m, p.ringBase, HeaderSize(p), p.responseLength, p.commandLength, 2 * k + 1);
    BlankDescriptors();
  }

  lemma BlankDescriptors()
    ensures Decode(0, 0) == Descriptor(0, false, false)
    ensures Decode(0, 0x8000) == Descriptor(0, false, true)
  {
    DescriptorBits(0);
    DescriptorBits(0x8000);
  }

  /** Every word of the area outside the response ring is zero. */
  lemma ClearedZero(m: Memory, base: int, header: int, r: nat, c: nat, i: int)
    requires base + 2 * i in m && header >= 0 && header % 2 == 0
    requires -header <= 2 * i < 0 || 4 * r <= 2 * i < 4 * (r + c)
    ensures ClearedArea(m, base, header, r, c)[base + 2 * i] == 0
  {
    var lo, n := base - header, AreaWords(header, r, c);
    ZeroedAt(m, lo, n, i + header / 2);
    assert lo + 2 * (i + header / 2) == base + 2 * i;
  }

  lemma {:induction false} ZeroedAt(m: Memory, lo: int, n: nat, k: nat)
    requires k < n && lo + 2 * k in m
    ensures ZeroedWords(m, lo, n)[lo + 2 * k] == 0
  {
    if k < n - 1 {
      ZeroedAt(m, lo, n - 1, k);
    }
  }

  lemma {:induction false} OwnedAt(m: Memory, base: int, n: nat, k: nat)
    requires k < n && HasDescriptor(m, SlotAddress(base, k))
    ensures OwnedSlots(m, base, n)[SlotAddress(base, k)] == 0
    ensures OwnedSlots(m, base, n)[SlotAddress(base, k) + 2] == 0x8000
  {
    if k < n - 1 {
      OwnedAt(m, base, n - 1, k);
    }
  }

  /** After step 4 the port owns every response descriptor and the host every
      command descriptor, the header is zero and nothing else was touched. */
  lemma ClearedLayout(p: Port, m: Memory)
    ensures Cleared(p, m).Keys == m.Keys
    ensures forall i: nat {:trigger ResponseAddress(p, i)} ::
              i < p.responseLength && HasDescriptor(m, ResponseAddress(p, i)) ==>
                DescriptorAt(Cleared(p, m), ResponseAddress(p, i)) == Descriptor(0, false, true)
    ensures forall j: nat {:trigger CommandAddress(p, j)} ::
              j < p.commandLength && HasDescriptor(m, CommandAddress(p, j)) ==>
                DescriptorAt(Cleared(p, m), CommandAddress(p, j)) == Descriptor(0, false, false)
    ensures forall a | a in m :: HeaderWord(p, a) ==> Cleared(p, m)[a] == 0
    ensures forall a | a in m :: OutsideArea(p, a) ==> Cleared(p, m)[a] == m[a]
  {
    forall i: nat | i < p.responseLength && HasDescriptor(m, ResponseAddress(p, i))
      ensures HasDescriptor(Cleared(p, m), ResponseAddress(p, i))
      ensures DescriptorAt(Cleared(p, m), ResponseAddress(p, i)) == Descriptor(0, false, true)
    {
      ResponseCleared(p, m, i);
    }
    forall j: nat | j < p.commandLength && HasDescriptor(m, CommandAddress(p, j))
      ensures HasDescriptor(Cleared(p, m), CommandAddress(p, j))
      ensures DescriptorAt(Cleared(p, m), CommandAddress(p, j)) == Descriptor(0, false, false)
    {
      CommandCleared(p, m, j);
    }
    forall a | a in m && HeaderWord(p, a) ensures Cleared(p, m)[a] == 0 {
      ClearedZero(m, p.ringBase, HeaderSize(p), p.responseLength, p.commandLength, (a - p.ringBase) / 2);
    }
  }

  ghost predicate HeaderWord(p: Port, a: int) {
    (a - p.ringBase) % 2 == 0 && p.ringBase - HeaderSize(p) <= a < p.ringBase
  }

  ghost predicate OutsideArea(p: Port, a: int) {
    a < p.ringBase - HeaderSize(p) || p.ringBase + 4 * (p.responseLength + p.commandLength) <= a
  }

  // ---- the rings ----------------------------------------------------------

  ghost predicate RingsExist(p: Port) {
    forall i: nat {:trigger SlotAddress(p.ringBase, i)} ::
      i < p.responseLength + p.commandLength ==> HasDescriptor(p.memory, SlotAddress(p.ringBase, i))
  }

  /** Both rings, the response ring first: the descriptors in address order. */
  ghost function Rings(p: Port): (ring: seq<Descriptor>)
    requires RingsExist(p)
    ensures |ring| == p.responseLength + p.commandLength
    ensures forall i: nat | i < |ring| :: ring[i] == DescriptorAt(p.memory, SlotAddress(p.ringBase, i))
  {
    seq(p.responseLength + p.commandLength,
        i requires 0 <= i < p.responseLength + p.commandLength => DescriptorAt(p.memory, SlotAddress(p.ringBase, i)))
  }

  /** `(pointer - 1) % length` on 32-bit unsigned integers. */
  function Previous(pointer: nat, length: nat): (i: nat)
    requires length > 0
    ensures i < length
  {
    ((pointer - 1) % 0x1_0000_0000) % length
  }

  datatype Option<T> = None | Some(value: T)

  /** DMARead of n words. */
  function ReadWords(m: Memory, a: int, n: nat): (r: Option<seq<Word>>)
    ensures r.Some? ==> |r.value| == n
    decreases n
  {
    if n == 0 then Some([])
    else if a !in m then None
    else
      var rest := ReadWords(m, a + 2, n - 1);
      if rest.None? then None else Some([m[a]] + rest.value)
  }

  /** DMAWrite, which stops at the first word that does not exist. */
  function WriteWords(m: Memory, a: int, ws: seq<Word>): (m': Memory)
    ensures m'.Keys == m.Keys
    ensures forall b | b in m && !(a <= b < a + 2 * |ws|) :: m'[b] == m[b]
    decreases |ws|
  {
    if ws == [] || a !in m then m else WriteWords(m[a := ws[0]], a + 2, ws[1..])
  }

  lemma {:induction false} ReadOnlyDepends(m: Memory, m': Memory, a: int, n: nat)
    requires m.Keys == m'.Keys
    requires forall b | b in m && a <= b < a + 2 * n :: m'[b] == m[b]
    ensures ReadWords(m, a, n) == ReadWords(m', a, n)
    decreases n
  {
    if n > 0 && a in m {
      ReadOnlyDepends(m, m', a + 2, n - 1);
    }
  }

  /** Words written to memory that exists are read back. */
  lemma {:induction false} ReadBack(m: Memory, a: int, ws: seq<Word>)
    requires ReadWords(m, a, |ws|).Some?
    ensures ReadWords(WriteWords(m, a, ws), a, |ws|) == Some(ws)
    decreases |ws|
  {
    if ws != [] {
      var m1: Memory := m[a := ws[0]];
      ReadOnlyDepends(m, m1, a + 2, |ws| - 1);
      ReadBack(m1, a + 2, ws[1..]);
      assert WriteWords(m, a, ws)[a] == ws[0];
      assert ws == [ws[0]] + ws[1..];
    }
  }

  /** The port takes the command at its pointer off the ring. */
  ghost function Taken(p: Port, interrupt: bool): Port
    requires p.commandPointer < p.commandLength && HasDescriptor(p.memory, CommandAddress(p, p.commandPointer))
  {
    var d := CommandAddress(p, p.commandPointer);
    var m := p.memory[d + 2 := HandedBack(p.memory[d + 2])];
    p.(memory := if interrupt then WriteWords(m, p.ringBase - 4, [1]) else m,
       commandPointer := (p.commandPointer + 1) % p.commandLength)
  }

  /** Memory after a response: the message in the buffer, the descriptor at d
      handed back, and the header word that tells of a transition. */
  ghost function PostedMemory(m: Memory, d: int, buffer: int, base: int, text: seq<Word>, interrupt: bool): Memory
    requires HasDescriptor(m, d)
  {
    var written := WriteWords(m, buffer, text);
    var handed: Memory := written[d := m[d]][d + 2 := HandedBack(m[d + 2])];
    if interrupt then WriteWords(handed, base - 2, [1]) else handed
  }

  /** The port hands a response to the host. */
  ghost function Posted(p: Port, text: seq<Word>, interrupt: bool): Port
    requires p.responsePointer < p.responseLength && HasDescriptor(p.memory, ResponseAddress(p, p.responsePointer))
  {
    var d := ResponseAddress(p, p.responsePointer);
    p.(memory := PostedMemory(p.memory, d, DescriptorAt(p.memory, d).envelope - 4, p.ringBase, text, interrupt),
       responsePointer := (p.responsePointer + 1) % p.responseLength)
  }

  /** Taking a command changes its own descriptor in the rings and, beside the
      header word that tells of a transition, nothing else in memory. */
  lemma TakenMeaning(p: Port, interrupt: bool)
    requires RingsExist(p) && p.commandPointer < p.commandLength
    ensures HasDescriptor(p.memory, CommandAddress(p, p.commandPointer))
    ensures var p', k := Taken(p, interrupt), p.responseLength + p.commandPointer;
      && RingsExist(p')
      && Rings(p') == Rings(p)[k := Rings(p)[k].(flag := true, own := false)]
      && (forall a | a in p.memory ::
            a != CommandAddress(p, p.commandPointer) + 2 && !(interrupt && p.ringBase - 4 <= a < p.ringBase - 2) ==>
              p'.memory[a] == p.memory[a])
  {
    hide Decode, HandedBack, Rings, WriteWords, DescriptorAt;
    var k := p.responseLength + p.commandPointer;
    assert HasDescriptor(p.memory, ResponseAddress(p, k));
    RingUpdated(p, Taken(p, interrupt), k);
  }

  lemma RingUpdated(p: Port, p': Port, k: nat)
    requires RingsExist(p) && k < p.responseLength + p.commandLength
    requires p' == p.(memory := p'.memory, commandPointer := p'.commandPointer, responsePointer := p'.responsePointer)
    requires p'.memory.Keys == p.memory.Keys
    requires var d := ResponseAddress(p, k);
             && p'.memory[d] == p.memory[d]
             && p'.memory[d + 2] == HandedBack(p.memory[d + 2])
    requires forall a | a in p.memory && p.ringBase <= a < p.ringBase + 4 * (p.responseLength + p.commandLength) ::
               a != ResponseAddress(p, k) + 2 ==> p'.memory[a] == p.memory[a]
    ensures RingsExist(p')
    ensures Rings(p') == Rings(p)[k := Rings(p)[k].(flag := true, own := false)]
  {
    var d := ResponseAddress(p, k);
    HandedBackMeaning(p.memory[d], p.memory[d + 2]);
  }

  /** The response buffer does not reach into the communications area. */
  ghost predicate BufferApart(p: Port, a: int, n: nat) {
    a + 2 * n <= p.ringBase - 8 || p.ringBase + 4 * (p.responseLength + p.commandLength) <= a
  }

  /** Posting a response changes its own descriptor in the rings ... */
  lemma PostedMeaning(p: Port, text: seq<Word>, interrupt: bool)
    requires RingsExist(p) && p.responsePointer < p.responseLength
    requires BufferApart(p, Rings(p)[p.responsePointer].envelope - 4, |text|)
    ensures var p', k := Posted(p, text, interrupt), p.responsePointer;
      RingsExist(p') && Rings(p') == Rings(p)[k := Rings(p)[k].(flag := true, own := false)]
  {
    hide Decode, HandedBack, Rings;
    assert HasDescriptor(p.memory, ResponseAddress(p, p.responsePointer));
    RingUpdated(p, Posted(p, text, interrupt), p.responsePointer);
  }

  /** With an interrupt the port marks the transition in the header, two words before
      the rings for a command ... */
  lemma TakenMarks(p: Port)
    requires RingsExist(p) && p.commandPointer < p.commandLength
    ensures HasDescriptor(p.memory, CommandAddress(p, p.commandPointer))
    ensures p.ringBase - 4 in p.memory ==> Taken(p, true).memory[p.ringBase - 4] == 1
    ensures Taken(p, false).commandPointer
            == if p.commandPointer == p.commandLength - 1 then 0 else p.commandPointer + 1
  {
    hide WriteWords, HandedBack, Decode;
    assert HasDescriptor(p.memory, SlotAddress(p.ringBase, p.responseLength + p.commandPointer));
    hide RingsExist;
    TakenPointer(p);
    var d := CommandAddress(p, p.commandPointer);
    MarkWritten(p.memory[d + 2 := HandedBack(p.memory[d + 2])], p.ringBase - 4);
  }

  /** ... and one for a response. */
  lemma PostedMarks(p: Port, text: seq<Word>, interrupt: bool)
    requires RingsExist(p) && p.responsePointer < p.responseLength
    ensures HasDescriptor(p.memory, ResponseAddress(p, p.responsePointer))
    ensures interrupt && p.ringBase - 2 in p.memory ==> Posted(p, text, interrupt).memory[p.ringBase - 2] == 1
    ensures Posted(p, text, interrupt).responsePointer
            == if p.responsePointer == p.responseLength - 1 then 0 else p.responsePointer + 1
  {
    hide PostedMemory, DescriptorAt;
    assert HasDescriptor(p.memory, SlotAddress(p.ringBase, p.responsePointer));
    var d := ResponseAddress(p, p.responsePointer);
    MemoryMarked(p.memory, d, DescriptorAt(p.memory, d).envelope - 4, p.ringBase, text);
  }

  lemma MemoryMarked(m: Memory, d: int, buffer: int, base: int, text: seq<Word>)
    requires HasDescriptor(m, d)
    ensures PostedMemory(m, d, buffer, base, text, true).Keys == m.Keys
    ensures base - 2 in m ==> PostedMemory(m, d, buffer, base, text, true)[base - 2] == 1
  {
    hide HandedBack;
    var handed: Memory := WriteWords(m, buffer, text)[d := m[d]][d + 2 := HandedBack(m[d + 2])];
    MarkWritten(handed, base - 2);
    hide WriteWords;
  }

  lemma TakenPointer(p: Port)
    requires p.commandPointer < p.commandLength && HasDescriptor(p.memory, CommandAddress(p, p.commandPointer))
    ensures Taken(p, false).commandPointer
            == if p.commandPointer == p.commandLength - 1 then 0 else p.commandPointer + 1
  {
    hide HandedBack;
  }

  lemma MarkWritten(m: Memory, a: int)
    ensures a in m ==> WriteWords(m, a, [1])[a] == 1
    ensures WriteWords(m, a, [1]) == if a in m then m[a := 1] else m
  {
    if a in m {
      assert [1][1..] == [];
      assert WriteWords(m, a, [1]) == WriteWords(m[a := 1], a + 2, [1][1..]);
    }
  }

  /** ... and the host finds the response in the buffer it provided. */
  lemma PostedText(m: Memory, d: int, buffer: int, base: int, text: seq<Word>, interrupt: bool)
    requires HasDescriptor(m, d)
    requires buffer + 2 * |text| <= d || d + 4 <= buffer
    requires buffer + 2 * |text| <= base - 2 || base <= buffer
    requires ReadWords(m, buffer, |text|).Some?
    ensures ReadWords(PostedMemory(m, d, buffer, base, text, interrupt), buffer, |text|) == Some(text)
  {
    BufferKept(m, d, buffer, base, text, interrupt);
    ReadOnlyDepends(WriteWords(m, buffer, text), PostedMemory(m, d, buffer, base, text, interrupt),
                    buffer, |text|);
    ReadBack(m, buffer, text);
  }

  lemma BufferKept(m: Memory, d: int, buffer: int, base: int, text: seq<Word>, interrupt: bool)
    requires HasDescriptor(m, d)
    requires buffer + 2 * |text| <= d || d + 4 <= buffer
    requires buffer + 2 * |text| <= base - 2 || base <= buffer
    ensures var m' := PostedMemory(m, d, buffer, base, text, interrupt);
            && m'.Keys == m.Keys
            && forall b | b in m && buffer <= b < buffer + 2 * |text| ::
                 m'[b] == WriteWords(m, buffer, text)[b]
  {
  }

  /** A flagged response interrupts if the port owns the slot before its own. */
  ghost predicate InterruptsFor(p: Port, text: seq<Word>)
    requires p.responsePointer < p.responseLength && RingsExist(p)
  {
    var d := DescriptorAt(p.memory, ResponseAddress(p, p.responsePointer));
    d.flag && PreviousOwned(p.(memory := WriteWords(p.memory, d.envelope - 4, text)))
  }

  ghost predicate PreviousOwned(p: Port)
    requires p.responsePointer < p.responseLength && RingsExist(p)
  {
    p.responseLength == 1
    || DescriptorAt(p.memory, ResponseAddress(p, Previous(p.responsePointer, p.responseLength))).own
  }

  /** PORT_ERROR | error */
  function ErrorValue(error: Word): Word { PORT_ERROR + error % PORT_ERROR }

  /** What GetNextCommand decides from what it reads. */
  datatype Decision =
    | Nothing                                     // the port does not own the next descriptor
    | Command(text: seq<Word>, interrupt: bool)   // the message from its length word on
    | Fault(error: Word)                          // a bus timeout or an invalid length
    | OddLength                                   // fails the assertion in DMARead

  ghost function NextCommand(p: Port): Decision
    requires p.commandPointer < p.commandLength
  {
    var d := CommandAddress(p, p.commandPointer);
    var q := CommandAddress(p, Previous(p.commandPointer, p.commandLength));
    if !HasDescriptor(p.memory, d) then Fault(PORT_ERROR_PACKET_READ)
    else
      var descriptor := DescriptorAt(p.memory, d);
      var a := descriptor.envelope - 4;
      if !descriptor.own then Nothing
      else if a !in p.memory || p.memory[a] == 0 || p.memory[a] >= MAX_MESSAGE_LENGTH then Fault(PORT_ERROR_RING_READ)
      else if p.memory[a] % 2 == 1 then OddLength
      else
        match ReadWords(p.memory, a, p.memory[a] / 2 + 2)
        case None => Fault(PORT_ERROR_RING_READ)
        case Some(text) =>
          if descriptor.flag && p.commandLength > 1 && !HasDescriptor(p.memory, q) then Fault(PORT_ERROR_RING_READ)
          else Command(text, descriptor.flag && (p.commandLength == 1 || DescriptorAt(p.memory, q).own))
  }

  lemma RingsStay(p: Port, m: Memory)
    requires RingsExist(p) && m.Keys == p.memory.Keys
    ensures RingsExist(p.(memory := m))
  {
  }

  // ---- what the port finds ------------------------------------------------

  /** A message from its length word on; four bytes of header are not in the length. */
  predicate IsMessage(ws: seq<Word>) {
    |ws| > 0 && 0 < ws[0] < MAX_MESSAGE_LENGTH && ws[0] % 2 == 0 && 2 * |ws| == ws[0] + 4
  }

  /** GetNextCommand gives the message that lies in memory from four bytes before the
      envelope of the next command descriptor on, if the port owns that and it is one. */
  lemma CommandFound(p: Port, ws: seq<Word>)
    requires RingsExist(p) && p.commandPointer < p.commandLength && IsMessage(ws)
    requires var d := Rings(p)[p.responseLength + p.commandPointer];
             d.own && ReadWords(p.memory, d.envelope - 4, |ws|) == Some(ws)
    ensures var d, n := Rings(p)[p.responseLength + p.commandPointer], p.commandLength;
            var previous := Rings(p)[p.responseLength + Previous(p.commandPointer, n)];
            NextCommand(p) == Command(ws, d.flag && (n == 1 || previous.own))
  {
    hide Decode, Previous, HasDescriptor, DescriptorAt, ReadWords;
    var k, q := p.responseLength + p.commandPointer, p.responseLength + Previous(p.commandPointer, p.commandLength);
    assert HasDescriptor(p.memory, SlotAddress(p.ringBase, k)) && HasDescriptor(p.memory, SlotAddress(p.ringBase, q));
    var d := Rings(p)[k];
    assert d == DescriptorAt(p.memory, CommandAddress(p, p.commandPointer));
    FirstWordRead(p.memory, d.envelope - 4, ws);
    assert |ws| == p.memory[d.envelope - 4] / 2 + 2;
    hide RingsExist, Rings;
  }

  lemma FirstWordRead(m: Memory, a: int, ws: seq<Word>)
    requires ws != [] && ReadWords(m, a, |ws|) == Some(ws)
    ensures a in m && m[a] == ws[0]
  {
  }

  /** Otherwise it finds nothing if the port does not own the descriptor, and no
      message if none lies there. */
  lemma NoCommandFound(p: Port)
    requires RingsExist(p) && p.commandPointer < p.commandLength
    ensures var d := Rings(p)[p.responseLength + p.commandPointer];
            && (NextCommand(p).Nothing? <==> !d.own)
            && (NextCommand(p).Command? ==>
                  var ws := NextCommand(p).text;
                  IsMessage(ws) && ReadWords(p.memory, d.envelope - 4, |ws|) == Some(ws))
  {
    hide Decode, Previous, HasDescriptor, DescriptorAt;
    var k, q := p.responseLength + p.commandPointer, p.responseLength + Previous(p.commandPointer, p.commandLength);
    assert HasDescriptor(p.memory, SlotAddress(p.ringBase, k)) && HasDescriptor(p.memory, SlotAddress(p.ringBase, q));
    if NextCommand(p).Command? {
      FirstWordRead(p.memory, Rings(p)[k].envelope - 4, NextCommand(p).text);
    }
    hide ReadWords;
  }

  /** A descriptor or message that cannot be read, or a length out of range, is a port
      error of its own kind; an odd length is none. */
  lemma FaultsFound(p: Port)
    requires RingsExist(p) && p.commandPointer < p.commandLength
    requires Rings(p)[p.responseLength + p.commandPointer].own
    ensures var a, m := Rings(p)[p.responseLength + p.commandPointer].envelope - 4, p.memory;
            && (a !in m || m[a] == 0 || m[a] >= 0x1000 ==> NextCommand(p) == Fault(6))
            && (a in m && m[a] % 2 == 1 && m[a] < 0x1000 ==> NextCommand(p) == OddLength)
            && (a in m && 0 < m[a] < 0x1000 && m[a] % 2 == 0 && ReadWords(m, a, m[a] / 2 + 2) == None ==>
                  NextCommand(p) == Fault(6))
  {
    hide Decode, Previous, HasDescriptor, DescriptorAt, ReadWords;
    assert HasDescriptor(p.memory, SlotAddress(p.ringBase, p.responseLength + p.commandPointer));
  }

  lemma MissingDescriptorFound(p: Port)
    requires p.commandPointer < p.commandLength
    requires var d := p.ringBase + 4 * (p.responseLength + p.commandPointer); d !in p.memory || d + 2 !in p.memory
    ensures NextCommand(p) == Fault(1)
  {
  }

  /** SA shows a port error by its top bit. */
  lemma ErrorShown(error: Word)
    requires error < 0x8000
    ensures ErrorValue(error) == Or(0x8000, error)
  {
    hide Or;
    Pow2Values();
    OrDisjoint(1, error, 15, 0x8000);
  }

  /** Word 1 of a descriptor the host gives to the port. */
  function HandedOver(w1: Word, flag: bool): Word { w1 % 0x4000 + (if flag then 0xc000 else 0x8000) }

  lemma HandedOverMeaning(w0: Word, w1: Word, flag: bool)
    ensures Decode(w0, HandedOver(w1, flag)) == Decode(w0, w1).(flag := flag, own := true)
  {
    var w2 := HandedOver(w1, flag);
    HandedOverBits(w1, flag);
    DescriptorBits(w2);
    hide HandedOver, Bit;
  }

  lemma HandedOverBits(w1: Word, flag: bool)
    ensures var w2 := HandedOver(w1, flag);
            w2 >= 0x8000 && w2 % 4 == w1 % 4 && (w2 % 0x8000 >= 0x4000 <==> flag)
  {
  }

  /** The envelope address in a descriptor: word 0 and the two low bits of word 1. */
  function EnvelopeAt(m: Memory, d: int): int
    requires HasDescriptor(m, d)
  {
    Address18(m[d], m[d + 2])
  }

  function Address18(low: Word, high: Word): int { low + 0x1_0000 * (high % 4) }

  /** Memory after the host has queued a command: it writes the message from four bytes
      before the envelope of the next descriptor on, then sets Ownership, and Flag if it
      wants an interrupt. */
  ghost function Queued(m: Memory, d: int, ws: seq<Word>, flag: bool): Memory
    requires HasDescriptor(m, d)
  {
    WriteWords(m, EnvelopeAt(m, d) - 4, ws)[d + 2 := HandedOver(m[d + 2], flag)]
  }

  lemma QueuedText(m: Memory, d: int, ws: seq<Word>, flag: bool)
    requires HasDescriptor(m, d)
    requires var a := EnvelopeAt(m, d) - 4;
             ReadWords(m, a, |ws|).Some? && (a + 2 * |ws| <= d || d + 4 <= a)
    ensures ReadWords(Queued(m, d, ws, flag), EnvelopeAt(m, d) - 4, |ws|) == Some(ws)
  {
    var a := EnvelopeAt(m, d) - 4;
    ReadBack(m, a, ws);
    ReadOnlyDepends(WriteWords(m, a, ws), Queued(m, d, ws, flag), a, |ws|);
    hide WriteWords, ReadWords;
  }

  lemma QueuedWord(m: Memory, d: int, ws: seq<Word>, flag: bool, x: int)
    requires HasDescriptor(m, d) && x in m && x != d + 2
    requires var a := EnvelopeAt(m, d) - 4; x < a || a + 2 * |ws| <= x
    ensures x in Queued(m, d, ws, flag) && Queued(m, d, ws, flag)[x] == m[x]
  {
    hide HandedOver, EnvelopeAt;
  }

  lemma QueuedDescriptor(m: Memory, d: int, ws: seq<Word>, flag: bool)
    requires HasDescriptor(m, d)
    requires var a := EnvelopeAt(m, d) - 4; a + 2 * |ws| <= d || d + 4 <= a
    ensures var m' := Queued(m, d, ws, flag);
            && HasDescriptor(m', d) && DescriptorAt(m', d) == DescriptorAt(m, d).(flag := flag, own := true)
            && EnvelopeAt(m, d) == DescriptorAt(m, d).envelope
  {
    QueuedWord(m, d, ws, flag, d);
    HandedOverMeaning(m[d], m[d + 2], flag);
    hide HandedOver, WriteWords, Bit;
  }

  /** The host's writing changes its own descriptor and no other. */
  lemma QueuedRings(p: Port, k: nat, ws: seq<Word>, flag: bool)
    requires RingsExist(p) && k < p.responseLength + p.commandLength
    requires BufferApart(p, Rings(p)[k].envelope - 4, |ws|)
    ensures HasDescriptor(p.memory, SlotAddress(p.ringBase, k))
    ensures var p' := p.(memory := Queued(p.memory, SlotAddress(p.ringBase, k), ws, flag));
            RingsExist(p') && Rings(p') == Rings(p)[k := Rings(p)[k].(flag := flag, own := true)]
  {
    hide Decode, HandedOver, Queued, EnvelopeAt;
    var d := SlotAddress(p.ringBase, k);
    assert HasDescriptor(p.memory, d);
    EnvelopeDecoded(p.memory, d);
    QueuedDescriptor(p.memory, d, ws, flag);
    var p' := p.(memory := Queued(p.memory, d, ws, flag));
    forall i: nat | i < p.responseLength + p.commandLength
      ensures HasDescriptor(p'.memory, SlotAddress(p.ringBase, i))
      ensures DescriptorAt(p'.memory, SlotAddress(p.ringBase, i))
              == if i == k then Rings(p)[k].(flag := flag, own := true) else Rings(p)[i]
    {
      var x := SlotAddress(p.ringBase, i);
      assert HasDescriptor(p.memory, x);
      if i != k {
        QueuedWord(p.memory, d, ws, flag, x);
        QueuedWord(p.memory, d, ws, flag, x + 2);
      }
    }
    hide DescriptorAt, HasDescriptor;
    assert RingsExist(p');
  }

  /** And the message lies where the descriptor says. */
  lemma QueuedLies(p: Port, k: nat, ws: seq<Word>, flag: bool)
    requires RingsExist(p) && k < p.responseLength + p.commandLength
    requires var a := Rings(p)[k].envelope - 4; BufferApart(p, a, |ws|) && ReadWords(p.memory, a, |ws|).Some?
    ensures HasDescriptor(p.memory, SlotAddress(p.ringBase, k))
    ensures var m := Queued(p.memory, SlotAddress(p.ringBase, k), ws, flag);
            ReadWords(m, Rings(p)[k].envelope - 4, |ws|) == Some(ws)
  {
    hide Queued, WriteWords, ReadWords, Decode, EnvelopeAt, DescriptorAt;
    var d := SlotAddress(p.ringBase, k);
    assert HasDescriptor(p.memory, d);
    EnvelopeDecoded(p.memory, d);
    QueuedText(p.memory, d, ws, flag);
  }

  lemma EnvelopeDecoded(m: Memory, d: int)
    requires HasDescriptor(m, d)
    ensures EnvelopeAt(m, d) == DescriptorAt(m, d).envelope
  {
    hide Bit;
  }

  /** The port fetches the message the host has queued. */
  lemma QueuedIsFound(p: Port, ws: seq<Word>, flag: bool)
    requires RingsExist(p) && p.commandPointer < p.commandLength && IsMessage(ws)
    requires var a := Rings(p)[p.responseLength + p.commandPointer].envelope - 4;
             BufferApart(p, a, |ws|) && ReadWords(p.memory, a, |ws|).Some?
    ensures HasDescriptor(p.memory, CommandAddress(p, p.commandPointer))
    ensures var p' := p.(memory := Queued(p.memory, CommandAddress(p, p.commandPointer), ws, flag));
            var n := p.commandLength;
            && RingsExist(p')
            && NextCommand(p')
               == Command(ws, flag && (n == 1 || Rings(p')[p.responseLength + Previous(p.commandPointer, n)].own))
  {
    hide Queued, BufferApart, ReadWords, NextCommand, Decode, DescriptorAt, HasDescriptor, IsMessage, Previous;
    var k := p.responseLength + p.commandPointer;
    QueuedRings(p, k, ws, flag);
    QueuedLies(p, k, ws, flag);
    hide RingsExist, Rings;
    CommandFound(p.(memory := Queued(p.memory, SlotAddress(p.ringBase, k), ws, flag)), ws);
  }

  class Uda {
    var step: InitStep
    var nextStep: bool
    var sa: Word
    var step1Value: Word
    var ringBase: int
    var commandLength: nat
    var responseLength: nat
    var commandPointer: nat
    var responsePointer: nat
    var vector: nat
    var interruptEnable: bool
    var purge: bool
    const wide: bool
    const rqdx3: bool
    var memory: Memory
    var interrupts: nat         // INTR requests so far

    constructor(wide: bool, rqdx3: bool, memory: Memory)
      ensures State().step == Uninitialized && State().sa == 0 && State().memory == memory
    {
      step, nextStep, sa, step1Value := Uninitialized, false, 0, 0;
      ringBase, commandLength, responseLength := 0, 0, 0;
      commandPointer, responsePointer, vector := 0, 0, 0;
      interruptEnable, purge := false, false;
      this.wide, this.rqdx3, this.memory, interrupts := wide, rqdx3, memory, 0;
    }

    function State(): Port
      reads this
    {
      Port(step, nextStep, sa, step1Value, ringBase, commandLength, responseLength,
           commandPointer, responsePointer, vector, interruptEnable, purge, wide, rqdx3, memory)
    }

    /** DMAWriteWord */
    method DmaWriteWord(address: int, word: Word) returns (ok: bool)
      modifies this`memory
      ensures ok == (address in old(memory))
      ensures memory == Put(old(memory), address, word)
    {
      ok := address in memory;
      if ok {
        memory := memory[address := word];
      }
    }

    /** on_after_register_access for a write of SA. */
    method OnWriteSA(value: Word)
      modifies this
      ensures State() == WriteSA(old(State()), value)
    {
      match step {
        case Uninitialized =>
          Step1Written(value);
        case Step1 =>
          Step1Written(value);
        case Step2 =>
          ringBase := value - value % 2;
          purge := value % 2 == 1;
          step, nextStep := Step3, true;
        case Step3 =>
          ringBase := Or(ringBase, (value % 0x8000) * 0x1_0000);
          step, nextStep := Step4, true;
        case Step4 =>
          if value % 2 == 1 {
            step, nextStep := Complete, true;
            sa := 0;
          }
        case Complete =>
      }
    }

    method Step1Written(value: Word)
      modifies this
      ensures State() == WriteStep1(old(State()), value)
    {
      step1Value := value;
      vector := (value % 0x80) * 4;
      interruptEnable := Bit(value, 7);
      responseLength := Pow2((value / 0x100) % 8);
      commandLength := Pow2((value / 0x800) % 8);
      step, nextStep := Step2, true;
    }

    /** One pass of worker(). */
    method Worker()
      requires nextStep
      modifies this
      ensures State() == Work(old(State()))
    {
      nextStep := false;
      match step {
        case Uninitialized =>
          sa := 0;
          Reset();
          step, nextStep := Step1, true;
          return;
        case Step1 =>
          sa := STEP1 + (if wide then STEP1_22_BIT else 0);
          return;
        case Step2 =>
          InterruptWithSA(STEP2 + step1Value / 0x100);
          return;
        case Step3 =>
          InterruptWithSA(STEP3 + step1Value % 0x100);
          return;
        case Step4 =>
          ClearCommunicationsArea();
          InterruptWithSA(STEP4 + (if rqdx3 then RQDX3_ID else UDA50_ID));
          return;
        case Complete =>
      }
    }

    method Reset()
      modifies this`ringBase, this`commandLength, this`responseLength, this`commandPointer,
               this`responsePointer, this`vector, this`interruptEnable, this`purge
      ensures ringBase == 0 && commandLength == 0 && responseLength == 0
      ensures commandPointer == 0 && responsePointer == 0 && vector == 0
      ensures !interruptEnable && !purge
    {
      ringBase, commandLength, responseLength := 0, 0, 0;
      commandPointer, responsePointer, vector := 0, 0, 0;
      interruptEnable, purge := false, false;
    }

    /** Interrupt(sa_value): SA gets the value with or without an interrupt. */
    method InterruptWithSA(value: Word)
      modifies this`sa, this`interrupts
      ensures sa == value
    {
      sa := value;
      Interrupt();
    }

    method Interrupt()
      modifies this`interrupts
      ensures interrupts == old(interrupts)
                            + (if (interruptEnable || step == Complete) && vector != 0 then 1 else 0)
    {
      if (interruptEnable || step == Complete) && vector != 0 {
        interrupts := interrupts + 1;
      }
    }

    method ClearCommunicationsArea()
      modifies this`memory
      ensures memory == ClearedArea(old(memory), ringBase, if purge then 8 else 4, responseLength, commandLength)
    {
      hide OwnedSlots, ZeroedWords, AreaWords;
      ClearArea();
      OwnResponses();
    }

    /** The first loop of step 4: zero the header and both rings. */
    method ClearArea()
      modifies this`memory
      ensures var header := if purge then 8 else 4;
              memory == ZeroedWords(old(memory), ringBase - header, AreaWords(header, responseLength, commandLength))
    {
      hide Put;
      var headerSize := if purge then 8 else 4;
      var start := ringBase - headerSize;
      var size := (responseLength + commandLength) * 4 + headerSize;
      ghost var n := AreaWords(headerSize, responseLength, commandLength);
      ghost var k := 0;
      var i := 0;
      while i < size
        invariant 0 <= k <= n && i == 2 * k && size == 2 * n
        invariant memory == ZeroedWords(old(memory), start, k)
      {
        var _ := DmaWriteWord(start + i, 0);
        i := i + 2;
        k := k + 1;
      }
    }

    /** The second loop of step 4: a blank descriptor with the Ownership bit set
        into every slot of the response ring. */
    method OwnResponses()
      modifies this`memory
      ensures memory == OwnedSlots(old(memory), ringBase, responseLength)
    {
      var i := 0;
      while i < responseLength
        invariant 0 <= i <= responseLength
        invariant memory == OwnedSlots(old(memory), ringBase, i)
      {
        var ok := DmaWriteWord(SlotAddress(ringBase, i), 0);
        if ok {
          ok := DmaWriteWord(SlotAddress(ringBase, i) + 2, 0x8000);
        }
        i := i + 1;
      }
    }

    /** PortError: SA tells of it and the worker is woken to reset the port. */
    method PortError(error: Word)
      modifies this`sa, this`step, this`nextStep
      ensures sa == ErrorValue(error) && step == Uninitialized && nextStep
    {
      sa := ErrorValue(error);
      step, nextStep := Uninitialized, true;
    }

    /** The reading part of GetNextCommand. */
    method ReadNextCommand() returns (r: Decision)
      requires commandPointer < commandLength
      ensures r == NextCommand(State())
    {
      var d := SlotAddress(ringBase, responseLength + commandPointer);
      if !HasDescriptor(memory, d) {
        return Fault(PORT_ERROR_PACKET_READ);
      }
      var descriptor := DescriptorAt(memory, d);
      if !descriptor.own {
        return Nothing;
      }
      var a := descriptor.envelope - 4;
      if a !in memory || memory[a] == 0 || memory[a] >= MAX_MESSAGE_LENGTH {
        return Fault(PORT_ERROR_RING_READ);
      }
      if memory[a] % 2 == 1 {
        return OddLength;
      }
      var text := ReadWords(memory, a, memory[a] / 2 + 2);
      if text.None? {
        return Fault(PORT_ERROR_RING_READ);
      }
      var doInterrupt := false;
      if descriptor.flag {
        if commandLength == 1 {
          doInterrupt := true;
        } else {
          var q := SlotAddress(ringBase, responseLength + Previous(commandPointer, commandLength));
          if !HasDescriptor(memory, q) {
            return Fault(PORT_ERROR_RING_READ);
          }
          doInterrupt := DescriptorAt(memory, q).own;
        }
      }
      return Command(text.value, doInterrupt);
    }

    /** GetNextCommand, uninterrupted. */
    method GetNextCommand() returns (r: Decision)
      requires commandPointer < commandLength
      modifies this
      ensures r == NextCommand(old(State()))
      ensures match r
              case Command(_, interrupt) =>
                && HasDescriptor(old(memory), CommandAddress(old(State()), old(commandPointer)))
                && State() == Taken(old(State()), interrupt)
              case Fault(error) =>
                State() == old(State()).(sa := ErrorValue(error), step := Uninitialized, nextStep := true)
              case _ => State() == old(State())
      ensures interrupts == old(interrupts)
                + (if r.Command? && r.interrupt && (interruptEnable || step == Complete) && vector != 0 then 1 else 0)
    {
      r := ReadNextCommand();
      match r {
        case Fault(error) =>
          PortError(error);
        case Command(_, doInterrupt) =>
          TakeCommand(doInterrupt);
        case _ =>
      }
    }

    method TakeCommand(doInterrupt: bool)
      requires commandPointer < commandLength
      requires HasDescriptor(memory, CommandAddress(State(), commandPointer))
      modifies this`memory, this`commandPointer, this`interrupts
      ensures State() == Taken(old(State()), doInterrupt)
      ensures interrupts == old(interrupts)
                + (if doInterrupt && (interruptEnable || step == Complete) && vector != 0 then 1 else 0)
    {
      hide WriteWords, HandedBack;
      var d := SlotAddress(ringBase, responseLength + commandPointer);
      var ok := DmaWriteWord(d + 2, HandedBack(memory[d + 2]));
      commandPointer := (commandPointer + 1) % commandLength;
      MarkWritten(memory, ringBase - 4);
      if doInterrupt {
        ok := DmaWriteWord(ringBase - 4, 1);
        Interrupt();
      }
    }

    /** PostResponse, uninterrupted.  A descriptor the port cannot read would be a
        null pointer in the original, which does not test for it. */
    method PostResponse(text: seq<Word>) returns (posted: bool)
      requires responsePointer < responseLength
      requires RingsExist(State())
      modifies this
      ensures posted == DescriptorAt(old(memory), ResponseAddress(old(State()), old(responsePointer))).own
      ensures State() == if posted then Posted(old(State()), text, InterruptsFor(old(State()), text)) else old(State())
      ensures interrupts == old(interrupts)
                + (if posted && InterruptsFor(old(State()), text)
                      && (interruptEnable || step == Complete) && vector != 0 then 1 else 0)
    {
      posted := DescriptorAt(memory, SlotAddress(ringBase, responsePointer)).own;
      if posted {
        PostOwned(text);
      }
    }

    /** The branch of PostResponse for a descriptor the port owns. */
    method PostOwned(text: seq<Word>)
      requires responsePointer < responseLength
      requires RingsExist(State())
      modifies this`memory, this`responsePointer, this`interrupts
      ensures var d := SlotAddress(ringBase, old(responsePointer));
              memory == PostedMemory(old(memory), d, DescriptorAt(old(memory), d).envelope - 4, ringBase, text,
                                     InterruptsFor(old(State()), text))
      ensures responsePointer == (old(responsePointer) + 1) % responseLength
      ensures interrupts == old(interrupts)
                + (if InterruptsFor(old(State()), text)
                      && (interruptEnable || step == Complete) && vector != 0 then 1 else 0)
    {
      hide WriteWords, HandedBack, DescriptorAt, PreviousOwned;
      ghost var p := State();
      var d := SlotAddress(ringBase, responsePointer);
      assert HasDescriptor(memory, d);
      var w0, w1 := memory[d], memory[d + 2];
      var descriptor := DescriptorAt(memory, d);
      memory := WriteWords(memory, descriptor.envelope - 4, text);
      RingsStay(p, memory);
      var doInterrupt := ResponseTransition(descriptor.flag);
      assert doInterrupt == InterruptsFor(p, text);
      hide RingsExist, InterruptsFor;
      HandBack(d, w0, w1, doInterrupt);
    }

    method ResponseTransition(flag: bool) returns (doInterrupt: bool)
      requires responsePointer < responseLength && RingsExist(State())
      ensures doInterrupt == (flag && PreviousOwned(State()))
    {
      doInterrupt := false;
      if flag {
        if responseLength == 1 {
          doInterrupt := true;
        } else {
          var q := SlotAddress(ringBase, Previous(responsePointer, responseLength));
          doInterrupt := DescriptorAt(memory, q).own;
        }
      }
    }

    method HandBack(d: int, w0: Word, w1: Word, doInterrupt: bool)
      requires HasDescriptor(memory, d) && responsePointer < responseLength
      modifies this`memory, this`responsePointer, this`interrupts
      ensures var m := old(memory)[d := w0][d + 2 := HandedBack(w1)];
              memory == if doInterrupt then WriteWords(m, ringBase - 2, [1]) else m
      ensures responsePointer == (old(responsePointer) + 1) % responseLength
      ensures interrupts == old(interrupts)
                + (if doInterrupt && (interruptEnable || step == Complete) && vector != 0 then 1 else 0)
    {
      var ok := DmaWriteWord(d, w0);
      ok := DmaWriteWord(d + 2, HandedBack(w1));
      if doInterrupt {
        ok := DmaWriteWord(ringBase - 2, 1);
        Interrupt();
      }
      responsePointer := (responsePointer + 1) % responseLength;
    }
  }
}
