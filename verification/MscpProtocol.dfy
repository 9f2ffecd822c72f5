/** The transport protocol between a host and the MSCP port (uda.cpp) with its
    polling thread (mscp_server.cpp), as a step system without resets.

    A step of the port is one DMA access or one locked region; between any two
    of them the host may queue commands, read responses and ask for polling.
    A ring slot stands for a descriptor with the message buffer it points to. */
module MscpProtocol {
  import opened MscpMessages
  import opened MscpPolling
  import opened Words
  import UdaPort

  /** own: the Ownership bit, set when the port owns the slot. */
  datatype Slot = Slot(own: bool, flag: bool, msg: Message)

  datatype Pc =
    | PTop                                          // asleep, or about to test the state
    | PScan                                         // about to read the next command descriptor
    | PFetch(flag: bool)                            // it is owned: about to read the message
    | PFetchPrevious(msg: Message)                  // about to read the previous descriptor
    | PFetchRelease(msg: Message, interrupt: bool)  // about to write the descriptor back
    | PExec                                         // about to take a command from the queue
    | PPost(rsp: Message)                           // about to read the next response descriptor
    | PPostMessage(rsp: Message, flag: bool)        // it is owned: about to write the message
    | PPostPrevious(rsp: Message)                   // about to read the previous descriptor
    | PPostRelease(rsp: Message, interrupt: bool)   // about to write the descriptor back
    | PBottom                                       // about to go back to sleep
    | PNoRoom                                       // "Unexpected: no room in response ring."

  /** The last five fields are history: everything queued, answered and read so
      far, how many commands and responses went through the rings, and how many
      commands had been queued at the last request for polling. */
  datatype System = System(
    commands: seq<Slot>, responses: seq<Slot>,
    commandPointer: nat, responsePointer: nat,      // the port's
    hostCommand: nat, hostResponse: nat,            // the host's
    pc: Pc, poll: PollingState, queue: seq<Message>, credits: nat, hostCredits: nat,
    sent: seq<Message>, answered: seq<Message>, received: seq<Message>,
    fetched: nat, posted: nat, asked: nat)

  datatype Event =
    | Port                                          // the next step of the port
    | Execute(status: nat)                          // the server executes a command
    | QueueCommand(msg: Message, flag: bool)        // host
    | ReadResponse(flag: bool)                      // host: reads one and gives the slot back
    | AskPoll                                       // host: reads IP

  /** Ring lengths are powers of two up to 2^7. */
  function Initial(c: nat, r: nat, hostCredits: nat): System {
    var m := Message(0, 0, 0, 0, 0);
    System(seq(Pow2(c), _ => Slot(false, false, m)), seq(Pow2(r), _ => Slot(true, false, m)),
           0, 0, 0, 0, PTop, Wait, [], INIT_CREDITS, hostCredits, [], [], [], 0, 0, 0)
  }

  predicate WellFormed(s: System) {
    && s.commandPointer < |s.commands| && s.hostCommand < |s.commands|
    && s.responsePointer < |s.responses| && s.hostResponse < |s.responses|
  }

  /** A host uses a command slot only when it owns it, takes a response only from
      a slot handed back to it and, where `credits` holds, sends only sequential
      commands it has credit for. */
  predicate Enabled(s: System, e: Event, credits: bool) {
    && WellFormed(s)
    && match e
       case Port => !(s.pc.PTop? && s.poll == Wait) && !s.pc.PExec? && !s.pc.PNoRoom?
       case Execute(_) => s.pc.PExec?
       case QueueCommand(m, _) =>
         && !s.commands[s.hostCommand].own
         && (credits ==> s.hostCredits > 0 && m.messageType == SEQUENTIAL)
       case ReadResponse(_) => !s.responses[s.hostResponse].own
       case AskPoll => true
  }

  function Step(s: System, e: Event): System
    requires Enabled(s, e, false)
  {
    match e
    case Port => PortStep(s)
    case Execute(status) =>
      if s.queue == [] then s.(pc := PBottom)
      else
        var command := s.queue[0];
        var rsp := Respond(command, status, s.credits);
        s.(pc := PPost(rsp), queue := s.queue[1..],
           credits := s.credits - Granted(command.messageType, s.credits),
           answered := s.answered + [rsp])
    case QueueCommand(m, flag) =>
      s.(commands := s.commands[s.hostCommand := Slot(true, flag, m)],
         hostCommand := (s.hostCommand + 1) % |s.commands|,
         hostCredits := if s.hostCredits > 0 then s.hostCredits - 1 else 0,
         sent := s.sent + [m])
    case ReadResponse(flag) =>
      var m := s.responses[s.hostResponse].msg;
      s.(responses := s.responses[s.hostResponse := Slot(true, flag, m)],
         hostResponse := (s.hostResponse + 1) % |s.responses|,
         hostCredits := s.hostCredits + m.credits,
         received := s.received + [m])
    case AskPoll => s.(poll := InitRun, asked := |s.sent|)
  }

  /** Poll, GetNextCommand and PostResponse. */
  function PortStep(s: System): System
    requires Enabled(s, Port, false)
  {
    match s.pc
    case PTop => s.(poll := AtTop(s.poll), pc := PScan)
    case PScan =>
      var d := s.commands[s.commandPointer];
      s.(pc := if d.own then PFetch(d.flag) else PExec)
    case PFetch(flag) =>
      var m := s.commands[s.commandPointer].msg;
      s.(pc := if flag && |s.commands| > 1 then PFetchPrevious(m) else PFetchRelease(m, flag))
    case PFetchPrevious(m) =>
      s.(pc := PFetchRelease(m, s.commands[UdaPort.Previous(s.commandPointer, |s.commands|)].own))
    case PFetchRelease(m, _) =>
      var d := s.commands[s.commandPointer];
      s.(commands := s.commands[s.commandPointer := d.(own := false, flag := true)],
         commandPointer := (s.commandPointer + 1) % |s.commands|,
         queue := s.queue + [m], fetched := s.fetched + 1, pc := PScan)
    case PPost(rsp) =>
      var d := s.responses[s.responsePointer];
      s.(pc := if d.own then PPostMessage(rsp, d.flag) else PNoRoom)
    case PPostMessage(rsp, flag) =>
      var d := s.responses[s.responsePointer];
      s.(responses := s.responses[s.responsePointer := d.(msg := rsp)],
         pc := if flag && |s.responses| > 1 then PPostPrevious(rsp) else PPostRelease(rsp, flag))
    case PPostPrevious(rsp) =>
      s.(pc := PPostRelease(rsp, s.responses[UdaPort.Previous(s.responsePointer, |s.responses|)].own))
    case PPostRelease(_, _) =>
      var d := s.responses[s.responsePointer];
      s.(responses := s.responses[s.responsePointer := d.(own := false, flag := true)],
         responsePointer := (s.responsePointer + 1) % |s.responses|,
         posted := s.posted + 1, pc := PExec)
    case PBottom => s.(poll := AtBottom(s.poll), pc := PTop)
    case _ => s
  }

  ghost predicate Possible(s: System, es: seq<Event>, credits: bool)
    decreases |es|
  {
    es != [] ==> Enabled(s, es[0], credits) && Possible(Step(s, es[0]), es[1..], credits)
  }

  ghost function After(s: System, es: seq<Event>, credits: bool): System
    requires Possible(s, es, credits)
    decreases |es|
  {
    if es == [] then s else After(Step(s, es[0]), es[1..], credits)
  }

  // ---- slots of a ring ----------------------------------------------------

  /** The slot of the k-th message through a ring of n slots. */
  function SlotOf(k: nat, n: nat): (i: nat)
    requires n > 0
    ensures i < n
  {
    k % n
  }

  lemma SlotNext(k: nat, n: nat)
    requires n > 0
    ensures SlotOf(k + 1, n) == (SlotOf(k, n) + 1) % n
    ensures SlotOf(k + n, n) == SlotOf(k, n)
  {
    var q, r := k / n, k % n;
    assert k == n * q + r;
    MulStep(n, q);
    QuotientIs(k + n, n, q + 1, r);
    if r + 1 < n {
      QuotientIs(k + 1, n, q, r + 1);
    } else {
      QuotientIs(k + 1, n, q + 1, 0);
    }
  }

  /** Messages less than a ring's length apart use different slots. */
  lemma SlotsDiffer(j: nat, k: nat, n: nat)
    requires j < k < j + n
    ensures SlotOf(j, n) != SlotOf(k, n)
  {
    if j % n == k % n {
      var d := k / n - j / n;
      assert k - j == n * (k / n) - n * (j / n) == n * d;
      if d >= 1 {
        MulMonotone(1, d, n);
      } else {
        MulMonotone(d, 0, n);
      }
    }
  }

  ghost predicate RingLength(n: nat) { exists b: nat :: b <= 7 && n == Pow2(b) }

  /** Also for pointer 0 the unsigned remainder is the slot before the pointer's. */
  lemma PreviousSlot(k: nat, n: nat)
    requires RingLength(n)
    ensures n > 0 && UdaPort.Previous(SlotOf(k, n), n) == SlotOf(k + n - 1, n)
  {
    var b: nat :| b <= 7 && n == Pow2(b);
    var p, q := k % n, k / n;
    assert k == n * q + p;
    MulStep(n, q);
    RingDivides(n, b);
    if p == 0 {
      QuotientIs(k + n - 1, n, q, n - 1);
    } else {
      QuotientIs(k + n - 1, n, q + 1, p - 1);
      QuotientIs(p - 1, n, 0, p - 1);
    }
  }

  lemma RingDivides(n: nat, b: nat)
    requires b <= 7 && n == Pow2(b)
    ensures 1 <= n <= 0x80 && 0xffff_ffff % n == n - 1
  {
    Pow2Values();
    Pow2Add(b, 7 - b);
    MulMonotone(1, Pow2(7 - b), n);
    Pow2Add(b, 32 - b);
    var m := Pow2(32 - b);
    MulStep(n, m);
    QuotientIs(0xffff_ffff, n, m - 1, n - 1);
  }

  // ---- the invariant ------------------------------------------------------

  /** Port-owned command slots form one run: exactly the messages `fetched` to
      `|sent|`, starting at the port's pointer. */
  ghost predicate CommandRing(s: System) {
    var n := |s.commands|;
    && RingLength(n) && n > 0
    && s.fetched <= |s.sent| <= s.fetched + n
    && s.commandPointer == SlotOf(s.fetched, n) && s.hostCommand == SlotOf(|s.sent|, n)
    && (forall k {:trigger SlotOf(k, n)} :: s.fetched <= k < |s.sent| ==>
          s.commands[SlotOf(k, n)].own && s.commands[SlotOf(k, n)].msg == s.sent[k])
    && (forall k {:trigger SlotOf(k, n)} :: |s.sent| <= k < s.fetched + n ==>
          !s.commands[SlotOf(k, n)].own)
  }

  /** Unread responses form one run, and all other slots belong to the port. */
  ghost predicate ResponseRing(s: System) {
    var n := |s.responses|;
    && RingLength(n) && n > 0
    && |s.received| <= s.posted <= |s.received| + n && s.posted <= |s.answered|
    && s.responsePointer == SlotOf(s.posted, n) && s.hostResponse == SlotOf(|s.received|, n)
    && (forall k {:trigger SlotOf(k, n)} :: |s.received| <= k < s.posted ==>
          !s.responses[SlotOf(k, n)].own && s.responses[SlotOf(k, n)].msg == s.answered[k])
    && (forall k {:trigger SlotOf(k, n)} :: s.posted <= k < |s.received| + n ==>
          s.responses[SlotOf(k, n)].own)
  }

  predicate HasResponse(pc: Pc) {
    pc.PPost? || pc.PPostMessage? || pc.PPostPrevious? || pc.PPostRelease? || pc.PNoRoom?
  }

  predicate InFetch(pc: Pc) {
    pc.PFetch? || pc.PFetchPrevious? || pc.PFetchRelease?
  }

  /** Commands move from the ring to the queue to their responses in order. */
  ghost predicate Pipeline(s: System) {
    && WellFormed(s) && |s.answered| <= s.fetched <= |s.sent|
    && s.queue == s.sent[|s.answered|..s.fetched]
    && s.posted == |s.answered| - (if HasResponse(s.pc) then 1 else 0)
    && |s.received| <= |s.answered| && s.received == s.answered[..|s.received|]
    && (forall k :: 0 <= k < |s.answered| ==> Answers(s.answered[k], s.sent[k]))
    && (InFetch(s.pc) ==>
          && s.fetched < |s.sent|
          && (s.pc.PFetch? ==> s.pc.flag == s.commands[s.commandPointer].flag)
          && (s.pc.PFetchPrevious? ==> s.commands[s.commandPointer].flag)
          && (!s.pc.PFetch? ==> s.pc.msg == s.sent[s.fetched]))
    && (HasResponse(s.pc) && !s.pc.PNoRoom? ==> s.pc.rsp == s.answered[s.posted])
    && (HasResponse(s.pc) && !s.pc.PPost? && !s.pc.PNoRoom? ==> s.posted < |s.received| + |s.responses|)
    && (s.pc.PPostMessage? ==> s.pc.flag == s.responses[s.responsePointer].flag)
    && (s.pc.PPostPrevious? ==> s.responses[s.responsePointer].flag)
    && (s.pc.PPostPrevious? || s.pc.PPostRelease? ==> s.responses[s.responsePointer].msg == s.pc.rsp)
  }

  /** Whoever asked for polling before the last scan ended has been served. */
  ghost predicate Polling(s: System) {
    && s.asked <= |s.sent| && s.poll != InitRestart
    && (s.pc.PTop? || s.pc.PBottom? ==> s.queue == [])
    && (s.poll == Wait ==> s.pc.PTop?)
    && (s.poll == Wait ==> s.fetched >= s.asked)
    && (s.poll == Run && !s.pc.PTop? && !s.pc.PScan? && !InFetch(s.pc) ==> s.fetched >= s.asked)
  }

  ghost predicate Inv(s: System) {
    CommandRing(s) && ResponseRing(s) && Pipeline(s) && Polling(s)
  }

  lemma InitialInv(c: nat, r: nat, h: nat)
    requires c <= 7 && r <= 7
    ensures Inv(Initial(c, r, h))
  {
    SlotNext(0, Pow2(c));
    SlotNext(0, Pow2(r));
  }

  lemma QueueKeepsInv(s: System, m: Message, flag: bool)
    requires Inv(s) && Enabled(s, QueueCommand(m, flag), false)
    ensures Inv(Step(s, QueueCommand(m, flag)))
  {
    var n, s' := |s.commands|, Step(s, QueueCommand(m, flag));
    SlotNext(|s.sent|, n);
    SlotNext(s.fetched, n);
    assert s.fetched < |s.sent| ==> s.commands[SlotOf(s.fetched, n)].own;
    forall k | s.fetched <= k < s.fetched + n && k != |s.sent|
      ensures SlotOf(k, n) != SlotOf(|s.sent|, n)
    {
      if k < |s.sent| { SlotsDiffer(k, |s.sent|, n); } else { SlotsDiffer(|s.sent|, k, n); }
    }
    assert s'.queue == s'.sent[|s.answered|..s.fetched];
  }

  lemma ReadKeepsInv(s: System, flag: bool)
    requires Inv(s) && Enabled(s, ReadResponse(flag), false)
    ensures Inv(Step(s, ReadResponse(flag)))
    ensures |s.received| < s.posted
  {
    var n, r := |s.responses|, |s.received|;
    SlotNext(r, n);
    forall k | r < k < r + n ensures SlotOf(k, n) != SlotOf(r, n) {
      SlotsDiffer(r, k, n);
    }
  }

  lemma FetchReleaseKeepsInv(s: System)
    requires Inv(s) && s.pc.PFetchRelease? && Enabled(s, Port, false)
    ensures Inv(PortStep(s))
  {
    var n, s' := |s.commands|, PortStep(s);
    SlotNext(s.fetched, n);
    forall k | s.fetched < k < s.fetched + n ensures SlotOf(k, n) != SlotOf(s.fetched, n) {
      SlotsDiffer(s.fetched, k, n);
    }
    assert s'.queue == s.sent[|s.answered|..s.fetched + 1];
  }

  lemma PostReleaseKeepsInv(s: System)
    requires Inv(s) && s.pc.PPostRelease? && Enabled(s, Port, false)
    ensures Inv(PortStep(s))
  {
    var n := |s.responses|;
    SlotNext(s.posted, n);
    forall k | |s.received| <= k < |s.received| + n && k != s.posted
      ensures SlotOf(k, n) != SlotOf(s.posted, n)
    {
      if k < s.posted { SlotsDiffer(k, s.posted, n); } else { SlotsDiffer(s.posted, k, n); }
    }
  }

  lemma PostMessageKeepsInv(s: System)
    requires Inv(s) && s.pc.PPostMessage? && Enabled(s, Port, false)
    ensures Inv(PortStep(s))
  {
    var n := |s.responses|;
    forall k | |s.received| <= k < |s.received| + n && k != s.posted
      ensures SlotOf(k, n) != SlotOf(s.posted, n)
    {
      if k < s.posted { SlotsDiffer(k, s.posted, n); } else { SlotsDiffer(s.posted, k, n); }
    }
  }

  /** The scan ends only when every command queued so far has been fetched. */
  lemma ScanKeepsInv(s: System)
    requires Inv(s) && s.pc.PScan? && Enabled(s, Port, false)
    ensures Inv(PortStep(s))
    ensures s.commands[s.commandPointer].own <==> s.fetched < |s.sent|
  {
    var k := s.fetched;
    assert s.commands[SlotOf(k, |s.commands|)].own <==> k < |s.sent|;
  }

  lemma PostKeepsInv(s: System)
    requires Inv(s) && s.pc.PPost? && Enabled(s, Port, false)
    ensures Inv(PortStep(s))
    ensures s.responses[s.responsePointer].own <==> s.posted < |s.received| + |s.responses|
  {
    var n := |s.responses|;
    SlotNext(|s.received|, n);
    assert s.posted < |s.received| + n ==> s.responses[SlotOf(s.posted, n)].own;
    assert |s.received| < s.posted ==> !s.responses[SlotOf(|s.received|, n)].own;
  }

  lemma LocalStepKeepsInv(s: System)
    requires Inv(s) && Enabled(s, Port, false)
    requires s.pc.PTop? || s.pc.PFetch? || s.pc.PFetchPrevious? || s.pc.PPostPrevious? || s.pc.PBottom?
    ensures Inv(PortStep(s))
  {
  }

  lemma ExecuteKeepsPipeline(s: System, status: nat)
    requires Pipeline(s) && s.pc.PExec? && WellFormed(s)
    ensures Pipeline(Step(s, Execute(status)))
  {
    hide Answers, Respond;
    if s.queue != [] {
      RespondAnswers(s.queue[0], status, s.credits);
      TakeFirst(s.sent, |s.answered|, s.fetched);
    }
  }

  lemma ExecuteKeepsInv(s: System, status: nat)
    requires Inv(s) && s.pc.PExec? && WellFormed(s)
    ensures Inv(Step(s, Execute(status)))
  {
    hide Respond;
    ExecuteKeepsPipeline(s, status);
    hide Pipeline;
  }

  lemma TakeFirst<T>(s: seq<T>, lo: nat, hi: nat)
    requires lo < hi <= |s|
    ensures s[lo..hi][0] == s[lo] && s[lo..hi][1..] == s[lo + 1..hi]
  {
  }

  lemma StepKeepsInv(s: System, e: Event)
    requires Inv(s) && Enabled(s, e, false)
    ensures Inv(Step(s, e))
  {
    match e
    case Port =>
      if s.pc.PFetchRelease? {
        FetchReleaseKeepsInv(s);
      } else if s.pc.PPostRelease? {
        PostReleaseKeepsInv(s);
      } else if s.pc.PPostMessage? {
        PostMessageKeepsInv(s);
      } else if s.pc.PScan? {
        ScanKeepsInv(s);
      } else if s.pc.PPost? {
        PostKeepsInv(s);
      } else {
        LocalStepKeepsInv(s);
      }
    case Execute(status) => ExecuteKeepsInv(s, status);
    case QueueCommand(m, flag) => QueueKeepsInv(s, m, flag);
    case ReadResponse(flag) => ReadKeepsInv(s, flag);
    case AskPoll =>
  }

  lemma {:induction false} ReachableInv(s: System, es: seq<Event>, credits: bool)
    requires Inv(s) && Possible(s, es, credits)
    ensures Inv(After(s, es, credits))
    decreases |es|
  {
    if es != [] {
      StepKeepsInv(s, es[0]);
      ReachableInv(Step(s, es[0]), es[1..], credits);
    }
  }

  // ---- results over all runs ----------------------------------------------

  /** Whatever the interleaving, the responses read so far answer the commands
      queued first, one each and in the order of queueing. */
  lemma ResponsesInOrder(c: nat, r: nat, h: nat, es: seq<Event>)
    requires c <= 7 && r <= 7 && Possible(Initial(c, r, h), es, false)
    ensures var s := After(Initial(c, r, h), es, false);
            && |s.received| <= |s.sent|
            && (forall k :: 0 <= k < |s.received| ==> Answers(s.received[k], s.sent[k]))
  {
    InitialInv(c, r, h);
    ReachableInv(Initial(c, r, h), es, false);
  }

  /** Nothing is lost: when the polling thread has gone to sleep and the host
      finds no response waiting, every command queued before the last request
      for polling has been answered. */
  lemma NothingLost(c: nat, r: nat, h: nat, es: seq<Event>)
    requires c <= 7 && r <= 7 && Possible(Initial(c, r, h), es, false)
    ensures var s := After(Initial(c, r, h), es, false);
            !Enabled(s, Port, false) && !s.pc.PExec? && !s.pc.PNoRoom?
            && !Enabled(s, ReadResponse(true), false) ==>
              && s.asked <= |s.received| <= |s.sent|
              && (forall k :: 0 <= k < |s.received| ==> Answers(s.received[k], s.sent[k]))
  {
    InitialInv(c, r, h);
    ReachableInv(Initial(c, r, h), es, false);
    var s := After(Initial(c, r, h), es, false);
    var n := |s.responses|;
    assert |s.received| < s.posted ==> !s.responses[SlotOf(|s.received|, n)].own;
  }

  /** Steps the port can still take while the host is silent. */
  function Work(s: System): nat
    requires s.fetched <= |s.sent|
  {
    12 * (|s.sent| - s.fetched) + 6 * |s.queue| + (if s.poll == InitRun then 5 else 0)
    + match s.pc
      case PTop => if s.poll == Wait then 0 else 4
      case PScan => 3
      case PFetch(_) => 2
      case PFetchPrevious(_) => 1
      case PFetchRelease(_, _) => 0
      case PExec => 2
      case PPost(_) => 7
      case PPostMessage(_, _) => 6
      case PPostPrevious(_) => 5
      case PPostRelease(_, _) => 4
      case PBottom => 1
      case PNoRoom => 0
  }

  lemma PortStepsUseUpWork(s: System, e: Event)
    requires Enabled(s, e, false) && (e.Port? || e.Execute?)
    requires s.fetched <= |s.sent| && s.poll != InitRestart && (s.poll == Wait ==> s.pc.PTop?)
    requires s.pc.PFetchRelease? ==> s.fetched < |s.sent|
    ensures Step(s, e).fetched <= |Step(s, e).sent| && Work(Step(s, e)) < Work(s)
    ensures Step(s, e).asked == s.asked
  {
  }

  /** Every request is served: with the host silent the port stops after at most
      Work(s) steps, and if it then sleeps (rather than having run out of
      response slots), every command queued before the last request has its
      response in the ring. */
  lemma {:induction false} RequestsAreServed(s: System, es: seq<Event>)
    requires Inv(s) && Possible(s, es, false)
    requires forall i | 0 <= i < |es| :: es[i].Port? || es[i].Execute?
    ensures |es| <= Work(s)
    ensures var s' := After(s, es, false);
            && s'.asked == s.asked
            && (s'.pc.PTop? && s'.poll == Wait ==> s'.posted >= s.asked)
    decreases |es|
  {
    if es != [] {
      PortStepsUseUpWork(s, es[0]);
      StepKeepsInv(s, es[0]);
      RequestsAreServed(Step(s, es[0]), es[1..]);
    }
  }

  // ---- transition interrupts ----------------------------------------------

  ghost predicate CommandRingFull(s: System) { |s.sent| == s.fetched + |s.commands| }

  ghost predicate NoResponseUnread(s: System) { s.posted == |s.received| }

  /** The slot before the pointer belongs to the port exactly when the ring is full. */
  lemma LookAtCommands(s: System)
    requires Inv(s) && (s.pc.PFetch? || s.pc.PFetchPrevious?)
    ensures s.commands[s.commandPointer].own
    ensures Step(s, Port).pc.PFetchRelease? ==>
              (Step(s, Port).pc.interrupt <==> s.commands[s.commandPointer].flag && CommandRingFull(s))
  {
    var k, n := s.fetched, |s.commands|;
    PreviousSlot(k, n);
    assert k < |s.sent| ==> s.commands[SlotOf(k, n)].own;
    var p := k + n - 1;
    assert s.commands[SlotOf(p, n)].own <==> p < |s.sent|;
  }

  /** The slot before the pointer belongs to the port exactly when no response is unread. */
  lemma LookAtResponses(s: System)
    requires Inv(s) && (s.pc.PPostMessage? || s.pc.PPostPrevious?)
    ensures s.responses[s.responsePointer].own
    ensures Step(s, Port).pc.PPostRelease? ==>
              (Step(s, Port).pc.interrupt <==> s.responses[s.responsePointer].flag && NoResponseUnread(s))
  {
    var k, n := s.posted, |s.responses|;
    PreviousSlot(k, n);
    assert k < |s.received| + n ==> s.responses[SlotOf(k, n)].own;
    if k > |s.received| {
      SlotNext(k - 1, n);
      assert !s.responses[SlotOf(k - 1, n)].own;
    } else {
      assert k + n - 1 < |s.received| + n;
      assert s.responses[SlotOf(k + n - 1, n)].own;
    }
  }

  predicate HostEvents(es: seq<Event>) {
    forall i | 0 <= i < |es| :: es[i].QueueCommand? || es[i].ReadResponse? || es[i].AskPoll?
  }

  /** What the host cannot change while the port holds a slot. */
  lemma {:induction false} HostLeavesHeldSlot(s: System, es: seq<Event>)
    requires Inv(s) && Possible(s, es, false) && HostEvents(es)
    requires s.pc.PFetchRelease? || s.pc.PPostRelease?
    ensures var t := After(s, es, false);
            && Inv(t) && t.pc == s.pc && t.fetched == s.fetched && t.posted == s.posted
            && |t.sent| >= |s.sent| && |t.received| >= |s.received|
            && |t.commands| == |s.commands| && |t.responses| == |s.responses|
            && t.commandPointer == s.commandPointer && t.responsePointer == s.responsePointer
            && (s.pc.PFetchRelease? ==> t.commands[t.commandPointer] == s.commands[s.commandPointer])
            && (s.pc.PPostRelease? ==> t.responses[t.responsePointer] == s.responses[s.responsePointer])
    decreases |es|
  {
    hide CommandRing, ResponseRing, Pipeline, Polling;
    if es != [] {
      var t := Step(s, es[0]);
      StepKeepsInv(s, es[0]);
      HeldSlot(s, es[0]);
      HostLeavesHeldSlot(t, es[1..]);
    }
  }

  lemma HeldSlot(s: System, e: Event)
    requires Inv(s) && Enabled(s, e, false) && HostEvents([e])
    ensures var t := Step(s, e);
            && (s.pc.PFetchRelease? ==> t.commands[t.commandPointer] == s.commands[s.commandPointer])
            && (s.pc.PPostRelease? ==> t.responses[t.responsePointer] == s.responses[s.responsePointer])
            && t.pc == s.pc && t.commandPointer == s.commandPointer && t.responsePointer == s.responsePointer
  {
    assert [e][0] == e;
    var c, r := |s.commands|, |s.responses|;
    assert s.fetched < |s.sent| ==> s.commands[SlotOf(s.fetched, c)].own;
    assert s.posted < |s.received| + r ==> s.responses[SlotOf(s.posted, r)].own;
  }

  /** From the look at the previous slot until the command slot is handed back the
      host may queue further commands.  The interrupt that then comes or not is the
      one for a full ring unless the host filled the ring in between. */
  lemma CommandHandOver(c: nat, r: nat, h: nat, before: seq<Event>, between: seq<Event>)
    requires c <= 7 && r <= 7 && Possible(Initial(c, r, h), before, false)
    requires var s := After(Initial(c, r, h), before, false);
             && (s.pc.PFetch? || s.pc.PFetchPrevious?) && Enabled(s, Port, false)
             && Step(s, Port).pc.PFetchRelease?
             && Possible(Step(s, Port), between, false) && HostEvents(between)
    ensures var s := After(Initial(c, r, h), before, false);
            var t := After(Step(s, Port), between, false);
            var flag := s.commands[s.commandPointer].flag;
            && t.pc.PFetchRelease? && WellFormed(t) && t.commands[t.commandPointer].flag == flag
            && (t.pc.interrupt <==> flag && CommandRingFull(s))
            && ((t.pc.interrupt <==> flag && CommandRingFull(t)) <==>
                  !(flag && !CommandRingFull(s) && CommandRingFull(t)))
  {
    InitialInv(c, r, h);
    ReachableInv(Initial(c, r, h), before, false);
    hide CommandRing, ResponseRing, Pipeline, Polling;
    var s := After(Initial(c, r, h), before, false);
    LookAtCommands(s);
    StepKeepsInv(s, Port);
    HostLeavesHeldSlot(Step(s, Port), between);
  }

  /** The same for a response: the interrupt is the one for a ring without unread
      responses unless the host read the last of them in between. */
  lemma ResponseHandOver(c: nat, r: nat, h: nat, before: seq<Event>, between: seq<Event>)
    requires c <= 7 && r <= 7 && Possible(Initial(c, r, h), before, false)
    requires var s := After(Initial(c, r, h), before, false);
             && (s.pc.PPostMessage? || s.pc.PPostPrevious?) && Enabled(s, Port, false)
             && Step(s, Port).pc.PPostRelease?
             && Possible(Step(s, Port), between, false) && HostEvents(between)
    ensures var s := After(Initial(c, r, h), before, false);
            var t := After(Step(s, Port), between, false);
            var flag := s.responses[s.responsePointer].flag;
            && t.pc.PPostRelease? && WellFormed(t) && t.responses[t.responsePointer].flag == flag
            && (t.pc.interrupt <==> flag && NoResponseUnread(s))
            && ((t.pc.interrupt <==> flag && NoResponseUnread(t)) <==>
                  !(flag && !NoResponseUnread(s) && NoResponseUnread(t)))
  {
    InitialInv(c, r, h);
    ReachableInv(Initial(c, r, h), before, false);
    hide CommandRing, ResponseRing, Pipeline, Polling;
    var s := After(Initial(c, r, h), before, false);
    LookAtResponses(s);
    StepKeepsInv(s, Port);
    HostLeavesHeldSlot(Step(s, Port), between);
  }

  // ---- credits ------------------------------------------------------------

  function Credits(ms: seq<Message>): nat {
    if ms == [] then 0 else ms[0].credits + Credits(ms[1..])
  }

  lemma {:induction false} CreditsConcat(a: seq<Message>, b: seq<Message>)
    ensures Credits(a + b) == Credits(a) + Credits(b)
    decreases |a|
  {
    if a == [] {
      assert a + b == b;
    } else {
      assert (a + b)[1..] == a[1..] + b;
      CreditsConcat(a[1..], b);
    }
  }

  lemma {:induction false} CreditsAtLeast(a: seq<Message>)
    requires forall k :: 0 <= k < |a| ==> a[k].credits >= 1
    ensures Credits(a) >= |a|
  {
    if a != [] {
      CreditsAtLeast(a[1..]);
    }
  }

  /** Credits of the host, commands in flight, credits in responses not yet read
      and the credits the server still holds. */
  function TotalCredits(s: System): int
    requires |s.received| <= |s.answered|
  {
    s.hostCredits + (|s.sent| - |s.answered|) + Credits(s.answered[|s.received|..]) + s.credits
  }

  ghost predicate Balanced(s: System, h: nat) {
    && |s.received| <= |s.answered|
    && TotalCredits(s) == h + INIT_CREDITS
    && (forall k :: 0 <= k < |s.sent| ==> s.sent[k].messageType == SEQUENTIAL)
    && (forall k :: 0 <= k < |s.answered| ==> s.answered[k].credits >= 1)
  }

  ghost predicate CreditInv(s: System, h: nat) { Inv(s) && Balanced(s, h) }

  lemma ExecuteKeepsBalance(s: System, status: nat, h: nat)
    requires Balanced(s, h) && Enabled(s, Execute(status), true)
    requires s.queue != [] ==> s.queue[0] in s.sent
    ensures Balanced(Step(s, Execute(status)), h)
  {
    if s.queue != [] {
      var s' := Step(s, Execute(status));
      var unread, rsp := s.answered[|s.received|..], Respond(s.queue[0], status, s.credits);
      RespondAnswers(s.queue[0], status, s.credits);
      assert s'.answered[|s.received|..] == unread + [rsp];
      CreditsConcat(unread, [rsp]);
      assert Credits([rsp]) == rsp.credits + Credits([]);
    }
  }

  lemma ReadKeepsBalance(s: System, flag: bool, h: nat)
    requires Balanced(s, h) && Enabled(s, ReadResponse(flag), true)
    requires |s.received| < |s.answered|
    requires s.responses[s.hostResponse].msg == s.answered[|s.received|]
    ensures Balanced(Step(s, ReadResponse(flag)), h)
  {
    var s', k := Step(s, ReadResponse(flag)), |s.received|;
    var unread := s.answered[k..];
    assert s'.answered[|s'.received|..] == unread[1..];
  }

  lemma OtherStepKeepsBalance(s: System, e: Event, h: nat)
    requires Balanced(s, h) && Enabled(s, e, true)
    requires e.Port? || e.QueueCommand? || e.AskPoll?
    ensures Balanced(Step(s, e), h)
  {
  }

  /** The next response to be read is the oldest one not read yet. */
  lemma NextToRead(s: System)
    requires Inv(s) && !s.responses[s.hostResponse].own
    ensures |s.received| < |s.answered|
    ensures s.responses[s.hostResponse].msg == s.answered[|s.received|]
  {
    ReadKeepsInv(s, true);
    var k := |s.received|;
    assert !s.responses[SlotOf(k, |s.responses|)].own;
  }

  lemma StepKeepsCredits(s: System, e: Event, h: nat)
    requires CreditInv(s, h) && Enabled(s, e, true)
    ensures CreditInv(Step(s, e), h)
  {
    StepKeepsInv(s, e);
    match e
    case Execute(status) =>
      assert forall i | 0 <= i < |s.queue| :: s.queue[i] in s.sent;
      ExecuteKeepsBalance(s, status, h);
    case ReadResponse(flag) =>
      NextToRead(s);
      ReadKeepsBalance(s, flag, h);
    case _ => OtherStepKeepsBalance(s, e, h);
  }

  lemma {:induction false} ReachableCredits(s: System, es: seq<Event>, h: nat)
    requires CreditInv(s, h) && Possible(s, es, true)
    ensures CreditInv(After(s, es, true), h)
    decreases |es|
  {
    if es != [] {
      StepKeepsCredits(s, es[0], h);
      ReachableCredits(Step(s, es[0]), es[1..], h);
    }
  }

  /** Credits are conserved, whatever the interleaving. */
  lemma CreditsConserved(c: nat, r: nat, h: nat, es: seq<Event>)
    requires c <= 7 && r <= 7 && Possible(Initial(c, r, h), es, true)
    ensures Balanced(After(Initial(c, r, h), es, true), h)
  {
    InitialInv(c, r, h);
    ReachableCredits(Initial(c, r, h), es, h);
  }

  /** A host that starts with h credits and obeys them always leaves room for a
      response in a ring of more than h slots. */
  lemma AlwaysRoom(c: nat, r: nat, h: nat, es: seq<Event>)
    requires c <= 7 && r <= 7 && Possible(Initial(c, r, h), es, true)
    requires Pow2(r) >= h + 1
    ensures !After(Initial(c, r, h), es, true).pc.PNoRoom?
  {
    InitialInv(c, r, h);
    AlwaysRoomFrom(Initial(c, r, h), es, h);
  }

  lemma StepHasRoom(s: System, e: Event, h: nat)
    requires CreditInv(s, h) && Enabled(s, e, true)
    requires |s.responses| >= h + 1 && !s.pc.PNoRoom?
    ensures !Step(s, e).pc.PNoRoom? && |Step(s, e).responses| == |s.responses|
  {
    if s.pc.PPost? && e.Port? {
      PostKeepsInv(s);
      CreditsAtLeast(s.answered[|s.received|..]);
    }
  }

  lemma {:induction false} AlwaysRoomFrom(s: System, es: seq<Event>, h: nat)
    requires CreditInv(s, h) && Possible(s, es, true)
    requires |s.responses| >= h + 1 && !s.pc.PNoRoom?
    ensures !After(s, es, true).pc.PNoRoom?
    decreases |es|
  {
    if es != [] {
      StepKeepsCredits(s, es[0], h);
      StepHasRoom(s, es[0], h);
      AlwaysRoomFrom(Step(s, es[0]), es[1..], h);
    }
  }

  // ---- an interrupt that does not come ------------------------------------

  lemma Prepend(s: System, e: Event, es: seq<Event>) returns (all: seq<Event>)
    requires Enabled(s, e, true) && Possible(Step(s, e), es, true)
    ensures Possible(s, all, true) && After(s, all, true) == After(Step(s, e), es, true)
  {
    all := [e] + es;
    assert all[1..] == es;
  }

  /** The port idles with empty rings of one command and two responses. */
  ghost predicate Idle(s: System) {
    && |s.commands| == 1 && |s.responses| == 2
    && s.commandPointer == 0 && s.hostCommand == 0 && s.responsePointer < 2 && s.hostResponse < 2
    && s.pc == PTop && s.poll == Wait && s.queue == []
    && s.hostCredits > 0 && !s.commands[0].own && s.responses[s.responsePointer].own
  }

  /** The host queues one command and the port executes it. */
  lemma UpToPost(s: System, m: Message, tail: seq<Event>) returns (all: seq<Event>, s': System)
    requires Idle(s) && m.messageType == SEQUENTIAL
    requires Possible(AtPost(s, m), tail, true)
    ensures s' == AtPost(s, m)
    ensures Possible(s, all, true) && After(s, all, true) == After(s', tail, true)
  {
    var s1 := Step(s, QueueCommand(m, false));
    var s2 := Step(s1, AskPoll);
    var s3 := Step(s2, Port);
    var s4 := Step(s3, Port);
    var s5 := Step(s4, Port);
    var s6 := Step(s5, Port);
    var s7 := Step(s6, Port);
    s' := Step(s7, Execute(0));
    assert s' == AtPost(s, m);
    all := Prepend(s7, Execute(0), tail);
    all := Prepend(s6, Port, all);
    all := Prepend(s5, Port, all);
    all := Prepend(s4, Port, all);
    all := Prepend(s3, Port, all);
    all := Prepend(s2, Port, all);
    all := Prepend(s1, AskPoll, all);
    all := Prepend(s, QueueCommand(m, false), all);
  }

  ghost function AtPost(s: System, m: Message): System {
    var rsp := Respond(m, 0, s.credits);
    s.(commands := [Slot(false, true, m)], pc := PPost(rsp), poll := Run,
       credits := s.credits - Granted(m.messageType, s.credits),
       hostCredits := if s.hostCredits > 0 then s.hostCredits - 1 else 0,
       sent := s.sent + [m], answered := s.answered + [rsp],
       fetched := s.fetched + 1, asked := |s.sent| + 1)
  }

  /** The port posts an unflagged response and goes back to sleep. */
  lemma PostAndSleep(s: System, tail: seq<Event>) returns (all: seq<Event>)
    requires s.pc.PPost? && |s.commands| == 1 && |s.responses| == 2 && WellFormed(s)
    requires s.poll == Run && s.queue == []
    requires s.responses[s.responsePointer].own && !s.responses[s.responsePointer].flag
    requires Possible(Posted(s), tail, true)
    ensures Possible(s, all, true) && After(s, all, true) == After(Posted(s), tail, true)
  {
    var s1 := Step(s, Port);
    var s2 := Step(s1, Port);
    var s3 := Step(s2, Port);
    var s4 := Step(s3, Execute(0));
    assert Step(s4, Port) == Posted(s);
    all := Prepend(s4, Port, tail);
    all := Prepend(s3, Execute(0), all);
    all := Prepend(s2, Port, all);
    all := Prepend(s1, Port, all);
    all := Prepend(s, Port, all);
  }

  ghost function Posted(s: System): System
    requires s.pc.PPost? && |s.responses| == 2 && s.responsePointer < 2
  {
    s.(responses := s.responses[s.responsePointer := Slot(false, true, s.pc.rsp)],
       responsePointer := 1 - s.responsePointer, posted := s.posted + 1,
       pc := PTop, poll := Wait)
  }

  /** Posting into a flagged slot while the host reads the response before it. */
  lemma PostUnnoticed(s: System) returns (all: seq<Event>)
    requires s.pc.PPost? && |s.commands| == 1 && |s.responses| == 2 && WellFormed(s)
    requires s.responses[s.responsePointer].own && s.responses[s.responsePointer].flag
    requires !s.responses[1 - s.responsePointer].own
    requires s.hostResponse == 1 - s.responsePointer && s.posted == |s.received| + 1
    ensures Possible(s, all, true) && Missed(After(s, all, true))
  {
    var s1 := Step(s, Port);
    var s2 := Step(s1, Port);
    assert UdaPort.Previous(s.responsePointer, 2) == 1 - s.responsePointer;
    var s3 := Step(s2, Port);
    assert s3.pc == PPostRelease(s.pc.rsp, false);
    all := Prepend(s3, ReadResponse(true), []);
    all := Prepend(s2, Port, all);
    all := Prepend(s1, Port, all);
    all := Prepend(s, Port, all);
  }

  /** The test for a transition and the handing over of the response are two
      steps.  A host that reads the last waiting response in between, finds the
      ring empty and waits for an interrupt gets none for the new response,
      flagged though it is. */
  lemma TransitionCanBeMissed()
    ensures exists es :: Possible(Initial(0, 1, 1), es, true) && Missed(After(Initial(0, 1, 1), es, true))
  {
    var m := Message(7, 0, 0, 1, 0);
    var s0 := Initial(0, 1, 1);
    assert Pow2(0) == 1 && Pow2(1) == 2;
    var t0 := AtPost(s0, m);
    var s1 := Posted(t0);
    var s2 := Step(s1, ReadResponse(true));
    var t2 := AtPost(s2, m);
    var s3 := Posted(t2);
    var es := PostUnnoticed(AtPost(s3, m));
    var t;
    es, t := UpToPost(s3, m, es);
    es := PostAndSleep(t2, es);
    es, t := UpToPost(s2, m, es);
    es := Prepend(s1, ReadResponse(true), es);
    es := PostAndSleep(t0, es);
    es, t := UpToPost(s0, m, es);
  }

  ghost predicate Missed(s: System) {
    && WellFormed(s)
    && s.pc.PPostRelease? && !s.pc.interrupt
    && s.posted == |s.received| && s.responses[s.responsePointer].flag
  }

  /** The command ring has the same gap: a host that fills the ring after the look
      gets no interrupt when the flagged slot comes back. */
  lemma CommandTransitionCanBeMissed()
    ensures exists es ::
              Possible(Initial(1, 1, 2), es, true) && CommandMissed(After(Initial(1, 1, 2), es, true))
  {
    var m := Message(7, 0, 0, 1, 0);
    var s0 := Initial(1, 1, 2);
    assert Pow2(1) == 2;
    var s1 := Step(s0, QueueCommand(m, true));
    var s2 := Step(s1, AskPoll);
    var s3 := Step(s2, Port);
    var s4 := Step(s3, Port);
    var s5 := Step(s4, Port);
    assert UdaPort.Previous(0, 2) == 1;
    var s6 := Step(s5, Port);
    var s7 := Step(s6, QueueCommand(m, true));
    assert CommandMissed(s7);
    var es := Prepend(s6, QueueCommand(m, true), []);
    es := Prepend(s5, Port, es);
    es := Prepend(s4, Port, es);
    es := Prepend(s3, Port, es);
    es := Prepend(s2, Port, es);
    es := Prepend(s1, AskPoll, es);
    es := Prepend(s0, QueueCommand(m, true), es);
  }

  ghost predicate CommandMissed(s: System) {
    && WellFormed(s)
    && s.pc.PFetchRelease? && !s.pc.interrupt
    && CommandRingFull(s) && s.commands[s.commandPointer].flag
  }
}
