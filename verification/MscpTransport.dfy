/** The step system of the transport protocol against the port's memory: without
    interference the steps of GetNextCommand and PostResponse are what the port does
    to its descriptors in one go. */
module MscpTransport {
  import opened MscpMessages
  import opened MscpProtocol
  import opened Words
  import UdaPort

  predicate SameBits(d: UdaPort.Descriptor, slot: Slot) { d.own == slot.own && d.flag == slot.flag }

  ghost predicate Agree(ring: seq<UdaPort.Descriptor>, responses: seq<Slot>, commands: seq<Slot>) {
    && |ring| == |responses| + |commands|
    && (forall i {:trigger responses[i]} | 0 <= i < |responses| :: SameBits(ring[i], responses[i]))
    && (forall i {:trigger commands[i]} | 0 <= i < |commands| :: SameBits(ring[|responses| + i], commands[i]))
  }

  /** The slots of the step system are the descriptors in memory. */
  ghost predicate Shows(p: UdaPort.Port, s: System) {
    && UdaPort.RingsExist(p) && WellFormed(s)
    && p.commandLength == |s.commands| && p.responseLength == |s.responses|
    && p.commandPointer == s.commandPointer && p.responsePointer == s.responsePointer
    && Agree(UdaPort.Rings(p), s.responses, s.commands)
  }

  /** The handshake ends with the rings from which the step system starts, of the
      lengths the first word of the host encodes. */
  lemma HandshakeStartsProtocol(h: UdaPort.Handshake, es: seq<UdaPort.Event>, hostCredits: nat)
    requires UdaPort.Start(h) && UdaPort.Possible(h, es)
    requires UdaPort.After(h, es).port.step == UdaPort.Complete && UdaPort.RingsExist(UdaPort.After(h, es).port)
    ensures var h' := UdaPort.After(h, es);
            && h'.words != []
            && Shows(h'.port, Initial(h'.words[0] / 0x800 % 8, h'.words[0] / 0x100 % 8, hostCredits))
  {
    hide UdaPort.After, UdaPort.Cleared, UdaPort.DescriptorAt;
    UdaPort.HandshakeCompletes(h, es);
    var p := UdaPort.After(h, es).port;
    ClearedIsInitial(p, h.port.memory);
  }

  lemma ClearedIsInitial(p: UdaPort.Port, before: UdaPort.Memory)
    requires UdaPort.RingsExist(p) && p.memory == UdaPort.Cleared(p, before)
    requires p.commandPointer == 0 && p.responsePointer == 0
    ensures forall i {:trigger UdaPort.Rings(p)[i]} | 0 <= i < p.responseLength + p.commandLength ::
              UdaPort.Rings(p)[i] == UdaPort.Descriptor(0, false, i < p.responseLength)
  {
    hide UdaPort.Cleared, UdaPort.DescriptorAt;
    UdaPort.ClearedLayout(p, before);
    var n := p.responseLength;
    forall i | 0 <= i < n + p.commandLength
      ensures UdaPort.Rings(p)[i] == UdaPort.Descriptor(0, false, i < n)
    {
      assert UdaPort.HasDescriptor(p.memory, UdaPort.SlotAddress(p.ringBase, i));
      if i < n {
        assert UdaPort.ResponseAddress(p, i) == UdaPort.SlotAddress(p.ringBase, i);
      } else {
        assert UdaPort.CommandAddress(p, i - n) == UdaPort.SlotAddress(p.ringBase, i);
      }
    }
  }

  lemma HandedBackAgrees(ring: seq<UdaPort.Descriptor>, responses: seq<Slot>, commands: seq<Slot>, k: nat, m: Message)
    requires Agree(ring, responses, commands) && k < |ring|
    ensures var ring' := ring[k := ring[k].(flag := true, own := false)];
            && (k < |responses| ==> Agree(ring', responses[k := Slot(false, true, m)], commands))
            && (k >= |responses| ==> Agree(ring', responses, commands[k - |responses| := Slot(false, true, m)]))
  {
  }

  /** The port's steps from the scan of the ring to the slot that is handed back,
      with nothing in between. */
  function FetchDecision(s: System): System
    requires WellFormed(s) && s.pc.PScan? && s.commands[s.commandPointer].own
  {
    var t := PortStep(PortStep(s));
    if t.pc.PFetchPrevious? then PortStep(t) else t
  }

  function PostDecision(s: System): System
    requires WellFormed(s) && s.pc.PPost? && s.responses[s.responsePointer].own
  {
    var t := PortStep(PortStep(s));
    if t.pc.PPostPrevious? then PortStep(t) else t
  }

  lemma CommandSlot(p: UdaPort.Port, s: System, i: nat)
    requires Shows(p, s) && i < |s.commands|
    ensures UdaPort.HasDescriptor(p.memory, UdaPort.CommandAddress(p, i))
    ensures SameBits(UdaPort.DescriptorAt(p.memory, UdaPort.CommandAddress(p, i)), s.commands[i])
  {
    assert UdaPort.HasDescriptor(p.memory, UdaPort.SlotAddress(p.ringBase, |s.responses| + i));
    assert SameBits(UdaPort.Rings(p)[|s.responses| + i], s.commands[i]);
  }

  lemma ResponseSlot(p: UdaPort.Port, s: System, i: nat)
    requires Shows(p, s) && i < |s.responses|
    ensures UdaPort.HasDescriptor(p.memory, UdaPort.ResponseAddress(p, i))
    ensures SameBits(UdaPort.DescriptorAt(p.memory, UdaPort.ResponseAddress(p, i)), s.responses[i])
  {
    assert UdaPort.HasDescriptor(p.memory, UdaPort.SlotAddress(p.ringBase, i));
    assert SameBits(UdaPort.Rings(p)[i], s.responses[i]);
  }

  /** GetNextCommand finds nothing exactly when the scan ends. */
  lemma NothingEndsScan(p: UdaPort.Port, s: System)
    requires Shows(p, s) && s.pc.PScan?
    ensures UdaPort.NextCommand(p) == UdaPort.Nothing <==> PortStep(s).pc == PExec
  {
    CommandSlot(p, s, s.commandPointer);
  }

  /** What the steps of a fetch decide from the slots. */
  lemma FetchDecides(s: System)
    requires WellFormed(s) && s.pc.PScan? && s.commands[s.commandPointer].own
    ensures var d, n := s.commands[s.commandPointer], |s.commands|;
            FetchDecision(s)
            == s.(pc := PFetchRelease(d.msg,
                        d.flag && (n == 1 || s.commands[UdaPort.Previous(s.commandPointer, n)].own)))
  {
  }

  lemma PostDecides(s: System)
    requires WellFormed(s) && s.pc.PPost? && s.responses[s.responsePointer].own
    ensures var d, n := s.responses[s.responsePointer], |s.responses|;
            var previous := UdaPort.Previous(s.responsePointer, n);
            PostDecision(s)
            == s.(responses := s.responses[s.responsePointer := d.(msg := s.pc.rsp)],
                  pc := PPostRelease(s.pc.rsp, d.flag && (n == 1 || s.responses[previous].own)))
  {
    var n := |s.responses|;
    var previous := UdaPort.Previous(s.responsePointer, n);
    var t := PortStep(PortStep(s));
    assert t.responses[previous].own == s.responses[previous].own;
  }

  lemma CommandHandedBack(p: UdaPort.Port, s: System, msg: Message, interrupt: bool)
    requires Shows(p, s) && s.commands[s.commandPointer].own
    requires UdaPort.HasDescriptor(p.memory, UdaPort.CommandAddress(p, p.commandPointer))
    ensures Shows(UdaPort.Taken(p, interrupt), PortStep(s.(pc := PFetchRelease(msg, interrupt))))
  {
    hide Agree, UdaPort.DescriptorAt, UdaPort.Rings, UdaPort.HasDescriptor, UdaPort.HandedBack, UdaPort.WriteWords;
    UdaPort.TakenMeaning(p, interrupt);
    HandedBackAgrees(UdaPort.Rings(p), s.responses, s.commands, |s.responses| + s.commandPointer,
                     s.commands[s.commandPointer].msg);
  }

  /** GetNextCommand takes the command the step system fetches: same decision about
      the interrupt, same rings afterwards. */
  lemma FetchIsTaken(p: UdaPort.Port, s: System)
    requires Shows(p, s) && s.pc.PScan? && UdaPort.NextCommand(p).Command?
    ensures s.commands[s.commandPointer].own
    ensures var t := FetchDecision(s); var interrupt := UdaPort.NextCommand(p).interrupt;
            && t.pc == PFetchRelease(s.commands[s.commandPointer].msg, interrupt)
            && WellFormed(t)
            && UdaPort.HasDescriptor(p.memory, UdaPort.CommandAddress(p, p.commandPointer))
            && Shows(UdaPort.Taken(p, interrupt), PortStep(t))
            && PortStep(t).queue == s.queue + [s.commands[s.commandPointer].msg]
  {
    hide UdaPort.Decode, UdaPort.ReadWords, UdaPort.Rings, UdaPort.RingsExist, Agree;
    CommandSlot(p, s, s.commandPointer);
    CommandSlot(p, s, UdaPort.Previous(s.commandPointer, |s.commands|));
    FetchDecides(s);
    var interrupt := UdaPort.NextCommand(p).interrupt;
    hide FetchDecision, Shows, UdaPort.DescriptorAt;
    CommandHandedBack(p, s, s.commands[s.commandPointer].msg, interrupt);
  }

  lemma ResponseHandedBack(p: UdaPort.Port, s: System, text: seq<Word>, rsp: Message, interrupt: bool)
    requires Shows(p, s) && s.responses[s.responsePointer].own
    requires UdaPort.BufferApart(p, UdaPort.Rings(p)[p.responsePointer].envelope - 4, |text|)
    requires UdaPort.HasDescriptor(p.memory, UdaPort.ResponseAddress(p, p.responsePointer))
    ensures var d := s.responses[s.responsePointer];
            Shows(UdaPort.Posted(p, text, interrupt),
                  PortStep(s.(responses := s.responses[s.responsePointer := d.(msg := rsp)],
                              pc := PPostRelease(rsp, interrupt))))
  {
    hide Agree, UdaPort.PostedMemory, UdaPort.DescriptorAt, UdaPort.Rings, UdaPort.HasDescriptor, UdaPort.BufferApart;
    UdaPort.PostedMeaning(p, text, interrupt);
    var k := s.responsePointer;
    HandedBackAgrees(UdaPort.Rings(p), s.responses, s.commands, k, rsp);
    assert s.responses[k := s.responses[k].(msg := rsp)][k := Slot(false, true, rsp)]
           == s.responses[k := Slot(false, true, rsp)];
  }

  /** PostResponse posts exactly when the step system finds room, with the same
      decision about the interrupt and the same rings afterwards. */
  lemma PostIsPosted(p: UdaPort.Port, s: System, text: seq<Word>)
    requires Shows(p, s) && s.pc.PPost?
    requires UdaPort.BufferApart(p, UdaPort.Rings(p)[p.responsePointer].envelope - 4, |text|)
    ensures UdaPort.Rings(p)[p.responsePointer].own <==> PortStep(s).pc.PPostMessage?
    ensures UdaPort.Rings(p)[p.responsePointer].own ==>
              var t := PostDecision(s); var interrupt := UdaPort.InterruptsFor(p, text);
              && t.pc == PPostRelease(s.pc.rsp, interrupt) && WellFormed(t)
              && UdaPort.HasDescriptor(p.memory, UdaPort.ResponseAddress(p, p.responsePointer))
              && Shows(UdaPort.Posted(p, text, interrupt), PortStep(t))
  {
    hide UdaPort.InterruptsFor, UdaPort.Posted, UdaPort.Decode, Agree;
    ResponseSlot(p, s, s.responsePointer);
    InterruptSeesSlot(p, s, text);
    if s.responses[s.responsePointer].own {
      PostDecides(s);
      ResponseHandedBack(p, s, text, s.pc.rsp, UdaPort.InterruptsFor(p, text));
    }
    hide PostDecision;
  }

  /** Writing the message leaves the descriptor that is looked at afterwards alone. */
  lemma InterruptSeesSlot(p: UdaPort.Port, s: System, text: seq<Word>)
    requires Shows(p, s)
    requires UdaPort.BufferApart(p, UdaPort.Rings(p)[p.responsePointer].envelope - 4, |text|)
    ensures UdaPort.InterruptsFor(p, text) <==>
              s.responses[s.responsePointer].flag
              && (|s.responses| == 1 || s.responses[UdaPort.Previous(s.responsePointer, |s.responses|)].own)
  {
    hide UdaPort.Decode, UdaPort.WriteWords, Agree;
    var i := UdaPort.Previous(s.responsePointer, |s.responses|);
    ResponseSlot(p, s, s.responsePointer);
    ResponseSlot(p, s, i);
  }

  // ---- the text of the messages -------------------------------------------

  /** The message of a command slot lies in memory, from four bytes before the envelope
      of its descriptor on. */
  ghost predicate HoldsCommand(p: UdaPort.Port, s: System, i: nat, ws: seq<Word>)
    requires Shows(p, s) && i < |s.commands|
  {
    && UdaPort.IsMessage(ws) && MessageOf(ws) == s.commands[i].msg
    && UdaPort.ReadWords(p.memory, UdaPort.Rings(p)[p.responseLength + i].envelope - 4, |ws|) == UdaPort.Some(ws)
  }

  lemma QueuedShows(p: UdaPort.Port, s: System, m: Message, ws: seq<Word>, flag: bool)
    requires Shows(p, s) && Enabled(s, QueueCommand(m, flag), false)
    requires UdaPort.BufferApart(p, UdaPort.Rings(p)[p.responseLength + s.hostCommand].envelope - 4, |ws|)
    ensures UdaPort.HasDescriptor(p.memory, UdaPort.CommandAddress(p, s.hostCommand))
    ensures var k := p.responseLength + s.hostCommand;
            var p' := p.(memory := UdaPort.Queued(p.memory, UdaPort.SlotAddress(p.ringBase, k), ws, flag));
            Shows(p', Step(s, QueueCommand(m, flag))) && UdaPort.Rings(p')[k].envelope == UdaPort.Rings(p)[k].envelope
  {
    hide UdaPort.Queued, UdaPort.BufferApart, UdaPort.DescriptorAt, UdaPort.HasDescriptor, UdaPort.Rings, Agree;
    UdaPort.QueuedRings(p, p.responseLength + s.hostCommand, ws, flag);
    HandedOverAgrees(UdaPort.Rings(p), s.responses, s.commands, s.hostCommand, flag, m);
    hide UdaPort.RingsExist;
  }

  /** The host queues a message: rings and text go along with the step system. */
  lemma HostQueuesMessage(p: UdaPort.Port, s: System, ws: seq<Word>, flag: bool)
    requires Shows(p, s) && UdaPort.IsMessage(ws) && Enabled(s, QueueCommand(MessageOf(ws), flag), false)
    requires var a := UdaPort.Rings(p)[p.responseLength + s.hostCommand].envelope - 4;
             UdaPort.BufferApart(p, a, |ws|) && UdaPort.ReadWords(p.memory, a, |ws|).Some?
    ensures UdaPort.HasDescriptor(p.memory, UdaPort.CommandAddress(p, s.hostCommand))
    ensures var d := UdaPort.CommandAddress(p, s.hostCommand);
            var p' := p.(memory := UdaPort.Queued(p.memory, d, ws, flag));
            var s' := Step(s, QueueCommand(MessageOf(ws), flag));
            && Shows(p', s') && HoldsCommand(p', s', s.hostCommand, ws)
            && s'.sent == s.sent + [MessageOf(ws)]
  {
    hide UdaPort.Queued, UdaPort.ReadWords, UdaPort.BufferApart, UdaPort.HasDescriptor, UdaPort.DescriptorAt,
         UdaPort.IsMessage, MessageOf, Agree, HoldsCommand, Step;
    QueuedShows(p, s, MessageOf(ws), ws, flag);
    var k := p.responseLength + s.hostCommand;
    UdaPort.QueuedLies(p, k, ws, flag);
    var p' := p.(memory := UdaPort.Queued(p.memory, UdaPort.SlotAddress(p.ringBase, k), ws, flag));
    SlotTakes(s, MessageOf(ws), flag);
    LiesInSlot(p', Step(s, QueueCommand(MessageOf(ws), flag)), s.hostCommand, ws);
  }

  lemma SlotTakes(s: System, m: Message, flag: bool)
    requires Enabled(s, QueueCommand(m, flag), false)
    ensures var s' := Step(s, QueueCommand(m, flag));
            && |s'.commands| == |s.commands| && s'.commands[s.hostCommand] == Slot(true, flag, m)
            && s'.sent == s.sent + [m]
  {
  }

  lemma LiesInSlot(p: UdaPort.Port, s: System, i: nat, ws: seq<Word>)
    requires Shows(p, s) && i < |s.commands| && UdaPort.IsMessage(ws) && MessageOf(ws) == s.commands[i].msg
    requires UdaPort.ReadWords(p.memory, UdaPort.Rings(p)[p.responseLength + i].envelope - 4, |ws|) == UdaPort.Some(ws)
    ensures HoldsCommand(p, s, i, ws)
  {
  }

  lemma HandedOverAgrees(ring: seq<UdaPort.Descriptor>, responses: seq<Slot>, commands: seq<Slot>, i: nat,
                         flag: bool, m: Message)
    requires Agree(ring, responses, commands) && i < |commands|
    ensures var k := |responses| + i;
            Agree(ring[k := ring[k].(flag := flag, own := true)], responses, commands[i := Slot(true, flag, m)])
  {
  }

  /** The message the step system fetches is the one that lies in memory, and that
      GetNextCommand reads. */
  lemma FetchReadsMessage(p: UdaPort.Port, s: System, ws: seq<Word>)
    requires Shows(p, s) && s.pc.PScan? && s.commands[s.commandPointer].own
    requires HoldsCommand(p, s, s.commandPointer, ws)
    ensures UdaPort.NextCommand(p).Command? && UdaPort.NextCommand(p).text == ws
    ensures var t := FetchDecision(s);
            WellFormed(t) && t.pc.PFetchRelease? && PortStep(t).queue == s.queue + [MessageOf(ws)]
  {
    hide UdaPort.ReadWords, UdaPort.DescriptorAt, UdaPort.HasDescriptor, MessageOf, UdaPort.IsMessage,
         FetchDecision, PortStep, UdaPort.NextCommand;
    assert SameBits(UdaPort.Rings(p)[p.responseLength + p.commandPointer], s.commands[s.commandPointer]);
    UdaPort.CommandFound(p, ws);
    FetchIsTaken(p, s);
  }

  /** The message the host finds in a response slot: it reads n words from the buffer
      the descriptor names. */
  ghost function FoundMessage(p: UdaPort.Port, i: nat, n: nat): UdaPort.Option<Message>
    requires UdaPort.RingsExist(p) && i < p.responseLength
  {
    match UdaPort.ReadWords(p.memory, UdaPort.Rings(p)[i].envelope - 4, n)
    case None => UdaPort.None
    case Some(text) => UdaPort.Some(MessageOf(text))
  }

  lemma TextIsFound(p: UdaPort.Port, text: seq<Word>, interrupt: bool)
    requires UdaPort.RingsExist(p) && p.responsePointer < p.responseLength
    requires UdaPort.BufferApart(p, UdaPort.Rings(p)[p.responsePointer].envelope - 4, |text|)
    requires UdaPort.ReadWords(p.memory, UdaPort.Rings(p)[p.responsePointer].envelope - 4, |text|).Some?
    ensures UdaPort.HasDescriptor(p.memory, UdaPort.ResponseAddress(p, p.responsePointer))
    ensures var p' := UdaPort.Posted(p, text, interrupt);
            UdaPort.RingsExist(p')
            && FoundMessage(p', p.responsePointer, |text|) == UdaPort.Some(MessageOf(text))
  {
    hide UdaPort.DescriptorAt, UdaPort.PostedMemory, UdaPort.ReadWords, MessageOf;
    var d := UdaPort.ResponseAddress(p, p.responsePointer);
    assert UdaPort.HasDescriptor(p.memory, d);
    UdaPort.PostedMeaning(p, text, interrupt);
    UdaPort.PostedText(p.memory, d, UdaPort.Rings(p)[p.responsePointer].envelope - 4, p.ringBase, text, interrupt);
  }

  lemma SlotIsRead(s: System, flag: bool)
    requires WellFormed(s) && s.pc.PPost? && s.responses[s.responsePointer].own
    ensures var t := PostDecision(s);
            && t.pc.PPostRelease? && WellFormed(t) && WellFormed(PortStep(t))
            && (s.hostResponse == s.responsePointer ==>
                  && Enabled(PortStep(t), ReadResponse(flag), false)
                  && Step(PortStep(t), ReadResponse(flag)).received == s.received + [s.pc.rsp])
  {
    PostDecides(s);
    hide PostDecision;
  }

  /** After PostResponse the host finds in memory the message of the response slot, and
      that is the message the step system gives it when it reads this slot. */
  lemma HostReadsMessage(p: UdaPort.Port, s: System, text: seq<Word>, flag: bool)
    requires Shows(p, s) && s.pc.PPost? && s.responses[s.responsePointer].own && MessageOf(text) == s.pc.rsp
    requires UdaPort.BufferApart(p, UdaPort.Rings(p)[p.responsePointer].envelope - 4, |text|)
    requires UdaPort.ReadWords(p.memory, UdaPort.Rings(p)[p.responsePointer].envelope - 4, |text|).Some?
    ensures UdaPort.HasDescriptor(p.memory, UdaPort.ResponseAddress(p, p.responsePointer))
    ensures var p' := UdaPort.Posted(p, text, UdaPort.InterruptsFor(p, text)); var t := PostDecision(s);
            && t.pc.PPostRelease? && WellFormed(t) && Shows(p', PortStep(t))
            && FoundMessage(p', p.responsePointer, |text|) == UdaPort.Some(s.pc.rsp)
            && (s.hostResponse == s.responsePointer ==>
                  && Enabled(PortStep(t), ReadResponse(flag), false)
                  && Step(PortStep(t), ReadResponse(flag)).received == s.received + [s.pc.rsp])
  {
    hide PostDecision, PortStep, Step, FoundMessage, MessageOf, Agree, UdaPort.InterruptsFor, UdaPort.Posted,
         UdaPort.BufferApart, UdaPort.ReadWords, UdaPort.DescriptorAt;
    TextIsFound(p, text, UdaPort.InterruptsFor(p, text));
    SlotIsRead(s, flag);
    OwnedSlotHasRoom(p, s);
    PostIsPosted(p, s, text);
  }

  lemma OwnedSlotHasRoom(p: UdaPort.Port, s: System)
    requires Shows(p, s)
    ensures UdaPort.Rings(p)[p.responsePointer].own <==> s.responses[s.responsePointer].own
  {
    ResponseSlot(p, s, s.responsePointer);
  }
}
