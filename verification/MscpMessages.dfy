/** MSCP messages as the port and the server see them (uda.hpp, mscp_server.hpp). */
module MscpMessages {
  import opened Words

  /** `code` is the opcode of a command and the endcode of a response. */
  datatype Message = Message(reference: nat, messageType: nat, credits: nat, code: nat, status: nat)

  const SEQUENTIAL := 0
  const END := 0x80
  const MAX_CREDITS := 14
  const INIT_CREDITS := 1

  datatype Operation =
    | Abort | Access | Available | CompareHostData | DetermineAccessPaths | Erase | GetCommandStatus
    | GetUnitStatus | Online | Read | Replace | SetControllerCharacteristics | SetUnitCharacteristics | Write

  /** enum Opcodes */
  function Opcode(op: Operation): nat {
    match op
    case Abort => 0x01
    case Access => 0x10
    case Available => 0x08
    case CompareHostData => 0x20
    case DetermineAccessPaths => 0x0b
    case Erase => 0x12
    case GetCommandStatus => 0x02
    case GetUnitStatus => 0x03
    case Online => 0x09
    case Read => 0x21
    case Replace => 0x14
    case SetControllerCharacteristics => 0x04
    case SetUnitCharacteristics => 0x0a
    case Write => 0x22
  }

  /** The opcodes Poll dispatches on. */
  predicate Implemented(opcode: nat) {
    opcode in {0x01, 0x02, 0x03, 0x04, 0x08, 0x09, 0x0a, 0x0b, 0x10, 0x12, 0x14, 0x20, 0x21, 0x22}
  }

  /** These are the opcodes of the operations and no others, each with its own. */
  lemma EveryOperationHasItsOpcode(opcode: nat, x: Operation, y: Operation)
    ensures Implemented(opcode) <==> exists op :: Opcode(op) == opcode
    ensures Opcode(x) == Opcode(y) ==> x == y
  {
    if Implemented(opcode) {
      var op :=
        if opcode == 0x01 then Abort else if opcode == 0x02 then GetCommandStatus
        else if opcode == 0x03 then GetUnitStatus else if opcode == 0x04 then SetControllerCharacteristics
        else if opcode == 0x08 then Available else if opcode == 0x09 then Online
        else if opcode == 0x0a then SetUnitCharacteristics else if opcode == 0x0b then DetermineAccessPaths
        else if opcode == 0x10 then Access else if opcode == 0x12 then Erase
        else if opcode == 0x14 then Replace else if opcode == 0x20 then CompareHostData
        else if opcode == 0x21 then Read else Write;
      assert Opcode(op) == opcode;
    }
  }

  /** The endcode: the END bit joined to an implemented opcode (none of which has
      it), END alone for any other. */
  function EndCode(opcode: nat): nat {
    if Implemented(opcode) then opcode + END else END
  }

  /** The END bit is in none of the opcodes, so joining it adds it. */
  lemma EndBitJoins(opcode: nat)
    requires Implemented(opcode)
    ensures Or(opcode, END) == opcode + 0x80
  {
    Pow2Values();
    OrDisjoint(1, opcode, 7, END);
  }

  /** The credits a response of the given type carries, out of the server's. */
  function Granted(messageType: nat, credits: nat): nat {
    if messageType == SEQUENTIAL then (if credits <= MAX_CREDITS then credits else MAX_CREDITS) else 0
  }

  /** The message buffer after the command in it has been executed. */
  function Respond(command: Message, status: nat, credits: nat): Message {
    var grant := if command.messageType == SEQUENTIAL
                 then Granted(SEQUENTIAL, credits) + 1 else 0;
    command.(code := EndCode(command.code), status := status, credits := grant)
  }

  /** r is a response to c: it has its reference number, and as endcode 0x80 joined to
      the opcode, or alone if no operation has that opcode. */
  ghost predicate Answers(r: Message, c: Message) {
    && r.reference == c.reference
    && ((exists op :: Opcode(op) == c.code) ==> r.code == Or(c.code, 0x80))
    && ((forall op :: Opcode(op) != c.code) ==> r.code == 0x80)
  }

  lemma RespondAnswers(c: Message, status: nat, credits: nat)
    ensures var r := Respond(c, status, credits);
            && Answers(r, c) && r.status == status && r.credits <= 15
            && (c.messageType == SEQUENTIAL ==>
                  && r.credits == 1 + (if credits < 14 then credits else 14)
                  && credits - Granted(c.messageType, credits) + r.credits == credits + 1)
            && (c.messageType != SEQUENTIAL ==> r.credits == 0)
  {
    EveryOperationHasItsOpcode(c.code, Read, Read);
    if Implemented(c.code) {
      EndBitJoins(c.code);
    }
    hide Implemented, Opcode, Or;
  }

  // ---- the text of a message ----------------------------------------------

  /** What the buffer of a message holds where none was read. */
  const FILLER: Word := 0xc3c3

  function TextWord(text: seq<Word>, i: nat): Word { if i < |text| then text[i] else FILLER }

  /** The fields in the words from the length word on: credits and type, reference
      number, opcode or endcode, modifiers or status. */
  function MessageOf(text: seq<Word>): Message {
    Message(TextWord(text, 2) + 0x1_0000 * TextWord(text, 3), (TextWord(text, 1) / 0x10) % 0x10,
            TextWord(text, 1) % 0x10, TextWord(text, 6) % 0x100, TextWord(text, 7))
  }

  /** The text of a message as the host lays it out, with the fields no part of Message
      and the parameters as it likes. */
  function TextOf(m: Message, length: Word, connection: Byte, unit: Word, reserved: Word, flags: Byte,
                  parameters: seq<Word>): seq<Word>
    requires Fits(m)
  {
    [length, m.credits + 0x10 * m.messageType + 0x100 * connection,
     m.reference % 0x1_0000, m.reference / 0x1_0000, unit, reserved, m.code + 0x100 * flags, m.status] + parameters
  }

  predicate Fits(m: Message) {
    && m.reference < 0x1_0000_0000 && m.messageType < 0x10 && m.credits < 0x10
    && m.code < 0x100 && m.status < 0x1_0000
  }

  /** From that text the port and the server take the message. */
  lemma TextIsRead(m: Message, length: Word, connection: Byte, unit: Word, reserved: Word, flags: Byte,
                   parameters: seq<Word>)
    requires Fits(m)
    ensures MessageOf(TextOf(m, length, connection, unit, reserved, flags, parameters)) == m
  {
    var w: int := m.credits + 0x10 * m.messageType + 0x100 * connection;
    QuotientIs(w, 0x10, m.messageType + 0x10 * connection, m.credits);
    QuotientIs(m.messageType + 0x10 * connection, 0x10, connection, m.messageType);
    QuotientIs(m.code + 0x100 * flags, 0x100, flags, m.code);
  }

  /** The header of the response, written over that of the command; its parameters and
      length are those of the operation. */
  ghost predicate WritesResponse(text: seq<Word>, response: seq<Word>, status: Word, flags: nat, credits: nat)
    requires flags < 0x100
  {
    var sequential := (TextWord(text, 1) / 0x10) % 0x10 == SEQUENTIAL;
    var grant := if sequential then Granted(SEQUENTIAL, credits) + 1 else 0;
    && TextWord(response, 1) == TextWord(text, 1) - TextWord(text, 1) % 0x10 + grant
    && TextWord(response, 2) == TextWord(text, 2) && TextWord(response, 3) == TextWord(text, 3)
    && TextWord(response, 6) == EndCode(TextWord(text, 6) % 0x100) + 0x100 * flags
    && TextWord(response, 7) == status
  }

  /** It is the text of the response to the message of the command. */
  lemma TextResponds(text: seq<Word>, response: seq<Word>, status: Word, flags: nat, credits: nat)
    requires flags < 0x100 && WritesResponse(text, response, status, flags, credits)
    ensures MessageOf(response) == Respond(MessageOf(text), status, credits)
  {
    var w, q := TextWord(text, 1), TextWord(text, 1) / 0x10;
    var grant := if q % 0x10 == SEQUENTIAL then Granted(SEQUENTIAL, credits) + 1 else 0;
    QuotientIs(w - w % 0x10 + grant, 0x10, q, grant);
    var code := EndCode(TextWord(text, 6) % 0x100);
    QuotientIs(code + 0x100 * flags, 0x100, flags, code);
  }
}
