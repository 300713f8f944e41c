/**
 * WebSocketFrameType: the six frame types of section 5.2 of RFC 6455 that
 * the library recognises, each bound to its 4-bit opcode.
 */
module FrameTypes {
  import opened Common

  datatype WebSocketFrameType = Continuation | Text | Binary | ConnectionClose | Ping | Pong {
    /** getOpcode(): the constant the enum constructor was given. */
    function GetOpcode(): (opcode: int)
      ensures 0 <= opcode < 16
      ensures opcode in RecognisedOpcodes
    {
      match this
      case Continuation => 0x0
      case Text => 0x1
      case Binary => 0x2
      case ConnectionClose => 0x8
      case Ping => 0x9
      case Pong => 0xA
    }
  }

  /** The opcodes that name a frame type; 3-7 and 11-15 are reserved. */
  const RecognisedOpcodes: set<int> := {0x0, 0x1, 0x2, 0x8, 0x9, 0xA}

  /** getFrameTypeForOpcode: the inverse of getOpcode; any other int throws. */
  function GetFrameTypeForOpcode(opcode: int): (r: Result<WebSocketFrameType>)
    ensures r.Ok? <==> opcode in RecognisedOpcodes
    ensures r.Ok? ==> r.value.GetOpcode() == opcode
    ensures r.Err? ==> r.error == InvalidOpcode
  {
    match opcode
    case 0x0 => Ok(Continuation)
    case 0x1 => Ok(Text)
    case 0x2 => Ok(Binary)
    case 0x8 => Ok(ConnectionClose)
    case 0x9 => Ok(Ping)
    case 0xA => Ok(Pong)
    case _ => Err(InvalidOpcode)
  }

  /** Every constant is found again from its opcode. */
  lemma OpcodeRoundTrip(t: WebSocketFrameType)
    ensures GetFrameTypeForOpcode(t.GetOpcode()) == Ok(t)
  {
  }

  /** No two constants share an opcode. */
  lemma OpcodeInjective(s: WebSocketFrameType, t: WebSocketFrameType)
    requires s.GetOpcode() == t.GetOpcode()
    ensures s == t
  {
    OpcodeRoundTrip(s);
    OpcodeRoundTrip(t);
  }

  /** Exactly six constants: getOpcode maps them onto the recognised opcodes. */
  lemma SixConstants()
    ensures forall opcode :: opcode in RecognisedOpcodes <==>
      exists t: WebSocketFrameType :: t.GetOpcode() == opcode
  {
    forall opcode | opcode in RecognisedOpcodes
      ensures exists t: WebSocketFrameType :: t.GetOpcode() == opcode
    {
      var t := GetFrameTypeForOpcode(opcode).value;
      assert t.GetOpcode() == opcode;
    }
  }
}
