/**
 * WebSocketControlFrameType: the control-frame half of the frame types,
 * whose opcodes have the high bit of the 4-bit opcode set (section 5.5 of
 * RFC 6455).
 */
module ControlFrameTypes {
  import FrameTypes

  datatype WebSocketControlFrameType = ConnectionClose | Ping | Pong {
    /** getOpcode(): the constant the enum constructor was given. */
    function GetOpcode(): (opcode: int)
      ensures 0x8 <= opcode < 16
    {
      match this
      case ConnectionClose => 0x8
      case Ping => 0x9
      case Pong => 0xA
    }

    /** The same-named WebSocketFrameType constant. */
    function AsFrameType(): (t: FrameTypes.WebSocketFrameType)
      ensures t.GetOpcode() == GetOpcode()
    {
      match this
      case ConnectionClose => FrameTypes.ConnectionClose
      case Ping => FrameTypes.Ping
      case Pong => FrameTypes.Pong
    }
  }

  /** The three control opcodes are distinct. */
  lemma ControlOpcodeInjective(s: WebSocketControlFrameType, t: WebSocketControlFrameType)
    requires s.GetOpcode() == t.GetOpcode()
    ensures s == t
  {
    FrameTypes.OpcodeInjective(s.AsFrameType(), t.AsFrameType());
  }

  /** A frame type is a control type exactly when its opcode is at least 8. */
  lemma ControlTypesAreHighOpcodes(t: FrameTypes.WebSocketFrameType)
    ensures t.GetOpcode() >= 0x8 <==> exists c: WebSocketControlFrameType :: c.AsFrameType() == t
  {
    if t.GetOpcode() >= 0x8 {
      var c := match t
        case ConnectionClose => ConnectionClose
        case Ping => Ping
        case _ => Pong;
      assert c.AsFrameType() == t;
    }
  }
}
