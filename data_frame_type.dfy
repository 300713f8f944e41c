/**
 * WebSocketDataFrameType: the data-frame half of the frame types, whose
 * opcodes have the high bit of the 4-bit opcode clear (section 5.6 of
 * RFC 6455).
 */
module DataFrameTypes {
  import FrameTypes
  import ControlFrameTypes

  datatype WebSocketDataFrameType = Continuation | Text | Binary {
    /** getOpcode(): the constant the enum constructor was given. */
    function GetOpcode(): (opcode: int)
      ensures 0 <= opcode < 0x8
    {
      match this
      case Continuation => 0x0
      case Text => 0x1
      case Binary => 0x2
    }

    /** The same-named WebSocketFrameType constant. */
    function AsFrameType(): (t: FrameTypes.WebSocketFrameType)
      ensures t.GetOpcode() == GetOpcode()
    {
      match this
      case Continuation => FrameTypes.Continuation
      case Text => FrameTypes.Text
      case Binary => FrameTypes.Binary
    }
  }

  /** The three data opcodes are distinct. */
  lemma DataOpcodeInjective(s: WebSocketDataFrameType, t: WebSocketDataFrameType)
    requires s.GetOpcode() == t.GetOpcode()
    ensures s == t
  {
    FrameTypes.OpcodeInjective(s.AsFrameType(), t.AsFrameType());
  }

  /** No data opcode is a control opcode. */
  lemma DataControlDisjoint(d: WebSocketDataFrameType, c: ControlFrameTypes.WebSocketControlFrameType)
    ensures d.GetOpcode() != c.GetOpcode()
    ensures d.AsFrameType() != c.AsFrameType()
  {
  }

  /** Every frame type is exactly one of a data type or a control type. */
  lemma DataOrControl(t: FrameTypes.WebSocketFrameType)
    ensures (exists d: WebSocketDataFrameType :: d.AsFrameType() == t) <==> t.GetOpcode() < 0x8
  {
    if t.GetOpcode() < 0x8 {
      var d := match t
        case Continuation => Continuation
        case Text => Text
        case _ => Binary;
      assert d.AsFrameType() == t;
    }
  }
}
