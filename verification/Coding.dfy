/** Opcodes and close codes: src/protocol/frame/coding.rs. */
module Coding {
  import opened Prelude

  datatype Data = Continue | Text | Binary | ReservedData(code: byte)

  datatype Control = Close | Ping | Pong | ReservedControl(code: byte)

  datatype OpCode = DataOp(data: Data) | ControlOp(control: Control)

  predicate IsReserved(op: OpCode) {
    match op
    case DataOp(d) => d.ReservedData?
    case ControlOp(c) => c.ReservedControl?
  }

  function OpCodeToByte(op: OpCode): byte {
    match op
    case DataOp(Continue) => 0
    case DataOp(Text) => 1
    case DataOp(Binary) => 2
    case DataOp(ReservedData(i)) => i
    case ControlOp(Close) => 8
    case ControlOp(Ping) => 9
    case ControlOp(Pong) => 10
    case ControlOp(ReservedControl(i)) => i
  }

  /** A larger byte is the source's "OpCode out of range" panic, so callers must rule it out. */
  function OpCodeFromByte(b: byte): OpCode
    requires b <= 15
  {
    if b == 0 then DataOp(Continue)
    else if b == 1 then DataOp(Text)
    else if b == 2 then DataOp(Binary)
    else if b <= 7 then DataOp(ReservedData(b))
    else if b == 8 then ControlOp(Close)
    else if b == 9 then ControlOp(Ping)
    else if b == 10 then ControlOp(Pong)
    else ControlOp(ReservedControl(b))
  }

  type u16 = n: nat | n < 0x1_0000

  datatype CloseCode =
    | Normal | Away | ProtocolViolation | Unsupported | Status | Abnormal | Invalid | Policy
    | Size | Extension | InternalError | Restart | Again | Tls
    | Reserved(code: u16) | Iana(code: u16) | Library(code: u16) | Bad(code: u16)

  predicate IsAllowed(c: CloseCode) {
    !(c.Bad? || c.Reserved? || c.Status? || c.Abnormal? || c.Tls?)
  }

  function CloseCodeToU16(c: CloseCode): u16 {
    match c
    case Normal => 1000
    case Away => 1001
    case ProtocolViolation => 1002
    case Unsupported => 1003
    case Status => 1005
    case Abnormal => 1006
    case Invalid => 1007
    case Policy => 1008
    case Size => 1009
    case Extension => 1010
    case InternalError => 1011
    case Restart => 1012
    case Again => 1013
    case Tls => 1015
    case Reserved(n) => n
    case Iana(n) => n
    case Library(n) => n
    case Bad(n) => n
  }

  function CloseCodeFromU16(n: u16): CloseCode {
    if n == 1000 then Normal
    else if n == 1001 then Away
    else if n == 1002 then ProtocolViolation
    else if n == 1003 then Unsupported
    else if n == 1005 then Status
    else if n == 1006 then Abnormal
    else if n == 1007 then Invalid
    else if n == 1008 then Policy
    else if n == 1009 then Size
    else if n == 1010 then Extension
    else if n == 1011 then InternalError
    else if n == 1012 then Restart
    else if n == 1013 then Again
    else if n == 1015 then Tls
    else if 1 <= n <= 999 then Bad(n)
    else if 1016 <= n <= 2999 then Reserved(n)
    else if 3000 <= n <= 3999 then Iana(n)
    else if 4000 <= n <= 4999 then Library(n)
    else Bad(n)
  }

  /** The code a peer sees after `c` has crossed the wire as a 16-bit number. */
  function OnTheWire(c: CloseCode): CloseCode {
    CloseCodeFromU16(CloseCodeToU16(c))
  }

  lemma OnTheWireIsStable(n: u16)
    ensures CloseCodeToU16(CloseCodeFromU16(n)) == n
  {
  }

  /** Codes the conversion from a number can produce; users may build others, such as `Iana(1000)`. */
  predicate IsCanonical(c: CloseCode) {
    match c
    case Reserved(n) => 1016 <= n <= 2999
    case Iana(n) => 3000 <= n <= 3999
    case Library(n) => 4000 <= n <= 4999
    case Bad(n) => n < 1000 || n == 1004 || n == 1014 || n >= 5000
    case _ => true
  }

  /** A code a user can build that arrives as another. */
  lemma CodeThatChanges()
    ensures OnTheWire(Iana(1000)) == Normal && OnTheWire(Normal) == Normal
  {
  }

  /** Exactly the canonical codes arrive as they were sent. */
  lemma CodeSurvivesIffCanonical(c: CloseCode)
    ensures OnTheWire(c) == c <==> IsCanonical(c)
    ensures IsCanonical(OnTheWire(c)) && OnTheWire(OnTheWire(c)) == OnTheWire(c)
  {
    OnTheWireIsStable(CloseCodeToU16(c));
  }
}
