/** Error kinds: src/error.rs. Message texts are left out. */
module Errors {
  import opened Prelude
  import opened Coding

  datatype ProtocolError =
    | SendAfterClosing
    | ReceivedAfterClosing
    | NonZeroReservedBits
    | UnmaskedFrameFromClient
    | MaskedFrameFromServer
    | FragmentedControlFrame
    | ControlFrameTooBig
    | UnknownControlFrameType(code: byte)
    | UnknownDataFrameType(code: byte)
    | UnexpectedContinueFrame
    | ExpectedFragment(got: Data)
    | ResetWithoutClosingHandshake
    | InvalidOpcode(code: byte)
    | InvalidCloseSequence

  datatype Error =
    | ConnectionClosed
    | AlreadyClosed
    | Io(connectionReset: bool)
    | MessageTooLong(size: nat, maxSize: nat)
    | Protocol(kind: ProtocolError)
    | Utf8Error
}
