/** The parts of an RDM exchange that devices and controllers share. */
module Rdm {
  import opened Wire

  datatype CommandClass = Get | Set | OtherClass

  datatype NackReason =
    | UnsupportedCommandClass
    | FormatError
    | EndpointNumberInvalid
    | HardwareFault
    | UnknownUid
    | DataOutOfRange
    | UnknownPid

  datatype Reply = Ack(data: seq<byte>) | Nack(reason: NackReason)
}
