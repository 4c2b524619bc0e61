/** The error codes that the transport returns and the result record that it
    hands to every completion callback. */
module ClientTypes {
  import opened Common

  /** `TCPClientError`, in declaration order. */
  datatype ClientError =
    | NoError
    | ConnectAddressNotValid
    | ConnectClosed
    | ConnectAlreadyConnected
    | ConnectCallbackIsNull
    | ConnectSocketSubsystemIsNull
    | SendNotConnected
    | SendCallbackIsNull
    | RecvNotConnected
    | RecvCallbackIsNull
    | RecvProhibitDoubleReceiving

  /** The integer value of each enumerator: 0 for no error, then one more per
      enumerator. */
  function Code(e: ClientError): (c: int)
    ensures 0 <= c <= 10
    ensures c == 0 <==> e == NoError
  {
    match e
    case NoError => 0
    case ConnectAddressNotValid => 1
    case ConnectClosed => 2
    case ConnectAlreadyConnected => 3
    case ConnectCallbackIsNull => 4
    case ConnectSocketSubsystemIsNull => 5
    case SendNotConnected => 6
    case SendCallbackIsNull => 7
    case RecvNotConnected => 8
    case RecvCallbackIsNull => 9
    case RecvProhibitDoubleReceiving => 10
  }

  /** The enumerator an integer error code stands for, if any. */
  function FromCode(c: int): (r: Option<ClientError>)
    ensures r.Some? <==> 0 <= c <= 10
  {
    match c
    case 0 => Some(NoError)
    case 1 => Some(ConnectAddressNotValid)
    case 2 => Some(ConnectClosed)
    case 3 => Some(ConnectAlreadyConnected)
    case 4 => Some(ConnectCallbackIsNull)
    case 5 => Some(ConnectSocketSubsystemIsNull)
    case 6 => Some(SendNotConnected)
    case 7 => Some(SendCallbackIsNull)
    case 8 => Some(RecvNotConnected)
    case 9 => Some(RecvCallbackIsNull)
    case 10 => Some(RecvProhibitDoubleReceiving)
    case _ => None
  }

  /** The codes are distinct: each code names one enumerator and back. */
  lemma CodeRoundTrip(e: ClientError, c: int)
    ensures FromCode(Code(e)) == Some(e)
    ensures FromCode(c).Some? ==> Code(FromCode(c).value) == c
  {
  }

  /** `TCPAsyncResult`: the success flag, the bytes transferred and the tag
      that correlates a send completion with its request. */
  datatype AsyncResult = AsyncResult(success: bool, bytesTransferred: int32, state: int32)
}
