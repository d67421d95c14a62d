/**
  The query session of a2s_query.c: the socket reduced to an open/closed flag
  and a log of the datagrams sent, and `a2s_query_info` as one exchange of at
  most two requests and two replies through a reused 4096-byte buffer. Send
  and receive outcomes are parameters: the datagrams the server returns, a
  receive timeout, or a failed system call.
 */
module QuerySession {
  import opened Wire
  import opened StringReader
  import opened Status
  import opened InfoDecoder
  import opened InfoRecordStore

  /** What one `recvfrom` yields. */
  datatype Reception = Datagram(bytes: seq<byte>) | TimedOut | ReceiveError

  /** The bytes of a datagram that `recvfrom` stores: a longer datagram is cut at the buffer size. */
  function Received(d: seq<byte>): (r: seq<byte>)
    ensures |r| <= ReceiveBufferSize && |r| <= |d| && r == d[..|r|]
    ensures |d| <= ReceiveBufferSize ==> r == d
    ensures |d| > ReceiveBufferSize ==> |r| == ReceiveBufferSize
  {
    if |d| <= ReceiveBufferSize then d else d[..ReceiveBufferSize]
  }

  /** The result code, the record on success, and the datagrams handed to the network. */
  datatype Outcome = Outcome(code: int, info: Option<InfoRecord>, sent: seq<seq<byte>>)

  /**
    One `a2s_query_info` call on an open session: send the request, receive
    the first reply, and after a challenge send the retry and receive the
    second reply. Only the first receive reports a timeout (-2); a failed
    send, a failed second receive and every decode failure give -1.
   */
  function Exchange(sendOk: bool, first: Reception, retrySendOk: bool, second: Reception): (o: Outcome)
    ensures o.sent == [] <==> !sendOk
    ensures |o.sent| == 2 <==>
      sendOk && first.Datagram? && DecodeFirst(Received(first.bytes)).Retry? && retrySendOk
    ensures o.info.Some? && |o.sent| == 1 ==>
      first.Datagram? && DecodeFirst(Received(first.bytes)) == Ok(o.info.value)
    ensures o.info.Some? && |o.sent| == 2 ==>
      second.Datagram? && DecodeSecond(Received(second.bytes)) == Ok(o.info.value)
  {
    if !sendOk then Outcome(-1, None, [])
    else
      match first
      case TimedOut => Outcome(-2, None, [InfoRequest])
      case ReceiveError => Outcome(-1, None, [InfoRequest])
      case Datagram(d) =>
        match DecodeFirst(Received(d))
        case Err => Outcome(-1, None, [InfoRequest])
        case Ok(r) => Outcome(0, Some(r), [InfoRequest])
        case Retry(request) =>
          if !retrySendOk then Outcome(-1, None, [InfoRequest])
          else if !second.Datagram? then Outcome(-1, None, [InfoRequest, request])
          else
            match DecodeSecond(Received(second.bytes))
            case Ok(r) => Outcome(0, Some(r), [InfoRequest, request])
            case _ => Outcome(-1, None, [InfoRequest, request])
  }

  /** The result codes: 0 exactly with a record, -2 exactly for a timeout on the first receive. */
  lemma ExchangeCodes(sendOk: bool, first: Reception, retrySendOk: bool, second: Reception)
    ensures var o := Exchange(sendOk, first, retrySendOk, second);
      && o.code in {0, -1, -2}
      && (o.code == 0 <==> o.info.Some?)
      && (o.code == -2 <==> sendOk && first.TimedOut?)
  {
  }

  /**
    Exactly one retry at most: the request goes first, and a second datagram
    is sent only after a challenge, as the request followed by the four
    challenge bytes of the first reply.
   */
  lemma ExchangeSends(sendOk: bool, first: Reception, retrySendOk: bool, second: Reception)
    ensures var o := Exchange(sendOk, first, retrySendOk, second);
      && |o.sent| <= 2
      && (|o.sent| >= 1 ==> o.sent[0] == InfoRequest)
      && (|o.sent| == 2 ==>
            && first.Datagram? && DecodeFirst(Received(first.bytes)).Retry?
            && |o.sent[1]| == 29 && o.sent[1][..25] == InfoRequest
            && o.sent[1][25..] == Received(first.bytes)[5..9])
  {
  }

  /** A record obtained from either reply is well formed and has a known status. */
  lemma ExchangeWellFormed(sendOk: bool, first: Reception, retrySendOk: bool, second: Reception)
    requires Exchange(sendOk, first, retrySendOk, second).info.Some?
    ensures WellFormed(Exchange(sendOk, first, retrySendOk, second).info.value)
    ensures Exchange(sendOk, first, retrySendOk, second).info.value.status != Unknown
  {
    var d := Received(first.bytes);
    if DecodeFirst(d).Ok? {
      DecodeFirstWellFormed(d);
    } else {
      var d2 := Received(second.bytes);
      DecodeBodyWellFormed(d2, |d2|, d2[4]);
    }
  }

  /** A server that answers with its record directly is queried with a single request. */
  lemma ExchangeOfEncoded(r: InfoRecord, retrySendOk: bool, second: Reception)
    requires WellFormed(r) && |Encode(r)| <= ReceiveBufferSize
    ensures Exchange(true, Datagram(Encode(r)), retrySendOk, second) == Outcome(0, Some(r), [InfoRequest])
  {
    DecodeEncode(r);
  }

  /** A challenge reply carrying the four bytes `c` asks for the request followed by `c`. */
  lemma ChallengeReplyRetries(c: seq<byte>)
    requires |c| == 4
    ensures DecodeFirst([0xFF, 0xFF, 0xFF, 0xFF, ChallengeResponse] + c) == Retry(InfoRequest + c)
  {
    var d := [0xFF, 0xFF, 0xFF, 0xFF, ChallengeResponse] + c;
    assert HasHeader(d) && d[4] == ChallengeResponse && d[5..9] == c;
  }

  /** The reply to the retry, when it is an encoded record, decodes to that record. */
  lemma SecondReplyOfEncoded(r: InfoRecord)
    requires WellFormed(r)
    ensures DecodeSecond(Encode(r)) == Ok(r)
  {
    EncodedHeader(r);
    EncodedBody(r);
  }

  /**
    The challenged round trip: a server that first answers with a challenge
    and then with its encoded record is sent the request and then the request
    with the challenge bytes, and the query yields that record.
   */
  lemma ExchangeAfterChallenge(c: seq<byte>, r: InfoRecord)
    requires |c| == 4 && WellFormed(r) && |Encode(r)| <= ReceiveBufferSize
    ensures Exchange(true, Datagram([0xFF, 0xFF, 0xFF, 0xFF, ChallengeResponse] + c), true, Datagram(Encode(r)))
         == Outcome(0, Some(r), [InfoRequest, InfoRequest + c])
  {
    ChallengeReplyRetries(c);
    SecondReplyOfEncoded(r);
  }

  /** `recvfrom` into the reused buffer: the datagram overwrites its front, the rest keeps its old bytes. */
  method Receive(buffer: array<byte>, d: seq<byte>) returns (received: int)
    requires buffer.Length == ReceiveBufferSize
    modifies buffer
    ensures received == |Received(d)| && buffer[..received] == Received(d)
    ensures buffer[received..] == old(buffer[received..])
  {
    var r := Received(d);
    received := |r|;
    forall i | 0 <= i < received {
      buffer[i] := r[i];
    }
  }

  class Session {
    /** Whether the socket is open (`sockfd >= 0`). */
    var open: bool
    /** The datagrams sent so far, oldest first. */
    var sent: seq<seq<byte>>

    constructor ()
      ensures !open && sent == []
    {
      open := false;
      sent := [];
    }

    /**
      `a2s_query_init`: nothing to do when already open; otherwise the socket
      is open afterwards exactly when its setup (`socket`, `setsockopt`,
      `inet_pton`) succeeds, reported as `setupOk`.
     */
    method Init(setupOk: bool) returns (code: int)
      modifies this
      ensures code == 0 || code == -1
      ensures old(open) ==> code == 0 && open
      ensures !old(open) ==> (code == 0 <==> setupOk) && (open <==> setupOk)
      ensures sent == old(sent)
    {
      if open {
        return 0;
      }
      if !setupOk {
        return -1;
      }
      open := true;
      return 0;
    }

    /** `a2s_query_cleanup`: the socket is closed, whether or not it was open. */
    method Cleanup()
      modifies this
      ensures !open && sent == old(sent)
    {
      if open {
        open := false;
      }
    }

    /**
      `a2s_query_info`: -1 on a closed session; otherwise the code, the sent
      datagrams and, on success, the record of `Exchange`.
     */
    method QueryInfo(info: Info, sendOk: bool, first: Reception, retrySendOk: bool, second: Reception)
      returns (code: int)
      requires info.Valid()
      modifies this, info, info.name, info.mapName, info.folder, info.game, info.version
      ensures open == old(open)
      ensures !old(open) ==> code == -1 && sent == old(sent)
      ensures old(open) ==>
        var o := Exchange(sendOk, first, retrySendOk, second);
        && code == o.code
        && sent == old(sent) + o.sent
        && (code == 0 ==> info.Value() == o.info.value)
    {
      if !open || !sendOk {
        return -1;
      }
      sent := sent + [InfoRequest];
      if first.TimedOut? {
        return -2;
      }
      if first.ReceiveError? {
        return -1;
      }
      var buffer := new byte[ReceiveBufferSize];
      var received := Receive(buffer, first.bytes);
      var retry, request;
      code, retry, request := FirstReplyInto(buffer, received, info, first.bytes);
      if !retry {
        return;
      }
      if !retrySendOk {
        return -1;
      }
      sent := sent + [request];
      assert sent == old(sent) + [InfoRequest, request];
      if !second.Datagram? {
        return -1;
      }
      received := Receive(buffer, second.bytes);
      code := DecodeSecondInto(buffer, received, buffer[4], info, second.bytes);
    }
  }

  /**
    The handling of the first reply (a2s_query.c:160-172 and 199-290): a
    challenge yields the retry request built from its four challenge bytes;
    any other reply is decoded into `info`.
   */
  method FirstReplyInto(buffer: array<byte>, received: int, info: Info, d: seq<byte>)
    returns (code: int, retry: bool, request: seq<byte>)
    requires info.Valid() && buffer.Length == ReceiveBufferSize
    requires received == |Received(d)| && buffer[..received] == Received(d)
    modifies info, info.name, info.mapName, info.folder, info.game, info.version
    ensures retry <==> DecodeFirst(Received(d)).Retry?
    ensures retry ==> request == DecodeFirst(Received(d)).request
    ensures !retry ==> (code == 0 || code == -1) && (code == 0 <==> DecodeFirst(Received(d)).Ok?)
    ensures !retry && code == 0 ==> info.Value() == DecodeFirst(Received(d)).info
  {
    ghost var r := Received(d);
    retry, request := false, [];
    if received < 5 || buffer[0] != 0xFF || buffer[1] != 0xFF || buffer[2] != 0xFF || buffer[3] != 0xFF {
      return -1, false, [];
    }
    assert HasHeader(r);
    var responseType := buffer[4];
    if responseType == ChallengeResponse {
      if received < 9 {
        return -1, false, [];
      }
      request := InfoRequest + buffer[5..9];
      assert buffer[5..9] == r[5..9];
      return 0, true, request;
    }
    DecodeBodyLocal(buffer[..], r, received, responseType);
    code := DecodeInto(buffer, received, responseType, info);
  }

  /**
    The decode after the retry: the type byte is whatever the buffer holds at
    index 4, the first reply's when the second datagram is shorter.
   */
  method DecodeSecondInto(buffer: array<byte>, received: int, responseType: byte, info: Info, d: seq<byte>)
    returns (code: int)
    requires info.Valid() && buffer.Length == ReceiveBufferSize
    requires received == |Received(d)| && buffer[..received] == Received(d)
    requires received >= 5 ==> responseType == buffer[4]
    modifies info, info.name, info.mapName, info.folder, info.game, info.version
    ensures code == 0 <==> DecodeSecond(Received(d)).Ok?
    ensures code == 0 ==> info.Value() == DecodeSecond(Received(d)).info
    ensures code == 0 || code == -1
  {
    ghost var r := Received(d);
    if received >= 5 {
      assert responseType == r[4];
    }
    DecodeBodyLocal(buffer[..], r, received, responseType);
    code := DecodeInto(buffer, received, responseType, info);
  }
}
