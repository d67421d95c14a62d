/**
  Shared vocabulary of the A2S_INFO client: bytes, the fixed request datagram,
  the response markers and field capacities of the info record, and the
  reading of a fixed-capacity `char` array as a C string.
 */
module Wire {

  /** An octet on the wire (`uint8_t`). */
  newtype byte = x: int | 0 <= x < 0x100

  /** A 16-bit unsigned integer (`uint16_t`), the type of the app id. */
  newtype u16 = x: int | 0 <= x < 0x1_0000

  datatype Option<+T> = None | Some(value: T)

  /** Message type of the request (`A2S_INFO_REQUEST`). */
  const InfoRequestType: byte := 0x54
  /** Response type of an info reply (`A2S_INFO_RESPONSE`). */
  const InfoResponse: byte := 0x49
  /** Response type of a challenge reply (`A2S_CHALLENGE_RESPONSE`). */
  const ChallengeResponse: byte := 0x41

  /** Capacities of the record's character arrays, terminator included. */
  const MaxServerName: int := 256
  const MaxMapName: int := 128
  const MaxGameName: int := 64
  const MaxVersionString: int := 32

  /** The character `'u'`, used for a server type or environment that is absent. */
  const UnknownCode: byte := 0x75

  /**
    The 25-byte A2S_INFO request: the connectionless header FF FF FF FF, the
    request type 0x54 and "Source Engine Query" with its terminating NUL.
   */
  const InfoRequest: seq<byte> := [
    0xFF, 0xFF, 0xFF, 0xFF,
    InfoRequestType,
    0x53, 0x6F, 0x75, 0x72, 0x63, 0x65, 0x20,   // "Source "
    0x45, 0x6E, 0x67, 0x69, 0x6E, 0x65, 0x20,   // "Engine "
    0x51, 0x75, 0x65, 0x72, 0x79, 0x00          // "Query\0"
  ]

  /** The request's layout: connectionless header, type byte, and a NUL-terminated payload string. */
  lemma InfoRequestLayout()
    ensures |InfoRequest| == 25
    ensures InfoRequest[..4] == [0xFF, 0xFF, 0xFF, 0xFF] && InfoRequest[4] == InfoRequestType
    ensures NoNul(InfoRequest[5..24]) && InfoRequest[24] == 0
  {
  }

  /** True when no byte of `s` is the NUL terminator. */
  predicate NoNul(s: seq<byte>) {
    forall i :: 0 <= i < |s| ==> s[i] != 0
  }

  /** The bytes of an ASCII (Latin-1) text. */
  function Ascii(s: string): (b: seq<byte>)
    requires forall i :: 0 <= i < |s| ==> s[i] as int < 0x100
    ensures |b| == |s|
    ensures forall i :: 0 <= i < |s| ==> b[i] as int == s[i] as int
  {
    seq(|s|, i requires 0 <= i < |s| => s[i] as int as byte)
  }

  /**
    What C sees in a `char` array read as a string: the bytes before the first
    NUL, or all of them when there is none.
   */
  function CStr(a: seq<byte>): (s: seq<byte>)
    ensures |s| <= |a| && s == a[..|s|]
    ensures NoNul(s)
    ensures |s| == |a| || a[|s|] == 0
  {
    if a == [] || a[0] == 0 then [] else [a[0]] + CStr(a[1..])
  }

  /** A byte string without NUL reads back whole. */
  lemma CStrOfUnterminated(a: seq<byte>)
    requires NoNul(a)
    ensures CStr(a) == a
  {
  }

  /** A C string whose terminator sits right after `s` reads back as `s`. */
  lemma CStrOfTerminated(a: seq<byte>, s: seq<byte>)
    requires |s| < |a| && a[..|s|] == s && a[|s|] == 0 && NoNul(s)
    ensures CStr(a) == s
  {
  }
}
