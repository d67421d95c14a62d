/**
  The A2S_INFO response decoder of `a2s_query_info` as pure functions over
  the received bytes: the header and type checks, the one challenge round,
  the protocol byte, the four mandatory strings, the optional trailing fields
  with their defaults, and the status derived from name and map.
 */
module InfoDecoder {
  import opened Wire
  import opened StringReader
  import opened Status

  /** The decoded server information (`a2s_info_t`), strings as their C-string contents. */
  datatype InfoRecord = InfoRecord(
    protocol: byte,
    name: seq<byte>,
    mapName: seq<byte>,
    folder: seq<byte>,
    game: seq<byte>,
    appId: u16,
    players: byte,
    maxPlayers: byte,
    bots: byte,
    serverType: byte,
    environment: byte,
    visibility: byte,
    vac: byte,
    version: seq<byte>,
    status: ServerStatus)

  /** What one received datagram leads to: failure, a challenge retry to send, or the record. */
  datatype Decoded = Err | Retry(request: seq<byte>) | Ok(info: InfoRecord)

  /** The four mandatory strings and the cursor after the last of them. */
  datatype Strings = Strings(name: seq<byte>, mapName: seq<byte>, folder: seq<byte>, game: seq<byte>, next: int)

  /** The fields after the mandatory strings. */
  datatype Trailer = Trailer(
    appId: u16,
    players: byte,
    maxPlayers: byte,
    bots: byte,
    serverType: byte,
    environment: byte,
    visibility: byte,
    vac: byte,
    version: seq<byte>)

  /** At least five bytes, the first four 0xFF. */
  predicate HasHeader(d: seq<byte>)
    ensures HasHeader(d) <==> |d| >= 5 && d[..4] == InfoRequest[..4]
  {
    assert InfoRequest[..4] == [0xFF, 0xFF, 0xFF, 0xFF];
    |d| >= 5 && d[0] == 0xFF && d[1] == 0xFF && d[2] == 0xFF && d[3] == 0xFF
  }

  /** The challenge retry: the request followed by the four challenge bytes as received. */
  function ChallengeRequest(d: seq<byte>): (req: seq<byte>)
    requires |d| >= 9
    ensures |req| == 29 && req[..25] == InfoRequest && req[25..] == d[5..9]
  {
    InfoRequest + d[5..9]
  }

  /**
    The name, map, folder and game strings read in turn from offset 6 with the
    capacities 256, 128, 64 and 64; `None` as soon as one read fails.
   */
  function ReadStrings(buf: seq<byte>, received: int): (r: Option<Strings>)
    requires received <= |buf|
    ensures r.Some? ==>
      && 6 < r.value.next <= received
      && NoNul(r.value.name) && NoNul(r.value.mapName) && NoNul(r.value.folder) && NoNul(r.value.game)
      && |r.value.name| < MaxServerName && |r.value.mapName| < MaxMapName
      && |r.value.folder| < MaxGameName && |r.value.game| < MaxGameName
  {
    var n := ReadString(buf, received, MaxServerName, 6);
    if n.Failed? then None
    else
      var m := ReadString(buf, received, MaxMapName, n.next);
      if m.Failed? then None
      else
        var f := ReadString(buf, received, MaxGameName, m.next);
        if f.Failed? then None
        else
          var g := ReadString(buf, received, MaxGameName, f.next);
          if g.Failed? then None
          else Some(Strings(n.text, m.text, f.text, g.text, g.next))
  }

  /** One optional byte at `o`: the byte and the moved cursor, or `default` and `o`. */
  function OptionalByte(buf: seq<byte>, received: int, o: int, default: byte): (r: (byte, int))
    requires 0 <= o && received <= |buf|
    ensures o < received ==> r == (buf[o], o + 1)
    ensures o >= received ==> r == (default, o)
  {
    if o + 1 <= received then (buf[o], o + 1) else (default, o)
  }

  /** The little-endian app id at `o` when two bytes remain, else 0 and `o`. */
  function AppIdField(buf: seq<byte>, received: int, o: int): (r: (u16, int))
    requires 0 <= o && received <= |buf|
    ensures r.1 == (if o + 2 <= received then o + 2 else o)
    ensures r.1 == o + 2 ==> r.0 as int % 256 == buf[o] as int && r.0 as int / 256 == buf[o + 1] as int
    ensures r.1 == o ==> r.0 == 0
  {
    if o + 2 <= received then ((buf[o] as int + 256 * buf[o + 1] as int) as u16, o + 2) else (0, o)
  }

  /** Both player counts at `o` when two bytes remain, else both 0 and `o`. */
  function PlayerCounts(buf: seq<byte>, received: int, o: int): (r: (byte, byte, int))
    requires 0 <= o && received <= |buf|
    ensures o + 2 <= received ==> r == (buf[o], buf[o + 1], o + 2)
    ensures o + 2 > received ==> r == (0, 0, o)
  {
    if o + 2 <= received then (buf[o], buf[o + 1], o + 2) else (0, 0, o)
  }

  /** The trailing fields from cursor `o`, each read only when enough bytes remain. */
  function ReadTrailer(buf: seq<byte>, received: int, o: int): (t: Trailer)
    requires 0 <= o && received <= |buf|
    ensures NoNul(t.version) && |t.version| < MaxVersionString
    ensures o + 2 <= received ==> t.appId as int == buf[o] as int + 256 * buf[o + 1] as int
    ensures o + 2 > received ==> t.appId == 0
    ensures o + 4 <= received ==> t.players == buf[o + 2] && t.maxPlayers == buf[o + 3]
    ensures o + 4 > received ==> t.players == 0 && t.maxPlayers == 0
    ensures var p := o + (if received - o >= 4 then 4 else if received - o >= 2 then 2 else 0);
      && t.bots == (if p < received then buf[p] else 0)
      && t.serverType == (if p + 1 < received then buf[p + 1] else UnknownCode)
      && t.environment == (if p + 2 < received then buf[p + 2] else UnknownCode)
      && t.visibility == (if p + 3 < received then buf[p + 3] else 0)
      && t.vac == (if p + 4 < received then buf[p + 4] else 0)
      && t.version == (if p + 5 <= received then VersionText(buf, received, p + 5) else [])
  {
    var (appId, o1) := AppIdField(buf, received, o);
    var (players, maxPlayers, o2) := PlayerCounts(buf, received, o1);
    var (bots, o3) := OptionalByte(buf, received, o2, 0);
    var (serverType, o4) := OptionalByte(buf, received, o3, UnknownCode);
    var (environment, o5) := OptionalByte(buf, received, o4, UnknownCode);
    var (visibility, o6) := OptionalByte(buf, received, o5, 0);
    var (vac, o7) := OptionalByte(buf, received, o6, 0);
    Trailer(appId, players, maxPlayers, bots, serverType, environment, visibility, vac,
            VersionText(buf, received, o7))
  }

  /** The version string at `o`, or the empty string when it cannot be read. */
  function VersionText(buf: seq<byte>, received: int, o: int): (v: seq<byte>)
    requires received <= |buf|
    ensures NoNul(v) && |v| < MaxVersionString
  {
    var v := ReadString(buf, received, MaxVersionString, o);
    if v.Read? then v.text else []
  }

  /**
    The decode of an info payload of `received` bytes in `buf` whose response
    type is `responseType`, as done after the header (and challenge) handling.
   */
  function DecodeBody(buf: seq<byte>, received: int, responseType: byte): (r: Option<InfoRecord>)
    requires received <= |buf|
    ensures r.Some? ==> responseType == InfoResponse && received >= 10
    ensures r.Some? ==> r.value.protocol == buf[5] && r.value.status == Classify(r.value.name, r.value.mapName)
    ensures r.Some? <==> responseType == InfoResponse && received >= 10 && ReadStrings(buf, received).Some?
  {
    if responseType != InfoResponse || received < 10 then None
    else
      match ReadStrings(buf, received)
      case None => None
      case Some(s) =>
        var t := ReadTrailer(buf, received, s.next);
        Some(InfoRecord(buf[5], s.name, s.mapName, s.folder, s.game,
                        t.appId, t.players, t.maxPlayers, t.bots, t.serverType, t.environment,
                        t.visibility, t.vac, t.version, Classify(s.name, s.mapName)))
  }

  /**
    The first datagram of a query: rejected without the 0xFFFFFFFF header, a
    challenge reply (at least 9 bytes) asks for the retry datagram, anything
    else is decoded as an info payload.
   */
  function DecodeFirst(d: seq<byte>): (r: Decoded)
    ensures !HasHeader(d) ==> r == Err
    ensures r.Retry? <==> HasHeader(d) && d[4] == ChallengeResponse && |d| >= 9
    ensures r.Retry? ==> |r.request| == 29 && r.request[..25] == InfoRequest && r.request[25..] == d[5..9]
    ensures r.Ok? ==> HasHeader(d) && d[4] == InfoResponse && |d| >= 10
    ensures r.Ok? <==> HasHeader(d) && DecodeBody(d, |d|, d[4]).Some?
    ensures r.Ok? ==> r.info == DecodeBody(d, |d|, d[4]).value
  {
    if !HasHeader(d) then Err
    else if d[4] == ChallengeResponse then
      if |d| < 9 then Err else Retry(ChallengeRequest(d))
    else
      match DecodeBody(d, |d|, d[4])
      case None => Err
      case Some(info) => Ok(info)
  }

  /**
    The datagram received after a challenge: only its type byte and length are
    checked, never its header, and a second challenge fails. A datagram shorter
    than five bytes leaves the type byte of the first reply in the buffer,
    which is the challenge type, so it fails too.
   */
  function DecodeSecond(d: seq<byte>): (r: Decoded)
    ensures !r.Retry?
    ensures r.Ok? ==> |d| >= 10 && d[4] == InfoResponse
    ensures |d| >= 5 ==> (r.Ok? <==> DecodeBody(d, |d|, d[4]).Some?)
    ensures r.Ok? ==> r.info == DecodeBody(d, |d|, d[4]).value
  {
    if |d| < 5 then Err
    else
      match DecodeBody(d, |d|, d[4])
      case None => Err
      case Some(info) => Ok(info)
  }

  /** What a successful decode can produce: terminated strings within their capacities, a derived status. */
  predicate WellFormed(r: InfoRecord) {
    StringsFit(r) && r.status == Classify(r.name, r.mapName)
  }

  /** Every string of the record is NUL-free and leaves room for its terminator. */
  predicate StringsFit(r: InfoRecord) {
    && NoNul(r.name) && |r.name| < MaxServerName
    && NoNul(r.mapName) && |r.mapName| < MaxMapName
    && NoNul(r.folder) && |r.folder| < MaxGameName
    && NoNul(r.game) && |r.game| < MaxGameName
    && NoNul(r.version) && |r.version| < MaxVersionString
  }

  /** The info reply a server sends for a record, every field present. */
  function Encode(r: InfoRecord): seq<byte> {
    [0xFF, 0xFF, 0xFF, 0xFF, InfoResponse, r.protocol]
    + ((r.name + [0]) + ((r.mapName + [0]) + ((r.folder + [0]) + ((r.game + [0]) + EncodeTrailer(r)))))
  }

  /** The fixed trailing fields of a record in wire order, then its version string. */
  function EncodeTrailer(r: InfoRecord): seq<byte> {
    [(r.appId as int % 256) as byte, (r.appId as int / 256) as byte,
     r.players, r.maxPlayers, r.bots, r.serverType, r.environment, r.visibility, r.vac]
    + (r.version + [0])
  }

  /** With no byte left after the strings every trailing field takes its default. */
  lemma TrailerAbsent(buf: seq<byte>, received: int, o: int)
    requires 0 <= o == received <= |buf|
    ensures ReadTrailer(buf, received, o) == Trailer(0, 0, 0, 0, UnknownCode, UnknownCode, 0, 0, [])
  {
  }

  /**
    The fields default independently: a single trailing byte is too short for
    the app id and the player counts, so it is read as the bot count.
   */
  lemma TrailerOneByte(buf: seq<byte>, received: int, o: int)
    requires 0 <= o && o + 1 == received <= |buf|
    ensures ReadTrailer(buf, received, o) == Trailer(0, 0, 0, buf[o], UnknownCode, UnknownCode, 0, 0, [])
  {
  }

  /** Two trailing bytes are the little-endian app id; the rest default. */
  lemma TrailerTwoBytes(buf: seq<byte>, received: int, o: int)
    requires 0 <= o && o + 2 == received <= |buf|
    ensures ReadTrailer(buf, received, o)
         == Trailer((buf[o] as int + 256 * buf[o + 1] as int) as u16, 0, 0, 0, UnknownCode, UnknownCode, 0, 0, [])
  {
  }

  /** Nine trailing bytes or more give every fixed field in wire order. */
  lemma TrailerComplete(buf: seq<byte>, received: int, o: int)
    requires 0 <= o && o + 9 <= received <= |buf|
    ensures ReadTrailer(buf, received, o)
         == Trailer((buf[o] as int + 256 * buf[o + 1] as int) as u16, buf[o + 2], buf[o + 3], buf[o + 4],
                    buf[o + 5], buf[o + 6], buf[o + 7], buf[o + 8], VersionText(buf, received, o + 9))
  {
  }

  /** A terminated string at the front of the suffix `e[k..]` is read whole, the cursor after its NUL. */
  lemma ReadFront(e: seq<byte>, k: nat, s: seq<byte>, b: seq<byte>, destSize: int, next: int)
    requires k <= |e| && e[k..] == (s + [0]) + b && NoNul(s) && |s| < destSize
    requires next == k + |s| + 1
    ensures ReadString(e, |e|, destSize, k) == Read(s, next)
    ensures next <= |e| && e[next..] == b
  {
    assert e[k..k + |s|] == e[k..][..|s|];
    assert e[k + |s|] == e[k..][|s|];
    ReadStringOfTerminated(e, |e|, destSize, k, s);
    assert e[k + |s| + 1..] == e[k..][|s| + 1..];
  }

  /** `ReadStrings` chains the four reads, each starting where the previous one left the cursor. */
  lemma ReadStringsChain(buf: seq<byte>, received: int, n: seq<byte>, m: seq<byte>, f: seq<byte>, g: seq<byte>,
                         o1: int, o2: int, o3: int, o4: int)
    requires received <= |buf|
    requires ReadString(buf, received, MaxServerName, 6) == Read(n, o1)
    requires ReadString(buf, received, MaxMapName, o1) == Read(m, o2)
    requires ReadString(buf, received, MaxGameName, o2) == Read(f, o3)
    requires ReadString(buf, received, MaxGameName, o3) == Read(g, o4)
    ensures ReadStrings(buf, received) == Some(Strings(n, m, f, g, o4))
  {
  }

  /** The end of the game string in an encoded record, where the trailing fields start. */
  function TrailerStart(r: InfoRecord): int {
    6 + |r.name| + |r.mapName| + |r.folder| + |r.game| + 4
  }

  /** The four strings of an encoded record read back as written. */
  lemma EncodedStrings(r: InfoRecord)
    requires StringsFit(r)
    ensures ReadStrings(Encode(r), |Encode(r)|)
         == Some(Strings(r.name, r.mapName, r.folder, r.game, TrailerStart(r)))
    ensures Encode(r)[TrailerStart(r)..] == EncodeTrailer(r)
  {
    EncodedAfterHeader(r);
    FourStrings(Encode(r), r.name, r.mapName, r.folder, r.game, EncodeTrailer(r), TrailerStart(r));
  }

  /** Four terminated strings placed from offset 6 are read back in turn, leaving the cursor on what follows. */
  lemma FourStrings(e: seq<byte>, n: seq<byte>, m: seq<byte>, f: seq<byte>, g: seq<byte>, tail: seq<byte>, next: int)
    requires 6 <= |e| && e[6..] == (n + [0]) + ((m + [0]) + ((f + [0]) + ((g + [0]) + tail)))
    requires NoNul(n) && NoNul(m) && NoNul(f) && NoNul(g)
    requires |n| < MaxServerName && |m| < MaxMapName && |f| < MaxGameName && |g| < MaxGameName
    requires next == 6 + |n| + |m| + |f| + |g| + 4
    ensures ReadStrings(e, |e|) == Some(Strings(n, m, f, g, next))
    ensures 0 <= next <= |e| && e[next..] == tail
  {
    var t3 := (g + [0]) + tail;
    var t2 := (f + [0]) + t3;
    var t1 := (m + [0]) + t2;
    var o1 := 6 + |n| + 1;
    var o2 := o1 + |m| + 1;
    var o3 := o2 + |f| + 1;
    ReadFront(e, 6, n, t1, MaxServerName, o1);
    ReadFront(e, o1, m, t2, MaxMapName, o2);
    ReadFront(e, o2, f, t3, MaxGameName, o3);
    ReadFront(e, o3, g, tail, MaxGameName, next);
    ReadStringsChain(e, |e|, n, m, f, g, o1, o2, o3, next);
  }

  /** After the six header bytes an encoded record holds the four terminated strings and the trailer. */
  lemma EncodedAfterHeader(r: InfoRecord)
    ensures Encode(r)[6..]
         == (r.name + [0]) + ((r.mapName + [0]) + ((r.folder + [0]) + ((r.game + [0]) + EncodeTrailer(r))))
  {
  }

  /** Nine fixed bytes then a terminated version string, read back from the cursor `o`. */
  lemma PlacedTrailer(e: seq<byte>, o: nat, fixed: seq<byte>, v: seq<byte>)
    requires o <= |e| && |fixed| == 9 && e[o..] == fixed + (v + [0]) && NoNul(v) && |v| < MaxVersionString
    ensures ReadTrailer(e, |e|, o)
         == Trailer((fixed[0] as int + 256 * fixed[1] as int) as u16, fixed[2], fixed[3], fixed[4],
                    fixed[5], fixed[6], fixed[7], fixed[8], v)
  {
    forall j | 0 <= j < 9
      ensures e[o + j] == fixed[j]
    {
      assert e[o + j] == e[o..][j];
    }
    assert e[o + 9..] == (v + [0]) + [] by {
      assert e[o + 9..] == e[o..][9..];
    }
    ReadFront(e, o + 9, v, [], MaxVersionString, o + 9 + |v| + 1);
    TrailerComplete(e, |e|, o);
  }

  /** The trailing fields of an encoded record read back as written. */
  lemma EncodedTrailer(r: InfoRecord)
    requires StringsFit(r)
    requires Encode(r)[TrailerStart(r)..] == EncodeTrailer(r)
    ensures ReadTrailer(Encode(r), |Encode(r)|, TrailerStart(r))
         == Trailer(r.appId, r.players, r.maxPlayers, r.bots, r.serverType, r.environment,
                    r.visibility, r.vac, r.version)
  {
    var tr := EncodeTrailer(r);
    assert tr == tr[..9] + (r.version + [0]);
    PlacedTrailer(Encode(r), TrailerStart(r), tr[..9], r.version);
    assert (r.appId as int % 256) + 256 * (r.appId as int / 256) == r.appId as int;
  }

  /** `DecodeBody` assembles the record from the strings, the trailer and the derived status. */
  lemma DecodeBodyOf(buf: seq<byte>, received: int, s: Strings, t: Trailer)
    requires 10 <= received <= |buf|
    requires ReadStrings(buf, received) == Some(s)
    requires ReadTrailer(buf, received, s.next) == t
    ensures DecodeBody(buf, received, InfoResponse)
         == Some(InfoRecord(buf[5], s.name, s.mapName, s.folder, s.game,
                            t.appId, t.players, t.maxPlayers, t.bots, t.serverType, t.environment,
                            t.visibility, t.vac, t.version, Classify(s.name, s.mapName)))
  {
  }

  /** The header, type and protocol bytes of an encoded record. */
  lemma EncodedHeader(r: InfoRecord)
    ensures HasHeader(Encode(r)) && Encode(r)[4] == InfoResponse && Encode(r)[5] == r.protocol
    ensures |Encode(r)| >= 20
  {
  }

  /** Decoding what a server encodes gives back the record: the decoder's partner. */
  lemma DecodeEncode(r: InfoRecord)
    requires WellFormed(r)
    ensures DecodeFirst(Encode(r)) == Ok(r)
  {
    EncodedHeader(r);
    EncodedBody(r);
  }

  /** The payload of an encoded well-formed record decodes to the record. */
  lemma EncodedBody(r: InfoRecord)
    requires WellFormed(r)
    ensures |Encode(r)| >= 10
    ensures DecodeBody(Encode(r), |Encode(r)|, InfoResponse) == Some(r)
  {
    var e := Encode(r);
    EncodedHeader(r);
    EncodedStrings(r);
    EncodedTrailer(r);
    var s := Strings(r.name, r.mapName, r.folder, r.game, TrailerStart(r));
    var t := Trailer(r.appId, r.players, r.maxPlayers, r.bots, r.serverType, r.environment,
                     r.visibility, r.vac, r.version);
    DecodeBodyOf(e, |e|, s, t);
  }

  /** Every error condition of the first datagram, in the order the decoder checks them. */
  lemma DecodeFirstErrors(d: seq<byte>)
    ensures !HasHeader(d) ==> DecodeFirst(d) == Err
    ensures HasHeader(d) && d[4] == ChallengeResponse && |d| < 9 ==> DecodeFirst(d) == Err
    ensures HasHeader(d) && d[4] != ChallengeResponse && d[4] != InfoResponse ==> DecodeFirst(d) == Err
    ensures HasHeader(d) && d[4] == InfoResponse && |d| < 10 ==> DecodeFirst(d) == Err
    ensures HasHeader(d) && d[4] == InfoResponse && ReadStrings(d, |d|).None? ==> DecodeFirst(d) == Err
  {
  }

  /** A second challenge after the retry fails instead of starting another round. */
  lemma SecondChallengeFails(d: seq<byte>)
    requires |d| >= 5 && d[4] == ChallengeResponse
    ensures DecodeSecond(d) == Err
  {
  }

  /** Whatever is decoded is well formed, and its status is never `Unknown`. */
  lemma DecodeBodyWellFormed(buf: seq<byte>, received: int, responseType: byte)
    requires received <= |buf| && DecodeBody(buf, received, responseType).Some?
    ensures WellFormed(DecodeBody(buf, received, responseType).value)
    ensures DecodeBody(buf, received, responseType).value.status != Unknown
  {
    var r := DecodeBody(buf, received, responseType).value;
    ClassifyMeaning(r.name, r.mapName);
  }

  /** The record of a successful first decode is well formed: the converse of `DecodeEncode`. */
  lemma DecodeFirstWellFormed(d: seq<byte>)
    requires DecodeFirst(d).Ok?
    ensures WellFormed(DecodeFirst(d).info) && DecodeFirst(d).info.status != Unknown
  {
    DecodeBodyWellFormed(d, |d|, d[4]);
  }

  /** The trailing fields depend only on the bytes from the cursor to the end of the datagram. */
  lemma TrailerLocal(b1: seq<byte>, b2: seq<byte>, received: int, o: int)
    requires 0 <= o && received <= |b1| && received <= |b2| && AgreeOn(b1, b2, o, received)
    ensures ReadTrailer(b1, received, o) == ReadTrailer(b2, received, o)
  {
    var a := AppIdField(b1, received, o);
    FixedFieldsLocal(b1, b2, received, o);
    var p := PlayerCounts(b1, received, a.1);
    var c1 := OptionalByte(b1, received, p.2, 0);
    var c2 := OptionalByte(b1, received, c1.1, UnknownCode);
    var c3 := OptionalByte(b1, received, c2.1, UnknownCode);
    var c4 := OptionalByte(b1, received, c3.1, 0);
    var c5 := OptionalByte(b1, received, c4.1, 0);
    assert o <= c5.1;
    AgreeOnFrom(b1, b2, received, o, c5.1);
    ReadStringLocal(b1, b2, received, MaxVersionString, c5.1);
  }

  /** Agreement from a cursor on implies agreement from any later one. */
  lemma AgreeOnFrom(b1: seq<byte>, b2: seq<byte>, received: int, o: int, k: int)
    requires 0 <= o <= k && received <= |b1| && received <= |b2| && AgreeOn(b1, b2, o, received)
    ensures AgreeOn(b1, b2, k, received)
  {
  }

  /** The fixed-width trailing fields read the same bytes from two buffers that agree from `o` on. */
  lemma FixedFieldsLocal(b1: seq<byte>, b2: seq<byte>, received: int, o: int)
    requires 0 <= o && received <= |b1| && received <= |b2| && AgreeOn(b1, b2, o, received)
    ensures forall k :: o <= k ==> AppIdField(b1, received, k) == AppIdField(b2, received, k)
    ensures forall k :: o <= k ==> PlayerCounts(b1, received, k) == PlayerCounts(b2, received, k)
    ensures forall k, x :: o <= k ==> OptionalByte(b1, received, k, x) == OptionalByte(b2, received, k, x)
  {
  }

  /** The payload decode reads only bytes 5 to `received`: neither the header nor what lies beyond. */
  lemma DecodeBodyLocal(b1: seq<byte>, b2: seq<byte>, received: int, responseType: byte)
    requires received <= |b1| && received <= |b2| && AgreeOn(b1, b2, 5, received)
    ensures DecodeBody(b1, received, responseType) == DecodeBody(b2, received, responseType)
  {
    if responseType == InfoResponse && received >= 10 {
      forall k | 5 <= k ensures AgreeOn(b1, b2, k, received) {
      }
      forall k, cap | 5 <= k && cap >= 1
        ensures ReadString(b1, received, cap, k) == ReadString(b2, received, cap, k)
      {
        ReadStringLocal(b1, b2, received, cap, k);
      }
      var s1 := ReadStrings(b1, received);
      assert s1 == ReadStrings(b2, received);
      if s1.Some? {
        TrailerLocal(b1, b2, received, s1.value.next);
      }
    }
  }

  /** The header of the reply to the retry is never checked: it does not change the outcome. */
  lemma SecondReplyHeaderIgnored(d1: seq<byte>, d2: seq<byte>)
    requires |d1| == |d2| && |d1| >= 5 && d1[4..] == d2[4..]
    ensures DecodeSecond(d1) == DecodeSecond(d2)
  {
    forall k | 4 <= k < |d1| ensures d1[k] == d2[k] {
      assert d1[k] == d1[4..][k - 4];
    }
    DecodeBodyLocal(d1, d2, |d1|, d1[4]);
  }

  /**
    An encoded record with a zeroed header: rejected as a first datagram,
    accepted as the reply to the retry.
   */
  lemma SecondReplyWithoutHeader(r: InfoRecord)
    requires WellFormed(r)
    ensures DecodeFirst([0, 0, 0, 0] + Encode(r)[4..]) == Err
    ensures DecodeSecond([0, 0, 0, 0] + Encode(r)[4..]) == Ok(r)
  {
    var e := Encode(r);
    var z: seq<byte> := [0, 0, 0, 0] + e[4..];
    DecodeEncode(r);
    EncodedHeader(r);
    assert z[4..] == e[4..];
    SecondReplyHeaderIgnored(e, z);
    assert DecodeSecond(e) == Ok(r);
  }

  /**
    A server name that fills its 255 characters without a NUL leaves the
    cursor inside the name: the map is read from byte 261, the name's 256th
    character onward.
   */
  lemma LongNameContinuesIntoMap(buf: seq<byte>, received: int)
    requires 261 < received <= |buf| && NoNul(buf[6..262])
    ensures ReadStrings(buf, received).Some? ==>
      && ReadStrings(buf, received).value.name == buf[6..261]
      && ReadStrings(buf, received).value.mapName == ReadString(buf, received, MaxMapName, 261).text
    ensures buf[261] != 0
  {
    ReadStringFullDestination(buf, received, MaxServerName, 6);
  }
}
