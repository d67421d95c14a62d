/**
  The `a2s_info_t` record as the decoder fills it in place: its character
  arrays and scalar fields, and the decode of a received payload into it
  field by field, moving a cursor through the receive buffer, proved to
  produce the record `DecodeBody` specifies.
 */
module InfoRecordStore {
  import opened Wire
  import opened StringReader
  import opened Status
  import opened InfoDecoder

  /** The size of the receive buffer (`uint8_t buffer[4096]`). */
  const ReceiveBufferSize: int := 4096

  class Info {
    var protocol: byte
    const name: array<byte>
    const mapName: array<byte>
    const folder: array<byte>
    const game: array<byte>
    var appId: u16
    var players: byte
    var maxPlayers: byte
    var bots: byte
    var serverType: byte
    var environment: byte
    var visibility: byte
    var vac: byte
    const version: array<byte>
    var status: ServerStatus

    /** The arrays have their declared capacities; the two of equal size are distinct. */
    ghost predicate Valid()
      reads this
    {
      && name.Length == MaxServerName && mapName.Length == MaxMapName
      && folder.Length == MaxGameName && game.Length == MaxGameName
      && version.Length == MaxVersionString
      && folder != game
    }

    constructor ()
      ensures Valid()
      ensures fresh(name) && fresh(mapName) && fresh(folder) && fresh(game) && fresh(version)
    {
      name := new byte[MaxServerName];
      mapName := new byte[MaxMapName];
      folder := new byte[MaxGameName];
      game := new byte[MaxGameName];
      version := new byte[MaxVersionString];
    }

    /** The fields after the four strings, the version read as a C string. */
    function TrailerValue(): Trailer
      reads this, version
    {
      Trailer(appId, players, maxPlayers, bots, serverType, environment, visibility, vac, CStr(version[..]))
    }

    /** What a reader of the record sees: every array read as a C string. */
    function Value(): InfoRecord
      reads this, name, mapName, folder, game, version
    {
      var t := TrailerValue();
      InfoRecord(protocol, CStr(name[..]), CStr(mapName[..]), CStr(folder[..]), CStr(game[..]),
                 t.appId, t.players, t.maxPlayers, t.bots, t.serverType, t.environment,
                 t.visibility, t.vac, t.version, status)
    }
  }

  /**
    One mandatory string read into `dest` with `read_string`: on success the
    array holds the text as a C string and the cursor is where the
    specification leaves it.
   */
  method ReadField(buffer: array<byte>, received: int, dest: array<byte>, offset: Cursor) returns (ok: bool)
    requires received <= buffer.Length && 1 <= dest.Length && buffer != dest
    modifies dest, offset
    ensures var r := ReadString(buffer[..], received, dest.Length, old(offset.pos));
      && (ok <==> r.Read?)
      && (ok ==> CStr(dest[..]) == r.text && offset.pos == r.next)
  {
    ghost var r := ReadString(buffer[..], received, dest.Length, offset.pos);
    var n := ReadStringInto(buffer, received, dest, dest.Length, offset);
    ok := n >= 0;
    if ok {
      CStrOfTerminated(dest[..], r.text);
    }
  }

  /**
    The trailing fields of the decoder (a2s_query.c:231-287), each read only
    when enough bytes remain, then the version string, empty when it cannot
    be read.
   */
  method ReadTrailerInto(buffer: array<byte>, received: int, offset: Cursor, info: Info)
    requires info.Valid() && buffer.Length == ReceiveBufferSize
    requires 0 <= offset.pos <= received <= buffer.Length
    modifies info, info.version, offset
    ensures info.TrailerValue() == ReadTrailer(buffer[..], received, old(offset.pos))
    ensures info.protocol == old(info.protocol) && info.status == old(info.status)
  {
    ghost var b := buffer[..];
    assert buffer != info.version;
    info.appId := AppIdInto(buffer, received, offset);
    info.players, info.maxPlayers := PlayerCountsInto(buffer, received, offset);
    info.bots := OptionalField(buffer, received, offset, 0);
    info.serverType := OptionalField(buffer, received, offset, UnknownCode);
    info.environment := OptionalField(buffer, received, offset, UnknownCode);
    info.visibility := OptionalField(buffer, received, offset, 0);
    info.vac := OptionalField(buffer, received, offset, 0);
    VersionInto(buffer, received, offset, info.version);
    assert buffer[..] == b;
  }

  /** The app id at the cursor (lines 231-237). */
  method AppIdInto(buffer: array<byte>, received: int, offset: Cursor) returns (appId: u16)
    requires 0 <= offset.pos && received <= buffer.Length
    modifies offset
    ensures (appId, offset.pos) == AppIdField(buffer[..], received, old(offset.pos))
  {
    if offset.pos + 2 <= received {
      appId := (buffer[offset.pos] as int + 256 * buffer[offset.pos + 1] as int) as u16;
      offset.pos := offset.pos + 2;
    } else {
      appId := 0;
    }
  }

  /** The player and maximum player counts at the cursor (lines 239-246). */
  method PlayerCountsInto(buffer: array<byte>, received: int, offset: Cursor) returns (players: byte, maxPlayers: byte)
    requires 0 <= offset.pos && received <= buffer.Length
    modifies offset
    ensures (players, maxPlayers, offset.pos) == PlayerCounts(buffer[..], received, old(offset.pos))
  {
    if offset.pos + 2 <= received {
      players := buffer[offset.pos];
      maxPlayers := buffer[offset.pos + 1];
      offset.pos := offset.pos + 2;
    } else {
      players := 0;
      maxPlayers := 0;
    }
  }

  /** The version string at the cursor, or an empty string when it cannot be read (lines 283-287). */
  method VersionInto(buffer: array<byte>, received: int, offset: Cursor, version: array<byte>)
    requires 0 <= offset.pos && received <= buffer.Length
    requires version.Length == MaxVersionString && buffer != version
    modifies offset, version
    ensures CStr(version[..]) == VersionText(buffer[..], received, old(offset.pos))
  {
    ghost var v := ReadString(buffer[..], received, MaxVersionString, offset.pos);
    var n := ReadStringInto(buffer, received, version, MaxVersionString, offset);
    if n < 0 {
      version[0] := 0;
      CStrOfTerminated(version[..], []);
    } else {
      CStrOfTerminated(version[..], v.text);
    }
  }

  /** One optional byte at the cursor, or `default` when none remains. */
  method OptionalField(buffer: array<byte>, received: int, offset: Cursor, default: byte) returns (value: byte)
    requires 0 <= offset.pos && received <= buffer.Length
    modifies offset
    ensures (value, offset.pos) == OptionalByte(buffer[..], received, old(offset.pos), default)
  {
    if offset.pos + 1 <= received {
      value := buffer[offset.pos];
      offset.pos := offset.pos + 1;
    } else {
      value := default;
    }
  }

  /** The four mandatory strings (lines 217-229), each read where the previous one left the cursor. */
  method ReadStringsInto(buffer: array<byte>, received: int, offset: Cursor, info: Info) returns (ok: bool)
    requires info.Valid() && buffer.Length == ReceiveBufferSize && received <= buffer.Length
    requires offset.pos == 6
    modifies info.name, info.mapName, info.folder, info.game, offset
    ensures ok <==> ReadStrings(buffer[..], received).Some?
    ensures ok ==>
      var s := ReadStrings(buffer[..], received).value;
      && CStr(info.name[..]) == s.name && CStr(info.mapName[..]) == s.mapName
      && CStr(info.folder[..]) == s.folder && CStr(info.game[..]) == s.game
      && offset.pos == s.next
  {
    ghost var b := buffer[..];
    ok := ReadField(buffer, received, info.name, offset);
    if !ok {
      return;
    }
    ghost var o1 := offset.pos;
    ok := ReadField(buffer, received, info.mapName, offset);
    if !ok {
      return;
    }
    ghost var o2 := offset.pos;
    ok := ReadField(buffer, received, info.folder, offset);
    if !ok {
      return;
    }
    ghost var o3 := offset.pos;
    ok := ReadField(buffer, received, info.game, offset);
    if !ok {
      return;
    }
    ReadStringsChain(b, received, CStr(info.name[..]), CStr(info.mapName[..]), CStr(info.folder[..]),
                     CStr(info.game[..]), o1, o2, o3, offset.pos);
  }

  /** The status from the name and map as C strings (line 290); nothing else changes. */
  method SetStatus(info: Info)
    requires info.Valid()
    modifies info
    ensures info.status == Classify(CStr(info.name[..]), CStr(info.mapName[..]))
    ensures info.protocol == old(info.protocol) && info.TrailerValue() == old(info.TrailerValue())
  {
    info.status := Classify(info.name[..], info.mapName[..]);
    ClassifyOfCStr(info.name[..], info.mapName[..]);
  }

  /**
    The decode of lines 199-290 of `a2s_query_info` into `info`: 0 exactly
    when `DecodeBody` accepts the payload, and then `info` holds its record.
   */
  method DecodeInto(buffer: array<byte>, received: int, responseType: byte, info: Info) returns (code: int)
    requires info.Valid() && buffer.Length == ReceiveBufferSize && 0 <= received <= buffer.Length
    modifies info, info.name, info.mapName, info.folder, info.game, info.version
    ensures code == 0 || code == -1
    ensures code == 0 <==> DecodeBody(buffer[..], received, responseType).Some?
    ensures code == 0 ==> info.Value() == DecodeBody(buffer[..], received, responseType).value
  {
    if responseType != InfoResponse || received < 10 {
      return -1;
    }
    var ok := DecodeFields(buffer, received, info);
    code := if ok then 0 else -1;
  }

  /** The fields of an info payload whose type and length have been accepted (lines 211-290). */
  method DecodeFields(buffer: array<byte>, received: int, info: Info) returns (ok: bool)
    requires info.Valid() && buffer.Length == ReceiveBufferSize && 10 <= received <= buffer.Length
    modifies info, info.name, info.mapName, info.folder, info.game, info.version
    ensures ok <==> DecodeBody(buffer[..], received, InfoResponse).Some?
    ensures ok ==> info.Value() == DecodeBody(buffer[..], received, InfoResponse).value
  {
    ghost var b := buffer[..];
    var offset := new Cursor(5);
    info.protocol := buffer[offset.pos];
    offset.pos := offset.pos + 1;
    ok := ReadStringsInto(buffer, received, offset, info);
    if !ok {
      return;
    }
    ghost var s := ReadStrings(b, received).value;
    ghost var t := ReadTrailer(b, received, s.next);
    assert buffer != info.version;
    TrailerAndStatusInto(buffer, received, offset, info, s);
    DecodeBodyOf(b, received, s, t);
    assert buffer[..] == b;
  }

  /** The trailing fields after the strings and then the status (lines 231-290). */
  method TrailerAndStatusInto(buffer: array<byte>, received: int, offset: Cursor, info: Info, ghost s: Strings)
    requires info.Valid() && buffer.Length == ReceiveBufferSize
    requires offset.pos == s.next && 0 <= s.next <= received <= buffer.Length
    requires CStr(info.name[..]) == s.name && CStr(info.mapName[..]) == s.mapName
    requires CStr(info.folder[..]) == s.folder && CStr(info.game[..]) == s.game
    modifies info, info.version, offset
    ensures var t := ReadTrailer(buffer[..], received, s.next);
      info.Value() == InfoRecord(old(info.protocol), s.name, s.mapName, s.folder, s.game,
                                 t.appId, t.players, t.maxPlayers, t.bots, t.serverType, t.environment,
                                 t.visibility, t.vac, t.version, Classify(s.name, s.mapName))
  {
    ReadTrailerInto(buffer, received, offset, info);
    SetStatus(info);
  }
}
