/**
  The bounds-checked reader of NUL-terminated strings (`read_string` in
  a2s_query.c): a functional specification `ReadString` over the received
  bytes, the properties the decoder relies on, and the imperative reader over
  arrays with a moving cursor, proved to refine the specification.
 */
module StringReader {
  import opened Wire

  /**
    How many bytes the copy loop takes from `off`: it stops at the first of a
    NUL byte, the scan bound `maxLen`, or `limit` copied bytes.
   */
  function CopyLength(buffer: seq<byte>, maxLen: int, limit: nat, off: int): (k: nat)
    requires 0 <= off <= maxLen <= |buffer|
    ensures k <= limit && off + k <= maxLen
    ensures forall j :: off <= j < off + k ==> buffer[j] != 0
    ensures k == limit || off + k == maxLen || buffer[off + k] == 0
    decreases limit
  {
    if limit == 0 || off == maxLen || buffer[off] == 0 then 0
    else 1 + CopyLength(buffer, maxLen, limit - 1, off + 1)
  }

  /** The stop conditions of the copy loop determine the copied length. */
  lemma CopyLengthIsFirstStop(buffer: seq<byte>, maxLen: int, limit: nat, off: int, k: nat)
    requires 0 <= off <= maxLen <= |buffer|
    requires k <= limit && off + k <= maxLen
    requires forall j :: off <= j < off + k ==> buffer[j] != 0
    requires k == limit || off + k == maxLen || buffer[off + k] == 0
    ensures CopyLength(buffer, maxLen, limit, off) == k
  {
  }

  /** True when `b1` and `b2` hold the same bytes at every index in `[lo, hi)`. */
  predicate AgreeOn(b1: seq<byte>, b2: seq<byte>, lo: int, hi: int)
    requires hi <= |b1| && hi <= |b2|
  {
    forall j :: 0 <= lo <= j < hi ==> b1[j] == b2[j]
  }

  /** The copy loop looks at no byte outside `[off, maxLen)`. */
  lemma {:induction false} CopyLengthLocal(b1: seq<byte>, b2: seq<byte>, maxLen: int, limit: nat, off: int)
    requires 0 <= off <= maxLen <= |b1| && maxLen <= |b2|
    requires AgreeOn(b1, b2, off, maxLen)
    ensures CopyLength(b1, maxLen, limit, off) == CopyLength(b2, maxLen, limit, off)
    decreases limit
  {
    if limit > 0 && off < maxLen && b1[off] != 0 {
      CopyLengthLocal(b1, b2, maxLen, limit - 1, off + 1);
    }
  }

  /**
    Outcome of one `read_string` call: `Failed` is the -1 return (destination
    forced to the empty string, cursor unchanged); `Read` carries the bytes
    placed before the destination's terminator and the new cursor.
   */
  datatype ReadResult = Failed | Read(text: seq<byte>, next: int)

  /**
    `read_string(buffer, maxLen, dest, destSize, &offset)` on the bytes of
    `buffer`, the cursor starting at `offset`.
   */
  function ReadString(buffer: seq<byte>, maxLen: int, destSize: int, offset: int): (r: ReadResult)
    requires maxLen <= |buffer| && destSize >= 1
    ensures r.Failed? <==> offset < 0 || offset >= maxLen
    ensures r.Read? ==>
      && |r.text| <= destSize - 1
      && offset + |r.text| <= maxLen
      && r.text == buffer[offset..offset + |r.text|]
      && NoNul(r.text)
      && (|r.text| == destSize - 1 || offset + |r.text| == maxLen || buffer[offset + |r.text|] == 0)
    ensures r.Read? ==>
      (r.next == offset + |r.text| + 1 <==> offset + |r.text| < maxLen && buffer[offset + |r.text|] == 0)
    ensures r.Read? ==>
      (r.next == offset + |r.text| <==> !(offset + |r.text| < maxLen && buffer[offset + |r.text|] == 0))
  {
    if offset < 0 || offset >= maxLen then Failed
    else
      var end := offset + CopyLength(buffer, maxLen, destSize - 1, offset);
      Read(buffer[offset..end], if end < maxLen && buffer[end] == 0 then end + 1 else end)
  }

  /** The cursor never passes the scan bound, and a successful read moves it forward or leaves it. */
  lemma ReadStringCursorBounds(buffer: seq<byte>, maxLen: int, destSize: int, offset: int)
    requires maxLen <= |buffer| && destSize >= 1
    requires ReadString(buffer, maxLen, destSize, offset).Read?
    ensures offset <= ReadString(buffer, maxLen, destSize, offset).next <= maxLen
  {
  }

  /**
    With room for at least one byte, a successful read always moves the cursor:
    a decoder calling it repeatedly cannot stall.
   */
  lemma ReadStringProgress(buffer: seq<byte>, maxLen: int, destSize: int, offset: int)
    requires maxLen <= |buffer| && destSize >= 2
    requires ReadString(buffer, maxLen, destSize, offset).Read?
    ensures ReadString(buffer, maxLen, destSize, offset).next > offset
  {
  }

  /**
    A string terminated within the bound that fits the destination is read
    whole and the cursor lands just past its terminator.
   */
  lemma ReadStringOfTerminated(buffer: seq<byte>, maxLen: int, destSize: int, offset: int, s: seq<byte>)
    requires maxLen <= |buffer| && destSize >= 1
    requires 0 <= offset && offset + |s| < maxLen
    requires buffer[offset..offset + |s|] == s && buffer[offset + |s|] == 0 && NoNul(s)
    requires |s| <= destSize - 1
    ensures ReadString(buffer, maxLen, destSize, offset) == Read(s, offset + |s| + 1)
  {
    CopyLengthIsFirstStop(buffer, maxLen, destSize - 1, offset, |s|);
  }

  /** The result of a read whose copy loop stopped after `k` bytes. */
  lemma ReadStringStopsAt(buffer: seq<byte>, maxLen: int, destSize: int, offset: int, k: nat)
    requires maxLen <= |buffer| && destSize >= 1 && 0 <= offset < maxLen
    requires k <= destSize - 1 && offset + k <= maxLen
    requires forall j :: offset <= j < offset + k ==> buffer[j] != 0
    requires k == destSize - 1 || offset + k == maxLen || buffer[offset + k] == 0
    ensures ReadString(buffer, maxLen, destSize, offset)
         == Read(buffer[offset..offset + k],
                 if offset + k < maxLen && buffer[offset + k] == 0 then offset + k + 1 else offset + k)
  {
    CopyLengthIsFirstStop(buffer, maxLen, destSize - 1, offset, k);
  }

  /**
    With no terminator before the scan bound and room for the rest, the reader
    takes every byte up to the bound and leaves the cursor on the bound.
   */
  lemma ReadStringUnterminated(buffer: seq<byte>, maxLen: int, destSize: int, offset: int)
    requires maxLen <= |buffer| && destSize >= 1
    requires 0 <= offset < maxLen && NoNul(buffer[offset..maxLen])
    requires maxLen - offset <= destSize - 1
    ensures ReadString(buffer, maxLen, destSize, offset) == Read(buffer[offset..maxLen], maxLen)
  {
    CopyLengthIsFirstStop(buffer, maxLen, destSize - 1, offset, maxLen - offset);
  }

  /**
    When the destination fills before a terminator, the cursor stops on the
    first byte not copied, which is not a terminator: the next field read starts
    in the middle of this string.
   */
  lemma ReadStringFullDestination(buffer: seq<byte>, maxLen: int, destSize: int, offset: int)
    requires maxLen <= |buffer| && destSize >= 1
    requires 0 <= offset && offset + destSize - 1 < maxLen
    requires NoNul(buffer[offset..offset + destSize])
    ensures ReadString(buffer, maxLen, destSize, offset)
         == Read(buffer[offset..offset + destSize - 1], offset + destSize - 1)
    ensures buffer[offset + destSize - 1] != 0
  {
    assert buffer[offset..offset + destSize - 1] == buffer[offset..offset + destSize][..destSize - 1];
    assert buffer[offset + destSize - 1] == buffer[offset..offset + destSize][destSize - 1];
    CopyLengthIsFirstStop(buffer, maxLen, destSize - 1, offset, destSize - 1);
  }

  /** A read depends on the bytes in `[offset, maxLen)` only. */
  lemma ReadStringLocal(b1: seq<byte>, b2: seq<byte>, maxLen: int, destSize: int, offset: int)
    requires maxLen <= |b1| && maxLen <= |b2| && destSize >= 1
    requires AgreeOn(b1, b2, offset, maxLen)
    ensures ReadString(b1, maxLen, destSize, offset) == ReadString(b2, maxLen, destSize, offset)
  {
    if 0 <= offset < maxLen {
      CopyLengthLocal(b1, b2, maxLen, destSize - 1, offset);
      var end := offset + CopyLength(b1, maxLen, destSize - 1, offset);
      assert b1[offset..end] == b2[offset..end];
    }
  }

  /** A cursor that is negative, past the buffer, or exactly at the bound fails ("Test\0", 6 bytes). */
  lemma ReadStringRejectsCursor()
    ensures ReadString(Ascii("Test") + [0, 0], 6, 64, -5) == Failed
    ensures ReadString(Ascii("Test") + [0, 0], 6, 64, 100) == Failed
    ensures ReadString(Ascii("Test") + [0, 0], 5, 64, 5) == Failed
  {
  }

  /** 100 bytes without a NUL give 63 bytes into a 64-byte destination. */
  lemma ReadStringNoNulls()
    ensures ReadString(seq(100, _ => 0x41), 100, 64, 0) == Read(seq(63, _ => 0x41), 63)
  {
    var aaa := seq(100, _ => 0x41);
    assert aaa[0..63] == seq(63, _ => 0x41);
    ReadStringFullDestination(aaa, 100, 64, 0);
  }

  /** "ServerName\0Map\0" (16 bytes) yields its two strings and then an empty one. */
  lemma ReadStringTruncatedPacket()
    ensures var b := Ascii("ServerName") + [0] + Ascii("Map") + [0, 0];
      && ReadString(b, 16, 64, 0) == Read(Ascii("ServerName"), 11)
      && ReadString(b, 16, 64, 11) == Read(Ascii("Map"), 15)
      && ReadString(b, 16, 64, 15) == Read([], 16)
  {
    var b := Ascii("ServerName") + [0] + Ascii("Map") + [0, 0];
    assert b[0..10] == Ascii("ServerName") && b[11..14] == Ascii("Map");
    ReadStringOfTerminated(b, 16, 64, 0, Ascii("ServerName"));
    ReadStringOfTerminated(b, 16, 64, 11, Ascii("Map"));
    ReadStringOfTerminated(b, 16, 64, 15, []);
  }

  /** "\0\0\0" (4 bytes) yields an empty string and cursor 1. */
  lemma ReadStringZeroLength()
    ensures ReadString([0, 0, 0, 0], 4, 64, 0) == Read([], 1)
  {
    ReadStringOfTerminated([0, 0, 0, 0], 4, 64, 0, []);
  }

  /** 255 bytes and a NUL give length 255 and cursor 256. */
  lemma ReadStringMaxLength()
    ensures ReadString(seq(255, _ => 0x58) + [0], 256, 300, 0) == Read(seq(255, _ => 0x58), 256)
  {
    var xs := seq(255, _ => 0x58) + [0];
    assert xs[0..255] == seq(255, _ => 0x58);
    ReadStringOfTerminated(xs, 256, 300, 0, seq(255, _ => 0x58));
  }

  /** "Hello\0World\0" (13 bytes) gives "Hello" and cursor 6. */
  lemma ReadStringNormal()
    ensures ReadString(Ascii("Hello") + [0] + Ascii("World") + [0, 0], 13, 64, 0) == Read(Ascii("Hello"), 6)
  {
    var b := Ascii("Hello") + [0] + Ascii("World") + [0, 0];
    assert b[0..5] == Ascii("Hello");
    ReadStringOfTerminated(b, 13, 64, 0, Ascii("Hello"));
  }

  /** "First\0Second\0Third\0" (20 bytes) gives its three strings in turn. */
  lemma ReadStringMultiple()
    ensures var b := Ascii("First") + [0] + Ascii("Second") + [0] + Ascii("Third") + [0, 0];
      && ReadString(b, 20, 64, 0) == Read(Ascii("First"), 6)
      && ReadString(b, 20, 64, 6) == Read(Ascii("Second"), 13)
      && ReadString(b, 20, 64, 13) == Read(Ascii("Third"), 19)
  {
    var b := Ascii("First") + [0] + Ascii("Second") + [0] + Ascii("Third") + [0, 0];
    assert b[0..5] == Ascii("First") && b[6..12] == Ascii("Second") && b[13..18] == Ascii("Third");
    ReadStringOfTerminated(b, 20, 64, 0, Ascii("First"));
    ReadStringOfTerminated(b, 20, 64, 6, Ascii("Second"));
    ReadStringOfTerminated(b, 20, 64, 13, Ascii("Third"));
  }

  /** Six bytes without a NUL give all six and cursor 6. */
  lemma ReadStringNoTerminator()
    ensures ReadString(Ascii("NoNull"), 6, 64, 0) == Read(Ascii("NoNull"), 6)
  {
    var b := Ascii("NoNull");
    assert b[0..6] == b;
    ReadStringUnterminated(b, 6, 64, 0);
  }

  /** A long string read into a 10-byte destination gives its first 9 bytes. */
  lemma ReadStringTruncation()
    ensures ReadString(Ascii("VeryLongStringThatShouldBeTruncated") + [0, 0], 37, 10, 0) == Read(Ascii("VeryLongS"), 9)
  {
    var b := Ascii("VeryLongStringThatShouldBeTruncated") + [0, 0];
    assert b[0..9] == Ascii("VeryLongS");
    assert b[0..10] == Ascii("VeryLongSt");
    ReadStringFullDestination(b, 37, 10, 0);
  }

  /** "\0Next\0" (7 bytes) gives an empty string and cursor 1. */
  lemma ReadStringEmpty()
    ensures ReadString([0] + Ascii("Next") + [0, 0], 7, 64, 0) == Read([], 1)
  {
    ReadStringOfTerminated([0] + Ascii("Next") + [0, 0], 7, 64, 0, []);
  }

  /** "Test" scanned to 4 bytes gives all four and cursor 4. */
  lemma ReadStringBoundary()
    ensures ReadString(Ascii("Test") + [0], 4, 64, 0) == Read(Ascii("Test"), 4)
  {
    var b := Ascii("Test") + [0];
    assert b[0..4] == Ascii("Test");
    ReadStringUnterminated(b, 4, 64, 0);
  }

  /** The caller's `int *offset`: a cell the reader advances in place. */
  class Cursor {
    var pos: int

    constructor (start: int)
      ensures pos == start
    {
      pos := start;
    }
  }

  /**
    `read_string` over arrays: copies into `dest` while moving `offset.pos`,
    returns -1 on failure or the number of bytes copied. Null pointers are
    modelled by the nullable types.
   */
  method ReadStringInto(buffer: array?<byte>, maxLen: int, dest: array?<byte>, destSize: int, offset: Cursor?)
    returns (ret: int)
    requires buffer != null ==> maxLen <= buffer.Length
    requires dest != null ==> 1 <= destSize <= dest.Length
    requires buffer == null || buffer != dest
    modifies dest, offset
    ensures ret == -1 <==>
      buffer == null || dest == null || offset == null ||
      ReadString(buffer[..], maxLen, destSize, old(offset.pos)).Failed?
    ensures ret == -1 && dest != null ==> dest[0] == 0 && dest[1..] == old(dest[1..])
    ensures ret == -1 && offset != null ==> offset.pos == old(offset.pos)
    ensures ret != -1 ==>
      buffer != null && dest != null && offset != null &&
      var r := ReadString(buffer[..], maxLen, destSize, old(offset.pos));
      && r.Read?
      && ret == |r.text|
      && dest[..ret] == r.text
      && dest[ret] == 0
      && dest[ret + 1..] == old(dest[ret + 1..])
      && offset.pos == r.next
  {
    if buffer == null || dest == null || offset == null || offset.pos < 0 || offset.pos >= maxLen {
      if dest != null && destSize > 0 {
        dest[0] := 0;
      }
      return -1;
    }
    ret := CopyString(buffer, maxLen, dest, destSize, offset);
  }

  /** The copy loop of `read_string`, once the cursor has been found inside the bound. */
  method CopyString(buffer: array<byte>, maxLen: int, dest: array<byte>, destSize: int, offset: Cursor)
    returns (ret: int)
    requires maxLen <= buffer.Length && 1 <= destSize <= dest.Length && buffer != dest
    requires 0 <= offset.pos < maxLen
    modifies dest, offset
    ensures
      var r := ReadString(buffer[..], maxLen, destSize, old(offset.pos));
      && r.Read?
      && ret == |r.text|
      && dest[..ret] == r.text
      && dest[ret] == 0
      && dest[ret + 1..] == old(dest[ret + 1..])
      && offset.pos == r.next
  {
    ghost var start := offset.pos;
    ghost var b := buffer[..];
    var i := 0;
    while offset.pos < maxLen && buffer[offset.pos] != 0 && i < destSize - 1
      invariant 0 <= i <= destSize - 1
      invariant offset.pos == start + i <= maxLen
      invariant forall j :: 0 <= j < i ==> dest[j] == b[start + j]
      invariant forall j :: start <= j < start + i ==> b[j] != 0
      invariant forall j :: i <= j < dest.Length ==> dest[j] == old(dest[j])
    {
      dest[i] := buffer[offset.pos];
      i := i + 1;
      offset.pos := offset.pos + 1;
    }
    ReadStringStopsAt(b, maxLen, destSize, start, i);
    dest[i] := 0;
    if offset.pos < maxLen && buffer[offset.pos] == 0 {
      offset.pos := offset.pos + 1;
    }
    assert dest[..i] == b[start..start + i];
    return i;
  }
}
