/**
  The text formatting of formatting.c: an uptime in seconds as days, hours,
  minutes and seconds in one of four layouts, and a size in kilobytes with
  the unit chosen by thresholds, each written with `snprintf` into a buffer
  of the caller's size.
 */
module Formatting {
  import opened Wire

  /** `uint64_t`. */
  newtype u64 = x: int | 0 <= x < 0x1_0000_0000_0000_0000

  predicate IsDigit(c: char) {
    '0' <= c <= '9'
  }

  predicate AllDigits(s: string) {
    forall i :: 0 <= i < |s| ==> IsDigit(s[i])
  }

  function DigitChar(d: nat): (c: char)
    requires d < 10
    ensures IsDigit(c) && c as int - '0' as int == d
  {
    ('0' as int + d) as char
  }

  /** The value of a run of digits read left to right, starting from `acc`. */
  function DigitsValue(s: string, acc: nat): nat
    requires AllDigits(s)
  {
    if s == [] then acc else DigitsValue(s[1..], acc * 10 + (s[0] as int - '0' as int))
  }

  /** `%lu`: the decimal digits of `n`, without leading zeros. */
  function Decimal(n: nat): (s: string)
    ensures 1 <= |s| && AllDigits(s)
    ensures |s| > 1 ==> s[0] != '0'
  {
    if n < 10 then [DigitChar(n)] else Decimal(n / 10) + [DigitChar(n % 10)]
  }

  /** Appending a digit multiplies the value by ten and adds the digit. */
  lemma {:induction false} DigitsValueAppend(s: string, c: char, acc: nat)
    requires AllDigits(s) && IsDigit(c)
    ensures DigitsValue(s + [c], acc) == DigitsValue(s, acc) * 10 + (c as int - '0' as int)
    decreases |s|
  {
    if s == [] {
    } else {
      assert (s + [c])[1..] == s[1..] + [c];
      DigitsValueAppend(s[1..], c, acc * 10 + (s[0] as int - '0' as int));
    }
  }

  /** Reading back the digits of `n` gives `n`: the partner of `Decimal`. */
  lemma {:induction false} DecimalValue(n: nat)
    ensures DigitsValue(Decimal(n), 0) == n
    decreases n
  {
    if n >= 10 {
      DecimalValue(n / 10);
      DigitsValueAppend(Decimal(n / 10), DigitChar(n % 10), 0);
    }
  }

  /** A number below `10^k` has at most `k` digits. */
  lemma {:induction false} DecimalLength(n: nat, k: nat)
    requires 1 <= k && n < Power10(k)
    ensures |Decimal(n)| <= k
    decreases k
  {
    if n >= 10 {
      DecimalLength(n / 10, k - 1);
    }
  }

  function Power10(k: nat): nat {
    if k == 0 then 1 else 10 * Power10(k - 1)
  }

  lemma Power10Values()
    ensures Power10(2) == 100 && Power10(4) == 10000 && Power10(15) == 1_000_000_000_000_000
  {
    assert Power10(2) == 100;
    assert Power10(4) == 10000;
    assert Power10(8) == 100_000_000;
    assert Power10(15) == 1_000_000_000_000_000;
  }

  /** `%02lu`: at least two digits, zero-padded on the left. */
  function Pad2(n: nat): (s: string)
    ensures 2 <= |s| && AllDigits(s)
    ensures n < 100 ==> |s| == 2
  {
    if n < 10 then ['0'] + Decimal(n)
    else
      if n < 100 then Power10Values(); DecimalLength(n, 2); Decimal(n) else Decimal(n)
  }

  /** The zero padding does not change the value read back. */
  lemma Pad2Value(n: nat)
    ensures DigitsValue(Pad2(n), 0) == n
  {
    DecimalValue(n);
    if n < 10 {
      assert Pad2(n)[1..] == Decimal(n);
    }
  }

  /** An uptime split into whole days and the hours, minutes and seconds left over. */
  datatype Duration = Duration(days: nat, hours: nat, mins: nat, secs: nat)

  /** The integer division and remainder of formatting.c:20-23. */
  function Split(seconds: nat): (d: Duration)
    ensures d.hours < 24 && d.mins < 60 && d.secs < 60
    ensures d.days * 86400 + d.hours * 3600 + d.mins * 60 + d.secs == seconds
  {
    var days := seconds / 86400;
    var hours := (seconds % 86400) / 3600;
    var mins := (seconds % 3600) / 60;
    var secs := seconds % 60;
    SplitArithmetic(seconds);
    Duration(days, hours, mins, secs)
  }

  /** The remainders of formatting.c nest: the minutes taken modulo an hour agree with those within the day. */
  lemma SplitArithmetic(seconds: nat)
    ensures (seconds / 86400) * 86400 + ((seconds % 86400) / 3600) * 3600
            + ((seconds % 3600) / 60) * 60 + seconds % 60 == seconds
  {
    HourWithinDay(seconds);
    MinuteWithinHour(seconds);
  }

  lemma HourWithinDay(x: nat)
    ensures (x % 86400) % 3600 == x % 3600
  {
    var q, r := x / 86400, x % 86400;
    assert x == 3600 * (24 * q + r / 3600) + r % 3600;
  }

  lemma MinuteWithinHour(x: nat)
    ensures (x % 3600) % 60 == x % 60
  {
    var q, r := x / 3600, x % 3600;
    assert x == 60 * (60 * q + r / 60) + r % 60;
  }

  /** The components in their ranges are determined by the total: `Split` is the only such split. */
  lemma SplitUnique(seconds: nat, d: Duration)
    requires d.hours < 24 && d.mins < 60 && d.secs < 60
    requires d.days * 86400 + d.hours * 3600 + d.mins * 60 + d.secs == seconds
    ensures d == Split(seconds)
  {
    var e := Split(seconds);
    var x := d.hours * 3600 + d.mins * 60 + d.secs;
    var y := e.hours * 3600 + e.mins * 60 + e.secs;
    assert x < 86400 && y < 86400;
    assert d.days == e.days;
    assert d.hours == e.hours;
    assert d.mins == e.mins;
  }

  /**
    The text of `format_uptime`: whole days, hours and minutes when there is
    at least a day; else hours, minutes and seconds when there is at least an
    hour; else minutes and seconds when there is at least a minute; else the
    seconds. The leading number is unpadded, the others have two digits.
   */
  function UptimeText(seconds: nat): (t: string)
    ensures |t| >= 2 && t[|t| - 1] == (if seconds >= 86400 then 'm' else 's')
  {
    var d := Split(seconds);
    if d.days > 0 then Decimal(d.days) + ("d " + (Pad2(d.hours) + ("h " + (Pad2(d.mins) + "m"))))
    else if d.hours > 0 then Decimal(d.hours) + ("h " + (Pad2(d.mins) + ("m " + (Pad2(d.secs) + "s"))))
    else if d.mins > 0 then Decimal(d.mins) + ("m " + (Pad2(d.secs) + "s"))
    else Decimal(d.secs) + "s"
  }

  /** What `snprintf` leaves in a buffer of `bufSize` bytes: nothing for size 0, else the text cut to `bufSize - 1`. */
  function Snprintf(text: string, bufSize: nat): (w: Option<string>)
    ensures w.None? <==> bufSize == 0
    ensures w.Some? ==> |w.value| <= bufSize - 1 && |w.value| <= |text| && w.value == text[..|w.value|]
    ensures w.Some? ==> (|w.value| == |text| || |w.value| == bufSize - 1)
  {
    if bufSize == 0 then None
    else if |text| <= bufSize - 1 then Some(text)
    else Some(text[..bufSize - 1])
  }

  /**
    `format_uptime(seconds, buffer, bufSize)`: a prefix of the uptime text,
    the whole of it in any buffer of 25 bytes or more.
   */
  function FormatUptime(seconds: u64, bufSize: nat): (w: Option<string>)
    ensures w.None? <==> bufSize == 0
    ensures w.Some? ==> |w.value| <= |UptimeText(seconds as nat)| && w.value == UptimeText(seconds as nat)[..|w.value|]
    ensures bufSize >= 25 ==> w == Some(UptimeText(seconds as nat))
  {
    UptimeTextLength(seconds);
    Snprintf(UptimeText(seconds as nat), bufSize)
  }

  /** The seconds a unit letter of an uptime text stands for. */
  function UnitSeconds(c: char): nat {
    match c
    case 'd' => 86400
    case 'h' => 3600
    case 'm' => 60
    case _ => 1
  }

  /**
    A reader of uptime texts, independent of the formatter: digits build a
    number, a unit letter adds it to the total, spaces separate. `num` is the
    number being read, `total` the seconds so far.
   */
  function Scan(t: string, num: nat, total: nat): Option<nat>
    decreases |t|
  {
    if t == [] then (if num == 0 then Some(total) else None)
    else if IsDigit(t[0]) then Scan(t[1..], num * 10 + (t[0] as int - '0' as int), total)
    else if t[0] in "dhms" then Scan(t[1..], 0, total + num * UnitSeconds(t[0]))
    else if t[0] == ' ' then Scan(t[1..], num, total)
    else None
  }

  /** Reading a run of digits builds its value onto the number being read. */
  lemma {:induction false} ScanDigits(s: string, rest: string, num: nat, total: nat)
    requires AllDigits(s)
    ensures Scan(s + rest, num, total) == Scan(rest, DigitsValue(s, num), total)
    decreases |s|
  {
    if s != [] {
      var next := num * 10 + (s[0] as int - '0' as int);
      assert (s + rest)[0] == s[0] && IsDigit(s[0]);
      assert (s + rest)[1..] == s[1..] + rest;
      assert Scan(s + rest, num, total) == Scan(s[1..] + rest, next, total);
      assert DigitsValue(s, num) == DigitsValue(s[1..], next);
      ScanDigits(s[1..], rest, next, total);
    } else {
      assert s + rest == rest;
    }
  }

  /** A number, its unit letter and what follows. */
  lemma ScanField(digits: string, n: nat, unit: char, rest: string, total: nat)
    requires AllDigits(digits) && DigitsValue(digits, 0) == n && unit in "dhms"
    ensures Scan(digits + ([unit] + rest), 0, total) == Scan(rest, 0, total + n * UnitSeconds(unit))
  {
    ScanDigits(digits, [unit] + rest, 0, total);
    assert ([unit] + rest)[1..] == rest;
  }

  /** A number, its unit letter, a space and what follows. */
  lemma ScanSpacedField(digits: string, n: nat, unit: char, rest: string, total: nat)
    requires AllDigits(digits) && DigitsValue(digits, 0) == n && unit in "dhms"
    ensures Scan(digits + ([unit, ' '] + rest), 0, total) == Scan(rest, 0, total + n * UnitSeconds(unit))
  {
    ScanField(digits, n, unit, [' '] + rest, total);
    assert [unit] + ([' '] + rest) == [unit, ' '] + rest;
    assert ([' '] + rest)[1..] == rest;
  }

  /**
    Reading an uptime text back gives the seconds, except that a text of a
    day or more drops the seconds: the partner of `UptimeText`.
   */
  lemma UptimeRoundTrip(seconds: nat)
    ensures Scan(UptimeText(seconds), 0, 0) == Some(if seconds >= 86400 then seconds - seconds % 60 else seconds)
  {
    var d := Split(seconds);
    var t := UptimeText(seconds);
    assert d.secs == seconds % 60;
    if d.days > 0 {
      assert t == Decimal(d.days) + ("d " + (Pad2(d.hours) + ("h " + (Pad2(d.mins) + "m"))));
      DaysRoundTrip(d);
      assert seconds >= 86400 && Scan(t, 0, 0) == Some(seconds - seconds % 60);
    } else if d.hours > 0 {
      assert t == Decimal(d.hours) + ("h " + (Pad2(d.mins) + ("m " + (Pad2(d.secs) + "s"))));
      HoursRoundTrip(d);
      assert seconds < 86400 && Scan(t, 0, 0) == Some(seconds);
    } else if d.mins > 0 {
      assert t == Decimal(d.mins) + ("m " + (Pad2(d.secs) + "s"));
      MinutesRoundTrip(d);
      assert seconds < 86400 && Scan(t, 0, 0) == Some(seconds);
    } else {
      assert t == Decimal(d.secs) + "s";
      DecimalValue(d.secs);
      assert "s" == ['s'] + [];
      ScanField(Decimal(d.secs), d.secs, 's', [], 0);
      assert seconds < 86400 && Scan(t, 0, 0) == Some(seconds);
    }
  }

  lemma DaysRoundTrip(d: Duration)
    ensures Scan(Decimal(d.days) + ("d " + (Pad2(d.hours) + ("h " + (Pad2(d.mins) + "m")))), 0, 0)
         == Some(d.days * 86400 + d.hours * 3600 + d.mins * 60)
  {
    DecimalValue(d.days);
    Pad2Value(d.hours);
    Pad2Value(d.mins);
    assert "d " + (Pad2(d.hours) + ("h " + (Pad2(d.mins) + "m")))
        == ['d', ' '] + (Pad2(d.hours) + (['h', ' '] + (Pad2(d.mins) + (['m'] + []))));
    ScanSpacedField(Decimal(d.days), d.days, 'd', Pad2(d.hours) + (['h', ' '] + (Pad2(d.mins) + (['m'] + []))), 0);
    ScanSpacedField(Pad2(d.hours), d.hours, 'h', Pad2(d.mins) + (['m'] + []), d.days * 86400);
    ScanField(Pad2(d.mins), d.mins, 'm', [], d.days * 86400 + d.hours * 3600);
  }

  lemma HoursRoundTrip(d: Duration)
    ensures Scan(Decimal(d.hours) + ("h " + (Pad2(d.mins) + ("m " + (Pad2(d.secs) + "s")))), 0, 0)
         == Some(d.hours * 3600 + d.mins * 60 + d.secs)
  {
    DecimalValue(d.hours);
    Pad2Value(d.mins);
    Pad2Value(d.secs);
    assert "h " + (Pad2(d.mins) + ("m " + (Pad2(d.secs) + "s")))
        == ['h', ' '] + (Pad2(d.mins) + (['m', ' '] + (Pad2(d.secs) + (['s'] + []))));
    ScanSpacedField(Decimal(d.hours), d.hours, 'h', Pad2(d.mins) + (['m', ' '] + (Pad2(d.secs) + (['s'] + []))), 0);
    ScanSpacedField(Pad2(d.mins), d.mins, 'm', Pad2(d.secs) + (['s'] + []), d.hours * 3600);
    ScanField(Pad2(d.secs), d.secs, 's', [], d.hours * 3600 + d.mins * 60);
  }

  lemma MinutesRoundTrip(d: Duration)
    ensures Scan(Decimal(d.mins) + ("m " + (Pad2(d.secs) + "s")), 0, 0) == Some(d.mins * 60 + d.secs)
  {
    DecimalValue(d.mins);
    Pad2Value(d.secs);
    assert "m " + (Pad2(d.secs) + "s") == ['m', ' '] + (Pad2(d.secs) + (['s'] + []));
    ScanSpacedField(Decimal(d.mins), d.mins, 'm', Pad2(d.secs) + (['s'] + []), 0);
    ScanField(Pad2(d.secs), d.secs, 's', [], d.mins * 60);
  }

  /** The layout is chosen by the first non-zero component. */
  lemma UptimeLayout(seconds: nat)
    ensures seconds >= 86400 ==>
      |Decimal(seconds / 86400)| < |UptimeText(seconds)| && UptimeText(seconds)[|Decimal(seconds / 86400)|] == 'd'
    ensures 3600 <= seconds < 86400 ==>
      |Decimal(seconds / 3600)| < |UptimeText(seconds)| && UptimeText(seconds)[|Decimal(seconds / 3600)|] == 'h'
    ensures 60 <= seconds < 3600 ==>
      |Decimal(seconds / 60)| < |UptimeText(seconds)| && UptimeText(seconds)[|Decimal(seconds / 60)|] == 'm'
    ensures seconds < 60 ==> UptimeText(seconds) == Decimal(seconds) + "s"
  {
    var d := Split(seconds);
    SplitUnique(seconds, Duration(seconds / 86400, (seconds % 86400) / 3600, (seconds % 3600) / 60, seconds % 60));
    if seconds < 86400 {
      assert d.days == 0;
      if seconds < 3600 {
        assert d.hours == 0;
        if seconds >= 60 {
          assert d.mins == seconds / 60;
        } else {
          assert d.mins == 0 && d.secs == seconds;
        }
      } else {
        assert d.hours == seconds / 3600;
      }
    }
  }

  /** The cases of the formatting unit tests below a minute. */
  lemma UptimeSecondsExamples()
    ensures UptimeText(0) == "0s"
    ensures UptimeText(45) == "45s"
  {
  }

  /** "2m 05s" for 125 seconds. */
  lemma UptimeMinutesExample()
    ensures UptimeText(125) == "2m 05s"
  {
    assert Split(125) == Duration(0, 0, 2, 5);
    assert Pad2(5) == "05";
  }

  /** "2h 01m 05s" for 7265 seconds. */
  lemma UptimeHoursExample()
    ensures UptimeText(7265) == "2h 01m 05s"
  {
    assert Split(7265) == Duration(0, 2, 1, 5);
    assert Pad2(1) == "01" && Pad2(5) == "05";
  }

  /** "1d 01h 02m" for 90125 seconds: the seconds are dropped. */
  lemma UptimeDaysExample()
    ensures UptimeText(90125) == "1d 01h 02m"
  {
    assert Split(90125) == Duration(1, 1, 2, 5);
    assert Pad2(1) == "01" && Pad2(2) == "02";
  }

  /**
    No uptime text is longer than 24 characters: at most 15 digits of days
    (2^64 - 1 seconds is under 10^15 days), then "d ", "hh", "h ", "mm", "m".
   */
  lemma UptimeTextLength(seconds: u64)
    ensures |UptimeText(seconds as nat)| <= 24
  {
    var d := Split(seconds as nat);
    Power10Values();
    DecimalLength(d.days, 15);
    DecimalLength(d.hours, 2);
    DecimalLength(d.mins, 2);
    DecimalLength(d.secs, 2);
  }

  /** The unit `format_bytes` chooses. */
  datatype ByteUnit = KB | MB | GB

  /** The size thresholds of formatting.c:10-16. */
  function UnitFor(kb: u64): (u: ByteUnit)
    ensures u == KB <==> kb < 1024
    ensures u == MB <==> 1024 <= kb < 1024 * 1024
    ensures u == GB <==> kb >= 1024 * 1024
  {
    if kb < 1024 then KB else if kb < 1024 * 1024 then MB else GB
  }

  /** Units are ordered like the sizes they label. */
  function Rank(u: ByteUnit): nat {
    match u
    case KB => 0
    case MB => 1
    case GB => 2
  }

  /** A larger size never gets a smaller unit. */
  lemma UnitMonotone(kb1: u64, kb2: u64)
    requires kb1 <= kb2
    ensures Rank(UnitFor(kb1)) <= Rank(UnitFor(kb2))
  {
  }

  /** `format_bytes`: the exact text in kilobytes, or which floating-point unit is printed. */
  datatype BytesText = Kilobytes(written: Option<string>) | Megabytes | Gigabytes

  function FormatBytes(kb: u64, bufSize: nat): (r: BytesText)
    ensures r.Kilobytes? <==> UnitFor(kb) == KB
    ensures r.Megabytes? <==> UnitFor(kb) == MB
    ensures r.Gigabytes? <==> UnitFor(kb) == GB
  {
    match UnitFor(kb)
    case KB => Kilobytes(Snprintf(Decimal(kb as nat) + " KB", bufSize))
    case MB => Megabytes
    case GB => Gigabytes
  }

  /**
    A size below 1024 KB is written whole into the 32-byte buffers of the
    display, as its decimal value followed by " KB", and reads back as the size.
   */
  lemma KilobytesText(kb: u64)
    requires kb < 1024
    ensures var t := Decimal(kb as nat) + " KB";
      && FormatBytes(kb, 32) == Kilobytes(Some(t))
      && t[|t| - 3..] == " KB" && AllDigits(t[..|t| - 3])
      && DigitsValue(t[..|t| - 3], 0) == kb as nat
  {
    DecimalValue(kb as nat);
    Power10Values();
    DecimalLength(kb as nat, 4);
    var t := Decimal(kb as nat) + " KB";
    assert t[..|t| - 3] == Decimal(kb as nat);
  }

  /** The kilobyte case of the formatting unit tests. */
  lemma BytesExamples()
    ensures FormatBytes(512, 64) == Kilobytes(Some("512 KB"))
    ensures FormatBytes(1536, 64) == Megabytes
    ensures FormatBytes(2097152, 64) == Gigabytes
    ensures FormatBytes(16777216, 64) == Gigabytes
  {
    assert DigitChar(5) == '5' && DigitChar(1) == '1' && DigitChar(2) == '2';
    assert Decimal(51) == "51";
    assert Decimal(512) + " KB" == "512 KB";
  }
}
