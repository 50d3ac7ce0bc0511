/** The NMEA 0183 receiver simulator of src/GPSSim.hpp: integer and
    coordinate formatting, sentence framing with its checksum, the RMC and
    GGA sentence layouts, and the simulator object with its run flag, its
    position state and the bytes it writes to the pseudo-terminal. */
module GpsSim {
  import opened Strings

  // ----- formatar_inteiro -----

  /** `value` written by `std::setw(width) << std::setfill('0') << value`.
      With the default (right) adjustment the fill goes in front of the
      whole text, so a negative value pads before its sign ("0-5"). */
  function FormatInteger(value: int, width: int): (r: string)
    ensures |r| >= 1 && |r| >= width
  {
    LeftPad(if value < 0 then "-" + Digits(-value) else Digits(value), width, '0')
  }

  /** A non-negative value is written in decimal digits only, padded to at
      least `width` characters, exactly `width` when it fits, and reads back
      as itself. */
  lemma {:induction false} FormatIntegerNonNegative(value: int, width: int)
    requires value >= 0
    ensures AllDigits(FormatInteger(value, width))
    ensures |FormatInteger(value, width)| >= 1 && |FormatInteger(value, width)| >= width
    ensures ValueOf(FormatInteger(value, width)) == value
    ensures 1 <= width && value < Pow10(width) ==> |FormatInteger(value, width)| == width
  {
    var d := Digits(value);
    var z := if |d| >= width then 0 else width - |d|;
    assert FormatInteger(value, width) == seq(z, _ => '0') + d;
    ValueOfLeadingZeros(z, d);
    DigitsValue(value);
    if 1 <= width && value < Pow10(width) {
      DigitsLength(value, width);
    }
  }

  /** Whatever the value, the text is non-empty and made of digits and at
      most a minus sign: it holds no field separator, no `*` and no line
      break. */
  lemma {:induction false} FormatIntegerIsDecimal(value: int, width: int)
    ensures DecimalText(FormatInteger(value, width))
  {
    var d := if value < 0 then Digits(-value) else Digits(value);
    var s := if value < 0 then "-" + d else d;
    var r := FormatInteger(value, width);
    forall i | 0 <= i < |r| ensures IsDecimalChar(r[i]) {
      if i >= |r| - |s| {
        assert r[i] == s[i - (|r| - |s|)];
        if value < 0 && i > |r| - |s| {
          assert s[i - (|r| - |s|)] == d[i - (|r| - |s|) - 1];
        }
      }
    }
  }

  // ----- converter_graus_para_nmea -----

  function Abs(x: real): (r: real)
    ensures r >= 0.0 && (r == x || r == -x)
  {
    if x >= 0.0 then x else -x
  }

  /** The hemisphere letter: N or S for a latitude, E or W for a longitude,
      the first of each pair for a value that is not negative. */
  function Hemisphere(degrees: real, isLatitude: bool): (h: char)
    ensures h in "NSEW"
    ensures h in "NS" <==> isLatitude
    ensures h in "NE" <==> degrees >= 0.0
  {
    if isLatitude then (if degrees >= 0.0 then 'N' else 'S')
    else (if degrees >= 0.0 then 'E' else 'W')
  }

  /** `floor(|x|)`, the whole degrees of the coordinate. */
  function WholeDegrees(x: real): (d: nat)
    ensures d as real <= Abs(x) < d as real + 1.0
  {
    Abs(x).Floor
  }

  /** The minutes left over after the whole degrees. */
  function MinutesOf(x: real): (m: real)
    ensures 0.0 <= m < 60.0
  {
    (Abs(x) - WholeDegrees(x) as real) * 60.0
  }

  /** The degree part of the ddmm.mmmm field: two digits for a latitude,
      three for a longitude. */
  function DegreeField(x: real, isLatitude: bool): string
  {
    FormatInteger(WholeDegrees(x), if isLatitude then 2 else 3)
  }

  /** The minutes part: four decimals, zero-filled to seven characters. */
  function MinutesField(x: real, lib: FloatLib): string
  {
    LeftPad(lib.fixed(MinutesOf(x), 4), 7, '0')
  }

  /** The `ddmm` text and hemisphere letter `converter_graus_para_nmea`
      produces for `degrees`. */
  function DegreesToNmea(degrees: real, isLatitude: bool, lib: FloatLib): (r: (string, char))
    ensures r.1 in "NSEW" && (r.1 in "NS" <==> isLatitude) && (r.1 in "NE" <==> degrees >= 0.0)
  {
    (DegreeField(degrees, isLatitude) + MinutesField(degrees, lib), Hemisphere(degrees, isLatitude))
  }

  /** The number the `ddmm.mmmm` text stands for: whole degrees times 100
      plus the minutes. */
  function NmeaValue(x: real): real
  {
    100.0 * WholeDegrees(x) as real + MinutesOf(x)
  }

  /** The degree field is `floor(|x|)` in exactly two (latitude) or three
      (longitude) digits for a coordinate in range. */
  lemma DegreeFieldWidth(x: real, isLatitude: bool)
    requires Abs(x) < if isLatitude then 100.0 else 1000.0
    ensures AllDigits(DegreeField(x, isLatitude))
    ensures |DegreeField(x, isLatitude)| == if isLatitude then 2 else 3
    ensures ValueOf(DegreeField(x, isLatitude)) == WholeDegrees(x)
  {
    var w := if isLatitude then 2 else 3;
    assert Pow10(2) == 100 && Pow10(3) == 1000;
    FormatIntegerNonNegative(WholeDegrees(x), w);
  }

  /** With a formatter that writes decimal text, both parts of the
      coordinate field are decimal text. */
  lemma {:induction false} NmeaFieldIsDecimal(x: real, isLatitude: bool, lib: FloatLib)
    requires DecimalFormatting(lib)
    ensures DecimalText(DegreesToNmea(x, isLatitude, lib).0)
  {
    FormatIntegerIsDecimal(WholeDegrees(x), if isLatitude then 2 else 3);
    var f := lib.fixed(MinutesOf(x), 4);
    assert DecimalText(f);
    var m := MinutesField(x, lib);
    forall i | 0 <= i < |m| ensures IsDecimalChar(m[i]) {
      if i >= |m| - |f| { assert m[i] == f[i - (|m| - |f|)]; }
    }
    var d := DegreeField(x, isLatitude);
    var t := d + m;
    forall i | 0 <= i < |t| ensures IsDecimalChar(t[i]) {
      if i >= |d| { assert t[i] == m[i - |d|]; } else { assert t[i] == d[i]; }
    }
  }

  // ----- finalizar_corpo_de_frase -----

  /** A character as the byte `(uint8_t)c`. */
  function ByteOf(c: char): bv8
  {
    ((c as int) % 256) as bv8
  }

  /** The NMEA checksum: the exclusive-or of every byte of `s`. */
  function Checksum(s: string): (c: bv8)
  {
    if s == [] then 0 else Checksum(s[..|s| - 1]) ^ ByteOf(s[|s| - 1])
  }

  /** The checksum of two texts one after the other is the exclusive-or of
      their checksums. */
  lemma {:induction false} ChecksumAppend(a: string, b: string)
    ensures Checksum(a + b) == Checksum(a) ^ Checksum(b)
    decreases |b|
  {
    if b == [] {
      assert a + b == a;
    } else {
      assert (a + b)[..|a + b| - 1] == a + b[..|b| - 1];
      ChecksumAppend(a, b[..|b| - 1]);
    }
  }

  function HexDigit(n: nat): (c: char)
    requires n < 16
    ensures c in "0123456789ABCDEF"
  {
    "0123456789ABCDEF"[n]
  }

  /** The value of an upper-case hexadecimal digit, -1 for anything else. */
  function HexValue(c: char): int
  {
    if '0' <= c <= '9' then c as int - '0' as int
    else if 'A' <= c <= 'F' then c as int - 'A' as int + 10
    else -1
  }

  /** `b` as two upper-case hex digits, as `std::uppercase << std::hex <<
      std::setw(2) << std::setfill('0') << (int)b` writes it. */
  function HexByte(b: bv8): (h: string)
  {
    [HexDigit(b as int / 16), HexDigit(b as int % 16)]
  }

  /** The complete sentence for `body`: `$`, the body, `*`, the checksum
      of the body, CR LF. */
  function Frame(body: string): (s: string)
    ensures |s| == |body| + 6 && s[0] == '$' && s[1..|body| + 1] == body && s[|body| + 1] == '*'
    ensures s[|body| + 4..] == "\r\n"
  {
    FrameLayout(body, HexByte(Checksum(body)));
    "$" + body + "*" + HexByte(Checksum(body)) + "\r\n"
  }

  /** `finalizar_corpo_de_frase`: XORs the body byte by byte, then frames it. */
  method FinalizeSentence(body: string) returns (sentence: string)
    ensures sentence == Frame(body)
  {
    var parity: bv8 := 0;
    for i := 0 to |body|
      invariant parity == Checksum(body[..i])
    {
      assert body[..i + 1][..i] == body[..i];
      parity := parity ^ ByteOf(body[i]);
    }
    assert body[..|body|] == body;
    sentence := "$" + body + "*" + HexByte(parity) + "\r\n";
  }

  /** What a receiver checking a sentence would test: it starts with `$`,
      ends with `*`, two hex digits and CR LF, and those digits are the
      checksum of the bytes between `$` and `*`. */
  predicate ChecksumMatches(sentence: string)
  {
    var n := |sentence|;
    n >= 6 && sentence[0] == '$' && sentence[n - 5] == '*'
    && sentence[n - 2..] == "\r\n"
    && sentence[n - 4..n - 2] == HexByte(Checksum(sentence[1..n - 5]))
  }

  lemma HexDigitValue(n: nat)
    requires n < 16
    ensures HexValue(HexDigit(n)) == n
  {
    var digits := "0123456789ABCDEF";
    assert digits[n] == HexDigit(n);
  }

  /** The two digits are upper-case hexadecimal and read back as the byte
      they were written from. */
  lemma HexByteReadsBack(b: bv8)
    ensures |HexByte(b)| == 2
    ensures 0 <= HexValue(HexByte(b)[0]) && 0 <= HexValue(HexByte(b)[1])
    ensures HexValue(HexByte(b)[0]) * 16 + HexValue(HexByte(b)[1]) == b as int
  {
    var v := b as int;
    HexDigitValue(v / 16);
    HexDigitValue(v % 16);
  }

  /** The pieces of a framed text sit where the frame puts them. */
  lemma FrameLayout(body: string, h: string)
    requires |h| == 2
    ensures var s := "$" + body + "*" + h + "\r\n";
            |s| == |body| + 6 && s[0] == '$' && s[1..|body| + 1] == body && s[|body| + 1] == '*'
            && s[|body| + 2..|body| + 4] == h && s[|body| + 4..] == "\r\n"
  {
  }

  /** A framed body is `|body| + 6` characters long (`$`, `*`, two hex
      digits, CR and LF around the body), carries the body between `$` and
      `*`, and passes the receiver's checksum test. */
  lemma FrameIsWellFormed(body: string)
    ensures |Frame(body)| == |body| + 6
    ensures Frame(body)[1..|body| + 1] == body
    ensures ChecksumMatches(Frame(body))
  {
    var h := HexByte(Checksum(body));
    FrameLayout(body, h);
  }

  // ----- _gerar_corpo_de_frase_rmc / _gerar_corpo_de_frase_gga -----

  /** The broken-down UTC time `gmtime_r` fills in (a `std::tm`). */
  datatype Tm = Tm(hour: int, minute: int, second: int, mday: int, mon: int, year: int)

  /** The ranges `gmtime_r` guarantees for the fields the sentences use. */
  predicate ValidTm(t: Tm)
  {
    0 <= t.hour <= 23 && 0 <= t.minute <= 59 && 0 <= t.second <= 60
    && 1 <= t.mday <= 31 && 0 <= t.mon <= 11
  }

  /** C++ `%`, which truncates towards zero: the remainder has the sign of
      the dividend and differs from it by a multiple of the divisor. */
  function TruncRem(a: int, b: int): (r: int)
    requires b > 0
    ensures -b < r < b && (a >= 0 ==> r == a % b)
    ensures a < 0 ==> r <= 0 && -r == (-a) % b
  {
    if a >= 0 then a % b else -((-a) % b)
  }

  /** The `hhmmss.00` time field. */
  function TimeField(t: Tm): (f: string)
  {
    FormatInteger(t.hour, 2) + FormatInteger(t.minute, 2) + FormatInteger(t.second, 2) + ".00"
  }

  /** The `ddmmyy` date field of RMC. */
  function DateField(t: Tm): (f: string)
  {
    FormatInteger(t.mday, 2) + FormatInteger(t.mon + 1, 2) + FormatInteger(TruncRem(t.year + 1900, 100), 2)
  }

  /** The four position fields both sentences carry: latitude, its
      hemisphere, longitude, its hemisphere. */
  function PositionFields(lat: string, latHemi: char, lon: string, lonHemi: char): seq<string>
  {
    [lat, [latHemi], lon, [lonHemi]]
  }

  /** The RMC fields in sentence order, given the text of the variable
      ones: talker and type, time, status `A`, the position, speed in
      knots, course `0.00`, date, empty magnetic variation and its
      direction, mode `A`. */
  function RmcLayout(time: string, lat: string, latHemi: char, lon: string, lonHemi: char,
                     speed: string, date: string): (fields: seq<string>)
  {
    ["GPRMC", time, "A"] + PositionFields(lat, latHemi, lon, lonHemi) + [speed, "0.00", date] + ["", "", "A"]
  }

  /** The GGA fields in sentence order, given the text of the variable
      ones: talker and type, time, the position, fix quality `1`,
      satellites, HDOP, altitude, its unit `M`, geoid separation `0.0` and
      its unit `M`, two empty DGPS fields. */
  function GgaLayout(time: string, lat: string, latHemi: char, lon: string, lonHemi: char,
                     sats: string, hdop: string, alt: string): (fields: seq<string>)
  {
    ["GPGGA", time] + PositionFields(lat, latHemi, lon, lonHemi) + ["1", sats, hdop, alt] + ["M", "0.0", "M", "", ""]
  }

  /** The fields of the RMC body, in order. */
  function RmcFields(t: Tm, lat: real, lon: real, knots: real, lib: FloatLib): seq<string>
  {
    var (latText, latHemi) := DegreesToNmea(lat, true, lib);
    var (lonText, lonHemi) := DegreesToNmea(lon, false, lib);
    RmcLayout(TimeField(t), latText, latHemi, lonText, lonHemi, lib.fixed(knots, 2), DateField(t))
  }

  /** The fields of the GGA body, in order. */
  function GgaFields(t: Tm, lat: real, lon: real, alt: real, sat: int, hdop: real, lib: FloatLib): seq<string>
  {
    var (latText, latHemi) := DegreesToNmea(lat, true, lib);
    var (lonText, lonHemi) := DegreesToNmea(lon, false, lib);
    GgaLayout(TimeField(t), latText, latHemi, lonText, lonHemi,
              FormatInteger(sat, 0), lib.fixed(hdop, 1), lib.fixed(alt, 1))
  }

  /** The RMC body, the text between `$` and `*`. */
  function RmcBody(t: Tm, lat: real, lon: real, knots: real, lib: FloatLib): (b: string)
  {
    var latField := DegreesToNmea(lat, true, lib);
    var lonField := DegreesToNmea(lon, false, lib);
    RmcLayoutText(TimeField(t), latField.0, latField.1, lonField.0, lonField.1, lib.fixed(knots, 2), DateField(t));
    Join(RmcFields(t, lat, lon, knots, lib), ',')
  }

  /** The GGA body, the text between `$` and `*`. */
  function GgaBody(t: Tm, lat: real, lon: real, alt: real, sat: int, hdop: real, lib: FloatLib): (b: string)
  {
    var latField := DegreesToNmea(lat, true, lib);
    var lonField := DegreesToNmea(lon, false, lib);
    GgaLayoutText(TimeField(t), latField.0, latField.1, lonField.0, lonField.1,
                  FormatInteger(sat, 0), lib.fixed(hdop, 1), lib.fixed(alt, 1));
    Join(GgaFields(t, lat, lon, alt, sat, hdop, lib), ',')
  }

  /** An RMC body opens with `GPRMC,`, the time and `,A,` (status "valid")
      and closes with the two empty fields and the mode: `,,,A`. */
  lemma RmcLayoutText(time: string, lat: string, latHemi: char, lon: string, lonHemi: char,
                      speed: string, date: string)
    ensures var b := Join(RmcLayout(time, lat, latHemi, lon, lonHemi, speed, date), ',');
            "GPRMC," + time + ",A," <= b && |b| >= 4 && b[|b| - 4..] == ",,,A"
  {
    var head := ["GPRMC", time, "A"];
    var pos := PositionFields(lat, latHemi, lon, lonHemi);
    var mid := [speed, "0.00", date];
    var tail := ["", "", "A"];
    assert head + pos + mid + tail == head + (pos + mid + tail);
    JoinEnds(head, pos + mid + tail, ',');
    JoinEnds(head + pos + mid, tail, ',');
    assert head[1..] == [time, "A"];
    assert tail[1..] == ["", "A"];
  }

  /** A GGA body opens with `GPGGA,` and the time and closes with the
      altitude unit, geoid separation and its unit and the two empty DGPS
      fields: `,M,0.0,M,,`. */
  lemma GgaLayoutText(time: string, lat: string, latHemi: char, lon: string, lonHemi: char,
                      sats: string, hdop: string, alt: string)
    ensures var b := Join(GgaLayout(time, lat, latHemi, lon, lonHemi, sats, hdop, alt), ',');
            "GPGGA," + time + "," <= b && |b| >= 10 && b[|b| - 10..] == ",M,0.0,M,,"
  {
    var head := ["GPGGA", time];
    var pos := PositionFields(lat, latHemi, lon, lonHemi);
    var mid := ["1", sats, hdop, alt];
    var tail := ["M", "0.0", "M", "", ""];
    assert head + pos + mid + tail == head + (pos + mid + tail);
    JoinEnds(head, pos + mid + tail, ',');
    JoinEnds(head + pos + mid, tail, ',');
    GgaTailText();
  }

  lemma GgaTailText()
    ensures Join(["M", "0.0", "M", "", ""], ',') == "M,0.0,M,,"
  {
    var tail := ["M", "0.0", "M", "", ""];
    assert tail[1..][1..][1..] == ["", ""];
    assert tail[1..][1..] == ["M", "", ""];
    assert tail[1..] == ["0.0", "M", "", ""];
  }

  /** Neither CR nor LF occurs in `s`. */
  predicate Unbroken(s: string)
  {
    '\r' !in s && '\n' !in s
  }

  lemma DecimalIsUnbroken(s: string)
    requires DecimalText(s)
    ensures Unbroken(s)
  {
  }

  lemma {:induction false} JoinUnbroken(fs: seq<string>)
    requires forall i :: 0 <= i < |fs| ==> Unbroken(fs[i])
    ensures Unbroken(Join(fs, ','))
  {
    JoinChars(fs, ',', '\r');
    JoinChars(fs, ',', '\n');
  }

  lemma RmcLayoutUnbroken(time: string, lat: string, latHemi: char, lon: string, lonHemi: char,
                          speed: string, date: string)
    requires Unbroken(time) && Unbroken(lat) && Unbroken([latHemi]) && Unbroken(lon) && Unbroken([lonHemi])
    requires Unbroken(speed) && Unbroken(date)
    ensures Unbroken(Join(RmcLayout(time, lat, latHemi, lon, lonHemi, speed, date), ','))
  {
    var fs := RmcLayout(time, lat, latHemi, lon, lonHemi, speed, date);
    assert forall i :: 0 <= i < |fs| ==> Unbroken(fs[i]);
    JoinUnbroken(fs);
  }

  lemma GgaLayoutUnbroken(time: string, lat: string, latHemi: char, lon: string, lonHemi: char,
                          sats: string, hdop: string, alt: string)
    requires Unbroken(time) && Unbroken(lat) && Unbroken([latHemi]) && Unbroken(lon) && Unbroken([lonHemi])
    requires Unbroken(sats) && Unbroken(hdop) && Unbroken(alt)
    ensures Unbroken(Join(GgaLayout(time, lat, latHemi, lon, lonHemi, sats, hdop, alt), ','))
  {
    var fs := GgaLayout(time, lat, latHemi, lon, lonHemi, sats, hdop, alt);
    assert forall i :: 0 <= i < |fs| ==> Unbroken(fs[i]);
    JoinUnbroken(fs);
  }

  /** Every field of both sentences is decimal text, a literal or a
      hemisphere letter, so no body holds a CR or LF: the CR LF the frame
      appends is the only line break of a sentence. */
  lemma BodiesHaveNoLineBreaks(t: Tm, lat: real, lon: real, alt: real, knots: real, sat: int, hdop: real, lib: FloatLib)
    requires DecimalFormatting(lib)
    ensures Unbroken(RmcBody(t, lat, lon, knots, lib))
    ensures Unbroken(GgaBody(t, lat, lon, alt, sat, hdop, lib))
  {
    var (latText, latHemi) := DegreesToNmea(lat, true, lib);
    var (lonText, lonHemi) := DegreesToNmea(lon, false, lib);
    TimeFieldIsDecimal(t);
    DateFieldIsDecimal(t);
    NmeaFieldIsDecimal(lat, true, lib);
    NmeaFieldIsDecimal(lon, false, lib);
    FormatIntegerIsDecimal(sat, 0);
    DecimalIsUnbroken(TimeField(t));
    DecimalIsUnbroken(DateField(t));
    DecimalIsUnbroken(latText);
    DecimalIsUnbroken(lonText);
    DecimalIsUnbroken(FormatInteger(sat, 0));
    DecimalIsUnbroken(lib.fixed(knots, 2));
    DecimalIsUnbroken(lib.fixed(hdop, 1));
    DecimalIsUnbroken(lib.fixed(alt, 1));
    RmcLayoutUnbroken(TimeField(t), latText, latHemi, lonText, lonHemi, lib.fixed(knots, 2), DateField(t));
    GgaLayoutUnbroken(TimeField(t), latText, latHemi, lonText, lonHemi,
                      FormatInteger(sat, 0), lib.fixed(hdop, 1), lib.fixed(alt, 1));
  }

  lemma DecimalConcat(a: string, b: string)
    requires DecimalText(a) && DecimalText(b)
    ensures DecimalText(a + b)
  {
    var s := a + b;
    forall i | 0 <= i < |s| ensures IsDecimalChar(s[i]) {
      if i < |a| { assert s[i] == a[i]; } else { assert s[i] == b[i - |a|]; }
    }
  }

  lemma TimeFieldIsDecimal(t: Tm)
    ensures DecimalText(TimeField(t))
  {
    FormatIntegerIsDecimal(t.hour, 2);
    FormatIntegerIsDecimal(t.minute, 2);
    FormatIntegerIsDecimal(t.second, 2);
    DecimalConcat(FormatInteger(t.hour, 2), FormatInteger(t.minute, 2));
    DecimalConcat(FormatInteger(t.hour, 2) + FormatInteger(t.minute, 2), FormatInteger(t.second, 2));
    DecimalConcat(FormatInteger(t.hour, 2) + FormatInteger(t.minute, 2) + FormatInteger(t.second, 2), ".00");
  }

  lemma DateFieldIsDecimal(t: Tm)
    ensures DecimalText(DateField(t))
  {
    var y := TruncRem(t.year + 1900, 100);
    FormatIntegerIsDecimal(t.mday, 2);
    FormatIntegerIsDecimal(t.mon + 1, 2);
    FormatIntegerIsDecimal(y, 2);
    DecimalConcat(FormatInteger(t.mday, 2), FormatInteger(t.mon + 1, 2));
    DecimalConcat(FormatInteger(t.mday, 2) + FormatInteger(t.mon + 1, 2), FormatInteger(y, 2));
  }

  /** For a time `gmtime_r` can produce, the time field is nine characters,
      `hhmmss` in digits that read back as the clock time, then `.00`. */
  lemma {:induction false} TimeFieldShape(t: Tm)
    requires ValidTm(t)
    ensures |TimeField(t)| == 9
    ensures AllDigits(TimeField(t)[..6]) && TimeField(t)[6..] == ".00"
    ensures ValueOf(TimeField(t)[..6]) == 10000 * t.hour + 100 * t.minute + t.second
  {
    assert Pow10(2) == 100;
    FormatIntegerNonNegative(t.hour, 2);
    FormatIntegerNonNegative(t.minute, 2);
    FormatIntegerNonNegative(t.second, 2);
    var h, m, s := FormatInteger(t.hour, 2), FormatInteger(t.minute, 2), FormatInteger(t.second, 2);
    assert TimeField(t)[..6] == h + m + s;
    ValueOfAppend(h, m);
    ValueOfAppend(h + m, s);
  }

  // ----- the simulator object -----

  /** The update period in milliseconds for a frequency in hertz:
      `llround(1000 / f)` for a positive frequency, 1000 otherwise. */
  function PeriodMs(frequencyHz: real): (ms: int)
    ensures frequencyHz <= 0.0 ==> ms == 1000
    ensures frequencyHz > 0.0 ==> ms >= 0 && ms as real - 0.5 <= 1000.0 / frequencyHz < ms as real + 0.5
  {
    if frequencyHz > 0.0 then (1000.0 / frequencyHz + 0.5).Floor else 1000
  }

  /** The simulated GPS module. `written` is everything written so far to
      the master side of the pseudo-terminal; `generators` counts live
      generator threads. */
  class GPSSim {
    var lat: real
    var lon: real
    var alt: real
    var speedKnots: real
    var periodMs: int
    var circular: bool
    var radius: real
    var circlePeriod: real
    var latSim: real
    var lonSim: real
    var running: bool
    var generators: nat
    var written: string

    /** At most one generator thread, and one exactly while running. */
    ghost predicate Valid()
      reads this
    {
      generators == if running then 1 else 0
    }

    /** The constructor: records the position, altitude (10 m unless
        given) and speed (10 knots unless given) and derives the period from
        the frequency (1 Hz unless given); motion starts disabled. */
    constructor (latitude: real, longitude: real, altitude: real := 10.0, frequencyHz: real := 1.0, knots: real := 10.0)
      ensures Valid()
      ensures lat == latitude && lon == longitude && alt == altitude && speedKnots == knots
      ensures periodMs == PeriodMs(frequencyHz)
      ensures !circular && radius == 20.0 && circlePeriod == 20.0
      ensures latSim == 0.0 && lonSim == 0.0
      ensures !running && written == []
    {
      lat, lon, alt, speedKnots := latitude, longitude, altitude, knots;
      periodMs := PeriodMs(frequencyHz);
      circular, radius, circlePeriod := false, 20.0, 20.0;
      latSim, lonSim := 0.0, 0.0;
      running, generators := false, 0;
      written := [];
    }

    /** `init`: the first call starts the one generator, which pins the
        simulated position to the base position; while running it does
        nothing. */
    method Init()
      requires Valid()
      modifies this`running, this`generators, this`latSim, this`lonSim
      ensures Valid() && running
      ensures old(running) ==> generators == old(generators) && latSim == old(latSim) && lonSim == old(lonSim)
      ensures !old(running) ==> latSim == lat && lonSim == lon
    {
      var wasRunning := running;
      running := true;
      if wasRunning {
        return;
      }
      generators := generators + 1;
      latSim, lonSim := lat, lon;
    }

    /** `stop`: clears the flag and joins the generator; when not running it
        does nothing. */
    method Stop()
      requires Valid()
      modifies this`running, this`generators
      ensures Valid() && !running
      ensures !old(running) ==> generators == old(generators)
    {
      var wasRunning := running;
      running := false;
      if !wasRunning {
        return;
      }
      generators := 0;
    }

    /** `config_traj`: guarded by `if (!_mov_circ) return;`, and motion starts
        disabled, so this never changes anything; in particular it never
        enables motion. */
    method ConfigTraj(radiusMeters: real, periodSeconds: real)
      modifies this`radius, this`circlePeriod, this`circular
      ensures circular == old(circular)
      ensures !old(circular) ==> radius == old(radius) && circlePeriod == old(circlePeriod)
      ensures old(circular) ==> radius == radiusMeters && circlePeriod == periodSeconds
    {
      if !circular {
        return;
      }
      radius := radiusMeters;
      circlePeriod := periodSeconds;
      circular := true;
    }

    /** `config_traj` as its documentation describes it: records the radius
        and period of the circle and enables motion. */
    method ConfigTrajIntended(radiusMeters: real, periodSeconds: real)
      modifies this`radius, this`circlePeriod, this`circular
      ensures circular && radius == radiusMeters && circlePeriod == periodSeconds
    {
      radius := radiusMeters;
      circlePeriod := periodSeconds;
      circular := true;
    }

    /** `_update_position`: with motion disabled the simulated position stays
        where it is; with motion enabled it becomes the base position moved
        by the displacement for the elapsed time. */
    method UpdatePosition(deltaLat: real, deltaLon: real)
      modifies this`latSim, this`lonSim
      ensures !circular ==> latSim == old(latSim) && lonSim == old(lonSim)
      ensures circular ==> latSim == lat + deltaLat && lonSim == lon + deltaLon
    {
      if !circular {
        return;
      }
      latSim := lat + deltaLat;
      lonSim := lon + deltaLon;
    }

    /** One pass of `_loop`: while running, writes the framed RMC sentence
        immediately followed by the framed GGA sentence (10 satellites, HDOP
        0.8) for the current simulated position, then updates the position;
        once the flag is clear the loop ends and nothing is written. */
    method Tick(rmcClock: Tm, ggaClock: Tm, lib: FloatLib, deltaLat: real, deltaLon: real) returns (emitted: bool)
      modifies this`written, this`latSim, this`lonSim
      ensures emitted == running
      ensures written == old(written) + if running then old(Burst(rmcClock, ggaClock, latSim, lonSim, speedKnots, alt, lib)) else []
      ensures if running && circular then latSim == lat + deltaLat && lonSim == lon + deltaLon
              else latSim == old(latSim) && lonSim == old(lonSim)
    {
      emitted := running;
      if emitted {
        Pass(rmcClock, ggaClock, lib, deltaLat, deltaLon);
      }
    }

    /** The body of the loop: write both sentences, then move. */
    method Pass(rmcClock: Tm, ggaClock: Tm, lib: FloatLib, deltaLat: real, deltaLon: real)
      modifies this`written, this`latSim, this`lonSim
      ensures written == old(written) + old(Burst(rmcClock, ggaClock, latSim, lonSim, speedKnots, alt, lib))
      ensures if circular then latSim == lat + deltaLat && lonSim == lon + deltaLon
              else latSim == old(latSim) && lonSim == old(lonSim)
    {
      Emit(rmcClock, ggaClock, lib);
      UpdatePosition(deltaLat, deltaLon);
    }

    /** The write of one pass: the two sentences for the current simulated
        position go out together, RMC first. */
    method Emit(rmcClock: Tm, ggaClock: Tm, lib: FloatLib)
      modifies this`written
      ensures written == old(written) + old(Burst(rmcClock, ggaClock, latSim, lonSim, speedKnots, alt, lib))
    {
      var out := GenerateBurst(rmcClock, ggaClock, latSim, lonSim, speedKnots, alt, lib);
      written := written + out;
    }
  }

  /** What one pass of the generator writes: the framed RMC sentence and
      then the framed GGA sentence, 10 satellites and HDOP 0.8. */
  function Burst(rmcClock: Tm, ggaClock: Tm, lat: real, lon: real, knots: real, alt: real, lib: FloatLib): (out: string)
    ensures var k := |RmcBody(rmcClock, lat, lon, knots, lib)| + 6;
            |out| == k + |GgaBody(ggaClock, lat, lon, alt, 10, 0.8, lib)| + 6
            && ChecksumMatches(out[..k]) && ChecksumMatches(out[k..])
  {
    var rmc := Frame(RmcBody(rmcClock, lat, lon, knots, lib));
    var gga := Frame(GgaBody(ggaClock, lat, lon, alt, 10, 0.8, lib));
    FrameIsWellFormed(RmcBody(rmcClock, lat, lon, knots, lib));
    FrameIsWellFormed(GgaBody(ggaClock, lat, lon, alt, 10, 0.8, lib));
    assert (rmc + gga)[..|rmc|] == rmc && (rmc + gga)[|rmc|..] == gga;
    rmc + gga
  }

  method GenerateBurst(rmcClock: Tm, ggaClock: Tm, lat: real, lon: real, knots: real, alt: real, lib: FloatLib)
    returns (out: string)
    ensures out == Burst(rmcClock, ggaClock, lat, lon, knots, alt, lib)
  {
    var rmc := FinalizeSentence(RmcBody(rmcClock, lat, lon, knots, lib));
    var gga := FinalizeSentence(GgaBody(ggaClock, lat, lon, alt, 10, 0.8, lib));
    out := rmc + gga;
  }

  /** A simulator built at `(lat0, lon0)`, configured for a circle, started
      and moved once as the end of a pass of `_loop` moves it: as written,
      the configuration is ignored and the simulated position stays at the
      base position whatever displacement the elapsed time gives. */
  method CircleAsWritten(lat0: real, lon0: real, radiusMeters: real, periodSeconds: real,
                         deltaLat: real, deltaLon: real)
    returns (latSim: real, lonSim: real)
    ensures latSim == lat0 && lonSim == lon0
  {
    var sim := new GPSSim(lat0, lon0);
    sim.ConfigTraj(radiusMeters, periodSeconds);
    sim.Init();
    sim.UpdatePosition(deltaLat, deltaLon);
    latSim, lonSim := sim.latSim, sim.lonSim;
  }

  /** The same run with the configuration applied: after the move the
      simulated position is the base position moved by the displacement. */
  method CircleIntended(lat0: real, lon0: real, radiusMeters: real, periodSeconds: real,
                        deltaLat: real, deltaLon: real)
    returns (latSim: real, lonSim: real)
    ensures latSim == lat0 + deltaLat && lonSim == lon0 + deltaLon
  {
    var sim := new GPSSim(lat0, lon0);
    sim.ConfigTrajIntended(radiusMeters, periodSeconds);
    sim.Init();
    sim.UpdatePosition(deltaLat, deltaLon);
    latSim, lonSim := sim.latSim, sim.lonSim;
  }
}
