/** What the receiver makes of what the simulator writes: every sentence
    the simulator frames is read back as one line, the RMC sentence is
    passed over, and the GGA sentence yields its time, its position
    (converted back to signed degrees) and its altitude. */
module EndToEnd {
  import opened Strings
  import opened GpsSim
  import opened GpsTrack

  /** Characters written one after the other are received one after the
      other. */
  lemma {:induction false} ReceivedAppend(a: string, b: string)
    ensures Received(a + b) == Received(a) + Received(b)
  {
    if a != [] {
      assert (a + b)[0] == a[0];
      assert (a + b)[1..] == a[1..] + b;
      ReceivedAppend(a[1..], b);
    } else {
      assert a + b == b;
    }
  }

  /** The checksum digits hold no separator, no line break and no `G`. */
  lemma HexByteCharacters(b: bv8)
    ensures ',' !in HexByte(b) && 'G' !in HexByte(b)
    ensures Unbroken(HexByte(b))
  {
    var h := HexByte(b);
    assert h[0] in "0123456789ABCDEF" && h[1] in "0123456789ABCDEF";
    assert h == [h[0], h[1]];
  }

  // ----- a framed sentence on the serial line -----

  /** A sentence the simulator frames around a body without line breaks is
      read by `read_serial` in as many reads as it has characters, and the
      line is the sentence without its CR LF. */
  lemma {:induction false} FramedSentenceIsRead(body: string, rest: seq<ReadOutcome>)
    requires Unbroken(body)
    ensures ReadLine(Received(Frame(body)) + rest)
            == (Line("$" + body + "*" + HexByte(Checksum(body))), |Frame(body)|)
  {
    var hex := HexByte(Checksum(body));
    HexByteCharacters(Checksum(body));
    var w := "$" + body + "*" + hex;
    assert Frame(body) == w + "\r\n";
    ReadFramedSentence(body, hex, rest);
  }

  // ----- the position fields -----

  /** The tracker's conversion undoes the simulator's: when the `ddmm.mmmm`
      text the simulator writes for `x` reads back as a number `v` that
      keeps its whole degrees and is within `e` of the value it was
      written from, the converted coordinate is within `e / 60` degrees of
      `x`, with its sign restored from the hemisphere letter. A reading
      with no error gives `x` back exactly. */
  lemma CoordinateRoundTrip(x: real, isLatitude: bool, lib: FloatLib, v: real, e: real)
    requires lib.stod(DegreesToNmea(x, isLatitude, lib).0) == Some(v)
    requires 100.0 * WholeDegrees(x) as real <= v < 100.0 * WholeDegrees(x) as real + 100.0
    requires -e <= v - NmeaValue(x) <= e
    ensures var c := Coordinate(DegreesToNmea(x, isLatitude, lib).0, [DegreesToNmea(x, isLatitude, lib).1], lib);
            -e / 60.0 <= c - x <= e / 60.0
  {
    var text := DegreesToNmea(x, isLatitude, lib).0;
    var h := DegreesToNmea(x, isLatitude, lib).1;
    var d := WholeDegrees(x) as real;
    var m := v - 100.0 * d;
    DdmmToDegreesOf(WholeDegrees(x), m);
    assert 100.0 * d + m == v;
    var k := HemisphereSign([h]);
    assert h == Hemisphere(x, isLatitude);
    assert x < 0.0 ==> h == 'S' || h == 'W';
    assert x >= 0.0 ==> h == 'N' || h == 'E';
    assert k == (if x < 0.0 then -1.0 else 1.0);
    assert Abs(x) == d + MinutesOf(x) / 60.0;
    assert DdmmToDegrees(v) - Abs(x) == (v - NmeaValue(x)) / 60.0;
    assert Coordinate(text, [h], lib) - x == (DdmmToDegrees(v) - Abs(x)) * k;
  }

  // ----- the GGA sentence -----

  /** Text written before a join, and a separator and more text after it:
      when the pieces (the first with the text before it) are non-empty and
      free of the separator, they are the first tokens. */
  lemma {:induction false} FramedJoinTokens(p: string, fs: seq<string>, rest: string, sep: char)
    requires |fs| >= 1
    requires p + fs[0] != [] && sep !in p + fs[0]
    requires forall i :: 1 <= i < |fs| ==> fs[i] != [] && sep !in fs[i]
    ensures Tokens(p + Join(fs, sep) + [sep] + rest, sep, []) == [p + fs[0]] + fs[1..] + Tokens(rest, sep, [])
  {
    var gs := [p + fs[0]] + fs[1..];
    assert gs[1..] == fs[1..];
    assert p + Join(fs, sep) == Join(gs, sep);
    assert forall i :: 0 <= i < |gs| ==> gs[i] != [] && sep !in gs[i];
    TokensAtSeparator(Join(gs, sep), rest, sep, []);
    TokensOfJoin(gs, sep);
    NonEmptyOfNonEmpty(gs);
  }

  /** The first ten GGA fields: talker and type, time, position, fix
      quality, satellites, HDOP and altitude. */
  function GgaFront(time: string, lat: string, latHemi: char, lon: string, lonHemi: char,
                    sats: string, hdop: string, alt: string): (fs: seq<string>)
    ensures |fs| == 10
  {
    ["GPGGA", time] + PositionFields(lat, latHemi, lon, lonHemi) + ["1", sats, hdop, alt]
  }

  /** A framed GGA line is its first ten fields, a comma, and the rest. */
  lemma GgaLineSplit(time: string, lat: string, latHemi: char, lon: string, lonHemi: char,
                     sats: string, hdop: string, alt: string, hex: string)
    ensures "$" + Join(GgaLayout(time, lat, latHemi, lon, lonHemi, sats, hdop, alt), ',') + "*" + hex
            == "$" + Join(GgaFront(time, lat, latHemi, lon, lonHemi, sats, hdop, alt), ',') + [',']
               + (Join(["M", "0.0", "M", "", ""], ',') + "*" + hex)
  {
    var front := GgaFront(time, lat, latHemi, lon, lonHemi, sats, hdop, alt);
    var tail := ["M", "0.0", "M", "", ""];
    assert GgaLayout(time, lat, latHemi, lon, lonHemi, sats, hdop, alt) == front + tail;
    JoinAppend(front, tail, ',');
  }

  /** Splitting a framed line laid out as the simulator lays out GGA, its
      variable fields non-empty and free of commas, gives the first ten
      fields back as the first ten tokens (the first with its `$`). */
  lemma GgaLineTokens(time: string, lat: string, latHemi: char, lon: string, lonHemi: char,
                      sats: string, hdop: string, alt: string, hex: string)
    requires time != [] && lat != [] && lon != [] && sats != [] && hdop != [] && alt != []
    requires ',' !in time && ',' !in lat && ',' !in lon && ',' !in sats && ',' !in hdop && ',' !in alt
    requires latHemi != ',' && lonHemi != ','
    ensures var v := Tokens("$" + Join(GgaLayout(time, lat, latHemi, lon, lonHemi, sats, hdop, alt), ',') + "*" + hex, ',', []);
            |v| >= 10 && v[..10] == ["$GPGGA", time, lat, [latHemi], lon, [lonHemi], "1", sats, hdop, alt]
  {
    var front := GgaFront(time, lat, latHemi, lon, lonHemi, sats, hdop, alt);
    var r := Join(["M", "0.0", "M", "", ""], ',') + "*" + hex;
    GgaLineSplit(time, lat, latHemi, lon, lonHemi, sats, hdop, alt, hex);
    FramedJoinTokens("$", front, r, ',');
    assert front == ["GPGGA", time, lat, [latHemi], lon, [lonHemi], "1", sats, hdop, alt];
    assert "$" + front[0] == "$GPGGA";
    var gs := ["$" + front[0]] + front[1..];
    assert gs == ["$GPGGA", time, lat, [latHemi], lon, [lonHemi], "1", sats, hdop, alt];
    assert (gs + Tokens(r, ',', []))[..10] == gs;
  }

  /** The pass over a framed sentence is the pass over its line: the
      sentence without its CR LF, read in as many reads as the sentence
      has characters. */
  lemma FramedPass(body: string, rest: seq<ReadOutcome>, lib: FloatLib, guarded: bool)
    requires Unbroken(body)
    ensures var line := "$" + body + "*" + HexByte(Checksum(body));
            ReadLine(Received(Frame(body)) + rest).1 == |Frame(body)|
            && PassOf(Received(Frame(body)) + rest, lib, guarded)
               == if guarded then InterpretGuarded(line, lib) else Interpret(line, lib)
  {
    FramedSentenceIsRead(body, rest);
  }

  /** A line holding "GGA" that splits into at least ten tokens is
      reported, with or without the check on the field count, as the
      record of its fields 1, 2 and 3, 4 and 5, and 9. */
  lemma GgaLineIsReported(line: string, lib: FloatLib, front: seq<string>)
    requires HasSubstring(line, "GGA")
    requires |Tokens(line, ',', [])| >= 10 && Tokens(line, ',', [])[..10] == front
    ensures Interpret(line, lib) == InterpretGuarded(line, lib)
    ensures Interpret(line, lib)
            == Reported([front[1], ConvertLatLon(front[2], front[3], lib), ConvertLatLon(front[4], front[5], lib), front[9]])
  {
    var v := Tokens(line, ',', []);
    GgaRecordFields(v, lib);
    assert v[1] == front[1] && v[2] == front[2] && v[3] == front[3];
    assert v[4] == front[4] && v[5] == front[5] && v[9] == front[9];
  }

  /** A body that opens with the GGA talker and type gives a framed line
      that holds "GGA". */
  lemma TalkerInLine(body: string, hex: string)
    requires "GPGGA," <= body
    ensures HasSubstring("$" + body + "*" + hex, "GGA")
  {
    var line := "$" + body + "*" + hex;
    assert line[3..6] == body[2..5];
    SubstringAt(line, "GGA", 3);
  }

  /** Decimal text holds no comma and no `G`. */
  lemma DecimalHasNoCommaOrG(s: string)
    requires DecimalText(s)
    ensures s != [] && ',' !in s && 'G' !in s && Unbroken(s)
  {
    DecimalIsUnbroken(s);
    assert forall i :: 0 <= i < |s| ==> s[i] != ',' && s[i] != 'G';
  }

  /** A GGA line laid out from decimal fields and hemisphere letters, with
      a checksum free of commas and line breaks, has no line break in its
      body, holds "GGA", and splits into its first ten fields and more. */
  lemma GgaDecimalLine(time: string, lat: string, latHemi: char, lon: string, lonHemi: char,
                       sats: string, hdop: string, alt: string, hex: string)
    requires DecimalText(time) && DecimalText(lat) && DecimalText(lon)
    requires DecimalText(sats) && DecimalText(hdop) && DecimalText(alt)
    requires latHemi in "NSEW" && lonHemi in "NSEW" && ',' !in hex
    ensures var body := Join(GgaLayout(time, lat, latHemi, lon, lonHemi, sats, hdop, alt), ',');
            var v := Tokens("$" + body + "*" + hex, ',', []);
            Unbroken(body) && HasSubstring("$" + body + "*" + hex, "GGA") && |v| >= 10
            && v[..10] == ["$GPGGA", time, lat, [latHemi], lon, [lonHemi], "1", sats, hdop, alt]
  {
    var body := Join(GgaLayout(time, lat, latHemi, lon, lonHemi, sats, hdop, alt), ',');
    DecimalHasNoCommaOrG(time);
    DecimalHasNoCommaOrG(lat);
    DecimalHasNoCommaOrG(lon);
    DecimalHasNoCommaOrG(sats);
    DecimalHasNoCommaOrG(hdop);
    DecimalHasNoCommaOrG(alt);
    GgaLayoutUnbroken(time, lat, latHemi, lon, lonHemi, sats, hdop, alt);
    GgaLayoutText(time, lat, latHemi, lon, lonHemi, sats, hdop, alt);
    TalkerInLine(body, hex);
    GgaLineTokens(time, lat, latHemi, lon, lonHemi, sats, hdop, alt, hex);
  }

  /** The framed line of a GGA body the simulator writes has no line
      break, holds "GGA", and splits into its first ten fields and more. */
  lemma GgaLineFacts(t: Tm, lat: real, lon: real, alt: real, sat: int, hdop: real, lib: FloatLib)
    requires DecimalFormatting(lib)
    ensures var body := GgaBody(t, lat, lon, alt, sat, hdop, lib);
            var line := "$" + body + "*" + HexByte(Checksum(body));
            var v := Tokens(line, ',', []);
            var latField := DegreesToNmea(lat, true, lib);
            var lonField := DegreesToNmea(lon, false, lib);
            Unbroken(body) && HasSubstring(line, "GGA") && |v| >= 10
            && v[..10] == ["$GPGGA", TimeField(t), latField.0, [latField.1], lonField.0, [lonField.1],
                           "1", FormatInteger(sat, 0), lib.fixed(hdop, 1), lib.fixed(alt, 1)]
  {
    var body := GgaBody(t, lat, lon, alt, sat, hdop, lib);
    var (latText, latHemi) := DegreesToNmea(lat, true, lib);
    var (lonText, lonHemi) := DegreesToNmea(lon, false, lib);
    var time, sats, hdopText, altText := TimeField(t), FormatInteger(sat, 0), lib.fixed(hdop, 1), lib.fixed(alt, 1);
    assert body == Join(GgaLayout(time, latText, latHemi, lonText, lonHemi, sats, hdopText, altText), ',');
    HexByteCharacters(Checksum(body));
    TimeFieldIsDecimal(t);
    NmeaFieldIsDecimal(lat, true, lib);
    NmeaFieldIsDecimal(lon, false, lib);
    FormatIntegerIsDecimal(sat, 0);
    GgaDecimalLine(time, latText, latHemi, lonText, lonHemi, sats, hdopText, altText, HexByte(Checksum(body)));
  }

  /** A GGA sentence the simulator writes is read and reported by the
      loop, as written and with the field count checked alike: the record
      is the time field, the latitude and longitude converted back to
      degrees, and the altitude field, exactly as the simulator wrote them. */
  lemma GgaSentenceIsReported(t: Tm, lat: real, lon: real, alt: real, sat: int, hdop: real,
                              lib: FloatLib, rest: seq<ReadOutcome>)
    requires DecimalFormatting(lib)
    ensures var input := Received(Frame(GgaBody(t, lat, lon, alt, sat, hdop, lib))) + rest;
            var latField := DegreesToNmea(lat, true, lib);
            var lonField := DegreesToNmea(lon, false, lib);
            ReadLine(input).1 == |Frame(GgaBody(t, lat, lon, alt, sat, hdop, lib))|
            && PassOf(input, lib, true) == PassOf(input, lib, false)
            && PassOf(input, lib, false)
               == Reported([TimeField(t), ConvertLatLon(latField.0, [latField.1], lib),
                            ConvertLatLon(lonField.0, [lonField.1], lib), lib.fixed(alt, 1)])
  {
    var body := GgaBody(t, lat, lon, alt, sat, hdop, lib);
    var line := "$" + body + "*" + HexByte(Checksum(body));
    var latField := DegreesToNmea(lat, true, lib);
    var lonField := DegreesToNmea(lon, false, lib);
    var front := ["$GPGGA", TimeField(t), latField.0, [latField.1], lonField.0, [lonField.1],
                  "1", FormatInteger(sat, 0), lib.fixed(hdop, 1), lib.fixed(alt, 1)];
    GgaLineFacts(t, lat, lon, alt, sat, hdop, lib);
    FramedPass(body, rest, lib, false);
    FramedPass(body, rest, lib, true);
    GgaLineIsReported(line, lib, front);
  }

  // ----- the RMC sentence -----

  /** A text whose first character is not `G` and that has no `G` after
      its second character does not contain "GGA". */
  lemma NoGgaPastSecond(s: string)
    requires |s| >= 2 && s[0] != 'G' && 'G' !in s[2..]
    ensures !HasSubstring(s, "GGA")
  {
    NoSubstringWithoutFirst(s[2..], "GGA");
    assert s[1..][1..] == s[2..];
    if |s| >= 4 {
      assert s[2] in s[2..];
      assert s[1..][..3][1] == s[2];
    }
  }

  /** A framed line laid out as the simulator lays out RMC, its variable
      fields free of `G`, does not contain "GGA": its only `G` is the
      first letter of the talker. */
  lemma RmcLineHasNoGga(time: string, lat: string, latHemi: char, lon: string, lonHemi: char,
                        speed: string, date: string, hex: string)
    requires 'G' !in time && 'G' !in lat && 'G' !in lon && 'G' !in speed && 'G' !in date && 'G' !in hex
    requires latHemi != 'G' && lonHemi != 'G'
    ensures !HasSubstring("$" + Join(RmcLayout(time, lat, latHemi, lon, lonHemi, speed, date), ',') + "*" + hex, "GGA")
  {
    var fs := RmcLayout(time, lat, latHemi, lon, lonHemi, speed, date);
    var others := fs[1..];
    assert forall i :: 0 <= i < |others| ==> 'G' !in others[i];
    JoinChars(others, ',', 'G');
    var j := Join(others, ',');
    assert Join(fs, ',') == "GPRMC" + [','] + j;
    var line := "$" + Join(fs, ',') + "*" + hex;
    assert line[2..] == "PRMC" + [','] + j + "*" + hex;
    NoGgaPastSecond(line);
  }

  /** An RMC line laid out from decimal fields and hemisphere letters, with
      a checksum free of `G`, has no line break in its body and holds no
      "GGA". */
  lemma RmcDecimalLine(time: string, lat: string, latHemi: char, lon: string, lonHemi: char,
                       speed: string, date: string, hex: string)
    requires DecimalText(time) && DecimalText(lat) && DecimalText(lon)
    requires DecimalText(speed) && DecimalText(date)
    requires latHemi in "NSEW" && lonHemi in "NSEW" && 'G' !in hex
    ensures var body := Join(RmcLayout(time, lat, latHemi, lon, lonHemi, speed, date), ',');
            Unbroken(body) && !HasSubstring("$" + body + "*" + hex, "GGA")
  {
    DecimalHasNoCommaOrG(time);
    DecimalHasNoCommaOrG(lat);
    DecimalHasNoCommaOrG(lon);
    DecimalHasNoCommaOrG(speed);
    DecimalHasNoCommaOrG(date);
    RmcLayoutUnbroken(time, lat, latHemi, lon, lonHemi, speed, date);
    RmcLineHasNoGga(time, lat, latHemi, lon, lonHemi, speed, date, hex);
  }

  /** The framed line of an RMC body the simulator writes has no line
      break and holds no "GGA". */
  lemma RmcLineFacts(t: Tm, lat: real, lon: real, knots: real, lib: FloatLib)
    requires DecimalFormatting(lib)
    ensures var body := RmcBody(t, lat, lon, knots, lib);
            Unbroken(body) && !HasSubstring("$" + body + "*" + HexByte(Checksum(body)), "GGA")
  {
    var body := RmcBody(t, lat, lon, knots, lib);
    var (latText, latHemi) := DegreesToNmea(lat, true, lib);
    var (lonText, lonHemi) := DegreesToNmea(lon, false, lib);
    var time, speed, date := TimeField(t), lib.fixed(knots, 2), DateField(t);
    assert body == Join(RmcLayout(time, latText, latHemi, lonText, lonHemi, speed, date), ',');
    HexByteCharacters(Checksum(body));
    TimeFieldIsDecimal(t);
    DateFieldIsDecimal(t);
    NmeaFieldIsDecimal(lat, true, lib);
    NmeaFieldIsDecimal(lon, false, lib);
    RmcDecimalLine(time, latText, latHemi, lonText, lonHemi, speed, date, HexByte(Checksum(body)));
  }

  /** An RMC sentence the simulator writes is read and passed over by the
      loop, as written and with the field count checked alike: it holds no
      "GGA". */
  lemma RmcSentenceIsSkipped(t: Tm, lat: real, lon: real, knots: real, lib: FloatLib, rest: seq<ReadOutcome>)
    requires DecimalFormatting(lib)
    ensures var input := Received(Frame(RmcBody(t, lat, lon, knots, lib))) + rest;
            ReadLine(input).1 == |Frame(RmcBody(t, lat, lon, knots, lib))|
            && PassOf(input, lib, false) == Skipped && PassOf(input, lib, true) == Skipped
  {
    var body := RmcBody(t, lat, lon, knots, lib);
    var line := "$" + body + "*" + HexByte(Checksum(body));
    RmcLineFacts(t, lat, lon, knots, lib);
    FramedPass(body, rest, lib, false);
    FramedPass(body, rest, lib, true);
    assert line[0] == '$';
  }

  // ----- one burst, two passes -----

  /** Two texts received one after the other: the reads of the second
      start right after the reads of the first. */
  lemma TwoTexts(a: string, b: string, rest: seq<ReadOutcome>)
    ensures Received(a + b) + rest == Received(a) + (Received(b) + rest)
    ensures (Received(a) + (Received(b) + rest))[|a|..] == Received(b) + rest
  {
    ReceivedAppend(a, b);
  }

  /** One burst of the simulator, RMC then GGA, takes the receiver's loop
      two passes: the first reads the RMC sentence and skips it, the
      second reads the GGA sentence and reports its record. */
  lemma BurstFeedsTracker(rmcClock: Tm, ggaClock: Tm, lat: real, lon: real, knots: real, alt: real,
                          lib: FloatLib, rest: seq<ReadOutcome>)
    requires DecimalFormatting(lib)
    ensures var input := Received(Burst(rmcClock, ggaClock, lat, lon, knots, alt, lib)) + rest;
            var n := ReadLine(input).1;
            var latField := DegreesToNmea(lat, true, lib);
            var lonField := DegreesToNmea(lon, false, lib);
            n == |Frame(RmcBody(rmcClock, lat, lon, knots, lib))|
            && PassOf(input, lib, false) == Skipped
            && PassOf(input[n..], lib, false)
               == Reported([TimeField(ggaClock), ConvertLatLon(latField.0, [latField.1], lib),
                            ConvertLatLon(lonField.0, [lonField.1], lib), lib.fixed(alt, 1)])
  {
    var rmc := Frame(RmcBody(rmcClock, lat, lon, knots, lib));
    var gga := Frame(GgaBody(ggaClock, lat, lon, alt, 10, 0.8, lib));
    assert Burst(rmcClock, ggaClock, lat, lon, knots, alt, lib) == rmc + gga;
    RmcSentenceIsSkipped(rmcClock, lat, lon, knots, lib, Received(gga) + rest);
    GgaSentenceIsReported(ggaClock, lat, lon, alt, 10, 0.8, lib, rest);
    TwoTexts(rmc, gga, rest);
  }

  /** The position the receiver reports for a GGA sentence of the
      simulator is the simulated one: each coordinate is written by
      `std::to_string` from a value within `e / 60` degrees of the
      simulated coordinate, whenever its `ddmm.mmmm` text reads back
      within `e` of the value it was written from. */
  lemma ReportedPositionIsSimulated(t: Tm, lat: real, lon: real, alt: real, sat: int, hdop: real,
                                    lib: FloatLib, rest: seq<ReadOutcome>, vLat: real, vLon: real, e: real)
    requires DecimalFormatting(lib)
    requires lib.stod(DegreesToNmea(lat, true, lib).0) == Some(vLat)
    requires lib.stod(DegreesToNmea(lon, false, lib).0) == Some(vLon)
    requires 100.0 * WholeDegrees(lat) as real <= vLat < 100.0 * WholeDegrees(lat) as real + 100.0
    requires 100.0 * WholeDegrees(lon) as real <= vLon < 100.0 * WholeDegrees(lon) as real + 100.0
    requires -e <= vLat - NmeaValue(lat) <= e && -e <= vLon - NmeaValue(lon) <= e
    ensures var p := PassOf(Received(Frame(GgaBody(t, lat, lon, alt, sat, hdop, lib))) + rest, lib, false);
            var latField := DegreesToNmea(lat, true, lib);
            var lonField := DegreesToNmea(lon, false, lib);
            var cLat := Coordinate(latField.0, [latField.1], lib);
            var cLon := Coordinate(lonField.0, [lonField.1], lib);
            p.Reported? && p.record[1] == lib.fixed(cLat, 6) && p.record[2] == lib.fixed(cLon, 6)
            && -e / 60.0 <= cLat - lat <= e / 60.0 && -e / 60.0 <= cLon - lon <= e / 60.0
  {
    GgaSentenceIsReported(t, lat, lon, alt, sat, hdop, lib, rest);
    NmeaFieldIsDecimal(lat, true, lib);
    NmeaFieldIsDecimal(lon, false, lib);
    CoordinateRoundTrip(lat, true, lib, vLat, e);
    CoordinateRoundTrip(lon, false, lib, vLon, e);
  }
}
