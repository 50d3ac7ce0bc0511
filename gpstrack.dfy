/** The receiving side of src/GPSTrack.hpp: reading one line from the
    serial port, splitting it on commas, turning the NMEA coordinate fields
    into decimal degrees, keeping the four GGA fields of interest, writing
    them as a CSV line, and the worker loop that sends that line by UDP. */
module GpsTrack {
  import opened Strings

  // ----- split -----

  /** `split`: `std::getline` pieces between separators, keeping only the
      non-empty ones. */
  method Split(s: string, sep: char) returns (r: seq<string>)
    ensures r == Tokens(s, sep, [])
  {
    r := [];
    var cur: string := [];
    for i := 0 to |s|
      invariant r + Tokens(s[i..], sep, cur) == Tokens(s, sep, [])
    {
      assert s[i..][0] == s[i] && s[i..][1..] == s[i + 1..];
      if s[i] == sep {
        var done: seq<string> := if cur == [] then [] else [cur];
        assert Tokens(s[i..], sep, cur) == done + Tokens(s[i + 1..], sep, []);
        assert r + done + Tokens(s[i + 1..], sep, []) == r + (done + Tokens(s[i + 1..], sep, []));
        r := r + done;
        cur := [];
      } else {
        cur := cur + [s[i]];
      }
    }
    assert s[|s|..] == [];
    if cur != [] {
      r := r + [cur];
    }
  }

  // ----- read_serial -----

  /** What one `read(fd, &c, 1)` returns: a character, nothing (`n == 0`)
      or an error (`n < 0`). */
  datatype ReadOutcome = Got(c: char) | NoData | Failed

  /** What `read_serial` ends with: the line, or the `runtime_error` it
      throws. */
  datatype ReadResult = Line(text: string) | ReadError

  /** The characters of `s`, each delivered by one successful read. */
  function Received(s: string): (r: seq<ReadOutcome>)
    ensures |r| == |s|
  {
    if s == [] then [] else [Got(s[0])] + Received(s[1..])
  }

  function Prepend(b: string, r: ReadResult): ReadResult
  {
    if r.Line? then Line(b + r.text) else ReadError
  }

  /** The reference reading: the line up to the first LF with every CR
      dropped, ended early by a read that returns nothing, or an error at
      the first failed read; paired with the number of reads it takes. An
      exhausted input behaves as a read that returns nothing but takes no
      read. */
  function ReadLine(input: seq<ReadOutcome>): (r: (ReadResult, nat))
    ensures r.1 <= |input|
    ensures input != [] ==> r.1 >= 1
  {
    if input == [] then (Line([]), 0)
    else match input[0]
      case NoData => (Line([]), 1)
      case Failed => (ReadError, 1)
      case Got(c) =>
        if c == '\n' then (Line([]), 1)
        else
          var rest := ReadLine(input[1..]);
          (Prepend(if c == '\r' then [] else [c], rest.0), rest.1 + 1)
  }

  /** `read_serial`'s loop, one read at a time. */
  method ReadLineFrom(input: seq<ReadOutcome>) returns (result: ReadResult, consumed: nat)
    ensures (result, consumed) == ReadLine(input)
  {
    var buffer: string := [];
    var i := 0;
    assert buffer + [] == buffer;
    while i < |input|
      invariant 0 <= i <= |input|
      invariant ReadLine(input).0 == Prepend(buffer, ReadLine(input[i..]).0)
      invariant ReadLine(input).1 == i + ReadLine(input[i..]).1
      decreases |input| - i
    {
      assert input[i..][0] == input[i] && input[i..][1..] == input[i + 1..];
      assert buffer + [] == buffer;
      match input[i] {
        case NoData =>
          return Line(buffer), i + 1;
        case Failed =>
          return ReadError, i + 1;
        case Got(c) =>
          if c == '\n' {
            return Line(buffer), i + 1;
          }
          var kept: string := if c != '\r' then [c] else [];
          PrependTwice(buffer, kept, ReadLine(input[i + 1..]).0);
          buffer := buffer + kept;
          i := i + 1;
      }
    }
    assert input[i..] == [];
    assert buffer + [] == buffer;
    return Line(buffer), i;
  }

  lemma PrependTwice(a: string, b: string, r: ReadResult)
    ensures Prepend(a, Prepend(b, r)) == Prepend(a + b, r)
  {
    if r.Line? {
      assert a + (b + r.text) == (a + b) + r.text;
    }
  }

  /** A line read is free of line breaks: every LF ends the line and every
      CR is dropped. */
  lemma {:induction false} ReadLineUnbroken(input: seq<ReadOutcome>)
    ensures ReadLine(input).0.Line? ==> '\r' !in ReadLine(input).0.text && '\n' !in ReadLine(input).0.text
  {
    if input != [] && input[0].Got? && input[0].c != '\n' {
      ReadLineUnbroken(input[1..]);
    }
  }

  /** Text ended by LF is read up to the LF, without its CRs, and the reads
      after the LF are left for the next call. */
  lemma {:induction false} ReadLineOfText(w: string, rest: seq<ReadOutcome>)
    requires '\n' !in w
    ensures ReadLine(Received(w + "\n") + rest) == (Line(Without(w, '\r')), |w| + 1)
  {
    var input := Received(w + "\n") + rest;
    if w == [] {
      assert w + "\n" == "\n";
      assert input[0] == Got('\n');
    } else {
      assert (w + "\n")[0] == w[0];
      assert (w + "\n")[1..] == w[1..] + "\n";
      assert input[0] == Got(w[0]);
      assert input[1..] == Received(w[1..] + "\n") + rest;
      assert w[0] in w;
      ReadLineOfText(w[1..], rest);
      assert w == [w[0]] + w[1..];
    }
  }

  /** A read that returns nothing before any LF ends the line there: what
      was read so far, without its CRs, in one read per character and the
      empty one. */
  lemma {:induction false} ReadLineAtNoData(w: string, rest: seq<ReadOutcome>)
    requires '\n' !in w
    ensures ReadLine(Received(w) + [NoData] + rest) == (Line(Without(w, '\r')), |w| + 1)
  {
    var input := Received(w) + [NoData] + rest;
    if w == [] {
      assert input[0] == NoData;
    } else {
      assert input[0] == Got(w[0]);
      assert input[1..] == Received(w[1..]) + [NoData] + rest;
      assert w[0] in w;
      ReadLineAtNoData(w[1..], rest);
      assert w == [w[0]] + w[1..];
    }
  }

  /** A failed read before any LF makes the call fail, whatever was read
      before it. */
  lemma {:induction false} ReadLineFails(w: string, rest: seq<ReadOutcome>)
    requires '\n' !in w
    ensures ReadLine(Received(w) + [Failed] + rest).0 == ReadError
  {
    var input := Received(w) + [Failed] + rest;
    if w == [] {
      assert input[0] == Failed;
    } else {
      assert input[0] == Got(w[0]);
      assert input[1..] == Received(w[1..]) + [Failed] + rest;
      assert w[0] in w;
      ReadLineFails(w[1..], rest);
    }
  }

  /** A sentence framed as `$body*hex` CR LF is read back as everything
      but its CR LF, one read per character. */
  lemma ReadFramedSentence(body: string, hex: string, rest: seq<ReadOutcome>)
    requires '\r' !in body && '\n' !in body && '\r' !in hex && '\n' !in hex
    ensures var w := "$" + body + "*" + hex;
            ReadLine(Received(w + "\r\n") + rest) == (Line(w), |w| + 2)
  {
    var w := "$" + body + "*" + hex;
    assert '\r' !in w && '\n' !in w;
    assert w + "\r\n" == (w + "\r") + "\n";
    assert '\n' !in w + "\r";
    ReadLineOfText(w + "\r", rest);
    WithoutAppend(w, "\r", '\r');
    WithoutAbsent(w, '\r');
    assert Without("\r", '\r') == [];
    assert Without(w + "\r", '\r') == w;
    assert Received(w + "\r\n") + rest == Received((w + "\r") + "\n") + rest;
  }

  // ----- GPSData::converter_lat_lon -----

  /** The sign the hemisphere text gives: -1 for exactly "S" or "W". */
  function HemisphereSign(hemi: string): (k: real)
    ensures k == -1.0 <==> hemi == "S" || hemi == "W"
    ensures k == 1.0 || k == -1.0
  {
    if hemi == "S" || hemi == "W" then -1.0 else 1.0
  }

  /** The `ddmm.mmmm` number as degrees: `floor(v / 100)` whole degrees plus
      the remaining minutes over 60. */
  function DdmmToDegrees(v: real): real
  {
    var degrees := (v / 100.0).Floor as real;
    degrees + (v - degrees * 100.0) / 60.0
  }

  /** `std::stod`, or 0 when it throws `std::invalid_argument` (the value
      the variable was initialised with). */
  function ParsedOrZero(num: string, lib: FloatLib): real
  {
    match lib.stod(num)
    case Some(v) => v
    case None => 0.0
  }

  /** The coordinate `converter_lat_lon` computes, before it is written. */
  function Coordinate(num: string, hemi: string, lib: FloatLib): (c: real)
    ensures lib.stod(num).None? ==> c == 0.0
    ensures ParsedOrZero(num, lib) >= 0.0 && (hemi == "S" || hemi == "W") ==> c <= 0.0
    ensures ParsedOrZero(num, lib) >= 0.0 && hemi != "S" && hemi != "W" ==> c >= 0.0
  {
    DdmmToDegrees(ParsedOrZero(num, lib)) * HemisphereSign(hemi)
  }

  /** `converter_lat_lon`: an empty field stays empty; anything else is
      written by `std::to_string`, six decimals. */
  function ConvertLatLon(num: string, hemi: string, lib: FloatLib): (r: string)
    ensures num == [] ==> r == []
    ensures num != [] ==> r == lib.fixed(Coordinate(num, hemi, lib), 6)
    ensures DecimalFormatting(lib) ==> (r == [] <==> num == [])
  {
    if num == [] then [] else lib.fixed(Coordinate(num, hemi, lib), 6)
  }

  /** `ddmm.mmmm` with `d` whole degrees and `m < 100` minutes reads as
      `d + m / 60` degrees. */
  lemma DdmmToDegreesOf(d: nat, m: real)
    requires 0.0 <= m < 100.0
    ensures DdmmToDegrees(100.0 * d as real + m) == d as real + m / 60.0
  {
    var v := 100.0 * d as real + m;
    assert v / 100.0 == d as real + m / 100.0;
    assert (v / 100.0).Floor == d;
  }

  /** A positive reading gives a positive number of degrees, so the sign
      of the coordinate is the hemisphere's: negative exactly for "S" and
      "W". */
  lemma CoordinateSign(num: string, hemi: string, lib: FloatLib)
    requires lib.stod(num).Some? && lib.stod(num).value > 0.0
    ensures Coordinate(num, hemi, lib) < 0.0 <==> hemi == "S" || hemi == "W"
    ensures Coordinate(num, hemi, lib) != 0.0
  {
    var v := lib.stod(num).value;
    var q := v / 100.0;
    var d := q.Floor as real;
    assert d <= q < d + 1.0;
    assert d >= 0.0;
    var m := v - d * 100.0;
    assert 0.0 <= m;
    assert DdmmToDegrees(v) == d + m / 60.0;
    assert d > 0.0 || m > 0.0;
  }

  /** A field `std::stod` rejects is taken as 0: written, it is the text
      of 0 degrees. */
  lemma UnparsableIsZero(num: string, hemi: string, lib: FloatLib)
    requires num != [] && lib.stod(num).None?
    ensures ConvertLatLon(num, hemi, lib) == lib.fixed(0.0, 6)
  {
    assert DdmmToDegrees(0.0) == 0.0;
  }

  // ----- GPSData::parsing and GPSData::to_csv -----

  /** The GGA field positions `parsing` keeps: UTC time, latitude,
      longitude, altitude. */
  const UsefulIndices: seq<nat> := [1, 2, 4, 9]

  /** One kept field: the coordinates go through the conversion with the
      hemisphere field after them; the others are copied. */
  function UsefulField(v: seq<string>, idx: nat, lib: FloatLib): string
    requires idx < |v| && (idx == 2 || idx == 4 ==> idx + 1 < |v|)
  {
    if idx == 2 || idx == 4 then ConvertLatLon(v[idx], v[idx + 1], lib) else v[idx]
  }

  /** The four values `parsing(0, v)` stores. */
  function GgaRecord(v: seq<string>, lib: FloatLib): (r: seq<string>)
    requires |v| >= 10
    ensures |r| == 4
  {
    seq(4, k requires 0 <= k < 4 => UsefulField(v, UsefulIndices[k], lib))
  }

  /** The record is time, converted latitude, converted longitude and
      altitude, read from fields 1, 2 and 3, 4 and 5, and 9. */
  lemma GgaRecordFields(v: seq<string>, lib: FloatLib)
    requires |v| >= 10
    ensures GgaRecord(v, lib) == [v[1], ConvertLatLon(v[2], v[3], lib), ConvertLatLon(v[4], v[5], lib), v[9]]
  {
  }

  /** The CSV text of a record: the first four values, comma-separated,
      then LF. */
  function CsvLine(data: seq<string>): (line: string)
    requires |data| >= 4
    ensures |line| == |data[0]| + |data[1]| + |data[2]| + |data[3]| + 4
    ensures line[|line| - 1] == '\n'
  {
    var d := data[..4];
    assert d[1..] == [data[1], data[2], data[3]] && d[1..][1..] == [data[2], data[3]] && d[1..][1..][1..] == [data[3]];
    assert |Join(d[1..][1..], ',')| == |data[2]| + |data[3]| + 1;
    assert |Join(d[1..], ',')| == |data[1]| + |data[2]| + |data[3]| + 2;
    Join(d, ',') + "\n"
  }

  /** Four non-empty values without commas are given back by splitting
      their CSV line (without its LF) on commas. */
  lemma CsvRoundTrip(data: seq<string>)
    requires |data| == 4 && forall i :: 0 <= i < 4 ==> data[i] != [] && ',' !in data[i]
    ensures Tokens(CsvLine(data)[..|CsvLine(data)| - 1], ',', []) == data
  {
    assert data[..4] == data;
    var line := CsvLine(data);
    assert line[..|line| - 1] == Join(data, ',');
    TokensOfJoin(data, ',');
    NonEmptyOfNonEmpty(data);
  }

  /** The record kept by the last `parsing` call. */
  class GPSData {
    var data: seq<string>

    /** `GPSData()`: nothing stored yet. */
    constructor ()
      ensures data == []
    {
      data := [];
    }

    /** `parsing(code, v)`: clears the record, then for code 0 (GGA) stores
        the four useful fields and answers true; any other code leaves it
        empty and answers false. Indexing reads `v[9]` and `v[5]`, so a GGA
        vector needs ten fields. */
    method Parsing(code: int, v: seq<string>, lib: FloatLib) returns (ok: bool)
      requires code != 0 || |v| >= 10
      modifies this
      ensures ok <==> code == 0
      ensures data == if code == 0 then GgaRecord(v, lib) else []
    {
      data := [];
      if code == 0 {
        for k := 0 to 4
          invariant data == GgaRecord(v, lib)[..k]
        {
          var idx := UsefulIndices[k];
          if idx == 2 || idx == 4 {
            data := data + [ConvertLatLon(v[idx], v[idx + 1], lib)];
          } else {
            data := data + [v[idx]];
          }
          assert GgaRecord(v, lib)[..k + 1] == GgaRecord(v, lib)[..k] + [GgaRecord(v, lib)[k]];
        }
        assert GgaRecord(v, lib)[..4] == GgaRecord(v, lib);
        return true;
      }
      return false;
    }

    /** `to_csv`: the four stored values, comma-separated, ended by LF.
        Reading `data[0]` to `data[3]` needs four values. */
    method ToCsv() returns (line: string)
      requires |data| >= 4
      ensures line == CsvLine(data)
    {
      line := [];
      for i := 0 to 4
        invariant line == Join(data[..i], ',')
      {
        if i > 0 {
          line := line + ",";
        }
        line := line + data[i];
        assert data[..i + 1] == data[..i] + [data[i]];
        JoinSnoc(data[..i], data[i], ',');
        if i == 0 {
          assert line == data[0];
        }
      }
      line := line + "\n";
    }
  }

  // ----- GPSTrack::loop -----

  /** How one pass of the worker loop ends: the flag was already clear,
      `read_serial` threw, nothing was read, the line was not a GGA
      sentence, a GGA record was stored and its CSV line handed to `send`,
      or the GGA vector was too short for `parsing` to index (undefined
      behaviour in the C++). */
  datatype Pass = Stopped | ReadFailed | Idle | Skipped | Reported(record: seq<string>) | OutOfRange

  /** The pass for a line read without error, as `loop` is written: any
      line containing "GGA" is split and parsed, however few fields it
      has. */
  function Interpret(line: string, lib: FloatLib): (p: Pass)
    ensures p.Idle? <==> line == []
    ensures p.Reported? || p.OutOfRange? ==> HasSubstring(line, "GGA")
    ensures p.Reported? ==> |p.record| == 4
    ensures !p.Stopped? && !p.ReadFailed?
  {
    if line == [] then Idle
    else if !HasSubstring(line, "GGA") then Skipped
    else
      var v := Tokens(line, ',', []);
      if |v| < 10 then OutOfRange else Reported(GgaRecord(v, lib))
  }

  /** The same with the field count checked first: a GGA line with fewer
      than ten non-empty fields is skipped like any other line. */
  function InterpretGuarded(line: string, lib: FloatLib): (p: Pass)
    ensures p.Idle? <==> line == []
    ensures p.Reported? ==> HasSubstring(line, "GGA") && |p.record| == 4
    ensures !p.OutOfRange? && !p.Stopped? && !p.ReadFailed?
  {
    if line == [] then Idle
    else if !HasSubstring(line, "GGA") then Skipped
    else
      var v := Tokens(line, ',', []);
      if |v| < 10 then Skipped else Reported(GgaRecord(v, lib))
  }

  /** The pass that reads from `input`. */
  function PassOf(input: seq<ReadOutcome>, lib: FloatLib, guarded: bool): (p: Pass)
    ensures p.ReadFailed? <==> ReadLine(input).0 == ReadError
    ensures input == [] ==> p == Idle
    ensures guarded ==> !p.OutOfRange?
    ensures p.Reported? ==> |p.record| == 4
    ensures !p.Stopped?
  {
    match ReadLine(input).0
    case ReadError => ReadFailed
    case Line(text) => if guarded then InterpretGuarded(text, lib) else Interpret(text, lib)
  }

  /** The checked pass never overruns the vector, and it agrees with the
      pass as written on every line the latter handles. */
  lemma GuardedNeverOverruns(line: string, lib: FloatLib)
    ensures InterpretGuarded(line, lib) != OutOfRange
    ensures Interpret(line, lib) != OutOfRange ==> InterpretGuarded(line, lib) == Interpret(line, lib)
    ensures Interpret(line, lib) == OutOfRange ==> InterpretGuarded(line, lib) == Skipped
  {
  }

  /** Five commas: the empty fields between two non-empty ones. */
  const Gap: string := ",,,,,"

  /** The body a receiver without a fix sends in GGA: empty time and
      position, quality 0, 00 satellites, HDOP 99.99, and empty altitude,
      geoid and DGPS fields: `GPGGA,,,,,,0,00,99.99,,,,,,`. */
  const NoFixBody: string := "GPGGA" + ("," + (Gap + ("0" + ("," + ("00" + ("," + ("99.99" + ("," + Gap))))))))

  /** The whole line, checksum 48 included. */
  const NoFixLine: string := "$" + NoFixBody + "*" + "48"

  /** Five non-empty fields around two runs of five empty ones split into
      just those five. */
  lemma ShortLineTokens(a: string, b: string, c: string, d: string, e: string)
    requires a != [] && b != [] && c != [] && d != [] && e != []
    requires ',' !in a && ',' !in b && ',' !in c && ',' !in d && ',' !in e
    ensures Tokens(a + "," + (Gap + (b + "," + (c + "," + (d + "," + (Gap + e))))), ',', []) == [a, b, c, d, e]
  {
    forall i | 0 <= i < |Gap| ensures Gap[i] == ',' { }
    var s5 := Gap + e;
    var s4 := d + "," + s5;
    var s3 := c + "," + s4;
    var s2 := b + "," + s3;
    var s1 := Gap + s2;
    TokensAfterSeparators(Gap, e, ',');
    TokensOfPiece(e, ',', []);
    assert [] + e == e;
    TokensFirst(d, s5, ',');
    TokensFirst(c, s4, ',');
    TokensFirst(b, s3, ',');
    TokensAfterSeparators(Gap, s2, ',');
    TokensFirst(a, s1, ',');
  }

  /** Splitting the no-fix line drops the empty fields and leaves five. */
  lemma NoFixTokens()
    ensures Tokens(NoFixLine, ',', []) == ["$GPGGA", "0", "00", "99.99", "*48"]
  {
    assert NoFixLine == "$GPGGA" + "," + (Gap + ("0" + "," + ("00" + "," + ("99.99" + "," + (Gap + "*48")))));
    ShortLineTokens("$GPGGA", "0", "00", "99.99", "*48");
  }

  /** The loop as written overruns the five-field vector of the no-fix
      sentence; the checked loop skips the line. */
  lemma NoFixSentenceOverruns(lib: FloatLib, rest: seq<ReadOutcome>)
    ensures PassOf(Received(NoFixLine + "\r\n") + rest, lib, false) == OutOfRange
    ensures PassOf(Received(NoFixLine + "\r\n") + rest, lib, true) == Skipped
  {
    assert '\r' !in NoFixBody && '\n' !in NoFixBody;
    ReadFramedSentence(NoFixBody, "48", rest);
    assert NoFixLine[3..6] == "GGA";
    SubstringAt(NoFixLine, "GGA", 3);
    NoFixTokens();
  }

  /** The receiver: its run flag and worker, the reads the serial port will
      still answer, the last record and every datagram sent. */
  class GPSTrack {
    var running: bool
    var workers: nat
    var serial: seq<ReadOutcome>
    var lastData: GPSData
    var sent: seq<string>

    /** One worker thread exactly while running. */
    ghost predicate Valid()
      reads this
    {
      workers == if running then 1 else 0
    }

    /** The constructor, with the socket and serial port already open. */
    constructor (serialInput: seq<ReadOutcome>)
      ensures Valid() && !running
      ensures serial == serialInput && sent == [] && fresh(lastData) && lastData.data == []
    {
      running, workers := false, 0;
      serial := serialInput;
      lastData := new GPSData();
      sent := [];
    }

    /** `init`: the first call starts the one worker; while running it does
        nothing. */
    method Init()
      requires Valid()
      modifies this`running, this`workers
      ensures Valid() && running
      ensures old(running) ==> workers == old(workers)
    {
      var wasRunning := running;
      running := true;
      if wasRunning {
        return;
      }
      workers := workers + 1;
    }

    /** `stop`: clears the flag and joins the worker; when not running it
        does nothing. */
    method Stop()
      requires Valid()
      modifies this`running, this`workers
      ensures Valid() && !running
      ensures !old(running) ==> workers == old(workers)
    {
      var wasRunning := running;
      running := false;
      if !wasRunning {
        return;
      }
      workers := 0;
    }

    /** `read_serial` on the port: the reads it takes are gone. */
    method ReadSerial() returns (r: ReadResult)
      modifies this`serial
      ensures r == ReadLine(old(serial)).0
      ensures serial == old(serial)[ReadLine(old(serial)).1..]
    {
      var consumed;
      r, consumed := ReadLineFrom(serial);
      serial := serial[consumed..];
    }

    /** `send`: `sendto` either takes the datagram (`accepted`) or fails, in
        which case the answer is false and nothing is sent. */
    method Send(message: string, accepted: bool) returns (ok: bool)
      modifies this`sent
      ensures ok == accepted
      ensures sent == old(sent) + if accepted then [message] else []
    {
      if !accepted {
        return false;
      }
      sent := sent + [message];
      return true;
    }

    /** Stores the record of a GGA vector and sends its CSV line. */
    method Report(v: seq<string>, lib: FloatLib, accepted: bool)
      requires |v| >= 10
      modifies this`sent, lastData
      ensures lastData.data == GgaRecord(v, lib)
      ensures sent == old(sent) + if accepted then [CsvLine(GgaRecord(v, lib))] else []
    {
      var _ := lastData.Parsing(0, v, lib);
      var line := lastData.ToCsv();
      var _ := Send(line, accepted);
    }

    /** One pass of `loop`: while the flag is set, read a line; a line
        containing "GGA" is split and parsed, and the CSV of the new record
        is sent. As written (`guarded` false) a GGA line with fewer than ten
        fields makes `parsing` index past the end of the vector, after it
        has already cleared the record; the pass ends there and nothing is
        promised about the record. With `guarded` such lines are skipped. */
    method LoopPass(lib: FloatLib, guarded: bool, accepted: bool) returns (p: Pass)
      modifies this`serial, this`sent, lastData
      ensures p == if running then PassOf(old(serial), lib, guarded) else Stopped
      ensures serial == if running then old(serial)[ReadLine(old(serial)).1..] else old(serial)
      ensures p.Reported? ==> lastData.data == p.record
      ensures !p.Reported? && !p.OutOfRange? ==> lastData.data == old(lastData.data)
      ensures sent == old(sent) + if p.Reported? && accepted then [CsvLine(p.record)] else []
    {
      if !running {
        return Stopped;
      }
      var r := ReadSerial();
      if r.ReadError? {
        return ReadFailed;
      }
      var message := r.text;
      if message == [] {
        return Idle;
      }
      if !HasSubstring(message, "GGA") {
        return Skipped;
      }
      var v := Split(message, ',');
      if |v| < 10 {
        return if guarded then Skipped else OutOfRange;
      }
      Report(v, lib, accepted);
      return Reported(GgaRecord(v, lib));
    }
  }
}
