# GPSTrack: a Dafny model of the NMEA simulator and the receive pipeline

GPSTrack has two cooperating C++ classes that handle NMEA 0183 text.

`GPSSim` (src/GPSSim.hpp) stands in for a GPS module:
- it formats a position as `ddmm.mmmm` text with a hemisphere letter;
- it lays out an RMC and a GGA sentence body;
- it frames each body as `$body*HH` CR LF, where `HH` is the XOR checksum of the body bytes in upper-case hex;
- on every pass of its generator loop it writes RMC then GGA to a pseudo-terminal.

`GPSTrack` (src/GPSTrack.hpp) is the receiver:
- it reads one line at a time from the serial port, dropping CR and stopping at LF, at an empty read or at an error;
- it splits the line on commas and keeps the non-empty pieces;
- for any line containing `GGA` it stores four values in `GPSData`: the time, the latitude and longitude converted back to signed decimal degrees, and the altitude;
- it sends those four values as one CSV line over UDP.

The project has four modules:
- `Strings` (strings.dfy): joining, `getline`-style tokenising, substring search, decimal digits and padding. It also holds the opaque floating-point text conversions `FloatLib`: `fixed(x, p)` is `std::fixed << std::setprecision(p)`, so `std::to_string` is `fixed(x, 6)`; `stod` is `std::stod`.
- `GpsSim` (gpssim.dfy): the pure formatters and layouts, the framing loop, and the `GPSSim` class. The class holds the run flag, the generator count, the base and simulated positions, and everything written so far.
- `GpsTrack` (gpstrack.dfy): `split`, `read_serial` over a sequence of read outcomes, `converter_lat_lon`, the `GPSData` class (`parsing`, `to_csv`), and the `GPSTrack` class. That class holds the run flag, the remaining serial input, the last record and the datagrams sent, and models one pass of `loop`.
- `EndToEnd` (endtoend.dfy): what the receiver makes of what the simulator writes.
  - The RMC sentence is read and skipped.
  - The GGA sentence is read, split and reported with the time, position and altitude at the indices `parsing` reads.
  - The converted coordinate is the simulated one, to within the rounding of the minutes.

Several behaviours of the code shape the model:
- `split` drops empty fields, so a field's index counts only the non-empty fields before it.
- `parsing` handles GGA sentences only, and it clears the record before it stores anything.
- `to_csv` writes four values.
- `loop` hands every line containing `GGA` to `parsing` without checking how many fields it has; see Findings.
- A frame is `|body| + 6` characters: `$`, `*`, two hex digits, CR and LF.

## Model

| member | source | states |
|---|---|---|
| GpsSim.FormatIntegerNonNegative | src/GPSSim.hpp:95-106 | a non-negative value is written in decimal digits only, at least `width` long, exactly `width` long when it is below 10^width, and reads back as the value |
| GpsSim.FormatInteger | src/GPSSim.hpp:95-106 | the text is never empty and never shorter than the requested width |
| GpsSim.FormatIntegerIsDecimal | src/GPSSim.hpp:95-106 | any value, negative included, is written as non-empty text of digits, minus signs and decimal points only, so it holds no separator or line break |
| GpsSim.Hemisphere | src/GPSSim.hpp:123-128 | the letter is one of N, S, E, W; it is N or S exactly for a latitude; it is N or E exactly when the degrees are not negative |
| GpsSim.WholeDegrees | src/GPSSim.hpp:130-131 | the whole degrees `d` satisfy `d <= |x| < d + 1` |
| GpsSim.MinutesOf | src/GPSSim.hpp:132 | the leftover minutes lie in [0, 60) |
| GpsSim.DegreeFieldWidth | src/GPSSim.hpp:136-162 | for a coordinate in range, the degree field is exactly 2 (latitude) or 3 (longitude) digits that read back as `floor(|x|)` |
| GpsSim.DegreesToNmea | src/GPSSim.hpp:115-163 | the letter returned with the `ddmm.mmmm` text is one of N, S, E, W; it is N or S exactly for a latitude, and N or E exactly when the degrees are not negative |
| GpsSim.NmeaFieldIsDecimal | src/GPSSim.hpp:136-162 | with a formatter that writes decimal text, the whole `ddmm.mmmm` field is decimal text |
| GpsSim.ChecksumAppend | src/GPSSim.hpp:176-181 | the XOR checksum of two texts one after the other is the XOR of their checksums, so the result does not depend on how the body is cut up |
| GpsSim.Frame | src/GPSSim.hpp:183-192 | the sentence is `|body| + 6` long: `$`, then the body, then `*`, then two characters, then CR LF |
| GpsSim.FinalizeSentence | src/GPSSim.hpp:170-195 | the byte-by-byte XOR loop yields exactly `$`, the body, `*`, the two hex digits of the body's checksum, and CR LF |
| GpsSim.FrameIsWellFormed | src/GPSSim.hpp:183-194 | a framed sentence is `|body| + 6` long, carries the body between `$` and `*`, ends in CR LF, and its two digits are the checksum of the bytes between `$` and `*` |
| GpsSim.HexByteReadsBack | src/GPSSim.hpp:187-191 | the checksum is written as two upper-case hex digits whose values `h1 * 16 + h2` give the checksum byte back |
| GpsSim.TruncRem | src/GPSSim.hpp:253 | C++ `%` truncates toward zero: the remainder lies strictly between `-b` and `b` and takes the sign of the dividend; it is the Euclidean remainder for a non-negative dividend and minus the remainder of the magnitude for a negative one |
| GpsSim.TimeFieldShape | src/GPSSim.hpp:244-247 | for a time `gmtime_r` can produce, the time field is 9 characters: six digits that read back as `10000*h + 100*m + s`, then `.00` |
| GpsSim.RmcLayoutText | src/GPSSim.hpp:243-254 | an RMC body opens with `GPRMC,`, the time and `,A,` and ends with `,,,A` |
| GpsSim.GgaLayoutText | src/GPSSim.hpp:294-301 | a GGA body opens with `GPGGA,` and the time and ends with `,M,0.0,M,,` |
| GpsSim.BodiesHaveNoLineBreaks | src/GPSSim.hpp:218-304 | with a formatter that writes decimal text, neither body holds a CR or LF, so the frame's CR LF is the sentence's only line break |
| GpsSim.PeriodMs | src/GPSSim.hpp:380-383 | a frequency that is not positive gives 1000 ms; a positive one gives the period rounded to the nearest millisecond |
| GpsSim.GPSSim.constructor | src/GPSSim.hpp:372-411 | records the position, altitude and speed with their defaults, derives the period, starts stopped with motion disabled and nothing written |
| GpsSim.GPSSim.Init | src/GPSSim.hpp:436-451 | afterwards the simulator is running with exactly one generator; a call while running changes nothing; each start from the stopped state pins the simulated position to the base position |
| GpsSim.GPSSim.Stop | src/GPSSim.hpp:460-475 | afterwards the flag is clear and no generator is left; a call while stopped changes nothing |
| GpsSim.GPSSim.ConfigTraj | src/GPSSim.hpp:480-491 | as written: motion stays as it was, and radius and period change only if motion was already enabled |
| GpsSim.GPSSim.ConfigTrajIntended | src/GPSSim.hpp:480-491 | corrected: records radius and period and enables motion |
| GpsSim.GPSSim.UpdatePosition | src/GPSSim.hpp:309-324 | with motion disabled the simulated position stays put; with motion enabled it becomes the base position plus the displacement |
| GpsSim.GPSSim.Tick | src/GPSSim.hpp:336-350 | while running, one pass appends the framed RMC sentence and then the framed GGA sentence (10 satellites, HDOP 0.8) for the current position, then moves the position only if motion is enabled; once stopped it writes nothing and changes nothing |
| GpsSim.GPSSim.Pass | src/GPSSim.hpp:338-349 | the loop body appends both sentences for the position before the move, then moves |
| GpsSim.GPSSim.Emit | src/GPSSim.hpp:338-345 | the write appends exactly the two framed sentences, RMC first |
| GpsSim.Burst | src/GPSSim.hpp:338-341 | a burst is `|RMC body| + 6 + |GGA body| + 6` long and splits there into two sentences, and each one passes the NMEA checksum test `ChecksumMatches`: the XOR of the bytes between `$` and `*` equals the two hex digits after `*` |
| GpsSim.GenerateBurst | src/GPSSim.hpp:338-341 | computes the RMC frame followed by the GGA frame |
| GpsSim.CircleAsWritten | src/GPSSim.hpp:480-491 | a simulator configured for a circle, started and moved, is still at its base position |
| GpsSim.CircleIntended | src/GPSSim.hpp:480-491 | with the corrected configuration, the same run moves the position by the displacement |
| GpsTrack.Split | src/GPSTrack.hpp:242-268 | the `getline` loop returns exactly the non-empty pieces between separators, in order |
| Strings.TokensWellFormed | src/GPSTrack.hpp:242-268 | every piece `split` returns is non-empty and holds no separator |
| Strings.TokensConcat | src/GPSTrack.hpp:242-268 | the pieces put back together are the input with every separator removed |
| Strings.TokensOfJoin | src/GPSTrack.hpp:242-268 | splitting a comma-joined list of separator-free fields gives back the fields, minus the empty ones |
| GpsTrack.ReadLine | src/GPSTrack.hpp:373-405 | a line read takes at least one read of a non-empty input, and never more reads than the input has |
| GpsTrack.ReadLineFrom | src/GPSTrack.hpp:373-405 | the one-read-at-a-time loop yields the reference reading: the line up to LF without its CRs, ended early by an empty read, or an error at a failed read |
| GpsTrack.ReadLineUnbroken | src/GPSTrack.hpp:388-396 | a line read never holds CR or LF |
| GpsTrack.ReadLineOfText | src/GPSTrack.hpp:388-396 | text followed by LF is read as the text without its CRs, in one read per character and the LF, leaving what follows |
| GpsTrack.ReadLineAtNoData | src/GPSTrack.hpp:397 | a read that returns nothing before any LF ends the line: it is what was read so far without its CRs, in one read per character plus the empty one, leaving what follows |
| GpsTrack.ReadLineFails | src/GPSTrack.hpp:398-401 | a failed read before any LF makes the call fail, whatever came before |
| GpsTrack.ReadFramedSentence | src/GPSTrack.hpp:373-405 | a `$body*hex` CR LF sentence is read back as everything but its CR LF |
| GpsTrack.HemisphereSign | src/GPSTrack.hpp:144 | the sign is -1 exactly when the hemisphere text is "S" or "W", and +1 otherwise |
| GpsTrack.Coordinate | src/GPSTrack.hpp:129-144 | text `stod` rejects gives 0; a non-negative reading gives a coordinate that is not positive for "S" and "W" and not negative for any other hemisphere text |
| GpsTrack.ConvertLatLon | src/GPSTrack.hpp:122-148 | empty text gives empty text; otherwise `std::to_string` of the coordinate; with a formatter that writes decimal text, the result is empty exactly when the input is |
| GpsTrack.DdmmToDegreesOf | src/GPSTrack.hpp:142-143 | `ddmm.mmmm` with `d` whole degrees and fewer than 100 minutes reads as `d + m/60` |
| GpsTrack.CoordinateSign | src/GPSTrack.hpp:142-144 | a positive reading gives a non-zero coordinate that is negative exactly for "S" and "W" |
| GpsTrack.UnparsableIsZero | src/GPSTrack.hpp:129-140 | text `stod` rejects is taken as 0, so the result is the text of 0 degrees |
| GpsTrack.GgaRecord | src/GPSTrack.hpp:176-202 | the stored record always has four values |
| GpsTrack.GgaRecordFields | src/GPSTrack.hpp:176-202 | the record is field 1, the conversion of fields 2 and 3, the conversion of fields 4 and 5, and field 9 |
| GpsTrack.GPSData.constructor | src/GPSTrack.hpp:114 | a new record holds nothing |
| GpsTrack.GPSData.Parsing | src/GPSTrack.hpp:163-209 | clears the record; code 0 stores the four GGA values and answers true; any other code leaves it empty and answers false |
| GpsTrack.GPSData.ToCsv | src/GPSTrack.hpp:215-232 | the loop writes the four values comma-separated, then LF |
| GpsTrack.CsvLine | src/GPSTrack.hpp:215-232 | the line is the four values plus four characters (three commas and the final LF), and it ends in LF |
| GpsTrack.CsvRoundTrip | src/GPSTrack.hpp:215-232 | four non-empty, comma-free values are given back by splitting their CSV line without its LF |
| GpsTrack.Interpret | src/GPSTrack.hpp:450-465 | as written: a pass reads nothing exactly for an empty line; only a line holding "GGA" is reported or overruns; a reported record has four values |
| GpsTrack.InterpretGuarded | src/GPSTrack.hpp:450-465 | corrected: the same, but a pass never overruns |
| GpsTrack.PassOf | src/GPSTrack.hpp:446-465 | a pass fails exactly when `read_serial` throws; an exhausted port gives an empty line; the checked pass never overruns; a reported record has four values |
| GpsTrack.GuardedNeverOverruns | src/GPSTrack.hpp:457-459 | the checked pass never overruns the vector; it agrees with the pass as written wherever that one does not overrun, and skips the line where it does |
| GpsTrack.NoFixTokens | src/GPSTrack.hpp:242-268 | the no-fix GGA line splits into only five tokens |
| GpsTrack.NoFixSentenceOverruns | src/GPSTrack.hpp:457-459 | the loop as written sends the no-fix GGA sentence to `parsing` with five fields, an overrun; the checked loop skips it |
| GpsTrack.GPSTrack.constructor | src/GPSTrack.hpp:501-522 | starts stopped, nothing sent, an empty record, the given serial input |
| GpsTrack.GPSTrack.Init | src/GPSTrack.hpp:548-557 | afterwards the worker is running with exactly one thread; a call while running changes nothing |
| GpsTrack.GPSTrack.Stop | src/GPSTrack.hpp:567-579 | afterwards the flag is clear and no worker is left; a call while stopped changes nothing |
| GpsTrack.GPSTrack.ReadSerial | src/GPSTrack.hpp:373-405 | returns the reference reading of the port and consumes exactly the reads it took |
| GpsTrack.GPSTrack.Send | src/GPSTrack.hpp:412-429 | answers whether `sendto` took the datagram, and appends the message to what was sent exactly then |
| GpsTrack.GPSTrack.Report | src/GPSTrack.hpp:459-481 | stores the GGA record of the vector and sends its CSV line when the socket accepts it |
| GpsTrack.GPSTrack.LoopPass | src/GPSTrack.hpp:446-487 | one pass, as written or (`guarded`) with GGA lines of fewer than ten fields skipped: the pass is the reference pass over the unread input, and it consumes exactly the reads `read_serial` takes. A reported GGA record becomes the stored record and its CSV line is sent when the socket accepts it. An empty, non-GGA or failed pass sends nothing and leaves the record alone. An overrunning pass sends nothing, and no promise is made about the record |
| EndToEnd.FramedSentenceIsRead | src/GPSTrack.hpp:373-405 | a sentence the simulator frames is read as one line, the sentence without CR LF, in as many reads as it has characters |
| EndToEnd.CoordinateRoundTrip | src/GPSTrack.hpp:142-144 | reading back the simulator's `ddmm.mmmm` text within `e` of its value gives back the signed coordinate to within `e/60` degrees; with `e` = 0 it gives it back exactly |
| EndToEnd.GgaLineTokens | src/GPSSim.hpp:294-301 | splitting a framed GGA line gives at least ten tokens: time at 1, latitude and N/S at 2 and 3, longitude and E/W at 4 and 5, altitude at 9 |
| EndToEnd.FramedPass | src/GPSTrack.hpp:446-457 | the pass over a framed sentence is the pass over its line |
| EndToEnd.GgaLineIsReported | src/GPSTrack.hpp:457-459 | a line with "GGA" and at least ten tokens is reported, checked or not, as fields 1, 2/3, 4/5 and 9 |
| EndToEnd.GgaDecimalLine | src/GPSSim.hpp:294-301 | a GGA line laid out from decimal fields has a body without line breaks, holds "GGA", and splits into its first ten fields |
| EndToEnd.GgaLineFacts | src/GPSSim.hpp:294-301 | a simulated GGA line has no line break, holds "GGA" and splits into its first ten fields |
| EndToEnd.GgaSentenceIsReported | src/GPSTrack.hpp:446-483 | a GGA sentence from the simulator is reported, checked or not, with the time, both converted coordinates and the altitude as written |
| EndToEnd.RmcLineHasNoGga | src/GPSSim.hpp:243-254 | a simulated RMC line does not contain "GGA" |
| EndToEnd.RmcDecimalLine | src/GPSSim.hpp:243-254 | an RMC line laid out from decimal fields has a body without line breaks and holds no "GGA" |
| EndToEnd.RmcLineFacts | src/GPSSim.hpp:218-257 | the RMC line the simulator writes has a body without line breaks and holds no "GGA" |
| EndToEnd.RmcSentenceIsSkipped | src/GPSTrack.hpp:457-465 | an RMC sentence from the simulator is read in as many reads as it has characters and skipped, checked or not |
| EndToEnd.BurstFeedsTracker | src/GPSSim.hpp:338-341 | one burst takes the receiver two passes: the first consumes the RMC sentence and skips it; the second reports the GGA record |
| EndToEnd.ReportedPositionIsSimulated | src/GPSTrack.hpp:122-148 | the reported latitude and longitude are `std::to_string` of values within `e/60` degrees of the simulated position |

## Left out

- Operating-system I/O is not modelled: `openpty`, `termios`, `open_serial`, `::read`, `::write`, `::close`, `socket`, `sendto` addressing, the destructors and `obter_caminho_terminal_filho`. Reads from the serial port are a sequence of outcomes (a character, nothing, an error). A `sendto` is an `accepted` flag. The writes to the pseudo-terminal are the `written` text.
- Threads, `std::atomic::exchange`, `join` and `sleep_for` pacing are not modelled. `init`/`stop` are sequential transitions of a flag and a thread count. One pass of each loop is a method called with the flag as it stands.
- Clocks: `obter_tempo_utc`, `gmtime_r` and the steady clock become parameters. The RMC and GGA builders each read the clock themselves, so a pass takes two `Tm` values. The elapsed time and the sine/cosine displacement of `_update_position` are the `deltaLat`/`deltaLon` parameters.
- Floating point: `double` is `real`. `std::fixed`/`std::setprecision` output, `std::to_string` and `std::stod` are the uninterpreted functions of `FloatLib`. End-to-end facts assume these write decimal text (`DecimalFormatting`) and state the round trip for any reading error `e`.
- GpsTrack.ConvertLatLon: does not distinguish negative zero. The C++ writes `-0.000000` for a zero coordinate in S or W, while the model's product is 0.
- GpsTrack.ParsedOrZero: the `std::out_of_range` exception `std::stod` can throw is not caught by the C++ and is not modelled. Only `std::invalid_argument`, which is caught and leaves 0, is modelled, as `None`.
- GpsSim.WholeDegrees: does not model the overflow of `static_cast<int>` for coordinates of 2^31 degrees or more.
- GpsSim.PeriodMs: does not model the `(int)` cast of `llround` overflowing for frequencies so small that the period exceeds 2^31 - 1 ms.
- GpsTrack.GPSData.Parsing: requires ten fields for code 0, because the C++ indexes the vector without a bounds check, which is undefined behaviour past the end. The loop passes are where a short vector is handled.
- GpsTrack.GPSTrack.LoopPass: the model ends an overrunning pass at the overrun and sends nothing. It makes no promise about the record, because by then the C++ has cleared it and stored the values whose indices were in range. What the C++ does after it indexes past the end is undefined.
- GpsTrack.GPSData.ToCsv: requires four stored values, because the C++ indexes `data[0..3]` unchecked. In `loop` it runs only after a GGA `parsing`, which stores four.
- `GPSTrack::loop` does not validate NMEA checksums: it only looks for `GGA` and splits the line. The model's receiver passes do not check them either, and the end-to-end lemmas do not depend on the checksum; `ChecksumMatches` states the simulator side only.
- A failed read makes `read_serial` throw. The exception escapes the worker thread and ends the process. The model ends that pass with `ReadFailed` and does not model the termination.
- The `parsed` flag of `loop` is set and cleared within one pass, so it is not a field.
- Console logging (`std::cout`, `printf`, ANSI colours) is not modelled.
- `GPSData::pattern`, which nothing uses, and the `reserve(4)` capacity hint are not modelled.
- src/TrackSense.hpp, src/main.cpp and src/debug.cpp are not part of this model.
- Characters are Dafny `char`s, and the checksum takes each one modulo 256, as `(uint8_t)c` does for ASCII text.

## Findings

| source | as written | input that shows it | evidently intended | confidence | as-written member | corrected member |
|---|---|---|---|---|---|---|
| src/GPSTrack.hpp:457-459 | `loop` hands `split(mensagem)` of every line containing "GGA" to `parsing(0, …)`, which reads indices 1 to 9 with no bounds check; `split` drops empty fields | the GGA sentence of a receiver without a fix, `$GPGGA,,,,,,0,00,99.99,,,,,,*48`, splits into five fields, so `parsing` reads past the end | skip GGA lines with fewer than ten fields, as other unrecognised lines are skipped | high; not executed | GpsTrack.NoFixSentenceOverruns | GpsTrack.InterpretGuarded, GpsTrack.GuardedNeverOverruns |
| src/GPSSim.hpp:480-491 | `config_traj` returns at once unless `_mov_circ` is already true, and nothing else ever sets it, so its assignments never run | `config_traj(20.0, 120.0)` on a new simulator leaves motion disabled and the position fixed | record the radius and period and enable circular motion, as its documentation and its last assignment say | high; not executed | GpsSim.CircleAsWritten | GpsSim.CircleIntended |
