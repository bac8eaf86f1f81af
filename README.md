# UltrasonicHost in Dafny

A model of the measuring and receiving core of UltrasonicHost, with proofs. On the board, an STM32 program times an HC-SR04 echo. It converts the echo length to centimetres and sends one line `D:<value>\r\n` per measurement over a UART. On the PC, the Qt host reassembles the bytes it receives into lines. It parses each line into at most one distance and plots accepted distances in a sliding-window chart.

The modules follow that structure:

- `Wrappers`: `Option`.
- `Text`: the Qt string operations the parser relies on. These are `QChar::isSpace`, `QString::trimmed`, `indexOf`, `contains`, `split` with empty parts kept, and decimal numerals.
- `Decimal`: `QString::toDouble` with its success flag, restricted to decimal notation. It accepts surrounding whitespace, a sign ('+', '-' or U+2212), digits with at most one point, and an exponent. A non-zero value too small for a double, which would round to zero, counts as a failure, as in Qt.
- `Framing`: the reference definition of how a receive buffer is cut into lines at each `'\n'`, and the lemmas about it. These cover conservation, uniqueness and independence from chunking.
- `LineParser`: `SerialPortHandler::parseLine` as a function from a line to an optional distance.
- `SerialPort`: the class `SerialPortHandler`. Its receive buffer is a `seq<char>` field, and the `distanceReceived` and `connectionStatusChanged` signals are logs.
- `Chart`: the class `ChartWidget` and its bounded series of `(sample, distance)` points.
- `EchoTiming`: the board's `measureDistance`, `delayMicroseconds` and `sendDistanceToPC` on a class `Board`. Every read of the echo pin, of `HAL_GetTick` and of the TIM2 counter takes the next value from a finite trace of readings. Trigger-pin writes and UART bytes are logged.
- `LineEncoder`: `sprintf("D:%.2f\r\n", distance)`, stated through the value rounded to hundredths.
- `Pipeline`: the two ends together. A line the board sends is read back by the host as the measured distance, rounded to hundredths.

Distances are exact reals. A `uint32_t` is the subset type `uint32`, and its subtraction is written out modulo 2^32.

Two places where the model follows the code rather than the usual description of the system:

- The host's accumulator has no size limit, and the model has none either. `src/serialport.cpp:63` appends unconditionally.
- A `label:value` line that does not split into exactly two parts is not rejected by a separate check. It keeps the initial distance `-1.0`, which the range filter then drops. The visible effect is the same, and `LineParser.Field` models it as written.

## Model

| member | source | states |
|---|---|---|
| Text.TrimmedIsMiddle | src/serialport.cpp:77 | trimming keeps one contiguous middle part of the line and drops only whitespace before and after it |
| Text.Trimmed | src/serialport.cpp:77 | the trimmed text is no longer than the line and neither starts nor ends with whitespace |
| Text.TrimmedEmptyIff | src/serialport.cpp:77-78 | a line trims to the empty text exactly when it consists of whitespace only |
| Text.TrimmedNoop | src/serialport.cpp:77 | text that neither starts nor ends with whitespace is left unchanged by trimming |
| Text.TrimmedDropsLast | src/serialport.cpp:77 | one trailing whitespace character after already trimmed text is all that trimming removes |
| Text.IndexOf | src/serialport.cpp:66 | the result is -1 exactly when the character is absent; otherwise it is the position of its first occurrence |
| Text.Occurrences | src/serialport.cpp:84 | the count is 0 exactly when the character is absent (`contains`) and never exceeds the length |
| Text.OccurrencesAppend | src/serialport.cpp:84 | occurrences in a concatenation add up |
| Text.SplitJoin | src/serialport.cpp:85 | splitting loses nothing: joining the parts with the separator gives back the text |
| Text.SplitCount | src/serialport.cpp:86 | splitting gives one part more than there are separators |
| Text.SplitPartsFree | src/serialport.cpp:85 | no part contains the separator |
| Text.SplitInTwo | src/serialport.cpp:85-86 | exactly two parts come out precisely when the separator occurs once, and they are the text before and after it |
| Text.Split | src/serialport.cpp:85 | splitting always gives at least one part |
| Text.NatDigits | examples/stm32_example.c:116 | the numeral of n has digits only, denotes n, and has no leading zero |
| Text.NatDigitsLength | examples/stm32_example.c:113-116 | a number below 10^k has at most k digits |
| Decimal.ToDouble | src/serialport.cpp:88 | a text is read as a number exactly when it is a numeral whose value does not underflow a double, and then as that value; an accepted text is non-empty and made of number characters once trimmed |
| Decimal.Numeral | src/serialport.cpp:88 | the decimal grammar accepts a text only if its trimmed form is non-empty and made of number characters |
| Decimal.Exponent | src/serialport.cpp:100 | an exponent, optionally signed, is made of number characters only |
| Decimal.Scale | src/serialport.cpp:100 | scaling a non-negative mantissa by a power of ten gives a non-negative value |
| Decimal.Mantissa | src/serialport.cpp:100 | an accepted mantissa is non-empty, uses number characters only, and is never negative |
| Decimal.Unsigned | src/serialport.cpp:100 | an unsigned number, with or without exponent, is never negative and uses number characters only |
| Decimal.MarkerAt | src/serialport.cpp:100 | the exponent marker found is the first 'e' or 'E'; -1 when there is none |
| Decimal.RejectsForeignCharacter | src/serialport.cpp:88-89 | a text holding any character no number can contain is rejected |
| Decimal.MinusIsNonPositive | src/serialport.cpp:100-101 | a number read with a leading minus is never positive |
| Decimal.ReadsSigned | src/serialport.cpp:100 | a trimmed text with a sign is read as its unsigned part, negated after '-' or U+2212 |
| Decimal.UnsignedDigits | src/serialport.cpp:100 | a run of digits is an unsigned number denoting their value |
| Decimal.ReadsNatural | src/serialport.cpp:100 | the decimal numeral of a natural number reads back as exactly that number |
| Decimal.ReadsFixed2 | src/serialport.cpp:88 | a numeral with two decimals reads back as exactly the hundredths its digits spell, divided by 100 |
| LineParser.Accept | src/serialport.cpp:104-105 | a value is passed on exactly when it exists and lies in [0, 500], and then unchanged |
| LineParser.Field | src/serialport.cpp:85-89 | with exactly one separator the value is what toDouble makes of the text after it; otherwise the distance stays at its initial -1.0 |
| LineParser.Candidate | src/serialport.cpp:82-102 | a text holding ':' yields a value other than -1.0, or stops parsing, only when it holds exactly one ':'; a text without ':' but with '=' does so only with exactly one '=' (the ':'-before-'=' order itself is stated by ColonGrammar and EqualsGrammar) |
| LineParser.UnderflowEmitsNothing | src/serialport.cpp:88-89 | a value that underflows a double, such as 1e-400 after "D:", makes the line emit nothing |
| LineParser.MinusSignAccepted | src/serialport.cpp:88-89 | a labelled value written with U+2212 MINUS SIGN is read as negative: it emits the distance 0 when its digits denote zero, and nothing otherwise |
| LineParser.MinusSignNumeral | src/serialport.cpp:88 | U+2212 MINUS SIGN in front of digits reads as minus their value |
| LineParser.ParseLine | src/serialport.cpp:75-106 | at most one distance per line, always within [0, 500]; a blank line emits nothing |
| LineParser.ColonGrammar | src/serialport.cpp:84-90 | a line with ':' is read by the ':' grammar alone; one ':' makes the text after it the candidate, and more than one emits nothing |
| LineParser.EqualsGrammar | src/serialport.cpp:91-97 | without ':', a line with '=' is read in the same way on '=' |
| LineParser.BareGrammar | src/serialport.cpp:98-102 | without ':' or '=', the whole trimmed line must be an in-range number |
| LineParser.EmptyIsNoNumber | src/serialport.cpp:99-101 | the empty text is not a number |
| LineParser.ColonAfterLabel | src/serialport.cpp:85-86 | in `label:value` with no other ':', the single separator sits right after the label |
| LineParser.LabelIgnored | src/serialport.cpp:84-89 | whatever label stands before the ':', the line yields the range-checked value after it |
| LineParser.TrailingSpaceIgnored | src/serialport.cpp:77 | a trailing whitespace character, such as the board's '\r', does not change what a line parses to |
| Framing.FramesConserve | src/serialport.cpp:63-71 | the lines cut, each followed by its '\n', then the rest spell the buffer exactly; no line and no rest holds '\n' |
| Framing.Frames | src/serialport.cpp:65-72 | the rest left after cutting holds no line feed; there are never more lines or more rest than bytes |
| Framing.FramesUnique | src/serialport.cpp:65-72 | any line-feed-free lines and rest that spell a buffer are its framing |
| Framing.FramesChunked | src/serialport.cpp:63-72 | framing a, then a's rest followed by b, gives the same lines and rest as framing a + b |
| Framing.FramesAdvance | src/serialport.cpp:66-70 | cutting the first line off the buffer moves it from the buffer's framing to the lines done, and the overall framing is unchanged |
| Framing.JoinedAppend | src/serialport.cpp:63-71 | the bytes of two runs of lines are the bytes of each run, concatenated |
| SerialPort.Emissions | src/serialport.cpp:71 | a run of lines emits at most one distance per line, each within [0, 500] |
| SerialPort.Emitted | src/serialport.cpp:104-105 | one line emits at most one distance, within [0, 500] |
| SerialPort.EmissionsAppend | src/serialport.cpp:65-72 | the distances of two runs of lines are those of each run, in order |
| SerialPort.ChunkingIndependent | src/serialport.cpp:63-72 | two deliveries a and b leave the same buffer and emit the same distances as one delivery of a + b, from any buffer |
| SerialPort.SerialPortHandler.constructor | src/serialport.cpp:4-12 | a new handler has a closed port, an empty buffer and no signals emitted |
| SerialPort.SerialPortHandler.ClosePort | src/serialport.cpp:47-54 | the buffer is emptied whether or not the port was open; only an open port reports a disconnection |
| SerialPort.SerialPortHandler.HandleReadyRead | src/serialport.cpp:61-73 | the new buffer holds no '\n'; the old buffer plus the received bytes equal the lines cut (each with its '\n') plus the new buffer; the emitted distances are those of the lines cut, in order |
| SerialPort.SerialPortHandler.ParseLine | src/serialport.cpp:75-106 | the line's distance, if any, is appended to the emitted signals, and nothing else changes |
| Chart.Slide | src/chartwidget.cpp:70-78 | the new series is the old one plus the new point, with at most its oldest point removed, and only when the capacity is exceeded |
| Chart.SlideKeepsBound | src/chartwidget.cpp:74-75 | a series within its capacity stays within it after an append |
| Chart.SlideTrimsLazily | src/chartwidget.cpp:74-75 | a series at or over a lowered capacity loses one point per append and never more |
| Chart.SlideConsecutive | src/chartwidget.cpp:70-71 | appending the point numbered by the counter keeps the sample numbers consecutive, ending at the new counter |
| Chart.ChartWidget.constructor | src/chartwidget.cpp:5-22 | a new chart has capacity 100, counter 0, is running and empty, and its X axis is [0, 100] |
| Chart.ChartWidget.SetAxisXRange | src/chartwidget.cpp:84 | the X axis takes a range whose minimum is at most its maximum and ignores any other, keeping its old range; nothing else changes |
| Chart.ChartWidget.AddDataPoint | src/chartwidget.cpp:63-79 | paused: nothing changes; otherwise the point (counter, distance) is appended and the counter moves on by one; the oldest point goes when the capacity is exceeded, and the axis then shows [counter - max, counter] unless the capacity is negative, when it keeps its range; the sample numbers stay consecutive and the axis never inverts |
| Chart.ChartWidget.SetMaxDataPoints | src/chartwidget.cpp:81-85 | the capacity is taken as given and the axis set to [0, count], or kept for a negative count; no stored point is removed |
| Chart.ChartWidget.ClearData | src/chartwidget.cpp:92-97 | no points, counter 0, axis [0, max], or kept for a negative capacity; capacity and pause flag are kept |
| Chart.ChartWidget.SetPaused | src/chartwidget.cpp:99-102 | only the pause flag changes, and the chart stays consistent |
| EchoTiming.Sub32 | examples/stm32_example.c:97 | the uint32_t difference is the value that, added to the start time, wraps around to the end time |
| EchoTiming.ExpiredAsWritten | examples/stm32_example.c:71-73 | as written, the deadline is start + 30 when that fits in 32 bits and start + 30 - 2^32 when it wraps, and a tick must exceed it |
| EchoTiming.Expired | examples/stm32_example.c:71-73 | the corrected test compares the elapsed ticks with 30: now - start without wrap-around, now + 2^32 - start across it |
| EchoTiming.ExpiredMeansElapsed | examples/stm32_example.c:71-73 | the corrected deadline test fires exactly when more than 30 ms have elapsed, across a tick wrap-around too |
| EchoTiming.AsWrittenAgreesWithoutWrap | examples/stm32_example.c:71-73 | away from the wrap-around, the test as written and the corrected test agree |
| EchoTiming.AsWrittenTimesOutAtOnce | examples/stm32_example.c:71-73 | as written, a wait starting at tick 0xFFFFFFF0 times out on its first check |
| EchoTiming.AsWrittenNeverTimesOut | examples/stm32_example.c:84-86 | as written, a wait starting at tick 0xFFFFFFE1 never times out, although the corrected test fires 31 ms later |
| EchoTiming.Wait | examples/stm32_example.c:72-75 | a wait that ends has polled within the readings; a timeout happens on a poll after the first |
| EchoTiming.WaitCharacterized | examples/stm32_example.c:72-75 | a wait ends either at the first read showing the other level, with every earlier tick in time, or at the first tick past the deadline while the pin still showed the level |
| EchoTiming.AwaitEdgeSpec | examples/stm32_example.c:71-76 | every edge wait consumes at least one tick reading, and one pin reading unless it timed out |
| EchoTiming.DelayPolls | examples/stm32_example.c:132 | the busy-wait ends at a counter reading of at least us |
| EchoTiming.DelayPollsBelow | examples/stm32_example.c:132 | every counter reading before the one that ends the delay is below us |
| EchoTiming.DelayPollsNone | examples/stm32_example.c:132 | the delay runs out of readings only when none reaches us |
| EchoTiming.AfterTrigger | examples/stm32_example.c:64-68 | the trigger pulse consumes at least two counter readings, one per delay |
| EchoTiming.Measure | examples/stm32_example.c:58-95 | a finished cycle has consumed at least two counter readings and at least one tick reading |
| EchoTiming.AfterPulse | examples/stm32_example.c:70-95 | after a rise timeout no counter reading is consumed; an echo is timed by the first two counter readings after the pulse |
| EchoTiming.AfterRise | examples/stm32_example.c:78-95 | the timed part ends in a fall timeout, consuming the start-time reading only, or in an echo timed from the first to the second counter reading |
| EchoTiming.DistanceOf | examples/stm32_example.c:97-103 | the distance is 0 or within [2, 400], and when not 0 it is the duration times 0.017 |
| EchoTiming.DistanceNonzeroIff | examples/stm32_example.c:98-103 | an echo gives a non-zero distance exactly when it lasts 118 to 23529 us |
| EchoTiming.Result | examples/stm32_example.c:101-105 | measureDistance returns 0 or a distance in [2, 400], and 0 after either timeout |
| EchoTiming.Board.ReadEcho | examples/stm32_example.c:72 | a pin read returns the next echo reading and consumes only it |
| EchoTiming.Board.GetTick | examples/stm32_example.c:73 | a tick read returns the next tick reading and consumes only it |
| EchoTiming.Board.GetCounter | examples/stm32_example.c:81 | a counter read returns the next TIM2 reading and consumes only it |
| EchoTiming.Board.WriteTrig | examples/stm32_example.c:64 | the Trig pin takes the level, and the write is logged |
| EchoTiming.Board.DelayMicroseconds | examples/stm32_example.c:127-135 | the counter is read up to and including the first reading of at least us, and the timer ends stopped |
| EchoTiming.Board.PollWhile | examples/stm32_example.c:72-76 | the polling loop consumes exactly the readings the reference wait reads, and reports its timeout |
| EchoTiming.Board.AwaitEdge | examples/stm32_example.c:71-76 | one deadline-bounded edge wait consumes exactly what the reference edge wait reads |
| EchoTiming.Board.SendTrigger | examples/stm32_example.c:64-68 | the Trig pin is written low, high, low, and is left low, with the two counter waits between the writes |
| EchoTiming.Board.MeasureDistance | examples/stm32_example.c:58-106 | the result is the reference cycle's distance and the readings left are what it did not consume; the Trig pin ends low and the timer ends stopped on every path |
| EchoTiming.Board.SendDistanceToPC | examples/stm32_example.c:111-122 | the UART receives exactly the encoded line |
| LineEncoder.Hundredths | examples/stm32_example.c:116 | the printed number of hundredths is within half a hundredth of the value |
| LineEncoder.Fixed2 | examples/stm32_example.c:116 | the numeral of h hundredths is integer digits, a '.', and two digits |
| LineEncoder.FormatFixed2 | examples/stm32_example.c:116 | the printed value starts with '-' exactly when the value is negative |
| LineEncoder.EncodeLine | examples/stm32_example.c:116 | every line starts with "D:" and ends with "\r\n" |
| LineEncoder.FormatNonNegative | examples/stm32_example.c:116 | a value that is not negative is printed as its rounded numeral alone, with no sign |
| LineEncoder.EncodedBody | examples/stm32_example.c:116 | the line without its final '\n' is the label, the value and '\r' |
| LineEncoder.ReadsBackFixed2 | examples/stm32_example.c:116 | the two-decimal numeral of h hundredths reads back as exactly h / 100 |
| LineEncoder.Fixed2Plain | examples/stm32_example.c:116 | the numeral holds no '\n', ':' or '=' and ends in its last digit |
| LineEncoder.FormatHasNoSeparators | examples/stm32_example.c:116 | the printed value never holds the line terminator or a label separator |
| LineEncoder.LineFeedLast | examples/stm32_example.c:116 | a text without '\n', closed by one, has that line feed as its first and only one |
| LineEncoder.LabelOnce | examples/stm32_example.c:116 | "D:" and a value without ':' give a line with exactly one ':' |
| LineEncoder.EncodedLineShape | examples/stm32_example.c:116 | every encoded line starts with "D:", ends in "\r\n", and holds exactly one '\n' (the last byte) and exactly one ':' |
| LineEncoder.EncodedLineFits | examples/stm32_example.c:113-116 | every distance from 0 to 400 cm encodes in at most 10 bytes, inside the 32-byte buffer |
| Pipeline.ReportFramesAsOneLine | examples/stm32_example.c:116 | the host cuts a report line into exactly one line, the text before its '\n', and keeps nothing buffered |
| Pipeline.ReportBodyParses | examples/stm32_example.c:116 | the host reads a report line as the range-checked value behind "D:", ignoring the '\r' |
| Pipeline.Fixed2Reportable | examples/stm32_example.c:116 | the numeral of h hundredths is a valid report value and reads back as h / 100 |
| Pipeline.Fixed2ReportParses | examples/stm32_example.c:116 | the report body for h hundredths up to 500 cm parses to exactly h / 100 |
| Pipeline.ReportLineEmits | examples/stm32_example.c:116 | such a report line emits h / 100 and nothing else |
| Pipeline.ReportReachesHost | examples/stm32_example.c:116 | a distance from 0 to 400 cm sent in one report and received in one read fits the buffer, leaves nothing buffered, and is emitted once, within half a hundredth of the value sent |
| Pipeline.MeasurementReachesHost | examples/stm32_example.c:97-116 | every result measureDistance can return reaches the host as exactly one emitted distance, within half a hundredth of the result |

## Left out

- I/O and hardware: QSerialPort configuration and reading (`openPort`, `getAvailablePorts`, `handleError`, `readAll`), HAL GPIO and timer calls, and `HAL_UART_Transmit` are not modelled as such. Their readings are finite input traces, and their writes are logs.
- Real time: the model knows only the tick and counter values it reads. `HAL_Delay(100)` and the endless `ultrasonicTask` loop are not modelled.
- Floating point: `float * 0.017f`, `double`, and `sprintf`'s binary-to-decimal rounding are exact reals here. Rounding to two decimals is modelled as rounding half up. `QString::toDouble` is a decimal grammar. It does not accept `inf` or `nan`, which Qt reads but the [0, 500] filter drops. Like Qt, it rejects hexadecimal and group separators. U+2212 MINUS SIGN is read as '-', as Qt does; no other non-ASCII sign or digit variant is modelled.
- Decimal.ToDouble: reports underflow (a non-zero value of magnitude at most 2^-1075) as a failure, but does not report overflow: a numeral beyond the largest double is accepted with its exact value. Such a value is above 500, so the line emits nothing either way.
- Text decoding: `QString::fromUtf8` is not modelled. The characters of a line stand for its decoded text.
- TIM2 is treated as a 32-bit counter read through `GetCounter`. Its actual width, prescaler and `__HAL_TIM_SET_COUNTER` reset are not modelled beyond starting and stopping.
- The 100 ms UART transmit timeout at examples/stm32_example.c:121 is not modelled. The whole line counts as sent.
- `m_dataCounter` is an unbounded integer; a 32-bit `int` overflow after 2^31 samples is not modelled.
- `setupChart`, `setYAxisRange`, pens, titles and the Y axis are rendering only. Only the X-axis range that `addDataPoint`, `setMaxDataPoints` and `clearData` set is kept.
- `qDebug` logging at src/serialport.cpp:80 is left out.
- The persistence layer (`src/datamanager.cpp`), the main window and the serial simulator are not part of this model.
- EchoTiming.Board.SendDistanceToPC: requires the encoded line to be shorter than 32 bytes, since the source would overflow its buffer otherwise. `LineEncoder.EncodedLineFits` shows this holds for every value `measureDistance` returns.
- EchoTiming.Board.PollWhile: uses the corrected deadline test `Expired` rather than the wrapping test as written (see Findings). The reference functions `EchoTiming.Wait`, `AwaitEdgeSpec`, `AfterPulse`, `AfterRise` and `Measure`, and so `EchoTiming.Board.AwaitEdge` and `MeasureDistance`, use the same corrected test.
- EchoTiming.Board.MeasureDistance: defined only on traces long enough for the cycle to finish (`Measure(Inputs()).Some?`). A trace that runs out stands for a loop the source never leaves: the TIM2 counter never reaching the delay's `us`, or the echo pin keeping its level while the tick never passes the deadline. Such a hang is not modelled.

## Findings

| source | as written | input that shows it | evidently intended | confidence | as-written member | corrected member |
|---|---|---|---|---|---|---|
| examples/stm32_example.c:71-73 | the deadline `HAL_GetTick() + 30` is a wrapping `uint32_t` sum, and the loop gives up when a later tick exceeds it | start tick 0xFFFFFFE1 gives deadline 0xFFFFFFFF, which no tick exceeds, so the wait never times out; start tick 0xFFFFFFF0 gives deadline 14, so the wait times out on its first check | give up once more than 30 ms have elapsed, with the elapsed time counted modulo 2^32 | not executed | EchoTiming.AsWrittenNeverTimesOut | EchoTiming.ExpiredMeansElapsed |
