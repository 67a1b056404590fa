# chissoku: a Dafny model of the UD-CO2S driver core

chissoku reads CO2, humidity and temperature from an IO-DATA UD-CO2S sensor
over a serial port and hands every reading to a set of output sinks
(stdout, MQTT, Prometheus). This project models the driver core of
`main.go` and proves properties of it:

- **Wire** (`wire.dfy`): the commands `STP`, `ID?`, `STA`, the responses
  `OK` and `NG`, and the CRLF framing of every command written to the port.
- **Handshake** (`handshake.dfy`): `prepareDevice`. It writes each command
  and then reads response lines until one starts with `OK` (go on) or `NG`
  (fail, naming the command). Every other line is skipped. A write error
  aborts with the port's own error, which does not name the command. The line source is the scanner that the telemetry reader goes on
  using.
- **Telemetry** (`telemetry.dfy`): the per-line classifier of `readDevice`
  and its read loop. The pattern `CO2=(\d+),HUM=([0-9\.]+),TMP=([0-9\.-]+)`
  is written as a deterministic leftmost, greedy matcher over positions. It
  is proved sound and complete against a declarative description of the
  pattern. CO2 goes through a model of `strconv.ParseInt`, which saturates
  at 2^63-1. The read loop is a method proved against a fold over the
  classified lines.
- **Outputters** (`outputters.dfy`): the sink registry, the activation
  filter of the `AfterApply` hook, the unspecified order of a Go map
  `range`, and the dispatch loop as a function of the events it receives.
- **Engine** (`engine.dfy`): the `Chissoku` object as a class. It holds
  the registry, the shared active map, the once-only cleanup latch and a
  trace of the effects of the activation hook, the dispatcher and the
  cleanup (Initialize, Cancel, Close, Output, the cleanup's STP write).
  The handshake's frames are not in this trace: `PrepareDevice` returns
  them as its `written` sequence. Its methods are the activation hook, the
  cleanup, one dispatch step (split into deactivation and delivery), the
  dispatch loop, and the reader with its cleanup on a scanner error.
- **Discovery** (`discovery.dfy`): the selection loop of `findUDCO2S`.

The model keeps two run-time panics of the source as explicit outcomes:
- slicing `t[:2]` of a response line shorter than two bytes;
- slicing `text[:6]` of a non-telemetry line shorter than six bytes.

It also keeps two quirks:
- when the line source runs out during the handshake, the next command is
  sent without an error;
- `dispatch` deletes from the shared active map in place, so when the last
  sink is deactivated the cleanup it then runs finds nothing to close.
  More generally, a sink removed by a deactivation notice is never closed,
  because the cleanup closes only the sinks still in the map. So not every
  initialized sink is closed exactly once, only every sink still active
  when the cleanup runs (`DeactivatedNeverClosed`).

Go's map iteration order is unspecified. Every loop over a map is therefore
stated as visiting each key exactly once, in some order (`Enumerates`).

## Model

| member | source | states |
|---|---|---|
| Wire.FrameInjective | main.go:272 | two commands with the same CRLF frame are the same command |
| Wire.FramesInjective | main.go:270-274 | the sequence of frames written determines the commands written, in order |
| Handshake.PrepareDevice | main.go:257-286 | outcome, `do` slice, frames written and scanner position are those of the specification `Prepare`; at most three commands, and only written ones are framed onto the port |
| Handshake.SendCommands | main.go:270-285 | the command loop appends each command to `do` before writing it, stops on a write error, an NG line or a short line, and matches `Run` |
| Handshake.AwaitResponse | main.go:276-283 | the wait reads lines until an OK or NG prefix or a line too short to slice; it ends where `AwaitReply` says, or at the end of the line source |
| Handshake.RunShape | main.go:270-285 | every handshake attempts at least one more command and never more than all; only a failed write leaves its command unwritten; success means all were attempted; the NG error names the last command in `do`; after a write error the command whose write failed is last in `do`; the scanner never moves backwards or past the end |
| Handshake.AwaitBounds | main.go:276-283 | a wait that ends on a line ends after the line it started at and within the source |
| Handshake.PrepareShape | main.go:261-285 | `do` holds 1 to 3 commands; success means all three were attempted and written; the NG error names the last command in `do`; exactly the failed write is missing from the port |
| Handshake.AwaitSkips | main.go:276-283 | lines whose two-byte prefix is neither OK nor NG are skipped by the wait |
| Handshake.AwaitChatter | main.go:276-283 | a wait over nothing but such lines runs out of input |
| Handshake.AckedChainRuns | main.go:270-284 | each acknowledged command moves on to the next one, reading from just after its OK line |
| Handshake.AllAcknowledged | main.go:261-285 | when every wait ends on OK, the handshake succeeds, `do` is [STP, ID?, STA], and exactly the frames "STP\r\n", "ID?\r\n", "STA\r\n" are written, in that order |
| Handshake.RejectedAt | main.go:276-283 | an NG response to command k fails the handshake naming command k; `do` ends with it; nothing is written after it |
| Handshake.WriteFailsAt | main.go:271-274 | a write error on command k returns the port's error at once, without naming the command; `do` ends with command k and only the earlier frames are on the port |
| Handshake.SilentEnd | main.go:276-285 | if the line source ends while waiting, the remaining commands are still written and the handshake reports success |
| Handshake.RunsOut | main.go:270-285 | with the line source used up, each remaining command is written without waiting |
| Handshake.ShortLinePanics | main.go:278 | a response line shorter than two bytes panics after its command was written |
| Telemetry.RunLength | main.go:207 | a greedy character-class run starting inside the line stays inside it |
| Telemetry.RunLengthMaximal | main.go:207 | the greedy run covers only characters of its class and stops at the first character outside it |
| Telemetry.RunLengthExact | main.go:207 | a run of class characters ending at a non-class character or the line's end is exactly what the greedy run takes |
| Telemetry.RunLengthAtLeast | main.go:207 | the greedy run takes at least every class run that starts where it does |
| Telemetry.StepExact | main.go:207 | a literal followed by a class run ending at a comma is consumed exactly up to the comma |
| Telemetry.MatchAtSound | main.go:207-211 | whatever the matcher returns at a position is a match of the pattern there, with a maximal temperature capture |
| Telemetry.MatchAtComplete | main.go:207-211 | every match of the pattern at a position is found, with the same CO2 and humidity captures and the greedy temperature capture |
| Telemetry.FindMatch | main.go:211-212 | the search returns the leftmost position where the pattern matches, and none when it matches nowhere |
| Telemetry.ParseInt64 | main.go:214 | the CO2 value is the decimal value of the digits, saturated to 0..2^63-1 |
| Telemetry.DecimalRoundTrip | main.go:214 | reading back the decimal text of a number gives the number |
| Telemetry.ParseInt64RoundTrip | main.go:214 | any CO2 value up to 2^63-1 written in decimal parses back to itself |
| Telemetry.Classify | main.go:210-222 | a reading carries a CO2 value within the int64 range and the configured tags |
| Telemetry.ClassifyLeftmost | main.go:207-217 | a line with the pattern yields exactly one sample from the leftmost match: CO2 of its digit run (saturated), humidity and temperature captures, configured tags; this takes precedence over the stop echo |
| Telemetry.ClassifyReading | main.go:211-212 | a line yields a reading exactly when the pattern matches somewhere in it |
| Telemetry.NonTelemetryLine | main.go:218-222 | a line without the pattern panics if shorter than six bytes, is the stop echo if it starts with "OK STP", and is otherwise skipped |
| Telemetry.KindsAt | main.go:209-211 | the loop classifies each line of the scanner on its own |
| Telemetry.ReadLoop | main.go:209-229 | the read loop emits exactly what the fold `ReadFrom` over the classified lines gives |
| Telemetry.ReadFromStep | main.go:209-223 | one turn of the loop: a reading is emitted before the rest, noise is skipped, the stop echo and a panic end the loop at that line |
| Telemetry.ReadFromShape | main.go:209-229 | the loop emits one sample per telemetry line before the line it stops at, in order; it stops at the stop echo or a panicking line, or reads to the end, where a scanner error decides between error and clean return |
| Telemetry.ReadingsCons | main.go:209-217 | the samples of a list of lines are those of its first line followed by those of the rest |
| Telemetry.StopEchoEndsSession | main.go:218-219 | after only telemetry and noise lines, the stop echo ends the loop cleanly with their samples, and no later line yields a sample |
| Outputters.RegistryKeys | main.go:296-309 | the registry holds exactly the three sinks, each under its own name |
| Outputters.FieldNamesEnumerate | main.go:289-311 | the names reported on the first call are the registry's keys, each exactly once |
| Outputters.Enumerate | main.go:291-293 | a `range` over a map visits every key exactly once |
| Outputters.ActiveNamesMembers | main.go:94-103 | a name is active exactly when a configured entry names it, the registry holds it and its Initialize succeeded; unknown names are ignored |
| Outputters.ActiveNamesAvailable | main.go:95-101 | every active name is a registered one |
| Outputters.Activate | main.go:94-103 | the activation loop keeps exactly the active names, each mapped to its registered sink, and calls Initialize on the registered configured names, in order |
| Outputters.DriveShape | main.go:232-254 | dispatch stops at the first closing of the sample channel or at the first deactivation that empties the active set (from a non-empty set, no earlier prefix of the events empties it), and otherwise consumes every event; the active set loses exactly the deactivated names |
| Outputters.AllGoneExactly | main.go:235-242 | from a non-empty active set, dispatch stops for lack of sinks exactly when the set becomes empty |
| Engine.UnmarkedAppend | main.go:97-101 | Initialize and Output effects never make a cleanup effect repeat |
| Engine.CleanupNoRepeats | main.go:109-120 | one run of the cleanup, on a trace without cleanup effects, cancels once and closes each sink once |
| Engine.DeactivatedNeverClosed | main.go:112-114 | a sink no longer in the active map when the cleanup runs, and not closed before, is not closed by it: a deactivated sink is never closed |
| Engine.CleanupOfNothing | main.go:236-241 | a cleanup that finds no active sink only cancels and, with the port open, sends STP |
| Engine.Chissoku.constructor | main.go:30 | the zero value: nothing registered, nothing active, no cleanup, no port, no effects |
| Engine.Chissoku.RegisterOutputters | main.go:289-311 | the first call builds the registry and reports the names in field order; later calls keep the registry and report its keys, each once |
| Engine.Chissoku.AfterApply | main.go:93-123 | fails exactly when no configured sink is available with a successful Initialize, and then stores nothing; otherwise the active map is exactly those sinks and the cleanup is installed; Initialize is called on each registered configured name in order |
| Engine.Chissoku.OpenPort | main.go:165-170 | the serial port is set; nothing else changes |
| Engine.Chissoku.Cleanup | main.go:109-120 | the body runs at most once; that run cancels, closes every active sink exactly once, and writes "STP\r\n" only if the port is open; later calls change nothing |
| Engine.Chissoku.Handle | main.go:233-252 | one dispatch step per event kind: a closed channel ends the loop; a sample goes to every active sink; a deactivation is as in `Deactivate` |
| Engine.Chissoku.Deactivate | main.go:235-243 | removes exactly that name (a no-op when absent); when none is left it runs the cleanup, which closes nothing, and ends the loop |
| Engine.Chissoku.Deliver | main.go:249-251 | the sample is output to every sink in the active map exactly once |
| Engine.Chissoku.Dispatch | main.go:232-254 | consumes exactly the events `Drive` says, leaves exactly its active names, and has run the cleanup when the last sink was deactivated |
| Engine.Chissoku.ReadDevice | main.go:206-230 | emits what the read loop emits; a scanner error runs the cleanup; otherwise nothing changes |
| Discovery.FirstDevice | main.go:145-151 | the first USB port with VID 04D8 and PID E95A, and only ports that are not the sensor before it; none when there is none |
| Discovery.FindUDCO2S | main.go:138-152 | a failed listing is an error; otherwise the name of the first matching port, or not found |
| Discovery.FirstDeviceIs | main.go:145-149 | a matching port preceded only by non-matching ports is the one chosen |
| Discovery.NoDevice | main.go:145-151 | a listing without a matching port yields none |

## Left out

- Logging, option parsing and the `main` function (main.go:29-40, 77-85) are framework and logging plumbing.
- `Run` (main.go:155-203) is not one member. The reader and the dispatcher run concurrently there, so its steps are modelled separately: port discovery, `OpenPort`, the handshake, `Dispatch` and `ReadDevice`.
- Concurrency is not modelled. The reader and dispatcher goroutines, their channels, `atomic.Value` and the signal goroutine (with its 1-second timer and `os.Exit(128)`) are left out. The reader returns its samples and the dispatcher consumes a given event sequence; interleavings are not captured. A signal calling the cleanup at any time is covered by `Cleanup` being callable in any state after the activation hook has armed it.
- Serial I/O is not modelled: `serial.Open` with its mode and read timeout, `port.Close`, and the port enumeration call. The port listing is an input (`None` when it fails). A write failure is the index of the failing command (`failAt`). The scanner's lines are a sequence, and a scanner error, such as bufio's token-size limit, is a flag.
- The 100 ms sleep after each command and the `time.Now` timestamps of samples are wall-clock behaviour, so samples carry no timestamp.
- Telemetry.Classify: humidity and temperature keep their captured text. The `ParseFloat` conversion is floating point and not modelled.
- The sinks' own `Initialize`, `Output` and `Close` are effects recorded in the trace. The outcome of each `Initialize` call is an input. The sink packages are not part of this model.
- Outputters.SinkName: the names "stdout" and "mqtt" are assumed to follow the lower-cased type name, as the Prometheus sink's `Name` does. output/stdout.go and output/mqtt.go are not part of this model.
- Outputters.RegistryKeys: the reflective walk over struct fields is replaced by the fixed list of the three sink fields in declaration order.
- Engine.Chissoku.AfterApply: a second call would install a fresh once-latch. The model keeps one latch for the object's life, since the hook is called once. The logger and context set-up are left out, apart from the cancel, which is recorded as an effect of the cleanup.
- Engine.Chissoku.Dispatch: its contract fixes the events consumed, the active set and whether the cleanup ran. The effects of each event are stated by `Handle`, `Deactivate` and `Deliver`, not restated for the whole sequence.
