# Verified model of the JZ-F407 relay and LED controller

The JZ-F407VET6 firmware drives two LEDs and a relay over MQTT, keeps the LED states and its network
configuration in one 256-byte AT24C02 EEPROM, and serves a dashboard behind a form login. This project models
the five parts of it whose behaviour only shows over whole runs, and proves what the code and its documentation
promise of them.

| part | modules |
|---|---|
| relay pulse task, MQTT task, and a broker that echoes the device's own publications | `Outputs`, `Dispatch`, `Relay`, `Mqtt`, `RelayLoop`, `RelayPulse` |
| EEPROM writes that may fail or stop at any byte, the LED record behind its RAM cache, the configuration record, runs of boots, LED commands and saves | `EepromChip`, `Persistence`, `Config`, `CutSave`, `Board` |
| login, lockout and the idle-limited session shared by two web tasks | `Token`, `Request`, `Session` |
| decimal and dotted-quad text, form decoding, HTML escaping, base64, the dashboard form as a whole | `Bytes`, `Decimal`, `WebForm`, `Auth`, `ConfigForm` |
| debouncer and live-state push stream | `Debounce`, `Sse` |

Code that updates state in place is modelled by classes and loops (`Eeprom`, `Store`, `SharedOutputs`, `Signal`,
`RelayTask`, `MqttTask`, `Firmware`, `WebAuth`, `Debouncer`, and the decoder, encoder and parser loops). Each method
is proved against a function of the old state; the results over runs are lemmas about those functions. The
executor is single-threaded, so a stretch of code between two awaits is one step. `dafny verify dfyconfig.toml`
checks everything.

## What the proofs found

Where the code does not meet a promise, the promise is proved to hold exactly under a stated condition, and a
concrete run that breaks it is given where one exists.

- **A relay command is not always a 2 s pulse.** The repository's own README.md (line 190) and the comment at
  src/mqtt.rs:305 say any truthy command fires one, src/outputs.rs:34 that a retrigger restarts the window. The
  device subscribes to the topic it reports on, so the echo of the report that ends one pulse is an "off" command for
  the next. The command in the mailbox is sure of its pulse iff no pulse is running and no "off" and no reboot is on
  its way (`RelayPulse.CommandGuaranteedIff`); a running pulse is sure of its deadline iff none of the two is on its
  way (`RelayPulse.PulseGuaranteedIff`). Otherwise the echo can end the new pulse at once (`SecondPulseCut`),
  overwrite the command before the relay task sees it (`SecondCommandSwallowed`), or end the pulse of a retrigger that
  is taken at the deadline (`RetriggerCut`). There is, as claimed, no endless echo (`RelayLoop.EchoFreedom`,
  `RelayLoop.RestIsQuiet`).
- **A torn LED save followed by the opposite command is not repaired.** The comment at src/persistence.rs:68 holds
  for the same command (`Persistence.RetryAfterFailure`), but the cache still holds the old state, so switching back
  to it writes nothing while the chip may hold a mix (`Board.TornThenReverted`; exact condition, over every
  continuation and on every chip, `Board.RecoveryAfterFault`).
- **An unreadable LED record at boot** makes the cache a guess; until the next boot that can read it, fail-last holds
  iff the chip held "off" or some command changed the LEDs (`Board.BlindBootAgreement`). A torn first save on an
  erased chip brings LEDs up that were never switched on (`Persistence.TornOnAnyChip`).
- **"Config NOT saved" (src/web.rs:24)** is answered when a prefix of the new image is already on the chip. Whatever
  was there, the next boot reads the new configuration spliced into it (`CutSave.MixedImage`); the running one comes
  back iff what was written agrees with it and what was not holds it, or the splice is unreadable and the default was
  running (`Board.FailedConfigSave`). On a saved chip that means that nothing was changed, or only the text of an empty
  credential was broken (`Board.FailedLaterSave`). On a new chip the whole new network part comes into force as soon as
  the client id is complete, with the credentials written so far and the others empty (`Board.FailedFirstSave`; one
  such failure, byte by byte, `Board.FailedSaveTakesEffect`).
- **Line breaks do not survive the dashboard.** The form accepts `%0A` (`ConfigForm.ClientIdIsStored`,
  `ConfigForm.BreaksGetIn`), but a single-line input does not show it; saving the untouched page is a no-op iff the
  three rendered texts have none (`ConfigForm.UntouchedFormIsNoOp`).
- **`extract_cookie` slices every line, body lines included, after seven bytes**, and panics when a character straddles
  that position (`Request.SliceableIff`). All-ASCII requests are fine (`Request.AsciiScanSafe`); the exact condition is
  `Session.PanicsIff`, and a request line that meets it before any login is in `Session.OddRequestPanics`.
- **`basic_token` drops a password.** With a stored 32-byte user and no stored password, any submitted 64-byte
  password builds the same token; this is the only such pair (`Auth.LoginComparison`, `Auth.DroppedPasswordLogsIn`).
- **An image of the 49-byte layout** keeps its network fields and comes up without credentials, unless its last two
  bytes are an ASCII character (1 to 0x7F) and a NUL: then that character is the MQTT user (`Config.LegacyUpgrade`).
- **POST /login with a live session** is routed as an authenticated request, whatever credentials it carries, and is
  answered 404 (`Session.LoginWhileAuthenticated`). A session minted as token 0 never authenticates.

## Model

| member | source | states |
|---|---|---|
| Outputs.SharedOutputs.Set | src/outputs.rs:94-106 | The LED's pin is driven low for on and high for off, so that it reads back as commanded; the other LED and the relay keep their level |
| Outputs.SharedOutputs.SetRelay | src/outputs.rs:110-120 | The active-high relay pin takes the level, the LEDs keep theirs; nothing before registration |
| Outputs.SharedOutputs.GetLed | src/outputs.rs:130-141 | True iff pins are registered and the LED is lit |
| Relay.Signal.TryTake | src/outputs.rs:23-31 | The one-slot mailbox yields the latest value once |
| Relay.RelayTask.PulseRelay | src/outputs.rs:25-27 | Replaces whatever command was pending by a pulse, touching nothing else |
| Relay.RelayTask.RelayOff | src/outputs.rs:29-31 | Replaces whatever command was pending by an off, touching nothing else |
| Relay.RelayTask.Resume | src/outputs.rs:37-57 | One poll of the task, from await to pending await, brings pin, phase and both mailboxes to the specified state and leaves the LEDs alone |
| Relay.Poll | src/outputs.rs:40-56 | Every poll of the task comes to a pending await |
| Relay.PollKeepsPin | src/outputs.rs:46-54 | At every await the pin is high iff the task is inside its pulse loop |
| Relay.PulseEnds | src/outputs.rs:46-56 | A pulse ends iff its timer has run out or the task takes an Off; exactly that turn reports false; a timer is only set by a consumed Pulse, 2 s ahead |
| Relay.PollEffect | src/outputs.rs:46-56 | Closed form of a poll: a Pulse starts a full interval in every position, also when it arrives as the timer fires, where the same poll reports the old one |
| Relay.PinHistory | src/outputs.rs:33-57 | After any history of commands and polls in time order the pin is high iff the last command a poll took was a Pulse and its 2 s were not over at the latest poll, and the timer is set to their end |
| Dispatch.DecodeIff | logic/src/led_dispatch.rs:12-37 | Every command is asked for on exactly one topic: outputs with one of four words for on or for off, ping and reboot with any payload |
| Mqtt.MqttTask.HandleEvent | src/mqtt.rs:268-328 | Stored messages do nothing; a word for on or off on the relay topic replaces the relay task's mailbox by a pulse or an off, anything else leaves it, and the report mailbox is never touched; a ping is answered by one pong; a reboot command is reported |
| Mqtt.MqttTask.Beat | src/mqtt.rs:220-227 | A heartbeat goes out iff one is due, the next one is 10 s later, and the loop sleeps at most 1 s and never past it |
| Mqtt.MqttTask.Await | src/mqtt.rs:228-263 | An inbound packet goes before a waiting report, which stays; a report is published once as its payload, or lost with the connection; a failed ping or poll ends the loop |
| RelayLoop.StepKeepsInv | src/mqtt.rs:304-315 | Every step of device, broker and environment keeps: pin follows phase, no report but false is ever pending, every relay publication under way says "0", no timer beyond 2 s |
| RelayLoop.StepWorks | src/mqtt.rs:249-256 | Every step of the closed loop uses up at least one unit of work and the environment adds at most what its message costs |
| RelayLoop.EchoFreedom | src/mqtt.rs:304-309 | In every run, under any schedule, loss, reconnect and timing, the steps of the loop are bounded by the initial work plus that of the messages fed in from outside: no echo regenerates itself |
| RelayLoop.NeverStuck | src/outputs.rs:40-56 | While connected and not quiet a step of the device or the broker that moves or handles something (no loss, no failure) is possible, at the latest when the pulse timer runs out |
| RelayLoop.RestIsQuiet | src/mqtt.rs:304-309 | Every run of such steps and the passing of time takes no more of them than there was work, and ends where none is possible any more iff it ends in quiet |
| RelayLoop.QuietReachable | src/mqtt.rs:304-309 | From every connected state there is a run of such steps, with nothing lost, that ends in quiet: queues and mailboxes empty, task idle |
| RelayLoop.QuietIffNoWork | src/outputs.rs:40-56 | No work left iff queues and mailboxes are empty and the relay task idle, and then the pin is low |
| RelayLoop.ReportsBounded | src/mqtt.rs:249-256 | Reports published plus pulses and reports in the making never exceed those at the start plus the truthy commands other clients sent |
| RelayLoop.FromPowerUp | src/outputs.rs:33-57 | From power-up: at most one relay report per truthy external command, every one of them "0", pin high iff pulsing |
| RelayPulse.SafeRun | src/outputs.rs:33-35 | With no "off" on its way a pulse holds until its deadline through every run without outside cancellation |
| RelayPulse.PulseGuaranteedIff | src/mqtt.rs:305-309 | A running pulse reaches its deadline on every schedule without outside cancellation iff no "off" (the device's own report included) and no reboot is on its way |
| RelayPulse.CommandGuaranteedIff | src/mqtt.rs:305-309 | The pulse command in the mailbox starts a full, uncut pulse at the next poll, on every schedule without outside cancellation, iff no pulse is running and no "off" and no reboot is on its way |
| RelayPulse.QuietCommandPulses | src/outputs.rs:33-35 | A truthy command to an idle device with no "off" or reboot under way is sure of its full 2 s once it is in the mailbox, on whatever schedule it got there |
| RelayPulse.QuietDevicePulses | src/outputs.rs:33-35 | In particular a command to a device at rest |
| RelayPulse.FirstPulse | src/outputs.rs:46-56 | The state with one report still at the broker is reached from power-up by one truthy command |
| RelayPulse.SecondPulseCut | src/mqtt.rs:304-315 | From there, a second truthy command starts a pulse that the echoed report ends in the same instant |
| RelayPulse.SecondCommandSwallowed | src/mqtt.rs:304-315 | From there, the echoed report can also overwrite the second command, so that no pulse starts |
| RelayPulse.RetriggerCut | src/outputs.rs:33-57 | From power-up and with two truthy commands only: a retrigger taken at the deadline starts a pulse that the report of the old one ends in the same instant |
| EepromChip.Eeprom.WriteBytes | src/eeprom.rs:36-47 | The cells receive the bytes up to the first failed transaction (the failing byte stored or not), and Ok is returned iff none failed |
| EepromChip.Eeprom.Read | src/eeprom.rs:31-33 | A successful read returns the addressed cells |
| EepromChip.StopIsFirstFailure | src/eeprom.rs:41-45 | The write stops exactly at the first transaction that is not acknowledged |
| EepromChip.BurnWraps | src/eeprom.rs:42-43 | Byte i of a write goes to cell start + i modulo 256, all other cells keep their bytes |
| EepromChip.BurnInRange | src/eeprom.rs:42-43 | A write that ends inside the chip replaces its own range and nothing else, despite the wrapping address |
| Persistence.Store.LoadState | src/persistence.rs:29-50 | The record decoded if it was read and carries its magic, else both LEDs off; the cache holds the answer |
| Persistence.Store.SaveField | src/persistence.rs:71-96 | Nothing is written if the cache already holds the updated state; the cache changes only after a complete write |
| Persistence.TornSave | src/persistence.rs:79-95 | A save torn after any byte decodes, LED by LED, to the old or the new value once the magic is there; a complete one decodes to the new state on any chip |
| Persistence.TornOnAnyChip | src/persistence.rs:79-95 | On every chip, a save torn after any byte decodes to both LEDs off until the magic is complete, and from then on to the new flags before the cut and the stale ones behind it |
| Persistence.RetryAfterFailure | src/persistence.rs:68-70 | After a failed save the same command is never short-circuited, and once it succeeds the record holds its target |
| Config.DefaultIsValid | logic/src/config.rs:45-60 | The default configuration is one the board can boot and save losslessly |
| Config.CopySlot | logic/src/config.rs:129-133 | Writing a slot in place puts as much of the text as fits, zero-padded, and touches no other byte |
| Config.ToBytes | logic/src/config.rs:71-89 | Filling the zeroed array in place yields magic, addresses, prefix, big-endian port and five padded slots at their offsets |
| Config.ReadStrReads | logic/src/config.rs:62-68 | A slot reads as its text up to the first NUL (or its end), and as empty if that is not UTF-8 |
| Config.ReadStr | logic/src/config.rs:62-68 | Always NUL-free UTF-8 no longer than the slot |
| Config.FromBytesIsValid | logic/src/config.rs:91-126 | Whatever the bytes are, an accepted image is a bootable configuration: prefix 1..=32, non-zero port, NUL-free UTF-8 within capacity |
| Config.ImageRoundTrip | logic/src/config.rs:71-126 | `from_bytes(to_bytes(c))` is `c` for every Valid `c` |
| Config.LosslessIffValid | logic/src/config.rs:71-126 | The round trip is lossless iff the configuration is Valid |
| Config.LoadSaveLoad | logic/src/config.rs:91-126 | Anything `from_bytes` accepts is saved and loaded again unchanged |
| Config.LegacyUpgrade | logic/src/config.rs:14-17 | Any 49-byte image in an erased chip loads iff its magic, prefix, port and client id are acceptable, with every network field kept and no credentials, but for two leftover bytes that may read as a one-character MQTT user |
| CutSave.MixedImage | logic/src/config.rs:71-126 | An image cut after any byte over any 175 cells parses to the new configuration spliced field by field into what those cells held, or to nothing if the mixed magic, prefix, port or client id is not acceptable |
| CutSave.MixIsRunning | logic/src/config.rs:71-126 | The result is a given configuration iff, cell by cell and text by text, what was written agrees with it and what was not holds it (a broken text counting as an empty credential) |
| CutSave.ErasedChip | logic/src/config.rs:71-126 | Over erased cells it loads iff the client id is complete, with the whole network part and exactly the credentials written to their ends |
| CutSave.CutImage | logic/src/config.rs:71-126 | Over the image of a complete save the splice is that of the two configurations |
| CutSave.CutKeepsOld | logic/src/config.rs:71-126 | There it is the old configuration iff the written part equals what was there, or the cut broke the text of an empty credential |
| Board.Firmware.Boot | src/main.rs:144-161 | Power-up restores configuration and LEDs as the specification says, on any chip and any read failure, with the relay off |
| Board.Firmware.LoadConfig | src/config.rs:9-20 | The image at 16..191 parsed, or the defaults on a read error or a bad image |
| Board.Firmware.HandleLed | src/mqtt.rs:290-303 | A command for LED 1, LED 2 or both sets exactly that on the pins and, with the bus in order, in cache and record; the relay pin is untouched |
| Board.Firmware.HandleMessage | src/mqtt.rs:278-303 | The same from topic and payload: a word for on or off on an LED's own topic or the common one, not stored, sets that LED on pins, cache and record, and anything else leaves it |
| Board.Firmware.SaveForm | src/web.rs:925-943 | Answers 400 and writes nothing iff some pair of the body refuses the form; otherwise writes the new image, 500 iff a byte failed; the running configuration is unchanged |
| Board.ConfigSaveIsLocal | src/config.rs:22-27 | A configuration save, cut anywhere, leaves a prefix of the image in 16..191 and changes nothing outside, so the LED record decodes as before |
| Board.LedSaveIsLocal | src/persistence.rs:90-95 | An LED save, cut anywhere, leaves a prefix of its record in 0..8 and changes nothing outside, so the configuration loads as before |
| Board.LoadedIsValid | src/config.rs:7-20 | For every chip content and read failure the loaded configuration is Valid |
| Board.RunKeepsConfigValid | src/config.rs:9-27 | The running configuration is Valid throughout every run of boots, LED commands and saves with faults |
| Board.SavedConfigComesBack | src/web.rs:925-943 | After a successful save, any boots and (faulty) LED commands later, a boot that can read the chip runs exactly the saved configuration |
| Board.FailedConfigSave | src/web.rs:939-943 | On any chip and in any running configuration, after a save that failed at any byte the next boot runs the splice, or the defaults if it is unreadable; it is the running one exactly under the stated condition |
| Board.FailedLaterSave | src/web.rs:939-943 | The same on a chip that holds the image of the running configuration, with the sharper condition |
| Board.FailedFirstSave | src/web.rs:939-943 | The same on a chip that was never written, with the exact result |
| Board.FailedSaveTakesEffect | src/web.rs:939-943 | A new board whose first save is answered as failed and whose next boot runs the new address without the new web password |
| Board.AgreementHolds | src/persistence.rs:68-96 | Once pins, cache and record agree, they agree after every run without LED faults, although unchanged states are not written and configuration saves may fail |
| Board.FailLast | src/persistence.rs:29-96 | From any chip read at boot, such a run shows what was commanded, and a reboot shows exactly the LEDs shown before it |
| Board.FailedLedSave | src/persistence.rs:90-95 | After a failed save, on any chip, the LEDs show the command, the cache the state before, the record what the torn write left |
| Board.CacheLeads | src/persistence.rs:71-96 | Between boots, LEDs and cache each follow the commands from where they stand, and the chip holds what the cache holds from the first command that changes it |
| Board.ChangesIff | src/persistence.rs:75-77 | Some command of a sequence changes the LEDs it finds, in the sense used here, iff one at some position does |
| Board.BootRestores | src/persistence.rs:29-50 | A boot that reads the record restores agreement for the rest of every fault-free run, whatever was before |
| Board.AgreementIff | src/persistence.rs:68-77 | From any state of pins, cache and chip, after any number of failed saves, and for any fault-free continuation: agreement iff there was a boot, or the commands lead the LEDs shown and the cached ones to the same state and either some command changed the latter or the chip holds them |
| Board.RecoveryAfterFault | src/persistence.rs:68-70 | The same after one failed save from agreement, in terms of the command that failed |
| Board.RetryRecovers | src/persistence.rs:68-70 | Repeating the failed command restores agreement |
| Board.TornThenReverted | src/persistence.rs:75-77 | A torn all-on followed by a successful all-off leaves LED 1 on in the record |
| Board.FailLastAfterBlindBoot | src/persistence.rs:36-47 | After a boot that could not read the record, pins and cache follow the commands, and the chip does iff some command changed the LEDs |
| Board.BlindBootAgreement | src/persistence.rs:36-77 | After such a boot and any fault-free continuation, agreement iff there was a boot that read the record, or the chip held "off", or some command changed the LEDs |
| ConfigForm.ParseForm | src/web.rs:960-1008 | Rejects iff some pair refuses the form; otherwise each field has the value of its last pair, or its current one; empty passwords keep the stored ones |
| ConfigForm.RefusedIff | src/web.rs:966-1005 | A form is refused iff it has a pair whose trimmed value does not spell a NUL-free UTF-8 text of at most 64 bytes, or whose trimmed key is one of the ten names and the text no address, no prefix from 1 to 32, no port from 1 to 65535, no id of at most 24 bytes or no credential of at most 32, as the key demands |
| ConfigForm.ChangeIff | src/web.rs:963-1004 | A pair sets a field to a value iff its key is the field's name and its text denotes that value |
| ConfigForm.FieldNames | src/web.rs:968-1004 | The ten keys and the fields they name |
| ConfigForm.SetField | src/web.rs:968-1005 | A decoded pair changes its own field only, and is refused iff the field cannot take the value |
| ConfigForm.LastIsLast | src/web.rs:962-1006 | The value that counts is one some pair gives and no later pair for the field replaces |
| ConfigForm.FormKeepsValid | src/web.rs:960-1008 | Every accepted submission turns a Valid configuration into a Valid one |
| ConfigForm.PairReadsBack | src/web.rs:963-966 | A pair the browser encodes is read back as the field and the text it was made from |
| ConfigForm.PageDenotes | src/web.rs:352-409 | What the browser submits for the page rendered for a Valid configuration denotes that configuration without the line breaks of its three rendered texts |
| ConfigForm.SubmissionSets | src/web.rs:960-1008 | Submitting texts that denote a configuration sets exactly it, whatever was there before, but for empty passwords |
| ConfigForm.PageSubmissionSets | src/web.rs:352-409 | Rendered for `c`, submitted with two typed passwords, the form sets `c` without line breaks and with these passwords, over any current configuration |
| ConfigForm.UntouchedFormIsNoOp | src/web.rs:352-409 | Saving an untouched dashboard returns exactly the current configuration iff client id, MQTT user and web user have no line break, and otherwise drops the breaks |
| ConfigForm.ClientIdIsStored | src/web.rs:989-991 | A submission of nothing but a client id of at most 24 bytes, line breaks included, is accepted and stores it |
| ConfigForm.BreaksGetIn | src/web.rs:989-991 | `id=a%0Ab` is such a submission with a line break |
| ConfigForm.RequestFor | src/web.rs:960-1008 | Every Valid configuration without line breaks can be set by some form, unless a stored password would have to be emptied |
| Bytes.JoinSplit | src/web.rs:962 | The pieces of a split hold no separator and joined give back the text |
| Bytes.SplitJoin | src/web.rs:962 | Splitting undoes joining separator-free pieces |
| Bytes.TrimIs | src/web.rs:964-965 | Trimming takes white space off both ends, nothing else, until neither end has any |
| Bytes.WhiteIff | src/web.rs:964-965 | White space is what Unicode calls so, character by character |
| Bytes.EncodingIsChar | logic/src/web_form.rs:44-45 | The encoding of every character number is accepted as one character |
| Bytes.CharIsEncoding | logic/src/web_form.rs:44-45 | Every accepted character is the encoding of a character number: no overlong forms, no surrogates, nothing above 10FFFF |
| Decimal.FmtIpv4 | src/web.rs:420-430 | The 16-byte buffer always receives the whole dotted quad |
| Decimal.FmtU8 | src/web.rs:432-436 | The 4-byte buffer always receives the whole number |
| Decimal.FmtU16 | src/web.rs:438-442 | The 6-byte buffer always receives the whole number |
| Decimal.Print | src/web.rs:444-452 | Decimal digits without leading zeros that denote the number |
| Decimal.ParseIpv4 | logic/src/config.rs:135-145 | Filling four octets from the split accepts iff there are exactly four parts and each parses as u8 |
| Decimal.ParseUIntIff | logic/src/config.rs:139-148 | A text parses to n iff it is at least one digit with that value, perhaps after one plus sign, and n is in range |
| Decimal.QuadIff | logic/src/config.rs:135-145 | A text parses to an address iff it is four such numbers up to 255 joined by dots |
| Decimal.PortIff | logic/src/config.rs:147-153 | A text parses to a port iff, trimmed, it is such a number from 1 to 65535 |
| Decimal.ParsePrint | src/web.rs:444-452 | Parsing a printed number gives it back iff it is in the type's range |
| Decimal.QuadDotted | logic/src/config.rs:135-145 | `parse_ipv4(fmt_ipv4(a))` is `a` for every address |
| Decimal.PortPrint | logic/src/config.rs:147-153 | `parse_port(fmt_u16(p))` is `p` for every non-zero port and an error for 0 |
| Decimal.CanonicalQuad | logic/src/config.rs:135-145 | Every accepted text reprints to one canonical text of the same address |
| WebForm.FormUrlDecode | logic/src/web_form.rs:12-47 | The push loop with its early exits answers as the specification: Capacity as soon as a byte too many is due, else InvalidEncoding, else the text |
| WebForm.DecodeAccepts | logic/src/web_form.rs:12-47 | `Ok(t)` iff the input spells `t` with well-formed escapes and `t` is NUL-free UTF-8 of at most N bytes |
| WebForm.DecodeOverflows | logic/src/web_form.rs:18-37 | `Capacity` iff the input up to its first malformed escape spells more than N bytes |
| WebForm.ScanStops | logic/src/web_form.rs:23-33 | That point is the end of the input iff every escape is well formed, and else a malformed escape |
| WebForm.ScanIsSpelling | logic/src/web_form.rs:17-39 | Scanning accepts exactly the spellings, and a text spells at most one byte string |
| WebForm.HexDigitIff | logic/src/web_form.rs:81-88 | A byte is a hex digit of value n iff it is the n-th of 0-9a-f or of 0-9A-F |
| WebForm.DecodeEncode | logic/src/web_form.rs:12-47 | Decoding inverts the browser's form encoder on every NUL-free UTF-8 text, Capacity iff it is longer than N |
| WebForm.HtmlEscapeAttr | logic/src/web_form.rs:49-62 | The escaped text iff it fits N, otherwise an error and no partial text |
| WebForm.UnescapeEscape | logic/src/web_form.rs:49-62 | The browser's unescaping gives back every text |
| WebForm.EscapeIsSafe | logic/src/web_form.rs:49-62 | No quote or angle bracket is left, every `&` opens one of the five references, and the text grows at most sixfold |
| WebForm.StoredFieldFits | src/web.rs:222-226 | Any text of at most 32 bytes fits the 256-byte buffer, so no stored field is dropped from the page |
| Auth.BasicToken | logic/src/auth.rs:8-34 | The chunk loop with its ignored overflow errors yields the first 96 characters of the base64 of the bytes that fit the raw buffer |
| Auth.EncodeLength | logic/src/auth.rs:15-32 | Base64 of n bytes has 4*ceil(n/3) characters |
| Auth.DecodeEncode | logic/src/auth.rs:14-33 | An RFC 4648 decoder gives back every byte string |
| Auth.TokenDecodes | logic/src/auth.rs:8-34 | For a joined length of at most 72 no push is dropped and the token decodes to `user:pass` |
| Auth.TokensCompareRaw | src/web.rs:788-797 | Tokens of a submitted and a stored pair are equal iff the bytes that reached the encoder are |
| Auth.LoginComparison | src/web.rs:788-797 | With colon-free user names the comparison succeeds iff both fields are the stored ones or the submitted password was dropped |
| Auth.DroppedPasswordLogsIn | logic/src/auth.rs:9-12 | Two different passwords for one user with equal tokens |
| Token.MintIsBijection | src/web.rs:469-472 | Minting is a bijection on 64-bit words; exactly one seed yields any token, the reserved 0 included |
| Token.MintsCollide | src/web.rs:799-801 | One task's logins at different seconds mint different tokens; two tasks' tokens collide iff their seeds make up for the time difference |
| Token.SplitRejoin | src/web.rs:477-479 | Splitting into two 32-bit halves and rejoining is the identity |
| Request.RequestParts | src/web.rs:689-702 | Method, path and query are what a request line of a method, a blank and a target says, with or without a query and whatever follows |
| Request.RefreshesIff | src/web.rs:710-712 | A request counts as activity iff its path is neither `/state` nor `/events` or `active=1` occurs somewhere in its query |
| Request.PostIff | src/web.rs:742-873 | The login and logout routes are POST /login and POST /logout and nothing else |
| Request.BodyIff | src/web.rs:704-708 | The body is what follows the first blank line, and there is none without one |
| Request.CookieLineIff | src/web.rs:520-522 | A cookie header starts with the seven characters in any mixture of cases |
| Request.CookieValueIff | src/web.rs:525-529 | An item is a cookie of the name iff, trimmed, it is the name, white space, an equals sign and the value with white space around it |
| Request.ExtractCookie | src/web.rs:517-534 | Panics iff a line looked at cannot be sliced after seven bytes; otherwise finds the first cookie of that name over all cookie headers |
| Request.CookieRoundTrip | src/web.rs:485-496 | The printed token is extracted from any request whose earlier header lines are not cookie headers, with any other cookies around it in its line, and parses back to the same token |
| Request.SliceableIff | src/web.rs:519-522 | The slice after seven bytes is valid iff no character straddles that position |
| Request.AsciiScanSafe | src/web.rs:519-522 | In an ASCII request every slice is valid |
| Request.HeaderCarriesToken | src/web.rs:517-534 | A cookie header with items of other names before it and any items after it yields exactly the printed token |
| Request.ParseLoginForm | src/web.rs:1010-1024 | The last user and the last pass pair decide, even when they do not decode |
| Request.LoginFieldsIff | src/web.rs:1010-1024 | A field is a text iff some pair gives it and no later pair has its key |
| Request.LoginCredentialsMatch | src/web.rs:788-797 | True iff there is a body with both fields whose token is the expected one |
| Request.WhoMatches | src/web.rs:788-797 | A request carries the credentials iff its body has both fields and their joined bytes are the stored ones; with colon-free user names, iff user and password are the stored ones or the password is the one the token drops |
| Request.BrowserLogin | src/web.rs:1010-1024 | A browser's login form is read as the two texts typed into it |
| Request.StoredPairMatches | src/web.rs:788-797 | The stored user and password, typed into the form, always match |
| Session.WebAuth.ValidateSession | src/web.rs:476-515 | Authenticated iff the cookie is the live token within its idle time; refreshes only on activity, clears the token when it is too old; panics iff there is a session and the request cannot be searched |
| Session.WebAuth.Challenge | src/web.rs:747-754 | A refused request is challenged; outside the event stream it panics iff it cannot be searched for a stale cookie |
| Session.WebAuth.HandleLogin | src/web.rs:756-782 | Locked, accepted or rejected, with counter, stamp and token as specified |
| Session.WebAuth.CompleteLogin | src/web.rs:799-815 | A new token in both halves, stamped now, counter cleared |
| Session.WebAuth.RejectLogin | src/web.rs:817-830 | Counter up by one and stamped now, session untouched |
| Session.WebAuth.LogOut | src/web.rs:906-912 | No session is left, the lockout counter is untouched |
| Session.WebAuth.ServeRequest | src/web.rs:715-754 | A whole request, from authentication through login, logout, challenge or panic, steps the shared state as specified |
| Session.PanicsIff | src/web.rs:519-522 | A request brings the firmware down iff a login is configured, a line of it cannot be sliced, and either a session exists or it is neither a login form nor for the event stream |
| Session.PanicsFromText | src/web.rs:519-522 | The same from the request line |
| Session.OddRequestPanics | src/web.rs:832-839 | A request line with a two-byte character across its seventh byte does, before any login |
| Session.After | src/web.rs:756-830 | In every interleaving of requests the failure counter never exceeds 5 |
| Session.LockoutBound | src/web.rs:756-786 | Any half-open 60-second interval without a successful login holds at most 5 rejected credential checks |
| Session.FiveRejectionsLock | src/web.rs:784-786 | After five rejections within a minute every attempt is turned away until 60 s after the last of them |
| Session.LockedAttemptChangesNoCounter | src/web.rs:766-770 | A locked attempt neither counts nor extends the lock |
| Session.LoginDecision | src/web.rs:756-782 | An attempt that reaches the login form is accepted iff correct and not locked, rejected iff wrong and not locked, and 60 s after the last rejection it is never locked |
| Session.CounterTellsRejections | src/web.rs:772-774 | The counter is the number of rejections since the latest login, counted from one again after every fifth |
| Session.LockedIff | src/web.rs:784-786 | An attempt is turned away as locked iff the rejections since the latest login (or power-up) are a positive multiple of five and the last one lies less than 60 s back; otherwise correct credentials get in and wrong ones are rejected |
| Session.FewRejectionsDoNotLock | src/web.rs:756-782 | With fewer than five rejections since the latest login correct credentials always get in, and the count starts again |
| Session.CorrectFormLogsIn | src/web.rs:756-815 | The stored pair typed into a browser's form logs in, unless five rejections came before |
| Session.LoginThenServed | src/web.rs:476-515 | A browser that sends its cookie back, among other cookies and header lines, is served during the 900 s after its login |
| Session.ActivityIff | src/web.rs:474-515 | A served request line for `/state` or `/events` without `active=1` in its query leaves the session as it was; any other restarts the idle time and changes nothing else |
| Session.RouteIff | src/web.rs:742-873 | A served request ends the session iff it is POST /logout; a request that is not served gets a credential check or lock iff it is POST /login |
| Session.OpenBoard | src/web.rs:725-727 | Without a configured login every request is answered and no session ever exists |
| Session.LoginWhileAuthenticated | src/web.rs:861-878 | A login form sent with a live session is served as an unknown route and leaves the token as it is |
| Session.StateTellsStory | src/web.rs:454-515 | The atomics always tell who logged in last, whether they logged out, and when they were last active, except that a session seen idle too long is gone |
| Session.AuthenticatedIff | src/web.rs:476-515 | A request is served iff it can be searched, its cookie is the token of the latest login, no logout came since, and a login or refreshing request lies at most 900 s back |
| Session.BackgroundPollDoesNotExtend | src/web.rs:710-729 | A served request that does not count as activity (see RefreshesIff) leaves the session exactly as it was |
| Session.AbandonedPageExpires | src/web.rs:474-515 | However often an abandoned page polls, it is refused once 900 s have passed since its last activity |
| Session.NewLoginSupersedes | src/web.rs:799-804 | After a new login an older cookie is refused unless the seeds make the tokens equal |
| Debounce.Debouncer.Update | logic/src/debouncer.rs:25-40 | An edge is reported iff the value of the latest uniform window changes, in its direction |
| Debounce.Debouncer.State | logic/src/debouncer.rs:42-44 | The value of the latest uniform window of the stream prefixed by the initial value |
| Debounce.StableIff | logic/src/debouncer.rs:25-44 | The value is that of the latest window of STABLE_COUNT equal samples in the stream prefixed by the initial value |
| Debounce.MaskIsSuffix | logic/src/debouncer.rs:26-29 | Masking the shift register keeps exactly the latest k samples |
| Debounce.EdgeWindow | logic/src/debouncer.rs:27-38 | At an edge the whole window holds the new value |
| Debounce.EdgesApart | logic/src/debouncer.rs:25-40 | Two edges are at least STABLE_COUNT samples apart |
| Debounce.FirstEdgeNeedsSamples | logic/src/debouncer.rs:18-23 | The value leaves the initial one only after STABLE_COUNT samples |
| Debounce.EdgesBounded | logic/src/debouncer.rs:25-40 | n samples produce at most n/STABLE_COUNT edges |
| Debounce.EdgesAlternate | logic/src/debouncer.rs:31-38 | The value is the initial one flipped once per edge, so directions alternate |
| Sse.Sample | src/sse.rs:36-44 | The snapshot shows the live pins: the relay as on exactly while a pulse runs, each LED as it is lit |
| Sse.ServeEvents | src/sse.rs:60-101 | The client has received exactly the specified stream up to the first failed write, and the loop goes on iff none failed |
| Sse.EventsAreCompression | src/sse.rs:83-92 | The events are exactly the stutter-free compression of the samples |
| Sse.CompressionShowsLatest | src/sse.rs:83-92 | The last event is the latest sample and no event repeats the one before it |
| Sse.SilenceIsBounded | src/sse.rs:79-98 | After any poll less than 15 s have passed since the last write, and writes are less than 15 s plus one poll delay apart |
| Sse.OnlyNeeded | src/sse.rs:83-98 | Apart from the head and the first sample everything written is data for a changed sample or a keep-alive for an unchanged one at least 15 s after the write before it |
| Sse.EqualPollsAreSilent | src/sse.rs:92-98 | Equal samples within 15 s of the last write add nothing to the stream |
| Sse.KeepAlivesBounded | src/sse.rs:92-98 | A stream has at most one keep-alive for every 15 s of its duration |

## Left out

Parts of the repository:

- Clocks, GPIO setup, I2C recovery, Ethernet, executor start-up, watchdog, heartbeat LED, fault marker, buttons: hardware access or single-branch code. Of `main`, only the restore of the records and LEDs is modelled.
- Sockets, response text, HTML, CSS and JavaScript, response delays, request buffering. What reaches the model is the request text; what leaves it is the outcome. A save request without a body (400) is not distinguished from a bad form.
- The MQTT client, its packets, connection set-up, will and status messages: reduced to receive, publish, lose, disconnect and reconnect.
- The uptime field of the state events, which no comparison uses, and the time a stream write takes.
- The seeds of the token minting are arbitrary parameters; how hard they are to guess is not a matter of this model.

Modelling decisions:

- Locks: no guard is held across an await in the modelled output code, so `try_lock` on the outputs always succeeds here. The EEPROM is always registered.
- A power cut during an EEPROM write is a write that fails at that byte followed by a boot. A cell is either the old or the new byte; a cell left with a garbled value is not modelled.
- Text is held as its UTF-8 bytes. HTML escaping works on bytes instead of characters, which is the same because every special character is ASCII. The browser is HTML unescaping, removal of line breaks and form encoding.
- A panic ends a session run: the reset that follows it, like any reboot, starts a new run from power-up, so what the model leaves in the atomics after it does not matter. The clock stays below 2^32 s.
- The broker keeps order, may lose any packet (QoS 0), and drops what is under way when a connection ends. Another client's message may carry any payload and retain flag.
- LED commands appear in `Board`, relay commands in `RelayLoop`; both start from the same `handle_event`. A session run starts at power-up; a reboot ends it.
- EepromChip.Eeprom.Read: the whole buffer or nothing, because no caller looks at a buffer after a failed read.
- Session.WebAuth.ServeRequest: only the routes that touch the session are told apart.
- RelayLoop.QuietReachable: that the scheduler goes on taking possible steps is assumed, not modelled.
