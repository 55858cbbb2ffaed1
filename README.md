# Verified model of the d1_mini_bme_280 firmware core

The firmware runs on an ESP8266 (Wemos D1 mini) with a BME280 sensor. It
wakes, takes a measurement, uploads it to InfluxDB and goes back to deep
sleep. This project models, in Dafny, the four parts of `src/main.cpp` that
carry its invariants, and proves properties of them:

- **Persistent store** (`eeprom_store.dfy`, `config_record.dfy`,
  `config.dfy`). `safeSaveToEEPROM` writes the raw bytes of the
  configuration struct at EEPROM offset 33, followed by the 16-byte sentinel
  `"bme_280_1.0    "`. `safeRestoreFromEEPROM` copies the struct back only
  when `strncmp` finds the sentinel in place. The EEPROM is an
  `array<byte>`. The struct is the `Config` class, whose eight `char[]`
  members are arrays. Its byte image is the 492-byte encoding of the value
  `Record` that the class's `View()` returns.
- **Configuration** (`config_record.dfy`, `config.dfy`). This covers the
  constructor (all zero, update period 300) and `minimallyConfigured`.
- **Field editor** (`field_editor.dfy`, `config.dfy`, `cstring.dfy`). This
  covers `MEMBER_MATCH`, `MEMBER_STRING_SET`, the eleven-member table and
  the `edit` loop.
  - The loop is the method `Config.Edit`, over the raw lines the user
    types; each is trimmed as `getLineFromUser` does.
  - It is proved equal to the session function `FieldEditor.Run`, and the
    properties are lemmas about `Run`.
  - `strncpy` is the in-place loop `CString.StrNCpyInto`, proved against the
    function `CString.StrNCpy`.
- **Measurement and sleep** (`measurement.dfy`, `sleep_scheduler.dfy`).
  - The plausibility retry loop of `fetchMeasurement` runs over the
    sequence of readings the sensor would deliver.
  - The `sleepAfterReset` arithmetic is modelled as 32-bit unsigned values.

Machine types are in `ctypes.dfy`: `byte`, 32-bit `u32`, 32-bit `long`
bounds and the little-endian layout of 4-byte members. `wrappers.dfy` holds
`Option`.

The prompt at `src/main.cpp:273` offers `!` to quit. The test at
`src/main.cpp:277` accepts any trimmed line whose first byte is `!` (so `!x`
also exits) while the configuration is minimally configured.
`FieldEditor.IsExitCommand` states that test.

The editor's `String` operations are modelled on bytes. The first-byte and
emptiness tests at `src/main.cpp:277-284` look at the whole line. `indexOf`
and `substring` at `src/main.cpp:287-298` work on the line's C string, so an
embedded NUL hides everything after it: `ssid<NUL>=x` holds no `=` and
changes nothing (`FieldEditor.StepStopsAtNul`).

## Model

| member | source | states |
|---|---|---|
| EepromStore.Put | src/main.cpp:145-146 | The bytes are copied to the given offset; every other cell keeps its value. |
| EepromStore.SafeSave | src/main.cpp:139-149 | The storage afterwards is `Stored`: the old contents with the record at `posn` and the sentinel right after it. |
| EepromStore.SafeRestore | src/main.cpp:119-136 | Reports success exactly when `strncmp` of the bytes after the record with the sentinel returns 0, and then returns the record's bytes. |
| EepromStore.SaveThenRestore | src/main.cpp:119-149 | After a save, restore finds the sentinel and reads back exactly the bytes saved. |
| EepromStore.SentinelIntegrity | src/main.cpp:125-131 | For a sentinel whose only NUL is its last byte, restore succeeds iff all 16 stored marker bytes equal the sentinel, so one wrong byte makes it fail. |
| EepromStore.SaveFootprint | src/main.cpp:144-147 | A save changes only the record's cells and the sentinel's cells, with the contents given. |
| EepromStore.CompleteSave | src/main.cpp:139-149 | A save that writes all its bytes leaves exactly the storage `Stored` describes. |
| EepromStore.InterruptedSave | src/main.cpp:139-149 | While the record of a cut-short save is still being written, restore finds the marker iff it did before. So with no marker before, a restore that succeeds afterwards reads the whole new record. |
| EepromStore.SaveIdempotent | src/main.cpp:142-147 | Saving the same record twice leaves the same storage as saving it once. |
| CTypes.Sub32 | src/main.cpp:522 | Unsigned 32-bit subtraction: the exact difference when it is not negative, and otherwise the difference plus 2^32. |
| CTypes.FromLE32OfLE32 | src/main.cpp:187-190 | Reading back the four little-endian bytes of a 32-bit member gives the member. |
| CTypes.LE32OfFromLE32 | src/main.cpp:187-190 | Every four stored bytes are the image of the 32-bit value they hold. |
| CString.StrLen | src/main.cpp:243-246 | `strlen` is the position of the buffer's first NUL, with no NUL before it. |
| CString.StrNCmpEq | src/main.cpp:127 | `strncmp(a, b, n) == 0`: the two buffers agree byte by byte up to `n` bytes or up to a NUL both hold there. Its meaning on C strings is `StrNCmpEqTerminated`. |
| CString.StrNCmpEqTerminated | src/main.cpp:162-165 | On NUL-terminated strings, `strncmp` over `n` bytes returns 0 iff both strings have the same first `n` bytes. |
| CString.StrNCmpEqWithTerminatedConstant | src/main.cpp:127 | Comparing with a constant whose only NUL is its last byte, over its full length, is byte-for-byte equality. |
| CString.StrNCpy | src/main.cpp:170 | `strncpy` over `n` bytes keeps the buffer's length and leaves every byte from `n` on unwritten. |
| CString.StrNCpyContents | src/main.cpp:168-171 | Copying at most capacity less one bytes into a buffer with NUL in its last byte gives it the value's C string, truncated to that many bytes. It pads with NUL and keeps the last byte NUL. |
| CString.StrNCpyInto | src/main.cpp:170 | The copy-then-pad loop leaves the array holding exactly `StrNCpy` of its old contents. |
| CString.CopyUntilNul | src/main.cpp:170 | The copy loop stops at the source's NUL or after `n` bytes. It writes the source's bytes before that point and leaves the rest unchanged. |
| CString.FillNul | src/main.cpp:170 | The padding loop writes NUL over the given range and nowhere else. |
| ConfigRecord.Default | src/main.cpp:200-204 | The constructor's value is NUL-terminated everywhere, has every string empty, period 300, Celsius and offset 0. |
| ConfigRecord.Encode | src/main.cpp:145 | The 492-byte image of the struct that `EEPROM.put` writes; its layout is `EncodeLayout`, its inverse `Decode`. |
| ConfigRecord.Decode | src/main.cpp:133 | The struct `EEPROM.get` fills from a 492-byte image; it is well sized, and `DecodeEncode` / `EncodeDecode` make it the inverse of `Encode`. |
| ConfigRecord.EncodeLayout | src/main.cpp:176-197 | Each member sits at its offset in the 492-byte image: the bool at 131, the period at 132, the offset at 136 and url at 140. |
| ConfigRecord.DecodeEncode | src/main.cpp:133 | Reading back a struct from its stored image gives the same configuration. |
| ConfigRecord.EncodeDecode | src/main.cpp:145 | Every image whose bool byte is 0 or 1 is the image of the struct read from it. |
| ConfigRecord.MinimallyConfigured | src/main.cpp:240-247 | `minimallyConfigured()`, stated on `strlen`s; `MinimallyConfiguredIff` restates it in terms of which members are set. |
| ConfigRecord.MinimallyConfiguredIff | src/main.cpp:240-247 | Holds iff ssid, psk, hostname and url are set and the period is positive. Token and bucket must be both set or both empty; org and location play no part. |
| ConfigRecord.DefaultNotMinimallyConfigured | src/main.cpp:200-204 | A freshly constructed configuration is not minimally configured. |
| ConfigRecord.HalfInfluxV2NotConfigured | src/main.cpp:243-244 | A token without a bucket, or a bucket without a token, is never minimally configured. |
| FieldEditor.MemberMatch | src/main.cpp:162-165 | `MEMBER_MATCH`: `strncmp` of the identifier with the name over the longer of the name's length and the minimum returns 0; `MemberMatchIff` gives its meaning. |
| FieldEditor.MemberMatchIff | src/main.cpp:162-165 | The test holds iff the name is a prefix of the identifier and either at least the minimum length or the whole identifier. A longer name never matches. |
| FieldEditor.MinMatchLen | src/main.cpp:299-312 | Every minimum length in the table is at least 1 and within its identifier. |
| FieldEditor.MatchesIff | src/main.cpp:299-312 | Against the table, a name matches a member iff it is a prefix of the member's identifier at least the member's minimum long. |
| FieldEditor.FirstMatchIndex | src/main.cpp:299-316 | The position of the first member in table order that matches: none before it matches, and the one there does. |
| FieldEditor.Resolve | src/main.cpp:299-316 | The member chosen matches the name, and there is none exactly when no member matches. |
| FieldEditor.AtMostOneMatch | src/main.cpp:299-312 | No name matches two members of the table, so the table order never decides the outcome. |
| FieldEditor.ResolveIff | src/main.cpp:299-316 | A name resolves to a member iff it matches that member. |
| FieldEditor.ResolvesTo | src/main.cpp:299-316 | A prefix of a member's identifier, at least the minimum long, selects that member. |
| FieldEditor.ResolvedExamples | src/main.cpp:299-316 | `ss`, `ur`, `up`, `to` and `te` select ssid, url, update_period_s, token and temp_offset_C; `h`, `ho` and `hostname` select hostname. |
| FieldEditor.UnresolvedExamples | src/main.cpp:299-317 | `s`, `u`, `t`, `x` and `ssidx` select nothing. |
| FieldEditor.LeadingSpaces | src/main.cpp:86 | Counts the white space a string starts with: all bytes before the count are space, and the byte at the count is not. |
| FieldEditor.TrailingSpaces | src/main.cpp:86 | Counts the white space a string ends with: all bytes after the cut are space, and the byte before it is not. |
| FieldEditor.Trim | src/main.cpp:86 | `String::trim`: the result is no longer than the line; `TrimIsInfix` and `TrimStripsSpace` say what it removes. |
| FieldEditor.TrimIsInfix | src/main.cpp:86 | The trimmed line is the line with a white-space prefix and a white-space suffix removed. |
| FieldEditor.TrimStripsSpace | src/main.cpp:86 | A trimmed line neither starts nor ends with white space, and it is empty iff the raw line is all white space. |
| FieldEditor.IndexOf | src/main.cpp:287-288 | The first position of `=` in the line, with no `=` before it, or -1 iff the line holds none. |
| FieldEditor.DigitCount | src/main.cpp:311 | The number of leading decimal digits: all bytes before it are digits, and the byte at it is not. |
| FieldEditor.ToInt | src/main.cpp:311 | The parse of an optional sign and decimal digits; the result is always within the range of a 32-bit `long`. |
| FieldEditor.SetText | src/main.cpp:168-171 | A text assignment keeps every member's size and termination and changes no other member. |
| FieldEditor.SetField | src/main.cpp:299-315 | Any assignment keeps sizes and NUL termination; the period either stays as it was or becomes positive. |
| FieldEditor.SetFieldLeavesOthers | src/main.cpp:299-315 | An assignment to one member leaves every other member unchanged. |
| FieldEditor.SetTextField | src/main.cpp:168-171 | A text member ends up holding the value's first `min(length, capacity - 1)` bytes, NUL up to the end. |
| FieldEditor.SetPeriodField | src/main.cpp:310-311 | The period becomes the parsed integer when that is positive; otherwise the configuration is unchanged. |
| FieldEditor.Truthy | src/main.cpp:314-315 | The upper-cased first byte is `Y` or `T`, or `toInt` is non-zero; `SetFahrenheitField` states its effect on the flag. |
| FieldEditor.SetFahrenheitField | src/main.cpp:312-315 | The flag becomes true iff the value starts with Y, y, T or t, or parses to a non-zero integer. |
| FieldEditor.AssignFirst | src/main.cpp:299-316 | Trying the members in order keeps sizes, NUL termination and a positive period. |
| FieldEditor.AssignFirstAtFirstMatch | src/main.cpp:299-316 | The chain of tests assigns the member at the first matching position, or nothing when none matches. |
| FieldEditor.Assign | src/main.cpp:299-317 | What `edit` does with a name and a value keeps sizes, NUL termination and a positive period. |
| FieldEditor.AssignResolves | src/main.cpp:299-317 | An unknown name changes nothing (and by `AtMostOneMatch` no name is ambiguous); otherwise exactly the member the name resolves to is assigned. |
| FieldEditor.Step | src/main.cpp:276-317 | One line keeps sizes and termination and never makes a positive period non-positive. It exits only on `!` while minimally configured. |
| FieldEditor.IsExitCommand | src/main.cpp:277 | The line's first byte is `!`; an empty line is never an exit request. |
| FieldEditor.IsIgnored | src/main.cpp:283 | The line is empty or its first byte is `#`. |
| FieldEditor.StepExit | src/main.cpp:277-282 | An exit request is honoured iff the configuration is minimally configured. |
| FieldEditor.StepSkips | src/main.cpp:283-296 | Empty lines, `#` comments and lines whose C string has no `=` (a refused `!` among them) leave the configuration unchanged. |
| FieldEditor.StepSplitsAtFirstEquals | src/main.cpp:287-298 | Any other line's C string is split at its first `=`: the name holds no `=`, the value may hold one, and the name is assigned the value. |
| FieldEditor.StepStopsAtNul | src/main.cpp:287-296 | `ssid<NUL>=x` has no `=` before its NUL, so it changes nothing. |
| FieldEditor.Run | src/main.cpp:264-320 | A session keeps sizes and reads lines from the given one on. It stops only after an accepted exit, and otherwise reads every line. |
| FieldEditor.RunExitsOnlyWhenConfigured | src/main.cpp:277-282 | A session ends only on a `!` line entered while the configuration is minimally configured; that line is the last one read. |
| FieldEditor.RunStopsAtAcceptedExit | src/main.cpp:277-282 | An accepted `!` ends the session at once, with the configuration as it was. |
| FieldEditor.RunContinues | src/main.cpp:283-317 | Any other line moves on to the next line from the configuration that line leaves. |
| FieldEditor.RunPreservesTermination | src/main.cpp:264-320 | Every member stays NUL-terminated within its capacity through a whole session. |
| FieldEditor.RunKeepsPeriodPositive | src/main.cpp:310-311 | A session never makes a positive update period zero. |
| ConfigObject.Config.constructor | src/main.cpp:200-204 | A new object holds eight distinct, correctly sized buffers and the default value. |
| ConfigObject.Config.Assign | src/main.cpp:299-316 | Assigning a resolved member changes the object exactly as `SetField` says. |
| ConfigObject.Config.AssignText | src/main.cpp:168-171 | `strncpy` into the member's own buffer changes that member as `StrNCpy` says and nothing else. |
| ConfigObject.Config.Apply | src/main.cpp:283-317 | One non-exit line changes the object exactly as `Step` says. |
| ConfigObject.Config.Edit | src/main.cpp:264-320 | The editing loop ends in the state `Run` gives for the trimmed lines read. On an accepted exit, EEPROM holds the saved record and sentinel; otherwise EEPROM is untouched. |
| ConfigObject.Config.RestoreFrom | src/main.cpp:119-136 | Succeeds iff the sentinel is in place. The object then holds the decoded stored record; otherwise it is unchanged. |
| ConfigObject.Config.Load | src/main.cpp:133 | Copying a struct image into the object makes it hold exactly that record. |
| ConfigObject.Overwrite | src/main.cpp:133 | One member's bytes copied from the image replace the member's buffer. |
| ConfigObject.NewZeroed | src/main.cpp:202 | A fresh buffer of zero bytes. |
| ConfigObject.GetLineFromUser | src/main.cpp:80-88 | The line returned is the raw line trimmed. |
| ConfigObject.RestoreNeedsExactMarker | src/main.cpp:119-131 | With the firmware's marker at offset 33 + 492, restore succeeds iff the 16 bytes there are exactly the marker's. |
| ConfigObject.SavedConfigRestores | src/main.cpp:119-149 | A configuration saved by `edit` is found by the next restore and comes back unchanged. |
| MeasurementAcquirer.Convert | src/main.cpp:451-455 | The reading in the configured units: Fahrenheit as `32 + (t / 5) * 9` when set, pressure in hectopascal; `FahrenheitGate` states what this does to the gate. |
| MeasurementAcquirer.Plausible | src/main.cpp:457 | The temperature is strictly between -100 and 150; `GateBounds` shows the bounds are exclusive. |
| MeasurementAcquirer.FirstAccepted | src/main.cpp:449-471 | The first reading whose converted temperature passes the gate; every reading before it fails. |
| MeasurementAcquirer.FetchMeasurement | src/main.cpp:444-472 | The retry loop takes readings up to the first one that passes the gate and returns it converted; when none passes it returns nothing. |
| MeasurementAcquirer.FirstAcceptedIs | src/main.cpp:449-471 | The first accepted position is the one every earlier reading fails and whose own reading passes. |
| MeasurementAcquirer.GateBounds | src/main.cpp:457 | The bounds are exclusive: 150 and -100 are rejected, 149.9 and -99.9 accepted. |
| MeasurementAcquirer.FahrenheitGate | src/main.cpp:452-457 | In Fahrenheit mode the gate accepts exactly the readings strictly between -73 1/3 and 65 5/9 degrees Celsius. |
| MeasurementAcquirer.GateDependsOnUnit | src/main.cpp:452-457 | A 70 degree Celsius reading is accepted in Celsius mode and retried in Fahrenheit mode. |
| SleepScheduler.SleepRequest | src/main.cpp:517-526 | Before the deadline the request is the time left; once it has passed, it is the whole `time_us`. It never exceeds `time_us`. |
| SleepScheduler.ClampOnlyOnWrap | src/main.cpp:522-524 | The clamp fires exactly when the 32-bit subtraction wrapped, that is when the clock is past the deadline. |

## Left out

- WiFi: `ensureWifiConfigured`, `awaitWiFiConnected` and the credential handling in `restoreConfig` are outside the core. The call that ends `edit` is left out.
- `restoreConfig` and `writeConfig` are not modelled beyond the restore and save they call.
- The InfluxDB upload (`publishMeasurement`) is a network client.
- The BME280 driver (`setupBME`, `bme.*`) is hardware. Its readings arrive as the `readings` sequence, and `millis()` as a field of each reading.
- LED, `delay`, `pinMode`, `ESP.deepSleep`, `setup` and `loop` are hardware control and scheduling. `micros()` is the parameter `nowUs`.
- Logging, `dump` and all prompts only format text to a stream.
- `EEPROM.begin` and `EEPROM.commit` are not modelled. `commit` is what makes a save durable: on the ESP8266 the puts go to a RAM copy, and `commit` writes the flash sector as a whole. The EEPROM here is one byte array at least as large as the record, the offset and the sentinel. Power loss during `commit` is not modelled. A save cut short between its byte writes is (`EepromStore.InterruptedSave`).
- `getLineFromUser` blocks on the serial port. The editor takes the finite sequence of raw lines typed, and `getLineFromUser` trims each with `FieldEditor.Trim`.
- `handleUserIO` (the serial command dispatcher) is left out. So is its effect inside the measurement retry loop: it may edit the configuration, and so change the unit, between retries.
- `String::toFloat` is the parameter `toFloat`, and the temperature offset is kept as the 32-bit pattern it returns.
- Floating point: temperatures, pressure and humidity are exact reals, so NaN and rounding are not modelled. A NaN reading fails both comparisons, so the loop would retry it.
- MeasurementAcquirer.FetchMeasurement: the firmware retries forever, but the model's readings are finite and it returns no measurement when they run out.
- ConfigObject.Config.Edit: when the lines run out before an accepted exit, the firmware would go on waiting. The model returns with `exited` false.
- ConfigRecord.Decode reads a bool byte other than 0 or 1 as true; C gives such a byte no defined meaning.
- FieldEditor.ToInt follows `strtol`: it skips leading white space, reads an optional sign and clamps to the `long` range. Locale-specific behaviour is not modelled.
- `src/thingspeak_bme280_settings.h` holds constants for an older sketch that `main.cpp` does not include.
