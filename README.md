# LightFanTemp firmware core in Dafny

This project models the core of the LightFanTemp controller-board firmware and proves
properties of that model. The core has three parts.

**The serial link to the bridge module** (`serial_comms.c`, `serial_comms.h`).
- `uart_tx` byte-stuffs a frame between the start marker 0xA5 and the end marker 0x5A, with
  0xDE as the escape.
- `send_log` builds the four-byte header (checksum, sequence, type, length), computes the
  mod-256 checksum and advances `tx_seq`.
- `uart_rx` is a one-byte-per-call state machine. It writes the frame in place into the current
  slot of a ring of `NUM_ENTRIES` slots of 255 bytes. At the end marker it checks the sequence
  number (and resynchronises), checks the checksum, and commits the slot unless the ring is
  full.
- The main loop hands the oldest pending slot to `process_message`.
- `process_message` edits the shadow LED program, switches programs and forwards log text.

**LED drawer geometry and LED control** (`led_helpers.h`, `main.cpp`): the drawer offset
macros and the array-filling macros, `switch_programs`, `resume_animation`,
`set_strip_intensity`, `light_drawer`, `urgb_u32` and the display-step cursor.

**Fan control** (`main.cpp`): the `fans` struct and its initialiser, `set_fan_pwm`, the
temperature curve walked by `set_fan_speeds`, the tacho counter `fanspeed_callback` and the
speed computation of `core1_entry`.

## Modules

Each module is one file.
- `Protocol`: wire constants, the command codes, the parser states, the header layout and the
  checksum.
- `Codec`: the stuffing that `uart_tx` performs, its inverse `Unstuff`, and the log frame that
  `send_log` builds.
- `Decoder`: `uart_rx` as a pure step function `Step` over a record `RxState` of every global it
  touches. The record includes the whole of `double_rx_buf`.
- `Ring`: the pending frames of the ring and the consumer step.
- `RoundTrip`: encoder output fed to the decoder, and the three receiver unit-test vectors.
- `SerialComms`: class `Link`, holding the globals of `serial_comms.c`. Its methods
  `UartTx`, `SendLog` and `UartRx` are proved to compute `Codec.Frame`, `Codec.LogFrame` and
  `Decoder.Step`.
- `LedHelpers`: the drawer offsets, and the macros as in-place loops over an `array`.
- `LedPrograms`: `struct led_programs` as a datatype, the display cursor, the pixel vectors and
  `urgb_u32`.
- `Dispatcher`: `process_message` as a function on the two programs and the `cur_prg` and
  `shadow_prg` indices.
- `Leds`: class `Display`, holding the LED globals. It updates `led_programs`, `cur_prg` and
  `shadow_prg` in place. `put_pixel` appends to a `pixels` sequence.
- `MainLoop`: the ring consumer of the main loop, and an end-to-end lemma from `send_log` to
  `process_message`.
- `Fans`: the fan state as a `Bank` value, the curve, and the specifications of every fan
  operation.
- `FanControl`: class `FanBank`. It holds the arrays of `struct fans`, and its methods are
  proved equal to the `Fans` functions.

`put_char` and `put_pixel` append to output sequences. `pwm_set_gpio_level` is recorded as a
`Level` event (pin, percent).

Where the design description of the protocol and the code disagree, the model follows the code:
- The command codes are those of `serial_comms.h`. `SET_LED_COLOR_BULK` is 0x21,
  `GET_LED_COLOR` is 0x22 and `SWITCH_PROGRAMS` is 0x60. There is no `SET_LED_PROGRAM_STEPS`.
- The link-status commands only log. They set no `wifi_connected` or `mqtt_connected` flag.
- `SET_LED_COLOR` writes one LED of one step. It does not write a duration and a whole colour
  vector. The colour's top byte is `cmd[1]`, the same byte that indexes the LED.
- `SET_FAN_PWM_PERC`, `SET_FAN_POWER_STATE` and the temperature commands are not handled by
  `process_message`. They fall into its default case, which only logs.
- The `SWITCH_PROGRAMS` case does not exchange the programs, does not reset the display cursor
  and does not enable the display (see Findings).
- A ring of `NUM_ENTRIES` slots holds at most `NUM_ENTRIES - 1` pending frames.
- The invalid-temperature sentinel falls inside a curve row, so it drives the fan (see
  Findings).

Two assumptions about the target, both those of the RP2040 build:
- Plain `char` is unsigned. `rx_buf`, `rsp_buf`, the `src` of `uart_tx` and the payload
  `cmd[]` of `struct serial_cmd` are `char`, and the model treats all of them as bytes 0-255.
  On a host where `char` is signed, the marker comparisons in `uart_tx` would never match
  bytes above 0x7F, and `cmd[1] << 16` in `SET_LED_COLOR` would sign-extend. The model does
  not cover such a build.
- The display clock counts milliseconds. `delayed_by_ms(get_absolute_time(), time)` adds
  `time` milliseconds to a microsecond `absolute_time_t`. The model's `now` and
  `nextDisplayStepTime` are plain millisecond counts, so the deadline is `now + time`.

## Model

| member | source | states |
|---|---|---|
| Protocol.MarkersDistinct | LightFanTemp/serial_comms.h:7-9 | the three markers are pairwise distinct, and a byte is escaped exactly when it is one of them |
| Protocol.SumAppend | LightFanTemp/serial_comms.c:83-85 | the running sum of a concatenation is the sum of the parts |
| Protocol.ChecksumStep | LightFanTemp/serial_comms.c:152 | adding one byte to a uint8_t running sum is the checksum of the extended string |
| Protocol.SumUpdate | LightFanTemp/serial_comms.c:152 | replacing one byte moves the running sum by the difference of the two bytes |
| Protocol.ChecksumDetectsChange | LightFanTemp/serial_comms.c:191 | any single changed byte, every single-bit flip included, changes the uint8_t checksum |
| Protocol.Layout | LightFanTemp/serial_comms.h:70-76 | a command is the 4 header bytes followed by the payload |
| Protocol.LayoutRoundTrip | LightFanTemp/serial_comms.h:70-76 | header and payload read back through `struct serial_cmd` are the ones laid out |
| Protocol.SlotBoundsPayload | LightFanTemp/serial_comms.h:11 | a command that fits a 255-byte slot has at most 251 payload bytes |
| Codec.Stuff | LightFanTemp/serial_comms.c:44-52 | definition: the body uart_tx emits, each source byte in order as Codec.EscapeByte sends it; its properties are the Codec.Stuff* lemmas and Codec.UnstuffStuff |
| Codec.Frame | LightFanTemp/serial_comms.c:40-56 | uart_tx's output starts with the start marker 0xA5 and ends with the end marker 0x5A |
| Codec.LogFrame | LightFanTemp/serial_comms.c:65-85 | the frame send_log builds has \|text\| + 5 bytes and fits one slot; its fields are stated by Codec.LogFrameChecksum |
| Codec.EscapeByte | LightFanTemp/serial_comms.c:46-51 | a marker is sent as two bytes, escape first; every other byte as itself |
| Codec.StuffAppend | LightFanTemp/serial_comms.c:44-52 | stuffing is byte by byte: the stuffing of a concatenation is the concatenation of the stuffings |
| Codec.StuffCons | LightFanTemp/serial_comms.c:44-52 | stuffing a byte at the front prefixes its escaped form |
| Codec.StuffLength | LightFanTemp/serial_comms.c:44-52 | the stuffed body is one byte per source byte plus one per marker |
| Codec.FrameLength | LightFanTemp/serial_comms.c:40-56 | uart_tx emits len + 2 + (number of markers) bytes, from the start marker to the end marker |
| Codec.StuffHasNoBareMarker | LightFanTemp/serial_comms.c:44-52 | inside a stuffed body, every marker that is not an escape directly follows an escape |
| Codec.UnstuffStuff | LightFanTemp/serial_comms.c:44-52 | dropping each escape and keeping the byte after it gives back exactly the source bytes |
| Codec.NoMarkerStuff | LightFanTemp/serial_comms.c:44-52 | a string without markers is sent unchanged |
| Codec.LogFrameChecksum | LightFanTemp/serial_comms.c:65-90 | the send_log frame has seq = tx_seq, type SEND_LOG, length = text + 1, payload text and NUL; its checksum is the sum of every byte after it, i.e. of the frame with the checksum field at 0 |
| Codec.HelloOnTheWire | LightFanTemp/comms_unit_test.c:29-40 | sending "Hello!" as log 0 produces exactly the hand-checked frame A5 6C 00 50 07 "Hello!" 00 5A |
| Codec.HelloChecksum | LightFanTemp/comms_unit_test.c:31 | the checksum of that frame is 0x6C |
| Decoder.Store | LightFanTemp/serial_comms.c:154 | `rx_buf[pos++] = ch`: pos moves on by one, the byte lands at rx_buf + pos when that lies inside double_rx_buf (dropped otherwise), and no other global changes |
| Decoder.Receive | LightFanTemp/serial_comms.c:103-181 | the switch never touches sequence, ring indices or the rx_buf slot, and it reaches MSG_END exactly on an end marker in MSG_RCV |
| Decoder.Complete | LightFanTemp/serial_comms.c:183-210 | rx_seq becomes received seq + 1 whether or not the checksum matches; pidx advances modulo NUM_ENTRIES exactly when checksum matches and ring is not full; parser back in MSG_START |
| Decoder.Step | LightFanTemp/serial_comms.c:93-213 | MSG_END is transient: every call leaves the globals valid with NUM_ENTRIES and cidx unchanged |
| Decoder.StepSpec | LightFanTemp/serial_comms.c:93-213 | uart_rx returns 0 exactly at a frame end and 1 otherwise; at the end marker resync and commit are as described; at most the byte at rx_buf + pos is written, with ch |
| Decoder.StepByteHandling | LightFanTemp/serial_comms.c:105-179 | MSG_START discards everything but 0xA5, which clears pos and sum; the checksum byte is never summed, escaped or not; after an escape the state is MSG_RCV; a body byte is summed |
| Decoder.Run | LightFanTemp/serial_comms.c:93-213 | feeding a byte stream keeps the globals valid |
| Decoder.RunAppend | LightFanTemp/serial_comms.c:93-213 | feeding a + b is feeding a, then b |
| Decoder.RunBodyByte | LightFanTemp/serial_comms.c:137-179 | one stuffed body byte is summed and stored at rx_buf + pos |
| Decoder.RunBody | LightFanTemp/serial_comms.c:137-179 | a stuffed body lands in place in the slot, summed into the parity, with pos counting it and the parser in MSG_RCV (Decoder.BodyReceived) |
| Decoder.RunChecksumField | LightFanTemp/serial_comms.c:120-135 | the checksum field, escaped or as a bare byte (0x5A included), is stored at slot position 0 and not summed |
| Decoder.RunHead | LightFanTemp/serial_comms.c:105-135 | start marker and checksum field leave the parser in MSG_RCV at pos 1 with sum 0 |
| Decoder.RunUntilEnd | LightFanTemp/serial_comms.c:105-179 | before the end marker the whole frame is in the slot and the running sum is the checksum of everything after the checksum byte |
| Decoder.DecodeFrame | LightFanTemp/serial_comms.c:93-213 | a frame of 2..255 bytes: uart_rx returns 0 at its end marker, the frame lands byte for byte in the slot, rx_seq = seq + 1, committed exactly when checksum matches and ring has room |
| Decoder.DecodeStuffedFrame | LightFanTemp/serial_comms.c:40-56 | the same for a frame as uart_tx encodes it |
| Decoder.WriteAtIndex | LightFanTemp/serial_comms.c:131 | helper: the bytes written at an offset are the frame; the rest of the buffer is unchanged |
| Decoder.WriteAtSnoc | LightFanTemp/serial_comms.c:154 | helper: storing the next byte extends the written frame by that byte |
| Decoder.WriteAtCons | LightFanTemp/serial_comms.c:131 | helper: the checksum byte followed by the body is the whole frame written from the slot start |
| Ring.SlotOf | LightFanTemp/main.cpp:477 | a slot of double_rx_buf is CMD_LEN bytes |
| Ring.Pending | LightFanTemp/main.cpp:475-479 | the pending frames are (pidx - cidx) mod NUM_ENTRIES slots from cidx on |
| Ring.Capacity | LightFanTemp/serial_comms.c:193-205 | at most NUM_ENTRIES - 1 frames are pending; empty iff pidx == cidx; the full test holds iff NUM_ENTRIES - 1 are pending |
| Ring.NextIndex | LightFanTemp/serial_comms.c:203 | helper: (x + 1) mod n wraps to 0 after n - 1 |
| Ring.Distance | LightFanTemp/serial_comms.c:196 | helper: the modular distance of two indices |
| Ring.Offset | LightFanTemp/main.cpp:478 | helper: the modular offset from an index |
| Ring.PendingAvoidsProducer | LightFanTemp/serial_comms.c:193-205 | no pending slot is the producer's slot |
| Ring.ProducerFollowsPending | LightFanTemp/serial_comms.c:193-205 | the producer slot follows the last pending one |
| Ring.CountAfterCommit | LightFanTemp/serial_comms.c:196-203 | a commit adds one pending frame |
| Ring.PendingUnchanged | LightFanTemp/serial_comms.c:131-169 | writes within the producer's slot leave every pending frame intact |
| Ring.PendingCommitted | LightFanTemp/serial_comms.c:191-206 | a commit appends the producer's slot to the pending frames, keeping the others |
| Ring.SlotsApart | LightFanTemp/serial_comms.c:131-169 | writes within one slot do not change another |
| Ring.StepPending | LightFanTemp/serial_comms.c:93-213 | a call that stores inside the slot appends a frame exactly when one ends with matching checksum and room; a full ring drops it; otherwise pending frames are unchanged |
| Ring.OverrunOverwritesOldest | LightFanTemp/serial_comms.c:154 | a body byte past CMD_LEN in a full ring overwrites the oldest pending frame's checksum byte |
| Ring.StepBounded | LightFanTemp/serial_comms.c:131-169 | the bounded step keeps the globals valid |
| Ring.BoundedPending | LightFanTemp/serial_comms.c:93-213 | with pos bounded, every input byte keeps the pending frames intact, appending only a good frame when there is room |
| Ring.Consume | LightFanTemp/main.cpp:478 | the consumer step keeps the globals valid |
| Ring.ConsumeOldest | LightFanTemp/main.cpp:475-479 | the consumer takes the oldest pending frame and keeps the rest in order (FIFO) |
| RoundTrip.FramePending | LightFanTemp/serial_comms.c:93-213 | a frame arriving from MSG_START becomes a new pending slot starting with the frame exactly when checksum matches and ring has room; otherwise pending frames are unchanged |
| RoundTrip.CorruptedFrameDropped | LightFanTemp/serial_comms.c:191-206 | a frame sent with a good checksum that arrives with any one byte changed, the checksum byte included, is dropped: the pending frames are unchanged |
| RoundTrip.WrittenSlot | LightFanTemp/serial_comms.c:131-169 | a frame written at the producer slot stays inside it |
| RoundTrip.StuffedFramePending | LightFanTemp/serial_comms.c:40-56 | the same for a frame as uart_tx encodes it |
| RoundTrip.LogRoundTrip | LightFanTemp/serial_comms.c:58-91 | send_log's frame fed to uart_rx is committed when the ring has room, with header and text + NUL byte for byte, and rx_seq = seq + 1; a full ring drops it |
| RoundTrip.HelloAccepted | LightFanTemp/comms_unit_test.c:29-40 | the hand-checked "Hello!" vector is accepted and rx_seq becomes 1 |
| RoundTrip.Test3Checksum | LightFanTemp/comms_unit_test.c:66-77 | the third test frame's checksum is 0x5A |
| RoundTrip.Test3Accepted | LightFanTemp/comms_unit_test.c:66-77 | a bare 0x5A in the checksum position is a checksum, not an end marker: the frame is accepted and rx_seq becomes 46 |
| SerialComms.Link.constructor | LightFanTemp/serial_comms.c:20-33 | the globals start zeroed, in MSG_START, with an empty ring |
| SerialComms.Link.UartTx | LightFanTemp/serial_comms.c:40-56 | the bytes handed to put_char are the stuffed frame of src[..len] |
| SerialComms.Link.SumChecksum | LightFanTemp/serial_comms.c:83-85 | the loop computes the uint8_t checksum of the first n bytes |
| SerialComms.Link.FillLog | LightFanTemp/serial_comms.c:65-81 | rsp_buf holds checksum 0, tx_seq, SEND_LOG, length + 1, text, NUL |
| SerialComms.Link.SendLog | LightFanTemp/serial_comms.c:58-91 | rsp_buf holds the log frame, the frame is sent stuffed, tx_seq advances by 1 mod 256, and the receive side is untouched |
| SerialComms.Link.UartRx | LightFanTemp/serial_comms.c:93-213 | the globals and the return value are those of Decoder.Step |
| SerialComms.Link.ParseByte | LightFanTemp/serial_comms.c:103-181 | the switch computes Decoder.Receive in place |
| SerialComms.Link.EndOfFrame | LightFanTemp/serial_comms.c:183-210 | the end-of-frame block computes Decoder.Complete in place |
| SerialComms.Link.RxBufPut | LightFanTemp/serial_comms.c:131 | `rx_buf[pos++] = ch` computes Decoder.Store |
| SerialComms.Link.ConsumerSlot | LightFanTemp/main.cpp:477 | the slot handed to process_message is slot cidx of the ring |
| SerialComms.Link.AdvanceConsumer | LightFanTemp/main.cpp:478 | cidx advances modulo NUM_ENTRIES, as Ring.Consume |
| LedHelpers.StartOffset | LightFanTemp/led_helpers.h:36-38 | a drawer starts on a multiple of NUM_ICS_PER_DRAWER, at the drawer number times that |
| LedHelpers.EndOffset | LightFanTemp/led_helpers.h:40-45 | a drawer ends NUM_ICS_PER_DRAWER ICs after it starts |
| LedHelpers.OffsetValues | LightFanTemp/led_helpers.h:27-45 | drawer d is [6d, 6d + 6); drawer 0 is [0, 6); the last drawer ends at 42 = NUM_LEDS_IN_STRIP |
| LedHelpers.DrawersPartitionStrip | LightFanTemp/led_helpers.h:37-45 | the drawer ranges are adjacent and disjoint and cover [0, 42): every IC lies in exactly one drawer |
| LedHelpers.Painted | LightFanTemp/led_helpers.h:48-63 | exactly the indices in [lo, hi) get the colour; every other element is unchanged |
| LedHelpers.Fill | LightFanTemp/led_helpers.h:48-63 | the macro loop paints [lo, hi) in place |
| LedHelpers.SetColorDrawer | LightFanTemp/led_helpers.h:48-51 | SET_COLOR_DRAWER paints exactly the drawer's range |
| LedHelpers.ClearStrip | LightFanTemp/led_helpers.h:54-57 | CLEAR_STRIP zeroes [0, 42) |
| LedHelpers.ClearDrawer | LightFanTemp/led_helpers.h:60-63 | CLEAR_DRAWER zeroes exactly the drawer's range |
| LedHelpers.ClearStripZeroes | LightFanTemp/led_helpers.h:54-57 | after CLEAR_STRIP every LED of the strip is 0 |
| LedHelpers.SetAfterClear | LightFanTemp/led_helpers.h:48-57 | on a cleared strip SET_COLOR_DRAWER lights exactly [6d, 6d + 6) |
| LedHelpers.ClearUndoesSet | LightFanTemp/led_helpers.h:48-63 | CLEAR_DRAWER after SET_COLOR_DRAWER of the same drawer restores zeros there and leaves the rest |
| LedPrograms.NextStep | LightFanTemp/main.cpp:490-493 | the uint8_t cursor stays below 256 and never rests on a nonzero num_steps |
| LedPrograms.CursorCycles | LightFanTemp/main.cpp:490-493 | with 1..256 steps the cursor stays in range, advances by one mod num_steps and wraps to 0 exactly after the last step |
| LedPrograms.CursorWithoutStepsRunsOn | LightFanTemp/main.cpp:490-493 | with num_steps 0 the uint8_t cursor never wraps at the program end |
| LedPrograms.StripPixels | LightFanTemp/main.cpp:611-620 | set_strip_intensity sends the colour on all 42 ICs |
| LedPrograms.DrawerPixels | LightFanTemp/main.cpp:649-667 | light_drawer's pixel vector: 42 pixels, each the colour or 0 |
| LedPrograms.DrawerPixelsLightOneDrawer | LightFanTemp/main.cpp:649-667 | light_drawer sends the colour for IC i iff 6d <= i < 6d + 6, else 0: a cleared strip with SET_COLOR_DRAWER applied, and nothing lit for a drawer past the last |
| LedPrograms.Urgb | LightFanTemp/main.cpp:135-140 | the packed colour fits in 24 bits |
| LedPrograms.UrgbChannels | LightFanTemp/main.cpp:135-140 | green, red and blue are read back from bits 16-23, 8-15 and 0-7 |
| Dispatcher.LedColor | LightFanTemp/serial_comms.c:281 | the stored colour is a 24-bit value whose top, middle and low bytes are cmd[1], cmd[2] and cmd[3] |
| Dispatcher.LedTime | LightFanTemp/serial_comms.c:296 | the stored time is a 16-bit value whose high byte is cmd[1] and low byte cmd[2] |
| Dispatcher.CString | LightFanTemp/serial_comms.c:234-237 | the printed text is the prefix before the first NUL |
| Dispatcher.CStringTerminated | LightFanTemp/serial_comms.c:234-237 | a NUL-terminated text prints as itself |
| Dispatcher.ProcessMessage | LightFanTemp/serial_comms.c:243-323 | the program store stays well formed: two programs, indices in range, every step of 42 LEDs |
| Dispatcher.SetLedColorWritesShadowOnly | LightFanTemp/serial_comms.c:277-283 | SET_LED_COLOR changes only leds[cmd[1]] of step cmd[0] of the shadow program, to cmd[1] << 16 \| cmd[2] << 8 \| cmd[3]; the active program is untouched when distinct |
| Dispatcher.SetLedTimeWritesShadowOnly | LightFanTemp/serial_comms.c:294-297 | SET_LED_TIME changes only the time of step cmd[0] of the shadow program, to cmd[1] << 8 \| cmd[2] |
| Dispatcher.QuietCommandsChangeNothing | LightFanTemp/serial_comms.c:261-275 | WIFI_*, MQTT_*, SEND_LOG and unknown types change no program and no index |
| Dispatcher.OnlyShadowWritten | LightFanTemp/serial_comms.c:243-323 | no message writes a program other than the shadow; only the two setters write any |
| Dispatcher.SwitchCollapses | LightFanTemp/serial_comms.c:308-312 | as written, SWITCH_PROGRAMS sets cur_prg and shadow_prg both to the old shadow, losing the active program |
| Dispatcher.SwitchExchange | LightFanTemp/serial_comms.c:308-312 | the intended exchange keeps the programs, and its two indices are the old pair |
| Dispatcher.SwitchExchangeSwaps | LightFanTemp/serial_comms.c:308-312 | the intended exchange swaps the roles, keeps them distinct and is its own inverse |
| Dispatcher.SendLogForwardsText | LightFanTemp/serial_comms.c:314-316 | SEND_LOG forwards the payload up to its first NUL and changes no program |
| Leds.Switched | LightFanTemp/main.cpp:622-642 | switch_programs keeps the programs; cur_prg is one of the two and shadow_prg the other |
| Leds.SwitchProgramsToggles | LightFanTemp/main.cpp:622-642 | switch_programs toggles cur_prg between the two programs with shadow_prg the other, so they always differ; switching twice restores cur_prg |
| Leds.Display.constructor | LightFanTemp/serial_comms.c:11-15 | led_programs[0] active (`cur_prg`) and led_programs[1] shadow (`shadow_prg`); the zero-initialised globals of main.cpp:121-129 leave the display off with cursor and deadline 0 |
| Leds.Display.PutStrip | LightFanTemp/main.cpp:611-620 | the pixel loop sends the colour 42 times |
| Leds.Display.ClearStrip | LightFanTemp/main.cpp:601-609 | clear_strip sends 42 zeros |
| Leds.Display.SetStripIntensity | LightFanTemp/main.cpp:611-620 | the display stops and the colour goes to all 42 ICs |
| Leds.Display.LightDrawer | LightFanTemp/main.cpp:649-667 | the display stops, 42 zeros go out, then the drawer's pixel vector |
| Leds.Display.SwitchPrograms | LightFanTemp/main.cpp:622-642 | the strip is cleared, programs toggle as Leds.Switched, cursor and deadline are 0, display on |
| Leds.Display.ResumeAnimation | LightFanTemp/main.cpp:644-647 | the display is on |
| Leds.Display.DisplayTick | LightFanTemp/main.cpp:481-497 | once the step is due, the current step's 42 colours go out, the cursor advances with wrap, and the deadline is now + the new step's time; otherwise nothing changes |
| Leds.Display.ProcessMessage | LightFanTemp/serial_comms.c:243-323 | in-place process_message computes Dispatcher.ProcessMessage and leaves the display state alone |
| MainLoop.ServiceRing | LightFanTemp/main.cpp:475-479 | with a frame pending, the oldest one goes to process_message and the receive globals become Ring.Consume of the old ones, so it leaves the ring; otherwise nothing changes; the display cursor, deadline, flag and pixels never change |
| MainLoop.LogDelivered | LightFanTemp/serial_comms.c:58-91 | a NUL-free log line sent by send_log into a ring with room becomes pending and is forwarded by process_message as the same text, programs unchanged |
| Fans.CurveTerminated | LightFanTemp/main.cpp:563-576 | the curve has nine rows before the PWM_CURVE_INVALID terminator |
| Fans.MatchBelow | LightFanTemp/main.cpp:585-592 | a duty found among the first k rows is between 20 and 100 percent |
| Fans.Lookup | LightFanTemp/main.cpp:585-592 | a duty found on the curve is between 20 and 100 percent |
| Fans.MatchBelowCovers | LightFanTemp/main.cpp:565-576 | the first k rows together cover (0, hi of row k - 1], with duties in [20, 100] |
| Fans.RowsIncrease | LightFanTemp/main.cpp:565-576 | each row starts at or above every earlier row's end |
| Fans.RowsDisjoint | LightFanTemp/main.cpp:585-592 | at most one row matches a temperature |
| Fans.MatchAt | LightFanTemp/main.cpp:585-592 | the matching row's duty is the one found |
| Fans.LookupSpec | LightFanTemp/main.cpp:565-592 | a temperature gets a duty iff it lies in (0, 10000]; the duty is the matching row's, in [20, 100] |
| Fans.CurveBoundaries | LightFanTemp/main.cpp:565-592 | 2400 gives 20, 2401 and 2600 give 30, 10000 gives 100, 0 and 10001 give none |
| Fans.SentinelDrivesFan | LightFanTemp/main.cpp:40 | as written, INVALID_TEMPERATURE (2989) falls in (2800, 3000] and gives 50 percent |
| Fans.LookupValid | LightFanTemp/main.cpp:40 | the intended lookup finds a duty only for a real temperature, and then the curve's |
| Fans.LookupValidSkipsSentinel | LightFanTemp/main.cpp:40 | the intended lookup gives none for the sentinel and agrees with the curve elsewhere |
| Fans.SetFanPwm | LightFanTemp/main.cpp:531-549 | the fan bank keeps its shape |
| Fans.SetFanPwmSpec | LightFanTemp/main.cpp:531-549 | above 100 the fan goes automatic, keeping its duty; otherwise manual with duty max(p, 20) in [20, 100], applied to its pin; other fans untouched |
| Fans.ApplyRows | LightFanTemp/main.cpp:585-592 | the inner loop keeps the bank's shape |
| Fans.ApplyRowsLookup | LightFanTemp/main.cpp:585-592 | walking the rows is one set_fan_pwm with the looked-up duty, or nothing |
| Fans.NoEarlierMatch | LightFanTemp/main.cpp:585-592 | no row before the matching one matches |
| Fans.FanStep | LightFanTemp/main.cpp:582-597 | one fan's step keeps the bank's shape |
| Fans.FanStepSpec | LightFanTemp/main.cpp:578-599 | an automatic fan off the curve is unchanged; on the curve it becomes manual at the row's duty; a manual fan in [20, 100] is re-applied with no change to `fans`; other fans untouched |
| Fans.FanSpeeds | LightFanTemp/main.cpp:578-599 | the pass keeps the bank's shape |
| Fans.FanSpeedsPerFan | LightFanTemp/main.cpp:578-599 | each fan's mode and duty depend only on its own temperature |
| Fans.FanStepSameFan | LightFanTemp/main.cpp:582-597 | one fan's step reads only that fan's mode and duty |
| Fans.AutoFanLatchesManual | LightFanTemp/main.cpp:590 | as written, an automatic fan that meets the curve once stays manual at that duty whatever later temperatures are |
| Fans.LatchExample | LightFanTemp/main.cpp:590 | a fan heating from 25 to 35 degrees stays at 30 percent, not 100 |
| Fans.FanStepAuto | LightFanTemp/main.cpp:582-597 | the intended step keeps the bank's shape |
| Fans.FanStepAutoFollows | LightFanTemp/main.cpp:578-599 | with the intended step an automatic fan stays automatic and runs at the duty of its latest valid temperature, in [20, 100]; other fans untouched |
| Fans.InitialAsWritten | LightFanTemp/main.cpp:86-116 | the as-written initialiser has the bank's shape |
| Fans.InitialIntended | LightFanTemp/main.cpp:77-116 | the intended initialiser has the bank's shape |
| Fans.InitialiserMisplaced | LightFanTemp/main.cpp:86-116 | as written, the first measurement reads 120 rpm for a still fan, each duty is a pin number and every pin is 0 |
| Fans.InitialIntendedSound | LightFanTemp/main.cpp:77-116 | intended: a still fan reads 0 rpm, every duty is 20 percent, the pins are the PWM pins |
| Fans.SetupPwm | LightFanTemp/main.cpp:232-267 | setup_pwm: `pins` becomes the PWM pins, nothing else in `fans` changes, and seven half-duty levels are applied, one per PWM pin in fan order |
| Fans.FanStepLevelsOnPins | LightFanTemp/main.cpp:580-597 | one fan's curve step keeps `pins` and applies levels only to pins listed there |
| Fans.FanSpeedsLevelsOnPins | LightFanTemp/main.cpp:578-599 | a whole set_fan_speeds pass keeps `pins` and drives only pins listed there |
| Fans.SetupLinksPins | LightFanTemp/main.cpp:466-470 | main() runs setup_pwm before the fan timer first fires, so from then on `pins` are the PWM pins and set_fan_speeds drives only them |
| Fans.TimerCalls | LightFanTemp/main.cpp:213 | a repeating timer calls its callback in the first period, never again after `false`, and is undetermined after a callback with no return value |
| Fans.FallsOffEndUndetermined | LightFanTemp/main.cpp:578-599 | as written (no `return`), whether set_fan_speeds runs a second time is undetermined |
| Fans.RepeatingTimerEveryPeriod | LightFanTemp/main.cpp:213 | with `return true;` the curve is applied in every one of n periods |
| Fans.EveryPeriodOnlyIfTrue | LightFanTemp/main.cpp:213 | a callback is called in every period if and only if it returns true |
| Fans.Measure | LightFanTemp/main.cpp:412-417 | the measurement keeps the bank's shape |
| Fans.MeasureSpec | LightFanTemp/main.cpp:412-417 | speed = 6 * count as uint16_t (exactly 6 * count below 10923), then count = 0; nothing else changes |
| Fans.TachoIndex | LightFanTemp/main.cpp:365-396 | the selected case's pin is gpio; no case is selected only when gpio is no tacho pin |
| Fans.Tick | LightFanTemp/main.cpp:365-396 | a tacho pulse keeps the bank's shape |
| Fans.TickSpec | LightFanTemp/main.cpp:365-396 | a pulse increments exactly the counter of the matching tacho pin (mod 2^16); other pins are ignored and nothing else changes |
| FanControl.FanBank.constructor | LightFanTemp/main.cpp:86-116 | the arrays hold the as-written initialiser; `pins` is zero until setup_pwm |
| FanControl.FanBank.SetupPwm | LightFanTemp/main.cpp:232-267 | in place, computes Fans.SetupPwm: `pins` becomes the PWM pins and each pin is started at half duty |
| FanControl.FanBank.SetFanPwm | LightFanTemp/main.cpp:531-549 | in place, computes Fans.SetFanPwm |
| FanControl.FanBank.SetFanSpeeds | LightFanTemp/main.cpp:578-599 | the nested loops compute Fans.FanSpeeds over all seven fans; it returns the intended `true` (see Findings) |
| FanControl.FanBank.FanspeedCallback | LightFanTemp/main.cpp:365-396 | the switch computes Fans.Tick |
| FanControl.FanBank.MeasureSpeeds | LightFanTemp/main.cpp:412-417 | the loop computes Fans.Measure |

## Left out

- Hardware setup and drivers: UART, timers, PWM, GPIO and PIO setup, `reset_modem`,
  `set_fans_power_state`. `put_char` and `put_pixel` are modelled as appends to an output
  sequence, and `sleep_ms` in `clear_strip` is dropped.
- The float conversion inside `pwm_set_gpio_level` (main.cpp:547). A duty is recorded as a
  `Level(pin, percent)` event.
- One-wire temperature acquisition. The temperatures are an input sequence.
- Concurrency. The ring indices shared with the UART interrupt, the tacho counters shared with
  core 1, and the `do_display` flag are modelled as sequential calls, with no atomicity claim.
- Timer callbacks, `send_temperature` and `send_tacho`. The repeating timer is reduced to
  `Fans.TimerCalls`, which counts how often a callback runs; the SDK's alarm scheduling is not
  modelled.
- `setup_pwm`'s `pwm_init` and `gpio_set_function` calls configure hardware and are left out.
  `Fans.SetupPwm` keeps its effect on `fans.pins` and its seven half-duty levels.
- The ESP8266 branch, `modem_reset` and `send_modem_reset`.
- `main.c`, `macro_helpers.h`, and the demo code under `#else` in `main.cpp`.
- `pin_defines.h` is not part of this model. Pin numbers are parameters: the PWM pins of
  `InitialAsWritten` and the seven distinct tacho pins of `FanBank`.
- `vsnprintf`: `SerialComms.Link.SendLog` takes the formatted text, at most 250 bytes. The
  negative-return path and truncation of a longer text are not modelled.
- `ERROR` and `DEBUG` logging: a no-op.
- `NUM_ENTRIES` is a parameter between 2 and 256. `NUM_FANS` is 7, as every initialiser and
  the tacho switch list seven fans. The number of steps of a program is a parameter.
- `SET_LED_COLOR_BULK` and `SET_LED_TIME_BULK` index with an uninitialised `led`, which is
  undefined behaviour. They are modelled as the effect `Undefined`, with the programs unchanged.
- Dispatcher.ProcessMessage: an out-of-range step or LED index in `SET_LED_COLOR` or
  `SET_LED_TIME` writes outside the array in C. It is modelled as `Undefined`, with the programs
  unchanged.
- Decoder.Store: a write at `rx_buf + pos` past the end of `double_rx_buf` is undefined
  behaviour in C and is dropped. A write past the slot but inside the buffer lands in the next
  slot, as in C (see Findings).
- Dispatcher.CString: `parse_log` reads past the slot when the payload has no NUL. The model
  stops at the slot end.
- Leds.Display.DisplayTick: requires that the current and the next step index lie inside the
  step table. With `num_steps` 0 or above the table size the C code reads past it.
- Leds.Display.ProcessMessage: like the C case, it does not reset the cursor or enable the
  display on `SWITCH_PROGRAMS`. It keeps the collapsing assignment as written.
- FanControl.FanBank: the class keeps the as-written initialiser and curve step. The corrected
  definitions (`Fans.InitialIntended`, `Fans.FanStepAuto`, `Fans.LookupValid`,
  `Dispatcher.SwitchExchange`, `Ring.StepBounded`) stand beside them with their properties
  proved. Before `SetupPwm` runs, its `Level` events name pin 0. After it runs they name the
  PWM pins (`Fans.SetupLinksPins`). `SetFanSpeeds` returns the intended `true`, not the
  undefined value of the C function (see Findings).

## Findings

| source | as written | input that shows it | evidently intended | confidence | as-written member | corrected member |
|---|---|---|---|---|---|---|
| LightFanTemp/serial_comms.c:308-312 | `tmp = cur_prg; cur_prg = shadow_prg; shadow_prg = cur_prg;` sets both to the old shadow | any SWITCH_PROGRAMS message with cur 0, shadow 1: both become 1 and program 0 is referenced by neither | `shadow_prg = tmp`, an exchange | not executed | Dispatcher.SwitchCollapses | Dispatcher.SwitchExchangeSwaps |
| LightFanTemp/serial_comms.c:154 | `pos` is never bounded, so a body longer than CMD_LEN bytes is stored into the next slot | ring full (NUM_ENTRIES - 1 pending), pos = 255, a plain body byte: the oldest pending frame's checksum byte is overwritten | abandon the frame once pos reaches CMD_LEN (guarded rejection) | not executed | Ring.OverrunOverwritesOldest | Ring.BoundedPending |
| LightFanTemp/main.cpp:86-116 | the initialiser lists four arrays for five fields, so `fan_count` gets PWM_LOW_THRESHOLD and `pwm` the pin numbers; `pins` starts at zero, but setup_pwm (main.cpp:232-239) sets it before the fan timer first fires, so only the count matters at run time | start-up: the first measurement reports 20 * 6 = 120 rpm for a fan that never turned | count 0, duty 20, pin list in `pins` | not executed | Fans.InitialiserMisplaced | Fans.InitialIntendedSound |
| LightFanTemp/main.cpp:590 | the curve step calls set_fan_pwm, which clears `auto_speed`, so the fan stays manual after one match | automatic fan at 25.00 degrees then 35.00 degrees: stays at 30 percent instead of 100 | an automatic fan keeps following the curve | not executed | Fans.LatchExample | Fans.FanStepAutoFollows |
| LightFanTemp/main.cpp:578-599 | `bool set_fan_speeds` is registered as a repeating timer (main.cpp:213) but flows off its end without a `return`, which is undefined behaviour | the second timer period: whether the curve is applied again is undetermined | `return true;` so that the timer keeps running | not executed | Fans.FallsOffEndUndetermined | Fans.RepeatingTimerEveryPeriod |
| LightFanTemp/main.cpp:40 | INVALID_TEMPERATURE 0x0bad = 2989 lies in the row (2800, 3000] | a missing sensor: its fan is driven at 50 percent | a missing sensor leaves the fan unchanged | not executed | Fans.SentinelDrivesFan | Fans.LookupValidSkipsSentinel |
