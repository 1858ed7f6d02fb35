# Meccanoid command encoder — a Dafny model

The Meccanoid toy robot is driven over one Bluetooth Low Energy characteristic
with 20-byte packets. Each packet is an 18-byte payload (slot 0 names the
command) followed by a 2-byte big-endian sum checksum. The controller object
`RobotControl` remembers the last output state it encoded. When a setter
validates its input, it updates that state in place and re-encodes the whole
command group:

| command | id | payload |
|---|---|---|
| handshake | 0x0D | fixed |
| servos | 0x08 | 8 positions, 8 LED modes, foot byte |
| servo LEDs | 0x0C | 8 colours, 8 modes, trailing byte |
| eyes | 0x11 | slot 3 = `g<<3` or-ed with `r`, slot 4 = `b` |
| chest LEDs | 0x1C | slots 1–4 = the four statuses |

Two interactive test scripts build servo arrays for the robot:

- The new-format arm test maps the four arm joints to physical slots, defaults blanks and clamps the values.
- The extended test takes 4 or 8 raw values, then reverses the mirrored slots once.

Files, one module each:

- `protocol.dfy` (`Protocol`): the checksum, framing, the transport outcome, the handshake, every payload layout with its decoder, and the reversal rule for mirrored servos (slots 1 and 3).
- `robot_state.dfy` (`RobotState`): the remembered state as a value. Each setter is a function there from the old state to the new state and the payload it sends, if any. It also holds the lemmas about failure ordering, isolation, idempotence and range preservation.
- `robot_control.dfy` (`Robot`): the `RobotControl` class. Its `seq` fields are updated in place. Each method is proved to leave exactly the state and send exactly the packet that the matching `RobotState` function describes.
- `new_format_servo_test.dfy` (`NewFormatServoTest`): `SERVO_MAP`, entry defaulting, the clamping loop, the physical array, and one pass of the interactive loop.
- `extended_servo_test.dfy` (`ExtendedServoTest`): the 4-or-8-value fill loop, the in-place reversal loop, and one pass of the interactive loop.

The robot link is a parameter, `Link(connected, writeSucceeds)`. A send returns a
`Transmission`: the success flag handed back to the caller, and the 20-byte packet
handed to the link, when one was built. The state is updated whether or not the
write succeeds.

Behaviour of the code worth knowing:

- The eye command 0x11 carries no chest-LED data. All slots except 0, 3 and 4 are zero.
- Validation is not always done before mutation, so a call can return False after part of the state has changed:
  - `set_all_servos_raw` stores the positions before it checks the modes.
  - `set_servo_led_color` stores the colour before it checks the mode.
  - `set_all_servo_leds_raw` stores the colours before it checks the modes.
- The raw setters do not range-check their values. A value outside 0..255 reaches the state. The payload built from it cannot be turned into a byte string, so `send_command` returns False and writes nothing. The model represents this as `Frame` returning `ByteRangeError`.
- The handshake payload sums to 0x0D + 0xFF + 0xFF = 0x20B, so its checksum is `[0x02, 0x0B]`.
- Reversal is not an involution at 0x7F. 0xFF − 0x7F is the centre 0x80, and the centre is never reversed.
- `REVERSED_SERVO_INDICES` is `[1, 3]`; the extended script's comment about `[3]` is not what the code uses.
- `DEFAULT_SERVO_POS` is imported by the extended script but not defined in `src/robot_control.py`. It is taken to be the centre, 0x80.

## Model

| member | source | states |
|---|---|---|
| Protocol.CalculateChecksum | src/robot_control.py:15-23 | refuses every payload whose length is not 18. Otherwise it returns two bytes `[hi, lo]` with `256*hi + lo == sum(payload) mod 65536`, for any integers |
| Protocol.ChecksumOfBytes | src/robot_control.py:19-23 | for 18 genuine bytes the sum is at most 4590, so the checksum is exactly `[S / 256, S % 256]` with no wrap-around |
| Protocol.HighLow | src/robot_control.py:23 | `(S >> 8) & 0xFF` and `S & 0xFF` together are `S mod 65536` in big-endian order |
| Protocol.ChecksumDetectsSingleByteChange | src/robot_control.py:22-23 | changing one payload byte to a different byte value always changes the checksum |
| Protocol.Frame | src/robot_control.py:98-114 | a payload frames exactly when it has 18 bytes, all in 0..255. Any other length is a `LengthError`, and 18 slots holding a non-byte are a `ByteRangeError`. The resulting packet has 20 bytes and unframes to the payload |
| Protocol.Unframe | src/robot_control.py:103-104 | an accepted packet has 20 bytes, its last two are `CalculateChecksum` of the first 18, and the result is those 18 bytes |
| Protocol.FrameUnframe | src/robot_control.py:103-104 | every byte packet accepted by `Unframe` is exactly the frame of its payload, the converse of `Frame`'s own guarantee |
| Protocol.SendCommand | src/robot_control.py:94-117 | a packet is built only when connected and the payload is 18 bytes in range. That packet has 20 bytes and carries the payload with its checksum. The result is True only if the packet was built and the write succeeded |
| Protocol.HandshakeSum | src/robot_control.py:125-129 | the handshake payload bytes sum to `0x20B` (0x0D plus two 0xFF) |
| Protocol.HandshakeFrame | src/robot_control.py:125-130 | the handshake payload frames to the packet ending in checksum bytes `0x02, 0x0B` |
| Protocol.EncodeGroup | src/robot_control.py:157 | the group payload has two slots more than its two arrays together, and all of them are bytes when its parts are bytes |
| Protocol.DecodeGroup | src/robot_control.py:236 | a decoded group has two 8-slot arrays |
| Protocol.GroupRoundTrip | src/robot_control.py:182 | `[id] ++ a ++ b ++ [x]` decodes back to `(id, a, b, x)` exactly when both arrays have 8 slots |
| Protocol.DecodeGroupInverse | src/robot_control.py:256 | every 18-slot payload is the encoding of its decoded group |
| Protocol.PackEye | src/robot_control.py:203 | for components in 0..7, `g << 3` or-ed with `r` equals `8*g + r` |
| Protocol.EyePayload | src/robot_control.py:199-205 | the eye payload has 18 slots, all bytes |
| Protocol.EyeRoundTrip | src/robot_control.py:198-205 | r, g and b can be recovered from slots 3 and 4. Every slot other than 0, 3 and 4 is zero |
| Protocol.ChestPayload | src/robot_control.py:277-281 | the chest payload has 18 slots, all bytes when the statuses are |
| Protocol.ChestRoundTrip | src/robot_control.py:276-281 | slots 1–4 return the four statuses, and slots 5–17 are zero |
| Protocol.Reverse | src/robot_control.py:148-150 | the value changes exactly on a mirrored slot (1 or 3) away from the centre 0x80, and then becomes `0xFF - v`. Bytes stay bytes |
| Protocol.ReverseTwice | src/robot_control.py:149-150 | reversing twice restores `v` except for 0x7F on a mirrored slot |
| RobotState.InitialInRange | src/robot_control.py:34-48 | the initial state has every value within its validated range |
| RobotState.SetServoPosition | src/robot_control.py:141-160 | an index outside 0..7 or a position outside 0..255 changes nothing and sends nothing. Otherwise only slot `index` changes, to the reversed position, and the payload decodes to the new servo group. Range is preserved and the payload frames |
| RobotState.SetAllServosRaw | src/robot_control.py:167-184 | wrong-length positions change nothing. Otherwise positions are copied verbatim, even when modes of the wrong length then fail. Omitted modes or foot byte are kept. Colours, chest and eyes are untouched. The payload decodes to the new servo group |
| RobotState.SetEyeColor | src/robot_control.py:192-208 | a component outside 0..7 changes nothing. Otherwise only the eye colour changes. The payload decodes to it and has zeros in every other slot |
| RobotState.SetServoLedColor | src/robot_control.py:220-239 | a bad index or colour changes nothing. Otherwise only slot `index` of the colours changes. Its mode changes only if the given mode is a byte. A bad mode still leaves the new colour and sends nothing. The payload decodes to the LED group with trailing 0 |
| RobotState.SetAllServoLedsRaw | src/robot_control.py:245-258 | wrong-length colours change nothing. Otherwise colours are copied verbatim, even when modes of the wrong length then fail. The payload's slot 17 is the given last byte |
| RobotState.SetChestLed | src/robot_control.py:267-284 | an index outside 0..3 or a status other than 0/1 changes nothing. Otherwise only that chest slot changes, and the payload is the four statuses followed by zeros |
| RobotState.RawServosBadModesKeepPositions | src/robot_control.py:171-176 | a wrong-length modes array fails after the positions were stored |
| RobotState.LedColorBadModeKeepsColor | src/robot_control.py:227-231 | an out-of-range mode fails after the colour was stored |
| RobotState.RawLedsBadModesKeepColors | src/robot_control.py:248-253 | a wrong-length modes array fails after the colours were stored |
| RobotState.RawServosAcceptOutOfRange | src/robot_control.py:167-184 | for any state, 8 positions with some value outside 0..255, and acceptable modes, the raw setter stores the positions and leaves the state out of range. Framing the payload fails with `ByteRangeError` |
| RobotState.EyesAndServosCommute | src/robot_control.py:186-208 | setting the eyes and a servo ends in the same state in either order |
| RobotState.SetServoPositionIdempotent | src/robot_control.py:148-153 | repeating the same servo call changes nothing further and sends the same payload |
| RobotState.ValidatedSessionStaysInRange | src/robot_control.py:132-284 | any sequence of validated setter calls keeps every value within its range after every call |
| Robot.RobotControl.constructor | src/robot_control.py:30-48 | starts with servos centred, LED mode 0x04, LEDs off, foot byte 0x01, chest and eyes off |
| Robot.RobotControl.InitializeRobot | src/robot_control.py:119-130 | sends exactly the fixed handshake packet when connected, and changes no state |
| Robot.RobotControl.SetServoPosition | src/robot_control.py:132-160 | the new state and the packet sent are those of `RobotState.SetServoPosition` |
| Robot.RobotControl.SetAllServosRaw | src/robot_control.py:162-184 | the new state and the packet sent are those of `RobotState.SetAllServosRaw` |
| Robot.RobotControl.SetEyeColor | src/robot_control.py:186-208 | the slot-by-slot payload equals the eye layout. The new state is that of `RobotState.SetEyeColor` |
| Robot.RobotControl.SetServoLedColor | src/robot_control.py:210-239 | the new state and the packet sent are those of `RobotState.SetServoLedColor` |
| Robot.RobotControl.SetAllServoLedsRaw | src/robot_control.py:241-258 | the new state and the packet sent are those of `RobotState.SetAllServoLedsRaw` |
| Robot.RobotControl.SetChestLed | src/robot_control.py:260-284 | the fill loop yields the chest layout. The new state is that of `RobotState.SetChestLed` |
| NewFormatServoTest.ServoMap | tests/interactive_servo_test_new_format.py:20-25 | every joint maps to a slot in 1..4, so never to slots 0, 5, 6 or 7 |
| NewFormatServoTest.ServoMapInjective | tests/interactive_servo_test_new_format.py:20-25 | the four joints map to four distinct slots |
| NewFormatServoTest.DefaultThenClamp | tests/interactive_servo_test_new_format.py:68-92 | defaulting then validating an entry gives 0x80 for a blank, the number itself for a byte, and 128 for any other number |
| NewFormatServoTest.Clamped | tests/interactive_servo_test_new_format.py:83-92 | the result is always a byte. It equals the input when the input is a byte, and 128 otherwise |
| NewFormatServoTest.ValidateJoints | tests/interactive_servo_test_new_format.py:81-92 | the loop replaces each out-of-range joint by 128 and keeps the others |
| NewFormatServoTest.BuildPhysical | tests/interactive_servo_test_new_format.py:94-101 | slot 3 = lsh, slot 4 = lel, slot 2 = rsh, slot 1 = rel, and slots 0, 5, 6, 7 = 0x80 |
| NewFormatServoTest.ReadPhysical | tests/interactive_servo_test_new_format.py:68-101 | each joint's physical slot holds 0x80 for a blank entry, the number for a byte, and 128 for any other number. The other slots are 0x80 and every slot is a byte |
| NewFormatServoTest.SendServoPositions | tests/interactive_servo_test_new_format.py:108-113 | only the positions change, to the given array. The transmission is the servo group of the new state. A byte array keeps an in-range state in range, and its payload frames |
| NewFormatServoTest.Iteration | tests/interactive_servo_test_new_format.py:68-113 | non-numeric input sends nothing and changes nothing. Otherwise each joint's slot holds 0x80 for a blank entry, the number for a byte, and 128 for any other number. That physical array is sent verbatim, then `[0x80]*8` on reset. Only the positions change and they stay bytes. Every send builds a packet when connected and the state was in range |
| ExtendedServoTest.FillPositions | tests/interactive_servo_test.py:113-127 | anything but 4 or 8 values is refused. Otherwise slots 0..k-1 hold the inputs unchanged, even out-of-range ones, and the rest hold the default |
| ExtendedServoTest.ApplyReversal | tests/interactive_servo_test.py:133-143 | the length is kept. Slot i becomes `Reverse(i, v)`, so it changes exactly when i is 1 or 3 and v is not the default |
| ExtendedServoTest.Iteration | tests/interactive_servo_test.py:100-155 | quitting, non-integers or a bad count send nothing and change nothing. 't' stores `[0x80]*8`. Values are reversed exactly once and copied verbatim into the positions. Only the positions change |

## Left out

- BLE connection, disconnection and the characteristic write (`BleakClient`, `src/meccanoid_ble.py`): foreign I/O. The link is the `Link` parameter and its write outcome.
- `asyncio`, the sleeps and all `print` logging: they do not affect the encoded state or packets. Methods are synchronous.
- The `main()` demo in `src/robot_control.py`: sleeps and I/O only.
- The pose catalog and `execute_pose`: they are not defined in `src/robot_control.py`, so there is nothing to model. `DEFAULT_SERVO_POS` is taken to be 0x80.
- A combined eyes-plus-chest 0x11 encoding: the code does not build one.
- `src/robot_repl.py`, `tests/test_individual_servos.py`, `tests/test_robot_eyes.py`, `tests/test_robot_poses.py`, `tests/testOllama.py` and `tests/utils/home_assistant_control.py`: keyboard handling, webcam capture, HTTP calls and sound generation are outside the encoder.
- Text input handling in the two test scripts (`strip`, `lower`, `split`, `int`): the model receives each line already classified (`Entry`, `Command`), because string-to-integer conversion is library behaviour.
- The surrounding `while True` loops and `KeyboardInterrupt`: one pass of each loop is modelled.
- NewFormatServoTest.Iteration: both sends in one pass use the same `Link` outcome; a link that fails between them is not modelled.
- Default argument values (`mode=None`, `modes_8_bytes=None`, `foot_leds_byte=None`, `last_byte=0x00`): callers pass `None` or the value explicitly.
- `bytes(...)` refusing non-integer list elements (a `TypeError`): the model's values are all integers.
- `device_address` is only stored; it matters only to connecting.
