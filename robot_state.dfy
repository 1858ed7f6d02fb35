/**
 The robot's remembered output state and, for every setter of the robot
 controller, the state it leaves behind and the payload it sends. Each setter
 re-encodes a whole command group from the state, so a setter's payload always
 reflects the new state of that group. A setter that refuses its input returns
 no payload; some setters have already changed a part of the state when a later
 check refuses, and the functions here keep that order.
 */
module RobotState {
  import opened Protocol

  datatype State = State(
    servoPositions: seq<int>,
    servoLedModes: seq<int>,
    servoLedColors: seq<int>,
    footLedsByte: int,
    chestLedStatus: seq<int>,
    eyeR: int,
    eyeG: int,
    eyeB: int)

  const DefaultLedMode: int := 0x04
  const DefaultFootLeds: int := 0x01

  /** Servos centred, LED mode 0x04, LEDs off, foot byte 0x01, chest and eyes off. */
  const Initial: State := State(
    seq(8, _ => CenterPosition), seq(8, _ => DefaultLedMode), seq(8, _ => 0),
    DefaultFootLeds, seq(4, _ => 0), 0, 0, 0)

  /** The array lengths every setter keeps. */
  predicate WellShaped(s: State)
  {
    |s.servoPositions| == 8 && |s.servoLedModes| == 8 && |s.servoLedColors| == 8 && |s.chestLedStatus| == 4
  }

  predicate IsStatus(x: int) { x == 0 || x == 1 }

  /** Every value within the range its setter validates. */
  predicate InRange(s: State)
  {
    && WellShaped(s)
    && AllBytes(s.servoPositions)
    && AllBytes(s.servoLedModes)
    && (forall i :: 0 <= i < 8 ==> IsColorComponent(s.servoLedColors[i]))
    && IsByte(s.footLedsByte)
    && (forall i :: 0 <= i < 4 ==> IsStatus(s.chestLedStatus[i]))
    && IsColorComponent(s.eyeR) && IsColorComponent(s.eyeG) && IsColorComponent(s.eyeB)
  }

  lemma InitialInRange()
    ensures InRange(Initial)
  {
  }

  /** The servo command re-encoded from a state. */
  function ServoGroup(s: State): Group
  {
    Group(ServoCommand, s.servoPositions, s.servoLedModes, s.footLedsByte)
  }

  /** The servo-LED command re-encoded from a state, with its trailing byte. */
  function LedGroup(s: State, last: int): Group
  {
    Group(ServoLedCommand, s.servoLedColors, s.servoLedModes, last)
  }

  /** What one setter does: the new state and the payload it sends, if any. */
  datatype Step = Step(state: State, payload: Option<seq<int>>)

  function SetServoPosition(s: State, index: int, position: int): (t: Step)
    requires WellShaped(s)
    ensures WellShaped(t.state)
    ensures t.payload.None? <==> !(0 <= index <= 7 && IsByte(position))
    ensures t.payload.None? ==> t.state == s
    ensures t.payload.Some? ==>
              && t.state.servoPositions[index] == Reverse(index, position)
              && (forall j :: 0 <= j < 8 && j != index ==> t.state.servoPositions[j] == s.servoPositions[j])
              && t.state.(servoPositions := s.servoPositions) == s
    ensures t.payload.Some? ==> DecodeGroup(t.payload.value) == Some(ServoGroup(t.state))
    ensures InRange(s) ==> InRange(t.state) && (t.payload.Some? ==> Frame(t.payload.value).Ok?)
  {
    if !(0 <= index <= 7) || !IsByte(position) then Step(s, None)
    else
      var u := s.(servoPositions := s.servoPositions[index := Reverse(index, position)]);
      GroupRoundTrip(ServoGroup(u));
      Step(u, Some(EncodeGroup(ServoGroup(u))))
  }

  /** Positions are copied as given, with no range check and no reversal; the
      positions are stored before the optional modes are checked. */
  function SetAllServosRaw(s: State, positions: seq<int>, modes: Option<seq<int>>, foot: Option<int>): (t: Step)
    requires WellShaped(s)
    ensures WellShaped(t.state)
    ensures t.payload.Some? <==> |positions| == 8 && (modes.None? || |modes.value| == 8)
    ensures |positions| != 8 ==> t.state == s
    ensures |positions| == 8 ==> t.state.servoPositions == positions
    ensures t.state.servoLedModes == if t.payload.Some? && modes.Some? then modes.value else s.servoLedModes
    ensures t.state.footLedsByte == if t.payload.Some? && foot.Some? then foot.value else s.footLedsByte
    ensures t.state.(servoPositions := s.servoPositions, servoLedModes := s.servoLedModes,
                     footLedsByte := s.footLedsByte) == s
    ensures t.payload.Some? ==> DecodeGroup(t.payload.value) == Some(ServoGroup(t.state))
    ensures InRange(s) && AllBytes(positions) && (modes.None? || AllBytes(modes.value))
            && (foot.None? || IsByte(foot.value)) ==>
              InRange(t.state) && (t.payload.Some? ==> Frame(t.payload.value).Ok?)
  {
    if |positions| != 8 then Step(s, None)
    else
      var s1 := s.(servoPositions := positions);
      if modes.Some? && |modes.value| != 8 then Step(s1, None)
      else
        var s2 := if modes.Some? then s1.(servoLedModes := modes.value) else s1;
        var s3 := if foot.Some? then s2.(footLedsByte := foot.value) else s2;
        GroupRoundTrip(ServoGroup(s3));
        Step(s3, Some(EncodeGroup(ServoGroup(s3))))
  }

  /** The eye command carries only the eye colour: no chest-LED slot is filled. */
  function SetEyeColor(s: State, r: int, g: int, b: int): (t: Step)
    requires WellShaped(s)
    ensures WellShaped(t.state)
    ensures t.payload.None? <==> !(IsColorComponent(r) && IsColorComponent(g) && IsColorComponent(b))
    ensures t.payload.None? ==> t.state == s
    ensures t.payload.Some? ==> t.state.(eyeR := s.eyeR, eyeG := s.eyeG, eyeB := s.eyeB) == s
    ensures t.payload.Some? ==> DecodeEye(t.payload.value) == Some(Rgb(t.state.eyeR, t.state.eyeG, t.state.eyeB))
    ensures t.payload.Some? ==> t.state.eyeR == r && t.state.eyeG == g && t.state.eyeB == b
    ensures t.payload.Some? ==>
              forall i :: 0 <= i < PayloadLength && i != 0 && i != 3 && i != 4 ==> t.payload.value[i] == 0
    ensures InRange(s) ==> InRange(t.state) && (t.payload.Some? ==> Frame(t.payload.value).Ok?)
  {
    if !(IsColorComponent(r) && IsColorComponent(g) && IsColorComponent(b)) then Step(s, None)
    else
      EyeRoundTrip(r, g, b);
      Step(s.(eyeR := r, eyeG := g, eyeB := b), Some(EyePayload(r, g, b)))
  }

  /** The colour is stored before the optional mode is checked, so a mode out of
      range leaves the new colour in place and sends nothing. */
  function SetServoLedColor(s: State, index: int, color: int, mode: Option<int>): (t: Step)
    requires WellShaped(s)
    ensures WellShaped(t.state)
    ensures t.payload.Some? <==> 0 <= index <= 7 && IsColorComponent(color) && (mode.None? || IsByte(mode.value))
    ensures !(0 <= index <= 7 && IsColorComponent(color)) ==> t.state == s
    ensures 0 <= index <= 7 && IsColorComponent(color) ==>
              && t.state.servoLedColors[index] == color
              && (forall j :: 0 <= j < 8 && j != index ==> t.state.servoLedColors[j] == s.servoLedColors[j])
              && (forall j :: 0 <= j < 8 && j != index ==> t.state.servoLedModes[j] == s.servoLedModes[j])
              && t.state.servoLedModes[index] ==
                   (if t.payload.Some? && mode.Some? then mode.value else s.servoLedModes[index])
    ensures t.state.(servoLedColors := s.servoLedColors, servoLedModes := s.servoLedModes) == s
    ensures t.payload.Some? ==> DecodeGroup(t.payload.value) == Some(LedGroup(t.state, 0))
    ensures InRange(s) ==> InRange(t.state) && (t.payload.Some? ==> Frame(t.payload.value).Ok?)
  {
    if !(0 <= index <= 7) || !IsColorComponent(color) then Step(s, None)
    else
      var s1 := s.(servoLedColors := s.servoLedColors[index := color]);
      if mode.Some? && !IsByte(mode.value) then Step(s1, None)
      else
        var s2 := if mode.Some? then s1.(servoLedModes := s1.servoLedModes[index := mode.value]) else s1;
        GroupRoundTrip(LedGroup(s2, 0));
        Step(s2, Some(EncodeGroup(LedGroup(s2, 0))))
  }

  /** Colours are copied as given and stored before the optional modes are
      checked; the trailing byte is sent but not remembered. */
  function SetAllServoLedsRaw(s: State, colors: seq<int>, modes: Option<seq<int>>, lastByte: int): (t: Step)
    requires WellShaped(s)
    ensures WellShaped(t.state)
    ensures t.payload.Some? <==> |colors| == 8 && (modes.None? || |modes.value| == 8)
    ensures |colors| != 8 ==> t.state == s
    ensures |colors| == 8 ==> t.state.servoLedColors == colors
    ensures t.state.servoLedModes == if t.payload.Some? && modes.Some? then modes.value else s.servoLedModes
    ensures t.state.(servoLedColors := s.servoLedColors, servoLedModes := s.servoLedModes) == s
    ensures t.payload.Some? ==> DecodeGroup(t.payload.value) == Some(LedGroup(t.state, lastByte))
  {
    if |colors| != 8 then Step(s, None)
    else
      var s1 := s.(servoLedColors := colors);
      if modes.Some? && |modes.value| != 8 then Step(s1, None)
      else
        var s2 := if modes.Some? then s1.(servoLedModes := modes.value) else s1;
        GroupRoundTrip(LedGroup(s2, lastByte));
        Step(s2, Some(EncodeGroup(LedGroup(s2, lastByte))))
  }

  /** The standalone chest command sends all four statuses and leaves the eyes alone. */
  function SetChestLed(s: State, index: int, status: int): (t: Step)
    requires WellShaped(s)
    ensures WellShaped(t.state)
    ensures t.payload.None? <==> !(0 <= index <= 3 && IsStatus(status))
    ensures t.payload.None? ==> t.state == s
    ensures t.payload.Some? ==>
              && t.state.chestLedStatus[index] == status
              && (forall j :: 0 <= j < 4 && j != index ==> t.state.chestLedStatus[j] == s.chestLedStatus[j])
              && t.state.(chestLedStatus := s.chestLedStatus) == s
    ensures t.payload.Some? ==> DecodeChest(t.payload.value) == Some(t.state.chestLedStatus)
    ensures t.payload.Some? ==> forall i :: 5 <= i < PayloadLength ==> t.payload.value[i] == 0
    ensures InRange(s) ==> InRange(t.state) && (t.payload.Some? ==> Frame(t.payload.value).Ok?)
  {
    if !(0 <= index <= 3) || !IsStatus(status) then Step(s, None)
    else
      var u := s.(chestLedStatus := s.chestLedStatus[index := status]);
      ChestRoundTrip(u.chestLedStatus);
      Step(u, Some(ChestPayload(u.chestLedStatus)))
  }

  /** A wrong-length modes array is refused only after the new positions have
      been stored: nothing is sent, yet the positions have changed. */
  lemma RawServosBadModesKeepPositions(s: State, positions: seq<int>, modes: seq<int>, foot: Option<int>)
    requires WellShaped(s) && |positions| == 8 && |modes| != 8
    ensures var t := SetAllServosRaw(s, positions, Some(modes), foot);
            t.payload.None? && t.state == s.(servoPositions := positions)
  {
  }

  /** An out-of-range mode is refused only after the new colour has been stored. */
  lemma LedColorBadModeKeepsColor(s: State, index: int, color: int, mode: int)
    requires WellShaped(s) && 0 <= index <= 7 && IsColorComponent(color) && !IsByte(mode)
    ensures var t := SetServoLedColor(s, index, color, Some(mode));
            t.payload.None? && t.state == s.(servoLedColors := s.servoLedColors[index := color])
  {
  }

  /** A wrong-length modes array is refused only after the new colours have been stored. */
  lemma RawLedsBadModesKeepColors(s: State, colors: seq<int>, modes: seq<int>, lastByte: int)
    requires WellShaped(s) && |colors| == 8 && |modes| != 8
    ensures var t := SetAllServoLedsRaw(s, colors, Some(modes), lastByte);
            t.payload.None? && t.state == s.(servoLedColors := colors)
  {
  }

  /** The raw setter accepts a position outside 0..255 into the state; the
      payload it then builds holds that value and so cannot be framed. */
  lemma RawServosAcceptOutOfRange(s: State, positions: seq<int>, modes: Option<seq<int>>, foot: Option<int>, k: int)
    requires WellShaped(s) && |positions| == 8 && (modes.None? || |modes.value| == 8)
    requires 0 <= k < 8 && !IsByte(positions[k])
    ensures var t := SetAllServosRaw(s, positions, modes, foot);
            && t.state.servoPositions == positions && !InRange(t.state)
            && t.payload.Some? && Frame(t.payload.value) == Err(ByteRangeError)
  {
    var t := SetAllServosRaw(s, positions, modes, foot);
    assert t.payload.value[1 + k] == positions[k];
  }

  /** The eye and servo groups are independent: setting one and then the other
      ends in the same state in either order. */
  lemma EyesAndServosCommute(s: State, index: int, position: int, r: int, g: int, b: int)
    requires WellShaped(s)
    ensures SetEyeColor(SetServoPosition(s, index, position).state, r, g, b).state
         == SetServoPosition(SetEyeColor(s, r, g, b).state, index, position).state
  {
  }

  /** Setting a servo twice to the same position is the same as setting it once. */
  lemma SetServoPositionIdempotent(s: State, index: int, position: int)
    requires WellShaped(s)
    ensures var once := SetServoPosition(s, index, position);
            SetServoPosition(once.state, index, position) == once
  {
    var once := SetServoPosition(s, index, position);
    if once.payload.Some? {
      assert once.state.servoPositions[index := Reverse(index, position)] == once.state.servoPositions;
    }
  }

  /** The setters that validate their input. */
  datatype Command =
    | ServoPosition(index: int, position: int)
    | EyeColor(r: int, g: int, b: int)
    | ServoLedColor(index: int, color: int, mode: Option<int>)
    | ChestLed(index: int, status: int)

  function Apply(s: State, c: Command): (t: Step)
    requires WellShaped(s)
    ensures WellShaped(t.state)
  {
    match c
    case ServoPosition(index, position) => SetServoPosition(s, index, position)
    case EyeColor(r, g, b) => SetEyeColor(s, r, g, b)
    case ServoLedColor(index, color, mode) => SetServoLedColor(s, index, color, mode)
    case ChestLed(index, status) => SetChestLed(s, index, status)
  }

  function Run(s: State, cs: seq<Command>): (t: State)
    requires WellShaped(s)
    ensures WellShaped(t)
    decreases |cs|
  {
    if cs == [] then s else Run(Apply(s, cs[0]).state, cs[1..])
  }

  /** A session made only of validated setters, refused calls included, keeps
      every value inside its declared range after every call. */
  lemma {:induction false} ValidatedSessionStaysInRange(s: State, cs: seq<Command>)
    requires InRange(s)
    ensures InRange(Run(s, cs))
    ensures forall i :: 0 <= i < |cs| ==> InRange(Run(s, cs[..i]))
    decreases |cs|
  {
    if cs != [] {
      var t := Apply(s, cs[0]);
      ValidatedSessionStaysInRange(t.state, cs[1..]);
      forall i | 0 <= i < |cs| ensures InRange(Run(s, cs[..i])) {
        if i > 0 {
          assert cs[..i][1..] == cs[1..][..i - 1];
        }
      }
    }
  }
}
