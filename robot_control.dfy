/**
 The robot controller: an object that remembers the last output state it
 encoded and, on every setter, validates its input, updates that state in
 place and re-sends the whole command group. The link to the robot is a
 parameter of each call; the state is updated whether or not the write then
 succeeds.
 */
module Robot {
  import opened Protocol
  import RobotState

  /** A setter's outcome: a refused input sends nothing, otherwise the payload is sent. */
  function Transmit(link: Link, payload: Option<seq<int>>): Transmission
  {
    match payload
    case None => Transmission(false, None)
    case Some(p) => SendCommand(link, p)
  }

  class RobotControl {
    const deviceAddress: string
    var servoPositions: seq<int>
    var servoLedModes: seq<int>
    var servoLedColors: seq<int>
    var footLedsByte: int
    var chestLedStatus: seq<int>
    var eyeR: int
    var eyeG: int
    var eyeB: int

    /** The remembered state as a value. */
    ghost function Abs(): RobotState.State
      reads this
    {
      RobotState.State(servoPositions, servoLedModes, servoLedColors, footLedsByte,
                       chestLedStatus, eyeR, eyeG, eyeB)
    }

    ghost predicate Valid()
      reads this
    {
      RobotState.WellShaped(Abs())
    }

    constructor (deviceAddress: string)
      ensures Valid() && Abs() == RobotState.Initial && RobotState.InRange(Abs())
      ensures this.deviceAddress == deviceAddress
    {
      this.deviceAddress := deviceAddress;
      servoPositions := seq(8, _ => CenterPosition);
      servoLedModes := seq(8, _ => RobotState.DefaultLedMode);
      servoLedColors := seq(8, _ => 0);
      footLedsByte := RobotState.DefaultFootLeds;
      chestLedStatus := seq(4, _ => 0);
      eyeR, eyeG, eyeB := 0, 0, 0;
    }

    /** The wake-up command: a fixed packet that touches no state. */
    method InitializeRobot(link: Link) returns (r: Transmission)
      ensures r.packet.Some? <==> link.connected
      ensures r.packet.Some? ==> r.packet.value == HandshakePacket
      ensures r.ok <==> link.connected && link.writeSucceeds
    {
      HandshakeFrame();
      r := SendCommand(link, HandshakePayload);
    }

    method SetServoPosition(index: int, position: int, link: Link) returns (r: Transmission)
      requires Valid()
      modifies this
      ensures Valid()
      ensures Abs() == RobotState.SetServoPosition(old(Abs()), index, position).state
      ensures r == Transmit(link, RobotState.SetServoPosition(old(Abs()), index, position).payload)
    {
      if !(0 <= index <= 7) {
        return Transmission(false, None);
      }
      if !(0 <= position <= 255) {
        return Transmission(false, None);
      }
      var actual := position;
      if index in ReversedServoIndices && position != CenterPosition {
        actual := 0xFF - position;
      }
      servoPositions := servoPositions[index := actual];
      var payload := [ServoCommand] + servoPositions + servoLedModes + [footLedsByte];
      r := SendCommand(link, payload);
    }

    method SetAllServosRaw(positions: seq<int>, modes: Option<seq<int>>, foot: Option<int>, link: Link)
      returns (r: Transmission)
      requires Valid()
      modifies this
      ensures Valid()
      ensures Abs() == RobotState.SetAllServosRaw(old(Abs()), positions, modes, foot).state
      ensures r == Transmit(link, RobotState.SetAllServosRaw(old(Abs()), positions, modes, foot).payload)
    {
      if |positions| != 8 {
        return Transmission(false, None);
      }
      servoPositions := positions;
      if modes.Some? {
        if |modes.value| != 8 {
          return Transmission(false, None);
        }
        servoLedModes := modes.value;
      }
      if foot.Some? {
        footLedsByte := foot.value;
      }
      var payload := [ServoCommand] + servoPositions + servoLedModes + [footLedsByte];
      r := SendCommand(link, payload);
    }

    method SetEyeColor(r: int, g: int, b: int, link: Link) returns (sent: Transmission)
      requires Valid()
      modifies this
      ensures Valid()
      ensures Abs() == RobotState.SetEyeColor(old(Abs()), r, g, b).state
      ensures sent == Transmit(link, RobotState.SetEyeColor(old(Abs()), r, g, b).payload)
    {
      if !(0 <= r <= 7 && 0 <= g <= 7 && 0 <= b <= 7) {
        return Transmission(false, None);
      }
      eyeR, eyeG, eyeB := r, g, b;
      var payload := seq(18, _ => 0);
      payload := payload[0 := EyeCommand];
      payload := payload[3 := PackEye(r, g)];
      payload := payload[4 := b];
      assert payload == EyePayload(r, g, b);
      sent := SendCommand(link, payload);
    }

    method SetServoLedColor(index: int, color: int, mode: Option<int>, link: Link) returns (r: Transmission)
      requires Valid()
      modifies this
      ensures Valid()
      ensures Abs() == RobotState.SetServoLedColor(old(Abs()), index, color, mode).state
      ensures r == Transmit(link, RobotState.SetServoLedColor(old(Abs()), index, color, mode).payload)
    {
      if !(0 <= index <= 7) {
        return Transmission(false, None);
      }
      if !(0 <= color <= 7) {
        return Transmission(false, None);
      }
      servoLedColors := servoLedColors[index := color];
      if mode.Some? {
        if !(0 <= mode.value <= 255) {
          return Transmission(false, None);
        }
        servoLedModes := servoLedModes[index := mode.value];
      }
      var payload := [ServoLedCommand] + servoLedColors + servoLedModes + [0x00];
      r := SendCommand(link, payload);
    }

    method SetAllServoLedsRaw(colors: seq<int>, modes: Option<seq<int>>, lastByte: int, link: Link)
      returns (r: Transmission)
      requires Valid()
      modifies this
      ensures Valid()
      ensures Abs() == RobotState.SetAllServoLedsRaw(old(Abs()), colors, modes, lastByte).state
      ensures r == Transmit(link, RobotState.SetAllServoLedsRaw(old(Abs()), colors, modes, lastByte).payload)
    {
      if |colors| != 8 {
        return Transmission(false, None);
      }
      servoLedColors := colors;
      if modes.Some? {
        if |modes.value| != 8 {
          return Transmission(false, None);
        }
        servoLedModes := modes.value;
      }
      var payload := [ServoLedCommand] + servoLedColors + servoLedModes + [lastByte];
      r := SendCommand(link, payload);
    }

    method SetChestLed(index: int, status: int, link: Link) returns (r: Transmission)
      requires Valid()
      modifies this
      ensures Valid()
      ensures Abs() == RobotState.SetChestLed(old(Abs()), index, status).state
      ensures r == Transmit(link, RobotState.SetChestLed(old(Abs()), index, status).payload)
    {
      if !(0 <= index <= 3) {
        return Transmission(false, None);
      }
      if !(status == 0 || status == 1) {
        return Transmission(false, None);
      }
      chestLedStatus := chestLedStatus[index := status];
      var payload := seq(18, _ => 0);
      payload := payload[0 := ChestCommand];
      for i := 0 to 4
        invariant |payload| == PayloadLength && payload[0] == ChestCommand
        invariant forall j :: 1 <= j <= i ==> payload[j] == chestLedStatus[j - 1]
        invariant forall j :: i < j < PayloadLength ==> payload[j] == 0
      {
        payload := payload[i + 1 := chestLedStatus[i]];
      }
      assert payload == ChestPayload(chestLedStatus);
      r := SendCommand(link, payload);
    }
  }
}
