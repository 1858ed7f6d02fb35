/**
 The extended interactive servo test: a line of 4 or 8 integers sets servo
 slots 0..3 or 0..7 of an otherwise default 8-slot array (values outside
 0..255 are only warned about), 't' sends the default array, and before
 sending, every mirrored slot that is not at the default is reversed once.
 The array is then sent verbatim, so the reversal is not applied again.
 */
module ExtendedServoTest {
  import opened Protocol
  import RobotState
  import Robot

  /** The default servo position: the centre. */
  const DefaultServoPos: int := CenterPosition

  /** One line of input, as classified: quit, the 't' shortcut, a list of
      integers, or text the integer conversion refuses. */
  datatype Command = Quit | TPose | Numbers(values: seq<int>) | NotIntegers

  /** Only 4 or 8 values are accepted; they fill the first slots of a default array. */
  method FillPositions(values: seq<int>) returns (r: Option<seq<int>>)
    ensures r.None? <==> |values| != 4 && |values| != 8
    ensures r.Some? ==> |r.value| == 8
    ensures r.Some? ==> forall i :: 0 <= i < |values| ==> r.value[i] == values[i]
    ensures r.Some? ==> forall i :: |values| <= i < 8 ==> r.value[i] == DefaultServoPos
  {
    if |values| != 4 && |values| != 8 {
      return None;
    }
    var positions := seq(8, _ => DefaultServoPos);
    for i := 0 to |values|
      invariant |positions| == 8
      invariant forall j :: 0 <= j < i ==> positions[j] == values[j]
      invariant forall j :: i <= j < 8 ==> positions[j] == DefaultServoPos
    {
      positions := positions[i := values[i]];
    }
    return Some(positions);
  }

  /** The reversal pass: each slot is rewritten by the reversal rule, so only
      mirrored slots away from the default change, to 0xFF minus their value. */
  method ApplyReversal(positions: seq<int>) returns (sent: seq<int>)
    ensures |sent| == |positions|
    ensures forall i :: 0 <= i < |positions| ==> sent[i] == Reverse(i, positions[i])
    ensures forall i :: 0 <= i < |positions| ==>
              (sent[i] != positions[i] <==> i in ReversedServoIndices && positions[i] != DefaultServoPos)
  {
    sent := positions;
    for i := 0 to |sent|
      invariant |sent| == |positions|
      invariant forall j :: 0 <= j < i ==> sent[j] == Reverse(j, positions[j])
      invariant forall j :: i <= j < |sent| ==> sent[j] == positions[j]
    {
      var value := sent[i];
      if i in ReversedServoIndices && value != DefaultServoPos {
        sent := sent[i := 0xFF - value];
      }
    }
  }

  /** One pass of the interactive loop. Quitting, input that is not integers
      and a count other than 4 or 8 send nothing; otherwise the filled and
      reversed array becomes the servo positions and is sent. */
  method Iteration(robot: Robot.RobotControl, command: Command, link: Link)
    returns (quit: bool, sent: Option<Transmission>)
    requires robot.Valid()
    modifies robot
    ensures robot.Valid()
    ensures quit <==> command.Quit?
    ensures sent.None? <==> command.Quit? || command.NotIntegers? ||
                            (command.Numbers? && |command.values| != 4 && |command.values| != 8)
    ensures sent.None? ==> robot.Abs() == old(robot.Abs())
    ensures sent.Some? ==>
              && |robot.servoPositions| == 8
              && robot.Abs() == old(robot.Abs()).(servoPositions := robot.servoPositions)
              && sent.value == SendCommand(link, EncodeGroup(RobotState.ServoGroup(robot.Abs())))
    ensures sent.Some? && command.TPose? ==> robot.servoPositions == seq(8, _ => DefaultServoPos)
    ensures sent.Some? && command.Numbers? ==>
              && (forall i :: 0 <= i < |command.values| ==>
                    robot.servoPositions[i] == Reverse(i, command.values[i]))
              && (forall i :: |command.values| <= i < 8 ==> robot.servoPositions[i] == DefaultServoPos)
  {
    quit := false;
    var requested: seq<int>;
    match command {
      case Quit =>
        return true, None;
      case NotIntegers =>
        return false, None;
      case TPose =>
        requested := seq(8, _ => DefaultServoPos);
      case Numbers(values) =>
        var filled := FillPositions(values);
        if filled.None? {
          return false, None;
        }
        requested := filled.value;
    }
    var positions := ApplyReversal(requested);
    var r := robot.SetAllServosRaw(positions, None, None, link);
    sent := Some(r);
  }
}
