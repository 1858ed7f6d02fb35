/**
 The interactive arm test in its newer form: the four arm joints are entered
 by name, blank entries mean the centre, values outside 0..255 are replaced
 by 128, and the four values are placed at their physical servo slots in an
 otherwise centred 8-slot array, which is sent verbatim. An optional reset
 then sends the centred array.
 */
module NewFormatServoTest {
  import opened Protocol
  import RobotState
  import Robot

  datatype Joint = LShoulder | LElbow | RShoulder | RElbow

  /** The physical servo slot that drives each arm joint. */
  function ServoMap(j: Joint): (i: int)
    ensures 1 <= i <= 4
  {
    match j
    case LShoulder => 3
    case LElbow => 4
    case RShoulder => 2
    case RElbow => 1
  }

  /** The four joints go to four different slots, so writing one never overwrites another. */
  lemma ServoMapInjective(a: Joint, b: Joint)
    ensures ServoMap(a) == ServoMap(b) <==> a == b
  {
  }

  /** One line of keyboard input, after trimming: empty, a decimal integer, or
      something the integer conversion refuses. */
  datatype Entry = Blank | Numeral(n: int) | NotNumeric

  /** The value an entry stands for: a blank is the centre; text that is not a
      number has no value. */
  function EntryValue(e: Entry): Option<int>
  {
    match e
    case Blank => Some(CenterPosition)
    case Numeral(n) => Some(n)
    case NotNumeric => None
  }

  /** A joint value as validated: kept when it is a byte, otherwise 128. */
  function Clamped(v: int): (c: int)
    ensures IsByte(c) && (c == v || c == 128)
    ensures IsByte(v) ==> c == v
  {
    if 0 <= v <= 255 then v else 128
  }

  /** The validation loop over the four joints, each replaced by 128 when out of range. */
  method ValidateJoints(lsh: int, lel: int, rsh: int, rel: int) returns (lsh': int, lel': int, rsh': int, rel': int)
    ensures lsh' == Clamped(lsh) && lel' == Clamped(lel) && rsh' == Clamped(rsh) && rel' == Clamped(rel)
  {
    lsh', lel', rsh', rel' := lsh, lel, rsh, rel;
    var joints := [lsh, lel, rsh, rel];
    for k := 0 to 4
      invariant lsh' == (if k > 0 then Clamped(lsh) else lsh)
      invariant lel' == (if k > 1 then Clamped(lel) else lel)
      invariant rsh' == (if k > 2 then Clamped(rsh) else rsh)
      invariant rel' == (if k > 3 then Clamped(rel) else rel)
    {
      var val := joints[k];
      if !(0 <= val <= 255) {
        if k == 0 {
          lsh' := 128;
        } else if k == 1 {
          lel' := 128;
        } else if k == 2 {
          rsh' := 128;
        } else {
          rel' := 128;
        }
      }
    }
  }

  /** The 8-slot physical array for the four joint values. */
  predicate IsPhysicalArray(a: seq<int>, lsh: int, lel: int, rsh: int, rel: int)
  {
    && |a| == 8
    && a[ServoMap(LShoulder)] == lsh && a[ServoMap(LElbow)] == lel
    && a[ServoMap(RShoulder)] == rsh && a[ServoMap(RElbow)] == rel
    && a[0] == CenterPosition && a[5] == CenterPosition && a[6] == CenterPosition && a[7] == CenterPosition
  }

  method BuildPhysical(lsh: int, lel: int, rsh: int, rel: int) returns (a: seq<int>)
    ensures IsPhysicalArray(a, lsh, lel, rsh, rel)
    ensures a[3] == lsh && a[4] == lel && a[2] == rsh && a[1] == rel
    ensures IsByte(lsh) && IsByte(lel) && IsByte(rsh) && IsByte(rel) ==> AllBytes(a)
  {
    a := seq(8, _ => 0x80);
    a := a[ServoMap(LShoulder) := lsh];
    a := a[ServoMap(LElbow) := lel];
    a := a[ServoMap(RShoulder) := rsh];
    a := a[ServoMap(RElbow) := rel];
  }

  /** The array sent when the user chooses to reset. */
  const ResetPositions: seq<int> := seq(8, _ => CenterPosition)

  /** Sends a full position array with the LED modes and foot byte left as they are. */
  method SendServoPositions(robot: Robot.RobotControl, positions: seq<int>, link: Link) returns (r: Transmission)
    requires robot.Valid() && |positions| == 8
    modifies robot
    ensures robot.Valid()
    ensures robot.Abs() == old(robot.Abs()).(servoPositions := positions)
    ensures r == SendCommand(link, EncodeGroup(RobotState.ServoGroup(robot.Abs())))
    ensures RobotState.InRange(old(robot.Abs())) && AllBytes(positions) ==>
              RobotState.InRange(robot.Abs()) && Frame(EncodeGroup(RobotState.ServoGroup(robot.Abs()))).Ok?
  {
    r := robot.SetAllServosRaw(positions, None, None, link);
  }

  /** What a joint's slot holds after a pass, by the kind of entry typed for it:
      a blank is the centre, a number in 0..255 is kept, any other number is 128. */
  predicate SlotHoldsEntry(e: Entry, x: int)
  {
    && (e.Blank? ==> x == CenterPosition)
    && (e.Numeral? && IsByte(e.n) ==> x == e.n)
    && (e.Numeral? && !IsByte(e.n) ==> x == 128)
  }

  /** Defaulting followed by validation puts the entry's value in the slot as described above. */
  lemma DefaultThenClamp(e: Entry)
    requires !e.NotNumeric?
    ensures SlotHoldsEntry(e, Clamped(EntryValue(e).value))
  {
  }

  /** Every entry of a pass converts to a number; otherwise the pass stops. */
  predicate AllNumeric(lshIn: Entry, lelIn: Entry, rshIn: Entry, relIn: Entry)
  {
    !lshIn.NotNumeric? && !lelIn.NotNumeric? && !rshIn.NotNumeric? && !relIn.NotNumeric?
  }

  /** The input half of a pass: default, validate and place the four entries. */
  method ReadPhysical(lshIn: Entry, lelIn: Entry, rshIn: Entry, relIn: Entry) returns (physical: seq<int>)
    requires AllNumeric(lshIn, lelIn, rshIn, relIn)
    ensures IsPhysicalArray(physical,
                            Clamped(EntryValue(lshIn).value), Clamped(EntryValue(lelIn).value),
                            Clamped(EntryValue(rshIn).value), Clamped(EntryValue(relIn).value))
    ensures && SlotHoldsEntry(lshIn, physical[ServoMap(LShoulder)])
            && SlotHoldsEntry(lelIn, physical[ServoMap(LElbow)])
            && SlotHoldsEntry(rshIn, physical[ServoMap(RShoulder)])
            && SlotHoldsEntry(relIn, physical[ServoMap(RElbow)])
    ensures AllBytes(physical)
  {
    var lsh, lel, rsh, rel := EntryValue(lshIn).value, EntryValue(lelIn).value,
                              EntryValue(rshIn).value, EntryValue(relIn).value;
    lsh, lel, rsh, rel := ValidateJoints(lsh, lel, rsh, rel);
    physical := BuildPhysical(lsh, lel, rsh, rel);
    DefaultThenClamp(lshIn);
    DefaultThenClamp(lelIn);
    DefaultThenClamp(rshIn);
    DefaultThenClamp(relIn);
  }

  /** One pass of the interactive loop: read four entries, validate, send the
      physical array, and send the centred array as well when reset is chosen.
      An entry that is not a number ends the pass before anything is sent. */
  method Iteration(robot: Robot.RobotControl, lshIn: Entry, lelIn: Entry, rshIn: Entry, relIn: Entry,
                   reset: bool, link: Link)
    returns (physical: seq<int>, sent: seq<Transmission>)
    requires robot.Valid()
    modifies robot
    ensures robot.Valid()
    ensures !AllNumeric(lshIn, lelIn, rshIn, relIn) ==> sent == [] && robot.Abs() == old(robot.Abs())
    ensures AllNumeric(lshIn, lelIn, rshIn, relIn) ==>
              IsPhysicalArray(physical,
                              Clamped(EntryValue(lshIn).value), Clamped(EntryValue(lelIn).value),
                              Clamped(EntryValue(rshIn).value), Clamped(EntryValue(relIn).value))
    ensures AllNumeric(lshIn, lelIn, rshIn, relIn) ==>
              && SlotHoldsEntry(lshIn, physical[ServoMap(LShoulder)])
              && SlotHoldsEntry(lelIn, physical[ServoMap(LElbow)])
              && SlotHoldsEntry(rshIn, physical[ServoMap(RShoulder)])
              && SlotHoldsEntry(relIn, physical[ServoMap(RElbow)])
    ensures AllNumeric(lshIn, lelIn, rshIn, relIn) ==>
              && |sent| == (if reset then 2 else 1)
              && robot.servoPositions == (if reset then ResetPositions else physical)
              && AllBytes(robot.servoPositions)
              && robot.Abs() == old(robot.Abs()).(servoPositions := robot.servoPositions)
    ensures AllNumeric(lshIn, lelIn, rshIn, relIn) ==>
              && sent[0] == SendCommand(link, EncodeGroup(Group(ServoCommand, physical, old(robot.servoLedModes),
                                                                old(robot.footLedsByte))))
              && sent[|sent| - 1] == SendCommand(link, EncodeGroup(RobotState.ServoGroup(robot.Abs())))
    ensures AllNumeric(lshIn, lelIn, rshIn, relIn) && RobotState.InRange(old(robot.Abs())) && link.connected ==>
              sent[0].packet.Some? && sent[|sent| - 1].packet.Some?
  {
    if !AllNumeric(lshIn, lelIn, rshIn, relIn) {
      return [], [];
    }
    physical := ReadPhysical(lshIn, lelIn, rshIn, relIn);
    var first := SendServoPositions(robot, physical, link);
    sent := [first];
    if reset {
      assert AllBytes(ResetPositions);
      var second := SendServoPositions(robot, ResetPositions, link);
      sent := sent + [second];
    }
  }
}
