// The motor table of the robot and the constant-time lookup built from it.

module MotorMapping {
  import opened MotorCommand

  const ID_MAX := 128
  const BUS_MAX := 8
  const NOT_FOUND := 0xFF

  datatype MotorType = O0 | O2 | O3 | O4 | O5 | O6

  datatype Limits = Limits(
    pMin: real, pMax: real, vMin: real, vMax: real, kpMin: real, kpMax: real,
    kdMin: real, kdMax: real, tMin: real, tMax: real)
  {
    predicate Ordered() {
      pMin < pMax && vMin < vMax && kpMin < kpMax && kdMin < kdMax && tMin < tMax
    }

    predicate Symmetric() {
      && 0.0 < pMax == -pMin && 0.0 < vMax == -vMin && 0.0 < tMax == -tMin
      && kpMin == 0.0 < kpMax && kdMin == 0.0 < kdMax
    }
  }

  // motor_get_limits
  function LimitsOf(t: MotorType): (l: Limits)
    ensures l.Ordered()
  {
    match t
    case O0 => Limits(-12.5, 12.5, -33.0, 33.0, 0.0, 500.0, 0.0, 5.0, -14.0, 14.0)
    case O2 => Limits(-12.57, 12.57, -44.0, 44.0, 0.0, 500.0, 0.0, 5.0, -17.0, 17.0)
    case O3 => Limits(-12.57, 12.57, -20.0, 20.0, 0.0, 5000.0, 0.0, 100.0, -60.0, 60.0)
    case O4 => Limits(-12.57, 12.57, -15.0, 15.0, 0.0, 5000.0, 0.0, 100.0, -120.0, 120.0)
    case O5 => Limits(-12.57, 12.57, -50.0, 50.0, 0.0, 500.0, 0.0, 5.0, -5.5, 5.5)
    case O6 => Limits(-12.57, 12.57, -50.0, 50.0, 0.0, 5000.0, 0.0, 100.0, -36.0, 36.0)
  }

  datatype Config = Config(motorId: nat, canBus: nat, motorType: MotorType, direction: real, limits: Limits)

  function Motor(motorId: nat, canBus: nat, t: MotorType): Config {
    Config(motorId, canBus, t, 1.0, LimitsOf(t))
  }

  // motor_config_table
  function TableEntry(i: nat): Config
    requires i < NUM_MOTORS
  {
    match i
    case 0 => Motor(31, 5, O4)  // Left Hip Pitch
    case 1 => Motor(32, 5, O3)  // Left Hip Roll
    case 2 => Motor(33, 5, O3)  // Left Hip Yaw
    case 3 => Motor(34, 4, O4)  // Left Knee Pitch
    case 4 => Motor(36, 4, O6)  // Left Ankle Pitch (Down)
    case 5 => Motor(35, 4, O6)  // Left Ankle Roll (Up)
    case 6 => Motor(21, 2, O4)  // Right Hip Pitch
    case 7 => Motor(22, 2, O3)  // Right Hip Roll
    case 8 => Motor(23, 2, O3)  // Right Hip Yaw
    case 9 => Motor(24, 3, O4)  // Right Knee Pitch
    case 10 => Motor(26, 3, O6)  // Right Ankle Pitch (Down)
    case 11 => Motor(25, 3, O6)  // Right Ankle Roll (Up)
    case 12 => Motor(11, 2, O3)  // Waist Yaw
    case 13 => Motor(51, 6, O3)  // Left Shoulder Pitch
    case 14 => Motor(52, 6, O2)  // Left Shoulder Roll
    case 15 => Motor(53, 6, O2)  // Left Shoulder Yaw
    case 16 => Motor(54, 7, O2)  // Left Elbow Pitch
    case 17 => Motor(56, 7, O0)  // Left Wrist Yaw
    case 18 => Motor(41, 1, O3)  // Right Shoulder Pitch
    case 19 => Motor(42, 1, O2)  // Right Shoulder Roll
    case 20 => Motor(43, 1, O2)  // Right Shoulder Yaw
    case 21 => Motor(44, 0, O2)  // Right Elbow Pitch
    case 22 => Motor(46, 0, O0)  // Right Wrist Yaw
  }

  const MOTOR_TABLE: seq<Config> := seq(NUM_MOTORS, i requires 0 <= i < NUM_MOTORS => TableEntry(i))

  predicate InRange(c: Config) { c.motorId < ID_MAX && c.canBus < BUS_MAX }

  // What the code needs of a motor table
  ghost predicate TableOk(motors: seq<Config>) {
    |motors| == NUM_MOTORS && forall i | 0 <= i < |motors| :: InRange(motors[i]) && motors[i].limits.Ordered()
  }

  ghost predicate DistinctPairs(motors: seq<Config>) {
    forall i, j | 0 <= i < j < |motors| ::
      !(motors[i].motorId == motors[j].motorId && motors[i].canBus == motors[j].canBus)
  }

  // Which entry has a CAN id: every id occurs once
  function EntryOf(motorId: nat): nat {
    match motorId
    case 31 => 0
    case 32 => 1
    case 33 => 2
    case 34 => 3
    case 36 => 4
    case 35 => 5
    case 21 => 6
    case 22 => 7
    case 23 => 8
    case 24 => 9
    case 26 => 10
    case 25 => 11
    case 11 => 12
    case 51 => 13
    case 52 => 14
    case 53 => 15
    case 54 => 16
    case 56 => 17
    case 41 => 18
    case 42 => 19
    case 43 => 20
    case 44 => 21
    case _ => 22
  }

  lemma EntryIsKnown(i: nat)
    requires i < NUM_MOTORS
    ensures EntryOf(TableEntry(i).motorId) == i && InRange(TableEntry(i))
  {
  }

  lemma LimitsAreOrdered(i: nat)
    requires i < NUM_MOTORS
    ensures TableEntry(i).limits.Ordered() && TableEntry(i).limits == LimitsOf(TableEntry(i).motorType)
  {
  }

  // The motors have distinct ids, in range of the lookup, and sound limits
  lemma RobotTable()
    ensures TableOk(MOTOR_TABLE)
    ensures DistinctPairs(MOTOR_TABLE)
  {
    forall i: nat | i < NUM_MOTORS ensures EntryOf(MOTOR_TABLE[i].motorId) == i && InRange(MOTOR_TABLE[i]) {
      EntryIsKnown(i);
    }
    forall i: nat | i < NUM_MOTORS ensures MOTOR_TABLE[i].limits.Ordered() {
      LimitsAreOrdered(i);
    }
  }

  // The limits of every type are symmetric and its gains start at 0; the two gain
  // scales go together.
  lemma LimitsInNumbers(t: MotorType)
    ensures var l := LimitsOf(t);
            && l.Symmetric() && l.pMax == (if t.O0? then 12.5 else 12.57)
            && (l.vMax, l.tMax) == (match t
                                    case O0 => (33.0, 14.0)
                                    case O2 => (44.0, 17.0)
                                    case O3 => (20.0, 60.0)
                                    case O4 => (15.0, 120.0)
                                    case O5 => (50.0, 5.5)
                                    case O6 => (50.0, 36.0))
            && (l.kpMax, l.kdMax) == (if t.O3? || t.O4? || t.O6? then (5000.0, 100.0) else (500.0, 5.0))
  {
  }

  lemma RobotLimits(i: nat)
    requires i < NUM_MOTORS
    ensures MOTOR_TABLE[i].limits == LimitsOf(MOTOR_TABLE[i].motorType) && MOTOR_TABLE[i].direction == 1.0
  {
    LimitsAreOrdered(i);
  }

  // The CAN numbers in the order of the table
  const NUMBERS := [31, 32, 33, 34, 36, 35, 21, 22, 23, 24, 26, 25, 11, 51, 52, 53, 54, 56, 41, 42, 43, 44, 46]

  lemma RobotNumbers(i: nat)
    requires i < NUM_MOTORS
    ensures |NUMBERS| == NUM_MOTORS && MOTOR_TABLE[i].motorId == NUMBERS[i]
  {
  }

  // Which motor is where, by its CAN number: the tens digit is the limb, and the
  // upper half of a limb is on another bus than the lower.  A type belongs to a
  // joint, on both sides alike.
  lemma RobotByNumber(i: nat)
    requires i < NUM_MOTORS
    ensures var c := MOTOR_TABLE[i]; var limb, joint := c.motorId / 10, c.motorId % 10;
            && c.canBus == (match limb
                            case 1 => 2
                            case 2 => if joint <= 3 then 2 else 3
                            case 3 => if joint <= 3 then 5 else 4
                            case 4 => if joint <= 3 then 1 else 0
                            case _ => if joint <= 3 then 6 else 7)
            && c.motorType == (if limb == 1 then O3
                               else if limb <= 3 then
                                 if joint == 1 || joint == 4 then O4 else if joint <= 3 then O3 else O6
                               else if joint == 1 then O3 else if joint <= 4 then O2 else O0)
  {
  }

  // The right side repeats the left ten numbers lower
  lemma RobotIsSymmetric(i: nat)
    requires i < 6 || 13 <= i < 18
    ensures var left, right := MOTOR_TABLE[i], MOTOR_TABLE[if i < 6 then i + 6 else i + 5];
            right.motorId == left.motorId - 10 && right.motorType == left.motorType
  {
  }

  predicate Matches(c: Config, motorId: nat, canBus: nat) {
    c.motorId == motorId && c.canBus == canBus
  }

  // The linear search the lookup replaces: the first motor with this id and bus
  function Search(motors: seq<Config>, motorId: nat, canBus: nat, from: nat): int
    requires from <= |motors|
    decreases |motors| - from
  {
    if from == |motors| then NOT_FOUND
    else if Matches(motors[from], motorId, canBus) then from
    else Search(motors, motorId, canBus, from + 1)
  }

  lemma {:induction false} SearchFinds(motors: seq<Config>, motorId: nat, canBus: nat, from: nat)
    requires from <= |motors| <= NOT_FOUND
    ensures var r := Search(motors, motorId, canBus, from);
            if exists i :: from <= i < |motors| && Matches(motors[i], motorId, canBus) then
              from <= r < |motors| && Matches(motors[r], motorId, canBus)
            else r == NOT_FOUND
    decreases |motors| - from
  {
    if from < |motors| && !Matches(motors[from], motorId, canBus) {
      SearchFinds(motors, motorId, canBus, from + 1);
    }
  }

  // The latest of the first n motors with this id and bus
  function LastOf(motors: seq<Config>, n: nat, motorId: nat, canBus: nat): int
    requires n <= |motors|
  {
    if n == 0 then NOT_FOUND
    else if Matches(motors[n - 1], motorId, canBus) then n - 1
    else LastOf(motors, n - 1, motorId, canBus)
  }

  lemma {:induction false} LastIsMatch(motors: seq<Config>, n: nat, motorId: nat, canBus: nat)
    requires n <= |motors| <= NOT_FOUND
    ensures var r := LastOf(motors, n, motorId, canBus);
            if exists i :: 0 <= i < n && Matches(motors[i], motorId, canBus) then
              0 <= r < n && Matches(motors[r], motorId, canBus)
            else r == NOT_FOUND
  {
    if n > 0 && !Matches(motors[n - 1], motorId, canBus) {
      LastIsMatch(motors, n - 1, motorId, canBus);
    }
  }

  ghost predicate BuiltFrom(lookup: array2<int>, motors: seq<Config>)
    reads lookup
  {
    && lookup.Length0 == ID_MAX && lookup.Length1 == BUS_MAX
    && forall id, bus | 0 <= id < ID_MAX && 0 <= bus < BUS_MAX :: lookup[id, bus] == LastOf(motors, |motors|, id, bus)
  }

  // motor_mapping_init_core1, the two loops over g_motor_lookup
  method BuildLookup(motors: seq<Config>) returns (lookup: array2<int>)
    requires |motors| <= NOT_FOUND
    ensures fresh(lookup) && BuiltFrom(lookup, motors)
  {
    lookup := new int[ID_MAX, BUS_MAX];
    for id := 0 to ID_MAX
      invariant forall d, b | 0 <= d < id && 0 <= b < BUS_MAX :: lookup[d, b] == NOT_FOUND
    {
      for bus := 0 to BUS_MAX
        invariant forall d, b | 0 <= d < id && 0 <= b < BUS_MAX :: lookup[d, b] == NOT_FOUND
        invariant forall b | 0 <= b < bus :: lookup[id, b] == NOT_FOUND
      {
        lookup[id, bus] := NOT_FOUND;
      }
    }
    for i := 0 to |motors|
      invariant forall d, b | 0 <= d < ID_MAX && 0 <= b < BUS_MAX :: lookup[d, b] == LastOf(motors, i, d, b)
    {
      var motorId := motors[i].motorId;
      var canBus := motors[i].canBus;
      if motorId < ID_MAX && canBus < BUS_MAX {
        lookup[motorId, canBus] := i;
      }
    }
  }

  // The answer of a lookup built from `motors`
  function Answer(motors: seq<Config>, motorId: nat, canBus: nat): int {
    if motorId < ID_MAX && canBus < BUS_MAX then LastOf(motors, |motors|, motorId, canBus) else NOT_FOUND
  }

  // motor_get_index on a lookup built from a table
  method GetIndex(lookup: array2<int>, ghost motors: seq<Config>, motorId: nat, canBus: nat) returns (index: int)
    requires BuiltFrom(lookup, motors)
    ensures index == Answer(motors, motorId, canBus)
    ensures motorId >= 128 || canBus >= 8 ==> index == 255
  {
    if motorId < ID_MAX && canBus < BUS_MAX {
      return lookup[motorId, canBus];
    }
    return NOT_FOUND;
  }

  // For distinct in-range pairs the lookup agrees with linear search on every
  // query, and it inverts the table.
  lemma LookupIsSearch(motors: seq<Config>, motorId: nat, canBus: nat)
    requires |motors| <= NOT_FOUND && DistinctPairs(motors)
    requires forall i | 0 <= i < |motors| :: InRange(motors[i])
    ensures var r := Answer(motors, motorId, canBus);
            && r == Search(motors, motorId, canBus, 0)
            && if exists i :: 0 <= i < |motors| && motors[i].motorId == motorId && motors[i].canBus == canBus
               then 0 <= r < |motors| && motors[r].motorId == motorId && motors[r].canBus == canBus
               else r == 255
  {
    SearchFinds(motors, motorId, canBus, 0);
    LastIsMatch(motors, |motors|, motorId, canBus);
    assert forall i | 0 <= i < |motors| && motors[i].motorId == motorId && motors[i].canBus == canBus ::
        Matches(motors[i], motorId, canBus);
  }

  lemma LookupInvertsTable(motors: seq<Config>, i: nat)
    requires i < |motors| <= NOT_FOUND && DistinctPairs(motors) && InRange(motors[i])
    ensures Answer(motors, motors[i].motorId, motors[i].canBus) == i
  {
    assert Matches(motors[i], motors[i].motorId, motors[i].canBus);
    LastIsMatch(motors, |motors|, motors[i].motorId, motors[i].canBus);
  }

  // Where pairs repeat, it agrees with linear search exactly on the pairs that
  // do not: the later motor hides the earlier one.
  lemma LookupDiffersExactly(motors: seq<Config>, motorId: nat, canBus: nat)
    requires |motors| <= NOT_FOUND && motorId < ID_MAX && canBus < BUS_MAX
    ensures Answer(motors, motorId, canBus) == Search(motors, motorId, canBus, 0) <==>
            forall i, j | 0 <= i < j < |motors| ::
              !(Matches(motors[i], motorId, canBus) && Matches(motors[j], motorId, canBus))
  {
    SearchFinds(motors, motorId, canBus, 0);
    LastIsMatch(motors, |motors|, motorId, canBus);
    SearchIsFirst(motors, motorId, canBus, 0);
    LastIsLast(motors, |motors|, motorId, canBus);
  }

  lemma {:induction false} SearchIsFirst(motors: seq<Config>, motorId: nat, canBus: nat, from: nat)
    requires from <= |motors| <= NOT_FOUND
    ensures forall i | from <= i < |motors| && Matches(motors[i], motorId, canBus) ::
              Search(motors, motorId, canBus, from) <= i
    decreases |motors| - from
  {
    if from < |motors| { SearchIsFirst(motors, motorId, canBus, from + 1); }
  }

  lemma {:induction false} LastIsLast(motors: seq<Config>, n: nat, motorId: nat, canBus: nat)
    requires n <= |motors| <= NOT_FOUND
    ensures forall i | 0 <= i < n && Matches(motors[i], motorId, canBus) ::
              i <= LastOf(motors, n, motorId, canBus)
  {
    if n > 0 { LastIsLast(motors, n - 1, motorId, canBus); }
  }
}
