# BipolarPulse pseudo-motor controller in Dafny

This project models a Sardana pseudo-motor controller called `BipolarPulse`. It
lets an operator set a symmetric bipolar pulse through three logical (pseudo)
axes: `Delay`, `Width` and `Amplitude`. The pulse generator itself has two
channels, so these map onto eight physical axes, in this order:
`ch1_delay, ch2_delay, ch1_width, ch2_width, ch1_low, ch2_low, ch1_high, ch2_high`.

The controller has two directions:

- `CalcPhysical` is the forward map. It gives the target of one physical axis
  for a pseudo position.
- `CalcPseudo` is the inverse map. It derives one pseudo axis from the physical
  positions, and it reads only channel 1's delay, width and high level.

Values are modelled as `real`. The arithmetic is only `+`, halving and doubling,
so the round trip holds exactly.

Files:

- `bipolar_pulse.dfy` (module `BipolarPulse`) holds the following:
  - the two role tuples;
  - a named enumeration of the physical roles (`Channel`, `Setting`,
    `PhysicalRole`), with its mapping to and from positions;
  - the error type;
  - the two per-axis maps.
- `axis_vectors.dfy` (module `AxisVectors`) assembles whole vectors from the
  per-axis maps. It assumes the caller passes the 0-based indices 0 .. n - 1
  in order, as the per-branch comments of the controller number them, and it
  stops at the first failure.
- `pulse_laws.dfy` (module `PulseLaws`) proves the following:
  - the forward map follows the pulse described in the class documentation;
  - the two channels are symmetric;
  - the inverse map reads channel 1's delay, width and twice its high level;
  - the inverse map is insensitive to everything except positions 0, 2 and 6;
  - the current positions passed in are ignored;
  - both round trips hold;
  - the worked example comes out as expected.

Errors are results, not preconditions. In Python, an index that matches no
branch leaves `ret` unbound. The call then raises `UnboundLocalError`, either
at the debug log in `CalcPhysical` or at `return ret` in `CalcPseudo`. The
model returns `Err(InvalidAxisIndex(index))` in that case. Inputs of the wrong
length are also errors, because the Python would raise on them:

- If `pseudo_pos` does not unpack into three values, the model returns
  `PseudoArityMismatch`. This check comes first, before the index is examined,
  because that is where the Python unpacks.
- If the inverse map reads a physical position past the end of the vector, the
  model returns `PhysicalPositionMissing`. Only the one position the requested
  index reads has to exist.

Line 46 unpacks `pseudo_pos` before any branch is taken. A malformed pseudo
position therefore fails even for the low-level indices 4 and 5, so
`LowLevelsIgnorePseudo` states that those axes are 0 for every three-value
pseudo position.

## Model

| member | source | states |
|---|---|---|
| BipolarPulse.RoleIndex | sardana-BipolarPulsePseudoMotorCtrl.py:38-39 | every physical role has a position inside the eight declared motor roles, and channel 1 roles sit at even positions, channel 2 roles at odd ones |
| BipolarPulse.RoleAt | sardana-BipolarPulsePseudoMotorCtrl.py:38-39 | every declared motor-role position names a role that maps back to that same position |
| BipolarPulse.CalcPhysical | sardana-BipolarPulsePseudoMotorCtrl.py:45-60 | a value exists exactly when the pseudo position has three components and the index is 0..7; a malformed pseudo position fails with an arity error before the index is looked at; otherwise an out-of-range index fails with InvalidAxisIndex carrying that index |
| BipolarPulse.PositionAt | sardana-BipolarPulsePseudoMotorCtrl.py:64-68 | reading physical position k gives that position's value exactly when k lies inside the vector, and otherwise fails with a missing-position error naming k, as Python's list indexing raises |
| BipolarPulse.CalcPseudo | sardana-BipolarPulsePseudoMotorCtrl.py:62-69 | any index outside 0..2 fails with InvalidAxisIndex carrying the index; a full eight-position vector always yields a value for 0..2; the only other failure is a read past the end of a short vector |
| AxisVectors.Collect | sardana-BipolarPulsePseudoMotorCtrl.py:45-69 | assuming 0-based indices passed in order, assembling one value per axis index succeeds exactly when every per-axis call succeeds, keeps the values in index order, and otherwise reports the failure of the lowest failing index |
| AxisVectors.ForwardVector | sardana-BipolarPulsePseudoMotorCtrl.py:45-60 | all eight physical targets are produced exactly when the pseudo position has three components; the only possible failure is the arity error |
| AxisVectors.InverseVector | sardana-BipolarPulsePseudoMotorCtrl.py:62-69 | all three pseudo values are produced exactly when the physical vector reaches position 6; every failure is a missing physical position |
| PulseLaws.RolesMatchDeclaration | sardana-BipolarPulsePseudoMotorCtrl.py:38-39 | the named role enumeration is a bijection onto the declared tuple: each role's position holds its own name (`ch1_delay` ... `ch2_high`), and position and role convert back and forth |
| PulseLaws.ForwardFollowsDocumentedPulse | sardana-BipolarPulsePseudoMotorCtrl.py:23-28 | each physical axis gets its role's documented setting: ch1 delay = Delay, ch2 delay = Delay + Width, both widths = Width, both lows = 0, both highs = Amplitude / 2 (any sign of Amplitude, no range check) |
| PulseLaws.LowLevelsIgnorePseudo | sardana-BipolarPulsePseudoMotorCtrl.py:53-54 | both low-level axes are 0 for every well-formed pseudo position and every current position |
| PulseLaws.CurrentPositionsIgnored | sardana-BipolarPulsePseudoMotorCtrl.py:45-69 | neither map depends on the current position vector it is passed |
| PulseLaws.ForwardIsChannelSymmetric | sardana-BipolarPulsePseudoMotorCtrl.py:47-56 | the full forward vector is channel consistent: ch2 delay minus ch1 delay is Width, the widths are equal, both lows are 0, the highs are equal, and twice the high level is Amplitude |
| PulseLaws.InverseFollowsChannelOne | sardana-BipolarPulsePseudoMotorCtrl.py:63-68 | for every physical vector long enough to hold ch1_high (length 7 or more), Delay is ch1_delay, Width is ch1_width and Amplitude is twice ch1_high, and the whole read-back is exactly that triple |
| PulseLaws.InverseReadsOnlyChannelOne | sardana-BipolarPulsePseudoMotorCtrl.py:63-68 | two physical vectors that agree at positions 0, 2 and 6, and that both hold or both lack each of those positions, give the same result for every index, whatever the current pseudo positions |
| PulseLaws.InverseIgnoresChannelTwoAndLows | sardana-BipolarPulsePseudoMotorCtrl.py:63-68 | overwriting ch2 delay, ch2 width, either low or ch2 high leaves every pseudo value unchanged, so channel 2 drift goes undetected |
| PulseLaws.RoundTrip | sardana-BipolarPulsePseudoMotorCtrl.py:45-69 | the eight targets computed for any (Delay, Width, Amplitude) give back each component through the inverse map, and the whole pseudo position |
| PulseLaws.ReconstructionIffConsistent | sardana-BipolarPulsePseudoMotorCtrl.py:45-69 | reading a physical vector back and recomputing it reproduces the vector if and only if it is channel consistent; any other vector is silently replaced |
| PulseLaws.WorkedExample | sardana-BipolarPulsePseudoMotorCtrl.py:45-69 | (10, 5, 20) maps to [10, 15, 5, 5, 0, 0, 10, 10], and that vector reads back as (10, 5, 20) |
| PulseLaws.FirstIndexPastRolesFails | sardana-BipolarPulsePseudoMotorCtrl.py:47-69 | the worked error cases: index 8 in the forward map and index 3 in the inverse map produce InvalidAxisIndex, not a value |

## Left out

- The `PseudoMotorController` base class, its import and the constructor `__init__` (lines 9 and 41-43) are host framework plumbing, and the framework is not part of this model. The whole-vector assembly in `AxisVectors` stands in for a caller of the per-axis maps.
- Debug logging (lines 43 and 58-59) is I/O with no effect on the result. The model still fails at the point where the unbound `ret` would be used.
- The descriptive metadata `gender`, `model` and `organization` (lines 33-35) is not modelled.
- IEEE-754 float behaviour, such as overflow in `delay + width` or precision lost when halving and doubling, is not modelled. Values are exact `real`s.
- The type of `ret = 0` is not modelled. In Python it is the integer 0 while the other branches give floats; the model uses `0.0`.
- Non-integer indices and Python's other dynamic typing cases are not modelled. The index is an `int`.
- The analogue wiring, in which channel 2's complement output forms the negative lobe (line 30), and the resulting waveform are not modelled. Only the eight settings are.
- The caller's index convention is not modelled. The whole-vector assembly assumes 0-based indices 0 .. n - 1, as the branch comments at lines 47-56 and 63-67 number the roles. A caller that passes 1-based axis numbers instead would shift every role by one and would fail at the last physical axis.
- Hardware motion, limit checking and position readback belong to the host runtime and are not modelled.
