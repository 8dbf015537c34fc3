/**
 The BipolarPulse pseudo-motor controller: three logical axes (Delay, Width,
 Amplitude) mapped onto the eight physical axes of a two-channel pulse
 generator, and back.

 Both directions are pure functions of an axis index and a position vector.
 Where the controller would raise instead of returning (an index that matches
 no branch, a vector of the wrong length), the model returns `Err`.
 */
module BipolarPulse {

  /** Pseudo (logical) axes, in the order the controller declares them. */
  const PseudoMotorRoles: seq<string> := ["Delay", "Width", "Amplitude"]

  /** Physical axes, in the order the controller declares them. */
  const MotorRoles: seq<string> :=
    ["ch1_delay", "ch2_delay", "ch1_width", "ch2_width",
     "ch1_low", "ch2_low", "ch1_high", "ch2_high"]

  /** The two output channels of the pulse generator. */
  datatype Channel = Ch1 | Ch2

  /** What a physical axis sets on its channel. */
  datatype Setting = Delay | Width | Low | High

  /** A physical axis named by its meaning instead of its position. */
  datatype PhysicalRole = PhysicalRole(channel: Channel, setting: Setting)

  /** Position of a role in `MotorRoles`: settings in pairs, channel 1 first. */
  function RoleIndex(role: PhysicalRole): (i: nat)
    ensures i < |MotorRoles|
    ensures (i % 2 == 0) <==> role.channel == Ch1
  {
    var s := match role.setting
      case Delay => 0
      case Width => 1
      case Low => 2
      case High => 3;
    var c := if role.channel == Ch1 then 0 else 1;
    2 * s + c
  }

  /** The role declared at position `index` of `MotorRoles`. */
  function RoleAt(index: nat): (role: PhysicalRole)
    requires index < |MotorRoles|
    ensures RoleIndex(role) == index
  {
    var channel := if index % 2 == 0 then Ch1 else Ch2;
    var setting := match index / 2
      case 0 => Delay
      case 1 => Width
      case 2 => Low
      case _ => High;
    PhysicalRole(channel, setting)
  }

  /** The name under which the controller declares a physical role. */
  function RoleName(role: PhysicalRole): string
  {
    var channel := if role.channel == Ch1 then "ch1" else "ch2";
    var setting := match role.setting
      case Delay => "delay"
      case Width => "width"
      case Low => "low"
      case High => "high";
    channel + "_" + setting
  }

  /** Why a call produces no value. */
  datatype Error =
      /** No branch matched the index, so the result was never bound. */
    | InvalidAxisIndex(index: int)
      /** The pseudo position did not unpack into exactly three values. */
    | PseudoArityMismatch(length: nat)
      /** A physical position read by the inverse map lies past the end of the vector. */
    | PhysicalPositionMissing(position: nat)

  datatype Result<+T> = Ok(value: T) | Err(error: Error)

  /**
   Forward map: the target of physical axis `index` for the pseudo position
   `pseudo` = [delay, width, amplitude]. The current physical position is
   accepted and ignored. The pseudo position is unpacked before the index is
   examined, so a malformed pseudo position is reported first.
   */
  function CalcPhysical(index: int, pseudo: seq<real>, currPhysical: seq<real>): (r: Result<real>)
    ensures r.Ok? <==> |pseudo| == |PseudoMotorRoles| && 0 <= index < |MotorRoles|
    ensures |pseudo| != |PseudoMotorRoles| ==> r == Err(PseudoArityMismatch(|pseudo|))
    ensures |pseudo| == |PseudoMotorRoles| && !(0 <= index < |MotorRoles|) ==>
              r == Err(InvalidAxisIndex(index))
  {
    if |pseudo| != 3 then Err(PseudoArityMismatch(|pseudo|))
    else
      var delay, width, amplitude := pseudo[0], pseudo[1], pseudo[2];
      if index == 0 then Ok(delay)
      else if index == 1 then Ok(delay + width)
      else if index == 2 || index == 3 then Ok(width)
      else if index == 4 || index == 5 then Ok(0.0)
      else if index == 6 || index == 7 then Ok(amplitude / 2.0)
      else Err(InvalidAxisIndex(index))
  }

  /** Reads position `k` of a physical vector, failing past its end. */
  function PositionAt(physical: seq<real>, k: nat): (r: Result<real>)
    ensures r.Ok? <==> k < |physical|
    ensures r.Ok? ==> r.value == physical[k]
    ensures r.Err? ==> r.error == PhysicalPositionMissing(k)
  {
    if k < |physical| then Ok(physical[k]) else Err(PhysicalPositionMissing(k))
  }

  /**
   Inverse map: pseudo axis `index` recovered from the physical vector. Only
   channel 1's delay, width and high level are read. The current pseudo
   position is accepted and ignored.
   */
  function CalcPseudo(index: int, physical: seq<real>, currPseudo: seq<real>): (r: Result<real>)
    ensures !(0 <= index < |PseudoMotorRoles|) ==> r == Err(InvalidAxisIndex(index))
    ensures |physical| == |MotorRoles| && 0 <= index < |PseudoMotorRoles| ==> r.Ok?
    ensures r.Err? && 0 <= index < |PseudoMotorRoles| ==>
              r.error.PhysicalPositionMissing? && r.error.position >= |physical|
  {
    if index == 0 then PositionAt(physical, 0)
    else if index == 1 then PositionAt(physical, 2)
    else if index == 2 then
      match PositionAt(physical, 6)
      case Ok(high) => Ok(2.0 * high)
      case Err(e) => Err(e)
    else Err(InvalidAxisIndex(index))
  }
}
