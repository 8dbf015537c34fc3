/**
 Properties of the bipolar pulse transform: the forward map against the pulse
 the controller documents, the symmetry of the two channels, what the inverse
 map does not read, and the round trips between the two directions.
 */
module PulseLaws {
  import opened BipolarPulse
  import opened AxisVectors

  /**
   The documented pulse, setting by setting: both channels share the width
   and a high level of half the amplitude, both lows are 0 V, and channel 2
   starts one width after channel 1.
   */
  function DocumentedSetting(role: PhysicalRole, delay: real, width: real, amplitude: real): real
  {
    match role.setting
    case Delay => if role.channel == Ch1 then delay else delay + width
    case Width => width
    case Low => 0.0
    case High => amplitude / 2.0
  }

  /**
   A physical vector as the forward map leaves it: channel 2 delayed by
   exactly the width, equal widths, both lows at 0, equal high levels.
   Positions follow `MotorRoles`.
   */
  predicate ChannelConsistent(v: seq<real>)
  {
    && |v| == |MotorRoles|
    && v[1] - v[0] == v[2]
    && v[3] == v[2]
    && v[4] == 0.0 && v[5] == 0.0
    && v[7] == v[6]
  }

  /** The role enumeration is a faithful renaming of the declared role tuple. */
  lemma RolesMatchDeclaration()
    ensures forall role :: MotorRoles[RoleIndex(role)] == RoleName(role)
    ensures forall role :: RoleAt(RoleIndex(role)) == role
  {
  }

  /** Each physical axis in range receives the documented setting of its role. */
  lemma ForwardFollowsDocumentedPulse(index: nat, pseudo: seq<real>, curr: seq<real>)
    requires |pseudo| == |PseudoMotorRoles| && index < |MotorRoles|
    ensures CalcPhysical(index, pseudo, curr) ==
            Ok(DocumentedSetting(RoleAt(index), pseudo[0], pseudo[1], pseudo[2]))
  {
  }

  /** The low levels are 0 whatever the pseudo position. */
  lemma LowLevelsIgnorePseudo(index: int, p: seq<real>, q: seq<real>, c1: seq<real>, c2: seq<real>)
    requires index == 4 || index == 5
    requires |p| == |PseudoMotorRoles| && |q| == |PseudoMotorRoles|
    ensures CalcPhysical(index, p, c1) == CalcPhysical(index, q, c2) == Ok(0.0)
  {
  }

  /** Neither direction depends on the current position it is handed. */
  lemma CurrentPositionsIgnored(index: int, pseudo: seq<real>, physical: seq<real>,
                                c1: seq<real>, c2: seq<real>)
    ensures CalcPhysical(index, pseudo, c1) == CalcPhysical(index, pseudo, c2)
    ensures CalcPseudo(index, physical, c1) == CalcPseudo(index, physical, c2)
  {
  }

  /** The full forward vector is channel-symmetric and carries width and amplitude. */
  lemma ForwardIsChannelSymmetric(pseudo: seq<real>, curr: seq<real>)
    requires |pseudo| == |PseudoMotorRoles|
    ensures ForwardVector(pseudo, curr).Ok?
    ensures ChannelConsistent(ForwardVector(pseudo, curr).value)
    ensures ForwardVector(pseudo, curr).value[1] - ForwardVector(pseudo, curr).value[0] == pseudo[1]
    ensures 2.0 * ForwardVector(pseudo, curr).value[6] == pseudo[2]
  {
  }

  /**
   The inverse rule table, keyed by role: Delay is channel 1's delay, Width is
   channel 1's width and Amplitude is twice channel 1's high level. It holds
   for every physical vector long enough to hold channel 1's high level.
   */
  lemma InverseFollowsChannelOne(v: seq<real>, curr: seq<real>)
    requires |v| > RoleIndex(PhysicalRole(Ch1, High))
    ensures CalcPseudo(0, v, curr) == Ok(v[RoleIndex(PhysicalRole(Ch1, Delay))])
    ensures CalcPseudo(1, v, curr) == Ok(v[RoleIndex(PhysicalRole(Ch1, Width))])
    ensures CalcPseudo(2, v, curr) == Ok(2.0 * v[RoleIndex(PhysicalRole(Ch1, High))])
    ensures InverseVector(v, curr) ==
            Ok([v[RoleIndex(PhysicalRole(Ch1, Delay))],
                v[RoleIndex(PhysicalRole(Ch1, Width))],
                2.0 * v[RoleIndex(PhysicalRole(Ch1, High))]])
  {
    var p := InverseVector(v, curr).value;
    assert CalcPseudo(0, v, curr) == Ok(p[0]);
    assert CalcPseudo(1, v, curr) == Ok(p[1]);
    assert CalcPseudo(2, v, curr) == Ok(p[2]);
    assert p == [v[0], v[2], 2.0 * v[6]];
  }

  /**
   The inverse map reads only positions 0, 2 and 6: two physical vectors
   that agree there, and that both hold or both lack each of those
   positions, give the same pseudo value.
   */
  lemma InverseReadsOnlyChannelOne(index: int, v: seq<real>, w: seq<real>, c1: seq<real>, c2: seq<real>)
    requires (|v| > 0) == (|w| > 0) && (|v| > 2) == (|w| > 2) && (|v| > 6) == (|w| > 6)
    requires |v| > 0 ==> v[0] == w[0]
    requires |v| > 2 ==> v[2] == w[2]
    requires |v| > 6 ==> v[6] == w[6]
    ensures CalcPseudo(index, v, c1) == CalcPseudo(index, w, c2)
  {
  }

  /**
   Moving channel 2 or either low level alone goes unnoticed by the inverse
   map: overwriting any other position leaves every pseudo value unchanged.
   */
  lemma InverseIgnoresChannelTwoAndLows(index: int, v: seq<real>, k: nat, x: real, curr: seq<real>)
    requires k < |v| && k != 0 && k != 2 && k != 6
    ensures CalcPseudo(index, v[k := x], curr) == CalcPseudo(index, v, curr)
  {
    InverseReadsOnlyChannelOne(index, v[k := x], v, curr, curr);
  }

  /**
   Round trip: the physical vector computed for a pseudo position gives that
   pseudo position back, axis by axis and as a whole.
   */
  lemma RoundTrip(pseudo: seq<real>, c1: seq<real>, c2: seq<real>)
    requires |pseudo| == |PseudoMotorRoles|
    ensures ForwardVector(pseudo, c1).Ok?
    ensures forall i :: 0 <= i < |PseudoMotorRoles| ==>
              CalcPseudo(i, ForwardVector(pseudo, c1).value, c2) == Ok(pseudo[i])
    ensures InverseVector(ForwardVector(pseudo, c1).value, c2) == Ok(pseudo)
  {
    var v := ForwardVector(pseudo, c1).value;
    assert CalcPhysical(0, pseudo, c1) == Ok(v[0]);
    assert CalcPhysical(2, pseudo, c1) == Ok(v[2]);
    assert CalcPhysical(6, pseudo, c1) == Ok(v[6]);
    var p := InverseVector(v, c2).value;
    forall i | 0 <= i < |PseudoMotorRoles|
      ensures p[i] == pseudo[i]
    {
      assert CalcPseudo(i, v, c2) == Ok(p[i]);
    }
    assert p == pseudo;
  }

  /**
   The other round trip: recomputing the physical vector from the pseudo
   position read back reproduces it exactly when the vector is channel
   consistent. An inconsistent vector is silently replaced by a different one.
   */
  lemma ReconstructionIffConsistent(physical: seq<real>, c1: seq<real>, c2: seq<real>)
    requires |physical| == |MotorRoles|
    ensures InverseVector(physical, c1).Ok?
    ensures ForwardVector(InverseVector(physical, c1).value, c2) == Ok(physical)
            <==> ChannelConsistent(physical)
  {
    var p := InverseVector(physical, c1).value;
    assert CalcPseudo(0, physical, c1) == Ok(p[0]);
    assert CalcPseudo(1, physical, c1) == Ok(p[1]);
    assert CalcPseudo(2, physical, c1) == Ok(p[2]);
    var v := ForwardVector(p, c2).value;
    ForwardIsChannelSymmetric(p, c2);
    assert CalcPhysical(0, p, c2) == Ok(v[0]);
    assert CalcPhysical(2, p, c2) == Ok(v[2]);
    assert CalcPhysical(6, p, c2) == Ok(v[6]);
    if ChannelConsistent(physical) {
      forall j | 0 <= j < |MotorRoles|
        ensures v[j] == physical[j]
      {
        assert CalcPhysical(j, p, c2) == Ok(v[j]);
      }
      assert v == physical;
    }
  }

  /** The worked example: (10, 5, 20) and its eight physical targets. */
  lemma WorkedExample(c1: seq<real>, c2: seq<real>)
    ensures ForwardVector([10.0, 5.0, 20.0], c1) == Ok([10.0, 15.0, 5.0, 5.0, 0.0, 0.0, 10.0, 10.0])
    ensures InverseVector([10.0, 15.0, 5.0, 5.0, 0.0, 0.0, 10.0, 10.0], c2) == Ok([10.0, 5.0, 20.0])
  {
    RoundTrip([10.0, 5.0, 20.0], c1, c2);
    var v := ForwardVector([10.0, 5.0, 20.0], c1).value;
    forall j | 0 <= j < |MotorRoles|
      ensures v[j] == [10.0, 15.0, 5.0, 5.0, 0.0, 0.0, 10.0, 10.0][j]
    {
      assert CalcPhysical(j, [10.0, 5.0, 20.0], c1) == Ok(v[j]);
    }
    assert v == [10.0, 15.0, 5.0, 5.0, 0.0, 0.0, 10.0, 10.0];
  }

  /**
   The worked error cases: the first index past each role tuple, 8 forward
   and 3 inverse, has no value in either direction.
   */
  lemma FirstIndexPastRolesFails(pseudo: seq<real>, physical: seq<real>, c1: seq<real>, c2: seq<real>)
    requires |pseudo| == |PseudoMotorRoles|
    ensures CalcPhysical(8, pseudo, c1) == Err(InvalidAxisIndex(8))
    ensures CalcPseudo(3, physical, c2) == Err(InvalidAxisIndex(3))
  {
  }
}
