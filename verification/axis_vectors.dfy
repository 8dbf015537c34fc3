/**
 Whole position vectors, assembled from the per-axis maps on the assumption
 that the caller passes the 0-based indices 0 .. n - 1 in order and that the
 first failure ends the assembly. The indices follow the per-branch comments
 of the controller, which name index 0 as the first role of each tuple.
 */
module AxisVectors {
  import opened BipolarPulse

  /** The results of `f(0)`, ..., `f(n - 1)`, or the first failure among them. */
  function Collect<T>(n: nat, f: nat -> Result<T>): (r: Result<seq<T>>)
    ensures r.Ok? <==> forall j :: 0 <= j < n ==> f(j).Ok?
    ensures r.Ok? ==> |r.value| == n && forall j :: 0 <= j < n ==> f(j) == Ok(r.value[j])
    ensures r.Err? ==> exists j :: 0 <= j < n && f(j) == Err(r.error) &&
                                   forall k :: 0 <= k < j ==> f(k).Ok?
  {
    if n == 0 then Ok([])
    else
      match Collect(n - 1, f)
      case Err(e) => Err(e)
      case Ok(prefix) =>
        match f(n - 1)
        case Err(e) => Err(e)
        case Ok(x) => Ok(prefix + [x])
  }

  /** All eight physical targets for a pseudo position. */
  function ForwardVector(pseudo: seq<real>, currPhysical: seq<real>): (r: Result<seq<real>>)
    ensures r.Ok? <==> |pseudo| == |PseudoMotorRoles|
    ensures r.Err? ==> r.error == PseudoArityMismatch(|pseudo|)
    ensures r.Ok? ==> |r.value| == |MotorRoles|
  {
    Collect(|MotorRoles|, j => CalcPhysical(j, pseudo, currPhysical))
  }

  /** All three pseudo positions derived from a physical vector. */
  function InverseVector(physical: seq<real>, currPseudo: seq<real>): (r: Result<seq<real>>)
    ensures r.Ok? <==> |physical| > 6
    ensures r.Err? ==> r.error.PhysicalPositionMissing?
    ensures r.Ok? ==> |r.value| == |PseudoMotorRoles|
  {
    Collect(|PseudoMotorRoles|, i => CalcPseudo(i, physical, currPseudo))
  }
}
