/** `04_common/02/02/design_dome.py`: the area of a hemispherical dome and
    its weight on Mars, after the inputs are checked. */
module DesignDome {
  import opened Wrappers
  import opened Text

  /** A Python argument as `sphere_area` sees it: `None`, a string, a number
      (`int` or `float`, as an exact real) or anything else. */
  datatype Arg = NoneArg | StrArg(s: string) | NumArg(x: real) | OtherArg

  /** The `ValueError` raised, by message. */
  datatype DomeError =
    | NotANumber            // the diameter does not convert
    | NotPositive           // diameter <= 0
    | MaterialNotString
    | InvalidMaterial       // not glass, aluminum or carbon_steel
    | ThicknessNotANumber
    | ThicknessNotPositive

  datatype Dome = Dome(area: real, mass: real)

  const MarsGravityFactor: real := 0.38
  /** `math.pi`. */
  const Pi: real := 3.141592653589793

  /** `float(x)`; `toFloat` stands for Python's `float` on strings. */
  function ToFloat(a: Arg, toFloat: string -> Option<real>): (r: Option<real>)
    ensures a.NumArg? ==> r == Some(a.x)
    ensures a.NoneArg? || a.OtherArg? ==> r.None?
  {
    match a
    case NumArg(x) => Some(x)
    case StrArg(s) => toFloat(s)
    case _ => None
  }

  /** The density of a material name in g/cm³, for the three that are
      accepted. */
  function Density(material: string): (p: Option<real>)
    ensures p.Some? <==> material in {"glass", "aluminum", "carbon_steel"}
    ensures p.Some? ==> p.value > 0.0
  {
    if material == "glass" then Some(2.4)
    else if material == "aluminum" then Some(2.7)
    else if material == "carbon_steel" then Some(7.85)
    else None
  }

  /** A thickness of `None` or a blank string takes the default. */
  predicate Defaulted(thickness: Arg) {
    thickness.NoneArg? || (thickness.StrArg? && Strip(thickness.s) == [])
  }

  /** The thickness in cm: 1.0 for `None` or a blank string, otherwise the
      converted value, which must be positive. */
  function Thickness(thickness: Arg, toFloat: string -> Option<real>): (r: Result<real, DomeError>)
    ensures Defaulted(thickness) ==> r == Success(1.0)
    ensures !Defaulted(thickness) && r.Success? ==> ToFloat(thickness, toFloat) == Some(r.value)
    ensures r.Success? ==> r.value > 0.0
    ensures r == Failure(ThicknessNotANumber) <==>
      !Defaulted(thickness) && ToFloat(thickness, toFloat).None?
    ensures r == Failure(ThicknessNotPositive) <==>
      !Defaulted(thickness) && ToFloat(thickness, toFloat).Some? && ToFloat(thickness, toFloat).value <= 0.0
    ensures r.Failure? ==> r.error == ThicknessNotANumber || r.error == ThicknessNotPositive
  {
    if Defaulted(thickness) then Success(1.0)
    else
      match ToFloat(thickness, toFloat)
      case None => Failure(ThicknessNotANumber)
      case Some(t) => if t <= 0.0 then Failure(ThicknessNotPositive) else Success(t)
  }

  /** The product of two reals, named so that each algebraic fact about the
      formulas below is proved on its own. */
  function Mul(x: real, y: real): real { x * y }

  lemma MulPositive(x: real, y: real)
    requires x > 0.0 && y > 0.0
    ensures Mul(x, y) > 0.0
  {
  }

  /** A factor of the left operand can be taken out. */
  lemma MulScaleLeft(x: real, y: real, c: real)
    ensures Mul(Mul(x, c), y) == Mul(c, Mul(x, y))
  {
  }

  /** `area = 2·π·r·r` with `r = d/2`. */
  function DomeArea(d: real): real {
    var r := d / 2.0;
    Mul(Mul(2.0 * Pi, r), r)
  }

  /** `m = (area·t·10000)·p/1000` (cm³ of material to grams, then kg), scaled
      by Mars gravity. */
  function DomeMass(area: real, t: real, p: real): real {
    var v := Mul(area, t) * 10000.0;
    var m := Mul(v, p) / 1000.0;
    Mul(m, MarsGravityFactor)
  }

  /** A dome of positive diameter has a positive area. */
  lemma DomeAreaPositive(d: real)
    requires d > 0.0
    ensures DomeArea(d) > 0.0
  {
    MulPositive(2.0 * Pi, d / 2.0);
    MulPositive(Mul(2.0 * Pi, d / 2.0), d / 2.0);
  }

  /** Positive area, thickness and density give a positive weight. */
  lemma DomeMassPositive(area: real, t: real, p: real)
    requires area > 0.0 && t > 0.0 && p > 0.0
    ensures DomeMass(area, t, p) > 0.0
  {
    MulPositive(area, t);
    var v := Mul(area, t) * 10000.0;
    MulPositive(v, p);
    MulPositive(Mul(v, p) / 1000.0, MarsGravityFactor);
  }

  /** The weight is `t` times the weight at a thickness of 1 cm. */
  lemma DomeMassScales(area: real, t: real, p: real)
    ensures DomeMass(area, t, p) == t * DomeMass(area, 1.0, p)
  {
    var v1 := Mul(area, 1.0) * 10000.0;
    var vt := Mul(area, t) * 10000.0;
    assert Mul(area, 1.0) == area;
    assert vt == Mul(area, t) * 10000.0;
    MulScaleLeft(v1, p, t);
    assert Mul(v1, t) == vt;
    MulScaleLeft(Mul(v1, p) / 1000.0, MarsGravityFactor, t);
    assert Mul(Mul(v1, p) / 1000.0, t) == Mul(vt, p) / 1000.0;
  }

  lemma ScaledDome(thick: Dome, unit: Dome, area: real, t: real, p: real)
    requires thick == Dome(area, DomeMass(area, t, p))
    requires unit == Dome(area, DomeMass(area, 1.0, p))
    ensures thick.area == unit.area && thick.mass == Mul(t, unit.mass)
  {
    DomeMassScales(area, t, p);
  }

  /** The diameter converts to a positive number. */
  predicate AcceptedDiameter(diameter: Arg, toFloat: string -> Option<real>) {
    ToFloat(diameter, toFloat).Some? && ToFloat(diameter, toFloat).value > 0.0
  }

  /** The material is a string naming a known material, after `strip` and
      `lower`. */
  predicate AcceptedMaterial(material: Arg) {
    material.StrArg? && Density(Lower(Strip(material.s))).Some?
  }

  /** `sphere_area`: the checks in order (diameter, material, thickness), then
      the area and the weight on Mars. */
  function SphereArea(diameter: Arg, material: Arg, thickness: Arg, toFloat: string -> Option<real>)
    : (r: Result<Dome, DomeError>)
    ensures r == Failure(NotANumber) <==> ToFloat(diameter, toFloat).None?
    ensures r == Failure(NotPositive) <==>
      ToFloat(diameter, toFloat).Some? && ToFloat(diameter, toFloat).value <= 0.0
    ensures r == Failure(MaterialNotString) <==> AcceptedDiameter(diameter, toFloat) && !material.StrArg?
    ensures r == Failure(InvalidMaterial) <==>
      AcceptedDiameter(diameter, toFloat) && material.StrArg? && !AcceptedMaterial(material)
    ensures r == Failure(ThicknessNotANumber) <==>
      AcceptedDiameter(diameter, toFloat) && AcceptedMaterial(material)
      && Thickness(thickness, toFloat) == Failure(ThicknessNotANumber)
    ensures r == Failure(ThicknessNotPositive) <==>
      AcceptedDiameter(diameter, toFloat) && AcceptedMaterial(material)
      && Thickness(thickness, toFloat) == Failure(ThicknessNotPositive)
    ensures r.Success? <==>
      AcceptedDiameter(diameter, toFloat) && AcceptedMaterial(material)
      && Thickness(thickness, toFloat).Success?
    ensures r.Success? ==>
      var d, p, t := ToFloat(diameter, toFloat).value, Density(Lower(Strip(material.s))).value,
        Thickness(thickness, toFloat).value;
      r.value == Dome(DomeArea(d), DomeMass(DomeArea(d), t, p))
  {
    match ToFloat(diameter, toFloat)
    case None => Failure(NotANumber)
    case Some(d) =>
      if d <= 0.0 then Failure(NotPositive)
      else if !material.StrArg? then Failure(MaterialNotString)
      else
        var m := Lower(Strip(material.s));
        if Density(m).None? then Failure(InvalidMaterial)
        else
          match Thickness(thickness, toFloat)
          case Failure(e) => Failure(e)
          case Success(t) =>
            var area := DomeArea(d);
            Success(Dome(area, DomeMass(area, t, Density(m).value)))
  }

  /** Accepted inputs give a positive area and a positive weight. */
  lemma DomePositive(diameter: Arg, material: Arg, thickness: Arg, toFloat: string -> Option<real>)
    requires SphereArea(diameter, material, thickness, toFloat).Success?
    ensures SphereArea(diameter, material, thickness, toFloat).value.area > 0.0
    ensures SphereArea(diameter, material, thickness, toFloat).value.mass > 0.0
  {
    var d := ToFloat(diameter, toFloat).value;
    var p := Density(Lower(Strip(material.s))).value;
    var t := Thickness(thickness, toFloat).value;
    DomeAreaPositive(d);
    DomeMassPositive(DomeArea(d), t, p);
  }

  /** The weight is proportional to the thickness: with thickness `t` it is
      `t` times the weight of the 1 cm default, at the same area. */
  lemma MassLinearInThickness(diameter: Arg, material: Arg, t: real, toFloat: string -> Option<real>)
    requires t > 0.0
    requires SphereArea(diameter, material, NoneArg, toFloat).Success?
    ensures var thick := SphereArea(diameter, material, NumArg(t), toFloat);
      var unit := SphereArea(diameter, material, NoneArg, toFloat);
      thick.Success? && thick.value.area == unit.value.area
      && thick.value.mass == Mul(t, unit.value.mass)
  {
    var d := ToFloat(diameter, toFloat).value;
    var p := Density(Lower(Strip(material.s))).value;
    var area := DomeArea(d);
    DomeOfThickness(diameter, material, NumArg(t), toFloat, t);
    DomeOfThickness(diameter, material, NoneArg, toFloat, 1.0);
    ScaledDome(SphereArea(diameter, material, NumArg(t), toFloat).value,
      SphereArea(diameter, material, NoneArg, toFloat).value, area, t, p);
  }

  /** With the diameter and material accepted, the dome for an accepted
      thickness `t`. */
  lemma DomeOfThickness(diameter: Arg, material: Arg, thickness: Arg, toFloat: string -> Option<real>, t: real)
    requires ToFloat(diameter, toFloat).Some? && ToFloat(diameter, toFloat).value > 0.0
    requires material.StrArg? && Density(Lower(Strip(material.s))).Some?
    requires Thickness(thickness, toFloat) == Success(t)
    ensures var area := DomeArea(ToFloat(diameter, toFloat).value);
      SphereArea(diameter, material, thickness, toFloat)
        == Success(Dome(area, DomeMass(area, t, Density(Lower(Strip(material.s))).value)))
  {
  }

  /** The thickness argument matters only through the value it is accepted
      as, or the error it raises: `None`, a blank string and `1.0` give the
      same dome. */
  lemma SphereAreaByThicknessValue(diameter: Arg, material: Arg, a: Arg, b: Arg,
                                   toFloat: string -> Option<real>)
    requires Thickness(a, toFloat) == Thickness(b, toFloat)
    ensures SphereArea(diameter, material, a, toFloat) == SphereArea(diameter, material, b, toFloat)
    ensures Thickness(a, toFloat).Success? ==>
      SphereArea(diameter, material, a, toFloat)
        == SphereArea(diameter, material, NumArg(Thickness(a, toFloat).value), toFloat)
  {
    if Thickness(a, toFloat).Success? {
      assert !Defaulted(NumArg(Thickness(a, toFloat).value));
    }
  }
}
