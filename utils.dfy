/**
 * `getTermValue` (lib/utils.ts): the text a lease term's value takes in the
 * document, chosen by the term's unit tag.
 */
module Utils {
  import opened Wrappers

  /** Unit tag of a currency amount per square foot per year. */
  const UsdPerSqftPerYear: string := "USD/sqft/year"
  /** Unit tag of a duration in years. */
  const Years: string := "years"

  /**
   * The run-time value handed in: a JavaScript number, or anything else, carried
   * here by its `String(value)` text.
   */
  datatype JsValue = Num(n: real) | NonNum(text: string)

  /**
   * `${value}`: a number's rendering is JavaScript's Number-to-String conversion,
   * passed in as `render`; any other value renders as its own text.
   */
  function Rendering(render: real -> string, value: JsValue): string {
    match value
    case Num(n) => render(n)
    case NonNum(text) => text
  }

  /** Number of characters the unit adds around the rendering: `$`, ` years`, or none. */
  function UnitOverhead(value: JsValue, unit: string): nat {
    if value.Num? && unit == UsdPerSqftPerYear then 1
    else if value.Num? && unit == Years then 6
    else 0
  }

  /** The inverse of `GetTermValue` for a fixed unit: strip `$` or ` years` again. */
  function StripTermValue(formatted: string, unit: string): (r: Option<string>)
    ensures r.Some? ==> |r.value| <= |formatted|
  {
    if unit == UsdPerSqftPerYear then
      if |formatted| >= 1 && formatted[0] == '$' then Some(formatted[1..]) else None
    else if unit == Years then
      if |formatted| >= 6 && formatted[|formatted| - 6..] == " years" then Some(formatted[..|formatted| - 6])
      else None
    else Some(formatted)
  }

  /**
   * The formatted term value: `$<v>` for a rate, `<v> years` for a duration, `<v>`
   * otherwise. It is the rendering padded by the unit's overhead, and for a number
   * stripping the unit again gives back the rendering.
   */
  function GetTermValue(render: real -> string, value: JsValue, unit: string): (r: string)
    ensures |r| == |Rendering(render, value)| + UnitOverhead(value, unit)
    ensures value.Num? ==> StripTermValue(r, unit) == Some(Rendering(render, value))
  {
    if value.Num? then
      if unit == UsdPerSqftPerYear then "$" + render(value.n)
      else if unit == Years then
        var r := render(value.n) + " years";
        assert r[|r| - 6..] == " years";
        r
      else render(value.n)
    else
      value.text
  }

  /** The three exact forms, selected by an exact match on the unit tag. */
  lemma TermValueCases(render: real -> string, value: JsValue, unit: string)
    ensures value.Num? && unit == UsdPerSqftPerYear ==> GetTermValue(render, value, unit) == "$" + Rendering(render, value)
    ensures value.Num? && unit == Years ==> GetTermValue(render, value, unit) == Rendering(render, value) + " years"
    ensures value.NonNum? || (unit != UsdPerSqftPerYear && unit != Years) ==>
      GetTermValue(render, value, unit) == Rendering(render, value)
  {
  }

  /** The rendering of the value occurs in the output: after the `$`, or at the start. */
  lemma TermValueContainsRendering(render: real -> string, value: JsValue, unit: string)
    ensures var r := GetTermValue(render, value, unit);
      var v := Rendering(render, value);
      && UnitOverhead(value, unit) in {0, 1, 6}
      && (value.Num? && unit == UsdPerSqftPerYear ==> r[1..] == v)
      && (!(value.Num? && unit == UsdPerSqftPerYear) ==> r[..|v|] == v)
  {
  }

  /** For a fixed unit, distinct number renderings give distinct formatted values. */
  lemma TermValueInjective(render: real -> string, a: real, b: real, unit: string)
    requires render(a) != render(b)
    ensures GetTermValue(render, Num(a), unit) != GetTermValue(render, Num(b), unit)
  {
  }

  /** The unit comparison is exact: `year` and `Years` fall through to the bare rendering. */
  lemma UnitMatchIsCaseSensitive(render: real -> string, n: real)
    ensures GetTermValue(render, Num(n), "year") == render(n)
    ensures GetTermValue(render, Num(n), "Years") == render(n)
    ensures GetTermValue(render, Num(n), "usd/sqft/year") == render(n)
  {
  }
}
