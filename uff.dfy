/**
 * The direction strings of the UFF writer and the integer codes the UFF
 * format uses for them.
 */
module Uff {
  import opened Wrappers

  /** `direction_to_int`: "Scalar" is 0, "+X", "+Y", "+Z" are 1, 2, 3 and
      their "-" forms the negations. For any other string the function
      builds a ValueError without raising it and so returns None. */
  function DirectionToInt(d: string): (r: Option<int>)
    ensures r.Some? ==> -3 <= r.value <= 3
    ensures d == "Scalar" <==> r == Some(0)
  {
    if d == "Scalar" then Some(0)
    else if d == "+X" then Some(1)
    else if d == "-X" then Some(-1)
    else if d == "+Y" then Some(2)
    else if d == "-Y" then Some(-2)
    else if d == "+Z" then Some(3)
    else if d == "-Z" then Some(-3)
    else None
  }

  /** The direction string of each code, an independent table read the
      other way round. */
  function DirectionName(k: int): Option<string>
  {
    match k
    case 0 => Some("Scalar")
    case 1 => Some("+X")
    case 2 => Some("+Y")
    case 3 => Some("+Z")
    case -1 => Some("-X")
    case -2 => Some("-Y")
    case -3 => Some("-Z")
    case _ => None
  }

  /** The strings that have a code. */
  const Directions: seq<string> := ["Scalar", "+X", "-X", "+Y", "-Y", "+Z", "-Z"]

  /** Exactly the seven direction strings have a code; each code lies in
      -3..3 and names its string back, so no two strings share a code. */
  lemma DirectionCodes(d: string)
    ensures DirectionToInt(d).Some? <==> d in Directions
    ensures DirectionToInt(d).Some? ==>
      -3 <= DirectionToInt(d).value <= 3 && DirectionName(DirectionToInt(d).value) == Some(d)
  {
  }

  /** Every code in -3..3 is the code of a direction string. */
  lemma DirectionNames(k: int)
    ensures DirectionName(k).Some? <==> -3 <= k <= 3
    ensures DirectionName(k).Some? ==> DirectionToInt(DirectionName(k).value) == Some(k)
  {
  }

  /** The "-" form of an axis has the negated code of its "+" form. */
  lemma DirectionSign(axis: char)
    requires axis == 'X' || axis == 'Y' || axis == 'Z'
    ensures DirectionToInt(['+', axis]).Some? && DirectionToInt(['-', axis]).Some?
    ensures DirectionToInt(['-', axis]).value == -DirectionToInt(['+', axis]).value
    ensures DirectionToInt(['+', axis]).value >= 1
  {
    assert ['+', axis] == if axis == 'X' then "+X" else if axis == 'Y' then "+Y" else "+Z";
    assert ['-', axis] == if axis == 'X' then "-X" else if axis == 'Y' then "-Y" else "-Z";
  }
}
