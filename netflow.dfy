/**
 * `NetflowValidator`: the four field checks a flow record goes through.
 * The IP and timestamp checks take the text of a value; the port and counter
 * checks take the value itself and first ask whether it is a Python `int` or
 * `float` (a `bool` is an `int` to Python).
 */
module Netflow {
  import opened Options
  import opened PyText
  import IpAddress
  import Timestamps

  /**
   * A value read from a flow table. A `float` other than NaN keeps, next to
   * its value, the text Python's `str()` gives for it; that text is data here,
   * not computed. NaN (a missing entry) is a `float` that compares false
   * with everything; `inf` and `-inf` are `float`s beyond every other number.
   */
  datatype Cell =
    | IntCell(i: int)
    | BoolCell(b: bool)
    | RealCell(r: real, text: string)
    | NanCell
    | InfCell(negative: bool)
    | StrCell(s: string)

  const PORT_MIN: int := 0
  const PORT_MAX: int := 65535

  /** `str(value)`. */
  function CellText(c: Cell): string {
    match c
    case IntCell(i) => IntText(i)
    case BoolCell(b) => if b then "True" else "False"
    case RealCell(_, text) => text
    case NanCell => "nan"
    case InfCell(negative) => if negative then "-inf" else "inf"
    case StrCell(s) => s
  }

  /** `isinstance(value, (int, float))`. */
  predicate IsNumber(c: Cell) {
    !c.StrCell?
  }

  /** The value of a finite number: every number except NaN and the two infinities. */
  function Magnitude(c: Cell): (r: Option<real>)
    ensures r.Some? <==> IsNumber(c) && !c.NanCell? && !c.InfCell?
  {
    match c
    case IntCell(i) => Some(i as real)
    case BoolCell(b) => Some(if b then 1.0 else 0.0)
    case RealCell(r, _) => Some(r)
    case NanCell => None
    case InfCell(_) => None
    case StrCell(_) => None
  }

  /** `NetflowValidator.validate_ip`: `ipaddress.ip_address(ip)` raises no `ValueError`. */
  predicate ValidateIp(ip: string) {
    IpAddress.ValidIp(ip)
  }

  /** `NetflowValidator.validate_timestamp`: one of the formats, tried in order, parses the text. */
  predicate ValidateTimestamp(timestamp: string) {
    Timestamps.ValidTimestamp(timestamp)
  }

  /**
   * `NetflowValidator.validate_port`: a number, then the chained comparison
   * `PORT_MIN <= port <= PORT_MAX` (false for NaN, as every comparison with it is).
   */
  predicate ValidatePort(port: Cell) {
    IsNumber(port) &&
    match port
    case IntCell(i) => PORT_MIN <= i <= PORT_MAX
    case BoolCell(_) => true
    case RealCell(r, _) => PORT_MIN as real <= r <= PORT_MAX as real
    case NanCell => false
    case InfCell(_) => false
    case StrCell(_) => false
  }

  /** `NetflowValidator.validate_numeric`: a number, then `value >= 0`. */
  predicate ValidateNumeric(value: Cell) {
    IsNumber(value) &&
    match value
    case IntCell(i) => i >= 0
    case BoolCell(_) => true
    case RealCell(r, _) => r >= 0.0
    case NanCell => false
    case InfCell(negative) => !negative
    case StrCell(_) => false
  }

  // ---------------------------------------------------------------------------
  // What the checks accept

  /** A port is accepted exactly when it is a finite number that compares within 0..65535 (neither infinity is). */
  lemma PortAcceptedIff(c: Cell)
    ensures ValidatePort(c) <==> Magnitude(c).Some? && 0.0 <= Magnitude(c).value <= 65535.0
  {
  }

  /** A counter is accepted exactly when it is a finite number that compares at least 0, or `inf`. */
  lemma NumericAcceptedIff(c: Cell)
    ensures ValidateNumeric(c) <==> (Magnitude(c).Some? && Magnitude(c).value >= 0.0) || c == InfCell(false)
  {
  }

  /** Every accepted port is an accepted counter; the converse fails above 65535 and at `inf`. */
  lemma PortIsNumeric(c: Cell)
    ensures ValidatePort(c) ==> ValidateNumeric(c)
    ensures ValidateNumeric(c) && !ValidatePort(c) ==> c == InfCell(false) || Magnitude(c).value > 65535.0
  {
  }

  /** The type test comes first: text is rejected by both, whatever it spells. */
  lemma TextIsNotANumber(s: string)
    ensures !ValidatePort(StrCell(s)) && !ValidateNumeric(StrCell(s))
  {
  }

  lemma PortExamples()
    ensures ValidatePort(IntCell(0)) && ValidatePort(IntCell(65535))
    ensures !ValidatePort(IntCell(-1)) && !ValidatePort(IntCell(65536))
    ensures ValidatePort(RealCell(80.5, "80.5"))
    ensures !ValidatePort(StrCell("80")) && !ValidatePort(NanCell)
    ensures !ValidatePort(InfCell(false)) && !ValidatePort(InfCell(true))
  {
  }

  lemma NumericExamples()
    ensures ValidateNumeric(IntCell(0)) && ValidateNumeric(RealCell(1.5, "1.5"))
    ensures !ValidateNumeric(IntCell(-1)) && !ValidateNumeric(StrCell("5")) && !ValidateNumeric(NanCell)
    ensures ValidateNumeric(InfCell(false)) && !ValidateNumeric(InfCell(true))
  {
  }

  /** The text of an integer has no '.' and no ':', so it is never an address. */
  lemma IntegerTextNotIp(i: int)
    ensures !ValidateIp(IntText(i))
  {
    var s := IntText(i);
    assert '.' !in s && ':' !in s;
    IpAddress.NoSeparatorNotIp(s);
  }

  /** A missing value reads as "nan", which is neither an address nor a timestamp. */
  lemma MissingValueText()
    ensures CellText(NanCell) == "nan"
    ensures !ValidateIp(CellText(NanCell)) && !ValidateTimestamp(CellText(NanCell))
  {
    var s := "nan";
    assert '.' !in s && ':' !in s;
    IpAddress.NoSeparatorNotIp(s);
    assert Timestamps.MatchField(s, 0, Timestamps.YEAR).None? by {
      assert !Timestamps.MatchesAt(s, 0, Timestamps.YEAR[0]);
    }
  }
}
