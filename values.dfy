/** Decoded JSON values as Python's `json` module produces them, the
    exception classes that escape the core, Python truthiness and `str()`. */
module Values {
  import opened Wrappers

  /** A decoded JSON document. Python keeps integers and floats apart
      (`3` and `3.0` print differently), so the model does too. */
  datatype Json =
    | JNull
    | JBool(b: bool)
    | JInt(i: int)
    | JFloat(f: real)
    | JStr(s: string)
    | JArr(items: seq<Json>)
    | JObj(fields: map<string, Json>)

  /** Exceptions the core raises. Only the route normalisation catches one
      of them (`KeyError`); the others escape to the caller. */
  datatype Exception = AttributeError | KeyError | TypeError | ZeroDivisionError

  /** Python truthiness (`if not data`): false exactly for None, False, zero,
      and the empty string, list and dict. */
  function Truthy(v: Json): (t: bool)
    ensures !t <==> v in [JNull, JBool(false), JInt(0), JFloat(0.0), JStr(""), JArr([]), JObj(map[])]
  {
    match v
    case JNull => false
    case JBool(b) => b
    case JInt(i) => i != 0
    case JFloat(f) => f != 0.0
    case JStr(s) => s != ""
    case JArr(a) => |a| > 0
    case JObj(m) => |m| > 0
  }

  /** `dict.get(key, default)` on a decoded JSON object. */
  function Get(m: map<string, Json>, key: string, default: Json): (r: Json)
    ensures key in m ==> r == m[key]
    ensures key !in m ==> r == default
  {
    if key in m then m[key] else default
  }

  /** `x / n` for the JSON values Python can divide: ints, floats and bools
      (`True / 1000 == 0.001`); anything else raises TypeError. */
  function Number(v: Json): (r: Option<real>)
    ensures r.Some? <==> (v.JInt? || v.JFloat? || v.JBool?)
    ensures v.JInt? ==> r == Some(v.i as real)
    ensures v.JFloat? ==> r == Some(v.f)
    ensures v == JBool(true) ==> r == Some(1.0)
    ensures v == JBool(false) ==> r == Some(0.0)
  {
    match v
    case JInt(i) => Some(i as real)
    case JFloat(f) => Some(f)
    case JBool(b) => Some(if b then 1.0 else 0.0)
    case _ => None
  }

  function DigitChar(d: nat): (c: char)
    requires d < 10
    ensures '0' <= c <= '9'
  {
    "0123456789"[d]
  }

  function DigitValue(c: char): nat
    requires '0' <= c <= '9'
  {
    (c as int - '0' as int) as nat
  }

  /** Python's `str(n)` for a natural number: its decimal digits. */
  function NatToDecimal(n: nat): (r: string)
    ensures |r| > 0
    ensures forall k :: 0 <= k < |r| ==> '0' <= r[k] <= '9'
    ensures r[0] == '0' ==> n == 0
  {
    if n < 10 then [DigitChar(n)] else NatToDecimal(n / 10) + [DigitChar(n % 10)]
  }

  /** Python's `str(i)` for an integer. */
  function IntToDecimal(i: int): (r: string)
  {
    if i < 0 then "-" + NatToDecimal(-i) else NatToDecimal(i)
  }

  /** The value of a non-empty string of ASCII digits. */
  function DecimalValue(s: string): nat
    requires forall k :: 0 <= k < |s| ==> '0' <= s[k] <= '9'
  {
    if s == [] then 0 else DecimalValue(s[..|s| - 1]) * 10 + DigitValue(s[|s| - 1])
  }

  /** Reading the digits `str(n)` prints gives `n` back. */
  lemma {:induction false} NatToDecimalRoundTrip(n: nat)
    ensures DecimalValue(NatToDecimal(n)) == n
  {
    var r := NatToDecimal(n);
    if n < 10 {
      assert r[..|r| - 1] == [];
    } else {
      NatToDecimalRoundTrip(n / 10);
      assert r[..|r| - 1] == NatToDecimal(n / 10);
    }
  }

  /** Python's `str(v)`. Strings print as themselves, integers in decimal
      and booleans as `True`/`False`; how floats, lists and objects print
      (`repr`) is a parameter of the model. */
  function Str(v: Json, repr: Json -> string): (r: string)
    ensures v.JStr? ==> r == v.s
  {
    match v
    case JNull => "None"
    case JBool(b) => if b then "True" else "False"
    case JInt(i) => IntToDecimal(i)
    case JStr(s) => s
    case _ => repr(v)
  }
}
