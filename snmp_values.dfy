/**
 The typed values an SNMP agent returns in a variable binding, their Python
 text rendering `str(val)`, and the coercion `to_int`.
 */
module SnmpValues {
  import opened Wrappers
  import opened Decimal

  /**
   Integer covers the integer-valued SMI types (Integer32, Counter32, Gauge32,
   ...); TimeTicks counts hundredths of a second (section 7.1.8 of RFC 2578);
   OctetString carries its decoded text; Other is any further value, known only
   by the text `str()` gives for it.
   */
  datatype SnmpValue =
    | Integer(i: int)
    | TimeTicks(ticks: nat)
    | OctetString(text: string)
    | Other(rendered: string)

  /** `str(val)` */
  function Str(v: SnmpValue): string {
    match v
    case Integer(i) => IntToDecimal(i)
    case TimeTicks(t) => NatToDecimal(t)
    case OctetString(text) => text
    case Other(rendered) => rendered
  }

  /** `str(val)` where `val` may be `None`, which Python renders as "None". */
  function PyStr(v: Option<SnmpValue>): string {
    match v
    case None => "None"
    case Some(x) => Str(x)
  }

  /** `to_int(val)`: `int(str(val))`, with absent standing for the caught exception. */
  function ToInt(v: Option<SnmpValue>): (r: Option<int>)
    ensures r.Some? <==> IsDecimal(PyStr(v))
  {
    ParseInt(PyStr(v))
  }

  /** An absent value does not coerce: `int("None")` raises. */
  lemma ToIntAbsent()
    ensures ToInt(None) == None
  {
    ParseIntRejects("None", 0);
  }

  /** Integer values coerce to themselves. */
  lemma ToIntOfInteger(i: int)
    ensures ToInt(Some(Integer(i))) == Some(i)
  {
    ParseIntOfDecimal(i);
  }

  lemma ToIntOfTimeTicks(t: nat)
    ensures ToInt(Some(TimeTicks(t))) == Some(t)
  {
    ParseIntOfDecimal(t);
  }

  /** `to_int` strips no quotes: a quoted number does not coerce. */
  lemma ToIntOfQuoted(digits: string)
    ensures ToInt(Some(OctetString("\"" + digits + "\""))) == None
  {
    ParseIntRejects("\"" + digits + "\"", 0);
  }
}
