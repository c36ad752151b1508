/** The PHP scalar values that flow through request parameters and JSON replies. */
module PhpValues {
  import opened Results
  import opened PhpStrings

  /** A PHP scalar: null, a boolean, an integer or a string. */
  datatype Value = Null | Bool(b: bool) | Int(i: int) | Str(s: string)

  /** PHP's conversion to boolean: null, false, 0, "" and "0" are false. */
  predicate Truthy(v: Value) {
    match v
    case Null => false
    case Bool(b) => b
    case Int(i) => i != 0
    case Str(s) => s != "" && s != "0"
  }

  /** Exactly null, false, 0, "" and "0" are falsy; "00", " " and every other text or number are truthy. */
  lemma TruthyScalars(v: Value)
    ensures !Truthy(v) <==> v in {Null, Bool(false), Int(0), Str(""), Str("0")}
  {
  }

  /** PHP's conversion to string. */
  function ToText(v: Value): string {
    match v
    case Null => ""
    case Bool(b) => if b then "1" else ""
    case Int(i) => IntToDecimal(i)
    case Str(s) => s
  }

  /**
   * safeGet: the value stored under key when the array exists and the entry is
   * set (isset is false for a missing key and for null), else the default.
   */
  function SafeGet(data: Option<map<string, Value>>, key: string, default: Value): (r: Value)
    ensures data.Some? && key in data.value && data.value[key] != Null ==> r == data.value[key]
    ensures data.None? || key !in data.value || data.value[key] == Null ==> r == default
    ensures r == Null ==> default == Null
  {
    if data.Some? && key in data.value && data.value[key] != Null then data.value[key] else default
  }
}
