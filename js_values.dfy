/** JavaScript values as the scripts and the callable functions see them: the
    `||` truthiness the code leans on, the `String(v)` coercion done by template
    literals and by `RegExp.prototype.test`, and `Array.prototype.join`.
    Firestore documents are maps from field names to `Field`s. */
module JsValues {

  datatype Option<+T> = None | Some(value: T) {
    function GetOr(default: T): T {
      match this
      case Some(v) => v
      case None => default
    }

    predicate IsFailure() {
      None?
    }

    function PropagateFailure<U>(): Option<U> {
      None
    }

    function Extract(): T
      requires Some?
    {
      value
    }
  }

  datatype Result<+T, +E> = Ok(value: T) | Err(error: E)

  /** A value decoded from JSON, plus `undefined` for a missing property.
      Numbers are modelled as integers. */
  datatype JsValue =
    | Undefined
    | Null
    | Bool(b: bool)
    | Num(n: int)
    | Str(s: string)
    | Arr(items: seq<JsValue>)
    | Obj(props: map<string, JsValue>)

  /** JavaScript truthiness: `undefined`, `null`, `false`, `0` and `""` are falsy. */
  predicate Truthy(v: JsValue)
    ensures v.Undefined? || v.Null? ==> !Truthy(v)
    ensures v.Arr? || v.Obj? ==> Truthy(v)
  {
    match v
    case Undefined => false
    case Null => false
    case Bool(b) => b
    case Num(n) => n != 0
    case Str(s) => s != ""
    case Arr(_) => true
    case Obj(_) => true
  }

  /** The expression `a || b`. */
  function Or(a: JsValue, b: JsValue): (r: JsValue)
    ensures r == a || r == b
    ensures Truthy(r) <==> Truthy(a) || Truthy(b)
    ensures Truthy(a) ==> r == a
  {
    if Truthy(a) then a else b
  }

  /** Reading `o.key`: a missing property reads as `undefined`. */
  function Prop(o: map<string, JsValue>, key: string): JsValue {
    if key in o then o[key] else Undefined
  }

  /** Reading `v.key` of any value: `undefined` and `null` have no properties
      and throw a TypeError (`None`); strings and arrays have a `length`; every
      other missing property reads as `undefined`. Array index properties are
      not modelled. */
  function Member(v: JsValue, key: string): (r: Option<JsValue>)
    ensures r.None? <==> v.Undefined? || v.Null?
    ensures Truthy(v) ==> r.Some?
  {
    match v
    case Undefined => None
    case Null => None
    case Obj(props) => Some(Prop(props, key))
    case Arr(items) => Some(if key == "length" then Num(|items|) else Undefined)
    case Str(s) => Some(if key == "length" then Num(|s|) else Undefined)
    case Bool(_) => Some(Undefined)
    case Num(_) => Some(Undefined)
  }

  /** A string-valued property that may be absent: truthy exactly when present and non-empty. */
  predicate TruthyText(o: Option<string>) {
    o.Some? && o.value != ""
  }

  /** The expression `a || b` over optional strings. */
  function OrText(a: Option<string>, b: Option<string>): Option<string> {
    if TruthyText(a) then a else b
  }

  /** A Firestore field: a plain JSON value, a stored timestamp, or the
      server-timestamp sentinel that a write asks the server to fill in. */
  datatype Field = Plain(v: JsValue) | Stamp(t: int) | ServerTimestamp

  type Fields = map<string, Field>

  /** Reading `data.key` of a document. */
  function FieldOf(fs: Fields, key: string): Field {
    if key in fs then fs[key] else Plain(Undefined)
  }

  /** Timestamps and the sentinel are objects, hence truthy. */
  predicate FieldTruthy(f: Field) {
    match f
    case Plain(v) => Truthy(v)
    case Stamp(_) => true
    case ServerTimestamp => true
  }

  function FieldOr(a: Field, b: Field): Field {
    if FieldTruthy(a) then a else b
  }

  predicate IsDigit(c: char) {
    '0' <= c <= '9'
  }

  function DigitChar(d: nat): (c: char)
    requires d < 10
    ensures IsDigit(c)
  {
    "0123456789"[d]
  }

  /** The decimal rendering of a natural number, most significant digit first. */
  function NatToDecimal(n: nat): (s: string)
    ensures |s| >= 1
    ensures forall i :: 0 <= i < |s| ==> IsDigit(s[i])
    ensures s[0] == '0' ==> n == 0
  {
    if n < 10 then [DigitChar(n)] else NatToDecimal(n / 10) + [DigitChar(n % 10)]
  }

  function Pow10(k: nat): (p: nat)
    ensures p >= 1
  {
    if k == 0 then 1 else 10 * Pow10(k - 1)
  }

  /** A number has at most `k` decimal digits exactly when it is below 10^k. */
  lemma {:induction false} DecimalLengthBound(n: nat, k: nat)
    requires k >= 1
    ensures |NatToDecimal(n)| <= k <==> n < Pow10(k)
  {
    if n >= 10 {
      if k == 1 {
        assert Pow10(1) == 10;
      } else {
        DecimalLengthBound(n / 10, k - 1);
        assert n / 10 < Pow10(k - 1) <==> n < Pow10(k);
      }
    } else {
      assert Pow10(k) == 10 * Pow10(k - 1);
    }
  }

  /** `String(v)`, as a template literal or `RegExp.prototype.test` coerces its argument. */
  function ToStr(v: JsValue): (r: string)
    ensures v.Str? ==> r == v.s
    ensures v.Num? ==> |r| >= 1 && (r[0] == '-' <==> v.n < 0)
    decreases v, 1
  {
    match v
    case Undefined => "undefined"
    case Null => "null"
    case Bool(b) => if b then "true" else "false"
    case Num(n) => if n < 0 then "-" + NatToDecimal(-n) else NatToDecimal(n)
    case Str(s) => s
    case Arr(items) => ArrayJoin(items, ",")
    case Obj(_) => "[object Object]"
  }

  /** `items.join(sep)`: each element rendered with `String`, except that
      `null` and `undefined` render as "". */
  function ArrayJoin(items: seq<JsValue>, sep: string): (r: string)
    ensures |items| == 0 ==> r == ""
    ensures |items| == 1 && items[0].Str? ==> r == items[0].s
    decreases Arr(items), 0
  {
    Join(seq(|items|, i requires 0 <= i < |items| =>
      if items[i].Undefined? || items[i].Null? then "" else ToStr(items[i])), sep)
  }

  /** `parts.join(sep)`. */
  function Join(parts: seq<string>, sep: string): (r: string)
    ensures |parts| == 0 ==> r == ""
    ensures |parts| > 0 ==> |r| == SumLengths(parts) + (|parts| - 1) * |sep|
  {
    if |parts| == 0 then ""
    else if |parts| == 1 then parts[0]
    else Join(parts[..|parts| - 1], sep) + sep + parts[|parts| - 1]
  }

  function SumLengths(parts: seq<string>): nat {
    if |parts| == 0 then 0 else SumLengths(parts[..|parts| - 1]) + |parts[|parts| - 1]|
  }

  /** `parts.join("")` is the plain concatenation of the parts. */
  function Concat(parts: seq<string>): (r: string)
    ensures |r| == SumLengths(parts)
  {
    if |parts| == 0 then "" else Concat(parts[..|parts| - 1]) + parts[|parts| - 1]
  }

  /** The values listed in a sequence. */
  function Elements(xs: seq<string>): set<string> {
    set x | x in xs
  }

  predicate Distinct(xs: seq<string>) {
    forall a, b :: 0 <= a < b < |xs| ==> xs[a] != xs[b]
  }

  /** A sequence lists at most as many values as it has entries, exactly as many when they are distinct. */
  lemma {:induction false} ElementsCount(xs: seq<string>)
    ensures |Elements(xs)| <= |xs|
    ensures |Elements(xs)| == |xs| <==> Distinct(xs)
  {
    if |xs| > 0 {
      var init := xs[..|xs| - 1];
      var last := xs[|xs| - 1];
      assert xs == init + [last];
      ElementsCount(init);
      assert Elements(xs) == Elements(init) + {last};
      if last in init {
        assert Elements(xs) == Elements(init);
        var j :| 0 <= j < |init| && init[j] == last;
        assert xs[j] == xs[|xs| - 1];
      } else {
        assert |Elements(xs)| == |Elements(init)| + 1;
        if Distinct(init) {
          forall a, b | 0 <= a < b < |xs| ensures xs[a] != xs[b] {
            if b == |xs| - 1 {
              assert xs[a] in init;
            } else {
              assert xs[a] == init[a] && xs[b] == init[b];
            }
          }
        } else {
          var a, b :| 0 <= a < b < |init| && init[a] == init[b];
          assert xs[a] == xs[b];
        }
      }
    }
  }

  /** `Object.keys(m).length` counts the entries a key list without repeats
      walks, when it walks exactly the keys of `m`. */
  lemma KeyCount<V>(keys: seq<string>, m: map<string, V>)
    requires Distinct(keys) && forall z :: z in keys <==> z in m
    ensures |m.Keys| == |keys|
  {
    assert Elements(keys) == m.Keys;
    ElementsCount(keys);
  }

  /** The error a callable function throws: `HttpsError(code, message)`. */
  datatype HttpsError = InvalidArgument(message: string) | Internal(message: string)

  /** How a callable ends when it does not return: a thrown `HttpsError`, or
      another error (a TypeError) escaping the handler, which the callable
      framework reports to the client as a generic internal error. */
  datatype Failure = Thrown(error: HttpsError) | Uncaught
}
