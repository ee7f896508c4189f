/**
 * Decoded JSON values as the hub sees them after `json.Unmarshal` into a
 * `map[string]interface{}`, together with the two pieces of the Go runtime the
 * hub's behaviour depends on: `fmt.Sprint` of such a value (used to stringify
 * acknowledged ids and the correlation id of a fault reply) and the text of
 * the panic raised by a failed type assertion (sent back in a fault reply).
 */
module Json {

  /** A decoded JSON value. Numbers decode to float64 in Go; the model keeps
      them as integers within float64's exact range. */
  datatype JVal =
    | JNull
    | JBool(b: bool)
    | JNum(n: int)
    | JStr(s: string)
    | JArr(items: seq<JVal>)
    | JObj(fields: map<string, JVal>)

  /** `m[key]` on a Go map: a missing key reads as a nil interface, which is
      indistinguishable from a JSON null. */
  function Field(obj: map<string, JVal>, key: string): (v: JVal)
    ensures key !in obj ==> v == JNull
    ensures key in obj ==> v == obj[key]
  {
    if key in obj then obj[key] else JNull
  }

  /** The Go dynamic type `encoding/json` gives each kind of value. */
  function GoType(v: JVal): string
  {
    match v
    case JNull => "nil"
    case JBool(_) => "bool"
    case JNum(_) => "float64"
    case JStr(_) => "string"
    case JArr(_) => "[]interface {}"
    case JObj(_) => "map[string]interface {}"
  }

  /** Outcome of a type assertion `v.(T)`: the value, or the text of the
      runtime panic it raises. */
  datatype Cast<+T> = Value(value: T) | Panic(text: string)

  function AssertionFailure(v: JVal, want: string): string
  {
    "interface conversion: interface {} is " + GoType(v) + ", not " + want
  }

  function AsString(v: JVal): (r: Cast<string>)
    ensures r.Value? <==> v.JStr?
    ensures r.Value? ==> r.value == v.s
    ensures r.Panic? ==> r.text == AssertionFailure(v, "string")
  {
    if v.JStr? then Value(v.s) else Panic(AssertionFailure(v, "string"))
  }

  function AsNumber(v: JVal): (r: Cast<int>)
    ensures r.Value? <==> v.JNum?
    ensures r.Value? ==> r.value == v.n
    ensures r.Panic? ==> r.text == AssertionFailure(v, "float64")
  {
    if v.JNum? then Value(v.n) else Panic(AssertionFailure(v, "float64"))
  }

  function AsArray(v: JVal): (r: Cast<seq<JVal>>)
    ensures r.Value? <==> v.JArr?
    ensures r.Value? ==> r.value == v.items
    ensures r.Panic? ==> r.text == AssertionFailure(v, "[]interface {}")
  {
    if v.JArr? then Value(v.items) else Panic(AssertionFailure(v, "[]interface {}"))
  }

  function AsObject(v: JVal): (r: Cast<map<string, JVal>>)
    ensures r.Value? <==> v.JObj?
    ensures r.Value? ==> r.value == v.fields
    ensures r.Panic? ==> r.text == AssertionFailure(v, "map[string]interface {}")
  {
    if v.JObj? then Value(v.fields) else Panic(AssertionFailure(v, "map[string]interface {}"))
  }

  // ---------------------------------------------------------------------
  // fmt.Sprint

  /** Decimal digits of a natural number, most significant first. */
  function Digits(n: nat): (r: string)
    ensures |r| >= 1
    ensures forall k :: 0 <= k < |r| ==> '0' <= r[k] <= '9'
    decreases n
  {
    if n < 10 then [Digit(n)] else Digits(n / 10) + [Digit(n % 10)]
  }

  function Digit(d: nat): (c: char)
    requires d < 10
    ensures '0' <= c <= '9'
    ensures (c as int) - ('0' as int) == d
  {
    "0123456789"[d]
  }

  /** `fmt.Sprint` of an int64: optional minus sign and decimal digits. */
  function IntText(n: int): (r: string)
    ensures |r| >= 1
    ensures r[0] == '-' <==> n < 0
    ensures forall k :: (if n < 0 then 1 else 0) <= k < |r| ==> '0' <= r[k] <= '9'
    ensures SignedValue(r) == n
  {
    DigitsValue(if n < 0 then -n else n);
    if n < 0 then
      assert ("-" + Digits(-n))[1..] == Digits(-n);
      "-" + Digits(-n)
    else Digits(n)
  }

  /** The number a string of decimal digits denotes. */
  function DecimalValue(s: string): nat
    decreases |s|
  {
    if s == [] then 0
    else
      var c := s[|s| - 1];
      DecimalValue(s[..|s| - 1]) * 10 + (if '0' <= c <= '9' then (c as int) - ('0' as int) else 0)
  }

  /** The number an optionally signed decimal text denotes. */
  function SignedValue(s: string): int
  {
    if |s| >= 1 && s[0] == '-' then 0 - DecimalValue(s[1..]) else DecimalValue(s)
  }

  /** Reading back the digits of `n` gives `n`. */
  lemma {:induction false} DigitsValue(n: nat)
    ensures DecimalValue(Digits(n)) == n
    decreases n
  {
    if n >= 10 {
      DigitsValue(n / 10);
      var d := Digits(n / 10) + [Digit(n % 10)];
      assert d[..|d| - 1] == Digits(n / 10);
    }
  }

  /** Ten to the power `k`. */
  function Pow10(k: nat): (r: nat)
    ensures r >= 1
  {
    if k == 0 then 1 else 10 * Pow10(k - 1)
  }

  /** `n` has at most `k` decimal digits exactly when it is below ten to the
      `k`. */
  lemma {:induction false} DigitsBelow(n: nat, k: nat)
    requires k >= 1
    ensures |Digits(n)| <= k <==> n < Pow10(k)
    decreases n
  {
    if n >= 10 {
      assert Pow10(k) == 10 * Pow10(k - 1);
      if k == 1 {
        assert Pow10(0) == 1;
      } else {
        DigitsBelow(n / 10, k - 1);
        assert n / 10 < Pow10(k - 1) <==> n < 10 * Pow10(k - 1);
      }
    } else {
      assert Pow10(k) >= 10 by { assert Pow10(k) == 10 * Pow10(k - 1); }
    }
  }

  /** Below a million exactly when at most six digits long. */
  lemma SixDigits(n: nat)
    ensures |Digits(n)| <= 6 <==> n < 1000000
  {
    DigitsBelow(n, 6);
    assert Pow10(6) == 1000000;
  }

  /** Drops trailing '0' digits, keeping at least one digit. */
  function TrimZeros(d: string): (r: string)
    requires |d| >= 1
    ensures 1 <= |r| <= |d| && r == d[..|r|]
    decreases |d|
  {
    if |d| > 1 && d[|d| - 1] == '0' then TrimZeros(d[..|d| - 1]) else d
  }

  /** `%v` of an integral float64: plain digits while the decimal exponent is
      below 6, otherwise the shortest `d.ddde+XX` form. */
  function FloatText(n: int): (r: string)
    ensures -1000000 < n < 1000000 ==> r == IntText(n)
    ensures |r| >= 1 && (r[0] == '-' <==> n < 0)
    ensures n <= -1000000 || 1000000 <= n ==>
      var exp := Digits(|Digits(Magnitude(n))| - 1);
      |exp| < |r| && r[|r| - |exp|..] == exp
  {
    var d := Digits(Magnitude(n));
    SixDigits(Magnitude(n));
    if |d| <= 6 then IntText(n)
    else ExpText(n < 0, d)
  }

  /** The absolute value. */
  function Magnitude(n: int): (r: nat)
    ensures r == n || r == -n
    ensures n <= -1000000 || 1000000 <= n <==> r >= 1000000
  {
    if n < 0 then -n else n
  }

  /** The `d.ddde+XX` form of the digits `d`: sign, first digit, the other
      digits without trailing zeros after a point, and the exponent with at
      least two digits. */
  function ExpText(negative: bool, d: string): (r: string)
    requires |d| >= 2 && forall k :: 0 <= k < |d| ==> '0' <= d[k] <= '9'
    ensures |r| >= 1 && (r[0] == '-' <==> negative)
    ensures |Digits(|d| - 1)| < |r| && r[|r| - |Digits(|d| - 1)|..] == Digits(|d| - 1)
  {
    var t := TrimZeros(d);
    var exp := |d| - 1;
    var mantissa := (if negative then "-" else "") + [t[0]] + (if |t| > 1 then "." + t[1..] else "");
    var e := "e+" + (if exp < 10 then "0" else "");
    assert mantissa[0] == (if negative then '-' else d[0]);
    assert (mantissa + e + Digits(exp))[|mantissa + e|..] == Digits(exp);
    mantissa + e + Digits(exp)
  }

  /** Strings joined with a separator between neighbours. */
  function Join(sep: string, parts: seq<string>): string
    decreases |parts|
  {
    if parts == [] then ""
    else if |parts| == 1 then parts[0]
    else parts[0] + sep + Join(sep, parts[1..])
  }

  /** Strict lexicographic order on strings by code point (UTF-8 byte order
      agrees with it), the order fmt uses for map keys. */
  predicate LexLess(a: string, b: string)
    decreases |a|
  {
    if a == [] then b != []
    else if b == [] then false
    else if a[0] != b[0] then a[0] < b[0]
    else LexLess(a[1..], b[1..])
  }

  lemma {:induction false} LexLessAsymmetric(a: string, b: string)
    ensures !(LexLess(a, b) && LexLess(b, a))
    decreases |a|
  {
    if a != [] && b != [] && a[0] == b[0] {
      LexLessAsymmetric(a[1..], b[1..]);
    }
  }

  lemma {:induction false} LexLessTotal(a: string, b: string)
    ensures a == b || LexLess(a, b) || LexLess(b, a)
    decreases |a|
  {
    if a != [] && b != [] && a[0] == b[0] {
      LexLessTotal(a[1..], b[1..]);
      if a[1..] == b[1..] {
        assert a == [a[0]] + a[1..] && b == [b[0]] + b[1..];
      }
    }
  }

  lemma {:induction false} LexLessTransitive(a: string, b: string, c: string)
    requires LexLess(a, b) && LexLess(b, c)
    ensures LexLess(a, c)
    decreases |a|
  {
    if a != [] && b != [] && c != [] && a[0] == b[0] && b[0] == c[0] {
      LexLessTransitive(a[1..], b[1..], c[1..]);
    }
  }

  predicate IsLeast(k: string, ks: set<string>)
  {
    k in ks && forall j :: j in ks && j != k ==> LexLess(k, j)
  }

  lemma {:induction false} LeastExists(ks: set<string>)
    requires ks != {}
    ensures exists k :: IsLeast(k, ks)
    decreases |ks|
  {
    var x :| x in ks;
    if ks == {x} {
      assert IsLeast(x, ks);
    } else {
      LeastExists(ks - {x});
      var k :| IsLeast(k, ks - {x});
      LexLessTotal(k, x);
      if LexLess(k, x) {
        assert IsLeast(k, ks);
      } else {
        forall j | j in ks && j != x
          ensures LexLess(x, j)
        {
          if j != k { LexLessTransitive(x, k, j); }
        }
        assert IsLeast(x, ks);
      }
    }
  }

  lemma LeastUnique(ks: set<string>)
    ensures forall k, k' :: IsLeast(k, ks) && IsLeast(k', ks) ==> k == k'
  {
    forall k, k' | IsLeast(k, ks) && IsLeast(k', ks)
      ensures k == k'
    {
      LexLessAsymmetric(k, k');
    }
  }

  /** The keys of a map in ascending order. */
  function SortedKeys(ks: set<string>): (r: seq<string>)
    ensures |r| == |ks|
    ensures forall k :: k in r <==> k in ks
    decreases |ks|
  {
    if ks == {} then []
    else
      LeastExists(ks);
      LeastUnique(ks);
      var k :| IsLeast(k, ks);
      [k] + SortedKeys(ks - {k})
  }

  /** `fmt.Sprint` of a decoded JSON value, as Go's `%v` prints it. */
  function Sprint(v: JVal): (r: string)
    ensures v.JStr? ==> r == v.s
    ensures v.JNull? ==> r == "<nil>"
  {
    match v
    case JNull => "<nil>"
    case JBool(b) => if b then "true" else "false"
    case JNum(n) => FloatText(n)
    case JStr(s) => s
    case JArr(items) =>
      "[" + Join(" ", seq(|items|, i requires 0 <= i < |items| => Sprint(items[i]))) + "]"
    case JObj(fields) =>
      var keys := SortedKeys(fields.Keys);
      "map[" + Join(" ", seq(|keys|, i requires 0 <= i < |keys| => keys[i] + ":" + Sprint(fields[keys[i]]))) + "]"
  }
}
