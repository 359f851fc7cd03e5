/** Note front-matter as Obsidian's metadata cache hands it over: a map from
    (possibly dotted) key names to YAML values, read with JavaScript's
    semantics for missing keys, truthiness and string conversion. */
module Frontmatter {
  import opened Wrappers
  import Decimal

  /** A YAML value. Numbers are modelled as integers. */
  datatype Value =
    | Null
    | Bool(b: bool)
    | Num(n: int)
    | Str(s: string)
    | List(items: seq<Value>)
    | Mapping(entries: map<string, Value>)

  /** A note's front-matter; a key that is absent reads as `undefined`. */
  type Fields = map<string, Value>

  /** `fm[key]`, with `None` standing for `undefined`. */
  function Field(fm: Fields, key: string): (v: Option<Value>)
    ensures v.Some? <==> key in fm
    ensures v.Some? ==> v.value == fm[key]
  {
    if key in fm then Some(fm[key]) else None
  }

  /** JavaScript truthiness: `undefined`, `null`, `false`, `0` and the empty
      string are falsy; every array and object, even an empty one, is
      truthy. */
  predicate Truthy(v: Option<Value>) {
    match v
    case None => false
    case Some(Null) => false
    case Some(Bool(b)) => b
    case Some(Num(n)) => n != 0
    case Some(Str(s)) => s != ""
    case Some(List(_)) => true
    case Some(Mapping(_)) => true
  }

  /** The decimal text of an integer: an optional minus sign, then the
      digits of its magnitude. This is JavaScript's text for integer-valued
      numbers of magnitude below 2^53. */
  function IntString(n: int): (s: string)
    ensures 0 <= n ==> Decimal.AllDigits(s) && Decimal.Value(s) == n
    ensures n < 0 ==> 1 < |s| && s[0] == '-' && Decimal.AllDigits(s[1..]) && Decimal.Value(s[1..]) == -n
    ensures 0 <= n ==> 1 <= |s| && (1 < |s| ==> s[0] != '0')
    ensures n < 0 ==> 2 < |s| ==> s[1] != '0'
  {
    if n < 0 then "-" + Decimal.Digits(-n) else Decimal.Digits(n)
  }

  /** The falsy values of JavaScript, as section 7.1.2 (ToBoolean) of
      ECMA-262 lists them for the kinds of value front-matter holds; an empty
      list or mapping is still truthy. */
  lemma FalsyValues(v: Option<Value>)
    ensures !Truthy(v) <==> v in {None, Some(Null), Some(Bool(false)), Some(Num(0)), Some(Str(""))}
    ensures Truthy(Some(List([]))) && Truthy(Some(Mapping(map[])))
  {
  }

  /** `String(v)`, the conversion a template literal applies to `v`. */
  function JsString(v: Value): string
    decreases v, 1
  {
    match v
    case Null => "null"
    case Bool(b) => if b then "true" else "false"
    case Num(n) => IntString(n)
    case Str(s) => s
    case List(items) => Join(items)
    case Mapping(_) => "[object Object]"
  }

  /** The text `join` gives one element: empty for `null`, else `String`. */
  function ElementText(v: Value): string
    decreases v, 2
  {
    if v == Null then "" else JsString(v)
  }

  /** `items.join(",")`, which renders `null` elements as empty text. */
  function Join(items: seq<Value>): string
    decreases items, 0
  {
    if |items| == 0 then ""
    else if |items| == 1 then ElementText(items[0])
    else ElementText(items[0]) + "," + Join(items[1..])
  }

  /** `Join` agrees with the left-to-right loop of section 23.1.3.18
      (Array.prototype.join) of ECMA-262: a one-element list gives that
      element's text, and each further element appends a comma and its
      text. */
  lemma {:induction false} JoinAppend(items: seq<Value>, x: Value)
    ensures Join([x]) == ElementText(x)
    ensures 0 < |items| ==> Join(items + [x]) == Join(items) + "," + ElementText(x)
    decreases |items|
  {
    if 1 < |items| {
      var rest := items[1..];
      assert (items + [x])[1..] == rest + [x];
      JoinAppend(rest, x);
      calc {
        Join(items + [x]);
        ElementText(items[0]) + "," + Join(rest + [x]);
        ElementText(items[0]) + "," + (Join(rest) + "," + ElementText(x));
        (ElementText(items[0]) + "," + Join(rest)) + "," + ElementText(x);
      }
    } else if |items| == 1 {
      assert (items + [x])[1..] == [x];
    }
  }
}
