/** JSON values and the canonical text they are written as. */
module Json {
  import opened Strings

  predicate IsNumeral(c: char) {
    IsDigit(c) || c == '-' || c == '+' || c == '.' || c == 'e' || c == 'E'
  }

  /** The canonical text of a decimal, which always has a point or an exponent. */
  predicate IsDecimalText(s: string) {
    && s != "" && (IsDigit(s[0]) || s[0] == '-')
    && (forall c :: c in s ==> IsNumeral(c))
    && ('.' in s || 'e' in s || 'E' in s)
  }

  type DecimalText = s: string | IsDecimalText(s) witness "0.0"

  /** The integers that both bindings hold in 64 bits. */
  type Int64 = n: int | -0x8000_0000_0000_0000 <= n < 0x8000_0000_0000_0000

  datatype Json =
    | Null
    | Bool(b: bool)
    | Integer(n: Int64)
    | Decimal(text: DecimalText)
    | Str(s: string)
    | Arr(items: seq<Json>)
    | Obj(fields: map<string, Json>)

  // ------------------------------------------------------------------------------- sorted keys

  /** The order of strings by their first difference. */
  predicate Less(a: string, b: string) {
    b != "" && (a == "" || a[0] < b[0] || (a[0] == b[0] && Less(a[1..], b[1..])))
  }

  lemma {:induction false} LessTotal(a: string, b: string)
    ensures a == b || Less(a, b) || Less(b, a)
  {
    if a != "" && b != "" && a[0] == b[0] {
      LessTotal(a[1..], b[1..]);
      assert a == [a[0]] + a[1..] && b == [b[0]] + b[1..];
    }
  }

  lemma {:induction false} LessTransitive(a: string, b: string, c: string)
    requires Less(a, b) && Less(b, c)
    ensures Less(a, c)
  {
    if a != "" && a[0] == b[0] && b[0] == c[0] { LessTransitive(a[1..], b[1..], c[1..]); }
  }

  lemma {:induction false} LessIrreflexive(a: string)
    ensures !Less(a, a)
  {
    if a != "" { LessIrreflexive(a[1..]); }
  }

  predicate IsLeast(k: string, keys: set<string>) {
    k in keys && forall x :: x in keys && x != k ==> Less(k, x)
  }

  lemma LeastUnique(keys: set<string>)
    ensures forall k, m :: IsLeast(k, keys) && IsLeast(m, keys) ==> k == m
  {
    forall k, m | IsLeast(k, keys) && IsLeast(m, keys) && k != m ensures false {
      LessTransitive(k, m, k);
      LessIrreflexive(k);
    }
  }

  lemma {:induction false} LeastExists(keys: set<string>)
    requires keys != {}
    ensures exists k :: IsLeast(k, keys)
  {
    var k :| k in keys;
    if keys == {k} {
      assert IsLeast(k, keys);
    } else {
      var rest := keys - {k};
      assert keys == rest + {k};
      LeastExists(rest);
      var m :| IsLeast(m, rest);
      LessTotal(k, m);
      if Less(k, m) {
        forall x | x in keys && x != k ensures Less(k, x) {
          if x != m { LessTransitive(k, m, x); }
        }
        assert IsLeast(k, keys);
      } else {
        assert IsLeast(m, keys);
      }
    }
  }

  /** The keys of an object in the order a sorted map gives them. */
  function SortedKeys(keys: set<string>): (ks: seq<string>)
    ensures forall k :: k in ks <==> k in keys
    ensures forall i, j :: 0 <= i < j < |ks| ==> Less(ks[i], ks[j])
  {
    if keys == {} then []
    else
      LeastExists(keys);
      LeastUnique(keys);
      var k :| k in keys && IsLeast(k, keys);
      assert keys == (keys - {k}) + {k};
      [k] + SortedKeys(keys - {k})
  }

  // ----------------------------------------------------------------------------- canonical text

  function Digits(n: nat): string {
    if n < 10 then ['0' + n as char] else Digits(n / 10) + ['0' + (n % 10) as char]
  }

  function IntegerText(n: int): string {
    if n < 0 then "-" + Digits(-n) else Digits(n)
  }

  function Hex(n: nat): char
    requires n < 16
  {
    if n < 10 then '0' + n as char else 'a' + (n - 10) as char
  }

  function Escaped(c: char): string {
    if c == '"' then "\\\""
    else if c == '\\' then "\\\\"
    else if c as int == 8 then "\\b"
    else if c as int == 12 then "\\f"
    else if c == '\n' then "\\n"
    else if c == '\r' then "\\r"
    else if c == '\t' then "\\t"
    else if c as int < 32 then "\\u00" + [Hex(c as int / 16), Hex(c as int % 16)]
    else [c]
  }

  function EscapedAll(s: string): string {
    if s == "" then "" else Escaped(s[0]) + EscapedAll(s[1..])
  }

  function Quoted(s: string): string {
    "\"" + (EscapedAll(s) + "\"")
  }

  function Canonical(j: Json): string
    decreases j, 1, 0
  {
    match j
    case Null => "null"
    case Bool(b) => if b then "true" else "false"
    case Integer(n) => IntegerText(n)
    case Decimal(text) => text
    case Str(s) => Quoted(s)
    case Arr(items) => "[" + (Items(items, true) + "]")
    case Obj(fields) => "{" + (Members(j, SortedKeys(fields.Keys), true) + "}")
  }

  function Comma(first: bool): string { if first then "" else "," }

  function Items(items: seq<Json>, first: bool): string
    decreases items, 0, 0
  {
    if items == [] then "" else Comma(first) + (Canonical(items[0]) + Items(items[1..], false))
  }

  function Members(o: Json, keys: seq<string>, first: bool): string
    requires o.Obj? && forall k :: k in keys ==> k in o.fields
    decreases o, 0, |keys|
  {
    if keys == [] then ""
    else Comma(first) + (Quoted(keys[0]) + (":" + (Canonical(o.fields[keys[0]]) + Members(o, keys[1..], false))))
  }
}
