/** A strict reader of JSON texts: no white space, names in order. Canonical texts read back as their values. */
module CanonicalJson {
  import opened Options
  import opened Json
  import opened Sequences
  import opened Strings

  datatype Got<T> = Got(value: T, rest: string) | Bad

  // ------------------------------------------------------------------------------------ strings

  function HexValue(c: char): (r: int)
    ensures -1 <= r < 16
  {
    if '0' <= c <= '9' then c as int - '0' as int
    else if 'a' <= c <= 'f' then c as int - 'a' as int + 10
    else if 'A' <= c <= 'F' then c as int - 'A' as int + 10
    else -1
  }

  /** The character that four hexadecimal digits stand for, short of surrogates. */
  function HexChar(t: string): Got<char>
    ensures HexChar(t).Got? ==> |HexChar(t).rest| < |t|
  {
    if |t| < 4 || HexValue(t[0]) < 0 || HexValue(t[1]) < 0 || HexValue(t[2]) < 0 || HexValue(t[3]) < 0 then Bad
    else
      var code := ((HexValue(t[0]) * 16 + HexValue(t[1])) * 16 + HexValue(t[2])) * 16 + HexValue(t[3]);
      if code < 0xD800 then Got(code as char, t[4..]) else Bad
  }

  /** One character of a string, escaped or plain. */
  function ReadChar(t: string): (r: Got<char>)
    ensures r.Got? ==> |r.rest| < |t|
  {
    if t == "" || t[0] == '"' || t[0] as int < 32 then Bad
    else if t[0] != '\\' then Got(t[0], t[1..])
    else if |t| == 1 then Bad
    else
      match t[1]
      case '"' => Got('"', t[2..])
      case '\\' => Got('\\', t[2..])
      case '/' => Got('/', t[2..])
      case 'b' => Got(8 as char, t[2..])
      case 'f' => Got(12 as char, t[2..])
      case 'n' => Got('\n', t[2..])
      case 'r' => Got('\r', t[2..])
      case 't' => Got('\t', t[2..])
      case 'u' => HexChar(t[2..])
      case _ => Bad
  }

  /** The rest of a string, after its opening quotation mark. */
  function ReadString(t: string): (r: Got<string>)
    ensures r.Got? ==> |r.rest| < |t|
    decreases |t|
  {
    if t != "" && t[0] == '"' then Got("", t[1..])
    else
      match ReadChar(t)
      case Bad => Bad
      case Got(c, u) =>
        match ReadString(u)
        case Bad => Bad
        case Got(s, rest) => Got([c] + s, rest)
  }

  // ------------------------------------------------------------------------------------ numbers

  function NumeralEnd(t: string): (n: nat)
    ensures n <= |t| && (forall i :: 0 <= i < n ==> IsNumeral(t[i])) && (n < |t| ==> !IsNumeral(t[n]))
  {
    if t == "" || !IsNumeral(t[0]) then 0 else 1 + NumeralEnd(t[1..])
  }

  /** The number that decimal digits stand for. */
  function DigitsValue(s: string): nat
    requires forall c :: c in s ==> IsDigit(c)
  {
    if s == "" then 0
    else
      assert s[|s| - 1] in s && IsDigit(s[|s| - 1]);
      DigitsValue(s[..|s| - 1]) * 10 + (s[|s| - 1] as int - '0' as int)
  }

  predicate AllDigits(s: string) { s != "" && forall c :: c in s ==> IsDigit(c) }

  /** A number with a point or an exponent is a decimal, any other an integer. */
  function NumberOf(text: string): Got<Json> {
    if IsDecimalText(text) then Got(Decimal(text), "")
    else
      var (negative, digits) := if text != "" && text[0] == '-' then (true, text[1..]) else (false, text);
      if !AllDigits(digits) then Bad
      else
        var n: int := if negative then 0 - DigitsValue(digits) else DigitsValue(digits);
        if -0x8000_0000_0000_0000 <= n < 0x8000_0000_0000_0000 then Got(Integer(n), "") else Bad
  }

  // ------------------------------------------------------------------------------------- values

  function Literal(t: string, word: string, value: Json): (r: Got<Json>)
    requires word != ""
    ensures r.Got? ==> |r.rest| < |t|
  {
    if word <= t then Got(value, t[|word|..]) else Bad
  }

  function ReadNumber(t: string): (r: Got<Json>)
    ensures r.Got? ==> |r.rest| < |t|
  {
    var n := NumeralEnd(t);
    if n == 0 || NumberOf(t[..n]).Bad? then Bad else Got(NumberOf(t[..n]).value, t[n..])
  }

  function ReadValue(t: string): (r: Got<Json>)
    ensures r.Got? ==> |r.rest| < |t|
    decreases |t|, 1
  {
    if t == "" then Bad
    else
      match t[0]
      case 'n' => Literal(t, "null", Null)
      case 't' => Literal(t, "true", Bool(true))
      case 'f' => Literal(t, "false", Bool(false))
      case '"' =>
        (match ReadString(t[1..])
         case Bad => Bad
         case Got(s, rest) => Got(Str(s), rest))
      case '[' =>
        if |t| > 1 && t[1] == ']' then Got(Arr([]), t[2..])
        else
          (match ReadItems(t[1..])
           case Bad => Bad
           case Got(items, rest) => Got(Arr(items), rest))
      case '{' =>
        if |t| > 1 && t[1] == '}' then Got(Obj(map[]), t[2..])
        else
          (match ReadMembers(t[1..], None)
           case Bad => Bad
           case Got(fields, rest) => Got(Obj(fields), rest))
      case _ => ReadNumber(t)
  }

  /** One item or more, with commas between them, and the closing bracket. */
  function ReadItems(t: string): (r: Got<seq<Json>>)
    ensures r.Got? ==> |r.rest| < |t|
    decreases |t|, 2
  {
    match ReadValue(t)
    case Bad => Bad
    case Got(item, u) =>
      if u == "" then Bad
      else if u[0] == ']' then Got([item], u[1..])
      else if u[0] != ',' then Bad
      else
        match ReadItems(u[1..])
        case Bad => Bad
        case Got(items, rest) => Got([item] + items, rest)
  }

  /** The strings are equal up to where the first ends or has the smaller character. */
  predicate Precedes(a: string, b: string) {
    exists n :: 0 <= n <= |a| && n < |b| && a[..n] == b[..n] && (n < |a| ==> a[n] < b[n])
  }

  /** One member or more, and the closing brace; each name must come after the one before. */
  function ReadMembers(t: string, before: Option<string>): (r: Got<map<string, Json>>)
    ensures r.Got? ==> |r.rest| < |t|
    decreases |t|, 2
  {
    if t == "" || t[0] != '"' then Bad
    else
      match ReadString(t[1..])
      case Bad => Bad
      case Got(name, u) =>
        if before.Some? && !Precedes(before.value, name) then Bad
        else if u == "" || u[0] != ':' then Bad
        else
          match ReadValue(u[1..])
          case Bad => Bad
          case Got(value, v) =>
            if v == "" then Bad
            else if v[0] == '}' then Got(map[name := value], v[1..])
            else if v[0] != ',' then Bad
            else
              match ReadMembers(v[1..], Some(name))
              case Bad => Bad
              case Got(fields, rest) => Got(map[name := value] + fields, rest)
  }

  // ------------------------------------------------------------------------------- reading back

  /** What may follow a value: nothing, or a character that no number contains. */
  predicate Stops(x: string) {
    x == "" || x[0] == ',' || x[0] == ']' || x[0] == '}' || x[0] == '\n'
  }

  lemma HexBack(n: nat)
    requires n < 16
    ensures HexValue(Hex(n)) == n
  {
  }

  lemma CharBack(c: char, u: string)
    ensures ReadChar(Escaped(c) + u) == Got(c, u)
  {
    var e := Escaped(c);
    var t := e + u;
    assert t[0] == e[0] && t[|e|..] == u;
    if |e| > 1 { assert t[1] == e[1]; }
    if |e| == 6 {
      var n := c as int;
      HexBack(n / 16);
      HexBack(n % 16);
      assert t[2..][0] == '0' && t[2..][1] == '0' && t[2..][2] == Hex(n / 16) && t[2..][3] == Hex(n % 16);
      assert t[2..][4..] == u;
    }
  }

  lemma EscapedStart(c: char)
    ensures Escaped(c) != "" && Escaped(c)[0] != '"'
  {
  }

  lemma {:induction false} StringBack(s: string, x: string)
    ensures ReadString(EscapedAll(s) + ("\"" + x)) == Got(s, x)
    decreases |s|
  {
    hide Escaped, ReadChar;
    var t := EscapedAll(s) + ("\"" + x);
    if s == "" {
      assert t == "\"" + x && t[1..] == x;
    } else {
      var more := EscapedAll(s[1..]) + ("\"" + x);
      Assoc(Escaped(s[0]), EscapedAll(s[1..]), "\"" + x);
      assert t == Escaped(s[0]) + more;
      EscapedStart(s[0]);
      assert t[0] == Escaped(s[0])[0];
      CharBack(s[0], more);
      StringBack(s[1..], x);
      assert s == [s[0]] + s[1..];
    }
  }

  /** A quoted string and what follows it. */
  lemma QuotedBack(s: string, x: string)
    ensures var t := Quoted(s) + x; t != "" && t[0] == '"' && ReadString(t[1..]) == Got(s, x)
  {
    hide EscapedAll, ReadString;
    StringBack(s, x);
    var t := Quoted(s) + x;
    assert t[1..] == EscapedAll(s) + ("\"" + x);
  }

  lemma {:induction false} DigitsAreDigits(n: nat)
    ensures Digits(n) != "" && forall c :: c in Digits(n) ==> IsDigit(c)
  {
    if n >= 10 { DigitsAreDigits(n / 10); }
  }

  /** The digits of a number stand for it. */
  lemma {:induction false} DigitsBack(n: nat)
    ensures AllDigits(Digits(n)) && DigitsValue(Digits(n)) == n
  {
    DigitsAreDigits(n);
    if n >= 10 {
      DigitsBack(n / 10);
      var s := Digits(n);
      assert s[..|s| - 1] == Digits(n / 10);
    } else {
      assert Digits(n)[..0] == "";
    }
  }

  lemma NotDecimal(text: string, digits: string, negative: bool)
    requires AllDigits(digits) && text == (if negative then "-" else "") + digits
    ensures !IsDecimalText(text) && text != "" && (text[0] == '-' <==> negative)
    ensures (forall c :: c in text ==> IsNumeral(c)) && (IsDigit(text[0]) || text[0] == '-')
  {
    assert digits[0] in digits;
    assert forall c :: c in text ==> c == '-' || c in digits;
  }

  lemma IntegerBack(n: Int64)
    ensures var text := IntegerText(n);
      && NumberOf(text) == Got(Integer(n), "")
      && text != "" && (forall c :: c in text ==> IsNumeral(c)) && (IsDigit(text[0]) || text[0] == '-')
  {
    var m: nat := if n < 0 then 0 - n as int else n as int;
    DigitsBack(m);
    DigitsAreDigits(m);
    var text, digits := IntegerText(n), Digits(m);
    NotDecimal(text, digits, n < 0);
    hide Digits, DigitsValue, IsDecimalText;
    if n < 0 {
      assert text[1..] == digits;
    } else {
      assert text[0] in digits;
    }
  }

  lemma NumeralStops(text: string, x: string)
    requires (forall c :: c in text ==> IsNumeral(c)) && Stops(x)
    ensures NumeralEnd(text + x) == |text| && (text + x)[..|text|] == text && (text + x)[|text|..] == x
  {
    var t, n := text + x, NumeralEnd(text + x);
    assert forall i :: 0 <= i < |text| ==> t[i] == text[i] && text[i] in text;
    assert x != "" ==> t[|text|] == x[0];
  }

  lemma NumberBack(j: Json, x: string)
    requires (j.Integer? || j.Decimal?) && Stops(x)
    ensures ReadValue(Canonical(j) + x) == Got(j, x)
  {
    hide NumeralEnd, ReadString, ReadItems, ReadMembers, Literal;
    if j.Integer? { IntegerBack(j.n); }
    hide IntegerText, IsDecimalText;
    var text := Canonical(j);
    NumeralStops(text, x);
    assert (text + x)[0] == text[0];
  }

  lemma WordBack(word: string, value: Json, x: string)
    requires word != ""
    ensures Literal(word + x, word, value) == Got(value, x) && (word + x)[0] == word[0]
  {
    assert (word + x)[|word|..] == x;
  }

  /** The canonical text of a value reads back as the value, whatever follows that ends a number. */
  lemma {:induction false} CanonicalBack(j: Json, x: string)
    requires Stops(x)
    ensures ReadValue(Canonical(j) + x) == Got(j, x)
    decreases j, 2, 0
  {
    match j
    case Null => WordBack("null", j, x);
    case Bool(b) => WordBack(if b then "true" else "false", j, x);
    case Integer(_) => NumberBack(j, x);
    case Decimal(_) => NumberBack(j, x);
    case Str(s) => QuotedBack(s, x);
    case Arr(_) => ArrayBack(j, x);
    case Obj(_) => ObjectBack(j, x);
  }

  lemma ArrayText(j: Json, x: string)
    requires j.Arr?
    ensures var items := Items(j.items, true) + ("]" + x);
      Canonical(j) + x == "[" + items && (Canonical(j) + x)[1..] == items
  {
    hide Items;
    var items := Items(j.items, true);
    Assoc("[", items + "]", x);
    Assoc(items, "]", x);
  }

  lemma ArrayBack(j: Json, x: string)
    requires j.Arr?
    ensures ReadValue(Canonical(j) + x) == Got(j, x)
    decreases j, 1, 0
  {
    ArrayText(j, x);
    if j.items == [] {
      assert Items([], true) + ("]" + x) == "]" + x && ("[" + ("]" + x))[2..] == x;
    }
    hide Canonical, Items, ReadItems, ReadMembers, ReadString, ReadNumber, Literal;
    if j.items != [] {
      ItemsBack(j.items, x);
      FirstItem(j.items, x);
    }
  }

  /** The text of items does not start with the closing bracket. */
  lemma FirstItem(items: seq<Json>, x: string)
    requires items != []
    ensures var t := Items(items, true) + ("]" + x); t != "" && t[0] != ']'
  {
    ValueStart(items[0]);
    hide Canonical;
    assert Items(items, true) == "" + (Canonical(items[0]) + Items(items[1..], false));
  }

  lemma ValueStart(j: Json)
    ensures Canonical(j) != "" && Canonical(j)[0] !in {']', '}', ','}
  {
    hide Items, Members, EscapedAll;
    if j.Integer? { IntegerBack(j.n); }
  }

  lemma {:induction false} ItemsBack(items: seq<Json>, x: string)
    requires items != []
    ensures ReadItems(Items(items, true) + ("]" + x)) == Got(items, x)
    decreases items, 0, 0
  {
    hide Canonical, ReadValue;
    var t := Items(items, true) + ("]" + x);
    var rest := Items(items[1..], false) + ("]" + x);
    assert t == Canonical(items[0]) + rest by { ItemsFront(items, x); }
    if |items| == 1 {
      assert rest == "]" + x && rest[1..] == x && items == [items[0]];
      CanonicalBack(items[0], rest);
    } else {
      var more := Items(items[1..], true) + ("]" + x);
      assert rest == "," + more && rest[1..] == more by { CommaFirst(items[1..], x); }
      CanonicalBack(items[0], rest);
      ItemsBack(items[1..], x);
      assert items == [items[0]] + items[1..];
    }
  }

  lemma ItemsFront(items: seq<Json>, x: string)
    requires items != []
    ensures Items(items, true) + ("]" + x) == Canonical(items[0]) + (Items(items[1..], false) + ("]" + x))
  {
    hide Canonical;
    var head, rest := Canonical(items[0]), Items(items[1..], false);
    assert Items(items, true) == "" + (head + rest) && "" + (head + rest) == head + rest;
    hide Items;
    Assoc(head, rest, "]" + x);
  }

  lemma CommaFirst(items: seq<Json>, x: string)
    requires items != []
    ensures Items(items, false) + ("]" + x) == "," + (Items(items, true) + ("]" + x))
  {
    hide Canonical;
    var body := Canonical(items[0]) + Items(items[1..], false);
    assert Items(items, true) == "" + body && "" + body == body;
    Assoc(",", body, "]" + x);
  }

  // ------------------------------------------------------------------------------------ objects

  predicate KeysOf(o: Json, ks: seq<string>) {
    o.Obj? && forall k :: k in ks ==> k in o.fields
  }

  /** The members of an object that have the names. */
  function Picked(o: Json, ks: seq<string>): map<string, Json>
    requires KeysOf(o, ks)
  {
    map k | k in ks :: o.fields[k]
  }

  lemma PickedFront(o: Json, ks: seq<string>)
    requires KeysOf(o, ks) && ks != [] && ks[0] !in ks[1..]
    ensures Picked(o, ks) == map[ks[0] := o.fields[ks[0]]] + Picked(o, ks[1..])
    ensures |ks| == 1 ==> Picked(o, ks) == map[ks[0] := o.fields[ks[0]]]
  {
    assert ks == [ks[0]] + ks[1..];
    assert |ks| == 1 ==> Picked(o, ks[1..]) == map[];
  }

  lemma AllPicked(o: Json)
    requires o.Obj?
    ensures var ks := SortedKeys(o.fields.Keys);
      && KeysOf(o, ks) && Picked(o, ks) == o.fields
      && (forall i, k :: 0 <= i < k < |ks| ==> Less(ks[i], ks[k]))
      && (ks == [] ==> o.fields == map[])
  {
    var ks := SortedKeys(o.fields.Keys);
    assert ks == [] ==> o.fields.Keys == {};
  }

  lemma ObjectText(j: Json, x: string)
    requires j.Obj?
    ensures var members := Members(j, SortedKeys(j.fields.Keys), true) + ("}" + x);
      Canonical(j) + x == "{" + members && (Canonical(j) + x)[1..] == members
  {
    hide Members, SortedKeys;
    var members := Members(j, SortedKeys(j.fields.Keys), true);
    Assoc("{", members + "}", x);
    Assoc(members, "}", x);
  }

  lemma BraceRead(u: string, fields: map<string, Json>, rest: string)
    requires u != ""
    requires if u[0] == '}' then fields == map[] && u[1..] == rest else ReadMembers(u, None) == Got(fields, rest)
    ensures ReadValue("{" + u) == Got(Obj(fields), rest)
  {
    hide ReadMembers, ReadItems, ReadString, ReadNumber, Literal;
    var t := "{" + u;
    assert t[0] == '{' && t[1] == u[0] && t[1..] == u && t[2..] == u[1..];
  }

  lemma NoMembers(j: Json, x: string)
    requires j.Obj?
    ensures Members(j, [], true) + ("}" + x) == "}" + x && ("}" + x)[1..] == x
  {
  }

  lemma ObjectBack(j: Json, x: string)
    requires j.Obj?
    ensures ReadValue(Canonical(j) + x) == Got(j, x)
    decreases j, 1, |SortedKeys(j.fields.Keys)| + 2
  {
    var ks := SortedKeys(j.fields.Keys);
    ObjectText(j, x);
    AllPicked(j);
    hide Canonical, Members, ReadValue, ReadMembers, SortedKeys, Picked;
    if ks == [] {
      NoMembers(j, x);
      BraceRead("}" + x, map[], x);
    } else {
      FirstMember(j, ks, x);
      MembersBack(j, ks, None, x);
      BraceRead(Members(j, ks, true) + ("}" + x), j.fields, x);
    }
  }

  lemma FirstMember(j: Json, ks: seq<string>, x: string)
    requires KeysOf(j, ks) && ks != []
    ensures var t := Members(j, ks, true) + ("}" + x); t != "" && t[0] == '"'
  {
    hide Canonical;
    MembersFront(j, ks, x);
  }

  lemma {:induction false} LessPrecedes(a: string, b: string) returns (n: nat)
    requires Less(a, b)
    ensures n <= |a| && n < |b| && a[..n] == b[..n] && (n < |a| ==> a[n] < b[n])
  {
    if a == "" || a[0] < b[0] {
      n := 0;
    } else {
      n := LessPrecedes(a[1..], b[1..]);
      n := n + 1;
      assert a[..n] == [a[0]] + a[1..][..n - 1] && b[..n] == [b[0]] + b[1..][..n - 1];
    }
  }

  lemma Ascending(ks: seq<string>)
    requires ks != [] && forall i, k :: 0 <= i < k < |ks| ==> Less(ks[i], ks[k])
    ensures ks[0] !in ks[1..] && (|ks| > 1 ==> Precedes(ks[0], ks[1]))
  {
    LessIrreflexive(ks[0]);
    if |ks| > 1 { var n := LessPrecedes(ks[0], ks[1]); }
  }

  /** One member is read, and the rest is read after a comma. */
  lemma MemberRead(key: string, j: Json, rest: string, before: Option<string>)
    requires before.Some? ==> Precedes(before.value, key)
    requires rest != "" && (rest[0] == ',' || rest[0] == '}')
    requires ReadValue(Canonical(j) + rest) == Got(j, rest)
    ensures ReadMembers(Quoted(key) + (":" + (Canonical(j) + rest)), before) ==
      if rest[0] == '}' then Got(map[key := j], rest[1..])
      else
        match ReadMembers(rest[1..], Some(key))
        case Bad => Bad
        case Got(fields, x) => Got(map[key := j] + fields, x)
  {
    hide Canonical, ReadValue, Quoted, ReadString, Precedes;
    var u := ":" + (Canonical(j) + rest);
    QuotedBack(key, u);
    assert u[1..] == Canonical(j) + rest;
  }

  lemma {:induction false} MembersBack(j: Json, ks: seq<string>, before: Option<string>, x: string)
    requires KeysOf(j, ks) && ks != [] && forall i, k :: 0 <= i < k < |ks| ==> Less(ks[i], ks[k])
    requires before.Some? ==> Precedes(before.value, ks[0])
    ensures ReadMembers(Members(j, ks, true) + ("}" + x), before) == Got(Picked(j, ks), x)
    decreases j, 1, |ks|
  {
    hide Canonical, ReadValue, ReadMembers, Quoted, Picked, Less, Precedes;
    Ascending(ks);
    PickedFront(j, ks);
    var key, value := ks[0], j.fields[ks[0]];
    var rest := Members(j, ks[1..], false) + ("}" + x);
    MembersFront(j, ks, x);
    if |ks| == 1 {
      assert rest == "}" + x && rest[1..] == x;
      CanonicalBack(value, rest);
    } else {
      var more := Members(j, ks[1..], true) + ("}" + x);
      assert rest == "," + more && rest[1..] == more by { CommaBefore(j, ks[1..], x); }
      CanonicalBack(value, rest);
      MembersBack(j, ks[1..], Some(key), x);
    }
    MemberRead(key, value, rest, before);
  }

  lemma MembersFront(j: Json, ks: seq<string>, x: string)
    requires KeysOf(j, ks) && ks != []
    ensures Members(j, ks, true) + ("}" + x)
      == Quoted(ks[0]) + (":" + (Canonical(j.fields[ks[0]]) + (Members(j, ks[1..], false) + ("}" + x))))
    ensures (Members(j, ks, true) + ("}" + x))[0] == '"'
  {
    hide Canonical, EscapedAll;
    var key, value, rest := Quoted(ks[0]), Canonical(j.fields[ks[0]]), Members(j, ks[1..], false);
    assert Members(j, ks, true) == "" + (key + (":" + (value + rest)));
    assert key[0] == '"';
    hide Quoted, Members;
    Assoc(key, ":" + (value + rest), "}" + x);
    Assoc(":", value + rest, "}" + x);
    Assoc(value, rest, "}" + x);
  }

  lemma CommaBefore(j: Json, ks: seq<string>, x: string)
    requires KeysOf(j, ks) && ks != []
    ensures Members(j, ks, false) + ("}" + x) == "," + (Members(j, ks, true) + ("}" + x))
  {
    hide Canonical, Quoted;
    var body := Quoted(ks[0]) + (":" + (Canonical(j.fields[ks[0]]) + Members(j, ks[1..], false)));
    assert Members(j, ks, true) == "" + body && "" + body == body;
    Assoc(",", body, "}" + x);
  }

  // ------------------------------------------------------------------------------------- results

  /** Two canonical texts that agree, with what follows them, are of one value. */
  lemma CanonicalUnique(a: Json, b: Json, x: string, y: string)
    requires Canonical(a) + x == Canonical(b) + y && Stops(x) && Stops(y)
    ensures a == b && x == y
  {
    hide Canonical, ReadValue;
    CanonicalBack(a, x);
    CanonicalBack(b, y);
  }

  /** Different values have different canonical texts. */
  lemma CanonicalInjective(a: Json, b: Json)
    requires Canonical(a) == Canonical(b)
    ensures a == b
  {
    hide Canonical;
    CanonicalUnique(a, b, "", "");
  }
}
