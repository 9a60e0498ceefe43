// json.dumps(value, separators=(",", ":"), ensure_ascii=True) on values with string keys, and why it is injective.
module JsonText {

  predicate IsDelimiter(c: char) { c == ',' || c == ']' || c == '}' }

  predicate IsPlain(repr: string) {
    |repr| > 0 && repr[0] !in "\"[{" && forall i :: 0 <= i < |repr| ==> !IsDelimiter(repr[i])
  }

  // The text of a number, a boolean or null.
  type ScalarText = s: string | IsPlain(s) witness "0"

  // A dictionary keeps its insertion order.
  datatype Json = Scalar(repr: ScalarText) | Str(s: string) | Arr(items: seq<Json>) | Obj(fields: seq<Field>)
  datatype Field = Field(key: string, value: Json)

  // ----- Strings -----

  function Hex(d: nat): char
    requires d < 16
  {
    "0123456789abcdef"[d]
  }

  // \uXXXX
  function Unit(n: nat): string
    requires n < 0x10000
  {
    "\\u" + [Hex(n / 16 / 16 / 16), Hex(n / 16 / 16 % 16), Hex(n / 16 % 16), Hex(n % 16)]
  }

  function ShortEscape(c: char): string {
    match c
    case '"' => "\\\""
    case '\\' => "\\\\"
    case '\n' => "\\n"
    case '\r' => "\\r"
    case '\t' => "\\t"
    case '\U{8}' => "\\b"
    case '\U{c}' => "\\f"
    case _ => ""
  }

  function Escape(c: char): string {
    if ShortEscape(c) != "" then ShortEscape(c)
    else if ' ' <= c <= '~' then [c]
    else if c as nat < 0x10000 then Unit(c as nat)
    else Unit(0xd800 + (c as nat - 0x10000) / 0x400) + Unit(0xdc00 + (c as nat - 0x10000) % 0x400)
  }

  function EscapeAll(s: string): string {
    if s == "" then "" else Escape(s[0]) + EscapeAll(s[1..])
  }

  function Quote(s: string): string { "\"" + EscapeAll(s) + "\"" }

  lemma Appended(s: string, x: string)
    ensures (s + x)[..|s|] == s && (s + x)[|s|..] == x
    ensures s != "" ==> (s + x)[0] == s[0]
  {
  }

  lemma Associate(a: string, b: string, c: string, d: string)
    ensures a + b + c + d == a + (b + c + d)
    ensures a != "" ==> (a + b + c + d)[0] == a[0]
  {
  }

  lemma Closed(close: string, x: string)
    requires close != ""
    ensures "" + close + x == close + x && ("" + close + x)[0] == close[0] && ("" + close + x)[1..] == close[1..] + x
  {
  }

  lemma Continued(text: string, close: string, x: string)
    ensures ("," + text + close + x)[0] == ',' && ("," + text + close + x)[1..] == text + close + x
  {
  }

  lemma HexIsInjective(c: nat, d: nat)
    requires c < 16 && d < 16 && Hex(c) == Hex(d)
    ensures c == d
  {
  }

  lemma UnitPrefix(m: nat, n: nat, x: string, y: string)
    requires m < 0x10000 && n < 0x10000 && Unit(m) + x == Unit(n) + y
    ensures m == n && x == y
  {
    var l, r := Unit(m) + x, Unit(n) + y;
    assert l[..6] == Unit(m) && r[..6] == Unit(n) && l[6..] == x && r[6..] == y;
    assert Unit(m)[2] == Unit(n)[2] && Unit(m)[3] == Unit(n)[3] && Unit(m)[4] == Unit(n)[4] && Unit(m)[5] == Unit(n)[5];
    HexIsInjective(m / 16 / 16 / 16, n / 16 / 16 / 16);
    HexIsInjective(m / 16 / 16 % 16, n / 16 / 16 % 16);
    HexIsInjective(m / 16 % 16, n / 16 % 16);
    HexIsInjective(m % 16, n % 16);
  }

  // The escape's length and first two characters tell the kinds of characters apart.
  lemma EscapeStarts(c: char)
    ensures |Escape(c)| > 0 && Escape(c)[0] != '"'
    ensures Escape(c)[0] != '\\' ==> Escape(c) == [c]
    ensures Escape(c)[0] == '\\' ==> |Escape(c)| >= 2
    ensures Escape(c)[0] == '\\' && Escape(c)[1] != 'u' ==> Escape(c) == ShortEscape(c)
    ensures Escape(c)[0] == '\\' && Escape(c)[1] == 'u' ==>
      |Escape(c)| >= 6 && Escape(c)[..6] == Unit(FirstUnit(c)) && Escape(c)[6..] == Rest(c)
  {
  }

  function FirstUnit(c: char): (n: nat)
    ensures n < 0x10000 && (c as nat >= 0x10000 <==> 0xd800 <= n < 0xdc00)
  {
    if c as nat < 0x10000 then c as nat else 0xd800 + (c as nat - 0x10000) / 0x400
  }

  function Rest(c: char): string {
    if c as nat < 0x10000 then "" else Unit(0xdc00 + (c as nat - 0x10000) % 0x400)
  }

  lemma ShortEscapePrefix(c: char, d: char, x: string, y: string)
    requires ShortEscape(c) != "" && ShortEscape(d) != "" && ShortEscape(c) + x == ShortEscape(d) + y
    ensures c == d && x == y
  {
    var l, r := ShortEscape(c) + x, ShortEscape(d) + y;
    assert l[1] == ShortEscape(c)[1] && r[1] == ShortEscape(d)[1];
    assert l[2..] == x && r[2..] == y;
  }

  lemma LongEscapePrefix(c: char, d: char, x: string, y: string)
    requires Unit(FirstUnit(c)) + (Rest(c) + x) == Unit(FirstUnit(d)) + (Rest(d) + y)
    ensures c == d && x == y
  {
    hide Unit;
    UnitPrefix(FirstUnit(c), FirstUnit(d), Rest(c) + x, Rest(d) + y);
    if c as nat >= 0x10000 {
      UnitPrefix(0xdc00 + (c as nat - 0x10000) % 0x400, 0xdc00 + (d as nat - 0x10000) % 0x400, x, y);
      var m, n := c as nat - 0x10000, d as nat - 0x10000;
      assert m == m / 0x400 * 0x400 + m % 0x400 && n == n / 0x400 * 0x400 + n % 0x400;
    } else {
      assert Rest(c) + x == x && Rest(d) + y == y;
    }
  }

  lemma EscapePrefix(c: char, d: char, x: string, y: string)
    requires Escape(c) + x == Escape(d) + y
    ensures c == d && x == y
  {
    EscapeStarts(c);
    EscapeStarts(d);
    hide Escape, Unit, ShortEscape, FirstUnit, Rest;
    var l, r := Escape(c) + x, Escape(d) + y;
    Appended(Escape(c), x);
    Appended(Escape(d), y);
    if l[0] != '\\' {
      assert l[1..] == x && r[1..] == y;
    } else {
      assert l[1] == Escape(c)[1] && r[1] == Escape(d)[1];
      if l[1] != 'u' {
        ShortEscapePrefix(c, d, x, y);
      } else {
        assert Escape(c) == Escape(c)[..6] + Escape(c)[6..] && Escape(d) == Escape(d)[..6] + Escape(d)[6..];
        assert l == Unit(FirstUnit(c)) + (Rest(c) + x) && r == Unit(FirstUnit(d)) + (Rest(d) + y);
        LongEscapePrefix(c, d, x, y);
      }
    }
  }

  lemma Regrouped(a: string, b: string, c: string, d: string)
    ensures a + b + c + d == a + (b + c + d)
  {
  }

  lemma ClosingQuote(s: string, x: string)
    ensures (EscapeAll(s) + "\"" + x)[0] == '"' <==> s == ""
    ensures s != "" ==> EscapeAll(s) + "\"" + x == Escape(s[0]) + (EscapeAll(s[1..]) + "\"" + x)
  {
    if s == "" {
      assert EscapeAll(s) + "\"" + x == "\"" + x;
    } else {
      hide Escape;
      EscapeStarts(s[0]);
      Regrouped(Escape(s[0]), EscapeAll(s[1..]), "\"", x);
      Appended(Escape(s[0]), EscapeAll(s[1..]) + "\"" + x);
    }
  }

  // A quoted string ends at its closing quote, whatever follows.
  lemma {:induction false} EscapeAllPrefix(s: string, t: string, x: string, y: string)
    requires EscapeAll(s) + "\"" + x == EscapeAll(t) + "\"" + y
    ensures s == t && x == y
  {
    ClosingQuote(s, x);
    ClosingQuote(t, y);
    hide Escape;
    if s == "" {
      assert (EscapeAll(s) + "\"" + x)[1..] == x && (EscapeAll(t) + "\"" + y)[1..] == y;
    } else {
      hide EscapeAll;
      EscapePrefix(s[0], t[0], EscapeAll(s[1..]) + "\"" + x, EscapeAll(t[1..]) + "\"" + y);
      EscapeAllPrefix(s[1..], t[1..], x, y);
      assert s == [s[0]] + s[1..] && t == [t[0]] + t[1..];
    }
  }

  lemma QuotePrefix(s: string, t: string, x: string, y: string)
    requires Quote(s) + x == Quote(t) + y
    ensures s == t && x == y
  {
    hide EscapeAll;
    assert (Quote(s) + x)[1..] == EscapeAll(s) + "\"" + x;
    assert (Quote(t) + y)[1..] == EscapeAll(t) + "\"" + y;
    EscapeAllPrefix(s, t, x, y);
  }

  // ----- Values -----

  function Dumps(j: Json): string {
    match j
    case Scalar(repr) => repr
    case Str(s) => Quote(s)
    case Arr(items) => "[" + DumpItems(items) + "]"
    case Obj(fields) => "{" + DumpFields(fields) + "}"
  }

  function DumpItems(items: seq<Json>): string {
    if items == [] then "" else Dumps(items[0]) + MoreItems(items)
  }

  function MoreItems(items: seq<Json>): string
    requires items != []
    decreases items, 0
  {
    if |items| == 1 then "" else "," + DumpItems(items[1..])
  }

  function DumpFields(fields: seq<Field>): string {
    if fields == [] then "" else Quote(fields[0].key) + (":" + Dumps(fields[0].value)) + MoreFields(fields)
  }

  function MoreFields(fields: seq<Field>): string
    requires fields != []
    decreases fields, 0
  {
    if |fields| == 1 then "" else "," + DumpFields(fields[1..])
  }

  // What may follow a value.
  predicate Delimited(x: string) { x == "" || IsDelimiter(x[0]) }

  function Opening(j: Json): char
  {
    match j
    case Scalar(repr) => repr[0]
    case Str(_) => '"'
    case Arr(_) => '['
    case Obj(_) => '{'
  }

  lemma DumpsStarts(j: Json)
    ensures |Dumps(j)| > 0 && Dumps(j)[0] == Opening(j) && !IsDelimiter(Opening(j))
  {
  }

  function PlainLength(s: string): nat {
    if s == "" || IsDelimiter(s[0]) then 0 else 1 + PlainLength(s[1..])
  }

  lemma {:induction false} PlainEnds(a: string, x: string)
    requires (forall i :: 0 <= i < |a| ==> !IsDelimiter(a[i])) && Delimited(x)
    ensures PlainLength(a + x) == |a|
  {
    if a == "" {
      assert a + x == x;
    } else {
      PlainEnds(a[1..], x);
      assert (a + x)[1..] == a[1..] + x;
    }
  }

  lemma PlainPrefix(a: string, b: string, x: string, y: string)
    requires IsPlain(a) && IsPlain(b) && Delimited(x) && Delimited(y) && a + x == b + y
    ensures a == b && x == y
  {
    PlainEnds(a, x);
    PlainEnds(b, y);
    Appended(a, x);
    Appended(b, y);
  }

  // Equal texts, whatever delimited text follows, come from equal values.
  lemma {:induction false} DumpsPrefix(a: Json, b: Json, x: string, y: string)
    requires Delimited(x) && Delimited(y) && Dumps(a) + x == Dumps(b) + y
    ensures a == b && x == y
    decreases a
  {
    hide Quote, IsDelimiter, IsPlain;
    DumpsStarts(a);
    DumpsStarts(b);
    var l, r := Dumps(a) + x, Dumps(b) + y;
    assert l[0] == Opening(a) && r[0] == Opening(b);
    SameKind(a, b);
    match a
    case Scalar(repr) => PlainPrefix(repr, b.repr, x, y);
    case Str(s) => QuotePrefix(s, b.s, x, y);
    case Arr(items) =>
      assert l[1..] == DumpItems(items) + "]" + x && r[1..] == DumpItems(b.items) + "]" + y;
      ItemsPrefix(items, b.items, x, y);
    case Obj(fields) =>
      assert l[1..] == DumpFields(fields) + "}" + x && r[1..] == DumpFields(b.fields) + "}" + y;
      FieldsPrefix(fields, b.fields, x, y);
  }

  lemma SameKind(a: Json, b: Json)
    requires Opening(a) == Opening(b)
    ensures a.Scalar? == b.Scalar? && a.Str? == b.Str? && a.Arr? == b.Arr?
  {
  }

  lemma FirstItem(items: seq<Json>)
    requires items != []
    ensures DumpItems(items) == Dumps(items[0]) + MoreItems(items)
  {
    hide Dumps, MoreItems;
  }

  lemma ItemsStart(items: seq<Json>, x: string)
    ensures items == [] ==> DumpItems(items) + "]" + x == "]" + x
    ensures items != [] ==> DumpItems(items) + "]" + x == Dumps(items[0]) + (MoreItems(items) + "]" + x)
    ensures (DumpItems(items) + "]" + x)[0] == ']' <==> items == []
  {
    if items == [] {
      assert DumpItems(items) == "";
      Closed("]", x);
    } else {
      hide Dumps, DumpItems, MoreItems;
      FirstItem(items);
      DumpsStarts(items[0]);
      Associate(Dumps(items[0]), MoreItems(items), "]", x);
    }
  }

  // What follows the first value: the closing bracket, or a comma and the other values.
  lemma ItemsRest(items: seq<Json>, x: string)
    requires items != []
    ensures var rest := MoreItems(items) + "]" + x;
      && (rest[0] == ']' <==> |items| == 1)
      && Delimited(rest)
      && rest[1..] == if |items| == 1 then x else DumpItems(items[1..]) + "]" + x
  {
    hide DumpItems;
    if |items| == 1 {
      Closed("]", x);
      assert "]"[1..] + x == x;
    } else {
      Continued(DumpItems(items[1..]), "]", x);
    }
  }

  lemma {:induction false} ItemsPrefix(a: seq<Json>, b: seq<Json>, x: string, y: string)
    requires DumpItems(a) + "]" + x == DumpItems(b) + "]" + y
    ensures a == b && x == y
    decreases a
  {
    hide Dumps, DumpItems, MoreItems, Delimited;
    ItemsStart(a, x);
    ItemsStart(b, y);
    if a == [] {
      Appended("]", x);
      Appended("]", y);
    } else {
      ItemsRest(a, x);
      ItemsRest(b, y);
      DumpsPrefix(a[0], b[0], MoreItems(a) + "]" + x, MoreItems(b) + "]" + y);
      if |a| > 1 {
        ItemsPrefix(a[1..], b[1..], x, y);
        assert a == [a[0]] + a[1..] && b == [b[0]] + b[1..];
      }
    }
  }

  lemma FirstFieldText(fields: seq<Field>)
    requires fields != []
    ensures DumpFields(fields) == Quote(fields[0].key) + (":" + Dumps(fields[0].value)) + MoreFields(fields)
  {
    hide Dumps, Quote, MoreFields;
  }

  lemma FieldsStart(fields: seq<Field>, x: string)
    ensures fields == [] ==> DumpFields(fields) + "}" + x == "}" + x
    ensures fields != [] ==>
      DumpFields(fields) + "}" + x ==
        Quote(fields[0].key) + (":" + (Dumps(fields[0].value) + (MoreFields(fields) + "}" + x)))
    ensures (DumpFields(fields) + "}" + x)[0] == '}' <==> fields == []
  {
    if fields == [] {
      assert DumpFields(fields) == "";
      Closed("}", x);
    } else {
      hide Dumps, DumpFields, MoreFields, Quote;
      FirstFieldText(fields);
      QuoteStarts(fields[0].key);
      var key, text, more := Quote(fields[0].key), Dumps(fields[0].value), MoreFields(fields);
      Associate(key + (":" + text), more, "}", x);
      Regroup(key, text, more + "}" + x);
    }
  }

  lemma Regroup(key: string, text: string, rest: string)
    requires key != ""
    ensures key + (":" + text) + rest == key + (":" + (text + rest))
    ensures (key + (":" + text) + rest)[0] == key[0]
  {
  }

  lemma QuoteStarts(s: string)
    ensures Quote(s) != "" && Quote(s)[0] == '"'
  {
    hide EscapeAll;
  }

  lemma FieldsRest(fields: seq<Field>, x: string)
    requires fields != []
    ensures var rest := MoreFields(fields) + "}" + x;
      && (rest[0] == '}' <==> |fields| == 1)
      && Delimited(rest)
      && rest[1..] == if |fields| == 1 then x else DumpFields(fields[1..]) + "}" + x
  {
    hide DumpFields;
    if |fields| == 1 {
      Closed("}", x);
      assert "}"[1..] + x == x;
    } else {
      Continued(DumpFields(fields[1..]), "}", x);
    }
  }

  lemma {:induction false} FieldsPrefix(a: seq<Field>, b: seq<Field>, x: string, y: string)
    requires DumpFields(a) + "}" + x == DumpFields(b) + "}" + y
    ensures a == b && x == y
    decreases a
  {
    hide Dumps, DumpFields, MoreFields, Quote, Delimited;
    FieldsStart(a, x);
    FieldsStart(b, y);
    if a == [] {
      Appended("}", x);
      Appended("}", y);
    } else {
      FieldsRest(a, x);
      FieldsRest(b, y);
      FirstField(a[0], b[0], MoreFields(a) + "}" + x, MoreFields(b) + "}" + y);
      if |a| > 1 {
        FieldsPrefix(a[1..], b[1..], x, y);
        assert a == [a[0]] + a[1..] && b == [b[0]] + b[1..];
      }
    }
  }

  lemma {:induction false} FirstField(f: Field, g: Field, u: string, v: string)
    requires Delimited(u) && Delimited(v)
    requires Quote(f.key) + (":" + (Dumps(f.value) + u)) == Quote(g.key) + (":" + (Dumps(g.value) + v))
    ensures f == g && u == v
    decreases f, 0
  {
    hide Dumps, Quote, IsDelimiter;
    var m, n := ":" + (Dumps(f.value) + u), ":" + (Dumps(g.value) + v);
    QuotePrefix(f.key, g.key, m, n);
    assert m[1..] == Dumps(f.value) + u && n[1..] == Dumps(g.value) + v;
    DumpsPrefix(f.value, g.value, u, v);
  }

  lemma DumpsIsInjective(a: Json, b: Json)
    ensures Dumps(a) == Dumps(b) <==> a == b
  {
    if Dumps(a) == Dumps(b) {
      assert Dumps(a) + "" == Dumps(b) + "";
      DumpsPrefix(a, b, "", "");
    }
  }
}
