/** Canonical JSON text: `canonicalJSON`, that is, compact text with sorted keys. Two
    values print alike exactly when they are equal. */
module Canonical {
  import opened Text
  import opened Sorting
  import opened Json

  // ---------------------------------------------------------------- printing

  function HexDigit(n: nat): char
    requires n < 16
  {
    if n < 10 then '0' + n as char else 'a' + (n - 10) as char
  }

  function Hex4(n: nat): string
    requires n < 0x10000
  {
    [HexDigit(n / 16 / 16 / 16), HexDigit(n / 16 / 16 % 16), HexDigit(n / 16 % 16), HexDigit(n % 16)]
  }

  /** Characters that the encoder writes as a numeric escape: control characters, the
      HTML-sensitive ones and the two line separators. */
  predicate IsHexEscaped(c: char) {
    || (c as int < 0x20 && !IsShortEscaped(c))
    || c == '<' || c == '>' || c == '&'
    || c as int == 0x2028 || c as int == 0x2029
  }

  predicate IsShortEscaped(c: char) {
    || c == '"' || c == '\\' || c == '\n' || c == '\r' || c == '\t'
    || c as int == 8 || c as int == 12
  }

  function ShortEscape(c: char): char
    requires IsShortEscaped(c)
  {
    if c == '\n' then 'n'
    else if c == '\r' then 'r'
    else if c == '\t' then 't'
    else if c as int == 8 then 'b'
    else if c as int == 12 then 'f'
    else c
  }

  function EscapeChar(c: char): string {
    if IsShortEscaped(c) then ['\\', ShortEscape(c)]
    else if IsHexEscaped(c) then "\\u" + Hex4(c as nat)
    else [c]
  }

  function EscapeText(s: string): string {
    if s == "" then "" else EscapeChar(s[0]) + EscapeText(s[1..])
  }

  function Quote(s: string): string {
    "\"" + EscapeText(s) + "\""
  }

  function Print(v: Json): string
    decreases v, 1, 0
  {
    match v
    case Null => "null"
    case Bool(b) => if b then "true" else "false"
    case Number(literal) => literal
    case String(s) => Quote(s)
    case Array(items) => "[" + PrintItems(items, "")
    case Object(fields) => "{" + PrintFields(v, SortedKeys(fields.Keys), "")
  }

  /** The elements, each after a separator, and the closing bracket. */
  function PrintItems(items: seq<Json>, separator: string): string
    decreases items, 0, 0
  {
    if items == [] then "]"
    else separator + (Print(items[0]) + PrintItems(items[1..], ","))
  }

  /** The members with the given keys, each after a separator, and the closing brace. */
  function PrintFields(v: Json, keys: seq<string>, separator: string): string
    requires v.Object? && forall i :: 0 <= i < |keys| ==> keys[i] in v.fields
    decreases v, 0, |keys|
  {
    if keys == [] then "}"
    else separator + (Quote(keys[0]) + (":" + (Print(v.fields[keys[0]]) + PrintFields(v, keys[1..], ","))))
  }

  // ---------------------------------------------------------------- unique readability

  function HexValue(c: char): int {
    if '0' <= c <= '9' then c as int - '0' as int else c as int - 'a' as int + 10
  }

  lemma HexDigitValue(n: nat)
    requires n < 16
    ensures HexValue(HexDigit(n)) == n
  {
  }

  lemma Hex4Value(n: nat)
    requires n < 0x10000
    ensures var h := Hex4(n);
            n == HexValue(h[0]) * 0x1000 + HexValue(h[1]) * 0x100 + HexValue(h[2]) * 0x10 + HexValue(h[3])
  {
    HexDigitValue(n / 16 / 16 / 16);
    HexDigitValue(n / 16 / 16 % 16);
    HexDigitValue(n / 16 % 16);
    HexDigitValue(n % 16);
  }

  lemma Regroup(a: string, b: string, c: string)
    ensures (a + b) + c == a + (b + c)
  {
    assert (a + b) + c == a + (b + c);
  }

  lemma CancelFront(a: string, r: string, q: string)
    requires a + r == a + q
    ensures r == q
  {
    assert r == (a + r)[|a|..] && q == (a + q)[|a|..];
  }

  lemma SameHeadAndTail<T>(a: seq<T>, b: seq<T>)
    requires a != [] && b != [] && a[0] == b[0] && a[1..] == b[1..]
    ensures a == b
  {
    assert a == [a[0]] + a[1..] && b == [b[0]] + b[1..];
  }

  /** An escaped character can be read off the front of any text. */
  lemma CharDecodes(c: char, d: char, r: string, q: string)
    requires EscapeChar(c) + r == EscapeChar(d) + q
    ensures c == d && r == q
  {
    var e, f := EscapeChar(c), EscapeChar(d);
    assert (e + r)[0] == e[0] && (f + q)[0] == f[0];
    if e[0] == '\\' {
      assert (e + r)[1] == e[1] && (f + q)[1] == f[1];
      assert IsShortEscaped(c) == IsShortEscaped(d);
      if !IsShortEscaped(c) {
        var m, n := c as nat, d as nat;
        assert Hex4(m) == (e + r)[2..6] && Hex4(n) == (f + q)[2..6];
        Hex4Value(m);
        Hex4Value(n);
      }
    }
    assert |e| == |f|;
    assert r == (e + r)[|e|..] && q == (f + q)[|f|..];
  }

  lemma CharHead(c: char)
    ensures EscapeChar(c) != "" && EscapeChar(c)[0] != '"'
  {
  }

  lemma {:induction false} TextDecodes(a: string, b: string, r: string, q: string)
    requires EscapeText(a) + ("\"" + r) == EscapeText(b) + ("\"" + q)
    ensures a == b && r == q
  {
    if a == "" || b == "" {
      TextEnds(a, r);
      TextEnds(b, q);
      CancelFront("\"", r, q);
    } else {
      Regroup(EscapeChar(a[0]), EscapeText(a[1..]), "\"" + r);
      Regroup(EscapeChar(b[0]), EscapeText(b[1..]), "\"" + q);
      CharDecodes(a[0], b[0], EscapeText(a[1..]) + ("\"" + r), EscapeText(b[1..]) + ("\"" + q));
      TextDecodes(a[1..], b[1..], r, q);
      assert a == [a[0]] + a[1..] && b == [b[0]] + b[1..];
    }
  }

  lemma TextEnds(a: string, r: string)
    ensures (EscapeText(a) + ("\"" + r))[0] == '"' <==> a == ""
    ensures a == "" ==> EscapeText(a) + ("\"" + r) == "\"" + r
  {
    if a != "" {
      CharHead(a[0]);
      assert (EscapeText(a) + ("\"" + r))[0] == EscapeChar(a[0])[0];
    }
  }

  lemma QuoteDecodes(a: string, b: string, r: string, q: string)
    requires Quote(a) + r == Quote(b) + q
    ensures a == b && r == q
  {
    assert Quote(a) + r == "\"" + (EscapeText(a) + ("\"" + r));
    assert Quote(b) + q == "\"" + (EscapeText(b) + ("\"" + q));
    CancelFront("\"", EscapeText(a) + ("\"" + r), EscapeText(b) + ("\"" + q));
    TextDecodes(a, b, r, q);
  }

  /** Text that cannot continue a number literal. */
  predicate Ends(r: string) {
    r == "" || !IsNumberChar(r[0])
  }

  lemma LiteralDecodes(a: string, b: string, r: string, q: string)
    requires forall i :: 0 <= i < |a| ==> IsNumberChar(a[i])
    requires forall i :: 0 <= i < |b| ==> IsNumberChar(b[i])
    requires Ends(r) && Ends(q) && a + r == b + q
    ensures a == b && r == q
  {
    LiteralNotShorter(a, b, r, q);
    LiteralNotShorter(b, a, q, r);
    assert a == (a + r)[..|a|] && b == (b + q)[..|b|];
    CancelFront(a, r, q);
  }

  lemma LiteralNotShorter(a: string, b: string, r: string, q: string)
    requires forall i :: 0 <= i < |b| ==> IsNumberChar(b[i])
    requires Ends(r) && a + r == b + q
    ensures |a| >= |b|
  {
    assert forall i :: 0 <= i < |b| ==> (a + r)[i] == b[i];
    assert r != "" ==> (a + r)[|a|] == r[0];
  }

  /** The first character tells the kind of a value, and no value starts like a closing
      bracket, a separator or a colon. */
  lemma PrintHead(v: Json)
    ensures Print(v) != ""
    ensures var c := Print(v)[0];
            && (v.Null? <==> c == 'n')
            && (v.Bool? <==> c == 't' || c == 'f')
            && (v.Bool? ==> (v.b <==> c == 't'))
            && (v.Number? <==> c == '-' || IsDigit(c))
            && (v.String? <==> c == '"')
            && (v.Array? <==> c == '[')
            && (v.Object? <==> c == '{')
            && c != ']' && c != '}' && c != ',' && c != ':'
  {
    if v.Number? {
      NumberChars(v.literal);
    }
  }

  /** What follows an element or a member cannot continue a number. */
  lemma TailEnds(items: seq<Json>, v: Json, keys: seq<string>, r: string)
    requires v.Object? && forall i :: 0 <= i < |keys| ==> keys[i] in v.fields
    ensures Ends(PrintItems(items, ",") + r) && Ends(PrintFields(v, keys, ",") + r)
  {
  }

  /** A printed value can be read off the front of any text that does not continue it. */
  lemma {:induction false} PrintDecodes(v: Json, w: Json, r: string, q: string)
    requires Print(v) + r == Print(w) + q
    requires Ends(r) && Ends(q)
    ensures v == w && r == q
    decreases v, 1, 0
  {
    SameKind(v, w, r, q);
    match v {
      case Null =>
        CancelFront("null", r, q);
      case Bool(b) =>
        CancelFront(Print(v), r, q);
      case Number(literal) =>
        NumberChars(literal);
        NumberChars(w.literal);
        LiteralDecodes(literal, w.literal, r, q);
      case String(s) =>
        QuoteDecodes(s, w.s, r, q);
      case Array(items) =>
        ArrayDecodes(v, w, r, q);
      case Object(fields) =>
        ObjectDecodes(v, w, SortedKeys(fields.Keys), SortedKeys(w.fields.Keys), r, q);
    }
  }

  lemma {:induction false} ArrayDecodes(v: Json, w: Json, r: string, q: string)
    requires v.Array? && w.Array? && Print(v) + r == Print(w) + q
    ensures v == w && r == q
    decreases v, 0, 0
  {
    Regroup("[", PrintItems(v.items, ""), r);
    Regroup("[", PrintItems(w.items, ""), q);
    CancelFront("[", PrintItems(v.items, "") + r, PrintItems(w.items, "") + q);
    ItemsDecode(v.items, w.items, "", r, q);
  }

  lemma {:induction false} ObjectDecodes(v: Json, w: Json, ks: seq<string>, ls: seq<string>, r: string, q: string)
    requires v.Object? && forall i :: 0 <= i < |ks| ==> ks[i] in v.fields
    requires w.Object? && forall i :: 0 <= i < |ls| ==> ls[i] in w.fields
    requires Lists(ks, v.fields.Keys) && Lists(ls, w.fields.Keys)
    requires ("{" + PrintFields(v, ks, "")) + r == ("{" + PrintFields(w, ls, "")) + q
    ensures v == w && r == q
    decreases v, 0, |ks| + 1
  {
    Regroup("{", PrintFields(v, ks, ""), r);
    Regroup("{", PrintFields(w, ls, ""), q);
    CancelFront("{", PrintFields(v, ks, "") + r, PrintFields(w, ls, "") + q);
    FieldsDecode(v, w, ks, ls, "", r, q);
    assert v.fields.Keys == w.fields.Keys;
    assert v.fields == w.fields;
  }

  lemma SameKind(v: Json, w: Json, r: string, q: string)
    requires Print(v) + r == Print(w) + q
    ensures v.Null? <==> w.Null?
    ensures v.Bool? <==> w.Bool?
    ensures v.Bool? ==> v.b == w.b
    ensures v.Number? <==> w.Number?
    ensures v.String? <==> w.String?
    ensures v.Array? <==> w.Array?
    ensures v.Object? <==> w.Object?
  {
    PrintHead(v);
    PrintHead(w);
    assert Print(v)[0] == (Print(v) + r)[0] == (Print(w) + q)[0] == Print(w)[0];
  }

  lemma ItemsCons(items: seq<Json>, separator: string, r: string)
    requires items != []
    ensures PrintItems(items, separator) + r
         == separator + (Print(items[0]) + (PrintItems(items[1..], ",") + r))
    ensures separator == "" || separator == "," ==> (PrintItems(items, separator) + r)[0] != ']'
  {
    var p, t := Print(items[0]), PrintItems(items[1..], ",");
    Regroup(separator, p + t, r);
    Regroup(p, t, r);
    PrintHead(items[0]);
  }

  lemma ItemsNil(separator: string, r: string)
    ensures PrintItems([], separator) + r == "]" + r
  {
  }

  lemma {:induction false} ItemsDecode(xs: seq<Json>, ys: seq<Json>, separator: string, r: string, q: string)
    requires separator == "" || separator == ","
    requires PrintItems(xs, separator) + r == PrintItems(ys, separator) + q
    ensures xs == ys && r == q
    decreases xs, 0, 0
  {
    ItemsNil(separator, r);
    ItemsNil(separator, q);
    if xs != [] {
      ItemsCons(xs, separator, r);
    }
    if ys != [] {
      ItemsCons(ys, separator, q);
    }
    if xs == [] || ys == [] {
      assert ("]" + r)[0] == ']' && ("]" + q)[0] == ']';
      CancelFront("]", r, q);
    } else {
      var s, t := PrintItems(xs[1..], ",") + r, PrintItems(ys[1..], ",") + q;
      CancelFront(separator, Print(xs[0]) + s, Print(ys[0]) + t);
      TailEnds(xs[1..], Object(map[]), [], r);
      TailEnds(ys[1..], Object(map[]), [], q);
      PrintDecodes(xs[0], ys[0], s, t);
      ItemsDecode(xs[1..], ys[1..], ",", r, q);
      SameHeadAndTail(xs, ys);
    }
  }

  lemma FieldsCons(v: Json, keys: seq<string>, separator: string, r: string)
    requires v.Object? && forall i :: 0 <= i < |keys| ==> keys[i] in v.fields
    requires keys != []
    ensures PrintFields(v, keys, separator) + r
         == separator + (Quote(keys[0]) + (":" + (Print(v.fields[keys[0]]) + (PrintFields(v, keys[1..], ",") + r))))
    ensures separator == "" || separator == "," ==> (PrintFields(v, keys, separator) + r)[0] != '}'
  {
    var k, p, t := Quote(keys[0]), Print(v.fields[keys[0]]), PrintFields(v, keys[1..], ",");
    Regroup(separator, k + (":" + (p + t)), r);
    Regroup(k, ":" + (p + t), r);
    Regroup(":", p + t, r);
    Regroup(p, t, r);
    assert k[0] == '"';
  }

  lemma FieldsNil(v: Json, separator: string, r: string)
    requires v.Object?
    ensures PrintFields(v, [], separator) + r == "}" + r
  {
  }

  lemma {:induction false} FieldsDecode(v: Json, w: Json, ks: seq<string>, ls: seq<string>, separator: string,
      r: string, q: string)
    requires v.Object? && forall i :: 0 <= i < |ks| ==> ks[i] in v.fields
    requires w.Object? && forall i :: 0 <= i < |ls| ==> ls[i] in w.fields
    requires separator == "" || separator == ","
    requires PrintFields(v, ks, separator) + r == PrintFields(w, ls, separator) + q
    ensures ks == ls && r == q
    ensures forall k :: k in ks ==> v.fields[k] == w.fields[k]
    decreases v, 0, |ks|
  {
    FieldsNil(v, separator, r);
    FieldsNil(w, separator, q);
    if ks != [] {
      FieldsCons(v, ks, separator, r);
    }
    if ls != [] {
      FieldsCons(w, ls, separator, q);
    }
    if ks == [] || ls == [] {
      assert ("}" + r)[0] == '}' && ("}" + q)[0] == '}';
      CancelFront("}", r, q);
    } else {
      var s1, t1 := PrintFields(v, ks[1..], ",") + r, PrintFields(w, ls[1..], ",") + q;
      var s2, t2 := Print(v.fields[ks[0]]) + s1, Print(w.fields[ls[0]]) + t1;
      CancelFront(separator, Quote(ks[0]) + (":" + s2), Quote(ls[0]) + (":" + t2));
      QuoteDecodes(ks[0], ls[0], ":" + s2, ":" + t2);
      CancelFront(":", s2, t2);
      TailEnds([], v, ks[1..], r);
      TailEnds([], w, ls[1..], q);
      PrintDecodes(v.fields[ks[0]], w.fields[ls[0]], s1, t1);
      FieldsDecode(v, w, ks[1..], ls[1..], ",", r, q);
      SameHeadAndTail(ks, ls);
    }
  }

  /** Equal text is equal value: numbers by their literal, objects whatever the order
      their members were written in. */
  lemma PrintInjective(v: Json, w: Json)
    ensures Print(v) == Print(w) <==> v == w
  {
    if Print(v) == Print(w) {
      assert Print(v) + "" == Print(w) + "";
      PrintDecodes(v, w, "", "");
    }
  }
}
