/** Decoded JSON values: numbers keep their literal text, as the decoder's `UseNumber`
    mode does, and an object is a map from names to values. */
module Json {
  import opened Wrappers
  import opened Text

  datatype Json =
    | Null
    | Bool(b: bool)
    | Number(literal: NumberLiteral)
    | String(s: string)
    | Array(items: seq<Json>)
    | Object(fields: map<string, Json>)

  /** The number grammar of section 6 of RFC 8259. */
  type NumberLiteral = s: string | IsNumberLiteral(s) witness "0"

  predicate IsNumberLiteral(s: string) {
    var t := if s != "" && s[0] == '-' then s[1..] else s;
    && t != ""
    && IsDigit(t[0])
    && IsFraction(if t[0] == '0' then t[1..] else SkipDigits(t))
  }

  predicate IsFraction(s: string) {
    if s != "" && s[0] == '.' then
      |s| > 1 && IsDigit(s[1]) && IsExponent(SkipDigits(s[1..]))
    else
      IsExponent(s)
  }

  predicate IsExponent(s: string) {
    if s == "" then true
    else
      && (s[0] == 'e' || s[0] == 'E')
      && var digits := if |s| > 1 && (s[1] == '+' || s[1] == '-') then s[2..] else s[1..];
      digits != "" && AllDigits(digits)
  }

  function SkipDigits(s: string): string {
    if s != "" && IsDigit(s[0]) then SkipDigits(s[1..]) else s
  }

  predicate IsNumberChar(c: char) {
    IsDigit(c) || c == '+' || c == '-' || c == '.' || c == 'e' || c == 'E'
  }

  lemma {:induction false} SkipDigitsChars(s: string)
    requires forall i :: 0 <= i < |SkipDigits(s)| ==> IsNumberChar(SkipDigits(s)[i])
    ensures forall i :: 0 <= i < |s| ==> IsNumberChar(s[i])
  {
    if s != "" && IsDigit(s[0]) {
      assert SkipDigits(s) == SkipDigits(s[1..]);
      SkipDigitsChars(s[1..]);
      assert s == [s[0]] + s[1..];
    } else {
      assert SkipDigits(s) == s;
    }
  }

  lemma ExponentChars(s: string)
    requires IsExponent(s)
    ensures forall i :: 0 <= i < |s| ==> IsNumberChar(s[i])
  {
    if |s| > 1 && (s[1] == '+' || s[1] == '-') {
      assert s == [s[0], s[1]] + s[2..];
    } else if s != "" {
      assert s == [s[0]] + s[1..];
    }
  }

  lemma NumberChars(s: string)
    requires IsNumberLiteral(s)
    ensures s != "" && (s[0] == '-' || IsDigit(s[0]))
    ensures forall i :: 0 <= i < |s| ==> IsNumberChar(s[i])
  {
    var t := if s[0] == '-' then s[1..] else s;
    var u := if t[0] == '0' then t[1..] else SkipDigits(t);
    if u != "" && u[0] == '.' {
      ExponentChars(SkipDigits(u[1..]));
      SkipDigitsChars(u[1..]);
      assert u == [u[0]] + u[1..];
    } else {
      ExponentChars(u);
    }
    if t[0] == '0' {
      assert t == [t[0]] + t[1..];
    } else {
      SkipDigitsChars(t);
    }
    if s[0] == '-' {
      assert s == [s[0]] + t;
    }
  }

  // ---------------------------------------------------------------- locations

  datatype Step = Key(name: string) | Index(i: nat)

  type Location = seq<Step>

  /** The child of a value that one step selects. */
  function Child(v: Json, step: Step): Option<Json> {
    match step
    case Key(name) =>
      if v.Object? && name in v.fields then Some(v.fields[name]) else None
    case Index(i) =>
      if v.Array? && i < |v.items| then Some(v.items[i]) else None
  }

  /** The value at a location, if the location exists. */
  function At(v: Json, loc: Location): Option<Json> {
    if loc == [] then Some(v)
    else
      var child :- Child(v, loc[0]);
      At(child, loc[1..])
  }

  lemma {:induction false} AtAppend(v: Json, front: Location, rest: Location)
    requires At(v, front).Some?
    ensures At(v, front + rest) == At(At(v, front).value, rest)
  {
    if front == [] {
      assert front + rest == rest;
    } else {
      assert (front + rest)[1..] == front[1..] + rest;
      AtAppend(Child(v, front[0]).value, front[1..], rest);
    }
  }
}
