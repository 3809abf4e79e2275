/** JSON Pointer evaluation: `resolveJSONPointer`. */
module Pointers {
  import opened Wrappers
  import opened Text
  import opened Json

  // ---------------------------------------------------------------- evaluation

  /** The two replacements the program makes on a reference token. */
  function Unescape(token: string): string {
    ReplaceAll(ReplaceAll(token, "~1", "/"), "~0", "~")
  }

  /** One token selects an object member or an array element. */
  function Select(v: Json, token: string): Option<Json> {
    match v
    case Object(fields) => if token in fields then Some(fields[token]) else None
    case Array(items) =>
      // Atoi's own range limit needs no mention: no array is longer than that.
      if IsNumeral(token) && 0 <= NumeralValue(token) < |items|
      then Some(items[NumeralValue(token)])
      else None
    case _ => None
  }

  function Walk(v: Json, rawTokens: seq<string>): Option<Json> {
    if rawTokens == [] then Some(v)
    else
      var next :- Select(v, Unescape(rawTokens[0]));
      Walk(next, rawTokens[1..])
  }

  function Resolve(document: Json, pointer: string): Option<Json> {
    if pointer == "" then Some(document)
    else if pointer[0] != '/' then None
    else Walk(document, Split(pointer[1..], '/'))
  }

  lemma {:induction false} WalkAppend(v: Json, front: seq<string>, token: string)
    ensures Walk(v, front + [token]) ==
            (match Walk(v, front)
             case Some(u) => Select(u, Unescape(token))
             case None => None)
  {
    if front == [] {
      assert front + [token] == [token];
      assert [token][1..] == [];
    } else {
      assert (front + [token])[1..] == front[1..] + [token];
      var next := Select(v, Unescape(front[0]));
      if next.Some? {
        WalkAppend(next.value, front[1..], token);
      }
    }
  }

  lemma {:induction false} WalkStuck(v: Json, front: seq<string>, rest: seq<string>)
    requires Walk(v, front).None?
    ensures Walk(v, front + rest).None?
  {
    assert (front + rest)[1..] == front[1..] + rest;
    var next := Select(v, Unescape(front[0]));
    if next.Some? {
      WalkStuck(next.value, front[1..], rest);
    }
  }

  /** The program's loop: the current value moves down one token at a time. */
  method ResolveJsonPointer(document: Json, pointer: string) returns (target: Option<Json>)
    ensures target == Resolve(document, pointer)
  {
    if pointer == "" {
      return Some(document);
    }
    if pointer[0] != '/' {
      return None;
    }
    var tokens := Split(pointer[1..], '/');
    var current := document;
    for n := 0 to |tokens|
      invariant Walk(document, tokens[..n]) == Some(current)
    {
      var token := Unescape(tokens[n]);
      WalkAppend(document, tokens[..n], tokens[n]);
      assert tokens[..n + 1] == tokens[..n] + [tokens[n]];
      assert tokens == tokens[..n + 1] + tokens[n + 1..];
      match current {
        case Object(fields) =>
          if token !in fields {
            WalkStuck(document, tokens[..n + 1], tokens[n + 1..]);
            return None;
          }
          current := fields[token];
        case Array(items) =>
          if !IsNumeral(token) || NumeralValue(token) < 0 || NumeralValue(token) >= |items| {
            WalkStuck(document, tokens[..n + 1], tokens[n + 1..]);
            return None;
          }
          current := items[NumeralValue(token)];
        case _ =>
          WalkStuck(document, tokens[..n + 1], tokens[n + 1..]);
          return None;
      }
    }
    assert tokens[..|tokens|] == tokens;
    return Some(current);
  }

  /** A pointer leads to a value of the document, never outside it. */
  lemma {:induction false} WalkIsLocation(v: Json, rawTokens: seq<string>) returns (loc: Location)
    requires Walk(v, rawTokens).Some?
    ensures At(v, loc) == Walk(v, rawTokens)
  {
    if rawTokens == [] {
      loc := [];
    } else {
      var token := Unescape(rawTokens[0]);
      var rest := WalkIsLocation(Select(v, token).value, rawTokens[1..]);
      loc := [if v.Object? then Key(token) else Index(NumeralValue(token))] + rest;
    }
  }

  lemma ResolveIsLocation(document: Json, pointer: string) returns (loc: Location)
    requires Resolve(document, pointer).Some?
    ensures At(document, loc) == Resolve(document, pointer)
  {
    if pointer == "" {
      loc := [];
    } else {
      loc := WalkIsLocation(document, Split(pointer[1..], '/'));
    }
  }

  // ---------------------------------------------------------------- escaping

  /** Section 3 of RFC 6901: `~` becomes `~0` and `/` becomes `~1`. */
  function Escape(key: string): (r: string)
    ensures Free(r, '/')
  {
    if key == "" then ""
    else (match key[0] case '~' => "~0" case '/' => "~1" case c => [c]) + Escape(key[1..])
  }

  /** One left-to-right decode of the escapes; a tilde before any other character stays. */
  function Decode(token: string): string {
    if |token| >= 2 && token[0] == '~' && token[1] == '1' then "/" + Decode(token[2..])
    else if |token| >= 2 && token[0] == '~' && token[1] == '0' then "~" + Decode(token[2..])
    else if token == "" then ""
    else [token[0]] + Decode(token[1..])
  }

  lemma FirstPassHead(token: string)
    ensures var r := ReplaceAll(token, "~1", "/");
            (r != "" && r[0] == '0') <==> (token != "" && token[0] == '0')
  {
  }

  /** The first pass can never make up a new `~0`, so the two passes are one scan. */
  lemma {:induction false} TwoPassesAreOneScan(token: string)
    ensures Unescape(token) == Decode(token)
  {
    var once := ReplaceAll(token, "~1", "/");
    if |token| < 2 {
      assert token == "" || token == [token[0]];
    } else if token[..2] == "~1" {
      var rest := ReplaceAll(token[2..], "~1", "/");
      assert once == "/" + rest && once[1..] == rest;
      TwoPassesAreOneScan(token[2..]);
    } else {
      var rest := ReplaceAll(token[1..], "~1", "/");
      assert once == [token[0]] + rest && once[1..] == rest;
      if token[0] == '~' && token[1] == '0' {
        assert token[1..][1..] == token[2..];
        assert rest == "0" + ReplaceAll(token[2..], "~1", "/");
        assert once[..2] == "~0" && once[2..] == ReplaceAll(token[2..], "~1", "/");
        TwoPassesAreOneScan(token[2..]);
      } else {
        FirstPassHead(token[1..]);
        assert |once| >= 2 ==> once[..2] != "~0";
        TwoPassesAreOneScan(token[1..]);
      }
    }
  }

  lemma {:induction false} DecodeOfEscape(key: string)
    ensures Decode(Escape(key)) == key
  {
    if key != "" {
      DecodeOfEscape(key[1..]);
      var e := Escape(key);
      assert key == [key[0]] + key[1..];
      if key[0] == '~' || key[0] == '/' {
        assert e[2..] == Escape(key[1..]);
      } else {
        assert e[1..] == Escape(key[1..]);
      }
    }
  }

  // ---------------------------------------------------------------- tokens of array elements

  function Zeros(n: nat): (s: string)
    ensures |s| == n && AllDigits(s)
  {
    seq(n, _ => '0')
  }

  lemma {:induction false} ValueAfterZeros(n: nat, s: string)
    requires AllDigits(s)
    ensures AllDigits(Zeros(n) + s) && DigitsValue(Zeros(n) + s) == DigitsValue(s)
    decreases n + |s|
  {
    var t := Zeros(n) + s;
    if s != "" {
      var front := s[..|s| - 1];
      assert t[..|t| - 1] == Zeros(n) + front;
      ValueAfterZeros(n, front);
    } else if n > 0 {
      assert t[..|t| - 1] == Zeros(n - 1) + "";
      ValueAfterZeros(n - 1, "");
    }
  }

  /** A sign or none; minus only before zero. */
  predicate IsIndexSign(sign: string, i: nat) {
    sign == "" || sign == "+" || (sign == "-" && i == 0)
  }

  lemma DigitsAfterSign(sign: string, digits: string)
    requires digits != "" && AllDigits(digits) && (sign == "" || sign == "+" || sign == "-")
    ensures IsNumeral(sign + digits) && Unsigned(sign + digits) == digits
    ensures sign != "-" ==> NumeralValue(sign + digits) == DigitsValue(digits)
    ensures sign == "-" ==> NumeralValue(sign + digits) == 0 - DigitsValue(digits)
  {
    assert sign == "" ==> sign + digits == digits;
    assert sign != "" ==> (sign + digits)[0] == sign[0] && (sign + digits)[1..] == digits;
  }

  lemma IndexValue(sign: string, digits: string, i: nat)
    requires IsIndexSign(sign, i) && digits != "" && AllDigits(digits) && DigitsValue(digits) == i
    ensures IsNumeral(sign + digits) && NumeralValue(sign + digits) == i
  {
    DigitsAfterSign(sign, digits);
  }

  lemma NumeralSelects(items: seq<Json>, token: string)
    requires IsNumeral(token)
    ensures Select(Array(items), token) ==
            if 0 <= NumeralValue(token) < |items| then Some(items[NumeralValue(token)]) else None
  {
  }

  /** A signed index with leading zeros selects the element, or nothing beyond the end. */
  lemma IndexSelects(items: seq<Json>, sign: string, zeros: nat, i: nat)
    requires IsIndexSign(sign, i)
    ensures Select(Array(items), sign + Zeros(zeros) + Decimal(i)) ==
            if i < |items| then Some(items[i]) else None
  {
    var digits := Zeros(zeros) + Decimal(i);
    ValueAfterZeros(zeros, Decimal(i));
    ValueOfDecimal(i);
    IndexValue(sign, digits, i);
    NumeralSelects(items, sign + digits);
    assert sign + Zeros(zeros) + Decimal(i) == sign + digits;
  }

  lemma {:induction false} LeadingZeros(digits: string) returns (zeros: nat)
    requires digits != "" && AllDigits(digits)
    ensures digits == Zeros(zeros) + Decimal(DigitsValue(digits))
  {
    if digits[0] == '0' && |digits| > 1 {
      var rest := LeadingZeros(digits[1..]);
      zeros := rest + 1;
      assert digits == Zeros(1) + digits[1..];
      ValueAfterZeros(1, digits[1..]);
      assert Zeros(zeros) == Zeros(1) + Zeros(rest);
    } else {
      zeros := 0;
      DecimalOfValue(digits);
      assert digits == Zeros(0) + digits;
    }
  }

  /** And nothing else selects an element of an array. */
  lemma SelectionIsIndex(items: seq<Json>, token: string) returns (sign: string, zeros: nat, i: nat)
    requires Select(Array(items), token).Some?
    ensures IsIndexSign(sign, i) && i < |items| && token == sign + Zeros(zeros) + Decimal(i)
    ensures Select(Array(items), token) == Some(items[i])
  {
    var digits := Unsigned(token);
    sign := if token[0] == '-' || token[0] == '+' then token[..1] else "";
    i := NumeralValue(token);
    zeros := LeadingZeros(digits);
    assert token == sign + digits;
    assert sign + digits == sign + Zeros(zeros) + Decimal(i);
  }

  // ---------------------------------------------------------------- round trip

  function StepToken(step: Step): (r: string)
    ensures Free(r, '/')
  {
    match step
    case Key(name) => Escape(name)
    case Index(i) => Decimal(i)
  }

  function Tokens(loc: Location): (r: seq<string>)
    ensures |r| == |loc|
    ensures forall i :: 0 <= i < |r| ==> Free(r[i], '/')
  {
    if loc == [] then [] else [StepToken(loc[0])] + Tokens(loc[1..])
  }

  /** The pointer that section 3 of RFC 6901 writes for a location. */
  function PointerTo(loc: Location): string {
    if loc == [] then "" else "/" + Join(Tokens(loc), '/')
  }

  lemma {:induction false} UnescapeUnchanged(token: string)
    requires Free(token, '~')
    ensures Unescape(token) == token
  {
    TwoPassesAreOneScan(token);
    DecodeUnchanged(token);
  }

  lemma {:induction false} DecodeUnchanged(token: string)
    requires Free(token, '~')
    ensures Decode(token) == token
  {
    if token != "" {
      DecodeUnchanged(token[1..]);
      assert token == [token[0]] + token[1..];
    }
  }

  /** A member of the root, when its name needs no escape. */
  lemma MemberResolves(fields: map<string, Json>, name: string)
    requires Free(name, '/') && Free(name, '~') && name in fields
    ensures Resolve(Object(fields), "/" + name) == Some(fields[name])
  {
    var pointer := "/" + name;
    assert pointer[1..] == name;
    SplitFree(name, '/');
    UnescapeUnchanged(name);
    WalkAppend(Object(fields), [], name);
    assert [] + [name] == [name];
  }

  lemma SelectStep(v: Json, step: Step)
    requires Child(v, step).Some?
    ensures Select(v, Unescape(StepToken(step))) == Child(v, step)
  {
    match step {
      case Key(name) =>
        TwoPassesAreOneScan(Escape(name));
        DecodeOfEscape(name);
      case Index(i) =>
        UnescapeUnchanged(Decimal(i));
        ValueOfDecimal(i);
    }
  }

  lemma {:induction false} WalkTokens(v: Json, loc: Location)
    requires At(v, loc).Some?
    ensures Walk(v, Tokens(loc)) == At(v, loc)
  {
    if loc != [] {
      SelectStep(v, loc[0]);
      WalkTokens(Child(v, loc[0]).value, loc[1..]);
    }
  }

  /** Every location of every document is reached by its own pointer. */
  lemma PointerRoundTrip(document: Json, loc: Location)
    requires At(document, loc).Some?
    ensures Resolve(document, PointerTo(loc)) == At(document, loc)
  {
    if loc != [] {
      var joined := Join(Tokens(loc), '/');
      assert PointerTo(loc)[1..] == joined;
      SplitOfJoin(Tokens(loc), '/');
      WalkTokens(document, loc);
    }
  }
}
