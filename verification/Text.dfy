/** The string functions of the Go standard library that the program relies on.
    A string is a sequence of Unicode scalar values. */
module Text {

  predicate HasSuffix(s: string, suffix: string) {
    |suffix| <= |s| && s[|s| - |suffix|..] == suffix
  }

  predicate Free(s: string, c: char) {
    forall i :: 0 <= i < |s| ==> s[i] != c
  }

  // ---------------------------------------------------------------- splitting

  /** `strings.Split(s, sep)` for a one-character separator. */
  function Split(s: string, sep: char): (parts: seq<string>)
    ensures |parts| >= 1
    ensures forall i :: 0 <= i < |parts| ==> Free(parts[i], sep)
  {
    if s == "" then [""]
    else
      var rest := Split(s[1..], sep);
      if s[0] == sep then [""] + rest
      else [[s[0]] + rest[0]] + rest[1..]
  }

  /** `strings.Join(parts, sep)`; the empty list joins to the empty string. */
  function Join(parts: seq<string>, sep: char): string {
    if parts == [] then ""
    else if |parts| == 1 then parts[0]
    else parts[0] + [sep] + Join(parts[1..], sep)
  }

  lemma {:induction false} SplitAtSeparator(a: string, b: string, sep: char)
    requires Free(a, sep)
    ensures Split(a + [sep] + b, sep) == [a] + Split(b, sep)
  {
    var s := a + [sep] + b;
    if a == "" {
      assert s[1..] == b;
    } else {
      assert s[1..] == a[1..] + [sep] + b;
      SplitAtSeparator(a[1..], b, sep);
      assert [a[0]] + a[1..] == a;
    }
  }

  lemma {:induction false} SplitFree(a: string, sep: char)
    requires Free(a, sep)
    ensures Split(a, sep) == [a]
  {
    if a != "" {
      SplitFree(a[1..], sep);
      assert [a[0]] + a[1..] == a;
    }
  }

  /** Splitting undoes joining. */
  lemma {:induction false} SplitOfJoin(parts: seq<string>, sep: char)
    requires parts != []
    requires forall i :: 0 <= i < |parts| ==> Free(parts[i], sep)
    ensures Split(Join(parts, sep), sep) == parts
  {
    if |parts| == 1 {
      SplitFree(parts[0], sep);
    } else {
      SplitOfJoin(parts[1..], sep);
      SplitAtSeparator(parts[0], Join(parts[1..], sep), sep);
      assert parts == [parts[0]] + parts[1..];
    }
  }

  // ---------------------------------------------------------------- trimming

  function TrimLeft(s: string, c: char): (r: string)
    ensures r == "" || r[0] != c
  {
    if s != "" && s[0] == c then TrimLeft(s[1..], c) else s
  }

  function TrimRight(s: string, c: char): (r: string)
    ensures r == "" || r[|r| - 1] != c
    ensures r <= s
  {
    if s != "" && s[|s| - 1] == c then TrimRight(s[..|s| - 1], c) else s
  }

  /** `strings.Trim(s, c)` for a one-character cut set. */
  function Trim(s: string, c: char): (r: string)
    ensures r == "" || (r[0] != c && r[|r| - 1] != c)
  {
    TrimRight(TrimLeft(s, c), c)
  }

  lemma TrimUnchanged(s: string, c: char)
    requires s == "" || (s[0] != c && s[|s| - 1] != c)
    ensures Trim(s, c) == s
  {
  }

  /** `unicode.IsSpace`. */
  predicate IsSpace(c: char) {
    var n := c as int;
    || 0x09 <= n <= 0x0D || n == 0x20 || n == 0x85 || n == 0xA0 || n == 0x1680 || 0x2000 <= n <= 0x200A
    || n == 0x2028 || n == 0x2029 || n == 0x202F || n == 0x205F || n == 0x3000
  }

  function TrimSpaceLeft(s: string): string {
    if s != "" && IsSpace(s[0]) then TrimSpaceLeft(s[1..]) else s
  }

  function TrimSpaceRight(s: string): string {
    if s != "" && IsSpace(s[|s| - 1]) then TrimSpaceRight(s[..|s| - 1]) else s
  }

  /** `strings.TrimSpace`. */
  function TrimSpace(s: string): string {
    TrimSpaceRight(TrimSpaceLeft(s))
  }

  lemma TrimSpaceUnchanged(s: string)
    requires s != "" && !IsSpace(s[0]) && !IsSpace(s[|s| - 1])
    ensures TrimSpace(s) == s
  {
    assert TrimSpaceLeft(s) == s;
  }

  // ---------------------------------------------------------------- case

  /** `unicode.ToLower` as far as ASCII is concerned: two other characters, a dotted capital
      I and the Kelvin sign, have an ASCII letter as their lower case. The rest is kept. */
  function Lower(c: char): char {
    if 'A' <= c <= 'Z' then c - 'A' + 'a'
    else if c as int == 0x130 then 'i'
    else if c as int == 0x212A then 'k'
    else c
  }

  /** `strings.ToLower`. */
  function ToLower(s: string): (r: string)
    ensures |r| == |s|
  {
    if s == "" then "" else [Lower(s[0])] + ToLower(s[1..])
  }

  lemma {:induction false} ToLowerUnchanged(s: string)
    requires forall i :: 0 <= i < |s| ==> Lower(s[i]) == s[i]
    ensures ToLower(s) == s
  {
    if s != "" {
      ToLowerUnchanged(s[1..]);
      assert s == [s[0]] + s[1..];
    }
  }

  // ---------------------------------------------------------------- spelling

  /** The ways to write a lower-case character. */
  predicate IsCaseOf(c: char, lower: char) {
    || c == lower
    || ('a' <= lower <= 'z' && c as int + 32 == lower as int)
    || (lower == 'i' && c as int == 0x130)
    || (lower == 'k' && c as int == 0x212A)
  }

  /** No upper-case letter among those that the model knows. */
  predicate IsLowerCase(word: string) {
    forall i :: 0 <= i < |word| ==>
                  !('A' <= word[i] <= 'Z') && word[i] as int != 0x130 && word[i] as int != 0x212A
  }

  predicate InAnyCase(text: string, word: string) {
    |text| == |word| && forall i :: 0 <= i < |text| ==> IsCaseOf(text[i], word[i])
  }

  /** Lower case is reached from every spelling and from nothing else. */
  lemma {:induction false} LowerIsAnyCase(text: string, word: string)
    requires IsLowerCase(word)
    ensures ToLower(text) == word <==> InAnyCase(text, word)
  {
    if text != "" && word != "" {
      LowerIsAnyCase(text[1..], word[1..]);
      assert word == [word[0]] + word[1..];
      assert ToLower(text)[1..] == ToLower(text[1..]) && ToLower(text)[0] == Lower(text[0]);
      if InAnyCase(text, word) {
        assert IsCaseOf(text[0], word[0]);
      }
    }
  }

  /** The characters that Unicode calls white space, by their code points. */
  lemma SpacesAreListed(c: char)
    ensures IsSpace(c) <==>
            c as int in {9, 10, 11, 12, 13, 32, 133, 160, 5760, 8192, 8193, 8194, 8195, 8196, 8197, 8198, 8199,
                         8200, 8201, 8202, 8232, 8233, 8239, 8287, 12288}
  {
  }

  predicate IsBlank(s: string) {
    forall i :: 0 <= i < |s| ==> IsSpace(s[i])
  }

  /** Nothing to trim. */
  predicate IsTrimmed(s: string) {
    s == "" || (!IsSpace(s[0]) && !IsSpace(s[|s| - 1]))
  }

  ghost predicate SurroundedBySpaces(text: string, core: string) {
    exists a, b :: IsBlank(a) && IsBlank(b) && text == a + core + b
  }

  lemma {:induction false} TrimLeftBlank(a: string, rest: string)
    requires IsBlank(a) && (rest == "" || !IsSpace(rest[0]))
    ensures TrimSpaceLeft(a + rest) == rest
  {
    if a == "" {
      assert a + rest == rest;
    } else {
      assert (a + rest)[1..] == a[1..] + rest;
      TrimLeftBlank(a[1..], rest);
    }
  }

  lemma {:induction false} TrimRightBlank(core: string, b: string)
    requires IsBlank(b) && (core == "" || !IsSpace(core[|core| - 1]))
    ensures TrimSpaceRight(core + b) == core
    decreases |b|
  {
    if b == "" {
      assert core + b == core;
    } else {
      var front := b[..|b| - 1];
      assert (core + b)[..|core + b| - 1] == core + front;
      TrimRightBlank(core, front);
    }
  }

  lemma {:induction false} AllBlankTrims(a: string)
    requires IsBlank(a)
    ensures TrimSpaceLeft(a) == ""
  {
    if a != "" {
      AllBlankTrims(a[1..]);
    }
  }

  lemma {:induction false} TrimmedLeft(s: string) returns (a: string)
    ensures IsBlank(a) && s == a + TrimSpaceLeft(s)
    ensures TrimSpaceLeft(s) == "" || !IsSpace(TrimSpaceLeft(s)[0])
  {
    a := "";
    if s != "" && IsSpace(s[0]) {
      var rest := TrimmedLeft(s[1..]);
      a := [s[0]] + rest;
      assert s == [s[0]] + s[1..];
    }
  }

  lemma {:induction false} TrimmedRight(s: string) returns (b: string)
    ensures IsBlank(b) && s == TrimSpaceRight(s) + b
    ensures TrimSpaceRight(s) == "" || !IsSpace(TrimSpaceRight(s)[|TrimSpaceRight(s)| - 1])
    ensures TrimSpaceRight(s) != "" ==> TrimSpaceRight(s)[0] == s[0]
    decreases |s|
  {
    b := "";
    if s != "" && IsSpace(s[|s| - 1]) {
      var front := s[..|s| - 1];
      var rest := TrimmedRight(front);
      b := rest + [s[|s| - 1]];
      assert s == front + [s[|s| - 1]];
    }
  }

  lemma CoreIsFound(text: string, a: string, core: string, b: string)
    requires IsTrimmed(core) && IsBlank(a) && IsBlank(b) && text == a + core + b
    ensures TrimSpace(text) == core
  {
    if core == "" {
      assert text == a + b;
      AllBlankTrims(text);
    } else {
      assert text == a + (core + b) && (core + b)[0] == core[0];
      TrimLeftBlank(a, core + b);
      TrimRightBlank(core, b);
    }
  }

  lemma CoreExists(text: string)
    ensures SurroundedBySpaces(text, TrimSpace(text)) && IsTrimmed(TrimSpace(text))
  {
    var a := TrimmedLeft(text);
    var rest := TrimSpaceLeft(text);
    var b := TrimmedRight(rest);
    assert text == a + TrimSpace(text) + b;
  }

  /** Trimming finds the core of a text: what is left when the spaces around it are gone. */
  lemma TrimIsCore(text: string, core: string)
    requires IsTrimmed(core)
    ensures TrimSpace(text) == core <==> SurroundedBySpaces(text, core)
  {
    CoreExists(text);
    if SurroundedBySpaces(text, core) {
      var a, b :| IsBlank(a) && IsBlank(b) && text == a + core + b;
      CoreIsFound(text, a, core, b);
    }
  }

  /** A word in any letter case, with spaces around it. */
  ghost predicate Spells(text: string, word: string) {
    exists core :: SurroundedBySpaces(text, core) && InAnyCase(core, word)
  }

  predicate HasNoSpace(word: string) {
    forall i :: 0 <= i < |word| ==> word[i] as int > 32 && word[i] as int < 127
  }

  /** Trimming and lower case together find the word that a text spells. */
  lemma SpellingIsFound(text: string, word: string)
    requires IsLowerCase(word) && HasNoSpace(word)
    ensures ToLower(TrimSpace(text)) == word <==> Spells(text, word)
  {
    CoreExists(text);
    LowerIsAnyCase(TrimSpace(text), word);
    if c :| SurroundedBySpaces(text, c) && InAnyCase(c, word) {
      assert c != "" ==> IsCaseOf(c[0], word[0]) && IsCaseOf(c[|c| - 1], word[|c| - 1]);
      TrimIsCore(text, c);
      LowerIsAnyCase(c, word);
    }
  }

  // ---------------------------------------------------------------- cutting and replacement

  /** The part before the first `c`, as `strings.Cut` returns it. */
  function Before(s: string, c: char): (r: string)
    ensures Free(r, c)
  {
    Split(s, c)[0]
  }

  /** The rest of a text after its head begins with the separator, if there is a rest. */
  lemma BeforeIsHead(s: string, c: char, head: string)
    ensures Before(s, c) == head <==>
            Free(head, c) && head <= s && (s == head || s[|head|] == c)
  {
    HeadOfSplit(s, c);
    var first := Before(s, c);
    if Free(head, c) && head <= s && (s == head || s[|head|] == c) {
      assert first == s[..|first|] && head == s[..|head|];
    }
  }

  lemma {:induction false} HeadOfSplit(s: string, c: char)
    ensures Before(s, c) <= s && (s == Before(s, c) || s[|Before(s, c)|] == c)
  {
    if s != "" && s[0] != c {
      HeadOfSplit(s[1..], c);
      var first := Before(s[1..], c);
      assert Before(s, c) == [s[0]] + first;
      assert s == [s[0]] + s[1..];
    }
  }

  /** `strings.ReplaceAll(s, from, to)`. */
  function ReplaceAll(s: string, from: string, to: string): string
    requires from != ""
  {
    if |s| < |from| then s
    else if s[..|from|] == from then to + ReplaceAll(s[|from|..], from, to)
    else [s[0]] + ReplaceAll(s[1..], from, to)
  }

  // ---------------------------------------------------------------- decimal numerals

  predicate IsDigit(c: char) {
    '0' <= c <= '9'
  }

  predicate AllDigits(s: string) {
    forall i :: 0 <= i < |s| ==> IsDigit(s[i])
  }

  function Digit(n: nat): char
    requires n < 10
  {
    '0' + n as char
  }

  /** The decimal numeral of a natural number, without leading zeros. */
  function Decimal(n: nat): (s: string)
    ensures s != "" && AllDigits(s)
  {
    if n < 10 then [Digit(n)] else Decimal(n / 10) + [Digit(n % 10)]
  }

  /** `strconv.Itoa`. */
  function Itoa(n: int): string {
    if n < 0 then "-" + Decimal(-n) else Decimal(n)
  }

  /** The number a digit string denotes. */
  function DigitsValue(s: string): nat
    requires AllDigits(s)
  {
    if s == "" then 0
    else DigitsValue(s[..|s| - 1]) * 10 + (s[|s| - 1] - '0') as nat
  }

  lemma {:induction false} ValueOfDecimal(n: nat)
    ensures DigitsValue(Decimal(n)) == n
  {
    if n >= 10 {
      ValueOfDecimal(n / 10);
      var s := Decimal(n);
      assert s[..|s| - 1] == Decimal(n / 10);
      assert s[|s| - 1] == Digit(n % 10);
    } else {
      var s := Decimal(n);
      assert s[..|s| - 1] == "";
    }
  }

  /** A digit string without leading zeros is the numeral of its value. */
  lemma {:induction false} DecimalOfValue(s: string)
    requires s != "" && AllDigits(s)
    requires s[0] == '0' ==> |s| == 1
    ensures Decimal(DigitsValue(s)) == s
    ensures s[0] != '0' ==> DigitsValue(s) > 0
  {
    var front := s[..|s| - 1];
    if front == "" {
      assert DigitsValue(front) == 0;
    } else {
      assert front[0] == s[0];
      DecimalOfValue(front);
      assert s == front + [s[|s| - 1]];
    }
  }

  /** The digits after an optional sign. */
  function Unsigned(s: string): string {
    if s != "" && (s[0] == '-' || s[0] == '+') then s[1..] else s
  }

  predicate IsNumeral(s: string) {
    Unsigned(s) != "" && AllDigits(Unsigned(s))
  }

  /** The value `strconv.Atoi` and `strconv.ParseInt(s, 10, 64)` give a signed numeral
      before their range check. */
  function NumeralValue(s: string): int
    requires IsNumeral(s)
  {
    var magnitude: int := DigitsValue(Unsigned(s));
    if s[0] == '-' then -magnitude else magnitude
  }
}
