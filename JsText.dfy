/**
 * The JavaScript value and string primitives that the backend handlers and the
 * renderer components rely on: JSON values and their truthiness, the string
 * conversion used by template literals and String(), ASCII case mapping,
 * String.prototype.trim, split and replace on one character, and parseInt with
 * radix 10.
 */
module JsText {

  datatype Option<T> = None | Some(value: T)

  /** A JSON value as a request body or a result row carries it. Numbers are
      integers in this model. */
  datatype JsValue = Undefined | Null | Bool(b: bool) | Num(n: int) | Str(s: string)

  /** JavaScript truthiness, the test behind `!x` and `x && y`. */
  predicate Truthy(v: JsValue)
  {
    match v
    case Undefined => false
    case Null => false
    case Bool(b) => b
    case Num(n) => n != 0
    case Str(s) => s != ""
  }

  // ---------------------------------------------------------------------------
  // Decimal digits and number rendering
  // ---------------------------------------------------------------------------

  predicate IsDigit(c: char) { '0' <= c <= '9' }

  predicate AllDigits(s: string) { forall i | 0 <= i < |s| :: IsDigit(s[i]) }

  function DigitChar(d: nat): (c: char)
    requires d < 10
    ensures IsDigit(c) && (c as int) - ('0' as int) == d
  {
    (('0' as int) + d) as char
  }

  function DigitValue(c: char): nat
    requires IsDigit(c)
  {
    (c as int) - ('0' as int)
  }

  /** The value of a string of decimal digits, most significant first. */
  function DigitsValue(ds: string): nat
    requires AllDigits(ds)
  {
    if ds == [] then 0
    else DigitsValue(ds[..|ds| - 1]) * 10 + DigitValue(ds[|ds| - 1])
  }

  /** Decimal rendering of a natural number, without leading zeros. */
  function NatToDecimal(n: nat): (r: string)
    ensures |r| >= 1 && AllDigits(r)
    ensures r[0] == '0' ==> n == 0
  {
    if n < 10 then [DigitChar(n)] else NatToDecimal(n / 10) + [DigitChar(n % 10)]
  }

  /** Number::toString for an integer-valued number. */
  function IntToDecimal(n: int): (r: string)
    ensures |r| >= 1
    ensures n >= 0 ==> r == NatToDecimal(n)
    ensures n < 0 ==> r == "-" + NatToDecimal(-n)
  {
    if n < 0 then "-" + NatToDecimal(-n) else NatToDecimal(n)
  }

  lemma {:induction false} DigitsValueOfDecimal(n: nat)
    ensures DigitsValue(NatToDecimal(n)) == n
  {
    if n >= 10 {
      var r := NatToDecimal(n);
      var front := NatToDecimal(n / 10);
      assert r[..|r| - 1] == front;
      DigitsValueOfDecimal(n / 10);
    }
  }

  /** ECMAScript ToString, which template literals and String() apply. */
  function ToText(v: JsValue): (r: string)
    ensures v.Str? ==> r == v.s
    ensures v.Num? ==> r == IntToDecimal(v.n)
    ensures v.Undefined? ==> r == "undefined"
    ensures v.Null? ==> r == "null"
  {
    match v
    case Undefined => "undefined"
    case Null => "null"
    case Bool(b) => if b then "true" else "false"
    case Num(n) => IntToDecimal(n)
    case Str(s) => s
  }

  // ---------------------------------------------------------------------------
  // Case mapping (ASCII letters)
  // ---------------------------------------------------------------------------

  function LowerChar(c: char): char
  {
    if 'A' <= c <= 'Z' then ((c as int) + 32) as char else c
  }

  function UpperChar(c: char): char
  {
    if 'a' <= c <= 'z' then ((c as int) - 32) as char else c
  }

  /** String.prototype.toLowerCase on ASCII letters. */
  function ToLower(s: string): (r: string)
    ensures |r| == |s|
    ensures forall i | 0 <= i < |s| :: r[i] == LowerChar(s[i])
  {
    seq(|s|, i requires 0 <= i < |s| => LowerChar(s[i]))
  }

  /** String.prototype.toUpperCase on ASCII letters. */
  function ToUpper(s: string): (r: string)
    ensures |r| == |s|
    ensures forall i | 0 <= i < |s| :: r[i] == UpperChar(s[i])
  {
    seq(|s|, i requires 0 <= i < |s| => UpperChar(s[i]))
  }

  predicate IsUpperAscii(c: char) { 'A' <= c <= 'Z' }

  predicate IsLowerAscii(c: char) { 'a' <= c <= 'z' }

  /** What the keyword comparisons `type.toLowerCase() === 'varchar'` rely
      on: the lower-cased text has no capital letter, lower-casing it again
      changes nothing, and a text without capitals is its own lower case. */
  lemma ToLowerFacts(s: string)
    ensures forall i | 0 <= i < |ToLower(s)| :: !IsUpperAscii(ToLower(s)[i])
    ensures ToLower(ToLower(s)) == ToLower(s)
    ensures (forall i | 0 <= i < |s| :: !IsUpperAscii(s[i])) ==> ToLower(s) == s
  {
  }

  /** The same for upper case: no small letter is left, upper-casing again
      changes nothing, and a text without small letters is unchanged. */
  lemma ToUpperFacts(s: string)
    ensures forall i | 0 <= i < |ToUpper(s)| :: !IsLowerAscii(ToUpper(s)[i])
    ensures ToUpper(ToUpper(s)) == ToUpper(s)
    ensures (forall i | 0 <= i < |s| :: !IsLowerAscii(s[i])) ==> ToUpper(s) == s
  {
  }

  /** The two case maps agree up to case: texts with the same upper case
      have the same lower case, and the other way round. */
  lemma CaseMapsAgree(s: string)
    ensures ToLower(ToUpper(s)) == ToLower(s)
    ensures ToUpper(ToLower(s)) == ToUpper(s)
  {
  }

  // ---------------------------------------------------------------------------
  // Whitespace and trim
  // ---------------------------------------------------------------------------

  /** The WhiteSpace and LineTerminator code points of ECMAScript, which trim
      and parseInt skip. */
  predicate IsWhitespace(c: char)
  {
    c == '\t' || c == '\n' || c == '\U{000B}' || c == '\U{000C}' || c == '\r' || c == ' '
    || c == '\U{00A0}' || c == '\U{1680}' || ('\U{2000}' <= c <= '\U{200A}')
    || c == '\U{2028}' || c == '\U{2029}' || c == '\U{202F}' || c == '\U{205F}'
    || c == '\U{3000}' || c == '\U{FEFF}'
  }

  predicate AllWhitespace(s: string) { forall i | 0 <= i < |s| :: IsWhitespace(s[i]) }

  function TrimStart(s: string): (r: string)
    ensures |r| <= |s| && r == s[|s| - |r|..]
    ensures r != [] ==> !IsWhitespace(r[0])
    ensures forall i | 0 <= i < |s| - |r| :: IsWhitespace(s[i])
  {
    if s != [] && IsWhitespace(s[0]) then TrimStart(s[1..]) else s
  }

  function TrimEnd(s: string): (r: string)
    ensures |r| <= |s| && r == s[..|r|]
    ensures r != [] ==> !IsWhitespace(r[|r| - 1])
    ensures forall i | |r| <= i < |s| :: IsWhitespace(s[i])
  {
    if s != [] && IsWhitespace(s[|s| - 1]) then TrimEnd(s[..|s| - 1]) else s
  }

  /** String.prototype.trim. */
  function Trim(s: string): string
  {
    TrimEnd(TrimStart(s))
  }

  lemma TrimStartEmpty(s: string)
    ensures TrimStart(s) == [] <==> AllWhitespace(s)
  {
    var r := TrimStart(s);
    if r != [] {
      assert r[0] == s[|s| - |r|];
    }
  }

  lemma {:induction false} TrimEndKeepsHead(t: string)
    requires t != [] && !IsWhitespace(t[0])
    ensures TrimEnd(t) != []
  {
    if IsWhitespace(t[|t| - 1]) {
      TrimEndKeepsHead(t[..|t| - 1]);
    }
  }

  /** A string trims to nothing exactly when every character is whitespace. */
  lemma TrimEmptyIffBlank(s: string)
    ensures Trim(s) == [] <==> AllWhitespace(s)
  {
    TrimStartEmpty(s);
    if TrimStart(s) != [] {
      TrimEndKeepsHead(TrimStart(s));
    }
  }

  // ---------------------------------------------------------------------------
  // replace(/c/g, '') and split(c) with a one-character separator
  // ---------------------------------------------------------------------------

  /** s.replace(/c/g, ''): every occurrence of c removed, the rest in order. */
  function RemoveAll(s: string, c: char): (r: string)
    ensures c !in r
    ensures |r| <= |s|
    ensures c !in s ==> r == s
  {
    if s == [] then []
    else if s[0] == c then RemoveAll(s[1..], c)
    else [s[0]] + RemoveAll(s[1..], c)
  }

  /** Removal on a text that begins with one known character. */
  lemma RemoveAllCons(x: char, rest: string, c: char)
    ensures RemoveAll([x] + rest, c) == if x == c then RemoveAll(rest, c) else [x] + RemoveAll(rest, c)
  {
    assert ([x] + rest)[1..] == rest;
  }

  lemma {:induction false} RemoveAllAppend(a: string, b: string, c: char)
    ensures RemoveAll(a + b, c) == RemoveAll(a, c) + RemoveAll(b, c)
  {
    if a != [] {
      assert (a + b)[1..] == a[1..] + b;
      RemoveAllAppend(a[1..], b, c);
    } else {
      assert a + b == b;
    }
  }

  lemma AppendAssociates<T>(a: seq<T>, b: seq<T>, c: seq<T>)
    ensures (a + b) + c == a + (b + c)
  {
  }

  /** s.split(sep): the pieces between separators, at least one of them. */
  function Split(s: string, sep: char): (parts: seq<string>)
    ensures |parts| >= 1
    ensures forall k | 0 <= k < |parts| :: sep !in parts[k]
  {
    if s == [] then [[]]
    else if s[0] == sep then [[]] + Split(s[1..], sep)
    else
      var rest := Split(s[1..], sep);
      [[s[0]] + rest[0]] + rest[1..]
  }

  /** parts.join(sep). */
  function Join(parts: seq<string>, sep: char): string
  {
    if |parts| == 0 then []
    else if |parts| == 1 then parts[0]
    else parts[0] + [sep] + Join(parts[1..], sep)
  }

  /** Joining the pieces of a split gives the string back. */
  lemma {:induction false} JoinSplit(s: string, sep: char)
    ensures Join(Split(s, sep), sep) == s
  {
    if s == [] {
    } else if s[0] == sep {
      JoinSplit(s[1..], sep);
      var rest := Split(s[1..], sep);
      assert Split(s, sep) == [[]] + rest;
      assert ([[]] + rest)[1..] == rest;
    } else {
      JoinSplit(s[1..], sep);
      var rest := Split(s[1..], sep);
      var parts := [[s[0]] + rest[0]] + rest[1..];
      assert Split(s, sep) == parts;
      if |rest| == 1 {
        assert Join(parts, sep) == [s[0]] + rest[0];
      } else {
        assert parts[1..] == rest[1..];
        assert Join(rest, sep) == rest[0] + [sep] + Join(rest[1..], sep);
        assert Join(parts, sep) == [s[0]] + rest[0] + [sep] + Join(rest[1..], sep);
      }
    }
  }

  /** A string without the separator splits into itself alone. */
  lemma {:induction false} SplitNoSeparator(s: string, sep: char)
    requires sep !in s
    ensures Split(s, sep) == [s]
  {
    if s != [] {
      SplitNoSeparator(s[1..], sep);
      assert [s[0]] + s[1..] == s;
    }
  }

  /** Splitting `a + sep + b`, where `a` holds no separator, yields `a` first. */
  lemma {:induction false} SplitAfterFirst(a: string, b: string, sep: char)
    requires sep !in a
    ensures Split(a + [sep] + b, sep) == [a] + Split(b, sep)
  {
    if a == [] {
      assert [] + [sep] + b == [sep] + b;
      assert ([sep] + b)[1..] == b;
    } else {
      var s := a + [sep] + b;
      assert s[0] == a[0];
      assert s[1..] == a[1..] + [sep] + b;
      SplitAfterFirst(a[1..], b, sep);
      assert [a[0]] + a[1..] == a;
    }
  }

  /** A split string has a single part exactly when the separator does not
      occur in it. */
  lemma {:induction false} SplitSinglePart(s: string, sep: char)
    ensures |Split(s, sep)| == 1 <==> sep !in s
  {
    if sep !in s {
      SplitNoSeparator(s, sep);
    } else {
      JoinSplit(s, sep);
    }
  }

  /** The first part is what comes before the first separator: the whole
      string when there is none, and otherwise the first two parts with the
      separator between them begin the string. */
  lemma SplitHead(s: string, sep: char)
    ensures Split(s, sep)[0] <= s
    ensures sep !in s ==> Split(s, sep)[0] == s
    ensures |Split(s, sep)| > 1 ==> Split(s, sep)[0] + [sep] + Split(s, sep)[1] <= s
  {
    var parts := Split(s, sep);
    JoinSplit(s, sep);
    SplitSinglePart(s, sep);
    if |parts| > 1 {
      var rest := Join(parts[1..], sep);
      assert s == parts[0] + [sep] + rest;
      assert parts[1] <= rest;
      assert s[..|parts[0]|] == parts[0];
      assert (parts[0] + [sep] + parts[1]) == s[..|parts[0]| + 1 + |parts[1]|];
    }
  }

  /** After the first separator come the later parts joined again; the second
      part is all of that when there are two parts, and is followed by the
      second separator otherwise. */
  lemma SplitRest(s: string, sep: char)
    requires sep in s
    ensures var parts := Split(s, sep);
      |parts| > 1 && |parts[0]| < |s| &&
      var rest := s[|parts[0]| + 1..];
      && rest == Join(parts[1..], sep)
      && (|parts| == 2 ==> rest == parts[1])
      && (|parts| > 2 ==> parts[1] + [sep] <= rest)
  {
    var parts := Split(s, sep);
    JoinSplit(s, sep);
    SplitSinglePart(s, sep);
    var rest := Join(parts[1..], sep);
    assert s == parts[0] + [sep] + rest;
    assert s[|parts[0]| + 1..] == rest;
    if |parts| > 2 {
      assert parts[1..][1..] == parts[2..];
      assert rest == parts[1] + [sep] + Join(parts[2..], sep);
    }
  }

  /** A character the string does not contain is in none of its parts. */
  lemma {:induction false} SplitKeepsAbsent(s: string, sep: char, c: char)
    requires c !in s
    ensures forall k | 0 <= k < |Split(s, sep)| :: c !in Split(s, sep)[k]
    decreases |s|
  {
    if s != [] {
      assert c !in s[1..] by {
        assert forall i | 0 <= i < |s[1..]| :: s[1..][i] == s[i + 1];
      }
      SplitKeepsAbsent(s[1..], sep, c);
      if s[0] != sep {
        var rest := Split(s[1..], sep);
        assert Split(s, sep) == [[s[0]] + rest[0]] + rest[1..];
        assert c !in [s[0]] + rest[0];
      }
    }
  }

  /** The second part ends at the end of the string or at the second
      separator. */
  lemma SplitSecondEnds(s: string, sep: char)
    requires |Split(s, sep)| > 1
    ensures var parts := Split(s, sep);
      var n := |parts[0]| + 1 + |parts[1]|;
      n <= |s| && (n == |s| || s[n] == sep)
  {
    var parts := Split(s, sep);
    SplitSinglePart(s, sep);
    SplitRest(s, sep);
    var rest := s[|parts[0]| + 1..];
    if |parts| > 2 {
      assert rest[|parts[1]|] == sep;
    }
  }

  // ---------------------------------------------------------------------------
  // parseInt(s, 10)
  // ---------------------------------------------------------------------------

  /** The longest prefix of decimal digits. */
  function DigitPrefix(s: string): (r: string)
    ensures AllDigits(r) && r <= s
    ensures AllDigits(s) ==> r == s
    ensures |r| < |s| ==> !IsDigit(s[|r|])
  {
    if s != [] && IsDigit(s[0]) then [s[0]] + DigitPrefix(s[1..]) else []
  }

  /** parseInt(text, 10): leading whitespace skipped, an optional sign, then the
      longest run of decimal digits; None stands for NaN (no digit found). */
  function ParseInt(text: string): Option<int>
  {
    var t := TrimStart(text);
    var negative := t != [] && t[0] == '-';
    var body := if t != [] && (t[0] == '-' || t[0] == '+') then t[1..] else t;
    var ds := DigitPrefix(body);
    if ds == [] then None
    else
      var v: int := DigitsValue(ds);
      Some(if negative then -v else v)
  }

  /** Rendering NaN as the template literal does. */
  function ParsedText(r: Option<int>): string
  {
    match r
    case None => "NaN"
    case Some(n) => IntToDecimal(n)
  }

  /** A text that does not begin with white space is left as it is. */
  lemma TrimStartKeeps(t: string)
    requires t != [] && !IsWhitespace(t[0])
    ensures TrimStart(t) == t
  {
  }

  lemma ParseIntOfDigits(d: string)
    requires d != [] && AllDigits(d)
    ensures ParseInt(d) == Some(DigitsValue(d))
  {
    TrimStartKeeps(d);
    assert DigitPrefix(d) == d;
  }

  lemma ParseIntOfNegatedDigits(d: string)
    requires d != [] && AllDigits(d)
    ensures ParseInt("-" + d) == Some(-(DigitsValue(d) as int))
  {
    var t := "-" + d;
    assert t[0] == '-' && !IsWhitespace('-');
    TrimStartKeeps(t);
    assert t[1..] == d;
    assert DigitPrefix(d) == d;
  }

  /** parseInt reads back what number rendering wrote. */
  lemma ParseIntOfDecimal(n: int)
    ensures ParseInt(IntToDecimal(n)) == Some(n)
  {
    var m := if n < 0 then -n else n;
    DigitsValueOfDecimal(m);
    if n < 0 {
      ParseIntOfNegatedDigits(NatToDecimal(m));
    } else {
      ParseIntOfDigits(NatToDecimal(m));
    }
  }
}
