/**
 * `_isSerializedString`: the check `get()` makes before handing a decoded string to
 * `unserialize`, and the texts PHP's `serialize` writes for null, booleans, integers,
 * strings and arrays, which the check is meant to recognise.
 */
module Serialized {
  import opened Common
  import opened Php

  /** The length of the run of decimal digits at the start of `t`. */
  function DigitRun(t: string): (n: nat)
    ensures n <= |t|
    ensures n < |t| ==> !IsDigit(t[n])
  {
    if t != [] && IsDigit(t[0]) then 1 + DigitRun(t[1..]) else 0
  }

  /** The characters of the class `[0-9.E+-]`. */
  predicate IsNumberChar(c: char) {
    IsDigit(c) || c == '.' || c == 'E' || c == '+' || c == '-'
  }

  /** The length of the run of `[0-9.E+-]` characters at the start of `t`. */
  function NumberRun(t: string): (n: nat)
    ensures n <= |t|
    ensures n < |t| ==> !IsNumberChar(t[n])
  {
    if t != [] && IsNumberChar(t[0]) then 1 + NumberRun(t[1..]) else 0
  }

  /**
   * `preg_match("/^{$token}:[0-9]+:/s", $t)` once `t` is known to start with the token and ':'.
   * ':' is not a digit, so the pattern matches exactly when the longest run of digits after
   * the ':' is non-empty and followed by ':'.
   */
  predicate HasCount(t: string)
    requires |t| >= 2
  {
    var n := DigitRun(t[2..]);
    n >= 1 && 2 + n < |t| && t[2 + n] == ':'
  }

  /**
   * `preg_match("/^{$token}:[0-9.E+-]+;$end/", $t)`, `$end` being '$' in strict mode. ';' is
   * outside the class, so the pattern matches exactly when the longest run after the ':' is
   * non-empty and followed by ';', which in strict mode must end the (trimmed) text.
   */
  predicate HasNumber(t: string, strict: bool)
    requires |t| >= 2
  {
    var n := NumberRun(t[2..]);
    n >= 1 && 2 + n < |t| && t[2 + n] == ';' && (strict ==> 2 + n + 1 == |t|)
  }

  /** The loose test: some ';' or '}', the first ';' not before index 3 and the first '}' not before index 4. */
  predicate HasTerminators(t: string) {
    var semicolon, brace := Find(t, ';'), Find(t, '}');
    && (semicolon.Some? || brace.Some?)
    && (semicolon.Some? ==> semicolon.value >= 3)
    && (brace.Some? ==> brace.value >= 4)
  }

  /** The checks of `_isSerializedString` on the trimmed text. */
  function IsSerializedText(t: string, strict: bool): (r: bool)
    ensures t == "N;" ==> r
    ensures t != "N;" && |t| < 4 ==> !r
    ensures |t| >= 2 && t[1] != ':' && t != "N;" ==> !r
    ensures strict && r && t != "N;" ==> t[|t| - 1] == ';' || t[|t| - 1] == '}'
    ensures r && t != "N;" ==> t[0] in "saObid"
  {
    if t == "N;" then true
    else if |t| < 4 then false
    else if t[1] != ':' then false
    else if strict && t[|t| - 1] != ';' && t[|t| - 1] != '}' then false
    else if !strict && !HasTerminators(t) then false
    else if t[0] == 's' then
      if strict && t[|t| - 2] != '"' then false
      else if !strict && '"' !in t then false
      else HasCount(t)
    else if t[0] == 'a' || t[0] == 'O' then HasCount(t)
    else if t[0] == 'b' || t[0] == 'i' || t[0] == 'd' then HasNumber(t, strict)
    else false
  }

  /** `_isSerializedString($data, $strict)`: anything but a string is not serialized. */
  function IsSerializedString(data: PhpValue, strict: bool): (r: bool)
    ensures r ==> data.Str?
  {
    data.Str? && IsSerializedText(Trim(data.s), strict)
  }

  // ---- the texts `serialize` writes ----

  /** The decimal digits of `n`, without leading zeros. */
  function DecimalText(n: nat): (s: string)
    ensures |s| >= 1
    decreases n
  {
    if n < 10 then [('0' as int + n) as char] else DecimalText(n / 10) + [('0' as int + n % 10) as char]
  }

  /** Every character of a decimal text is a digit. */
  lemma {:induction false} DecimalTextDigits(n: nat, i: nat)
    requires i < |DecimalText(n)|
    ensures IsDigit(DecimalText(n)[i])
    decreases n
  {
    if n >= 10 && i < |DecimalText(n / 10)| {
      DecimalTextDigits(n / 10, i);
    }
  }

  /** Reading the digits back gives the number. */
  lemma {:induction false} DecimalTextValue(n: nat)
    ensures AllDigits(DecimalText(n)) && DecimalValue(DecimalText(n)) == n
    decreases n
  {
    forall i | 0 <= i < |DecimalText(n)|
      ensures IsDigit(DecimalText(n)[i])
    {
      DecimalTextDigits(n, i);
    }
    if n >= 10 {
      var s := DecimalText(n);
      DecimalTextValue(n / 10);
      assert s[..|s| - 1] == DecimalText(n / 10);
    }
  }

  /** PHP's text for an integer: a '-' for negative values, then the digits. */
  function IntText(i: int): (s: string)
    ensures |s| >= 1
  {
    if i < 0 then "-" + DecimalText(-i) else DecimalText(i)
  }

  /** The values whose serialized text the model spells out. */
  datatype Scalar = NullValue | BoolValue(b: bool) | IntValue(i: int) | StrValue(s: string)

  /** A type letter, ':' and the rest of a serialized value. */
  function Tagged(token: char, body: string): (t: string)
    ensures |t| == |body| + 2 && t[0] == token && t[1] == ':' && t[2..] == body
  {
    [token, ':'] + body
  }

  /** `serialize($v)` for null, booleans, integers and strings (strings by byte length). */
  function SerializeScalar(v: Scalar): string {
    match v
    case NullValue => "N;"
    case BoolValue(b) => Tagged('b', [if b then '1' else '0', ';'])
    case IntValue(i) => Tagged('i', IntText(i) + ";")
    case StrValue(s) => Tagged('s', DecimalText(|s|) + Quoted(s))
  }

  /** What follows a string's length: `:"`, the bytes, `";`. */
  function Quoted(s: string): (r: string)
    ensures |r| == |s| + 4 && r[0] == ':' && r[1] == '"' && r[|r| - 2] == '"' && r[|r| - 1] == ';'
  {
    ":\"" + s + "\";"
  }

  /** What follows an array's count: `:{`, the entries, `}`. */
  function Braced(inner: string): (r: string)
    ensures |r| == |inner| + 3 && r[0] == ':' && r[1] == '{' && r[|r| - 1] == '}'
  {
    ":{" + inner + "}"
  }

  /** `serialize($array)` for an array of `count` entries whose serialized entries are `inner`. */
  function SerializeArray(count: nat, inner: string): string {
    Tagged('a', DecimalText(count) + Braced(inner))
  }

  // ---- the check recognises what `serialize` writes ----

  /** A run of digits ends at the first non-digit. */
  lemma {:induction false} DigitRunOf(x: string, y: string)
    requires forall i :: 0 <= i < |x| ==> IsDigit(x[i])
    requires y == [] || !IsDigit(y[0])
    ensures DigitRun(x + y) == |x|
  {
    if x != [] {
      assert (x + y)[1..] == x[1..] + y;
      DigitRunOf(x[1..], y);
    }
  }

  /** A run of number characters ends at the first other character. */
  lemma {:induction false} NumberRunOf(x: string, y: string)
    requires forall i :: 0 <= i < |x| ==> IsNumberChar(x[i])
    requires y == [] || !IsNumberChar(y[0])
    ensures NumberRun(x + y) == |x|
  {
    if x != [] {
      assert (x + y)[1..] == x[1..] + y;
      NumberRunOf(x[1..], y);
    }
  }

  /** The first `c` in `t` is not before `p` when no earlier character is `c`. */
  lemma FindNotBefore(t: string, c: char, p: nat)
    requires p <= |t| && forall j :: 0 <= j < p ==> t[j] != c
    ensures Find(t, c).Some? ==> Find(t, c).value >= p
  {
    assert forall j :: 0 <= j < p ==> t[..p][j] == t[j];
  }

  /** The first characters of a digit run are digits. */
  lemma DigitRunHead(u: string)
    requires DigitRun(u) >= 1
    ensures IsDigit(u[0]) && (DigitRun(u) >= 2 ==> IsDigit(u[1]))
  {
    if DigitRun(u) >= 2 {
      assert DigitRun(u[1..]) >= 1;
      assert u[1..][0] == u[1];
    }
  }

  /** The first characters of a number run are number characters. */
  lemma NumberRunHead(u: string)
    requires NumberRun(u) >= 1
    ensures IsNumberChar(u[0]) && (NumberRun(u) >= 2 ==> IsNumberChar(u[1]))
  {
    if NumberRun(u) >= 2 {
      assert NumberRun(u[1..]) >= 1;
      assert u[1..][0] == u[1];
    }
  }

  /** A serialized text starts and ends with a character `trim` keeps, so `trim` leaves it alone. */
  lemma TrimKeeps(t: string)
    requires |t| >= 1 && !IsTrimmed(t[0]) && !IsTrimmed(t[|t| - 1])
    ensures Trim(t) == t
  {
  }

  /** `c` is found in `t` once it sits at index `p`. */
  lemma FindSome(t: string, c: char, p: nat)
    requires p < |t| && t[p] == c
    ensures Find(t, c).Some?
  {
    assert c in t;
  }

  /** The loose terminator test passes when the text ends in ';' or '}', no ';' comes before index 3 and no '}' before index 4. */
  lemma TerminatorsLate(t: string)
    requires |t| >= 4 && (t[|t| - 1] == ';' || t[|t| - 1] == '}')
    requires forall j :: 0 <= j < 3 ==> t[j] != ';'
    requires forall j :: 0 <= j < 4 ==> t[j] != '}'
    ensures HasTerminators(t)
  {
    FindNotBefore(t, ';', 3);
    FindNotBefore(t, '}', 4);
    FindSome(t, t[|t| - 1], |t| - 1);
  }

  /** A string, array or object text whose count pattern matches and which ends in ';' or '}' (a string's just after a '"') passes the checks in both modes. */
  lemma CountedText(t: string, strict: bool)
    requires |t| >= 4 && t[1] == ':' && (t[0] == 'a' || t[0] == 'O' || (t[0] == 's' && t[|t| - 2] == '"'))
    requires t[|t| - 1] == ';' || t[|t| - 1] == '}'
    requires HasCount(t)
    ensures IsSerializedText(t, strict)
  {
    var n := DigitRun(t[2..]);
    DigitRunHead(t[2..]);
    assert t[2..][0] == t[2] && t[2..][1] == t[3];
    assert n == 1 ==> t[3] == ':';
    TerminatorsLate(t);
    if t[0] == 's' {
      FindSome(t, '"', |t| - 2);
    }
  }

  /** The text passes the checks and `trim` keeps it, so the decoded string is taken for serialized data. */
  lemma TextRecognised(t: string, strict: bool)
    requires |t| >= 1 && !IsTrimmed(t[0]) && !IsTrimmed(t[|t| - 1])
    requires IsSerializedText(t, strict)
    ensures IsSerializedString(Str(t), strict)
  {
    TrimKeeps(t);
  }

  /** A boolean, integer or float text whose number pattern runs up to a final ';' passes the checks in both modes. */
  lemma NumberText(t: string, strict: bool)
    requires |t| >= 4 && t[1] == ':' && (t[0] == 'b' || t[0] == 'i' || t[0] == 'd')
    requires t[|t| - 1] == ';' && NumberRun(t[2..]) == |t| - 3
    ensures IsSerializedText(t, strict)
  {
    NumberRunHead(t[2..]);
    assert t[2..][0] == t[2] && t[2..][1] == t[3];
    TerminatorsLate(t);
  }

  /** The characters of an integer's text are number characters. */
  lemma IntTextIsNumber(i: int, j: nat)
    requires j < |IntText(i)|
    ensures IsNumberChar(IntText(i)[j])
  {
    var n := if i < 0 then -i else i;
    if i < 0 && j > 0 {
      assert IntText(i)[j] == DecimalText(n)[j - 1];
      DecimalTextDigits(n, j - 1);
    } else if i >= 0 {
      DecimalTextDigits(n, j);
    }
  }

  /** `token:number;`: the number run covers everything between the ':' and the ';'. */
  lemma NumberTextShape(token: char, number: string)
    requires forall j :: 0 <= j < |number| ==> IsNumberChar(number[j])
    ensures var t := Tagged(token, number + ";");
      t[|t| - 1] == ';' && NumberRun(t[2..]) == |t| - 3
  {
    NumberRunOf(number, ";");
  }

  /** `token:digits` then a tail starting with ':': the count pattern matches. */
  lemma CountedTextShape(token: char, digits: string, tail: string)
    requires |digits| >= 1 && AllDigits(digits)
    requires |tail| >= 1 && tail[0] == ':'
    ensures HasCount(Tagged(token, digits + tail))
  {
    DigitRunOf(digits, tail);
  }

  /** The text of an integer: its decimal text, then ';'. */
  lemma IntShape(i: int)
    ensures var t := SerializeScalar(IntValue(i));
      && |t| >= 4 && t[0] == 'i' && t[1] == ':' && t[|t| - 1] == ';' && NumberRun(t[2..]) == |t| - 3
  {
    var number := IntText(i);
    forall j | 0 <= j < |number|
      ensures IsNumberChar(number[j])
    {
      IntTextIsNumber(i, j);
    }
    NumberTextShape('i', number);
  }

  /** The serialized text of an integer is recognised in both modes. */
  lemma IntRecognised(i: int, strict: bool)
    ensures IsSerializedString(Str(SerializeScalar(IntValue(i))), strict)
  {
    IntShape(i);
    var t := SerializeScalar(IntValue(i));
    NumberText(t, strict);
    TextRecognised(t, strict);
  }

  /** The serialized text of a boolean is recognised in both modes. */
  lemma BoolRecognised(b: bool, strict: bool)
    ensures IsSerializedString(Str(SerializeScalar(BoolValue(b))), strict)
  {
    var t := SerializeScalar(BoolValue(b));
    assert t[2..] == [if b then '1' else '0', ';'];
    assert NumberRun(t[2..][1..]) == 0;
    NumberText(t, strict);
    TextRecognised(t, strict);
  }

  /** The text of a string: its length, then the quoted bytes. */
  lemma StringShape(s: string)
    ensures var t := SerializeScalar(StrValue(s));
      && |t| >= 4 && t[0] == 's' && t[1] == ':' && t[|t| - 2] == '"' && t[|t| - 1] == ';'
      && HasCount(t)
  {
    var digits, tail := DecimalText(|s|), Quoted(s);
    DecimalTextValue(|s|);
    CountedTextShape('s', digits, tail);
  }

  /** The serialized text of a string is recognised in both modes. */
  lemma StringRecognised(s: string, strict: bool)
    ensures IsSerializedString(Str(SerializeScalar(StrValue(s))), strict)
  {
    StringShape(s);
    var t := SerializeScalar(StrValue(s));
    CountedText(t, strict);
    TextRecognised(t, strict);
  }

  /** The serialized text of null, a boolean, an integer or a string is recognised in both modes. */
  lemma ScalarRecognised(v: Scalar, strict: bool)
    ensures IsSerializedString(Str(SerializeScalar(v)), strict)
  {
    match v
    case NullValue =>
      TrimKeeps("N;");
    case BoolValue(b) =>
      BoolRecognised(b, strict);
    case IntValue(i) =>
      IntRecognised(i, strict);
    case StrValue(s) =>
      StringRecognised(s, strict);
  }

  /** The text of an array: its count, then the braced entries. */
  lemma ArrayShape(count: nat, inner: string)
    ensures var t := SerializeArray(count, inner);
      && |t| >= 4 && t[0] == 'a' && t[1] == ':' && t[|t| - 1] == '}'
      && HasCount(t)
  {
    var digits, tail := DecimalText(count), Braced(inner);
    DecimalTextValue(count);
    CountedTextShape('a', digits, tail);
  }

  /** The serialized text of an array is recognised in both modes, whatever its entries. */
  lemma ArrayRecognised(count: nat, inner: string, strict: bool)
    ensures IsSerializedString(Str(SerializeArray(count, inner)), strict)
  {
    ArrayShape(count, inner);
    var t := SerializeArray(count, inner);
    CountedText(t, strict);
    TextRecognised(t, strict);
  }

  /** Text that does not start with a serialization token (and is not `N;`) is never taken for serialized data. */
  lemma PlainTextRejected(t: string, strict: bool)
    requires Trim(t) != "N;" && (|Trim(t)| == 0 || Trim(t)[0] !in "saObid")
    ensures !IsSerializedString(Str(t), strict)
  {
  }
}
