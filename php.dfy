/**
 * The few PHP language rules the pipeline class leans on: `empty()`, string truthiness,
 * the normalisation of array keys, `trim`, `mb_strtolower` on ASCII, and `explode`/`implode`
 * with a one-character delimiter.
 */
module Php {
  import opened Common

  /** An array key: PHP stores canonical decimal strings as integer keys. */
  datatype Key = IntKey(i: int) | StrKey(s: string)

  /** The PHP values a payload can be. */
  datatype PhpValue =
    | Null
    | Bool(b: bool)
    | Int(i: int)
    | Float(f: real)
    | Str(s: string)
    | Arr(entries: seq<(Key, PhpValue)>)
    | Resource(id: nat)
    | Object(className: string)

  /** PHP `empty()`: null, false, 0, 0.0, "", "0" and the empty array. */
  predicate IsEmpty(v: PhpValue) {
    match v
    case Null => true
    case Bool(b) => !b
    case Int(i) => i == 0
    case Float(f) => f == 0.0
    case Str(s) => IsEmptyString(s)
    case Arr(entries) => entries == []
    case Resource(_) => false
    case Object(_) => false
  }

  /** `empty()` of a string: only "" and "0"; the same strings are the falsy ones. */
  predicate IsEmptyString(s: string) {
    s == "" || s == "0"
  }

  /** `empty()` of a string that may be `null`. */
  predicate IsEmptyOrNull(s: Option<string>) {
    s.None? || IsEmptyString(s.value)
  }

  predicate IsDigit(c: char) {
    '0' <= c <= '9'
  }

  predicate AllDigits(s: string) {
    forall i :: 0 <= i < |s| ==> IsDigit(s[i])
  }

  /** The value of a string of decimal digits. */
  function DecimalValue(s: string): (n: nat)
    requires AllDigits(s)
  {
    if s == [] then 0 else DecimalValue(s[..|s| - 1]) * 10 + (s[|s| - 1] - '0') as int
  }

  const MaxInt: int := 0x7FFF_FFFF_FFFF_FFFF

  /** A decimal string without a leading zero (besides "0" itself); such strings become integer keys. */
  predicate IsCanonicalDecimal(s: string) {
    && |s| >= 1
    && AllDigits(s)
    && (s[0] != '0' || s == "0")
  }

  /**
   * The key PHP uses for a string key: "0", "17", "-3" (canonical, within the 64-bit range)
   * become integers; "00", "-0", "+1", " 1" and everything else stay strings.
   */
  function NormalizeKey(s: string): (k: Key)
    ensures k.StrKey? ==> k.s == s
    ensures s == "0" ==> k == IntKey(0)
    ensures (|s| == 0 || (s[0] != '-' && !IsDigit(s[0]))) ==> k == StrKey(s)
  {
    assert s == "0" ==> s[..|s| - 1] == [] && DecimalValue(s) == 0;
    if IsCanonicalDecimal(s) && DecimalValue(s) <= MaxInt then IntKey(DecimalValue(s))
    else if |s| >= 2 && s[0] == '-' && s[1] != '0' && IsCanonicalDecimal(s[1..]) && DecimalValue(s[1..]) <= MaxInt + 1
    then IntKey(-(DecimalValue(s[1..]) as int))
    else StrKey(s)
  }

  /** What a whitelist entry maps to: a list of encodings, a plain string, or `null`. */
  datatype ListValue = Encodings(items: seq<string>) | Text(s: string) | NullValue

  /** A PHP array literal with its keys already normalised, in declaration order. */
  type Whitelist = seq<(Key, ListValue)>

  /** `array_key_exists($s, $wl)`. */
  predicate KeyExists(wl: Whitelist, s: string) {
    exists i :: 0 <= i < |wl| && wl[i].0 == NormalizeKey(s)
  }

  /** `$wl[$s]`, looked up by the normalised key. */
  function Lookup(wl: Whitelist, s: string): (v: ListValue)
    requires KeyExists(wl, s)
    ensures exists i :: 0 <= i < |wl| && wl[i].0 == NormalizeKey(s) && wl[i].1 == v
  {
    if wl[0].0 == NormalizeKey(s) then wl[0].1 else Lookup(wl[1..], s)
  }

  /** The characters `trim` removes by default: space, tab, newline, carriage return, NUL, vertical tab. */
  predicate IsTrimmed(c: char) {
    c == ' ' || c == '\t' || c == '\n' || c == '\r' || c == '\0' || c == 11 as char
  }

  function TrimLeft(s: string): (r: string)
    ensures |r| <= |s| && r == s[|s| - |r|..]
    ensures r == [] || !IsTrimmed(r[0])
  {
    if s != [] && IsTrimmed(s[0]) then TrimLeft(s[1..]) else s
  }

  function TrimRight(s: string): (r: string)
    ensures |r| <= |s| && r == s[..|r|]
    ensures r == [] || !IsTrimmed(r[|r| - 1])
  {
    if s != [] && IsTrimmed(s[|s| - 1]) then TrimRight(s[..|s| - 1]) else s
  }

  /** PHP `trim($s)`: the slice of `s` between its leading and trailing blanks. */
  function Trim(s: string): (r: string)
    ensures r == [] || (!IsTrimmed(r[0]) && !IsTrimmed(r[|r| - 1]))
    ensures |r| <= |s|
    ensures (s == [] || (!IsTrimmed(s[0]) && !IsTrimmed(s[|s| - 1]))) ==> r == s
  {
    TrimRight(TrimLeft(s))
  }

  /** `mb_strtolower` on ASCII letters; other characters are kept. */
  function Lower(s: string): (r: string)
    ensures |r| == |s|
    ensures forall i :: 0 <= i < |s| ==> r[i] == if 'A' <= s[i] <= 'Z' then (s[i] as int + 32) as char else s[i]
  {
    if s == [] then [] else [if 'A' <= s[0] <= 'Z' then (s[0] as int + 32) as char else s[0]] + Lower(s[1..])
  }

  /** The first position of `c` in `s`, if any (PHP `strpos` with a one-character needle). */
  function Find(s: string, c: char): (r: Option<nat>)
    ensures r.None? <==> c !in s
    ensures r.Some? ==> r.value < |s| && s[r.value] == c && c !in s[..r.value]
  {
    if s == [] then None
    else if s[0] == c then Some(0)
    else match Find(s[1..], c)
      case None => None
      case Some(k) => assert s[..k + 1] == [s[0]] + s[1..][..k]; Some(k + 1)
  }

  /** `explode(',', $s)`: the pieces between the commas. */
  function Explode(s: string): (parts: seq<string>)
    ensures |parts| >= 1
    decreases |s|
  {
    match Find(s, ',')
    case None => [s]
    case Some(k) => [s[..k]] + Explode(s[k + 1..])
  }

  /** No piece of `explode` holds the delimiter. */
  lemma {:induction false} ExplodeHasNoCommas(s: string, i: nat)
    requires i < |Explode(s)|
    ensures ',' !in Explode(s)[i]
    decreases |s|
  {
    var f := Find(s, ',');
    if f.Some? {
      var k := f.value;
      ExplodeStep(s, k);
      if i > 0 {
        ExplodeHasNoCommas(s[k + 1..], i - 1);
      }
    }
  }

  /** `implode(',', $parts)`. */
  function Implode(parts: seq<string>): string
    requires |parts| >= 1
  {
    if |parts| == 1 then parts[0] else parts[0] + "," + Implode(parts[1..])
  }

  /** `implode` of a piece followed by at least one more. */
  lemma ImplodeCons(head: string, tail: seq<string>)
    requires |tail| >= 1
    ensures Implode([head] + tail) == head + "," + Implode(tail)
  {
    assert ([head] + tail)[1..] == tail;
  }

  /** `explode` cuts at the first comma and goes on with what follows it. */
  lemma ExplodeStep(s: string, k: nat)
    requires Find(s, ',') == Some(k)
    ensures k < |s| && s[k] == ',' && Explode(s) == [s[..k]] + Explode(s[k + 1..])
  {
  }

  /** A string is the text before a comma, the comma, and the text after it. */
  lemma CutAtComma(s: string, k: nat)
    requires k < |s| && s[k] == ','
    ensures s == s[..k] + "," + s[k + 1..]
  {
    assert s[..k + 1] == s[..k] + [s[k]];
    assert s == s[..k + 1] + s[k + 1..];
  }

  /** Joining the pieces of `explode` gives the string back. */
  lemma {:induction false} ImplodeExplode(s: string)
    ensures Implode(Explode(s)) == s
    decreases |s|
  {
    match Find(s, ',')
    case None =>
    case Some(k) =>
      var head, rest := s[..k], s[k + 1..];
      ExplodeStep(s, k);
      CutAtComma(s, k);
      ImplodeCons(head, Explode(rest));
      ImplodeExplode(rest);
  }

  /** The first comma of `head + "," + rest` is the one after a comma-free `head`. */
  lemma FindAfter(head: string, rest: string)
    requires ',' !in head
    ensures Find(head + "," + rest, ',') == Some(|head|)
  {
    var s := head + "," + rest;
    assert s[|head|] == ',';
    assert s[..|head|] == head;
    assert forall m :: |head| < m <= |s| ==> s[..m][|head|] == ',';
  }

  /** Splitting the join of comma-free pieces gives the pieces back. */
  lemma {:induction false} ExplodeImplode(parts: seq<string>)
    requires |parts| >= 1
    requires forall i :: 0 <= i < |parts| ==> ',' !in parts[i]
    ensures Explode(Implode(parts)) == parts
  {
    if |parts| > 1 {
      var head, rest := parts[0], Implode(parts[1..]);
      var s := head + "," + rest;
      assert Implode(parts) == s;
      FindAfter(head, rest);
      assert s[..|head|] == head && s[|head| + 1..] == rest;
      assert Explode(s) == [head] + Explode(rest);
      ExplodeImplode(parts[1..]);
      assert parts == [head] + parts[1..];
    }
  }

  /** `list($a, $b) = $parts`: the first two pieces, the second `null` when missing. */
  function FirstTwo(parts: seq<string>): (string, Option<string>)
    requires |parts| >= 1
  {
    (parts[0], if |parts| >= 2 then Some(parts[1]) else None)
  }
}
