/**
 * The compression footprint of `Base62x`: the marker `[MFB62X.COMPRESS.<base64 of "algo,encoding">]`
 * put in front of a compressed body, and the routine that finds it again, strips it and
 * checks the algorithm and encoding it names against the whitelist.
 */
module Footprint {
  import opened Common
  import opened Bits
  import opened Php
  import Base64

  const Prefix: string := "[MFB62X.COMPRESS."

  /** The gzip encodings the whitelist lists. */
  const GzipEncodings: seq<string> := ["zlib", "deflate", "gzip"]

  /**
   * The whitelist as `src/Base62x.php` declares it: `'gzip'` maps to its encodings, while
   * `'huffman'` is a value stored under the integer key 0.
   */
  const AsWrittenWhitelist: Whitelist := [(StrKey("gzip"), Encodings(GzipEncodings)), (IntKey(0), Text("huffman"))]

  /** The whitelist the code evidently means: `'huffman'` as a key with no encodings (`null`). */
  const IntendedWhitelist: Whitelist := [(StrKey("gzip"), Encodings(GzipEncodings)), (StrKey("huffman"), NullValue)]

  /** The encoding as `implode` writes it: `null` becomes the empty string. */
  function EncodingText(encoding: Option<string>): string {
    if encoding.Some? then encoding.value else ""
  }

  /** `implode(',', [$algo, $encoding])`. */
  function FootprintText(algo: string, encoding: Option<string>): (t: string)
    ensures t == Implode([algo, EncodingText(encoding)])
    ensures |t| > |algo| && t[|algo|] == ','
  {
    algo + "," + EncodingText(encoding)
  }

  /** `_createCompressionFootprint`: the prefix, the base64 text of `algo,encoding` and a ']'. */
  function CreateFootprint(algo: string, encoding: Option<string>): (r: string)
    ensures Prefix <= r && r[|r| - 1] == ']'
  {
    Prefix + Base64.Encode(FootprintText(algo, encoding)) + "]"
  }

  /** What the footprint pattern matched: the whole marker and the base64 text inside it. */
  datatype Match = Match(whole: string, text: string)

  /** The length of the run of base64 alphabet characters at the start of `t`. */
  function AlphabetRun(t: string): (n: nat)
    ensures n <= |t|
    ensures n < |t| ==> !Base64.IsAlphabet(t[n])
  {
    if t != [] && Base64.IsAlphabet(t[0]) then 1 + AlphabetRun(t[1..]) else 0
  }

  /** The length of the run of '=' at the start of `t`. */
  function PadRun(t: string): (n: nat)
    ensures n <= |t|
    ensures n < |t| ==> t[n] != '='
  {
    if t != [] && t[0] == '=' then 1 + PadRun(t[1..]) else 0
  }

  /**
   * The length of the captured group when the pattern, just after the prefix, reads `rest`: a
   * non-empty run of alphabet characters, at most two '=' and a ']'.
   */
  function CapturedLength(rest: string): (r: Option<nat>)
    ensures r.Some? ==> r.value < |rest| && rest[r.value] == ']'
    ensures r.Some? ==> r.value > 0
  {
    var n := AlphabetRun(rest);
    var k := PadRun(rest[n..]);
    if n == 0 || k > 2 || n + k >= |rest| || rest[n + k] != ']' then None
    else Some(n + k)
  }

  /**
   * `preg_match('/^\[MFB62X\.COMPRESS\.([A-Za-z0-9+\/]+={0,2})\]/', $s)`. The alphabet, '='
   * and ']' are disjoint, so the pattern matches exactly when the prefix is followed by a
   * non-empty run of alphabet characters, at most two '=' and a ']'; backtracking cannot find
   * another match.
   */
  function MatchFootprint(s: string): (m: Option<Match>)
    ensures m.Some? ==> m.value.whole <= s && m.value.whole == Prefix + m.value.text + "]"
    ensures m.Some? ==> m.value.text != []
  {
    if !(Prefix <= s) then None
    else
      var rest := s[|Prefix|..];
      match CapturedLength(rest)
      case None => None
      case Some(len) =>
        MarkerSlice(s, len);
        Some(Match(s[..|Prefix| + len + 1], rest[..len]))
  }

  /** The text up to a ']' after the prefix is the prefix, the text between, and the ']'. */
  lemma MarkerSlice(s: string, len: nat)
    requires Prefix <= s && |Prefix| + len < |s| && s[|Prefix| + len] == ']'
    ensures s[..|Prefix| + len + 1] == Prefix + s[|Prefix|..][..len] + "]"
  {
    var w, t := s[..|Prefix| + len + 1], Prefix + s[|Prefix|..][..len] + "]";
    forall i | 0 <= i < |w| ensures w[i] == t[i] {
      if i < |Prefix| {
        assert s[i] == Prefix[i];
      }
    }
  }

  /** Alphabet text followed by at most two '=' is padded text. */
  lemma RunsArePadded(b: string, p: string)
    requires forall i :: 0 <= i < |b| ==> Base64.IsAlphabet(b[i])
    requires |p| <= 2 && forall i :: 0 <= i < |p| ==> p[i] == '='
    ensures Base64.IsPaddedText(b + p)
  {
    var m := if |p| == 0 then 0 else if |p| == 1 then 2 else 1;
    assert p == Base64.Padding(m);
    Base64.PaddedShape(b, m);
  }

  /** Every character of the alphabet run is in the alphabet. */
  lemma {:induction false} AlphabetRunIsAlphabet(t: string, i: nat)
    requires i < AlphabetRun(t)
    ensures Base64.IsAlphabet(t[i])
  {
    if i > 0 {
      AlphabetRunIsAlphabet(t[1..], i - 1);
    }
  }

  /** Every character of the '=' run is '='. */
  lemma {:induction false} PadRunIsPad(t: string, i: nat)
    requires i < PadRun(t)
    ensures t[i] == '='
  {
    if i > 0 {
      PadRunIsPad(t[1..], i - 1);
    }
  }

  /** The group the pattern captures is alphabet text followed by at most two '='. */
  lemma CapturedIsPadded(rest: string)
    requires CapturedLength(rest).Some?
    ensures Base64.IsPaddedText(rest[..CapturedLength(rest).value])
  {
    var n := AlphabetRun(rest);
    var k := PadRun(rest[n..]);
    var b, p := rest[..n], rest[n..][..k];
    forall i | 0 <= i < |b|
      ensures Base64.IsAlphabet(b[i])
    {
      AlphabetRunIsAlphabet(rest, i);
    }
    forall i | 0 <= i < |p|
      ensures p[i] == '='
    {
      PadRunIsPad(rest[n..], i);
    }
    assert rest[..n + k] == b + p;
    RunsArePadded(b, p);
  }

  /** What the pattern captures is alphabet text with at most two '=' at its end. */
  lemma MatchedTextIsPadded(s: string)
    requires MatchFootprint(s).Some?
    ensures Base64.IsPaddedText(MatchFootprint(s).value.text)
  {
    CapturedIsPadded(s[|Prefix|..]);
  }

  /** The algorithm and encoding named by a matched footprint: `list($a, $e) = explode(',', base64_decode($text, true))`. */
  function Fields(m: Match): (string, Option<string>) {
    match Base64.Decode(m.text)
    case None => ("", None)  // `explode(',', false)` gives `[""]`
    case Some(t) => FirstTwo(Explode(t))
  }

  /**
   * The payload after `preg_replace('/^'.preg_quote($whole).'/', '', $payload, 1)`: `preg_quote`
   * does not escape the delimiter '/', so a marker holding '/' makes the pattern invalid and
   * the result `null`.
   */
  function Strip(s: string, m: Match): (r: Option<string>)
    requires m.whole <= s
    ensures r.Some? ==> m.whole + r.value == s
  {
    if '/' in m.whole then None else Some(s[|m.whole|..])
  }

  /** What `_getCompressionFootprintAndSanitizePayload` returns: payload, algorithm and encoding, each possibly `null`. */
  datatype Sanitized = Sanitized(payload: Option<string>, algo: Option<string>, encoding: Option<string>)

  /** The footprint's algorithm and encoding, both `null` when there is no footprint. */
  function FootprintFields(s: string): (Option<string>, Option<string>) {
    match MatchFootprint(s)
    case None => (None, None)
    case Some(m) => var (a, e) := Fields(m); (Some(a), e)
  }

  /** The payload with the footprint removed; unchanged when there is none. */
  function StrippedPayload(s: string): (r: Option<string>)
    ensures MatchFootprint(s).None? ==> r == Some(s)
    ensures MatchFootprint(s).Some? && r.Some? ==> MatchFootprint(s).value.whole + r.value == s
  {
    match MatchFootprint(s)
    case None => Some(s)
    case Some(m) => Strip(s, m)
  }

  /** The sanity checks: an algorithm that is not a whitelist key, or an encoding not listed under it. */
  function CheckFields(wl: Whitelist, algo: Option<string>, encoding: Option<string>): (r: Option<Error>)
    ensures r.Some? ==> r.value == DecodeError || r.value == TypeError
    ensures r == Some(DecodeError) <==>
      !IsEmptyOrNull(algo) &&
      (!KeyExists(wl, algo.value) ||
       (!IsEmptyOrNull(encoding) && Lookup(wl, algo.value).Encodings? && encoding.value !in Lookup(wl, algo.value).items))
    ensures r.None? <==>
      IsEmptyOrNull(algo) ||
      (KeyExists(wl, algo.value) &&
       (IsEmptyOrNull(encoding) || (Lookup(wl, algo.value).Encodings? && encoding.value in Lookup(wl, algo.value).items)))
  {
    if !IsEmptyOrNull(algo) && !KeyExists(wl, algo.value) then Some(DecodeError)
    else if !IsEmptyOrNull(algo) && !IsEmptyOrNull(encoding) then
      match Lookup(wl, algo.value)
      case Encodings(items) => if encoding.value in items then None else Some(DecodeError)
      case _ => Some(TypeError)  // `in_array` on a value that is not an array
    else None
  }

  /** `_getCompressionFootprintAndSanitizePayload`. */
  function Sanitize(wl: Whitelist, s: string): (r: Result<Sanitized>)
    ensures MatchFootprint(s).None? ==> r == Ok(Sanitized(Some(s), None, None))
    ensures r.Err? <==> CheckFields(wl, FootprintFields(s).0, FootprintFields(s).1).Some?
    ensures r.Ok? && r.value.payload.Some? && MatchFootprint(s).Some? ==> MatchFootprint(s).value.whole + r.value.payload.value == s
    ensures r.Ok? && r.value.encoding.Some? ==> r.value.encoding.value != ""
  {
    var (algo, encoding) := FootprintFields(s);
    match CheckFields(wl, algo, encoding)
    case Some(e) => Err(e)
    case None => Ok(Sanitized(StrippedPayload(s), algo, if encoding.Some? && |encoding.value| > 0 then encoding else None))
  }

  // ---- properties ----

  /** A run of alphabet characters ends at the first character outside the alphabet. */
  lemma {:induction false} AlphabetRunOf(x: string, y: string)
    requires forall i :: 0 <= i < |x| ==> Base64.IsAlphabet(x[i])
    requires y == [] || !Base64.IsAlphabet(y[0])
    ensures AlphabetRun(x + y) == |x|
  {
    if x != [] {
      assert (x + y)[1..] == x[1..] + y;
      AlphabetRunOf(x[1..], y);
    }
  }

  /** A run of '=' ends at the first other character. */
  lemma {:induction false} PadRunOf(x: string, y: string)
    requires forall i :: 0 <= i < |x| ==> x[i] == '='
    requires y == [] || y[0] != '='
    ensures PadRun(x + y) == |x|
  {
    if x != [] {
      assert (x + y)[1..] == x[1..] + y;
      PadRunOf(x[1..], y);
    }
  }

  /** After the prefix, the alphabet run, the '=' run and the closing ']' are where the marker put them. */
  lemma MarkerRuns(b: string, p: string, body: string)
    requires forall i :: 0 <= i < |b| ==> Base64.IsAlphabet(b[i])
    requires forall i :: 0 <= i < |p| ==> p[i] == '='
    ensures var rest := b + p + "]" + body;
      && AlphabetRun(rest) == |b|
      && PadRun(rest[|b|..]) == |p|
      && rest[|b| + |p|] == ']'
      && rest[..|b| + |p|] == b + p
  {
    var tail := p + "]" + body;
    assert b + p + "]" + body == b + tail;
    AlphabetRunOf(b, tail);
    assert (b + tail)[|b|..] == tail;
    assert tail == p + ("]" + body);
    PadRunOf(p, "]" + body);
  }

  /** The pattern finds a marker around alphabet text and at most two '=', whatever follows. */
  lemma MarkerMatches(b: string, p: string, body: string)
    requires b != [] && forall i :: 0 <= i < |b| ==> Base64.IsAlphabet(b[i])
    requires |p| <= 2 && forall i :: 0 <= i < |p| ==> p[i] == '='
    ensures MatchFootprint(Prefix + (b + p) + "]" + body) == Some(Match(Prefix + (b + p) + "]", b + p))
  {
    var s := Prefix + (b + p) + "]" + body;
    SplitMarker(Prefix, b + p, body);
    MarkerRuns(b, p, body);
    MatchFootprintOf(s, |b|, |p|);
  }

  /** A marker `P + e + "]"` at the head of a string splits off again at the same places. */
  lemma SplitMarker(P: string, e: string, body: string)
    ensures var s := P + e + "]" + body;
      && P <= s
      && s[|P|..] == e + "]" + body
      && s[..|P| + |e| + 1] == P + e + "]"
  {
  }

  /** The captured length once the alphabet run and the '=' run are known. */
  lemma CapturedLengthOf(rest: string, n: nat, k: nat)
    requires AlphabetRun(rest) == n && n > 0
    requires PadRun(rest[n..]) == k && k <= 2
    requires n + k < |rest| && rest[n + k] == ']'
    ensures CapturedLength(rest) == Some(n + k)
  {
    var m := AlphabetRun(rest);
    assert rest[m..] == rest[n..];
  }

  /** The match the pattern makes once the alphabet run and the '=' run after the prefix are known. */
  lemma MatchFootprintOf(s: string, n: nat, k: nat)
    requires Prefix <= s
    requires var rest := s[|Prefix|..];
      && AlphabetRun(rest) == n && n > 0
      && PadRun(rest[n..]) == k && k <= 2
      && n + k < |rest| && rest[n + k] == ']'
    ensures MatchFootprint(s) == Some(Match(s[..|Prefix| + n + k + 1], s[|Prefix|..][..n + k]))
  {
    CapturedLengthOf(s[|Prefix|..], n, k);
  }

  /** The pattern finds the marker `CreateFootprint` wrote, whatever body follows it. */
  lemma FootprintMatches(t: string, body: string)
    requires t != []
    ensures MatchFootprint(Prefix + Base64.Encode(t) + "]" + body)
         == Some(Match(Prefix + Base64.Encode(t) + "]", Base64.Encode(t)))
  {
    MarkerMatches(Base64.EncodeBody(t), Base64.Padding(|t|), body);
  }

  /** The fields of a written marker are the algorithm and encoding that went into it. */
  lemma FieldsOfFootprint(algo: string, encoding: Option<string>)
    requires ',' !in algo && (encoding.Some? ==> ',' !in encoding.value)
    requires IsByteString(FootprintText(algo, encoding))
    ensures var t := FootprintText(algo, encoding);
      Fields(Match(Prefix + Base64.Encode(t) + "]", Base64.Encode(t)))
      == (algo, Some(EncodingText(encoding)))
  {
    var t := FootprintText(algo, encoding);
    Base64.RoundTrip(t);
    ExplodeImplode([algo, EncodingText(encoding)]);
  }

  /** The marker `CreateFootprint` wrote is found again, with the algorithm and encoding it names. */
  lemma FootprintFieldsOf(algo: string, encoding: Option<string>, body: string)
    requires ',' !in algo && (encoding.Some? ==> ',' !in encoding.value)
    requires IsByteString(FootprintText(algo, encoding))
    ensures var s := CreateFootprint(algo, encoding) + body;
      && MatchFootprint(s).Some? && MatchFootprint(s).value.whole == CreateFootprint(algo, encoding)
      && FootprintFields(s) == (Some(algo), Some(EncodingText(encoding)))
  {
    var t := FootprintText(algo, encoding);
    var e := Base64.Encode(t);
    assert CreateFootprint(algo, encoding) == Prefix + e + "]";
    FootprintMatches(t, body);
    FieldsOfFootprint(algo, encoding);
  }

  /**
   * Stripping a footprint the pipeline wrote gives back the body, the algorithm and the
   * encoding, an empty encoding normalised to `null`, provided the whitelist accepts the pair
   * and the marker holds no '/'.
   */
  lemma SanitizeFootprint(wl: Whitelist, algo: string, encoding: Option<string>, body: string)
    requires ',' !in algo && (encoding.Some? ==> ',' !in encoding.value)
    requires IsByteString(FootprintText(algo, encoding))
    requires '/' !in CreateFootprint(algo, encoding)
    requires CheckFields(wl, Some(algo), Some(EncodingText(encoding))).None?
    ensures Sanitize(wl, CreateFootprint(algo, encoding) + body)
         == Ok(Sanitized(Some(body), Some(algo), if encoding.Some? && encoding.value != "" then encoding else None))
  {
    var whole := CreateFootprint(algo, encoding);
    var s := whole + body;
    FootprintFieldsOf(algo, encoding, body);
    assert StrippedPayload(s) == Some(body) by {
      assert s[|whole|..] == body;
    }
  }

  /**
   * Whatever follows it, a marker naming a non-empty algorithm that is not a whitelist key is
   * rejected with a `DecodeException`.
   */
  lemma UnknownAlgorithmRejected(wl: Whitelist, algo: string, encoding: Option<string>, body: string)
    requires ',' !in algo && (encoding.Some? ==> ',' !in encoding.value)
    requires IsByteString(FootprintText(algo, encoding))
    requires !IsEmptyString(algo) && !KeyExists(wl, algo)
    ensures Sanitize(wl, CreateFootprint(algo, encoding) + body) == Err(DecodeError)
  {
    FootprintFieldsOf(algo, encoding, body);
  }

  /** As written, the only non-empty algorithm the whitelist has a key for is `gzip`. */
  lemma AsWrittenKeys(algo: string)
    requires !IsEmptyString(algo)
    ensures KeyExists(AsWrittenWhitelist, algo) <==> algo == "gzip"
  {
    if KeyExists(AsWrittenWhitelist, algo) {
      var i :| 0 <= i < |AsWrittenWhitelist| && AsWrittenWhitelist[i].0 == NormalizeKey(algo);
      if i == 1 {
        NormalizeZero(algo);
      }
    } else {
      assert AsWrittenWhitelist[0].0 == StrKey("gzip");
    }
  }

  /** Only "0" normalises to the integer key 0. */
  lemma NormalizeZero(s: string)
    requires NormalizeKey(s) == IntKey(0)
    ensures s == "0"
  {
    if IsCanonicalDecimal(s) && DecimalValue(s) <= MaxInt {
      if s != "0" {
        assert s[0] != '0';
        DecimalPositive(s);
      }
    } else if |s| >= 2 && s[0] == '-' && s[1] != '0' && IsCanonicalDecimal(s[1..]) && DecimalValue(s[1..]) <= MaxInt + 1 {
      DecimalPositive(s[1..]);
    }
  }

  /** A digit string starting with a non-zero digit has a positive value. */
  lemma {:induction false} DecimalPositive(s: string)
    requires |s| >= 1 && AllDigits(s) && s[0] != '0'
    ensures DecimalValue(s) > 0
  {
    if |s| > 1 {
      var u := s[..|s| - 1];
      assert u[0] == s[0];
      DecimalPositive(u);
    }
  }

  /** As written, a `huffman` footprint is rejected on decode. */
  lemma HuffmanFootprintRejected(body: string)
    ensures Sanitize(AsWrittenWhitelist, CreateFootprint("huffman", None) + body) == Err(DecodeError)
  {
    HuffmanMarker();
    HuffmanFieldText();
    AsWrittenKeys("huffman");
    UnknownAlgorithmRejected(AsWrittenWhitelist, "huffman", None, body);
  }

  /** With the intended whitelist, a `huffman` footprint is stripped and names no encoding. */
  lemma HuffmanFootprintAccepted(body: string)
    ensures Sanitize(IntendedWhitelist, CreateFootprint("huffman", None) + body) == Ok(Sanitized(Some(body), Some("huffman"), None))
  {
    HuffmanMarker();
    HuffmanFieldText();
    assert KeyExists(IntendedWhitelist, "huffman") by {
      assert IntendedWhitelist[1].0 == NormalizeKey("huffman");
    }
    SanitizeFootprint(IntendedWhitelist, "huffman", None, body);
  }

  /** The text inside the `huffman` marker is `huffman,`: bytes, with no comma in the algorithm's name. */
  lemma HuffmanFieldText()
    ensures FootprintText("huffman", None) == "huffman," && IsByteString("huffman,") && ',' !in "huffman"
  {
    var t := "huffman,";
    assert forall i :: 0 <= i < |t| ==> t[i] as int < 256;
    assert forall i :: 0 <= i < 7 ==> t[i] != ',';
  }

  /** The `huffman` marker is `[MFB62X.COMPRESS.aHVmZm1hbiw=]`, which holds no '/'. */
  lemma HuffmanMarker()
    ensures CreateFootprint("huffman", None) == "[MFB62X.COMPRESS.aHVmZm1hbiw=]"
    ensures '/' !in CreateFootprint("huffman", None)
  {
    assert FootprintText("huffman", None) == "huffman,";
    assert CreateFootprint("huffman", None) == Prefix + "aHVmZm1hbiw=" + "]" by {
      HuffmanBase64();
    }
    HuffmanMarkerText();
  }

  /** The `huffman` marker spelt out. */
  lemma HuffmanMarkerText()
    ensures Prefix + "aHVmZm1hbiw=" + "]" == "[MFB62X.COMPRESS.aHVmZm1hbiw=]"
    ensures '/' !in "[MFB62X.COMPRESS.aHVmZm1hbiw=]"
  {
  }

  /** The 6-bit values of the last two bytes of `huffman,`. */
  lemma TailSextets()
    ensures Base64.Sextets("n,") == [27, 34, 48]
  {
    assert Base64.Group(110, 44, 0) == [27, 34, 48, 0];
  }

  /** The 6-bit values of the last five bytes of `huffman,`. */
  lemma MiddleSextets()
    ensures Base64.Sextets("fman,") == [25, 38, 53, 33, 27, 34, 48]
  {
    TailSextets();
    assert "fman,"[3..] == "n,";
    assert Base64.Group(102, 109, 97) == [25, 38, 53, 33];
  }

  /** The 6-bit values of `huffman,`, three bytes at a time. */
  lemma HuffmanSextets()
    ensures Base64.Sextets("huffman,") == [26, 7, 21, 38, 25, 38, 53, 33, 27, 34, 48]
  {
    MiddleSextets();
    assert "huffman,"[3..] == "fman,";
    assert Base64.Group(104, 117, 102) == [26, 7, 21, 38];
  }

  /** `base64_encode('huffman,')` is `aHVmZm1hbiw=`. */
  lemma HuffmanBase64()
    ensures Base64.Encode("huffman,") == "aHVmZm1hbiw="
  {
    HuffmanSextets();
    assert Base64.Chars([26, 7, 21, 38, 25, 38, 53, 33, 27, 34, 48]) == "aHVmZm1hbiw";
    assert Base64.Padding(8) == "=";
  }

  /** 6-bit values that are all below 63, the value of '/'. */
  predicate SlashFree(v: seq<nat>) {
    forall i :: 0 <= i < |v| ==> v[i] < 63
  }

  /** Values below 63 never give '/'. */
  lemma NoSlash(v: seq<nat>)
    requires SlashFree(v)
    ensures '/' !in Base64.Chars(v)
  {
    var r := Base64.Chars(v);
    forall i | 0 <= i < |r|
      ensures r[i] != '/'
    {
      assert r[i] == Base64.Alpha(v[i]);
    }
  }

  /** A marker whose text encodes to values below 63 holds no '/'. */
  lemma SlashFreeMarker(algo: string, encoding: Option<string>)
    requires SlashFree(Base64.Sextets(FootprintText(algo, encoding)))
    ensures '/' !in CreateFootprint(algo, encoding)
  {
    var t := FootprintText(algo, encoding);
    var body := Base64.Chars(Base64.Sextets(t));
    NoSlash(Base64.Sextets(t));
    var pad := Base64.Padding(|t|);
    assert '/' !in pad;
    assert '/' !in Prefix;
    assert CreateFootprint(algo, encoding) == Prefix + (body + pad) + "]";
  }

  /** The four 6-bit values of three bytes, from their quotients and remainders. */
  lemma GroupValues(a: nat, b: nat, c: nat, q0: nat, r0: nat, q1: nat, r1: nat, q2: nat, r2: nat)
    requires a < 256 && b < 256 && c < 256
    requires a == 4 * q0 + r0 && r0 < 4
    requires b == 16 * q1 + r1 && r1 < 16
    requires c == 64 * q2 + r2 && r2 < 64
    ensures Base64.Group(a, b, c) == [q0, r0 * 16 + q1, r1 * 4 + q2, r2]
  {
  }

  /** Three bytes are one group. */
  lemma ThreeBytes(s: string)
    requires |s| == 3
    ensures Base64.Sextets(s) == Base64.Group(Base64.ByteOf(s[0]), Base64.ByteOf(s[1]), Base64.ByteOf(s[2]))
  {
    assert s[3..] == [];
  }

  /** More than three bytes: the first group, then the rest. */
  lemma SextetsStep(s: string)
    requires |s| > 3
    ensures Base64.Sextets(s) == Base64.Group(Base64.ByteOf(s[0]), Base64.ByteOf(s[1]), Base64.ByteOf(s[2])) + Base64.Sextets(s[3..])
  {
  }

  lemma LibSextets()
    ensures Base64.Sextets("lib") == [27, 6, 37, 34]
  {
    ThreeBytes("lib");
    GroupValues(108, 105, 98, 27, 0, 6, 9, 1, 34);
  }

  lemma PzlibSextets()
    ensures Base64.Sextets("p,zlib") == [28, 2, 49, 58, 27, 6, 37, 34]
  {
    LibSextets();
    SextetsStep("p,zlib");
    assert "p,zlib"[3..] == "lib";
    GroupValues(112, 44, 122, 28, 0, 2, 12, 1, 58);
  }

  /** The 6-bit values of `gzip,zlib`, three bytes at a time. */
  lemma ZlibSextets()
    ensures Base64.Sextets("gzip,zlib") == [25, 55, 41, 41, 28, 2, 49, 58, 27, 6, 37, 34]
  {
    PzlibSextets();
    SextetsStep("gzip,zlib");
    assert "gzip,zlib"[3..] == "p,zlib";
    GroupValues(103, 122, 105, 25, 3, 7, 10, 1, 41);
  }

  lemma AteSextets()
    ensures Base64.Sextets("ate") == [24, 23, 17, 37]
  {
    ThreeBytes("ate");
    GroupValues(97, 116, 101, 24, 1, 7, 4, 1, 37);
  }

  lemma EflateSextets()
    ensures Base64.Sextets("eflate") == [25, 22, 25, 44, 24, 23, 17, 37]
  {
    AteSextets();
    SextetsStep("eflate");
    assert "eflate"[3..] == "ate";
    GroupValues(101, 102, 108, 25, 1, 6, 6, 1, 44);
  }

  lemma PdeflateSextets()
    ensures Base64.Sextets("p,deflate") == [28, 2, 49, 36, 25, 22, 25, 44, 24, 23, 17, 37]
  {
    EflateSextets();
    SextetsStep("p,deflate");
    assert "p,deflate"[3..] == "eflate";
    GroupValues(112, 44, 100, 28, 0, 2, 12, 1, 36);
  }

  /** The 6-bit values of `gzip,deflate`, three bytes at a time. */
  lemma DeflateSextets()
    ensures Base64.Sextets("gzip,deflate") == [25, 55, 41, 41, 28, 2, 49, 36, 25, 22, 25, 44, 24, 23, 17, 37]
  {
    PdeflateSextets();
    SextetsStep("gzip,deflate");
    assert "gzip,deflate"[3..] == "p,deflate";
    GroupValues(103, 122, 105, 25, 3, 7, 10, 1, 41);
  }

  lemma ZipSextets()
    ensures Base64.Sextets("zip") == [30, 38, 37, 48]
  {
    ThreeBytes("zip");
    GroupValues(122, 105, 112, 30, 2, 6, 9, 1, 48);
  }

  lemma PgzipSextets()
    ensures Base64.Sextets("p,gzip") == [28, 2, 49, 39, 30, 38, 37, 48]
  {
    ZipSextets();
    SextetsStep("p,gzip");
    assert "p,gzip"[3..] == "zip";
    GroupValues(112, 44, 103, 28, 0, 2, 12, 1, 39);
  }

  /** The 6-bit values of `gzip,gzip`, three bytes at a time. */
  lemma GzipGzipSextets()
    ensures Base64.Sextets("gzip,gzip") == [25, 55, 41, 41, 28, 2, 49, 39, 30, 38, 37, 48]
  {
    PgzipSextets();
    SextetsStep("gzip,gzip");
    assert "gzip,gzip"[3..] == "p,gzip";
    GroupValues(103, 122, 105, 25, 3, 7, 10, 1, 41);
  }

  /** The text of each `gzip` marker: bytes, with no comma inside either field. */
  lemma GzipFieldText(e: string)
    requires e in GzipEncodings
    ensures FootprintText("gzip", Some(e)) == "gzip," + e
    ensures IsByteString("gzip," + e) && ',' !in "gzip" && ',' !in e
  {
    var t := "gzip," + e;
    assert forall i :: 0 <= i < |t| ==> t[i] as int < 256;
    assert forall i :: 0 <= i < |e| ==> e[i] != ',';
    assert forall i :: 0 <= i < 4 ==> "gzip"[i] != ',';
  }

  lemma ZlibMarker()
    ensures '/' !in CreateFootprint("gzip", Some("zlib"))
  {
    assert FootprintText("gzip", Some("zlib")) == "gzip,zlib";
    ZlibSextets();
    SlashFreeMarker("gzip", Some("zlib"));
  }

  lemma DeflateMarker()
    ensures '/' !in CreateFootprint("gzip", Some("deflate"))
  {
    assert FootprintText("gzip", Some("deflate")) == "gzip,deflate";
    DeflateSextets();
    SlashFreeMarker("gzip", Some("deflate"));
  }

  lemma GzipGzipMarker()
    ensures '/' !in CreateFootprint("gzip", Some("gzip"))
  {
    assert FootprintText("gzip", Some("gzip")) == "gzip,gzip";
    GzipGzipSextets();
    SlashFreeMarker("gzip", Some("gzip"));
  }

  /** The three `gzip` markers hold no '/', so they are found and stripped again. */
  lemma GzipMarker(e: string)
    requires e in GzipEncodings
    ensures '/' !in CreateFootprint("gzip", Some(e))
  {
    if e == "zlib" {
      ZlibMarker();
    } else if e == "deflate" {
      DeflateMarker();
    } else {
      GzipGzipMarker();
    }
  }
}
