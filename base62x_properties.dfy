/**
 * What the `Base62x` pipeline promises: the settings `compress` accepts, the round trips
 * through `_encode` and `_decode` (plain, gzip, Huffman, encrypted, arrays), and the places
 * where the class as written does not do what it evidently means to.
 */
module PipelineProperties {
  import opened Common
  import opened Php
  import opened Footprint
  import opened Bits
  import opened Pipeline
  import CodeTree
  import HuffmanCoding
  import Serialized

  // ---- `compress` ----

  /** As written, `compress('huffman')` throws `InvalidParam('algo')`: 'huffman' is not a key. */
  lemma CompressHuffmanRejected(encoding: Option<string>)
    ensures CompressSettings(AsWrittenWhitelist, "huffman", encoding) == Err(InvalidParam("algo"))
  {
    AsWrittenKeys("huffman");
  }

  /** `gzip` is a key of the whitelist, listing exactly the three encodings. */
  lemma GzipListed()
    ensures KeyExists(AsWrittenWhitelist, "gzip") && Lookup(AsWrittenWhitelist, "gzip") == Encodings(GzipEncodings)
    ensures KeyExists(IntendedWhitelist, "gzip") && Lookup(IntendedWhitelist, "gzip") == Encodings(GzipEncodings)
  {
    assert AsWrittenWhitelist[0].0 == NormalizeKey("gzip");
    assert IntendedWhitelist[0].0 == NormalizeKey("gzip");
  }

  /** `compress('gzip', $e)` succeeds exactly for the three whitelisted encodings, and stores `$e`. */
  lemma CompressGzip(encoding: Option<string>)
    ensures CompressSettings(AsWrittenWhitelist, "gzip", encoding).Ok? <==> encoding.Some? && encoding.value in GzipEncodings
    ensures CompressSettings(AsWrittenWhitelist, "gzip", encoding).Ok? ==> CompressSettings(AsWrittenWhitelist, "gzip", encoding).value == encoding
    ensures CompressSettings(AsWrittenWhitelist, "gzip", encoding).Err? ==>
      CompressSettings(AsWrittenWhitelist, "gzip", encoding).error == InvalidParam("encoding")
  {
    GzipListed();
  }

  /** `compress()` with its default arguments selects gzip with the zlib encoding. */
  lemma CompressDefaults()
    ensures CompressSettings(AsWrittenWhitelist, DefaultAlgorithm, Some(DefaultEncoding)) == Ok(Some(DefaultEncoding))
  {
    CompressGzip(Some(DefaultEncoding));
  }

  /**
   * As written, `compress('0')` passes the key check (the string "0" is the integer key of
   * 'huffman'), stores no encoding, and then compresses nothing, since "0" is falsy.
   */
  lemma CompressZeroIgnored(encoding: Option<string>, p: string, cm: Option<string>, ck: Option<string>, tools: Tools)
    ensures CompressSettings(AsWrittenWhitelist, "0", encoding) == Ok(None)
    ensures EncodeText(Settings(Some("0"), None, cm, ck), p, tools) == EncodeText(Settings(None, None, cm, ck), p, tools)
  {
    assert AsWrittenWhitelist[1].0 == NormalizeKey("0");
  }

  /** With the intended whitelist, `compress('huffman', $e)` succeeds and stores no encoding. */
  lemma CompressHuffmanIntended(encoding: Option<string>)
    ensures CompressSettings(IntendedWhitelist, "huffman", encoding) == Ok(None)
  {
    assert IntendedWhitelist[1].0 == NormalizeKey("huffman");
  }

  // ---- round trips ----

  /** A footprint always starts with '['. */
  lemma MarkerAtStart(s: string)
    ensures MatchFootprint(s).Some? ==> |s| >= 1 && s[0] == '['
  {
    if MatchFootprint(s).Some? {
      var m := MatchFootprint(s).value;
      assert m.whole[0] == Prefix[0];
    }
  }

  /** Text-encoding `c` succeeds, and text-decoding the result gives `c` back. */
  lemma TextStep(c: string, tools: Tools)
    requires TextCodec(tools) && c != []
    ensures !IsEmptyString(tools.textEncode(c)) && tools.textDecode(tools.textEncode(c)) == c
  {
    assert TextWorks(tools, c);
  }

  /** Decrypting with the decoder's settings undoes encrypting with the encoder's, both having the same method and key. */
  lemma CipherStep(st: Settings, dt: Settings, p: string, tools: Tools)
    requires dt.cryptMethod == st.cryptMethod && dt.cryptKey == st.cryptKey
    requires Crypting(st) ==> CipherCodec(tools)
    ensures Decrypted(dt, Encrypted(st, p, tools), tools) == p
  {
    if Crypting(st) {
      var m, k := st.cryptMethod.value, st.cryptKey.value;
      assert CipherWorks(tools, p, m, k);
    }
  }

  /**
   * Without settings, a non-empty payload that does not start with a footprint comes back
   * from `_decode(_encode(p))` unchanged.
   */
  lemma PlainRoundTrip(p: string, wl: Whitelist, tools: Tools)
    requires TextCodec(tools) && !IsEmptyString(p) && MatchFootprint(p).None?
    ensures EncodeText(NoSettings, p, tools).Ok?
    ensures DecodeText(NoSettings, wl, EncodeText(NoSettings, p, tools).value, tools) == Ok(p)
  {
    TextStep(p, tools);
  }

  /** The pipeline's own encryption leaves no footprint at the front, so the ciphertext survives decoding. */
  lemma EncryptedRoundTrip(p: string, m: string, k: string, wl: Whitelist, tools: Tools)
    requires TextCodec(tools) && CipherCodec(tools)
    requires !IsEmptyString(m) && !IsEmptyString(k)
    ensures var st := Settings(None, None, Some(m), Some(k));
      && EncodeText(st, p, tools).Ok?
      && DecodeText(st, wl, EncodeText(st, p, tools).value, tools) == Ok(p)
  {
    var st := Settings(None, None, Some(m), Some(k));
    var c := tools.encrypt(p, m, k);
    assert Encrypted(st, p, tools) == c;
    assert CipherWorks(tools, p, m, k);
    MarkerAtStart(c);
    TextStep(c, tools);
    CipherStep(st, st, p, tools);
  }

  /** `_encode` text-encodes what the compression step (or, without an algorithm, the encryption step) gives. */
  lemma EncodeStep(st: Settings, p: string, c: string, tools: Tools)
    requires Truthy(st.algo) ==> Compressed(st, Encrypted(st, p, tools), tools) == Ok(c)
    requires !Truthy(st.algo) ==> c == Encrypted(st, p, tools)
    requires !IsEmptyString(tools.textEncode(c))
    ensures EncodeText(st, p, tools) == Ok(tools.textEncode(c))
  {
  }

  /** `_decode` of a text whose footprint names an algorithm uncompresses the rest and decrypts the result. */
  lemma DecodeStep(dt: Settings, wl: Whitelist, s: string, data: Sanitized, x: string, tools: Tools)
    requires !IsEmptyString(tools.textDecode(s)) && Sanitize(wl, tools.textDecode(s)) == Ok(data)
    requires Truthy(data.algo) && data.payload.Some?
    requires Uncompressed(data.algo.value, data.payload.value, data.encoding, tools) == Ok(x)
    ensures DecodeText(dt, wl, s, tools) == Ok(Decrypted(dt, x, tools))
  {
  }

  /** `get()` in encode mode on a string returns what `_encode` gives. */
  lemma GetEncodeStep(s: string, st: Settings, wl: Whitelist, tools: Tools)
    requires EncodeText(st, s, tools).Ok?
    ensures GetSpec(ModeEncode, Str(s), st, wl, tools) == Ok(Str(EncodeText(st, s, tools).value))
  {
  }

  /** `get()` in decode mode on a string returns what `_decode` gives, unserialized when it looks serialized. */
  lemma GetDecodeStep(s: string, d: string, st: Settings, wl: Whitelist, tools: Tools)
    requires DecodeText(st, wl, s, tools) == Ok(d)
    ensures Serialized.IsSerializedString(Str(d), true) && tools.unserialize(d) != Bool(false) ==>
      GetSpec(ModeDecode, Str(s), st, wl, tools) == Ok(tools.unserialize(d))
    ensures !(Serialized.IsSerializedString(Str(d), true) && tools.unserialize(d) != Bool(false)) ==>
      GetSpec(ModeDecode, Str(s), st, wl, tools) == Ok(Str(d))
  {
  }

  /** The gzip marker the pipeline writes is stripped again, naming `gzip` and the encoding. */
  lemma GzipSanitized(e: string, body: string)
    requires e in GzipEncodings
    ensures Sanitize(AsWrittenWhitelist, CreateFootprint("gzip", Some(e)) + body) == Ok(Sanitized(Some(body), Some("gzip"), Some(e)))
  {
    GzipFieldText(e);
    GzipMarker(e);
    GzipListed();
    SanitizeFootprint(AsWrittenWhitelist, "gzip", Some(e), body);
  }

  /** With gzip set, `_encode` puts the gzip marker in front of the compressed (possibly encrypted) payload. */
  lemma GzipCompressed(st: Settings, x: string, e: string, tools: Tools)
    requires GzipCodec(tools) && e in GzipEncodings && st.algo == Some("gzip") && st.encoding == Some(e)
    ensures tools.gzipEncode(x, Some(e)).Some?
    ensures Compressed(st, x, tools) == Ok(CreateFootprint("gzip", Some(e)) + tools.gzipEncode(x, Some(e)).value)
    ensures tools.gzipDecode(tools.gzipEncode(x, Some(e)).value, Some(e)) == Some(x)
  {
    assert GzipWorks(tools, x, e);
  }

  /**
   * Encrypt, gzip behind the footprint and text-encode; then text-decode, strip, inflate and
   * decrypt with the same key and method: the payload comes back, whatever it is.
   */
  lemma GzipRoundTrip(p: string, e: string, cm: Option<string>, ck: Option<string>, tools: Tools)
    requires TextCodec(tools) && GzipCodec(tools) && e in GzipEncodings
    requires Truthy(cm) && Truthy(ck) ==> CipherCodec(tools)
    ensures var st := Settings(Some("gzip"), Some(e), cm, ck);
      && EncodeText(st, p, tools).Ok?
      && DecodeText(Settings(None, None, cm, ck), AsWrittenWhitelist, EncodeText(st, p, tools).value, tools) == Ok(p)
  {
    var st, dt := Settings(Some("gzip"), Some(e), cm, ck), Settings(None, None, cm, ck);
    var x := Encrypted(st, p, tools);
    GzipCompressed(st, x, e, tools);
    var z := tools.gzipEncode(x, Some(e)).value;
    var c := CreateFootprint("gzip", Some(e)) + z;
    TextStep(c, tools);
    EncodeStep(st, p, c, tools);
    var s := tools.textEncode(c);
    GzipSanitized(e, z);
    DecodeStep(dt, AsWrittenWhitelist, s, Sanitized(Some(z), Some("gzip"), Some(e)), x, tools);
    CipherStep(st, dt, p, tools);
  }

  /** The text Huffman coding gives is never empty nor "0" once a tree's text is two characters or more. */
  lemma HuffmanTextLong(x: string, tools: Tools)
    requires TreeTextLong(tools.treeWrite)
    requires HuffmanCoding.EncodeSpec(x, CodeTree.BuildTree(x), tools.treeWrite).Ok?
    ensures |HuffmanCoding.EncodeSpec(x, CodeTree.BuildTree(x), tools.treeWrite).value| >= 2
  {
    assert |tools.treeWrite(CodeTree.BuildTree(x))| >= 2;
  }

  /** With Huffman set, `_encode` puts the Huffman marker in front of the tree text and the packed codes. */
  lemma HuffmanCompressed(st: Settings, x: string, z: string, tools: Tools)
    requires st.algo == Some("huffman") && st.encoding.None?
    requires HuffmanCoding.EncodeSpec(x, CodeTree.BuildTree(x), tools.treeWrite) == Ok(z) && |z| >= 2
    ensures Compressed(st, x, tools) == Ok(CreateFootprint("huffman", None) + z)
  {
  }

  /**
   * With the intended whitelist, Huffman compression round-trips through the pipeline
   * (encryption included), given a tree text format that reads back what it writes.
   */
  lemma HuffmanRoundTrip(p: string, cm: Option<string>, ck: Option<string>, tools: Tools)
    requires TextCodec(tools) && TreeTextLong(tools.treeWrite)
    requires HuffmanCoding.TreeFormatRoundTrip(tools.treeWrite, tools.treeLoad)
    requires Truthy(cm) && Truthy(ck) ==> CipherCodec(tools)
    ensures var st := Settings(Some("huffman"), None, cm, ck);
      && EncodeText(st, p, tools).Ok?
      && DecodeText(Settings(None, None, cm, ck), IntendedWhitelist, EncodeText(st, p, tools).value, tools) == Ok(p)
  {
    var st, dt := Settings(Some("huffman"), None, cm, ck), Settings(None, None, cm, ck);
    var x := Encrypted(st, p, tools);
    HuffmanCoding.CompressRoundTrip(x, tools.treeWrite, tools.treeLoad);
    var z := HuffmanCoding.EncodeSpec(x, CodeTree.BuildTree(x), tools.treeWrite).value;
    HuffmanTextLong(x, tools);
    var c := CreateFootprint("huffman", None) + z;
    HuffmanCompressed(st, x, z, tools);
    TextStep(c, tools);
    EncodeStep(st, p, c, tools);
    var s := tools.textEncode(c);
    HuffmanFootprintAccepted(z);
    DecodeStep(dt, IntendedWhitelist, s, Sanitized(Some(z), Some("huffman"), None), x, tools);
    CipherStep(st, dt, p, tools);
  }

  /** As written, any text that decodes to a `huffman` footprint is refused with a `DecodeException`. */
  lemma HuffmanFootprintDecodeFails(s: string, body: string, st: Settings, tools: Tools)
    requires tools.textDecode(s) == CreateFootprint("huffman", None) + body
    ensures DecodeText(st, AsWrittenWhitelist, s, tools) == Err(DecodeError)
  {
    HuffmanFootprintRejected(body);
    var d := tools.textDecode(s);
    assert d[0] == '[';
  }

  /**
   * A payload that itself starts with a footprint naming an unknown algorithm is encoded
   * without complaint but cannot be decoded: the round trip fails.
   */
  lemma MarkerPayloadRejected(algo: string, encoding: Option<string>, body: string, wl: Whitelist, tools: Tools)
    requires TextCodec(tools)
    requires ',' !in algo && (encoding.Some? ==> ',' !in encoding.value)
    requires IsByteString(FootprintText(algo, encoding))
    requires !IsEmptyString(algo) && !KeyExists(wl, algo)
    ensures var p := CreateFootprint(algo, encoding) + body;
      && EncodeText(NoSettings, p, tools).Ok?
      && DecodeText(NoSettings, wl, EncodeText(NoSettings, p, tools).value, tools) == Err(DecodeError)
  {
    var p := CreateFootprint(algo, encoding) + body;
    TextStep(p, tools);
    UnknownAlgorithmRejected(wl, algo, encoding, body);
  }

  /**
   * As written nothing sets `cryptKey` (`encrypt` stores the key in `cryptPassword`), and
   * while `cryptKey` is `null` the cipher method changes nothing `get()` returns.
   */
  lemma EncryptionSkipped(mode: int, payload: PhpValue, st: Settings, m: string, wl: Whitelist, tools: Tools)
    requires st.cryptKey.None?
    ensures GetSpec(mode, payload, st.(cryptMethod := Some(m)), wl, tools) == GetSpec(mode, payload, st, wl, tools)
  {
    var st' := st.(cryptMethod := Some(m));
    forall x
      ensures EncodeText(st', x, tools) == EncodeText(st, x, tools)
      ensures DecodeText(st', wl, x, tools) == DecodeText(st, wl, x, tools)
    {
      KeylessEncodeSame(st, st', x, tools);
      KeylessDecodeSame(st, st', x, wl, tools);
    }
  }

  /** Two settings that differ only in the cipher method, both without a key, encode alike. */
  lemma KeylessEncodeSame(st: Settings, st': Settings, x: string, tools: Tools)
    requires st.cryptKey.None? && st'.cryptKey.None? && st'.algo == st.algo && st'.encoding == st.encoding
    ensures EncodeText(st', x, tools) == EncodeText(st, x, tools)
  {
    assert Encrypted(st', x, tools) == Encrypted(st, x, tools) == x;
  }

  /** Two settings that differ only in the cipher method, both without a key, decode alike. */
  lemma KeylessDecodeSame(st: Settings, st': Settings, x: string, wl: Whitelist, tools: Tools)
    requires st.cryptKey.None? && st'.cryptKey.None?
    ensures DecodeText(st', wl, x, tools) == DecodeText(st, wl, x, tools)
  {
    forall d ensures Decrypted(st', d, tools) == Decrypted(st, d, tools) == d {
    }
  }

  // ---- `get()` ----

  /**
   * An array payload is serialized by the constructor; `get()` on the encoder and then on a
   * decoder of its output gives the array back, since its text passes `_isSerializedString`.
   */
  lemma ArrayRoundTrip(entries: seq<(Key, PhpValue)>, wl: Whitelist, tools: Tools)
    requires TextCodec(tools) && SerializeCodec(tools) && entries != []
    ensures CheckPayload(Arr(entries), tools).Ok?
    ensures var enc := GetSpec(ModeEncode, CheckPayload(Arr(entries), tools).value, NoSettings, wl, tools);
      && enc.Ok? && CheckPayload(enc.value, tools) == Ok(enc.value)
      && GetSpec(ModeDecode, enc.value, NoSettings, wl, tools) == Ok(Arr(entries))
  {
    var s := Serialize(tools, entries);
    assert CheckPayload(Arr(entries), tools) == Ok(Str(s));
    MarkerAtStart(s);
    PlainRoundTrip(s, wl, tools);
    var y := EncodeText(NoSettings, s, tools).value;
    GetEncodeStep(s, NoSettings, wl, tools);
    GetDecodeStep(y, s, NoSettings, wl, tools);
    Serialized.ArrayRecognised(|entries|, tools.serializeEntries(entries), true);
    assert tools.unserialize(s) == Arr(entries);
  }

  /**
   * A string payload that does not start with a footprint comes back from a decoder's `get()`
   * as the same string, unless it looks serialized and unserializes to something other than `false`.
   */
  lemma StringRoundTrip(p: string, wl: Whitelist, tools: Tools)
    requires TextCodec(tools) && !IsEmptyString(p) && MatchFootprint(p).None?
    requires !Serialized.IsSerializedString(Str(p), true) || tools.unserialize(p) == Bool(false)
    ensures CheckPayload(Str(p), tools) == Ok(Str(p))
    ensures var enc := GetSpec(ModeEncode, Str(p), NoSettings, wl, tools);
      && enc.Ok? && CheckPayload(enc.value, tools) == Ok(enc.value)
      && GetSpec(ModeDecode, enc.value, NoSettings, wl, tools) == Ok(Str(p))
  {
    PlainRoundTrip(p, wl, tools);
    GetEncodeStep(p, NoSettings, wl, tools);
    GetDecodeStep(EncodeText(NoSettings, p, tools).value, p, NoSettings, wl, tools);
  }

  /** The first character of each serialized scalar. */
  lemma ScalarStart(v: Serialized.Scalar)
    ensures var t := Serialized.SerializeScalar(v); |t| >= 2 && t[0] in "Nbis"
  {
  }

  /**
   * A string payload that happens to be the serialized text of a scalar does not come back
   * as that string: a decoder's `get()` returns what `unserialize` makes of it.
   */
  lemma SerializedTextNotReturned(v: Serialized.Scalar, wl: Whitelist, tools: Tools)
    requires TextCodec(tools)
    requires tools.unserialize(Serialized.SerializeScalar(v)) != Bool(false)
    ensures var p := Serialized.SerializeScalar(v);
      var enc := GetSpec(ModeEncode, Str(p), NoSettings, wl, tools);
      && enc.Ok?
      && GetSpec(ModeDecode, enc.value, NoSettings, wl, tools) == Ok(tools.unserialize(p))
  {
    var p := Serialized.SerializeScalar(v);
    ScalarStart(v);
    MarkerAtStart(p);
    PlainRoundTrip(p, wl, tools);
    Serialized.ScalarRecognised(v, true);
  }
}
