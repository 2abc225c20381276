/**
 * The `Base62x` class: the payload checks of the constructor, the builder-style `compress`
 * and `encrypt` settings, and `get()`, which runs `_encode` (encrypt, compress behind a
 * footprint, text-encode) or `_decode` (text-decode, strip the footprint, uncompress,
 * decrypt). The Base62x text encoder, zlib, the OpenSSL cipher and PHP's `serialize` /
 * `unserialize` are abstract functions gathered in `Tools`.
 */
module Pipeline {
  import opened Common
  import opened Php
  import opened Footprint
  import CodeTree
  import HuffmanCoding
  import Serialized

  const ModeEncode: int := 1
  const ModeDecode: int := 2

  /** The default arguments of `compress()` and of `encrypt()` / `decrypt()`. */
  const DefaultAlgorithm: string := "gzip"
  const DefaultEncoding: string := "zlib"
  const DefaultCipher: string := "aes-128-ctr"

  /** The collaborators the class calls but whose code is not part of this model. */
  datatype Tools = Tools(
    textEncode: string -> string,                          // Encoding\Base62x::encode
    textDecode: string -> string,                          // Encoding\Base62x::decode
    gzipEncode: (string, Option<string>) -> Option<string>, // GzipCompression::encode; None for zlib's false
    gzipDecode: (string, Option<string>) -> Option<string>, // GzipCompression::decode; None for zlib's false
    ciphers: seq<string>,                                  // openssl_get_cipher_methods()
    encrypt: (string, string, string) -> string,           // Crypt::encrypt(data, method, key), IV included
    decrypt: (string, string, string) -> Option<string>,   // Crypt::decrypt(data, method, key); None for false
    treeWrite: HuffmanCoding.TreeWriter,                   // HuffmanNode::__toString
    treeLoad: HuffmanCoding.TreeLoader,                    // HuffmanNode::loadFromString
    serializeEntries: seq<(Key, PhpValue)> -> string,      // the entries part of `serialize($array)`
    unserialize: string -> PhpValue,                       // `@unserialize`, `false` on failure
    floatText: real -> string)                             // PHP's string conversion of a float

  /** `serialize($array)`: `a:<count>:{<entries>}`. */
  function Serialize(tools: Tools, entries: seq<(Key, PhpValue)>): (s: string)
    ensures |s| >= 6 && s[0] == 'a'
  {
    Serialized.SerializeArray(|entries|, tools.serializeEntries(entries))
  }

  // ---- what the collaborators are assumed to do ----

  /** The text encoder undoes itself on `x`, and a non-empty `x` gives a non-empty, non-"0" text. */
  ghost predicate TextWorks(tools: Tools, x: string) {
    tools.textDecode(tools.textEncode(x)) == x && (x != "" ==> !IsEmptyString(tools.textEncode(x)))
  }

  /** The text encoder works on every input. */
  ghost predicate TextCodec(tools: Tools) {
    forall x :: TextWorks(tools, x)
  }

  /** zlib, with encoding `e`, compresses `x` to a non-empty text it inflates back to `x`. */
  ghost predicate GzipWorks(tools: Tools, x: string, e: string) {
    && tools.gzipEncode(x, Some(e)).Some?
    && !IsEmptyString(tools.gzipEncode(x, Some(e)).value)
    && tools.gzipDecode(tools.gzipEncode(x, Some(e)).value, Some(e)) == Some(x)
  }

  /** zlib works on every input with each whitelisted encoding. */
  ghost predicate GzipCodec(tools: Tools) {
    forall x, e :: e in GzipEncodings ==> GzipWorks(tools, x, e)
  }

  /** Decryption with the same method and key undoes encryption, whose output starts with the hex IV. */
  ghost predicate CipherWorks(tools: Tools, d: string, m: string, k: string) {
    && tools.decrypt(tools.encrypt(d, m, k), m, k) == Some(d)
    && |tools.encrypt(d, m, k)| >= 2 && tools.encrypt(d, m, k)[0] != '['
  }

  /** The cipher works on every input, method and key. */
  ghost predicate CipherCodec(tools: Tools) {
    forall d, m, k :: CipherWorks(tools, d, m, k)
  }

  /** The text of a Huffman tree is at least two characters long. */
  ghost predicate TreeTextLong(write: HuffmanCoding.TreeWriter) {
    forall t :: |write(t)| >= 2
  }

  /** `unserialize` gives back the array `serialize` wrote. */
  ghost predicate SerializeCodec(tools: Tools) {
    forall entries :: tools.unserialize(Serialize(tools, entries)) == Arr(entries)
  }

  // ---- the constructor and the settings ----

  /**
   * The checks of the constructor: an empty payload, a resource and an object are refused;
   * an array is replaced by its serialized text.
   */
  function CheckPayload(payload: PhpValue, tools: Tools): (r: Result<PhpValue>)
    ensures r.Err? <==> IsEmpty(payload) || payload.Resource? || payload.Object?
    ensures r.Err? ==> r.error == InvalidParam("payload")
    ensures r.Ok? ==> !IsEmpty(r.value) && (r.value.Str? || r.value.Int? || r.value.Float? || r.value.Bool?)
    ensures r.Ok? && !payload.Arr? ==> r.value == payload
  {
    if IsEmpty(payload) || payload.Resource? || payload.Object? then Err(InvalidParam("payload"))
    else if payload.Arr? then Ok(Str(Serialize(tools, payload.entries)))
    else Ok(payload)
  }

  /** The conversion of the payload to the `string` parameter of `_encode` / `_decode`. */
  function StringCast(v: PhpValue, tools: Tools): (r: Result<string>)
    ensures r.Ok? <==> v.Str? || v.Int? || v.Float? || v.Bool?
    ensures v.Str? ==> r == Ok(v.s)
  {
    match v
    case Str(s) => Ok(s)
    case Int(i) => Ok(Serialized.IntText(i))
    case Float(f) => Ok(tools.floatText(f))
    case Bool(b) => Ok(if b then "1" else "")
    case _ => Err(TypeError)  // null, arrays, resources and objects are not accepted for a `string` parameter
  }

  /**
   * The checks of `compress($algo, $encoding)`: the algorithm must be a key of the whitelist;
   * under a list of encodings the encoding must be one of them, otherwise it becomes `null`.
   * Returns the encoding to store.
   */
  function CompressSettings(wl: Whitelist, algo: string, encoding: Option<string>): (r: Result<Option<string>>)
    ensures r == Err(InvalidParam("algo")) <==> !KeyExists(wl, algo)
    ensures r == Err(InvalidParam("encoding")) <==>
      KeyExists(wl, algo) && Lookup(wl, algo).Encodings? && !(encoding.Some? && encoding.value in Lookup(wl, algo).items)
    ensures r.Ok? ==> KeyExists(wl, algo)
    ensures r.Ok? && Lookup(wl, algo).Encodings? ==> r.value == encoding && encoding.value in Lookup(wl, algo).items
    ensures r.Ok? && !Lookup(wl, algo).Encodings? ==> r.value.None?
  {
    if !KeyExists(wl, algo) then Err(InvalidParam("algo"))
    else match Lookup(wl, algo)
      case Encodings(items) => if encoding.Some? && encoding.value in items then Ok(encoding) else Err(InvalidParam("encoding"))
      case _ => Ok(None)
  }

  /** PHP truthiness of a string property that may be `null`. */
  predicate Truthy(s: Option<string>) {
    s.Some? && !IsEmptyString(s.value)
  }

  /** The properties `_encode` and `_decode` read. */
  datatype Settings = Settings(algo: Option<string>, encoding: Option<string>, cryptMethod: Option<string>, cryptKey: Option<string>)

  const NoSettings: Settings := Settings(None, None, None, None)

  /** `$this->cryptKey && $this->cryptMethod`. */
  predicate Crypting(st: Settings) {
    Truthy(st.cryptKey) && Truthy(st.cryptMethod)
  }

  // ---- `_encode` ----

  /**
   * The first step of `_encode`: `_performEncryption` when a key and a method are set. Its
   * output is what `_performDecryption` with the same key and method takes back to the payload.
   */
  function Encrypted(st: Settings, payload: string, tools: Tools): (r: string)
    ensures !Crypting(st) ==> r == payload
    ensures Crypting(st) && CipherWorks(tools, payload, st.cryptMethod.value, st.cryptKey.value) ==>
      |r| >= 2 && r[0] != '[' && Decrypted(st, r, tools) == payload
  {
    if Crypting(st) then tools.encrypt(payload, st.cryptMethod.value, st.cryptKey.value) else payload
  }

  /**
   * `_performCompress`: gzip with the stored encoding, or Huffman with a code tree built from
   * the payload itself; any other algorithm compresses to `null`. An empty result is an
   * `EncodeException`; otherwise the footprint goes in front.
   */
  function Compressed(st: Settings, payload: string, tools: Tools): (r: Result<string>)
    requires st.algo.Some?
    ensures r.Ok? ==> exists body :: r.value == CreateFootprint(st.algo.value, st.encoding) + body && !IsEmptyString(body)
    ensures st.algo.value != "gzip" && st.algo.value != "huffman" ==> r == Err(EncodeError)
  {
    var body: Result<Option<string>> :=
      if st.algo.value == "gzip" then
        match tools.gzipEncode(payload, st.encoding)
        case None => Err(CompressionError(GzipFailed))
        case Some(z) => Ok(Some(z))
      else if st.algo.value == "huffman" then
        match HuffmanCoding.EncodeSpec(payload, CodeTree.BuildTree(payload), tools.treeWrite)
        case Err(e) => Err(e)
        case Ok(z) => Ok(Some(z))
      else Ok(None);
    match body
    case Err(e) => Err(e)
    case Ok(c) => if IsEmptyOrNull(c) then Err(EncodeError) else Ok(CreateFootprint(st.algo.value, st.encoding) + c.value)
  }

  /** `_encode`: encrypt, compress (when an algorithm is set), text-encode; an empty text is an `EncodeException`. */
  function EncodeText(st: Settings, payload: string, tools: Tools): (r: Result<string>)
    ensures r.Ok? ==> !IsEmptyString(r.value)
  {
    var p := Encrypted(st, payload, tools);
    var c := if Truthy(st.algo) then Compressed(st, p, tools) else Ok(p);
    match c
    case Err(e) => Err(e)
    case Ok(text) =>
      var encoded := tools.textEncode(text);
      if IsEmptyString(encoded) then Err(EncodeError) else Ok(encoded)
  }

  // ---- `_decode` ----

  /**
   * `_performUncompress`: gzip or Huffman by the footprint's algorithm; anything else passes
   * through. gzip fails exactly when zlib cannot inflate the payload, and inflates what zlib
   * deflated with the same encoding back to the original.
   */
  function Uncompressed(algo: string, payload: string, encoding: Option<string>, tools: Tools): (r: Result<string>)
    ensures algo != "gzip" && algo != "huffman" ==> r == Ok(payload)
    ensures algo == "gzip" ==> (r.Err? <==> tools.gzipDecode(payload, encoding).None?)
    ensures algo == "gzip" && encoding.Some? ==>
      forall x :: GzipWorks(tools, x, encoding.value) && payload == tools.gzipEncode(x, encoding).value ==> r == Ok(x)
  {
    if algo == "gzip" then
      match tools.gzipDecode(payload, encoding)
      case None => Err(CompressionError(GzipFailed))
      case Some(d) => Ok(d)
    else if algo == "huffman" then HuffmanCoding.DecodeSpec(payload, tools.treeLoad)
    else Ok(payload)
  }

  /**
   * The last step of `_decode`: `_performDecryption`, whose `false` becomes "" through its
   * `string` return type. With a key and a method set it undoes the cipher's encryption.
   */
  function Decrypted(st: Settings, payload: string, tools: Tools): (r: string)
    ensures !Crypting(st) ==> r == payload
    ensures Crypting(st) && tools.decrypt(payload, st.cryptMethod.value, st.cryptKey.value).None? ==> r == ""
    ensures Crypting(st) ==> forall d ::
      (CipherWorks(tools, d, st.cryptMethod.value, st.cryptKey.value)
       && payload == tools.encrypt(d, st.cryptMethod.value, st.cryptKey.value)) ==> r == d
  {
    if Crypting(st) then
      match tools.decrypt(payload, st.cryptMethod.value, st.cryptKey.value)
      case None => ""
      case Some(d) => d
    else payload
  }

  /**
   * `_decode`: text-decode (an empty result is a `DecodeException`), strip and check the
   * footprint, uncompress when it names a truthy algorithm (a stripped payload that is `null`
   * cannot be passed on: `TypeError`), then decrypt. Without a truthy algorithm the whole
   * decoded text goes on, footprint included.
   */
  function DecodeText(st: Settings, wl: Whitelist, payload: string, tools: Tools): (r: Result<string>)
    ensures IsEmptyString(tools.textDecode(payload)) ==> r == Err(DecodeError)
    ensures Sanitize(wl, tools.textDecode(payload)).Err? && !IsEmptyString(tools.textDecode(payload)) ==>
      r == Err(Sanitize(wl, tools.textDecode(payload)).error)
  {
    var decoded := tools.textDecode(payload);
    if IsEmptyString(decoded) then Err(DecodeError)
    else match Sanitize(wl, decoded)
      case Err(e) => Err(e)
      case Ok(data) =>
        var u :=
          if !Truthy(data.algo) then Ok(decoded)
          else if data.payload.None? then Err(TypeError)
          else Uncompressed(data.algo.value, data.payload.value, data.encoding, tools);
        match u
        case Err(e) => Err(e)
        case Ok(d) => Ok(Decrypted(st, d, tools))
  }

  /**
   * `get()`: in encode mode the encoded text; in decode mode the decoded text, or what
   * `unserialize` makes of it when it looks serialized and does not unserialize to `false`;
   * `null` for any other mode.
   */
  function GetSpec(mode: int, payload: PhpValue, st: Settings, wl: Whitelist, tools: Tools): (r: Result<PhpValue>)
    ensures mode != ModeEncode && mode != ModeDecode ==> r == Ok(Null)
    ensures mode == ModeEncode && r.Ok? ==> r.value.Str? && !IsEmptyString(r.value.s)
  {
    if mode == ModeEncode then
      match StringCast(payload, tools)
      case Err(e) => Err(e)
      case Ok(s) =>
        match EncodeText(st, s, tools)
        case Err(e) => Err(e)
        case Ok(x) => Ok(Str(x))
    else if mode == ModeDecode then
      match StringCast(payload, tools)
      case Err(e) => Err(e)
      case Ok(s) =>
        match DecodeText(st, wl, s, tools)
        case Err(e) => Err(e)
        case Ok(d) =>
          if Serialized.IsSerializedString(Str(d), true) && tools.unserialize(d) != Bool(false)
          then Ok(tools.unserialize(d))
          else Ok(Str(d))
    else Ok(Null)
  }

  // ---- the class ----

  class Base62x {
    const mode: int
    const payload: PhpValue
    /** `$_validCompressionAlgorithms`; a subclass may redeclare it. */
    const validAlgorithms: Whitelist
    const tools: Tools
    var compressAlgorithm: Option<string>
    var compressEncoding: Option<string>
    var cryptMethod: Option<string>
    var cryptKey: Option<string>
    var cryptPassword: Option<string>

    function CurrentSettings(): Settings
      reads this
    {
      Settings(compressAlgorithm, compressEncoding, cryptMethod, cryptKey)
    }

    /** Stores an already checked payload; every setting starts out `null`. */
    constructor Init(mode: int, payload: PhpValue, validAlgorithms: Whitelist, tools: Tools)
      ensures this.mode == mode && this.payload == payload
      ensures this.validAlgorithms == validAlgorithms && this.tools == tools
      ensures CurrentSettings() == NoSettings && cryptPassword.None?
    {
      this.mode := mode;
      this.payload := payload;
      this.validAlgorithms := validAlgorithms;
      this.tools := tools;
      compressAlgorithm := None;
      compressEncoding := None;
      cryptMethod := None;
      cryptKey := None;
      cryptPassword := None;
    }

    /** `new self($mode, $payload)`: the constructor's checks, then the new object. */
    static method Create(mode: int, payload: PhpValue, validAlgorithms: Whitelist, tools: Tools) returns (r: Result<Base62x>)
      ensures r.Err? <==> CheckPayload(payload, tools).Err?
      ensures r.Err? ==> r.error == InvalidParam("payload")
      ensures r.Ok? ==> && fresh(r.value) && r.value.mode == mode
                        && r.value.payload == CheckPayload(payload, tools).value
                        && r.value.validAlgorithms == validAlgorithms && r.value.tools == tools
                        && r.value.CurrentSettings() == NoSettings && r.value.cryptPassword.None?
    {
      var checked := CheckPayload(payload, tools);
      if checked.Err? {
        return Err(checked.error);
      }
      var b := new Base62x.Init(mode, checked.value, validAlgorithms, tools);
      return Ok(b);
    }

    /** `Base62x::encode($payload)`. */
    static method Encode(payload: PhpValue, validAlgorithms: Whitelist, tools: Tools) returns (r: Result<Base62x>)
      ensures r.Err? <==> CheckPayload(payload, tools).Err?
      ensures r.Ok? ==> && fresh(r.value) && r.value.mode == ModeEncode
                        && r.value.payload == CheckPayload(payload, tools).value
                        && r.value.validAlgorithms == validAlgorithms && r.value.tools == tools
                        && r.value.CurrentSettings() == NoSettings
    {
      r := Create(ModeEncode, payload, validAlgorithms, tools);
    }

    /** `Base62x::decode($payload)`. */
    static method Decode(payload: PhpValue, validAlgorithms: Whitelist, tools: Tools) returns (r: Result<Base62x>)
      ensures r.Err? <==> CheckPayload(payload, tools).Err?
      ensures r.Ok? ==> && fresh(r.value) && r.value.mode == ModeDecode
                        && r.value.payload == CheckPayload(payload, tools).value
                        && r.value.validAlgorithms == validAlgorithms && r.value.tools == tools
                        && r.value.CurrentSettings() == NoSettings
    {
      r := Create(ModeDecode, payload, validAlgorithms, tools);
    }

    /**
     * `compress($algo = 'gzip', $encoding = 'zlib')`: on success only the two compression
     * properties change.
     */
    method Compress(algo: string := DefaultAlgorithm, encoding: Option<string> := Some(DefaultEncoding)) returns (r: Result<()>)
      modifies this
      ensures r.Err? <==> CompressSettings(validAlgorithms, algo, encoding).Err?
      ensures r.Err? ==> r.error == CompressSettings(validAlgorithms, algo, encoding).error && unchanged(this)
      ensures r.Ok? ==> && compressAlgorithm == Some(algo)
                        && compressEncoding == CompressSettings(validAlgorithms, algo, encoding).value
      ensures cryptMethod == old(cryptMethod) && cryptKey == old(cryptKey) && cryptPassword == old(cryptPassword)
    {
      var checked := CompressSettings(validAlgorithms, algo, encoding);
      if checked.Err? {
        return Err(checked.error);
      }
      compressAlgorithm := Some(algo);
      compressEncoding := checked.value;
      return Ok(());
    }

    /**
     * `encrypt($key, $method = 'aes-128-ctr')`: the lower-cased method must be an OpenSSL cipher; it is stored
     * with the key, the key under `cryptPassword`, so `cryptKey` stays as it was.
     */
    method Encrypt(key: string, cipherMethod: string := DefaultCipher) returns (r: Result<()>)
      modifies this
      ensures Lower(cipherMethod) !in tools.ciphers ==> r == Err(CryptError) && unchanged(this)
      ensures Lower(cipherMethod) in tools.ciphers ==>
        && r == Ok(()) && cryptMethod == Some(Lower(cipherMethod)) && cryptPassword == Some(key)
        && cryptKey == old(cryptKey)
        && compressAlgorithm == old(compressAlgorithm) && compressEncoding == old(compressEncoding)
    {
      var lowered := Lower(cipherMethod);
      if lowered !in tools.ciphers {
        return Err(CryptError);
      }
      cryptMethod := Some(lowered);
      cryptPassword := Some(key);
      return Ok(());
    }

    /** `decrypt($key, $method = 'aes-128-ctr')`: the same as `encrypt`. */
    method Decrypt(key: string, cipherMethod: string := DefaultCipher) returns (r: Result<()>)
      modifies this
      ensures Lower(cipherMethod) !in tools.ciphers ==> r == Err(CryptError) && unchanged(this)
      ensures Lower(cipherMethod) in tools.ciphers ==>
        && r == Ok(()) && cryptMethod == Some(Lower(cipherMethod)) && cryptPassword == Some(key)
        && cryptKey == old(cryptKey)
        && compressAlgorithm == old(compressAlgorithm) && compressEncoding == old(compressEncoding)
    {
      r := Encrypt(key, cipherMethod);
    }

    /** `encrypt` as evidently intended: the key goes where `_encode` and `_decode` look for it. */
    method EncryptWithKey(key: string, cipherMethod: string := DefaultCipher) returns (r: Result<()>)
      modifies this
      ensures Lower(cipherMethod) !in tools.ciphers ==> r == Err(CryptError) && unchanged(this)
      ensures Lower(cipherMethod) in tools.ciphers ==>
        && r == Ok(()) && cryptMethod == Some(Lower(cipherMethod)) && cryptKey == Some(key)
        && cryptPassword == old(cryptPassword)
        && compressAlgorithm == old(compressAlgorithm) && compressEncoding == old(compressEncoding)
    {
      var lowered := Lower(cipherMethod);
      if lowered !in tools.ciphers {
        return Err(CryptError);
      }
      cryptMethod := Some(lowered);
      cryptKey := Some(key);
      return Ok(());
    }

    /** `get()`. */
    method Get() returns (r: Result<PhpValue>)
      ensures r == GetSpec(mode, payload, CurrentSettings(), validAlgorithms, tools)
    {
      r := GetSpec(mode, payload, CurrentSettings(), validAlgorithms, tools);
    }
  }
}
