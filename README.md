# php-base62x in Dafny: Huffman compression, compression footprints and the encode/decode pipeline

This project models the core of the PHP library php-base62x in Dafny.

**Huffman compression** (`src/Compression/Huffman`):
- the weight-ordered `HuffmanNodeQueue`;
- the bit writer and the bit reader;
- `HuffmanCoding::createCodeTree`, `encode` and `decode`.

The queue, the writer and the reader are classes whose methods update their fields. `createCodeTree`, `encode` and `decode` are methods with loops. Each is proved against a function that states what it computes. The proved properties include:
- the queue stays sorted and keeps its contents;
- the writer keeps the invariant that its bytes pack every bit written so far;
- the reader yields the bits of its buffer in order, then `null`;
- the tree built from a sample has exactly the sample's bytes plus EOF as leaves, weighted by their counts;
- `decode(encode($d, createCodeTree($d))) == $d`.

**The `Base62x` class** (`src/Base62x.php`):
- the constructor's payload checks;
- the `compress` and `encrypt` settings;
- the compression footprint `[MFB62X.COMPRESS.<base64 of "algo,encoding">]`, which is written by `_createCompressionFootprint` and found and checked again by `_getCompressionFootprintAndSanitizePayload`;
- the `_isSerializedString` predicate;
- the order of the steps in `_encode` (encrypt, compress behind the footprint, text-encode) and in `_decode` (text-decode, strip the footprint, uncompress, decrypt);
- `get()`.

Base64 (section 4 of RFC 4648) is modelled as far as the footprint uses it: encoding in full, and strict decoding of the text the footprint pattern captures, with its round trip proved.

The collaborators whose code is not part of this model are parameters of the model, gathered in `Pipeline.Tools`: the Base62x text encoder, zlib, the OpenSSL cipher, PHP's `serialize`/`unserialize` and the tree text format of `HuffmanNode`. The round trips are proved under named hypotheses about these collaborators: `TextCodec`, `GzipCodec`, `CipherCodec`, `TreeFormatRoundTrip`, `TreeTextLong` and `SerializeCodec`.

PHP strings are Dafny `string`s whose characters stand for bytes. PHP's `null`/`false` "no value" is `Option.None`, and a thrown exception is a `Result.Err` naming the exception class.

Files, by module:
- `common.dfy`: Option, Result and the errors.
- `php.dfy`: the PHP builtins the class relies on (`empty`, array keys, `trim`, `explode`/`implode`, `strpos`, `mb_strtolower`).
- `bits.dfy`: bits in bytes.
- `bit_stream_writer.dfy`, `bit_stream_reader.dfy`: the bit streams.
- `huffman_node.dfy`: the tree datatype.
- `huffman_node_queue.dfy`: the node queue.
- `code_tree.dfy`: `createCodeTree` as functions.
- `huffman_coding.dfy`: the codec.
- `base64.dfy`: base64 encoding and decoding.
- `footprint.dfy`: the footprint, written and parsed.
- `serialized.dfy`: `_isSerializedString`.
- `base62x.dfy`: the class.
- `base62x_properties.dfy`: the pipeline's properties.

## Model

| member | source | states |
|---|---|---|
| NodeQueue.HuffmanNodeQueue.AddNode | src/Compression/Huffman/HuffmanNodeQueue.php:18-31 | The new queue is the old one with the node spliced in at `InsertionIndex`: the first index whose weight is at least the node's. |
| NodeQueue.InsertionIndexFacts | src/Compression/Huffman/HuffmanNodeQueue.php:26-29 | Every node before the insertion index is strictly lighter than the new node; the node at the index, if any, is not. |
| NodeQueue.InsertionIndexUnique | src/Compression/Huffman/HuffmanNodeQueue.php:26-29 | Any index with that first-index property is the insertion index. |
| NodeQueue.InsertIntoEmpty | src/Compression/Huffman/HuffmanNodeQueue.php:20-24 | Adding to an empty queue gives exactly `[node]`. |
| NodeQueue.InsertPlacement | src/Compression/Huffman/HuffmanNodeQueue.php:26-30 | The node lands at the first index whose weight is at least its own, after every lighter node and before every node of equal weight. The old nodes keep their relative order. |
| NodeQueue.InsertLength | src/Compression/Huffman/HuffmanNodeQueue.php:30 | `addNode` grows the queue by one. |
| NodeQueue.InsertMultiset | src/Compression/Huffman/HuffmanNodeQueue.php:30 | `addNode` adds the node and keeps every other node: the new contents are the old contents plus the node. |
| NodeQueue.InsertKeepsSorted | src/Compression/Huffman/HuffmanNodeQueue.php:26-30 | A queue sorted ascending by weight stays sorted after `addNode`. |
| NodeQueue.HuffmanNodeQueue.PopTwoNodes | src/Compression/Huffman/HuffmanNodeQueue.php:36-46 | With two or more nodes, returns the first two in order and drops them from the queue. With fewer, returns `false` and leaves the queue unchanged. |
| NodeQueue.HuffmanNodeQueue.GetOnlyNode | src/Compression/Huffman/HuffmanNodeQueue.php:51-58 | Returns `nodes[0]` exactly when the queue holds one node; otherwise a `CompressionException`. |
| BinaryWriter.StringBitsCons | src/Compression/Huffman/Binary/BitStreamWriter.php:25-30 | The first character of a bit string gives its first bit: `'0'` is false, any other character true. |
| BinaryWriter.StringBitsAppend | src/Compression/Huffman/Binary/BitStreamWriter.php:25-30 | Writing `a + b` writes the bits of `a`, then those of `b`. |
| BinaryWriter.BitStreamWriter.constructor | src/Compression/Huffman/Binary/BitStreamWriter.php:17-20 | A new writer holds no bits, no bytes and cursor 0, and satisfies the writer invariant. |
| BinaryWriter.BitStreamWriter.WriteBit | src/Compression/Huffman/Binary/BitStreamWriter.php:35-44 | Appends one bit and keeps the invariant: the bytes pack all bits written but the last `cursor`, and the cursor stays within 0..7. The eighth bit flushes the working byte into `data` and resets the cursor. |
| BinaryWriter.BitStreamWriter.WriteString | src/Compression/Huffman/Binary/BitStreamWriter.php:25-30 | Writes exactly one bit per character, in order, and keeps the invariant. |
| BinaryWriter.PadTail | src/Compression/Huffman/Binary/BitStreamWriter.php:35-58 | Under the invariant, n bits written means floor(n/8) bytes in `data` and n mod 8 as the cursor. The padded bits are the completed bytes' bits followed by the working byte when the cursor is not 0. |
| BinaryWriter.BitStreamWriter.GetData | src/Compression/Huffman/Binary/BitStreamWriter.php:50-58 | Returns all bits written, packed with zero padding (hence ceil(n/8) bytes): `data` plus one partial byte exactly when the cursor is above 0. It changes nothing. |
| BinaryReader.BitStreamReader.constructor | src/Compression/Huffman/Binary/BitStreamReader.php:16-19 | The buffer is the bits of the data, byte by byte, and nothing has been read. |
| BinaryReader.BitStreamReader.ReadBit | src/Compression/Huffman/Binary/BitStreamReader.php:24-34 | Past the end, returns `null` without moving the cursor. Otherwise returns the bit at the cursor and advances it by one. The cursor never passes the buffer's end. Successive reads yield the remaining bits in order, then `null`. |
| BinaryReader.BitStreamReader.IsEOF | src/Compression/Huffman/Binary/BitStreamReader.php:39-42 | Holds exactly when no bit is left at the cursor; it changes no state. |
| Bits.UnpackPackByte | src/Compression/Huffman/Binary/BitStreamReader.php:18 | Eight bits packed into a byte read back as the same eight bits. |
| Bits.PackUnpackByte | src/Compression/Huffman/Binary/BitStreamReader.php:18 | A byte is packed back from its eight bits. |
| Bits.UnpackPack | src/Compression/Huffman/Binary/BitStreamReader.php:18 | Loading the bytes packed from whole bytes' worth of bits gives those bits back. |
| Bits.UnpackInjective | src/Compression/Huffman/Binary/BitStreamReader.php:18 | Byte strings with the same bits are equal. |
| Bits.PackPaddedFacts | src/Compression/Huffman/Binary/BitStreamWriter.php:50-58 | Padded packing gives ceil(n/8) bytes, which load back as the bits followed by fewer than eight zero bits. |
| HuffmanTree.CodeIsDigits | src/Compression/Huffman/HuffmanCoding.php:52 | Every code in the code hash is a string of `'0'` and `'1'`. |
| HuffmanTree.CodesArePrefixFree | src/Compression/Huffman/HuffmanCoding.php:52 | No symbol's code is a prefix of another symbol's code. |
| HuffmanTree.CodesOfLeaves | src/Compression/Huffman/HuffmanCoding.php:52 | A symbol has a code exactly when some leaf carries it. |
| HuffmanTree.WeightIsLeafTotal | src/Compression/Huffman/HuffmanCoding.php:39 | A tree whose inner nodes weigh what their children weigh together weighs the total of its leaves. |
| CodeTree.BumpWeight | src/Compression/Huffman/HuffmanCoding.php:25-28 | One counting step adds the symbol as a key if missing and adds one to its weight only. |
| CodeTree.CountWeightsOf | src/Compression/Huffman/HuffmanCoding.php:23-29 | After counting, a byte is a key exactly when it occurs in the sample, with its number of occurrences as weight. |
| CodeTree.CountWeightsDistinct | src/Compression/Huffman/HuffmanCoding.php:23-29 | The counted table has distinct keys and no EOF key. |
| CodeTree.CountWeightsTotal | src/Compression/Huffman/HuffmanCoding.php:23-29 | The counts add up to the sample length. |
| CodeTree.WithEofMeaning | src/Compression/Huffman/HuffmanCoding.php:30 | The table is the counted bytes followed by EOF with weight 1. Its keys are distinct and its total is the sample length plus one. |
| CodeTree.SortDescFacts | src/Compression/Huffman/HuffmanCoding.php:33 | `arsort` permutes the entries and keeps the total weight. |
| CodeTree.SortDescSorted | src/Compression/Huffman/HuffmanCoding.php:33 | `arsort` puts the heaviest entries first. |
| CodeTree.LoadAllContents | src/Compression/Huffman/HuffmanCoding.php:34-36 | The loaded queue holds one leaf per table entry (each distinct byte and EOF) and weighs what the entries weigh. |
| CodeTree.LoadAllShape | src/Compression/Huffman/HuffmanCoding.php:34-36 | The loaded queue is sorted by weight. |
| CodeTree.InsertQueueCounts | src/Compression/Huffman/HuffmanCoding.php:39-40 | Putting a joined node back adds exactly its leaves and its weight to the queue's. |
| CodeTree.DrainFacts | src/Compression/Huffman/HuffmanCoding.php:38-43 | The join loop ends with exactly one node and keeps the leaves and the total weight, one node fewer per round. |
| CodeTree.DrainConsistent | src/Compression/Huffman/HuffmanCoding.php:38-41 | Joining keeps every node's weight equal to its children's total. |
| CodeTree.CodeTreeLeaves | src/Compression/Huffman/HuffmanCoding.php:21-44 | The root's leaves are the table's entries. Its inner weights add up, and it weighs the sample length plus one. |
| CodeTree.SampleTableSymbols | src/Compression/Huffman/HuffmanCoding.php:23-30 | The table's symbols are the sample's bytes and EOF. |
| CodeTree.CodeTreeSymbols | src/Compression/Huffman/HuffmanCoding.php:21-44 | Exactly the sample's bytes, and EOF, have a code in the tree. |
| CodeTree.CodeTreeLeafWeights | src/Compression/Huffman/HuffmanCoding.php:23-30 | Every leaf is a byte weighted by its count in the sample, or EOF with weight 1. |
| HuffmanCoding.CountSymbols | src/Compression/Huffman/HuffmanCoding.php:23-29 | The counting loop yields the table in which each byte of the sample is weighted by its occurrences and nothing else is listed. |
| HuffmanCoding.CreateCodeTree | src/Compression/Huffman/HuffmanCoding.php:21-44 | Returns the tree `BuildTree` names. It weighs the sample length plus one, is consistently weighted, and has a code for EOF and for every byte of the sample. |
| HuffmanCoding.DrainLoaded | src/Compression/Huffman/HuffmanCoding.php:38-43 | Draining the loaded queue leaves the single root `createCodeTree` returns. |
| HuffmanCoding.CodeStringDefined | src/Compression/Huffman/HuffmanCoding.php:54-61 | The data's code text exists exactly when every byte of the data has a code. |
| HuffmanCoding.WriteCodes | src/Compression/Huffman/HuffmanCoding.php:53-61 | The loop stops with `false` exactly when some byte has no code. Otherwise the stream holds the bits of the bytes' codes, in data order. |
| HuffmanCoding.Encode | src/Compression/Huffman/HuffmanCoding.php:49-67 | Returns the tree's text, then the packed bits of each byte's code in data order, then the EOF code. A byte without a code is a `CompressionException`. |
| HuffmanCoding.EncodeFailsExactly | src/Compression/Huffman/HuffmanCoding.php:56-60 | `encode` throws exactly when some byte of the data has no code in the tree. |
| HuffmanCoding.Decode | src/Compression/Huffman/HuffmanCoding.php:72-98 | Loads the tree off the front, then walks it bit by bit: a byte leaf emits and restarts at the root, the EOF leaf returns, and running out of bits is a `CompressionException`. |
| HuffmanCoding.WalkAlongCode | src/Compression/Huffman/HuffmanCoding.php:87-95 | Reading a symbol's code from a node leads to that symbol's leaf. |
| HuffmanCoding.WalkEofCode | src/Compression/Huffman/HuffmanCoding.php:79-82 | Reading the EOF code from the root returns what was decoded so far. |
| HuffmanCoding.WalkOneByte | src/Compression/Huffman/HuffmanCoding.php:79-86 | Reading a byte's code from the root emits that byte and restarts at the root. |
| HuffmanCoding.WalkWithoutEofFails | src/Compression/Huffman/HuffmanCoding.php:88-90 | Without the EOF code the bits run out before an EOF leaf, which is a `CompressionException`. |
| HuffmanCoding.WalkIgnoresTrailingBits | src/Compression/Huffman/HuffmanCoding.php:79-82 | Once the EOF leaf is reached, further (padding) bits change nothing. |
| HuffmanCoding.WalkIgnoresWeights | src/Compression/Huffman/HuffmanCoding.php:79-95 | Decoding never looks at weights. |
| HuffmanCoding.WalkDecodesCodes | src/Compression/Huffman/HuffmanCoding.php:78-97 | Walking the codes of the data and then the EOF code gives the data back, whatever bits follow. |
| HuffmanCoding.DecodeWritten | src/Compression/Huffman/HuffmanCoding.php:74-76 | Decoding a written tree followed by packed bits walks the original tree over those bits. |
| HuffmanCoding.HuffmanRoundTrip | src/Compression/Huffman/HuffmanCoding.php:49-98 | For any tree that codes every byte of the data and EOF, `decode(encode($d, $tree)) == $d`. |
| HuffmanCoding.CompressRoundTrip | src/Compression/Huffman/HuffmanCoding.php:21-98 | `decode(encode($d, createCodeTree($d))) == $d` for every byte string `$d`. |
| Php.NormalizeKey | src/Base62x.php:20 | The string `"0"` is the integer key 0; a string key is kept as written; a string not starting with a digit or '-' stays a string. |
| Php.Lookup | src/Base62x.php:131 | `$wl[$s]` is the value stored under the normalised key. |
| Php.Trim | src/Base62x.php:403 | `trim` leaves a text whose ends are not blanks, and leaves a text without blank ends unchanged. |
| Php.Lower | src/Base62x.php:170 | `mb_strtolower` as far as it is modelled: ASCII capitals are lowered, and every other character is kept. |
| Php.Find | src/Base62x.php:419-420 | The first position of a character, or `false` exactly when it is absent. |
| Php.ImplodeExplode | src/Base62x.php:367 | Joining the pieces of `explode(',', $s)` gives `$s` back. |
| Php.ExplodeImplode | src/Base62x.php:356 | Splitting the join of comma-free pieces gives the pieces back. |
| Base64.Encode | src/Base62x.php:356 | `base64_encode` gives alphabet text padded with one or two '=' to whole groups. |
| Base64.EncodeLength | src/Base62x.php:356 | Encoding gives four characters per three bytes, rounded up. |
| Base64.DecodeIsByteString | src/Base62x.php:367 | `base64_decode` gives bytes. |
| Base64.Decode | src/Base62x.php:367 | On the text the footprint pattern captures (alphabet characters, then at most two '='), strict `base64_decode` fails exactly when a character before the trailing '=' is outside the alphabet, when the text without padding leaves a single character in its last group, or when padding is present but the length is not a multiple of four. Otherwise it gives three bytes per four characters, rounded down. |
| Base64.RoundTrip | src/Base62x.php:356 | `base64_decode(base64_encode($s), true) === $s` for every byte string. |
| Footprint.FootprintText | src/Base62x.php:356 | The footprint text is `algo,encoding`, with the comma right after the algorithm. |
| Footprint.CreateFootprint | src/Base62x.php:354-357 | The footprint starts with `[MFB62X.COMPRESS.` and ends with `]`. |
| Footprint.MatchFootprint | src/Base62x.php:366 | A match is a prefix of the text: `[MFB62X.COMPRESS.`, a non-empty captured group, and `]`. |
| Footprint.MatchedTextIsPadded | src/Base62x.php:366 | The captured group is alphabet text followed by at most two '='. |
| Footprint.FootprintMatches | src/Base62x.php:366 | The pattern finds the marker the pipeline wrote, whatever body follows it. |
| Footprint.FieldsOfFootprint | src/Base62x.php:367 | Decoding and splitting a written marker gives back the algorithm and the encoding that went into it. |
| Footprint.Strip | src/Base62x.php:368 | A successful removal leaves the text after the marker. |
| Footprint.StrippedPayload | src/Base62x.php:365-369 | A text without a footprint is left unchanged; otherwise the marker followed by the result is the text. |
| Footprint.CheckFields | src/Base62x.php:371-382 | `DecodeException` exactly when a non-empty algorithm is not a whitelist key, or a non-empty encoding is not listed under it. |
| Footprint.Sanitize | src/Base62x.php:363-389 | Without a footprint, returns the payload unchanged with a `null` algorithm and encoding. It throws exactly when the checks fail. A returned payload is what follows the marker. An empty encoding becomes `null`. |
| Footprint.FootprintFieldsOf | src/Base62x.php:354-367 | The marker `_createCompressionFootprint` writes is found again and names the same algorithm and encoding. |
| Footprint.SanitizeFootprint | src/Base62x.php:363-389 | For a marker without '/' whose fields pass the checks, stripping `marker + body` gives the body, the algorithm and the encoding (empty becomes `null`). |
| Footprint.UnknownAlgorithmRejected | src/Base62x.php:372-373 | A footprint naming a non-empty algorithm that is not a whitelist key is a `DecodeException`. |
| Footprint.AsWrittenKeys | src/Base62x.php:20 | As written, `gzip` is the only non-empty algorithm the whitelist has as a key. |
| Footprint.HuffmanFootprintRejected | src/Base62x.php:372-373 | As written, a `huffman` footprint is a `DecodeException`, whatever follows it. |
| Footprint.HuffmanFootprintAccepted | src/Base62x.php:363-389 | With `'huffman'` as a key, a `huffman` footprint is stripped and names no encoding. |
| Footprint.HuffmanMarker | src/Base62x.php:356 | The `huffman` marker is `[MFB62X.COMPRESS.aHVmZm1hbiw=]` and holds no '/'. |
| Footprint.SlashFreeMarker | src/Base62x.php:368 | A marker whose base64 values are all below 63 holds no '/', so the removal pattern built from it is well formed. |
| Footprint.GzipMarker | src/Base62x.php:368 | None of the three `gzip` markers holds '/'. |
| Serialized.IsSerializedText | src/Base62x.php:403-457 | After `trim`, `"N;"` is accepted. A text shorter than 4, or whose second character is not ':', is refused. In strict mode the last character must be ';' or '}'. Only texts starting with one of `saObid` can be accepted. |
| Serialized.IsSerializedString | src/Base62x.php:397-402 | Only a string can be accepted. |
| Serialized.CountedText | src/Base62x.php:413-447 | A string, array or object text that matches the count pattern and ends in ';' or '}' (a string's just after '"') passes in both modes. |
| Serialized.NumberText | src/Base62x.php:413-453 | A boolean, integer or float text whose number pattern runs up to its final ';' passes in both modes. |
| Serialized.TextRecognised | src/Base62x.php:403 | A text that passes the checks and has no blank ends is taken for serialized data. |
| Serialized.IntRecognised | src/Base62x.php:397-457 | `serialize($int)` is recognised in both modes. |
| Serialized.BoolRecognised | src/Base62x.php:397-457 | `serialize($bool)` is recognised in both modes. |
| Serialized.StringRecognised | src/Base62x.php:397-457 | `serialize($string)` is recognised in both modes. |
| Serialized.ScalarRecognised | src/Base62x.php:397-457 | The serialized text of `null`, a boolean, an integer or a string is recognised in both modes. |
| Serialized.ArrayRecognised | src/Base62x.php:397-457 | The serialized text of an array is recognised in both modes, whatever its entries. |
| Serialized.PlainTextRejected | src/Base62x.php:433-456 | A text that, once trimmed, is not `N;` and does not start with a serialization token is never taken for serialized data. |
| Pipeline.Serialize | src/Base62x.php:109-111 | `serialize($array)` is at least six characters long and starts with 'a'. |
| Pipeline.CheckPayload | src/Base62x.php:103-114 | `InvalidParam('payload')` exactly for an empty payload, a resource or an object. An array becomes its serialized text. Any other payload is kept, and what is stored is never empty. |
| Pipeline.StringCast | src/Base62x.php:218 | Strings, integers, floats and booleans pass the `string` parameter, a string unchanged; anything else is a `TypeError`. |
| Pipeline.CompressSettings | src/Base62x.php:127-137 | `InvalidParam('algo')` exactly when the algorithm is not a whitelist key. `InvalidParam('encoding')` exactly when the key lists encodings and the encoding is not among them. Otherwise the stored encoding is the given one under a list, and `null` otherwise. |
| Pipeline.Uncompressed | src/Base62x.php:287-299 | An algorithm other than `gzip` or `huffman` passes the payload through. gzip fails exactly when zlib cannot inflate the payload, and inflates zlib's output for an encoding back to the original. |
| Pipeline.Decrypted | src/Base62x.php:325-344 | Without a truthy key and method the payload passes unchanged. With them, a failed decryption gives "", and the cipher's output for some data decrypts back to that data. |
| Pipeline.Compressed | src/Base62x.php:265-282 | A compressed payload is the footprint of the stored algorithm and encoding, followed by a non-empty body. Any algorithm other than `gzip` and `huffman` is an `EncodeException`. |
| Pipeline.Encrypted | src/Base62x.php:306-320 | Without a truthy key and method the payload passes unchanged. With them, the cipher's output is at least two characters, does not start with '[', and `Decrypted` with the same key and method gives the payload back. |
| Pipeline.EncodeText | src/Base62x.php:218-233 | `_encode` never returns an empty text. |
| Pipeline.DecodeText | src/Base62x.php:238-258 | An empty text-decoded payload is a `DecodeException`, and so is a footprint that fails the checks. |
| Pipeline.GetSpec | src/Base62x.php:195-213 | An unknown mode gives `null`, and a successful encode gives a non-empty string. |
| Pipeline.Base62x.Init | src/Base62x.php:99-115 | Stores the mode and the checked payload; every setting starts out `null`. |
| Pipeline.Base62x.Create | src/Base62x.php:99-115 | The constructor throws `InvalidParam('payload')` exactly when `CheckPayload` refuses the payload. Otherwise the new object holds the checked payload and no settings. |
| Pipeline.Base62x.Encode | src/Base62x.php:84-87 | `Base62x::encode` is the constructor in encode mode. |
| Pipeline.Base62x.Decode | src/Base62x.php:94-97 | `Base62x::decode` is the constructor in decode mode. |
| Pipeline.Base62x.Compress | src/Base62x.php:125-143 | The arguments default to `gzip` and `zlib`. On success sets the algorithm and the checked encoding and nothing else. On failure throws the checked error and changes nothing. |
| Pipeline.Base62x.Encrypt | src/Base62x.php:165-178 | The method defaults to `aes-128-ctr`. An unknown lower-cased cipher is a `CryptException`. Otherwise stores the lower-cased method, and the key under `cryptPassword`: `cryptKey` keeps its value. |
| Pipeline.Base62x.Decrypt | src/Base62x.php:185-188 | The same as `encrypt`, with the same default method `aes-128-ctr`. |
| Pipeline.Base62x.EncryptWithKey | src/Base62x.php:165-178 | `encrypt` as intended: the key goes to `cryptKey`, where `_encode` and `_decode` look for it. |
| Pipeline.Base62x.Get | src/Base62x.php:195-213 | `get()` returns `GetSpec` of the object's mode, payload and settings. |
| PipelineProperties.CompressHuffmanRejected | src/Base62x.php:127-128 | As written, `compress('huffman', $e)` throws `InvalidParam('algo')`. |
| PipelineProperties.GzipListed | src/Base62x.php:20 | `gzip` is a key of both whitelists and lists exactly zlib, deflate and gzip. |
| PipelineProperties.CompressDefaults | src/Base62x.php:125-143 | `compress()` with no arguments selects gzip with the zlib encoding, which passes the checks and is stored. |
| PipelineProperties.CompressGzip | src/Base62x.php:130-140 | `compress('gzip', $e)` succeeds exactly for the three listed encodings and stores `$e`. Otherwise it throws `InvalidParam('encoding')`. |
| PipelineProperties.CompressZeroIgnored | src/Base62x.php:125-143 | As written, `compress('0')` passes the key check and stores no encoding, then compresses nothing because "0" is falsy. |
| PipelineProperties.CompressHuffmanIntended | src/Base62x.php:125-143 | With `'huffman'` as a key, `compress('huffman', $e)` succeeds and stores no encoding. |
| PipelineProperties.PlainRoundTrip | src/Base62x.php:218-258 | Without settings, a non-empty payload that does not start with a footprint survives `_decode(_encode($p))`. |
| PipelineProperties.EncryptedRoundTrip | src/Base62x.php:218-258 | With a key and a method set, the encrypted payload survives the text encoder and is decrypted back. |
| PipelineProperties.GzipSanitized | src/Base62x.php:363-389 | Stripping `footprint('gzip', $e) + body` gives the body, `gzip` and `$e`. |
| PipelineProperties.GzipCompressed | src/Base62x.php:265-282 | With gzip set, `_performCompress` puts the gzip footprint in front of zlib's output. |
| PipelineProperties.GzipRoundTrip | src/Base62x.php:218-258 | Encrypt, gzip behind the footprint and text-encode; a decoder with the same key and method gives the payload back for every encoding. |
| PipelineProperties.HuffmanCompressed | src/Base62x.php:265-282 | With Huffman set, `_performCompress` puts the `huffman` footprint in front of `encode($p, createCodeTree($p))`. |
| PipelineProperties.HuffmanRoundTrip | src/Base62x.php:218-258 | With `'huffman'` as a whitelist key, Huffman compression round-trips through the whole pipeline, encryption included. |
| PipelineProperties.HuffmanFootprintDecodeFails | src/Base62x.php:238-246 | As written, any text that decodes to a `huffman` footprint makes `_decode` throw a `DecodeException`. |
| PipelineProperties.MarkerPayloadRejected | src/Base62x.php:218-258 | A payload that itself starts with a footprint naming an unknown algorithm encodes without complaint but cannot be decoded. |
| PipelineProperties.EncryptionSkipped | src/Base62x.php:218-258 | While `cryptKey` is `null`, which is always the case as written, the cipher method changes nothing `get()` returns, in either mode. |
| PipelineProperties.ArrayRoundTrip | src/Base62x.php:195-213 | An array payload is serialized by the constructor and encoded. A decoder of that output returns the array, since its text passes `_isSerializedString`. |
| PipelineProperties.StringRoundTrip | src/Base62x.php:195-213 | A string payload without a footprint comes back from a decoder's `get()` unchanged, unless it looks serialized and unserializes to something other than `false`. |
| PipelineProperties.SerializedTextNotReturned | src/Base62x.php:203-208 | A string payload that is the serialized text of a scalar does not come back as that string: `get()` returns what `unserialize` makes of it. |

## Left out

- `HuffmanNode` (`join`, `getCodeHash`, `isLeaf`, `__toString`, `loadFromString`) is not part of this model.
  - The tree is a datatype following the uses of `HuffmanNode` in the codec.
  - The tree's text format is a pair of function parameters: a writer, and a loader that gives back what follows the tree.
  - Round trips assume `TreeFormatRoundTrip`: the loader reads back the written tree, up to weights, and leaves the rest untouched. They also assume `TreeTextLong`: a tree's text is at least two characters.
- `BitArray` is not part of this model. Bits are grouped eight to a byte, first bit most significant; the in-byte order is a modelling choice.
- HuffmanCoding.CreateCodeTree: the loops in `createCodeTree` and `encode` run to `mb_strlen` but index bytes. The model assumes single-byte characters, so it does not capture multibyte UTF-8 input losing its tail bytes.
- HuffmanCoding.Decode: a loaded tree that is a single byte leaf makes the PHP loop emit that byte forever. The model returns a `NonTermination` error instead.
- HuffmanCoding.Decode: `HuffmanNode::loadFromString` is not part of this model, so what it does with a text that holds no readable tree is unknown. The model treats that case as a `CompressionException` (`MalformedTree`).
- GzipCompression.php (`gzcompress`/`gzdeflate`/`gzencode` and their inverses) is an abstract compressor in `Tools`. `GzipCodec` assumes it round-trips and gives a non-empty text for each listed encoding.
- The OpenSSL cipher (`Crypt`, `Encrypt`, `Decrypt`, the random IV) is an abstract function in `Tools`, with the IV folded into its output. `CipherCodec` assumes decryption undoes encryption and that the output does not start with '['. The exceptions wrapping cipher failures are not modelled.
- The Base62x text encoder (`Encoding\Base62x`) is abstract. `TextCodec` assumes it round-trips and never encodes a non-empty text to "" or "0".
- PHP's `serialize` of an array's entries and `unserialize` are abstract. `SerializeCodec` assumes `unserialize` gives back the serialized array. The serialized text of floats and objects is not spelled out.
- Pipeline.StringCast: the string form of a float is an abstract function.
- Base64.Decode: strict `base64_decode` skips spaces, tabs, carriage returns and line feeds, which the model counts as bad characters. The footprint pattern never captures them, so the pipeline is unaffected.
- Serialized.IsSerializedText: `mb_strlen`, `mb_substr` and `mb_strpos` in `_isSerializedString` count UTF-8 characters, and the model counts bytes. The two agree on valid UTF-8, since the tokens, ':', ';' and '}' are ASCII. They disagree on binary text: for `a:1:{i:0;s:1:"\xF0";}`, PHP reads `\xF0";}` as one character, so the last character is not '}' and the text is refused. The model accepts it.
- Serialized.CountedText: relies on the byte reading of `_isSerializedString`, so in PHP it holds only when the serialized text is valid UTF-8.
- Serialized.StringRecognised: relies on the byte reading of `_isSerializedString`, so in PHP it holds only when the serialized text is valid UTF-8.
- Serialized.ScalarRecognised: relies on the byte reading of `_isSerializedString`, so in PHP it holds only when the serialized text is valid UTF-8.
- Serialized.ArrayRecognised: relies on the byte reading of `_isSerializedString`, so in PHP it holds only when the serialized text is valid UTF-8.
- PipelineProperties.ArrayRoundTrip: in PHP it holds only when the serialized array is valid UTF-8. For an array holding other bytes, PHP's `get()` returns the serialized text itself.
- PipelineProperties.SerializedTextNotReturned: in PHP it holds only when the serialized text is valid UTF-8. A string scalar holding other bytes comes back as its serialized text.
- Php.Find: it gives byte positions, where `mb_strpos` gives UTF-8 character positions. They differ only after a multibyte character, and `Find` is used only by the non-strict branches of `_isSerializedString`, which the pipeline never takes.
- Php.Lower: only ASCII capitals are lowered. `mb_strtolower`'s Unicode case mapping is not modelled (for example 'Ä' to 'ä', or the Kelvin sign to 'k'), so `Pipeline.Base62x.Encrypt` may disagree with PHP on a cipher name holding such characters. OpenSSL cipher names are ASCII.
- Pipeline.Base62x.Encrypt: the `function_exists('openssl_get_cipher_methods')` check is not modelled. The list of ciphers is a parameter.
- `decompress()` is not modelled: it returns the object and does nothing.
- `_performDecryption`'s checks for an empty key are not modelled. `_decode` calls it only when the key and the method are truthy, so those checks never fire.
- Pipeline.GetSpec: the warnings `@unserialize` suppresses are not modelled.
- Footprint.Strip: `preg_replace` is modelled as dropping the matched marker. A marker holding '/' breaks the removal pattern and gives `null`, which the model keeps. The PCRE warning is not modelled.
- Integers are unbounded. `IntText` writes any integer in decimal, and the 64-bit range matters only in `NormalizeKey`.
- Exception messages and the exception classes' formatting are not modelled; an error names the exception class only.

## Findings

| source | as written | input that shows it | evidently intended | confidence | as-written member | corrected member |
|---|---|---|---|---|---|---|
| src/Base62x.php:20 | `['gzip' => [...], 'huffman']` stores `'huffman'` as a value under integer key 0, so `compress('huffman')` throws and a `huffman` footprint is refused on decode | `Base62x::encode('x')->compress('huffman')` | `'huffman'` as a key with no encodings, so Huffman compression round-trips | not executed | PipelineProperties.CompressHuffmanRejected | PipelineProperties.HuffmanRoundTrip |
| src/Base62x.php:175 | `encrypt()` stores the key in `cryptPassword`, while `_encode` and `_decode` test `cryptKey` (lines 220, 253), so no payload is ever encrypted | `Base62x::encode('x')->encrypt('k')->get()` equals `Base62x::encode('x')->get()` | `encrypt()` sets `cryptKey`, so the payload is encrypted and decrypted back | not executed | PipelineProperties.EncryptionSkipped | PipelineProperties.EncryptedRoundTrip |
