# nREPL client protocol core, in Dafny

This project models the protocol layer of a small nREPL client (`src/nrepl.rs`).
nREPL messages are bencode dicts (bencoding as in BitTorrent Enhancement Proposal 3).
The layer has three parts:

- **Request encoding** (`Op::encode`). An operation request is a name plus string
  arguments. It is encoded as one dict. The pair list starts with `("op", name)`,
  then every argument pair. The list is sorted in Rust's tuple order and emitted
  in that order.
- **Response validation** (`read_resp`). One decoded object becomes a response
  map `Resp` from string keys to objects. A dict is converted entry by entry.
  A key that is not UTF-8 gives `BadBencodeString`. A key that repeats an earlier
  one gives `DuplicatedKeyError`. Any other object gives `UnexpectedBencodeObject`,
  and a decoder failure gives `BencodeDecodeError`.
- **The `op` call**. It sends the request once. It then reads responses, appending
  each, and stops right after the first one that has the key `"status"`
  (`is_final_resp`). Any error aborts the call.

Modules:

- `Wrappers` (`wrappers.dfy`): the `Option` type.
- `Utf8` (`utf8.dfy`): the UTF-8 codec of RFC 3629. `Decode` accepts exactly the
  well-formed sequences of section 4 of RFC 3629; it plays `String::from_utf8`.
  `Encode` plays `str::as_bytes`. Both round trips are proved.
- `Bencode` (`bencode.dfy`): the decoded `Object` and the opaque error payloads of
  the bencode libraries.
- `Ordering` (`ordering.dfy`): Rust's order on `(&str, &str)`. Rust's `str`
  compares its UTF-8 bytes. The model compares scalar values, and
  `StrLtIsByteOrder` proves that the two orders agree: UTF-8 preserves code point
  order, as section 1 of RFC 3629 states. The module proves that the order is
  total and that a sorted permutation is unique. It has the insertion sort used as
  the specification (`SortPairs`) and the in-place sort on an array (`SortInPlace`).
- `Nrepl` (`nrepl.dfy`): the `Error` taxonomy, `Op`, encoding, `IsFinal`,
  validation, the read loop, and the `NreplStream` class.

The connection is modelled by what crosses it. `NreplStream.sent` holds the
encoded requests that were written successfully; a request the encoder refuses,
or whose write fails, leaves it unchanged. `NreplStream.inbound` holds, for each read still to come,
the decoder's result: `Decoded(object)` or `DecodeFailed(error)`. Reading when
`inbound` is empty stands for a peer that sends nothing more. The read then ends
with the socket's read timeout, which the decoder reports as an error. The model
writes this as `Silence == BencodeDecodeError(ReadTimedOut)`. Whether the write
fails is the `writeFailure` argument of `SendOp` and `Call`. The encoder refuses a
request with a repeated key (an argument named `"op"`, or an argument name used
twice): the call then fails with `BencodeEncodeError(UnsortedKeys)` and nothing is
written.

The specification function `ReadLoop(wire)` states what `op` returns for a
sequence of reads. `ReadsTaken(wire)` states how many reads it consumes. The
method `NreplStream.Call` (the source's `op`) is proved equal to both. Three lemmas characterise
`ReadLoop` completely: the shape of a success, the converse, and every failure.
`DictToResp` is the specification of the dict conversion. `ValidateResp` is proved
equal to it. Two lemmas characterise `DictToResp`: one for the accepted dicts,
and one for the error the first offending entry produces.

Two facts about the code shape the model:

- `Error::ConnectionLost` (src/nrepl.rs:14) is never constructed. A read that
  times out reaches `op` as the decoder's error wrapped in `BencodeDecodeError`
  (`NonFinalThenSilence`).
- `Op::new` takes a `Vec<(String, String)>`, so `Op.args` may repeat keys. The
  sorted pairs then hold two equal keys side by side, and the encoder, which
  demands that every dict key be strictly greater than the one before, refuses
  the request (`EncoderAcceptsIffDistinctKeys`, `OpArgumentRefused`). Only
  requests with distinct keys are ever sent, which is what `EncodeThenValidate`
  assumes.

## Model

| member | source | states |
|---|---|---|
| `Ordering.SortPairs` | src/nrepl.rs:82 | the sorted pair list is in ascending tuple order (key, then value, each by UTF-8 bytes) and is a permutation of the input, with the same length |
| `Ordering.SortInPlace` | src/nrepl.rs:82 | sorting the vector in place leaves it sorted and a permutation of its old contents; the result equals `SortPairs` of the old contents |
| `Ordering.SortedUnique` | src/nrepl.rs:82 | two sorted sequences with the same multiset of pairs are equal, so the sorted result depends only on what was sorted |
| `Ordering.StrLtIsByteOrder` | src/nrepl.rs:82 | comparing two strings scalar value by scalar value gives the same answer as comparing their UTF-8 bytes, which is how Rust orders `str` |
| `Ordering.PairLeTotal` | src/nrepl.rs:82 | any two pairs are comparable in tuple order; a pair that is not less than another is at least that other |
| `Ordering.PairLeAntisymmetric` | src/nrepl.rs:82 | pairs that are each at most the other are equal |
| `Ordering.PairLeTransitive` | src/nrepl.rs:82 | tuple order is transitive |
| `Ordering.PermutationKeepsDistinctKeys` | src/nrepl.rs:82 | sorting cannot make two pairs share a key |
| `Utf8.DecodeEncode` | src/nrepl.rs:130 | decoding the UTF-8 bytes of any string gives that string back |
| `Utf8.EncodeDecode` | src/nrepl.rs:130 | bytes that decode re-encode to exactly the same bytes |
| `Utf8.DecodeInjective` | src/nrepl.rs:131 | two well-formed keys decode to the same string only if their bytes are equal, so the duplicate check on decoded keys is a check on raw keys |
| `Utf8.EncodeInjective` | src/nrepl.rs:82 | distinct strings have distinct UTF-8 bytes, so the byte order on strings is total |
| `Nrepl.SortedPairsOf` | src/nrepl.rs:74-82 | the pair list pushes `("op", name)` then every argument, and after the sort it is sorted and a permutation of `[("op", name)] + args`: nothing added, nothing dropped |
| `Nrepl.EmitEntries` | src/nrepl.rs:84-86 | the emitting loop produces one dict entry per pair, in the pairs' order, each the key's bytes with the value as a byte string; when some key is not strictly greater in byte order than the one before, the encoder refuses with `UnsortedKeys` instead |
| `Nrepl.Encode` | src/nrepl.rs:72-91 | the request is accepted exactly when no two of its pairs share a key; then the emitted dict is the sorted pairs in order, as key bytes and byte-string values, one entry per pair; otherwise the error is `UnsortedKeys` |
| `Nrepl.EncoderAcceptsIffDistinctKeys` | src/nrepl.rs:82-86 | the sorted entries' keys strictly ascend in byte order if and only if the request's pairs have pairwise distinct keys |
| `Nrepl.OpArgumentRefused` | src/nrepl.rs:76-85 | a request with an argument named `"op"` is refused by the encoder, whatever the name and value |
| `Nrepl.EncodedKeysAscend` | src/nrepl.rs:82-86 | the emitted keys never descend in byte order; when no two pairs share a key they strictly ascend |
| `Nrepl.EncodingIgnoresArgOrder` | src/nrepl.rs:78-82 | two requests whose arguments are permutations of each other encode to the same dict |
| `Nrepl.EncodeThenValidate` | src/nrepl.rs:84-86 | validating the dict of a request with distinct keys gives a map whose keys are `"op"` and the argument names, with `"op"` mapped to the name and each argument name to its value |
| `Nrepl.ReadBack` | src/nrepl.rs:125-137 | any arrangement of pairs with distinct keys, once encoded, validates to the map of those pairs |
| `Nrepl.InfoRequestKeyOrder` | src/nrepl.rs:76-82 | the request `info` with arguments `b=2, a=1` has its pairs in the order `a`, `b`, `op` |
| `Nrepl.FinalRespTest` | src/nrepl.rs:171-183 | `{"status": ""}` is final and `{"foo": ""}` is not |
| `Nrepl.WellKeyedIffNoOffence` | src/nrepl.rs:128-133 | all keys are UTF-8 and pairwise distinct exactly when no entry would stop validation |
| `Nrepl.DictToRespAccepts` | src/nrepl.rs:125-137 | a dict whose keys are all UTF-8 and pairwise distinct converts to a map whose key set is exactly the decoded keys, each mapped to its own value |
| `Nrepl.DictToRespRejects` | src/nrepl.rs:128-133 | the first entry in wire order that has a non-UTF-8 key or repeats an earlier key decides the error: `BadBencodeString` with its bytes, or `DuplicatedKeyError` with the key |
| `Nrepl.DictToRespErrSticks` | src/nrepl.rs:129-133 | once a prefix of the entries fails, the whole dict fails with that same error, whatever follows |
| `Nrepl.ValidateResp` | src/nrepl.rs:125-137 | the loop that decodes each key, rejects bad or repeated ones and inserts the rest computes exactly `DictToResp` |
| `Nrepl.DuplicateStatusRejected` | src/nrepl.rs:131-133 | a dict with two `"status"` entries is rejected with `DuplicatedKeyError("status")` whatever the values; neither value is kept |
| `Nrepl.NreplStream.constructor` | src/nrepl.rs:42-44 | a connected stream starts with nothing sent and the given reads to come |
| `Nrepl.NreplStream.SendOp` | src/nrepl.rs:110-115 | the request is encoded first; a request with a repeated key gives `BencodeEncodeError(UnsortedKeys)` and a write failure gives `IOError`, and neither sends anything; otherwise the encoded dict is sent; reads are untouched |
| `Nrepl.NreplStream.ReadResp` | src/nrepl.rs:117-142 | one read is consumed; a dict converts as `DictToResp`, any other object gives `UnexpectedBencodeObject`, a decoder error gives `BencodeDecodeError`; with nothing left to read the read times out |
| `Nrepl.NreplStream.Call` | src/nrepl.rs:144-161 | a request with a repeated key fails with `BencodeEncodeError(UnsortedKeys)` and a write failure with `IOError`, each with nothing sent and nothing read; otherwise the encoded request is sent, the result is `ReadLoop` of the reads to come, and exactly `ReadsTaken` reads are consumed |
| `Nrepl.ReadLoopSuccess` | src/nrepl.rs:149-160 | on success the responses number at least one and at most the reads available, equal the reads consumed, come in arrival order as the validated reads, end with a final response and hold no earlier final one |
| `Nrepl.ReadLoopStopsAtFirstFinal` | src/nrepl.rs:149-158 | when the first n reads validate and the n-th is the first final one, the call returns exactly those n responses |
| `Nrepl.ReadLoopFails` | src/nrepl.rs:150 | when the first n reads validate as non-final and read n fails or does not exist, the call fails with that read's error or with the read timeout, having consumed n+1 or n reads; no partial sequence is returned |
| `Nrepl.TwoMessageExchange` | src/nrepl.rs:149-158 | messages `{"x": 1}` then `{"status": "done"}` give two responses, only the second final, whatever arrives later |
| `Nrepl.NonFinalThenSilence` | src/nrepl.rs:150 | a lone `{"foo": ""}` followed by silence fails with the read timeout instead of returning the non-final response |

## Left out

- Connection setup (`connect_timeout`, src/nrepl.rs:99-108): the 3 s connect timeout, the 5 s read timeout and blocking mode are operating-system networking. The model starts from a connected stream. The read timeout appears only as the error a read ends with when nothing more arrives.
- Byte-level I/O through `BufWriter` and `BufReader`: a write is recorded as the dict handed to the encoder. A failed write is modelled as sending nothing; a partial write, the ignored byte count of `write` and the flush when the writer is dropped are not modelled.
- `read_resp` builds a fresh `BufReader` for every read. Bytes that reader buffers beyond the one object it decodes are dropped with it. The model delivers exactly one decoded object per read, so this loss is not captured.
- The bencode decoder (`crate::bencode`) and the `bendy` encoder are not part of this model. Their byte formats and the encoder's `MAX_DEPTH` of 3 are out of scope. The one encoder check the model keeps is its dict rule, taken as given: each key must be strictly greater in byte order than the one before. For sorted pairs this refuses exactly the requests with a repeated key; an encoder that rejected only duplicate keys would refuse the same requests. Error payloads (`bendy` errors, `bencode::Error`, `std::io::Error`) are opaque.
- `BadBencodeString` carries the rejected key bytes, not the position of the first invalid byte that `FromUtf8Error` also records.
- The decoder returning no object, which the code turns into a panic through `.expect` (src/nrepl.rs:123): a read outcome cannot express it, so every read yields an object or an error.
- Only the `BBytes` and `Dict` variants of the decoded object are named in the code. The integer and list variants (`BInt`, `BList`) follow the bencode format.
- `to_json_string` (src/nrepl.rs:59-67) and the `Display` implementation of `Error` (src/nrepl.rs:23-40) are diagnostic formatting.
- `Op::new` (src/nrepl.rs:52-54) is the `Op` datatype's constructor; it has no behaviour beyond storing its fields.
- Concurrent use of one stream is not modelled; calls are sequential.
- `src/cmd/find_def.rs` is command-line glue whose `ops` and `session` modules are not part of this model.
