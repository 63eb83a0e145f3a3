/**
 * The values of the bencode libraries the nREPL client builds on (bencoding
 * as in BitTorrent Enhancement Proposal 3). Their byte-level encoder and
 * decoder are not part of this model: a request is modelled up to the
 * dict it hands to the encoder, and each read as the object the decoder
 * yields or the error it reports.
 */
module Bencode {
  import opened Utf8
  import opened Ordering

  /** A decoded value: byte string, integer, list, or dict whose entries keep their wire order. */
  datatype Object =
    | BBytes(bytes: seq<byte>)
    | BInt(n: int)
    | BList(items: seq<Object>)
    | Dict(entries: seq<(seq<byte>, Object)>)

  /** What the decoder reports when it cannot produce an object. */
  datatype DecodeError =
    | Malformed(detail: string)
    | ReadTimedOut  // the socket's read timeout elapsed before a whole object arrived

  /** What the encoder reports when it refuses a value. */
  datatype EncodeError = EncodeError(detail: string)

  /** The encoder's error for a dict whose keys are not emitted in strictly ascending order. */
  const UnsortedKeys: EncodeError := EncodeError("dict keys must be unique and in ascending order")

  /** What the encoder makes of a value: the encoded value, or its refusal. */
  datatype Encoding = Encoded(value: Object) | Refused(error: EncodeError)

  /**
   * The encoder's rule for dicts: each key is strictly greater, in byte
   * order, than the key emitted before it, so keys are sorted and unique.
   */
  predicate KeysStrictlyAscend(entries: seq<(seq<byte>, Object)>) {
    forall k :: 0 < k < |entries| ==> BytesLt(entries[k - 1].0, entries[k].0)
  }
}
