/**
 * The protocol core of the nREPL client: the error taxonomy, the canonical
 * encoding of an operation request as one bencode dict, the validation of one
 * decoded response into a string-keyed map, and `op`, which sends a request
 * and collects responses up to and including the first one that carries the
 * key "status".
 *
 * The connection is modelled by what crosses it: the requests written
 * successfully (`NreplStream.sent`) and, for each read still to come, the
 * object the decoder yields or the error it reports (`NreplStream.inbound`).
 */
module Nrepl {
  import Utf8
  import opened Wrappers
  import opened Bencode
  import opened Ordering

  /** An `std::io::Error`, kept opaque. */
  datatype IoFailure = IoFailure(detail: string)

  /** Every way an nREPL call can fail. */
  datatype Error =
    | ConnectionLost
    | BencodeEncodeError(encodeError: EncodeError)
    | BencodeDecodeError(decodeError: DecodeError)
    | UnexpectedBencodeObject(unexpected: Object)
    | IOError(ioError: IoFailure)
    | BadBencodeString(badKey: seq<Utf8.byte>)  // the key bytes `String::from_utf8` refused
    | DuplicatedKeyError(duplicate: string)

  datatype Result<+T> = Ok(value: T) | Err(error: Error)

  /** An operation request: its name and its string arguments, in the caller's order. */
  datatype Op = Op(name: string, args: seq<Pair>)

  /** One response: each key of the received dict, decoded, mapped to its value. */
  type Resp = map<string, Object>

  // ---------------------------------------------------------------------------
  // Request encoding

  /** The pairs `encode` collects before sorting: ("op", name), then the arguments. */
  function RequestPairs(op: Op): (r: seq<Pair>) {
    [("op", op.name)] + op.args
  }

  /** One dict entry as handed to the encoder: the key's bytes and the value as a byte string. */
  function Entry(p: Pair): (r: (seq<Utf8.byte>, Object)) {
    (Utf8.Encode(p.0), BBytes(Utf8.Encode(p.1)))
  }

  function Entries(ps: seq<Pair>): (r: seq<(seq<Utf8.byte>, Object)>)
    ensures |r| == |ps|
  {
    seq(|ps|, i requires 0 <= i < |ps| => Entry(ps[i]))
  }

  /** The dict a request is encoded as: its pairs in sorted order. */
  function EncodedRequest(op: Op): (r: Object) {
    Dict(Entries(SortPairs(RequestPairs(op))))
  }

  /**
   * The pair list of `encode`: ("op", name) pushed first, each argument
   * pushed after it, then the whole vector sorted in place.
   */
  method SortedPairsOf(op: Op) returns (pairs: seq<Pair>)
    ensures Sorted(pairs) && multiset(pairs) == multiset(RequestPairs(op))
    ensures pairs == SortPairs(RequestPairs(op))
  {
    var a := new Pair[|op.args| + 1];
    a[0] := ("op", op.name);
    var i := 0;
    while i < |op.args|
      invariant 0 <= i <= |op.args|
      invariant a[..i + 1] == RequestPairs(op)[..i + 1]
    {
      a[i + 1] := op.args[i];
      i := i + 1;
    }
    assert a[..] == RequestPairs(op);
    SortInPlace(a);
    pairs := a[..];
  }

  /** A key greater than the last one keeps the keys strictly ascending. */
  lemma AscendingSnoc(entries: seq<(seq<Utf8.byte>, Object)>, entry: (seq<Utf8.byte>, Object))
    requires KeysStrictlyAscend(entries)
    requires |entries| == 0 || BytesLt(entries[|entries| - 1].0, entry.0)
    ensures KeysStrictlyAscend(entries + [entry])
  {
    var es := entries + [entry];
    assert forall k :: 0 <= k < |entries| ==> es[k] == entries[k];
  }

  /** A key that is not greater than the one before it breaks the encoder's rule. */
  lemma RefusedAt(entries: seq<(seq<Utf8.byte>, Object)>, i: nat)
    requires 0 < i < |entries| && !BytesLt(entries[i - 1].0, entries[i].0)
    ensures !KeysStrictlyAscend(entries)
  {
  }

  /**
   * The emitting loop of `encode`: one dict entry per pair, in the order
   * given. The encoder refuses a key that is not strictly greater than the
   * one before it, and the `?` then abandons the dict.
   */
  method EmitEntries(pairs: seq<Pair>) returns (r: Encoding)
    ensures KeysStrictlyAscend(Entries(pairs)) ==> r == Encoded(Dict(Entries(pairs)))
    ensures !KeysStrictlyAscend(Entries(pairs)) ==> r == Refused(UnsortedKeys)
  {
    var entries: seq<(seq<Utf8.byte>, Object)> := [];
    var i := 0;
    while i < |pairs|
      invariant 0 <= i <= |pairs| && |entries| == i
      invariant forall k :: 0 <= k < i ==> entries[k] == Entry(pairs[k])
      invariant KeysStrictlyAscend(entries)
    {
      var entry := Entry(pairs[i]);
      if i > 0 && !BytesLt(entries[i - 1].0, entry.0) {
        RefusedAt(Entries(pairs), i);
        return Refused(UnsortedKeys);
      }
      AscendingSnoc(entries, entry);
      entries := entries + [entry];
      i := i + 1;
    }
    assert entries == Entries(pairs);
    r := Encoded(Dict(entries));
  }

  /**
   * `encode`: emit the sorted pairs, in order, as the entries of one dict.
   * The encoder accepts exactly the requests in which no key repeats.
   */
  method Encode(op: Op) returns (r: Encoding)
    ensures r.Encoded? <==> DistinctKeys(RequestPairs(op))
    ensures r.Encoded? ==> r.value == EncodedRequest(op) && |r.value.entries| == |op.args| + 1
    ensures r.Refused? ==> r.error == UnsortedKeys
  {
    var pairs := SortedPairsOf(op);
    r := EmitEntries(pairs);
    EncoderAcceptsIffDistinctKeys(op);
  }

  /** Entries whose keys ascend step by step ascend between any two positions. */
  lemma {:induction false} StrictlyAscendingKeysAreOrdered(es: seq<(seq<Utf8.byte>, Object)>, i: nat, j: nat)
    requires KeysStrictlyAscend(es) && i < j < |es|
    ensures BytesLt(es[i].0, es[j].0)
    decreases j - i
  {
    if i + 1 < j {
      StrictlyAscendingKeysAreOrdered(es, i + 1, j);
      BytesLtTransitive(es[i].0, es[i + 1].0, es[j].0);
    }
  }

  /**
   * The encoder accepts the dict of a request exactly when no two of the
   * request's pairs share a key: the pairs are sorted, so a key that fails
   * to ascend is a repeated key.
   */
  lemma EncoderAcceptsIffDistinctKeys(op: Op)
    ensures KeysStrictlyAscend(EncodedRequest(op).entries) <==> DistinctKeys(RequestPairs(op))
  {
    var ps := SortPairs(RequestPairs(op));
    var es := EncodedRequest(op).entries;
    EncodedKeysAscend(op);
    if KeysStrictlyAscend(es) {
      forall i, j | 0 <= i < j < |ps| ensures ps[i].0 != ps[j].0 {
        StrictlyAscendingKeysAreOrdered(es, i, j);
        BytesLtIrreflexive(es[i].0);
      }
      PermutationKeepsDistinctKeys(ps, RequestPairs(op));
    }
  }

  /** The entries of sorted pairs have keys non-decreasing in byte order, strictly when the keys are distinct. */
  lemma SortedEntriesAscend(ps: seq<Pair>)
    requires Sorted(ps)
    ensures var es := Entries(ps);
      (forall i, j :: 0 <= i < j < |es| ==> es[i].0 == es[j].0 || BytesLt(es[i].0, es[j].0))
      && (DistinctKeys(ps) ==> forall i, j :: 0 <= i < j < |es| ==> BytesLt(es[i].0, es[j].0))
  {
    var es := Entries(ps);
    forall i, j | 0 <= i < j < |es| ensures es[i].0 == es[j].0 || BytesLt(es[i].0, es[j].0) {
      assert PairLe(ps[i], ps[j]);
      StrLtIsByteOrder(ps[i].0, ps[j].0);
    }
    if DistinctKeys(ps) {
      forall i, j | 0 <= i < j < |es| ensures BytesLt(es[i].0, es[j].0) {
        assert PairLe(ps[i], ps[j]) && ps[i].0 != ps[j].0;
        StrLtIsByteOrder(ps[i].0, ps[j].0);
      }
    }
  }

  /**
   * The encoded dict's keys are non-decreasing in byte order, and strictly
   * ascending when no two of the request's pairs share a key.
   */
  lemma EncodedKeysAscend(op: Op)
    ensures var es := EncodedRequest(op).entries;
      (forall i, j :: 0 <= i < j < |es| ==> es[i].0 == es[j].0 || BytesLt(es[i].0, es[j].0))
      && (DistinctKeys(RequestPairs(op)) ==>
            forall i, j :: 0 <= i < j < |es| ==> BytesLt(es[i].0, es[j].0))
  {
    var ps := SortPairs(RequestPairs(op));
    if DistinctKeys(RequestPairs(op)) {
      PermutationKeepsDistinctKeys(RequestPairs(op), ps);
    }
    SortedEntriesAscend(ps);
  }

  /** A request with an argument named "op" repeats that key, so the encoder refuses it. */
  lemma OpArgumentRefused(name: string, value: string)
    ensures !KeysStrictlyAscend(EncodedRequest(Op(name, [("op", value)])).entries)
  {
    var ps := RequestPairs(Op(name, [("op", value)]));
    assert ps[0].0 == ps[1].0;
    EncoderAcceptsIffDistinctKeys(Op(name, [("op", value)]));
  }

  /** Requests that differ only in the order of their arguments encode identically. */
  lemma EncodingIgnoresArgOrder(name: string, args1: seq<Pair>, args2: seq<Pair>)
    requires multiset(args1) == multiset(args2)
    ensures EncodedRequest(Op(name, args1)) == EncodedRequest(Op(name, args2))
  {
    var p1, p2 := RequestPairs(Op(name, args1)), RequestPairs(Op(name, args2));
    assert multiset(p1) == multiset(p2);
    SortedUnique(SortPairs(p1), SortPairs(p2));
  }

  // ---------------------------------------------------------------------------
  // Response validation

  /** `is_final_resp`: a response ends the exchange when it has the key "status", whatever its value. */
  predicate IsFinal(resp: Resp) {
    "status" in resp
  }

  /**
   * The dict-to-map conversion of `read_resp`, entry by entry in wire order:
   * the first key that is not UTF-8 or that decodes to a key already taken
   * stops it with the matching error.
   */
  function DictToResp(entries: seq<(seq<Utf8.byte>, Object)>): (r: Result<Resp>)
    decreases |entries|
  {
    if |entries| == 0 then Ok(map[])
    else
      var n := |entries| - 1;
      match DictToResp(entries[..n])
      case Err(e) => Err(e)
      case Ok(resp) =>
        match Utf8.Decode(entries[n].0)
        case None => Err(BadBencodeString(entries[n].0))
        case Some(key) =>
          if key in resp then Err(DuplicatedKeyError(key)) else Ok(resp[key := entries[n].1])
  }

  /** Entry `j` stops validation: its key is not UTF-8, or decodes to an earlier entry's key. */
  ghost predicate Offends(entries: seq<(seq<Utf8.byte>, Object)>, j: nat)
    requires j < |entries|
  {
    Utf8.Decode(entries[j].0).None?
    || exists i :: 0 <= i < j && Utf8.Decode(entries[i].0) == Utf8.Decode(entries[j].0)
  }

  /** The error an offending entry is reported with. */
  function OffenceError(entries: seq<(seq<Utf8.byte>, Object)>, j: nat): (r: Error)
    requires j < |entries|
  {
    match Utf8.Decode(entries[j].0)
    case None => BadBencodeString(entries[j].0)
    case Some(key) => DuplicatedKeyError(key)
  }

  /** The decoded keys of the entries whose keys are UTF-8. */
  ghost function DecodedKeys(entries: seq<(seq<Utf8.byte>, Object)>): (r: set<string>) {
    set j | 0 <= j < |entries| && Utf8.Decode(entries[j].0).Some? :: Utf8.Decode(entries[j].0).value
  }

  lemma OffendsInPrefix(entries: seq<(seq<Utf8.byte>, Object)>, n: nat, j: nat)
    requires j < n <= |entries|
    ensures Offends(entries[..n], j) == Offends(entries, j)
  {
    var p := entries[..n];
    assert forall i :: 0 <= i <= j ==> p[i] == entries[i];
  }

  /** All keys are UTF-8 and no two decode to the same key. */
  ghost predicate WellKeyed(entries: seq<(seq<Utf8.byte>, Object)>) {
    (forall j :: 0 <= j < |entries| ==> Utf8.Decode(entries[j].0).Some?)
    && (forall i, j :: 0 <= i < j < |entries| ==> Utf8.Decode(entries[i].0) != Utf8.Decode(entries[j].0))
  }

  lemma WellKeyedIffNoOffence(entries: seq<(seq<Utf8.byte>, Object)>)
    ensures WellKeyed(entries) <==> forall j :: 0 <= j < |entries| ==> !Offends(entries, j)
  {
    if forall j :: 0 <= j < |entries| ==> !Offends(entries, j) {
      forall j | 0 <= j < |entries| ensures Utf8.Decode(entries[j].0).Some? {
        assert !Offends(entries, j);
      }
      forall i, j | 0 <= i < j < |entries| ensures Utf8.Decode(entries[i].0) != Utf8.Decode(entries[j].0) {
        assert !Offends(entries, j);
      }
    }
    if WellKeyed(entries) {
      forall j | 0 <= j < |entries| ensures !Offends(entries, j) {
        assert forall i :: 0 <= i < j ==> Utf8.Decode(entries[i].0) != Utf8.Decode(entries[j].0);
      }
    }
  }

  lemma DecodedKeysSnoc(entries: seq<(seq<Utf8.byte>, Object)>)
    requires |entries| > 0 && Utf8.Decode(entries[|entries| - 1].0).Some?
    ensures DecodedKeys(entries)
         == DecodedKeys(entries[..|entries| - 1]) + {Utf8.Decode(entries[|entries| - 1].0).value}
  {
    var n := |entries| - 1;
    var init := entries[..n];
    forall k | k in DecodedKeys(entries) ensures k in DecodedKeys(init) + {Utf8.Decode(entries[n].0).value} {
      var j :| 0 <= j < |entries| && Utf8.Decode(entries[j].0).Some? && Utf8.Decode(entries[j].0).value == k;
      if j < n {
        assert init[j] == entries[j];
      }
    }
    forall k | k in DecodedKeys(init) ensures k in DecodedKeys(entries) {
      var j :| 0 <= j < n && Utf8.Decode(init[j].0).Some? && Utf8.Decode(init[j].0).value == k;
      assert init[j] == entries[j];
    }
  }

  lemma WellKeyedPrefix(entries: seq<(seq<Utf8.byte>, Object)>, n: nat)
    requires WellKeyed(entries) && n <= |entries|
    ensures WellKeyed(entries[..n])
  {
    assert forall j :: 0 <= j < n ==> entries[..n][j] == entries[j];
  }

  /** In a well-keyed dict the last key is none of the keys before it. */
  lemma LastKeyIsNew(entries: seq<(seq<Utf8.byte>, Object)>)
    requires |entries| > 0 && WellKeyed(entries)
    ensures Utf8.Decode(entries[|entries| - 1].0).value !in DecodedKeys(entries[..|entries| - 1])
  {
    var n := |entries| - 1;
    var init := entries[..n];
    forall j | 0 <= j < n ensures Utf8.Decode(init[j].0) != Utf8.Decode(entries[n].0) {
      assert init[j] == entries[j];
    }
  }

  /** A new UTF-8 key at the end adds one entry to the map of the entries before it. */
  lemma DictToRespSnoc(entries: seq<(seq<Utf8.byte>, Object)>, m: Resp, key: string)
    requires |entries| > 0 && DictToResp(entries[..|entries| - 1]) == Ok(m)
    requires Utf8.Decode(entries[|entries| - 1].0) == Some(key) && key !in m
    ensures DictToResp(entries) == Ok(m[key := entries[|entries| - 1].1])
  {
  }

  /** A well-keyed dict converts, and the map's keys are exactly the decoded keys. */
  lemma {:induction false} DictToRespKeys(entries: seq<(seq<Utf8.byte>, Object)>)
    requires WellKeyed(entries)
    ensures DictToResp(entries).Ok? && DictToResp(entries).value.Keys == DecodedKeys(entries)
    decreases |entries|
  {
    if |entries| > 0 {
      var n := |entries| - 1;
      WellKeyedPrefix(entries, n);
      DictToRespKeys(entries[..n]);
      LastKeyIsNew(entries);
      DictToRespSnoc(entries, DictToResp(entries[..n]).value, Utf8.Decode(entries[n].0).value);
      DecodedKeysSnoc(entries);
    }
  }

  /** In the map of a well-keyed dict, the key of entry `j` holds the value of entry `j`. */
  lemma {:induction false} DictToRespValue(entries: seq<(seq<Utf8.byte>, Object)>, j: nat)
    requires WellKeyed(entries) && j < |entries|
    ensures DictToResp(entries).Ok? && Utf8.Decode(entries[j].0).value in DictToResp(entries).value
    ensures DictToResp(entries).value[Utf8.Decode(entries[j].0).value] == entries[j].1
    decreases |entries|
  {
    var n := |entries| - 1;
    var init := entries[..n];
    WellKeyedPrefix(entries, n);
    DictToRespKeys(entries);
    DictToRespKeys(init);
    LastKeyIsNew(entries);
    DictToRespSnoc(entries, DictToResp(init).value, Utf8.Decode(entries[n].0).value);
    if j < n {
      DictToRespValue(init, j);
      assert init[j] == entries[j];
      assert Utf8.Decode(entries[j].0) != Utf8.Decode(entries[n].0);
    }
  }

  /**
   * A dict whose keys are all UTF-8 and pairwise distinct becomes a map whose
   * keys are exactly the decoded keys, each mapped to its own value.
   */
  lemma DictToRespAccepts(entries: seq<(seq<Utf8.byte>, Object)>)
    requires WellKeyed(entries)
    ensures DictToResp(entries).Ok?
    ensures DictToResp(entries).value.Keys == DecodedKeys(entries)
    ensures forall j :: 0 <= j < |entries| ==>
      DictToResp(entries).value[Utf8.Decode(entries[j].0).value] == entries[j].1
  {
    DictToRespKeys(entries);
    forall j | 0 <= j < |entries|
      ensures DictToResp(entries).value[Utf8.Decode(entries[j].0).value] == entries[j].1
    {
      DictToRespValue(entries, j);
    }
  }

  /**
   * When entry `j` is the first to offend, validation fails with its error:
   * `BadBencodeString` for a key that is not UTF-8, `DuplicatedKeyError` for
   * one that repeats an earlier key.
   */
  lemma {:induction false} DictToRespRejects(entries: seq<(seq<Utf8.byte>, Object)>, j: nat)
    requires j < |entries| && Offends(entries, j)
    requires forall i :: 0 <= i < j ==> !Offends(entries, i)
    ensures DictToResp(entries) == Err(OffenceError(entries, j))
    decreases |entries|
  {
    var n := |entries| - 1;
    var init := entries[..n];
    if j < n {
      OffendsInPrefix(entries, n, j);
      forall i | 0 <= i < j ensures !Offends(init, i) {
        OffendsInPrefix(entries, n, i);
      }
      DictToRespRejects(init, j);
    } else {
      forall i | 0 <= i < n ensures !Offends(init, i) {
        OffendsInPrefix(entries, n, i);
      }
      WellKeyedIffNoOffence(init);
      DictToRespAccepts(init);
      if Utf8.Decode(entries[n].0).Some? {
        var i :| 0 <= i < n && Utf8.Decode(entries[i].0) == Utf8.Decode(entries[n].0);
        assert init[i] == entries[i];
        assert Utf8.Decode(entries[n].0).value in DecodedKeys(init);
      }
    }
  }

  /** Once a prefix of the entries fails, the whole dict fails with the same error. */
  lemma {:induction false} DictToRespErrSticks(entries: seq<(seq<Utf8.byte>, Object)>, i: nat)
    requires i <= |entries| && DictToResp(entries[..i]).Err?
    ensures DictToResp(entries) == DictToResp(entries[..i])
    decreases |entries|
  {
    if i < |entries| {
      var n := |entries| - 1;
      assert entries[..n][..i] == entries[..i];
      DictToRespErrSticks(entries[..n], i);
    } else {
      assert entries[..i] == entries;
    }
  }

  /**
   * The loop of `read_resp` over a received dict: decode each key, reject it
   * if it is not UTF-8 or already present, else insert it.
   */
  method ValidateResp(entries: seq<(seq<Utf8.byte>, Object)>) returns (r: Result<Resp>)
    ensures r == DictToResp(entries)
  {
    var resp: Resp := map[];
    var i := 0;
    while i < |entries|
      invariant 0 <= i <= |entries|
      invariant DictToResp(entries[..i]) == Ok(resp)
    {
      var (k, v) := entries[i];
      assert entries[..i + 1][..i] == entries[..i];
      var key := Utf8.Decode(k);
      if key.None? {
        DictToRespErrSticks(entries, i + 1);
        return Err(BadBencodeString(k));
      }
      if key.value in resp {
        DictToRespErrSticks(entries, i + 1);
        return Err(DuplicatedKeyError(key.value));
      }
      resp := resp[key.value := v];
      i := i + 1;
    }
    assert entries[..i] == entries;
    r := Ok(resp);
  }

  /** What one read from the connection yields: a decoded object, or the decoder's error. */
  datatype ReadOutcome = Decoded(obj: Object) | DecodeFailed(failure: DecodeError)

  /** The response `read_resp` makes of one read. */
  function RespOf(outcome: ReadOutcome): (r: Result<Resp>) {
    match outcome
    case Decoded(Dict(entries)) => DictToResp(entries)
    case Decoded(other) => Err(UnexpectedBencodeObject(other))
    case DecodeFailed(e) => Err(BencodeDecodeError(e))
  }

  /** The encoded entries of a request with distinct keys decode back to those keys, all distinct. */
  lemma EncodedEntriesWellKeyed(ps: seq<Pair>)
    requires DistinctKeys(ps)
    ensures WellKeyed(Entries(ps))
    ensures forall j :: 0 <= j < |ps| ==> Utf8.Decode(Entries(ps)[j].0) == Some(ps[j].0)
  {
    var es := Entries(ps);
    forall j | 0 <= j < |ps| ensures Utf8.Decode(es[j].0) == Some(ps[j].0) {
      Utf8.DecodeEncode(ps[j].0);
    }
    forall i, j | 0 <= i < j < |es| ensures Utf8.Decode(es[i].0) != Utf8.Decode(es[j].0) {
      assert ps[i].0 != ps[j].0;
    }
  }

  /**
   * Reading back an encoded request whose keys are distinct yields the map
   * from each of its keys to its value: "op" to the name, and each argument
   * name to its argument.
   */
  lemma EncodeThenValidate(op: Op)
    requires DistinctKeys(RequestPairs(op))
    ensures DictToResp(EncodedRequest(op).entries).Ok?
    ensures var m := DictToResp(EncodedRequest(op).entries).value;
      m.Keys == (set p | p in RequestPairs(op) :: p.0)
      && m["op"] == BBytes(Utf8.Encode(op.name))
      && forall p :: p in op.args ==> m[p.0] == BBytes(Utf8.Encode(p.1))
  {
    var qs := RequestPairs(op);
    ReadBack(qs, SortPairs(qs));
    assert qs[0] == ("op", op.name);
    forall p | p in op.args ensures p in qs {
      var k :| 0 <= k < |op.args| && op.args[k] == p;
      assert qs[k + 1] == p;
    }
  }

  /** Any arrangement `ps` of pairs `qs` with distinct keys reads back as the map of `qs`. */
  lemma ReadBack(qs: seq<Pair>, ps: seq<Pair>)
    requires multiset(ps) == multiset(qs) && DistinctKeys(qs)
    ensures DictToResp(Entries(ps)).Ok?
    ensures DictToResp(Entries(ps)).value.Keys == (set p | p in qs :: p.0)
    ensures forall p :: p in qs ==> DictToResp(Entries(ps)).value[p.0] == BBytes(Utf8.Encode(p.1))
  {
    var es := Entries(ps);
    PermutationKeepsDistinctKeys(qs, ps);
    EncodedEntriesWellKeyed(ps);
    DictToRespAccepts(es);
    var m := DictToResp(es).value;
    ReadBackValues(qs, ps, m);
    ReadBackKeys(qs, ps, m);
  }

  lemma ReadBackValues(qs: seq<Pair>, ps: seq<Pair>, m: Resp)
    requires multiset(ps) == multiset(qs)
    requires forall j :: 0 <= j < |ps| ==> Utf8.Decode(Entries(ps)[j].0) == Some(ps[j].0)
    requires forall j :: 0 <= j < |ps| ==> (Utf8.Decode(Entries(ps)[j].0).value in m
                                        && m[Utf8.Decode(Entries(ps)[j].0).value] == Entries(ps)[j].1)
    ensures forall p :: p in qs ==> p.0 in m && m[p.0] == BBytes(Utf8.Encode(p.1))
  {
    forall p | p in qs ensures p.0 in m && m[p.0] == BBytes(Utf8.Encode(p.1)) {
      assert p in multiset(ps);
      var j :| 0 <= j < |ps| && ps[j] == p;
      assert Utf8.Decode(Entries(ps)[j].0).value == p.0;
    }
  }

  lemma ReadBackKeys(qs: seq<Pair>, ps: seq<Pair>, m: Resp)
    requires multiset(ps) == multiset(qs)
    requires forall j :: 0 <= j < |ps| ==> Utf8.Decode(Entries(ps)[j].0) == Some(ps[j].0)
    requires m.Keys == DecodedKeys(Entries(ps))
    ensures m.Keys == (set p | p in qs :: p.0)
  {
    var es := Entries(ps);
    forall k | k in m ensures k in (set p | p in qs :: p.0) {
      var j :| 0 <= j < |es| && Utf8.Decode(es[j].0).Some? && Utf8.Decode(es[j].0).value == k;
      assert ps[j] in multiset(qs);
    }
    forall p | p in qs ensures p.0 in m {
      assert p in multiset(ps);
      var j :| 0 <= j < |ps| && ps[j] == p;
      assert Utf8.Decode(es[j].0).value == p.0;
    }
  }

  /** The example of an "info" request: its keys are emitted in the order a, b, op. */
  lemma InfoRequestKeyOrder()
    ensures SortPairs(RequestPairs(Op("info", [("b", "2"), ("a", "1")])))
         == [("a", "1"), ("b", "2"), ("op", "info")]
  {
    var expected := [("a", "1"), ("b", "2"), ("op", "info")];
    assert PairLt(("a", "1"), ("b", "2")) && PairLt(("b", "2"), ("op", "info"));
    PairLeTransitive(("a", "1"), ("b", "2"), ("op", "info"));
    SortedPermutationIsSortPairs(RequestPairs(Op("info", [("b", "2"), ("a", "1")])), expected);
  }

  /** `final_resp_test`: {"status": ""} is final and {"foo": ""} is not. */
  lemma FinalRespTest()
    ensures IsFinal(map["status" := BBytes([])])
    ensures !IsFinal(map["foo" := BBytes([])])
  {
  }

  /** A dict with two entries for "status" is rejected, whatever their values; neither is kept. */
  lemma DuplicateStatusRejected(first: Object, second: Object)
    ensures DictToResp([(Utf8.Encode("status"), first), (Utf8.Encode("status"), second)])
         == Err(DuplicatedKeyError("status"))
  {
    var entries := [(Utf8.Encode("status"), first), (Utf8.Encode("status"), second)];
    Utf8.DecodeEncode("status");
    assert entries[..1][..0] == [];
    assert DictToResp(entries[..1]) == Ok(map["status" := first]);
  }

  // ---------------------------------------------------------------------------
  // The read loop of `op`

  /** The error a read reports when nothing more arrives before the read timeout. */
  const Silence: Error := BencodeDecodeError(ReadTimedOut)

  /**
   * The responses `op` returns when the reads yield `wire`: each read is
   * validated and appended, the first response carrying "status" ends the
   * loop, and the first error, or running out of reads, fails the call.
   */
  function ReadLoop(wire: seq<ReadOutcome>): (r: Result<seq<Resp>>)
    decreases |wire|
  {
    if |wire| == 0 then Err(Silence)
    else match RespOf(wire[0])
      case Err(e) => Err(e)
      case Ok(resp) =>
        if IsFinal(resp) then Ok([resp])
        else match ReadLoop(wire[1..])
          case Err(e) => Err(e)
          case Ok(rest) => Ok([resp] + rest)
  }

  /** How many reads that loop consumes. */
  function ReadsTaken(wire: seq<ReadOutcome>): (n: nat)
    ensures n <= |wire|
    decreases |wire|
  {
    if |wire| == 0 then 0
    else if RespOf(wire[0]).Err? || IsFinal(RespOf(wire[0]).value) then 1
    else 1 + ReadsTaken(wire[1..])
  }

  /** `r` with `done` in front of its responses. */
  function Prepend(done: seq<Resp>, r: Result<seq<Resp>>): (res: Result<seq<Resp>>) {
    match r
    case Ok(rest) => Ok(done + rest)
    case Err(e) => Err(e)
  }

  lemma PrependNothing(r: Result<seq<Resp>>)
    ensures Prepend([], r) == r
  {
    if r.Ok? {
      assert [] + r.value == r.value;
    }
  }

  lemma PrependTwice(done: seq<Resp>, more: seq<Resp>, r: Result<seq<Resp>>)
    ensures Prepend(done, Prepend(more, r)) == Prepend(done + more, r)
  {
    if r.Ok? {
      assert done + (more + r.value) == (done + more) + r.value;
    }
  }

  /**
   * A successful call returns at least one response, in arrival order, one per
   * read consumed; the last carries "status" and no earlier one does.
   */
  lemma {:induction false} ReadLoopSuccess(wire: seq<ReadOutcome>)
    requires ReadLoop(wire).Ok?
    ensures var rs := ReadLoop(wire).value;
      1 <= |rs| == ReadsTaken(wire) <= |wire|
      && IsFinal(rs[|rs| - 1])
      && (forall i :: 0 <= i < |rs| - 1 ==> !IsFinal(rs[i]))
      && (forall i :: 0 <= i < |rs| ==> RespOf(wire[i]) == Ok(rs[i]))
    decreases |wire|
  {
    var resp := RespOf(wire[0]).value;
    if !IsFinal(resp) {
      ReadLoopSuccess(wire[1..]);
      var rest := ReadLoop(wire[1..]).value;
      var rs := ReadLoop(wire).value;
      assert rs == [resp] + rest;
      forall i | 0 < i < |rs| ensures RespOf(wire[i]) == Ok(rs[i]) {
        assert wire[1..][i - 1] == wire[i];
      }
    }
  }

  /**
   * Conversely, when the first `n` reads are valid responses and the n-th is
   * the first carrying "status", the call returns exactly those `n`.
   */
  lemma {:induction false} ReadLoopStopsAtFirstFinal(wire: seq<ReadOutcome>, n: nat)
    requires 0 < n <= |wire|
    requires forall i :: 0 <= i < n ==> RespOf(wire[i]).Ok?
    requires forall i :: 0 <= i < n - 1 ==> !IsFinal(RespOf(wire[i]).value)
    requires IsFinal(RespOf(wire[n - 1]).value)
    ensures ReadLoop(wire).Ok? && |ReadLoop(wire).value| == n
    ensures forall i :: 0 <= i < n ==> ReadLoop(wire).value[i] == RespOf(wire[i]).value
    decreases n
  {
    if n > 1 {
      var tail := wire[1..];
      assert forall i :: 0 <= i < n - 1 ==> tail[i] == wire[i + 1];
      ReadLoopStopsAtFirstFinal(tail, n - 1);
      assert ReadLoop(wire).value == [RespOf(wire[0]).value] + ReadLoop(tail).value;
    }
  }

  /**
   * When the first `n` reads are valid responses without "status" and read `n`
   * fails, or there is no read `n`, the call fails with that read's error, or
   * with the read timeout; no partial sequence is returned.
   */
  lemma {:induction false} ReadLoopFails(wire: seq<ReadOutcome>, n: nat)
    requires n <= |wire|
    requires forall i :: 0 <= i < n ==> RespOf(wire[i]).Ok? && !IsFinal(RespOf(wire[i]).value)
    requires n == |wire| || RespOf(wire[n]).Err?
    ensures ReadLoop(wire) == Err(if n == |wire| then Silence else RespOf(wire[n]).error)
    ensures ReadsTaken(wire) == if n == |wire| then n else n + 1
    decreases n
  {
    if n > 0 {
      var tail := wire[1..];
      assert forall i :: 0 <= i < n - 1 ==> tail[i] == wire[i + 1];
      assert n < |wire| ==> tail[n - 1] == wire[n];
      ReadLoopFails(tail, n - 1);
    }
  }

  // ---------------------------------------------------------------------------
  // The connection

  class NreplStream {
    /** The requests written so far, oldest first. */
    var sent: seq<Object>
    /** For each read still to come, in arrival order, what the decoder yields. */
    var inbound: seq<ReadOutcome>

    /** A connected stream whose peer will deliver `incoming`. */
    constructor (incoming: seq<ReadOutcome>)
      ensures sent == [] && inbound == incoming
    {
      sent := [];
      inbound := incoming;
    }

    /**
     * `send_op`: encode the request, then write it. The encoder refuses a
     * request in which a key repeats; `writeFailure` is what the write meets,
     * if anything. Either failure leaves `sent` as it was.
     */
    method SendOp(op: Op, writeFailure: Option<IoFailure>) returns (r: Result<()>)
      modifies this
      ensures inbound == old(inbound)
      ensures !DistinctKeys(RequestPairs(op)) ==> r == Err(BencodeEncodeError(UnsortedKeys)) && sent == old(sent)
      ensures DistinctKeys(RequestPairs(op)) && writeFailure.Some? ==>
        r == Err(IOError(writeFailure.value)) && sent == old(sent)
      ensures DistinctKeys(RequestPairs(op)) && writeFailure.None? ==>
        r == Ok(()) && sent == old(sent) + [EncodedRequest(op)]
    {
      var encoding := Encode(op);
      if encoding.Refused? {
        return Err(BencodeEncodeError(encoding.error));
      }
      if writeFailure.Some? {
        return Err(IOError(writeFailure.value));
      }
      sent := sent + [encoding.value];
      r := Ok(());
    }

    /**
     * `read_resp`: take the next read and turn it into a response. A dict is
     * validated; any other object is unexpected; a decoder error is passed on.
     * With nothing left to read, the read times out.
     */
    method ReadResp() returns (r: Result<Resp>)
      modifies this
      ensures sent == old(sent)
      ensures old(inbound) == [] ==> r == Err(Silence) && inbound == []
      ensures old(inbound) != [] ==> inbound == old(inbound)[1..]
      ensures old(inbound) != [] && old(inbound)[0].DecodeFailed? ==>
        r == Err(BencodeDecodeError(old(inbound)[0].failure))
      ensures old(inbound) != [] && old(inbound)[0].Decoded? && !old(inbound)[0].obj.Dict? ==>
        r == Err(UnexpectedBencodeObject(old(inbound)[0].obj))
      ensures old(inbound) != [] && old(inbound)[0].Decoded? && old(inbound)[0].obj.Dict? ==>
        r == DictToResp(old(inbound)[0].obj.entries)
    {
      if inbound == [] {
        return Err(Silence);
      }
      var outcome := inbound[0];
      inbound := inbound[1..];
      match outcome {
        case Decoded(Dict(entries)) =>
          r := ValidateResp(entries);
        case Decoded(other) =>
          r := Err(UnexpectedBencodeObject(other));
        case DecodeFailed(e) =>
          r := Err(BencodeDecodeError(e));
      }
    }

    /**
     * `op`: send the request, then read responses, appending each, until one
     * carries "status". Any error ends the call and discards what was read.
     */
    method Call(op: Op, writeFailure: Option<IoFailure>) returns (r: Result<seq<Resp>>)
      modifies this
      ensures !DistinctKeys(RequestPairs(op)) ==>
        r == Err(BencodeEncodeError(UnsortedKeys)) && sent == old(sent) && inbound == old(inbound)
      ensures DistinctKeys(RequestPairs(op)) && writeFailure.Some? ==>
        r == Err(IOError(writeFailure.value)) && sent == old(sent) && inbound == old(inbound)
      ensures DistinctKeys(RequestPairs(op)) && writeFailure.None? ==>
        sent == old(sent) + [EncodedRequest(op)]
        && r == ReadLoop(old(inbound))
        && inbound == old(inbound)[ReadsTaken(old(inbound))..]
    {
      var resps: seq<Resp> := [];
      var sendResult := SendOp(op, writeFailure);
      if sendResult.Err? {
        return Err(sendResult.error);
      }
      ghost var wire := inbound;
      PrependNothing(ReadLoop(wire));
      while true
        invariant sent == old(sent) + [EncodedRequest(op)]
        invariant |resps| <= |wire| && inbound == wire[|resps|..]
        invariant ReadLoop(wire) == Prepend(resps, ReadLoop(inbound))
        invariant ReadsTaken(wire) == |resps| + ReadsTaken(inbound)
        decreases |inbound|
      {
        ghost var before := inbound;
        var resp := ReadResp();
        if resp.Err? {
          return Err(resp.error);
        }
        var isFinal := IsFinal(resp.value);
        assert ReadLoop(before) == if isFinal then Ok([resp.value]) else Prepend([resp.value], ReadLoop(inbound));
        PrependTwice(resps, [resp.value], ReadLoop(inbound));
        resps := resps + [resp.value];
        if isFinal {
          break;
        }
      }
      r := Ok(resps);
    }
  }

  /** The dict a server sends as one message, from keys given as strings. */
  function Message(fields: seq<(string, Object)>): (r: ReadOutcome) {
    Decoded(Dict(seq(|fields|, i requires 0 <= i < |fields| => (Utf8.Encode(fields[i].0), fields[i].1))))
  }

  /** Messages {"x": 1} then {"status": "done"}: two responses, and only the second is final. */
  lemma TwoMessageExchange(later: seq<ReadOutcome>)
    ensures var wire := [Message([("x", BInt(1))]), Message([("status", BBytes(Utf8.Encode("done")))])] + later;
      ReadLoop(wire).Ok? && |ReadLoop(wire).value| == 2 && ReadsTaken(wire) == 2
      && !IsFinal(ReadLoop(wire).value[0]) && IsFinal(ReadLoop(wire).value[1])
  {
    var wire := [Message([("x", BInt(1))]), Message([("status", BBytes(Utf8.Encode("done")))])] + later;
    Utf8.DecodeEncode("x");
    Utf8.DecodeEncode("status");
    assert RespOf(wire[0]) == Ok(map["x" := BInt(1)]);
    assert RespOf(wire[1]) == Ok(map["status" := BBytes(Utf8.Encode("done"))]);
    ReadLoopStopsAtFirstFinal(wire, 2);
  }

  /**
   * A lone {"foo": ""} followed by silence: the call fails with the read
   * timeout instead of returning the non-final response.
   */
  lemma NonFinalThenSilence()
    ensures ReadLoop([Message([("foo", BBytes([]))])]) == Err(Silence)
  {
    Utf8.DecodeEncode("foo");
    assert RespOf(Message([("foo", BBytes([]))])) == Ok(map["foo" := BBytes([])]);
  }
}
