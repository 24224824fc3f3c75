/** Evidence of validator misbehaviour (`evidence.rs`): an opaque
    Amino-encoded byte string that is carried, never parsed, with a base64
    text form for JSON; `Data`, an optional list of evidence; and the
    evidence `Params` record. */
module Evidences {
  import opened Ints
  import opened Wrappers
  import Base64
  import Utf8

  datatype Evidence = Evidence(bytes: seq<byte>)

  /** `Evidence::new`: wraps the bytes as they are. */
  function New(v: seq<byte>): Evidence {
    Evidence(v)
  }

  /** `Evidence::to_amino_bytes`: a copy of the wrapped bytes. */
  function ToAminoBytes(e: Evidence): seq<byte> {
    e.bytes
  }

  /** No byte is parsed or altered between `new` and `to_amino_bytes`, and
      `new` builds every evidence value exactly once. */
  lemma AminoBytesRoundTrip(v: seq<byte>, e: Evidence)
    ensures ToAminoBytes(New(v)) == v
    ensures New(ToAminoBytes(e)) == e
  {
  }

  lemma {:induction false} EncodeIsAscii(bs: seq<byte>)
    ensures Utf8.IsAscii(Base64.Encode(bs))
  {
    var s := Base64.Encode(bs);
    Base64.EncodeShape(bs);
    assert forall i :: 0 <= i < |s| ==> s[i] < 0x80;
  }

  /** `Serialize for Evidence`: the string `String::from_utf8(base64::encode(
      bytes)).unwrap()`, given here as its UTF-8 bytes. The `unwrap` never
      panics: the text is base64 alphabet and padding, 4 characters for every
      started group of 3 bytes. */
  function Serialize(e: Evidence): (r: Outcome<seq<byte>>)
    ensures r.Done?
    ensures Utf8.WellFormed(r.value)
    ensures |r.value| == 4 * ((|e.bytes| + 2) / 3)
    ensures forall i :: 0 <= i < |r.value| ==> Base64.IsAlphabet(r.value[i]) || r.value[i] == Base64.PAD
  {
    var text := Base64.Encode(ToAminoBytes(e));
    EncodeIsAscii(ToAminoBytes(e));
    Base64.EncodeShape(ToAminoBytes(e));
    Utf8.AsciiIsWellFormed(text);
    match Utf8.FromUtf8(text)
    case Ok(s) => Done(s)
    case Err(_) => Panic(UnwrapOnErr)
  }

  /** The deserializer's custom error, carrying the decoder's diagnostic. */
  datatype DeError = Custom(cause: Base64.DecodeError)

  /** `Deserialize for Evidence`: base64-decode the string's bytes. */
  function Deserialize(s: seq<byte>): Result<Evidence, DeError> {
    match Base64.Decode(s)
    case Err(why) => Err(Custom(why))
    case Ok(bytes) => Ok(New(bytes))
  }

  /** The text form is lossless: deserializing the serialization of any
      evidence, including the empty one, gives back the same bytes. */
  lemma SerializeRoundTrip(v: seq<byte>)
    ensures Deserialize(Serialize(New(v)).value) == Ok(New(v))
  {
    Base64.DecodeEncode(v);
  }

  /** A string that deserializes is exactly the serialization of the
      evidence it yields. */
  lemma DeserializeRoundTrip(s: seq<byte>, e: Evidence)
    requires Deserialize(s) == Ok(e)
    ensures Serialize(e) == Done(s)
  {
    Base64.EncodeDecode(s, e.bytes);
  }

  /** Deserialization fails, and builds no evidence, exactly on strings that
      are not base64: a character outside the alphabet, a length that is
      not a multiple of 4, or misplaced or non-canonical padding. */
  lemma DeserializeFailsIff(s: seq<byte>)
    ensures Deserialize(s).Err? <==> !exists bs :: Base64.Encode(bs) == s
  {
    Base64.DecodeSucceedsIff(s);
  }

  /** `Data`: a list of evidence that may be absent (`Default` leaves it so). */
  datatype Data = Data(evidence: Option<seq<Evidence>>)

  const DEFAULT_DATA: Data := Data(None)

  /** `Data::new`. */
  function NewData(v: seq<Evidence>): Data {
    Data(Some(v))
  }

  /** `AsRef<[Evidence]> for Data`: the list, or the empty slice if absent. */
  function AsRef(d: Data): seq<Evidence> {
    match d.evidence
    case None => []
    case Some(v) => v
  }

  /** A slice iterator: the elements not yet yielded. */
  datatype SliceIter = SliceIter(rest: seq<Evidence>)

  /** `Iterator::next` on a slice iterator. */
  function Next(it: SliceIter): (r: (Option<Evidence>, SliceIter))
    ensures r.0.None? <==> it.rest == []
    ensures r.0.Some? ==> [r.0.value] + r.1.rest == it.rest
  {
    if it.rest == [] then (None, it) else (Some(it.rest[0]), SliceIter(it.rest[1..]))
  }

  /** Everything `next` yields, in order, until it yields `None`. */
  function Yielded(it: SliceIter): seq<Evidence>
    decreases |it.rest|
  {
    match Next(it)
    case (None, _) => []
    case (Some(e), after) => [e] + Yielded(after)
  }

  /** `Data::iter`. */
  function Iter(d: Data): SliceIter {
    SliceIter(AsRef(d))
  }

  /** `collect` of a cloning iterator into a vector that already holds `acc`. */
  function Collect(it: SliceIter, acc: seq<Evidence>): seq<Evidence>
    decreases |it.rest|
  {
    match Next(it)
    case (None, _) => acc
    case (Some(e), after) => Collect(after, acc + [e])
  }

  /** `Data::into_vec`: `iter().cloned().collect()`. */
  function IntoVec(d: Data): seq<Evidence> {
    Collect(Iter(d), [])
  }

  lemma {:induction false} YieldedIsRest(it: SliceIter)
    ensures Yielded(it) == it.rest
    decreases |it.rest|
  {
    if it.rest != [] {
      YieldedIsRest(Next(it).1);
    }
  }

  lemma {:induction false} CollectAppends(it: SliceIter, acc: seq<Evidence>)
    ensures Collect(it, acc) == acc + it.rest
    decreases |it.rest|
  {
    if it.rest != [] {
      var e, after := it.rest[0], SliceIter(it.rest[1..]);
      assert Collect(it, acc) == Collect(after, acc + [e]);
      CollectAppends(after, acc + [e]);
      assert (acc + [e]) + after.rest == acc + ([e] + after.rest);
    }
  }

  /** `iter` yields exactly the elements `as_ref` presents, in order. */
  lemma IterYieldsAsRef(d: Data)
    ensures Yielded(Iter(d)) == AsRef(d)
  {
    YieldedIsRest(Iter(d));
  }

  /** `into_vec` returns the list `as_ref` presents, element for element. */
  lemma IntoVecIsAsRef(d: Data)
    ensures IntoVec(d) == AsRef(d)
  {
    CollectAppends(Iter(d), []);
  }

  /** `Data::new(v)` presents, iterates over and returns exactly `v`. */
  lemma NewDataPresentsList(v: seq<Evidence>)
    ensures AsRef(NewData(v)) == v
    ensures Yielded(Iter(NewData(v))) == v
    ensures IntoVec(NewData(v)) == v
  {
    IterYieldsAsRef(NewData(v));
    IntoVecIsAsRef(NewData(v));
  }

  /** The derived `Default`, which has no list, presents as empty; nothing
      is iterated or returned. */
  lemma AbsentListIsEmpty(d: Data)
    requires d == DEFAULT_DATA
    ensures AsRef(d) == [] && Yielded(Iter(d)) == [] && IntoVec(d) == []
  {
    IterYieldsAsRef(d);
    IntoVecIsAsRef(d);
  }

  /** Evidence collection parameters: the largest age, as a `u64`, at which
      evidence is still collected. */
  datatype Params = Params(maxAge: u64)
}
