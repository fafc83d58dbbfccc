/** The verify-and-forward loop of `fetch_one` in `crates/server/src/substitute.rs`: a download is relayed to an
    upload one chunk behind, so that its last chunk is sent only once the hash is known to match. */
module Relay {
  import opened Numerals

  type Bytes = seq<byte>
  type Digest = seq<byte>

  /** An item of the download stream. */
  datatype Chunk = Data(bytes: Bytes) | NetworkError

  datatype Failure = DownloadFailed | DidNotDecode | UploadEnded | HashMismatch

  datatype Verdict = Verified(fileHash: Digest) | Refused(failure: Failure)

  /** The decoder and hashers, by what they make of all the bytes fed so far. */
  datatype Codec = Codec(accepts: Bytes -> bool, completes: Bytes -> bool, narHash: Bytes -> Digest, fileHash: Bytes -> Digest)

  function BytesOf(chunk: Chunk): Bytes {
    match chunk case Data(b) => b case NetworkError => []
  }

  /** The bytes of the first `n` chunks. */
  function BodyTo(chunks: seq<Chunk>, n: nat): Bytes
    requires n <= |chunks|
  {
    if n == 0 then [] else BodyTo(chunks, n - 1) + BytesOf(chunks[n - 1])
  }

  function Body(chunks: seq<Chunk>): Bytes {
    BodyTo(chunks, |chunks|)
  }

  /** The bytes of the first `n` chunks but the last of them. */
  function HeldBackFrom(chunks: seq<Chunk>, n: nat): Bytes
    requires n <= |chunks|
  {
    if n == 0 then [] else BodyTo(chunks, n - 1)
  }

  lemma {:induction false} BodyGrows(chunks: seq<Chunk>, m: nat, n: nat)
    requires m <= n <= |chunks|
    ensures BodyTo(chunks, m) <= BodyTo(chunks, n)
    decreases n
  {
    if m < n {
      BodyGrows(chunks, m, n - 1);
    }
  }

  /** The first `n` chunks arrive and decode. */
  predicate ArrivesTo(chunks: seq<Chunk>, codec: Codec, n: nat)
    requires n <= |chunks|
  {
    n == 0 || (ArrivesTo(chunks, codec, n - 1) && chunks[n - 1].Data? && codec.accepts(BodyTo(chunks, n)))
  }

  predicate Arrives(chunks: seq<Chunk>, codec: Codec) {
    ArrivesTo(chunks, codec, |chunks|)
  }

  lemma {:induction false} ArrivesEarlier(chunks: seq<Chunk>, codec: Codec, m: nat, n: nat)
    requires m <= n <= |chunks| && ArrivesTo(chunks, codec, n)
    ensures ArrivesTo(chunks, codec, m) && (m > 0 ==> chunks[m - 1].Data?)
    decreases n
  {
    if m < n {
      ArrivesEarlier(chunks, codec, m, n - 1);
    }
  }

  predicate HashGood(chunks: seq<Chunk>, codec: Codec, claimed: Digest) {
    codec.completes(Body(chunks)) && codec.narHash(Body(chunks)) == claimed
  }

  predicate HashBad(chunks: seq<Chunk>, codec: Codec, claimed: Digest) {
    codec.completes(Body(chunks)) && codec.narHash(Body(chunks)) != claimed
  }

  /** The loop: `sent` trails what was fed to the decoder by the pending chunk. It stops after `stop` whole turns. */
  method Forward(chunks: seq<Chunk>, codec: Codec, takes: nat)
      returns (sent: Bytes, fed: Bytes, pending: Option<Bytes>, failure: Option<Failure>, ghost stop: nat)
    ensures stop <= |chunks| && ArrivesTo(chunks, codec, stop)
    ensures sent == HeldBackFrom(chunks, stop)
    ensures failure.None? ==> stop == |chunks| && fed == Body(chunks)
    ensures failure.None? ==> pending == if stop == 0 then None else Some(BytesOf(chunks[stop - 1]))
    ensures failure.None? <==> Arrives(chunks, codec) && takes + 1 >= |chunks|
    ensures failure != Some(HashMismatch)
    ensures failure.Some? ==> stop < |chunks|
    ensures failure == Some(DownloadFailed) ==> chunks[stop].NetworkError?
    ensures failure == Some(DidNotDecode) ==> chunks[stop].Data? && !codec.accepts(BodyTo(chunks, stop + 1))
    ensures failure == Some(UploadEnded) ==> chunks[stop].Data? && codec.accepts(BodyTo(chunks, stop + 1)) && takes + 1 == stop
  {
    sent, fed, pending, failure, stop := [], [], None, None, 0;
    var sends := 0;
    for n := 0 to |chunks|
      invariant stop == n && ArrivesTo(chunks, codec, n) && sent == HeldBackFrom(chunks, n) && fed == BodyTo(chunks, n)
      invariant pending == if n == 0 then None else Some(BytesOf(chunks[n - 1]))
      invariant sends == (if n == 0 then 0 else n - 1) && sends <= takes
    {
      if Arrives(chunks, codec) {
        ArrivesEarlier(chunks, codec, n + 1, |chunks|);
      }
      if chunks[n].NetworkError? {
        failure := Some(DownloadFailed);
        return;
      }
      var chunk := chunks[n].bytes;
      fed := fed + chunk;
      assert fed == BodyTo(chunks, n + 1);
      if !codec.accepts(fed) {
        failure := Some(DidNotDecode);
        return;
      }
      var previous := pending;
      pending := Some(chunk);
      if previous.Some? {
        if sends == takes {
          failure := Some(UploadEnded);
          return;
        }
        sent := sent + previous.value;
        sends := sends + 1;
      }
      stop := n + 1;
    }
  }

  /** `verify_and_forward`. The upload takes `takes` chunks before it ends its stream; `early` is what it was sent
      before the hash was checked. */
  method VerifyAndForward(chunks: seq<Chunk>, codec: Codec, claimed: Digest, takes: nat)
      returns (sent: Bytes, v: Verdict, ghost early: Bytes, ghost stop: nat)
    ensures stop <= |chunks| && ArrivesTo(chunks, codec, stop) && early == HeldBackFrom(chunks, stop)
    ensures v.Verified? <==> Arrives(chunks, codec) && HashGood(chunks, codec, claimed) && takes + 1 >= |chunks|
    ensures v.Verified? ==> stop == |chunks| && v.fileHash == codec.fileHash(Body(chunks))
    ensures v.Verified? ==> sent == if takes >= |chunks| then Body(chunks) else early
    ensures v.Refused? ==> sent == early
    ensures Arrives(chunks, codec) && takes + 1 >= |chunks| ==> stop == |chunks|
    ensures v == Refused(HashMismatch) ==> stop == |chunks|
    ensures v == Refused(HashMismatch) <==> Arrives(chunks, codec) && HashBad(chunks, codec, claimed) && takes + 1 >= |chunks|
  {
    var fed, pending, failure;
    sent, fed, pending, failure, stop := Forward(chunks, codec, takes);
    early := sent;
    if failure.Some? {
      return sent, Refused(failure.value), early, stop;
    }
    if !codec.completes(fed) {
      return sent, Refused(DidNotDecode), early, stop;
    }
    if codec.narHash(fed) != claimed {
      return sent, Refused(HashMismatch), early, stop;
    }
    if pending.Some? && takes >= |chunks| {
      sent := sent + pending.value;
    }
    v := Verified(codec.fileHash(fed));
  }

  predicate NoEmptyChunk(chunks: seq<Chunk>) {
    forall n :: 0 <= n < |chunks| && chunks[n].Data? ==> chunks[n].bytes != []
  }

  /** What was sent before the hash check is a strict prefix of the body when no chunk is empty. */
  lemma EarlyIsStrictPrefix(chunks: seq<Chunk>, codec: Codec, stop: nat, len: nat)
    requires stop <= |chunks| && ArrivesTo(chunks, codec, stop) && NoEmptyChunk(chunks)
    requires len > 0 && len >= |Body(chunks)|
    ensures HeldBackFrom(chunks, stop) <= Body(chunks) && |HeldBackFrom(chunks, stop)| < len
  {
    BodyGrows(chunks, stop, |chunks|);
  }

  /** The chunk the loop is left holding. */
  function Trailing(chunks: seq<Chunk>): Bytes {
    if chunks == [] then [] else BytesOf(chunks[|chunks| - 1])
  }

  /** The relay and the upload it feeds, whose declared length is `len`: the object is created exactly when the upload
      received that many bytes and nothing else went wrong with it. */
  method Fetch(chunks: seq<Chunk>, codec: Codec, claimed: Digest, takes: nat, len: nat, putWorks: bool)
      returns (fileHash: Option<Digest>, stored: Option<Bytes>, ghost stop: nat)
    requires len >= |Body(chunks)|
    ensures fileHash.Some? ==> stored == Some(Body(chunks)) && fileHash.value == codec.fileHash(Body(chunks))
    ensures fileHash.Some? ==> Arrives(chunks, codec) && HashGood(chunks, codec, claimed)
    ensures stored.Some? ==> stored.value <= Body(chunks) && |stored.value| == len
    ensures stored.Some? && len > 0 && NoEmptyChunk(chunks) ==> fileHash.Some?
    ensures putWorks && takes >= |chunks| && len == |Body(chunks)| && Arrives(chunks, codec) && HashGood(chunks, codec, claimed) ==>
      fileHash.Some?
    // A mismatch, or a decoder that fails at the end, creates the object all the same exactly when nothing was held back.
    ensures putWorks && takes >= |chunks| && len == |Body(chunks)| && Arrives(chunks, codec) && !HashGood(chunks, codec, claimed) ==>
      fileHash.None? && (stored.Some? <==> Trailing(chunks) == [])
    // Any failure does so exactly when what had been sent by then is as long as declared.
    ensures stop <= |chunks| && ArrivesTo(chunks, codec, stop)
    ensures putWorks && !(Arrives(chunks, codec) && HashGood(chunks, codec, claimed)) ==>
      (stored.Some? <==> |HeldBackFrom(chunks, stop)| == len)
  {
    var sent, v;
    ghost var early;
    sent, v, early, stop := VerifyAndForward(chunks, codec, claimed, takes);
    stored := if putWorks && |sent| == len then Some(sent) else None;
    fileHash := if v.Verified? && stored.Some? then Some(v.fileHash) else None;
    assert Body(chunks) == HeldBackFrom(chunks, |chunks|) + Trailing(chunks);
    assert v.Verified? && |sent| == len ==> sent == Body(chunks);
    BodyGrows(chunks, if stop == 0 then 0 else stop - 1, |chunks|);
    if len > 0 && NoEmptyChunk(chunks) {
      EarlyIsStrictPrefix(chunks, codec, stop, len);
    }
  }

  /** For one: a compressed body whose end marker is missing and whose last chunk is empty is stored, and refused. */
  method UnfinishedBodyIsStored() returns (fileHash: Option<Digest>, stored: Option<Bytes>)
    ensures fileHash == None && stored == Some([7])
  {
    var codec := Codec(_ => true, _ => false, b => b, b => b);
    var chunks := [Data([7]), Data([])];
    assert BodyTo(chunks, 1) == [7] && BodyTo(chunks, 2) == [7];
    assert ArrivesTo(chunks, codec, 1) && ArrivesTo(chunks, codec, 2);
    ghost var stop;
    fileHash, stored, stop := Fetch(chunks, codec, [], 2, 1, true);
    assert Body(chunks) == [7] && Trailing(chunks) == [];
    assert stored.value == Body(chunks)[..1];
  }
}
