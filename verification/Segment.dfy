/** Segments and record values. */
module Segment {
  // The container frame, the signed chunk range around a STREAM payload, and the two ways a
  // record's value is put together.
  import opened Common
  import opened Stream

  const MAX_SEGMENT_CHUNKS := 16384
  const HEADER: Bytes := [0x44, 0x50, 0x53, 0x31, 0x01]

  function FrameContainer(payload: Bytes): Bytes { HEADER + payload }

  /** The payload behind the four magic bytes and the version byte. */
  function UnframeContainer(b: Bytes): (r: Option<Bytes>)
    ensures forall p :: r == Some(p) <==> b == FrameContainer(p)
  {
    if |b| < |HEADER| || b[..|HEADER|] != HEADER then None
    else
      assert b == HEADER + b[|HEADER|..];
      Some(b[|HEADER|..])
  }

  datatype Slice = Slice(offset: int, length: int)

  datatype SegmentRef = SegmentRef(objectKey: string, firstChunk: int, lastChunkExclusive: int, packed: Option<Slice>)

  /** The chunk count a signed range declares; a range this format does not emit has none. */
  function SegmentChunkBound(seg: SegmentRef): Option<nat> {
    if seg.firstChunk != 0 || seg.lastChunkExclusive < 1 || seg.lastChunkExclusive > MAX_SEGMENT_CHUNKS then None
    else Some(seg.lastChunkExclusive)
  }

  /** What opening one segment yields under its file key. */
  function SegmentPlain(key: Keyed, seg: SegmentRef, sealed: Bytes): Option<Bytes> {
    var bound := SegmentChunkBound(seg);
    var body := UnframeContainer(sealed);
    if bound.None? || body.None? || |body.value| < NONCE_SIZE then None
    else
      var plain := OpenAhead(key(body.value[..NONCE_SIZE]), body.value[NONCE_SIZE..], 0, bound.value);
      if plain.ok && NumChunks(|plain.written|) == bound.value then Some(plain.written) else None
  }

  /** What the look-ahead opener has written by the time a segment is accepted or refused. */
  function SegmentWritten(key: Keyed, seg: SegmentRef, sealed: Bytes): Bytes {
    var bound := SegmentChunkBound(seg);
    var body := UnframeContainer(sealed);
    if bound.None? || body.None? || |body.value| < NONCE_SIZE then []
    else OpenAhead(key(body.value[..NONCE_SIZE]), body.value[NONCE_SIZE..], 0, bound.value).written
  }

  /** The buffered open: a refused segment yields nothing. */
  method OpenSegment(key: Keyed, seg: SegmentRef, sealed: Bytes) returns (r: Option<Bytes>)
    ensures r == SegmentPlain(key, seg, sealed)
  {
    hide OpenAhead;
    var maxChunks := SegmentChunkBound(seg);
    if maxChunks.None? {
      return None;
    }
    var body := UnframeContainer(sealed);
    if body.None? {
      return None;
    }
    var plain := OpenStreamTo(key, body.value, maxChunks.value);
    if !plain.ok {
      return None;
    }
    if NumChunks(|plain.written|) != maxChunks.value {
      return None;
    }
    r := Some(plain.written);
  }

  /** The streaming open: the destination keeps what was written before a refusal. */
  method OpenSegmentTo(dst: Bytes, key: Keyed, seg: SegmentRef, sealed: Bytes) returns (ok: bool, out: Bytes)
    ensures ok <==> SegmentPlain(key, seg, sealed).Some?
    ensures ok ==> out == dst + SegmentPlain(key, seg, sealed).value
    ensures out == dst + SegmentWritten(key, seg, sealed)
  {
    hide OpenAhead;
    out := dst;
    var maxChunks := SegmentChunkBound(seg);
    if maxChunks.None? {
      return false, out;
    }
    var body := UnframeContainer(sealed);
    if body.None? {
      return false, out;
    }
    var plain := OpenStreamTo(key, body.value, maxChunks.value);
    var count := |plain.written|;
    out := out + plain.written;
    ok := plain.ok && NumChunks(count) == maxChunks.value;
  }

  // ---- Exactly one framing is accepted ----

  lemma {:induction false} SealedChunks(a: Aead, p: Bytes, counter: nat)
    requires Lawful(a)
    ensures BodyChunks(|Sealed(a, p, counter)|) == NumChunks(|p|)
    decreases |p|
  {
    hide ChunkNonce;
    assert |a.seal(ChunkNonce(counter, true), p)| == |p| + TAG;
    if |p| > CHUNK {
      SealedChunks(a, p[CHUNK..], counter + 1);
      assert |a.seal(ChunkNonce(counter, false), p[..CHUNK])| == MAX_CHUNK;
      SealedNonempty(a, p[CHUNK..], counter + 1);
    }
  }

  lemma {:induction false} PaddedChunks(a: Aead, p: Bytes, counter: nat)
    requires Lawful(a) && p != [] && |p| % CHUNK == 0
    ensures BodyChunks(|SealedPadded(a, p, counter)|) == NumChunks(|p|) + 1
    decreases |p|
  {
    hide ChunkNonce, SealedFull, SealedPadded;
    var q := p[CHUNK..];
    PaddedCons(a, p, counter);
    TailNonempty(a, q, counter + 1);
    assert |a.seal(ChunkNonce(counter, false), p[..CHUNK])| == MAX_CHUNK;
    if q == [] {
      assert |a.seal(ChunkNonce(counter + 1, true), [])| == TAG;
    } else {
      PaddedChunks(a, q, counter + 1);
    }
  }

  ghost predicate LawfulKey(key: Keyed) {
    forall n :: |n| == NONCE_SIZE ==> Lawful(key(n))
  }

  /** The look-ahead bound and the recomputed chunk count together leave SealStream's framing as
      the only one: the padded framing has one chunk too many. */
  lemma BoundedOpenExact(a: Aead, body: Bytes, p: Bytes, bound: nat)
    requires Lawful(a) && 1 <= bound <= MAX_SEGMENT_CHUNKS
    ensures (OpenAhead(a, body, 0, bound) == Opened(true, p) && NumChunks(|p|) == bound)
            <==> (body == Sealed(a, p, 0) && NumChunks(|p|) == bound)
  {
    hide OpenAhead, OpenBody, Sealed, SealedPadded, BodyChunks, Lawful, NumChunks;
    AheadIsOpen(a, body, 0, bound);
    OpenBodyExact(a, body, p);
    SealedChunks(a, p, 0);
    if p != [] && |p| % CHUNK == 0 {
      PaddedChunks(a, p, 0);
    }
  }

  /** A segment opens to p exactly when the signed range is well formed, p occupies exactly the
      declared chunks, and the object is the framed SealStream payload of p. */
  lemma SegmentOpenExact(key: Keyed, seg: SegmentRef, sealed: Bytes, p: Bytes)
    requires LawfulKey(key)
    ensures SegmentPlain(key, seg, sealed) == Some(p) <==>
            && seg.firstChunk == 0 && 1 <= seg.lastChunkExclusive <= MAX_SEGMENT_CHUNKS
            && NumChunks(|p|) == seg.lastChunkExclusive
            && exists n :: |n| == NONCE_SIZE && sealed == FrameContainer(n + Sealed(key(n), p, 0))
  {
    hide OpenAhead, Sealed, NumChunks, Lawful, FrameContainer;
    var bound, body := SegmentChunkBound(seg), UnframeContainer(sealed);
    if bound.Some? {
      if body.Some? && |body.value| >= NONCE_SIZE {
        var n, rest := body.value[..NONCE_SIZE], body.value[NONCE_SIZE..];
        BoundedOpenExact(key(n), rest, p, bound.value);
        assert body.value == n + rest;
      }
      forall n | |n| == NONCE_SIZE && sealed == FrameContainer(n + Sealed(key(n), p, 0))
        ensures body == Some(n + Sealed(key(n), p, 0))
        ensures body.value[..NONCE_SIZE] == n && body.value[NONCE_SIZE..] == Sealed(key(n), p, 0)
      {
      }
    }
  }

  // ---- Restoring a record ----

  const EXIT_UNCODED := 1
  const EXIT_UNVERIFIED := 2
  const EXIT_PLAINTEXT := 4

  datatype Record = Record(codec: string, segments: seq<SegmentRef>, plaintextSize: int, plaintextSha: string)

  /** The store and the derivations a restore reads: object bytes, the segment id in an object
      name, the file key of a record's segment, the hash text and the decompressor. */
  datatype Env = Env(
    get: string -> Option<Bytes>,
    segId: string -> Option<Bytes>,
    fileKey: (Record, Bytes) -> Option<Keyed>,
    sha: Bytes -> string,
    gunzip: (Bytes, int) -> Option<Bytes>)

  datatype Verdict = Value(bytes: Bytes) | Refused(code: int)

  predicate IsStreamable(rec: Record) {
    rec.codec != "gzip" && forall seg :: seg in rec.segments ==> seg.packed.None?
  }

  /** One segment of a record, fetched and opened. */
  function OneSegment(env: Env, rec: Record, seg: SegmentRef): Verdict {
    var id := env.segId(seg.objectKey);
    if id.None? then Refused(EXIT_UNCODED)
    else
      var sealed := env.get(seg.objectKey);
      if sealed.None? then Refused(EXIT_UNVERIFIED)
      else
        var key := env.fileKey(rec, id.value);
        if SegmentChunkBound(seg).None? || key.None? then Refused(EXIT_UNVERIFIED)
        else
          var plain := SegmentPlain(key.value, seg, sealed.value);
          if plain.None? then Refused(EXIT_UNVERIFIED) else Value(plain.value)
  }

  method FetchSegment(env: Env, rec: Record, seg: SegmentRef) returns (r: Verdict)
    ensures r == OneSegment(env, rec, seg)
  {
    hide SegmentPlain;
    var id := env.segId(seg.objectKey);
    if id.None? {
      return Refused(EXIT_UNCODED);
    }
    var sealed := env.get(seg.objectKey);
    if sealed.None? {
      return Refused(EXIT_UNVERIFIED);
    }
    var key := env.fileKey(rec, id.value);
    if SegmentChunkBound(seg).None? || key.None? {
      return Refused(EXIT_UNVERIFIED);
    }
    var plain := OpenSegment(key.value, seg, sealed.value);
    r := if plain.None? then Refused(EXIT_UNVERIFIED) else Value(plain.value);
  }

  /** The segments' plaintexts one after another, as the signed chain lists them. */
  function Chain(env: Env, rec: Record, segs: seq<SegmentRef>): Verdict {
    if segs == [] then Value([])
    else
      var init := Chain(env, rec, segs[..|segs| - 1]);
      if init.Refused? then init
      else
        var last := OneSegment(env, rec, segs[|segs| - 1]);
        if last.Refused? then last else Value(init.bytes + last.bytes)
  }

  /** What one segment adds to the destination, accepted or not. */
  function SegmentTo(env: Env, rec: Record, seg: SegmentRef): Bytes {
    var id := env.segId(seg.objectKey);
    if id.None? then []
    else
      var sealed := env.get(seg.objectKey);
      var key := env.fileKey(rec, id.value);
      if sealed.None? || key.None? then [] else SegmentWritten(key.value, seg, sealed.value)
  }

  /** What the destination holds once the streaming restore has dealt with these segments. */
  function WrittenTo(env: Env, rec: Record, segs: seq<SegmentRef>): Bytes {
    if segs == [] then []
    else
      var n := |segs| - 1;
      if Chain(env, rec, segs[..n]).Refused? then WrittenTo(env, rec, segs[..n])
      else WrittenTo(env, rec, segs[..n]) + SegmentTo(env, rec, segs[n])
  }

  /** What the streaming restore answers about a streamable record. */
  function Streamed(env: Env, rec: Record): Verdict {
    var v := Chain(env, rec, rec.segments);
    if v.Refused? then v
    else if env.sha(v.bytes) == rec.plaintextSha then v else Refused(EXIT_PLAINTEXT)
  }

  method FetchSegmentTo(env: Env, rec: Record, seg: SegmentRef, dst: Bytes) returns (refusal: Option<int>, out: Bytes)
    ensures refusal == var one := OneSegment(env, rec, seg); if one.Refused? then Some(one.code) else None
    ensures out == dst + SegmentTo(env, rec, seg)
    ensures refusal.None? ==> OneSegment(env, rec, seg) == Value(SegmentTo(env, rec, seg))
  {
    hide SegmentPlain, SegmentWritten;
    out := dst;
    var id := env.segId(seg.objectKey);
    if id.None? {
      return Some(EXIT_UNCODED), out;
    }
    var sealed := env.get(seg.objectKey);
    if sealed.None? {
      return Some(EXIT_UNVERIFIED), out;
    }
    if SegmentChunkBound(seg).None? {
      NothingWritten(env, rec, seg);
      return Some(EXIT_UNVERIFIED), out;
    }
    var key := env.fileKey(rec, id.value);
    if key.None? {
      return Some(EXIT_UNVERIFIED), out;
    }
    WrittenIsPlain(key.value, seg, sealed.value);
    var ok: bool;
    ok, out := OpenSegmentTo(dst, key.value, seg, sealed.value);
    refusal := if ok then None else Some(EXIT_UNVERIFIED);
  }

  lemma NothingWritten(env: Env, rec: Record, seg: SegmentRef)
    requires SegmentChunkBound(seg).None?
    ensures SegmentTo(env, rec, seg) == []
  {
  }

  lemma WrittenIsPlain(key: Keyed, seg: SegmentRef, sealed: Bytes)
    ensures SegmentPlain(key, seg, sealed).Some? ==> SegmentPlain(key, seg, sealed).value == SegmentWritten(key, seg, sealed)
  {
    hide OpenAhead;
  }

  /** The streaming restore. The destination holds the plaintext before the hash is compared,
      and keeps it whatever the answer is. */
  method RestoreRecordTo(env: Env, rec: Record) returns (r: Verdict, dst: Bytes)
    ensures r == if IsStreamable(rec) then Streamed(env, rec) else Refused(EXIT_UNCODED)
    ensures dst == if IsStreamable(rec) then WrittenTo(env, rec, rec.segments) else []
    ensures r.Value? ==> dst == r.bytes
    ensures LawfulEnv(env) ==> forall b :: r == Value(b) <==> YieldsChain(env, rec, b)
  {
    hide OneSegment, SegmentTo, LawfulEnv, YieldsChain;
    if LawfulEnv(env) {
      forall b
        ensures IsStreamable(rec) && Streamed(env, rec) == Value(b) <==> YieldsChain(env, rec, b)
      {
        StreamedExact(env, rec, b);
      }
    }
    dst := [];
    if !IsStreamable(rec) {
      return Refused(EXIT_UNCODED), dst;
    }
    for i := 0 to |rec.segments|
      invariant Chain(env, rec, rec.segments[..i]) == Value(dst)
      invariant WrittenTo(env, rec, rec.segments[..i]) == dst
    {
      assert rec.segments[..i + 1][..i] == rec.segments[..i];
      var refusal: Option<int>;
      refusal, dst := FetchSegmentTo(env, rec, rec.segments[i], dst);
      if refusal.Some? {
        RefusalSticks(env, rec, i + 1);
        return Refused(refusal.value), dst;
      }
    }
    assert rec.segments[..|rec.segments|] == rec.segments;
    r := if env.sha(dst) == rec.plaintextSha then Value(dst) else Refused(EXIT_PLAINTEXT);
  }

  /** Every file key the environment derives is a lawful AEAD's. */
  ghost predicate LawfulEnv(env: Env) {
    forall rec, id :: env.fileKey(rec, id).Some? ==> LawfulKey(env.fileKey(rec, id).value)
  }

  /** The store holds, under this segment's name and file key, the framed sealing of piece, and
      the signed range declares the chunks of piece. */
  ghost predicate HoldsPiece(env: Env, rec: Record, seg: SegmentRef, piece: Bytes) {
    var id := env.segId(seg.objectKey);
    && id.Some? && env.fileKey(rec, id.value).Some?
    && seg.firstChunk == 0 && seg.lastChunkExclusive == NumChunks(|piece|) <= MAX_SEGMENT_CHUNKS
    && exists n :: |n| == NONCE_SIZE
                   && env.get(seg.objectKey) == Some(FrameContainer(n + Sealed(env.fileKey(rec, id.value).value(n), piece, 0)))
  }

  lemma OneSegmentExact(env: Env, rec: Record, seg: SegmentRef, piece: Bytes)
    requires LawfulEnv(env)
    ensures OneSegment(env, rec, seg) == Value(piece) <==> HoldsPiece(env, rec, seg, piece)
  {
    hide LawfulKey, SegmentPlain, FrameContainer, Sealed;
    var id, sealed := env.segId(seg.objectKey), env.get(seg.objectKey);
    if id.Some? && env.fileKey(rec, id.value).Some? && sealed.Some? {
      SegmentOpenExact(env.fileKey(rec, id.value).value, seg, sealed.value, piece);
    }
  }

  ghost predicate HoldsPieces(env: Env, rec: Record, segs: seq<SegmentRef>, pieces: seq<Bytes>) {
    |pieces| == |segs| && forall i :: 0 <= i < |segs| ==> HoldsPiece(env, rec, segs[i], pieces[i])
  }

  /** A chain reassembles to b exactly when its objects are the framed sealings of consecutive
      pieces of b. */
  lemma ChainExact(env: Env, rec: Record, segs: seq<SegmentRef>, b: Bytes)
    requires LawfulEnv(env)
    ensures Chain(env, rec, segs) == Value(b) <==> exists pieces :: HoldsPieces(env, rec, segs, pieces) && b == Joined(pieces)
  {
    hide LawfulEnv, HoldsPiece, OneSegment;
    if Chain(env, rec, segs) == Value(b) {
      var pieces := ChainPieces(env, rec, segs);
    }
    forall pieces | HoldsPieces(env, rec, segs, pieces) && b == Joined(pieces)
      ensures Chain(env, rec, segs) == Value(b)
    {
      PiecesChain(env, rec, segs, pieces);
    }
  }

  lemma {:induction false} ChainPieces(env: Env, rec: Record, segs: seq<SegmentRef>) returns (pieces: seq<Bytes>)
    requires LawfulEnv(env) && Chain(env, rec, segs).Value?
    ensures HoldsPieces(env, rec, segs, pieces) && Chain(env, rec, segs) == Value(Joined(pieces))
  {
    hide LawfulEnv, HoldsPiece, OneSegment;
    pieces := [];
    if segs != [] {
      var n := |segs| - 1;
      var init := ChainPieces(env, rec, segs[..n]);
      var last := OneSegment(env, rec, segs[n]).bytes;
      OneSegmentExact(env, rec, segs[n], last);
      pieces := init + [last];
      assert pieces[..n] == init;
    }
  }

  lemma {:induction false} PiecesChain(env: Env, rec: Record, segs: seq<SegmentRef>, pieces: seq<Bytes>)
    requires LawfulEnv(env) && HoldsPieces(env, rec, segs, pieces)
    ensures Chain(env, rec, segs) == Value(Joined(pieces))
  {
    hide LawfulEnv, HoldsPiece, OneSegment;
    if segs != [] {
      var n := |segs| - 1;
      PiecesChain(env, rec, segs[..n], pieces[..n]);
      OneSegmentExact(env, rec, segs[n], pieces[n]);
    }
  }

  lemma {:induction false} RefusalSticks(env: Env, rec: Record, i: nat)
    requires i <= |rec.segments| && Chain(env, rec, rec.segments[..i]).Refused?
    ensures Chain(env, rec, rec.segments) == Chain(env, rec, rec.segments[..i])
    ensures WrittenTo(env, rec, rec.segments) == WrittenTo(env, rec, rec.segments[..i])
    decreases |rec.segments| - i
  {
    hide OneSegment;
    if i == |rec.segments| {
      assert rec.segments[..i] == rec.segments;
    } else {
      assert rec.segments[..i + 1][..i] == rec.segments[..i];
      RefusalSticks(env, rec, i + 1);
    }
  }

  /** The first refusal of the buffered reassembly: a segment's own, or the ceiling on the
      running total. */
  function Reassembled(env: Env, rec: Record, segs: seq<SegmentRef>, ceiling: int): Verdict {
    if segs == [] then Value([])
    else
      var init := Reassembled(env, rec, segs[..|segs| - 1], ceiling);
      if init.Refused? then init
      else
        var last := OneSegment(env, rec, segs[|segs| - 1]);
        if last.Refused? then last
        else if |init.bytes + last.bytes| > ceiling then Refused(EXIT_UNVERIFIED)
        else Value(init.bytes + last.bytes)
  }

  /** The packed slice, the codec and the hash, over a reassembled value. */
  function Finish(env: Env, rec: Record, whole: Bytes): Verdict {
    var sliced :=
      if |rec.segments| == 1 && rec.segments[0].packed.Some? then
        var p := rec.segments[0].packed.value;
        if p.offset < 0 || p.length < 0 || p.offset > |whole| || p.length > |whole| - p.offset
        then Refused(EXIT_UNVERIFIED) else Value(whole[p.offset..p.offset + p.length])
      else if exists seg :: seg in rec.segments && seg.packed.Some? then Refused(EXIT_UNCODED)
      else Value(whole);
    if sliced.Refused? then sliced
    else
      var decoded :=
        if rec.codec == "gzip" then
          var d := env.gunzip(sliced.bytes, rec.plaintextSize);
          if d.None? then Refused(EXIT_UNCODED) else Value(d.value)
        else sliced;
      if decoded.Refused? then decoded
      else if env.sha(decoded.bytes) == rec.plaintextSha then decoded
      else Refused(EXIT_PLAINTEXT)
  }

  /** What the buffered restore answers. */
  function Buffered(env: Env, rec: Record, ceiling: int): Verdict {
    var v := Reassembled(env, rec, rec.segments, ceiling);
    if v.Refused? then v else Finish(env, rec, v.bytes)
  }

  method RestoreRecord(env: Env, rec: Record, ceiling: int) returns (r: Verdict)
    ensures r == Buffered(env, rec, ceiling)
    ensures LawfulEnv(env) && ceiling >= 0 ==> forall b :: r == Value(b) <==> Yields(env, rec, ceiling, b)
  {
    hide OneSegment, Finish, LawfulEnv, Yields;
    if LawfulEnv(env) && ceiling >= 0 {
      forall b
        ensures Buffered(env, rec, ceiling) == Value(b) <==> Yields(env, rec, ceiling, b)
      {
        BufferedExact(env, rec, ceiling, b);
      }
    }
    var buf: Bytes := [];
    for i := 0 to |rec.segments|
      invariant Reassembled(env, rec, rec.segments[..i], ceiling) == Value(buf)
    {
      assert rec.segments[..i + 1][..i] == rec.segments[..i];
      var one := FetchSegment(env, rec, rec.segments[i]);
      if one.Refused? {
        ReassemblyRefusalSticks(env, rec, i + 1, ceiling);
        return one;
      }
      buf := buf + one.bytes;
      if |buf| > ceiling {
        ReassemblyRefusalSticks(env, rec, i + 1, ceiling);
        return Refused(EXIT_UNVERIFIED);
      }
    }
    assert rec.segments[..|rec.segments|] == rec.segments;
    r := Finish(env, rec, buf);
  }

  lemma {:induction false} ReassemblyRefusalSticks(env: Env, rec: Record, i: nat, ceiling: int)
    requires i <= |rec.segments| && Reassembled(env, rec, rec.segments[..i], ceiling).Refused?
    ensures Reassembled(env, rec, rec.segments, ceiling) == Reassembled(env, rec, rec.segments[..i], ceiling)
    decreases |rec.segments| - i
  {
    hide OneSegment;
    if i == |rec.segments| {
      assert rec.segments[..i] == rec.segments;
    } else {
      assert rec.segments[..i + 1][..i] == rec.segments[..i];
      ReassemblyRefusalSticks(env, rec, i + 1, ceiling);
    }
  }

  /** The ceiling only ever turns a chain that is too long into a refusal. */
  lemma {:induction false} ReassembledIsChain(env: Env, rec: Record, segs: seq<SegmentRef>, ceiling: int, b: Bytes)
    requires ceiling >= 0
    ensures Reassembled(env, rec, segs, ceiling) == Value(b) <==> Chain(env, rec, segs) == Value(b) && |b| <= ceiling
  {
    hide OneSegment;
    if segs != [] {
      var n := |segs| - 1;
      var init := Chain(env, rec, segs[..n]);
      if init.Value? {
        ReassembledIsChain(env, rec, segs[..n], ceiling, init.bytes);
      }
      var short := Reassembled(env, rec, segs[..n], ceiling);
      if short.Value? {
        ReassembledIsChain(env, rec, segs[..n], ceiling, short.bytes);
      }
    }
  }

  /** On every streamable record the two restores yield the same value, the buffered one only
      while the value stays within its ceiling. */
  lemma BufferedIsStreamed(env: Env, rec: Record, ceiling: int, b: Bytes)
    requires IsStreamable(rec) && ceiling >= 0
    ensures Buffered(env, rec, ceiling) == Value(b) <==> Streamed(env, rec) == Value(b) && |b| <= ceiling
  {
    hide OneSegment, Chain, Reassembled;
    var v, w := Chain(env, rec, rec.segments), Reassembled(env, rec, rec.segments, ceiling);
    if v.Value? {
      ReassembledIsChain(env, rec, rec.segments, ceiling, v.bytes);
    }
    if w.Value? {
      ReassembledIsChain(env, rec, rec.segments, ceiling, w.bytes);
    }
    assert rec.segments != [] ==> rec.segments[0] in rec.segments;
  }

  // ---- What a restore yields, by what the store holds ----

  /** The bytes of the reassembled value that are the record's: all of it, or the one slice. */
  ghost predicate IsSlice(rec: Record, whole: Bytes, s: Bytes) {
    || ((forall seg :: seg in rec.segments ==> seg.packed.None?) && s == whole)
    || (exists p ::
          && |rec.segments| == 1 && rec.segments[0].packed == Some(p)
          && 0 <= p.offset && 0 <= p.length && p.offset + p.length <= |whole| && s == whole[p.offset..p.offset + p.length])
  }

  ghost predicate IsDecoded(env: Env, rec: Record, s: Bytes, b: Bytes) {
    if rec.codec == "gzip" then env.gunzip(s, rec.plaintextSize) == Some(b) else b == s
  }

  /** The store holds sealed pieces under the record's segments, in the signed order; together
      they fit the ceiling; and the record's slice of them decodes to b, which has its hash. */
  ghost predicate Yields(env: Env, rec: Record, ceiling: int, b: Bytes) {
    exists pieces, s ::
      && HoldsPieces(env, rec, rec.segments, pieces) && |Joined(pieces)| <= ceiling
      && IsSlice(rec, Joined(pieces), s) && IsDecoded(env, rec, s, b) && env.sha(b) == rec.plaintextSha
  }

  lemma FinishExact(env: Env, rec: Record, whole: Bytes, b: Bytes)
    ensures Finish(env, rec, whole) == Value(b) <==>
            exists s :: IsSlice(rec, whole, s) && IsDecoded(env, rec, s, b) && env.sha(b) == rec.plaintextSha
  {
    if |rec.segments| == 1 && rec.segments[0].packed.Some? {
      assert rec.segments[0] in rec.segments;
      var p := rec.segments[0].packed.value;
      if 0 <= p.offset && 0 <= p.length && p.offset + p.length <= |whole| {
        assert IsSlice(rec, whole, whole[p.offset..p.offset + p.length]);
      }
    } else if forall seg :: seg in rec.segments ==> seg.packed.None? {
      assert IsSlice(rec, whole, whole);
    }
  }

  /** For every record, packed or not and under either codec: the buffered restore returns b
      exactly when the store yields b for it. */
  lemma BufferedExact(env: Env, rec: Record, ceiling: int, b: Bytes)
    requires LawfulEnv(env) && ceiling >= 0
    ensures Buffered(env, rec, ceiling) == Value(b) <==> Yields(env, rec, ceiling, b)
  {
    hide LawfulEnv, HoldsPieces, Finish, IsSlice, IsDecoded, Chain, Reassembled, Joined;
    if Buffered(env, rec, ceiling) == Value(b) {
      var whole := Reassembled(env, rec, rec.segments, ceiling).bytes;
      ReassembledIsChain(env, rec, rec.segments, ceiling, whole);
      ChainExact(env, rec, rec.segments, whole);
      FinishExact(env, rec, whole, b);
      var pieces :| HoldsPieces(env, rec, rec.segments, pieces) && whole == Joined(pieces);
      var s :| IsSlice(rec, whole, s) && IsDecoded(env, rec, s, b) && env.sha(b) == rec.plaintextSha;
    }
    if Yields(env, rec, ceiling, b) {
      var pieces, s :|
        && HoldsPieces(env, rec, rec.segments, pieces) && |Joined(pieces)| <= ceiling
        && IsSlice(rec, Joined(pieces), s) && IsDecoded(env, rec, s, b) && env.sha(b) == rec.plaintextSha;
      var whole := Joined(pieces);
      ChainExact(env, rec, rec.segments, whole);
      ReassembledIsChain(env, rec, rec.segments, ceiling, whole);
      FinishExact(env, rec, whole, b);
    }
  }

  /** The codes once a chain has been reassembled within the ceiling: a slice that leaves the
      value, a packed segment among several or a body that does not inflate, and last a value
      with another hash. */
  lemma RefusalExact(env: Env, rec: Record, ceiling: int, whole: Bytes)
    requires Chain(env, rec, rec.segments) == Value(whole) && |whole| <= ceiling
    ensures Buffered(env, rec, ceiling) == Refused(EXIT_UNVERIFIED) <==>
            exists p :: |rec.segments| == 1 && rec.segments[0].packed == Some(p)
                        && !(0 <= p.offset && 0 <= p.length && p.offset + p.length <= |whole|)
    ensures Buffered(env, rec, ceiling) == Refused(EXIT_UNCODED) <==>
            || (|rec.segments| != 1 && exists seg :: seg in rec.segments && seg.packed.Some?)
            || (rec.codec == "gzip" && exists s :: IsSlice(rec, whole, s) && env.gunzip(s, rec.plaintextSize).None?)
    ensures Buffered(env, rec, ceiling) == Refused(EXIT_PLAINTEXT) <==>
            exists s, b :: IsSlice(rec, whole, s) && IsDecoded(env, rec, s, b) && env.sha(b) != rec.plaintextSha
  {
    hide Chain, Reassembled;
    ReassembledIsChain(env, rec, rec.segments, ceiling, whole);
    FinishRefuses(env, rec, whole);
  }

  lemma FinishRefuses(env: Env, rec: Record, whole: Bytes)
    ensures Finish(env, rec, whole) == Refused(EXIT_UNVERIFIED) <==>
            exists p :: |rec.segments| == 1 && rec.segments[0].packed == Some(p)
                        && !(0 <= p.offset && 0 <= p.length && p.offset + p.length <= |whole|)
    ensures Finish(env, rec, whole) == Refused(EXIT_UNCODED) <==>
            || (|rec.segments| != 1 && exists seg :: seg in rec.segments && seg.packed.Some?)
            || (rec.codec == "gzip" && exists s :: IsSlice(rec, whole, s) && env.gunzip(s, rec.plaintextSize).None?)
    ensures Finish(env, rec, whole) == Refused(EXIT_PLAINTEXT) <==>
            exists s, b :: IsSlice(rec, whole, s) && IsDecoded(env, rec, s, b) && env.sha(b) != rec.plaintextSha
  {
    if |rec.segments| == 1 && rec.segments[0].packed.Some? {
      assert rec.segments[0] in rec.segments;
      var p := rec.segments[0].packed.value;
      if 0 <= p.offset && 0 <= p.length && p.offset + p.length <= |whole| {
        var s := whole[p.offset..p.offset + p.length];
        assert IsSlice(rec, whole, s);
        Decodes(env, rec, s);
      }
    } else if forall seg :: seg in rec.segments ==> seg.packed.None? {
      assert IsSlice(rec, whole, whole);
      Decodes(env, rec, whole);
    }
  }

  lemma Decodes(env: Env, rec: Record, s: Bytes)
    ensures rec.codec != "gzip" || env.gunzip(s, rec.plaintextSize).Some? ==> exists b :: IsDecoded(env, rec, s, b)
  {
    if rec.codec != "gzip" {
      assert IsDecoded(env, rec, s, s);
    } else if env.gunzip(s, rec.plaintextSize).Some? {
      assert IsDecoded(env, rec, s, env.gunzip(s, rec.plaintextSize).value);
    }
  }

  /** A refused chain is refused at its first segment that does not open, or that takes the value
      over the ceiling. A segment whose name holds no id has a code of its own. */
  lemma {:induction false} ChainRefusalExact(env: Env, rec: Record, segs: seq<SegmentRef>, ceiling: int, code: int)
    requires LawfulEnv(env) && ceiling >= 0
    ensures Reassembled(env, rec, segs, ceiling) == Refused(code) <==> exists pieces :: RefusedBehind(env, rec, segs, ceiling, code, pieces)
  {
    hide LawfulEnv, HoldsPiece, OneSegment;
    if segs != [] {
      var n := |segs| - 1;
      ChainRefusalExact(env, rec, segs[..n], ceiling, code);
      EarlierRefusal(env, rec, segs, ceiling, code);
      LastRefusal(env, rec, segs, ceiling, code);
    }
  }

  /** The first pieces open and fit the ceiling; the segment behind them is the one refused. */
  ghost predicate RefusedBehind(env: Env, rec: Record, segs: seq<SegmentRef>, ceiling: int, code: int, pieces: seq<Bytes>) {
    var i := |pieces|;
    && i < |segs| && HoldsPieces(env, rec, segs[..i], pieces) && |Joined(pieces)| <= ceiling
    && code == (if env.segId(segs[i].objectKey).None? then EXIT_UNCODED else EXIT_UNVERIFIED)
    && forall piece :: HoldsPiece(env, rec, segs[i], piece) ==> |Joined(pieces)| + |piece| > ceiling
  }

  lemma EarlierRefusal(env: Env, rec: Record, segs: seq<SegmentRef>, ceiling: int, code: int)
    requires segs != []
    ensures forall pieces :: |pieces| < |segs| - 1 ==>
              (RefusedBehind(env, rec, segs, ceiling, code, pieces) <==>
               RefusedBehind(env, rec, segs[..|segs| - 1], ceiling, code, pieces))
  {
    hide HoldsPieces, HoldsPiece;
    forall pieces: seq<Bytes> | |pieces| < |segs| - 1
      ensures segs[..|segs| - 1][..|pieces|] == segs[..|pieces|]
    {
    }
  }

  lemma LastRefusal(env: Env, rec: Record, segs: seq<SegmentRef>, ceiling: int, code: int)
    requires LawfulEnv(env) && segs != [] && ceiling >= 0
    ensures Reassembled(env, rec, segs[..|segs| - 1], ceiling).Value? ==>
              (Reassembled(env, rec, segs, ceiling) == Refused(code) <==>
               exists pieces :: |pieces| == |segs| - 1 && RefusedBehind(env, rec, segs, ceiling, code, pieces))
    ensures Reassembled(env, rec, segs[..|segs| - 1], ceiling).Refused? ==>
              forall pieces :: |pieces| == |segs| - 1 ==> !RefusedBehind(env, rec, segs, ceiling, code, pieces)
  {
    hide LawfulEnv, HoldsPieces, HoldsPiece, OneSegment, Chain, Joined, RefusedBehind, Reassembled;
    var n := |segs| - 1;
    forall pieces | |pieces| == n && RefusedBehind(env, rec, segs, ceiling, code, pieces)
      ensures Reassembled(env, rec, segs[..n], ceiling).Value? && Reassembled(env, rec, segs, ceiling) == Refused(code)
    {
      LastIsRefused(env, rec, segs, ceiling, code, pieces);
    }
    if Reassembled(env, rec, segs[..n], ceiling).Value? && Reassembled(env, rec, segs, ceiling) == Refused(code) {
      var pieces := RefusedLast(env, rec, segs, ceiling, code);
    }
  }

  lemma LastIsRefused(env: Env, rec: Record, segs: seq<SegmentRef>, ceiling: int, code: int, pieces: seq<Bytes>)
    requires LawfulEnv(env) && segs != [] && ceiling >= 0
    requires |pieces| == |segs| - 1 && RefusedBehind(env, rec, segs, ceiling, code, pieces)
    ensures Reassembled(env, rec, segs[..|segs| - 1], ceiling) == Value(Joined(pieces))
    ensures Reassembled(env, rec, segs, ceiling) == Refused(code)
  {
    hide LawfulEnv, HoldsPieces, HoldsPiece, OneSegment, Chain, Joined;
    var n := |segs| - 1;
    ChainExact(env, rec, segs[..n], Joined(pieces));
    ReassembledIsChain(env, rec, segs[..n], ceiling, Joined(pieces));
    OneSegmentCode(env, rec, segs[n]);
    var last := OneSegment(env, rec, segs[n]);
    if last.Value? {
      OneSegmentExact(env, rec, segs[n], last.bytes);
    }
  }

  lemma RefusedLast(env: Env, rec: Record, segs: seq<SegmentRef>, ceiling: int, code: int) returns (pieces: seq<Bytes>)
    requires LawfulEnv(env) && segs != [] && ceiling >= 0
    requires Reassembled(env, rec, segs[..|segs| - 1], ceiling).Value? && Reassembled(env, rec, segs, ceiling) == Refused(code)
    ensures |pieces| == |segs| - 1 && RefusedBehind(env, rec, segs, ceiling, code, pieces)
  {
    hide LawfulEnv, HoldsPieces, HoldsPiece, OneSegment, Chain, Joined;
    var n := |segs| - 1;
    var init := Reassembled(env, rec, segs[..n], ceiling);
    ReassembledIsChain(env, rec, segs[..n], ceiling, init.bytes);
    ChainExact(env, rec, segs[..n], init.bytes);
    pieces :| HoldsPieces(env, rec, segs[..n], pieces) && init.bytes == Joined(pieces);
    PiecesCount(env, rec, segs[..n], pieces);
    OneSegmentCode(env, rec, segs[n]);
    forall piece | HoldsPiece(env, rec, segs[n], piece)
      ensures |Joined(pieces)| + |piece| > ceiling
    {
      OneSegmentExact(env, rec, segs[n], piece);
    }
  }

  lemma PiecesCount(env: Env, rec: Record, segs: seq<SegmentRef>, pieces: seq<Bytes>)
    requires HoldsPieces(env, rec, segs, pieces)
    ensures |pieces| == |segs|
  {
  }

  lemma OneSegmentCode(env: Env, rec: Record, seg: SegmentRef)
    ensures OneSegment(env, rec, seg).Refused? ==>
              OneSegment(env, rec, seg).code == if env.segId(seg.objectKey).None? then EXIT_UNCODED else EXIT_UNVERIFIED
    ensures env.segId(seg.objectKey).None? ==> OneSegment(env, rec, seg).Refused?
  {
    hide SegmentPlain;
  }

  /** No codec and no packing is in play, and the store holds sealed pieces of b, which has the
      record's hash. */
  ghost predicate YieldsChain(env: Env, rec: Record, b: Bytes) {
    && rec.codec != "gzip" && (forall seg :: seg in rec.segments ==> seg.packed.None?)
    && env.sha(b) == rec.plaintextSha
    && exists pieces :: HoldsPieces(env, rec, rec.segments, pieces) && b == Joined(pieces)
  }

  lemma StreamedExact(env: Env, rec: Record, b: Bytes)
    requires LawfulEnv(env)
    ensures IsStreamable(rec) && Streamed(env, rec) == Value(b) <==> YieldsChain(env, rec, b)
  {
    hide LawfulEnv, HoldsPieces, Chain;
    ChainExact(env, rec, rec.segments, b);
  }
}
