/** The STREAM payload: one chunked AEAD format. */
module Stream {
  // Sealed whole, sealed incrementally, opened whole and opened with two look-ahead buffers. The
  // AEAD of a payload key is a parameter.
  import opened Common

  const CHUNK := 65536
  const TAG := 16
  const MAX_CHUNK := CHUNK + TAG
  const NONCE_SIZE := 16
  /** The highest chunk index the nonce's counter field can carry. */
  const MAX_INDEX: nat := 0xFFFF_FFFF_FFFF_FFFF

  type Nonce = Bytes

  datatype Aead = Aead(seal: (Nonce, Bytes) -> Bytes, open: (Nonce, Bytes) -> Option<Bytes>)

  /** The payload key, and so the AEAD, depends on the payload nonce. */
  type Keyed = Bytes -> Aead

  /** A ciphertext is its plaintext plus a tag, a nonce's ciphertexts are distinct, and only a
      sealing of p opens to p. */
  ghost predicate Sound(a: Aead) {
    && (forall n, p :: |a.seal(n, p)| == |p| + TAG)
    && (forall n, p, q :: a.seal(n, p) == a.seal(n, q) ==> p == q)
    && (forall n, c, p :: a.open(n, c) == Some(p) ==> a.seal(n, p) == c)
  }

  /** The real opener: every sealing opens as well. */
  ghost predicate Lawful(a: Aead) {
    Sound(a) && forall n, p :: a.open(n, a.seal(n, p)) == Some(p)
  }

  // ---- Nonces ----

  function BigEndian(n: nat, v: nat): (b: Bytes)
    ensures |b| == n
  {
    if n == 0 then [] else BigEndian(n - 1, v / 256) + [v % 256]
  }

  /** An 11-byte big-endian counter, its top three bytes zero, then the last-chunk flag. */
  function ChunkNonce(counter: nat, last: bool): (n: Nonce)
    ensures |n| == 12
  {
    [0, 0, 0] + BigEndian(8, counter) + [if last then 1 else 0]
  }

  function Pow256(n: nat): nat {
    if n == 0 then 1 else 256 * Pow256(n - 1)
  }

  lemma {:induction false} BigEndianInjective(n: nat, v: nat, w: nat)
    requires v < Pow256(n) && w < Pow256(n)
    requires BigEndian(n, v) == BigEndian(n, w)
    ensures v == w
  {
    if n > 0 {
      var a, b := BigEndian(n - 1, v / 256), BigEndian(n - 1, w / 256);
      assert (a + [v % 256])[..n - 1] == a && (b + [w % 256])[..n - 1] == b;
      assert (a + [v % 256])[n - 1] == v % 256 && (b + [w % 256])[n - 1] == w % 256;
      BigEndianInjective(n - 1, v / 256, w / 256);
    }
  }

  /** Different positions or flags give different nonces. */
  lemma NoncesDistinct(i: nat, j: nat, x: bool, y: bool)
    requires i <= MAX_INDEX && j <= MAX_INDEX
    requires ChunkNonce(i, x) == ChunkNonce(j, y)
    ensures i == j && x == y
  {
    var m, n := ChunkNonce(i, x), ChunkNonce(j, y);
    assert m[3..11] == BigEndian(8, i) && n[3..11] == BigEndian(8, j);
    assert m[11] == (if x then 1 else 0) && n[11] == (if y then 1 else 0);
    assert Pow256(8) == MAX_INDEX + 1;
    BigEndianInjective(8, i, j);
  }

  /** The number that bytes spell, most significant first. */
  function Number(b: Bytes): nat {
    if b == [] then 0 else 256 * Number(b[..|b| - 1]) + b[|b| - 1]
  }

  lemma {:induction false} BigEndianSpells(n: nat, v: nat)
    requires v < Pow256(n)
    ensures Number(BigEndian(n, v)) == v
  {
    if n > 0 {
      BigEndianSpells(n - 1, v / 256);
    }
  }

  lemma LeadingZeros(b: Bytes)
    ensures Number([0, 0, 0] + b) == Number(b)
    decreases |b|
  {
    if b == [] {
      assert [0, 0, 0] + b == [0, 0, 0];
      assert [0, 0, 0][..2] == [0, 0] && [0, 0][..1] == [0];
    } else {
      var n := |b| - 1;
      assert ([0, 0, 0] + b)[..3 + n] == [0, 0, 0] + b[..n];
      LeadingZeros(b[..n]);
    }
  }

  /** The nonce is the index as an 11-byte big-endian number and then the last-chunk flag. */
  lemma NonceSpellsIndex(counter: nat, last: bool)
    requires counter <= MAX_INDEX
    ensures var n := ChunkNonce(counter, last);
            |n| == 12 && Number(n[..11]) == counter && n[11] == if last then 1 else 0
  {
    hide Number;
    var n := ChunkNonce(counter, last);
    assert n[..11] == [0, 0, 0] + BigEndian(8, counter);
    assert Pow256(8) == MAX_INDEX + 1;
    BigEndianSpells(8, counter);
    LeadingZeros(BigEndian(8, counter));
  }

  function AdvanceChunk(counter: nat): Option<nat> {
    if counter >= MAX_INDEX then None else Some(counter + 1)
  }

  // ---- Sealing ----

  /** One chunk per CHUNK bytes, one more for a remainder, and one for the empty value. */
  function NumChunks(n: nat): (c: nat)
    ensures c >= 1
  {
    n / CHUNK + if n % CHUNK != 0 || n == 0 then 1 else 0
  }

  /** The chunks of p from index counter on, the last one flagged. */
  function Sealed(a: Aead, p: Bytes, counter: nat): Bytes
    decreases |p|
  {
    if |p| <= CHUNK then a.seal(ChunkNonce(counter, true), p)
    else a.seal(ChunkNonce(counter, false), p[..CHUNK]) + Sealed(a, p[CHUNK..], counter + 1)
  }

  /** Full chunks only, none flagged. */
  function SealedFull(a: Aead, p: Bytes, counter: nat): Bytes
    requires |p| % CHUNK == 0
    decreases |p|
  {
    if p == [] then []
    else a.seal(ChunkNonce(counter, false), p[..CHUNK]) + SealedFull(a, p[CHUNK..], counter + 1)
  }

  lemma {:induction false} SealedFullSnoc(a: Aead, p: Bytes, q: Bytes, counter: nat)
    requires |p| % CHUNK == 0 && |q| == CHUNK
    ensures SealedFull(a, p + q, counter) ==
            SealedFull(a, p, counter) + a.seal(ChunkNonce(counter + |p| / CHUNK, false), q)
    decreases |p|
  {
    hide ChunkNonce;
    if p == [] {
      assert p + q == q && q[..CHUNK] == q && q[CHUNK..] == [];
    } else {
      assert (p + q)[..CHUNK] == p[..CHUNK] && (p + q)[CHUNK..] == p[CHUNK..] + q;
      SealedFullSnoc(a, p[CHUNK..], q, counter + 1);
    }
  }

  lemma {:induction false} SealedSplit(a: Aead, p: Bytes, q: Bytes, counter: nat)
    requires |p| % CHUNK == 0 && |q| <= CHUNK && (q == [] ==> p == [])
    ensures Sealed(a, p + q, counter) ==
            SealedFull(a, p, counter) + a.seal(ChunkNonce(counter + |p| / CHUNK, true), q)
    decreases |p|
  {
    hide ChunkNonce;
    if p == [] {
      assert p + q == q;
    } else {
      assert (p + q)[..CHUNK] == p[..CHUNK] && (p + q)[CHUNK..] == p[CHUNK..] + q;
      SealedSplit(a, p[CHUNK..], q, counter + 1);
    }
  }

  lemma SealNext(a: Aead, head: Bytes, p: Bytes, start: nat, i: nat)
    requires start == i * CHUNK && start + CHUNK <= |p|
    ensures head + SealedFull(a, p[..start + CHUNK], 0) ==
            head + SealedFull(a, p[..start], 0) + a.seal(ChunkNonce(i, false), p[start..start + CHUNK])
  {
    hide ChunkNonce, SealedFull;
    assert p[..start + CHUNK] == p[..start] + p[start..start + CHUNK];
    SealedFullSnoc(a, p[..start], p[start..start + CHUNK], 0);
    Regroup(head, SealedFull(a, p[..start], 0), a.seal(ChunkNonce(i, false), p[start..start + CHUNK]));
  }

  lemma SealLast(a: Aead, head: Bytes, p: Bytes, start: nat, i: nat)
    requires start == i * CHUNK && start <= |p| <= start + CHUNK && (start < |p| || p == [])
    ensures head + Sealed(a, p, 0) == head + SealedFull(a, p[..start], 0) + a.seal(ChunkNonce(i, true), p[start..])
  {
    hide ChunkNonce, SealedFull, Sealed;
    assert p == p[..start] + p[start..];
    SealedSplit(a, p[..start], p[start..], 0);
    Regroup(head, SealedFull(a, p[..start], 0), a.seal(ChunkNonce(i, true), p[start..]));
  }

  /** The whole payload. Sealing fails on a payload nonce of the wrong length and on a value of
      more chunks than the counter can number. */
  method SealStream(key: Keyed, plaintext: Bytes, payloadNonce: Bytes) returns (r: Option<Bytes>)
    ensures r == if |payloadNonce| == NONCE_SIZE && NumChunks(|plaintext|) <= MAX_INDEX + 1
                 then Some(payloadNonce + Sealed(key(payloadNonce), plaintext, 0)) else None
  {
    if |payloadNonce| != NONCE_SIZE {
      return None;
    }
    hide ChunkNonce, SealedFull, Sealed;
    var aead := key(payloadNonce);
    var chunks := |plaintext| / CHUNK;
    if |plaintext| % CHUNK != 0 || |plaintext| == 0 {
      chunks := chunks + 1;
    }
    var out := payloadNonce;
    assert SealedFull(aead, plaintext[..0], 0) == [] by { NothingSealed(aead); }
    var counter := 0;
    for i := 0 to chunks
      invariant i < chunks ==> counter == i <= MAX_INDEX && i * CHUNK <= |plaintext|
      invariant i < chunks ==> out == payloadNonce + SealedFull(aead, plaintext[..i * CHUNK], 0)
      invariant i == chunks ==> chunks <= MAX_INDEX + 1
      invariant i == chunks ==> out == payloadNonce + Sealed(aead, plaintext, 0)
    {
      var start := i * CHUNK;
      var end := start + CHUNK;
      if end > |plaintext| {
        end := |plaintext|;
      }
      var nonce := ChunkNonce(counter, i == chunks - 1);
      out := out + aead.seal(nonce, plaintext[start..end]);
      if i != chunks - 1 {
        SealNext(aead, payloadNonce, plaintext, start, i);
        var next := AdvanceChunk(counter);
        if next.None? {
          return None;
        }
        counter := next.value;
      } else {
        assert plaintext[start..end] == plaintext[start..];
        SealLast(aead, payloadNonce, plaintext, start, i);
      }
    }
    r := Some(out);
  }

  lemma NothingSealed(a: Aead)
    ensures SealedFull(a, [], 0) == []
  {
  }

  lemma Regroup(a: Bytes, b: Bytes, c: Bytes)
    ensures a + b + c == a + (b + c)
  {
  }

  // ---- Incremental sealing ----

  /** The streaming writer. `input` is everything written to it, `dst` what it has emitted. */
  class StreamWriter {
    const aead: Aead
    const payloadNonce: Bytes
    var buf: Bytes
    var counter: nat
    var closed: bool
    var dst: Bytes
    ghost var input: Bytes

    /** The buffer is held back: it is flushed only when more data is known to follow. */
    ghost predicate Valid()
      reads this
    {
      && |buf| <= CHUNK && counter <= MAX_INDEX
      && |input| == counter * CHUNK + |buf|
      && (counter > 0 ==> buf != [])
      && buf == input[counter * CHUNK..]
      && dst == payloadNonce + SealedFull(aead, input[..counter * CHUNK], 0)
    }

    constructor (aead: Aead, payloadNonce: Bytes)
      ensures Valid() && input == [] && !closed
      ensures this.aead == aead && this.payloadNonce == payloadNonce
    {
      this.aead := aead;
      this.payloadNonce := payloadNonce;
      buf, counter, closed, dst, input := [], 0, false, payloadNonce, [];
    }

    /** Flushes a full buffer as a non-final chunk. The counter refuses to wrap. */
    method FlushFull() returns (ok: bool)
      requires Valid() && |buf| == CHUNK
      modifies this
      ensures input == old(input) && closed == old(closed)
      ensures ok <==> old(counter) < MAX_INDEX
      ensures ok ==> counter == old(counter) + 1 && buf == [] == input[counter * CHUNK..] && |input| == counter * CHUNK
                     && dst == payloadNonce + SealedFull(aead, input[..counter * CHUNK], 0)
    {
      hide ChunkNonce, SealedFull;
      var nonce := ChunkNonce(counter, false);
      SealNext(aead, payloadNonce, input, counter * CHUNK, counter);
      assert input[counter * CHUNK..counter * CHUNK + CHUNK] == buf;
      dst := dst + aead.seal(nonce, buf);
      buf := [];
      var next := AdvanceChunk(counter);
      if next.None? {
        return false;
      }
      counter := next.value;
      ok := true;
    }

    /** Takes in data that fits the buffer. The buffer may have just been flushed empty. */
    method Fill(part: Bytes)
      requires part != [] && |buf| + |part| <= CHUNK && counter <= MAX_INDEX
      requires |input| == counter * CHUNK + |buf| && buf == input[counter * CHUNK..]
      requires dst == payloadNonce + SealedFull(aead, input[..counter * CHUNK], 0)
      modifies this
      ensures Valid() && input == old(input) + part && closed == old(closed)
    {
      hide SealedFull;
      assert input[..counter * CHUNK] == (input + part)[..counter * CHUNK];
      buf := buf + part;
      input := input + part;
    }

    /** On success everything of p is taken in. Failure means the writer was closed, or the
        input needs more chunks than the counter can number. */
    method Write(p: Bytes) returns (ok: bool)
      requires closed || Valid()
      modifies this
      ensures ok ==> !old(closed) && !closed && Valid() && input == old(input) + p
      ensures !ok ==> old(closed) || NumChunks(|old(input)| + |p|) > MAX_INDEX + 1
      ensures old(closed) ==> !ok && closed && input == old(input) && dst == old(dst)
    {
      if closed {
        return false;
      }
      hide ChunkNonce, SealedFull;
      var rest := p;
      while |rest| > 0
        invariant Valid() && !closed
        invariant input + rest == old(input) + p
        decreases |rest|
      {
        if |buf| == CHUNK {
          ghost var before := |input|;
          var flushed := FlushFull();
          if !flushed {
            assert before == (MAX_INDEX + 1) * CHUNK;
            return false;
          }
        }
        var n := if CHUNK - |buf| < |rest| then CHUNK - |buf| else |rest|;
        assert rest == rest[..n] + rest[n..];
        Regroup(input, rest[..n], rest[n..]);
        Fill(rest[..n]);
        rest := rest[n..];
      }
      ok := true;
    }

    /** The final chunk. The result is the whole-value sealing of everything written. Closing again
        adds nothing. */
    method Close()
      requires closed || Valid()
      modifies this
      ensures closed && input == old(input)
      ensures old(closed) ==> dst == old(dst)
      ensures !old(closed) ==> dst == payloadNonce + Sealed(aead, input, 0)
      ensures !old(closed) ==> NumChunks(|input|) <= MAX_INDEX + 1
    {
      hide ChunkNonce, SealedFull, Sealed;
      if closed {
        return;
      }
      closed := true;
      var nonce := ChunkNonce(counter, true);
      SealLast(aead, payloadNonce, input, counter * CHUNK, counter);
      dst := dst + aead.seal(nonce, buf);
      buf := [];
    }
  }

  /** However the value is split across writes, the closed writer has emitted SealStream's
      payload. */
  method SealInPieces(key: Keyed, pieces: seq<Bytes>, payloadNonce: Bytes) returns (r: Option<Bytes>)
    requires |payloadNonce| == NONCE_SIZE
    ensures var p := Joined(pieces);
            r == if NumChunks(|p|) <= MAX_INDEX + 1 then Some(payloadNonce + Sealed(key(payloadNonce), p, 0)) else None
  {
    hide Sealed, SealedFull;
    var w := new StreamWriter(key(payloadNonce), payloadNonce);
    for i := 0 to |pieces|
      invariant w.Valid() && !w.closed && w.aead == key(payloadNonce) && w.payloadNonce == payloadNonce
      invariant fresh(w) && w.input == Joined(pieces[..i])
    {
      JoinedSnoc(pieces, i);
      var ok := w.Write(pieces[i]);
      if !ok {
        JoinedMonotone(pieces, i + 1);
        return None;
      }
    }
    assert pieces[..|pieces|] == pieces;
    w.Close();
    r := Some(w.dst);
  }

  function Joined(pieces: seq<Bytes>): Bytes {
    if pieces == [] then [] else Joined(pieces[..|pieces| - 1]) + pieces[|pieces| - 1]
  }

  lemma JoinedSnoc(pieces: seq<Bytes>, i: nat)
    requires i < |pieces|
    ensures Joined(pieces[..i + 1]) == Joined(pieces[..i]) + pieces[i]
  {
    assert pieces[..i + 1][..i] == pieces[..i];
  }

  lemma {:induction false} JoinedMonotone(pieces: seq<Bytes>, i: nat)
    requires i <= |pieces|
    ensures |Joined(pieces[..i])| <= |Joined(pieces)|
    ensures NumChunks(|Joined(pieces[..i])|) <= NumChunks(|Joined(pieces)|)
    decreases |pieces| - i
  {
    if i == |pieces| {
      assert pieces[..i] == pieces;
    } else {
      JoinedSnoc(pieces, i);
      JoinedMonotone(pieces, i + 1);
    }
  }

  // ---- Opening a whole payload ----

  function OpenBody(a: Aead, body: Bytes, counter: nat): Option<Bytes>
    decreases |body|
  {
    if |body| > MAX_CHUNK then
      var first := a.open(ChunkNonce(counter, false), body[..MAX_CHUNK]);
      if first.None? || AdvanceChunk(counter).None? then None
      else
        var rest := OpenBody(a, body[MAX_CHUNK..], counter + 1);
        if rest.None? then None else Some(first.value + rest.value)
    else if |body| < TAG then None
    else a.open(ChunkNonce(counter, true), body)
  }

  method OpenStream(key: Keyed, payload: Bytes) returns (r: Option<Bytes>)
    ensures r == if |payload| < NONCE_SIZE then None
                 else OpenBody(key(payload[..NONCE_SIZE]), payload[NONCE_SIZE..], 0)
  {
    if |payload| < NONCE_SIZE {
      return None;
    }
    hide ChunkNonce;
    var body := payload[NONCE_SIZE..];
    var aead := key(payload[..NONCE_SIZE]);
    ghost var whole := OpenBody(aead, body, 0);
    var out: Bytes := [];
    var counter := 0;
    assert whole.Some? ==> [] + whole.value == whole.value;
    while |body| > MAX_CHUNK
      invariant var rest := OpenBody(aead, body, counter);
                whole == if rest.None? then None else Some(out + rest.value)
      decreases |body|
    {
      var chunk := aead.open(ChunkNonce(counter, false), body[..MAX_CHUNK]);
      if chunk.None? {
        return None;
      }
      var next := AdvanceChunk(counter);
      if next.None? {
        return None;
      }
      ghost var rest := OpenBody(aead, body[MAX_CHUNK..], counter + 1);
      if rest.Some? {
        Regroup(out, chunk.value, rest.value);
      }
      out := out + chunk.value;
      body := body[MAX_CHUNK..];
      counter := next.value;
    }
    if |body| < TAG {
      return None;
    }
    var final := aead.open(ChunkNonce(counter, true), body);
    if final.None? {
      return None;
    }
    r := Some(out + final.value);
  }

  /** The second framing OpenStream accepts for a value of whole chunks: every chunk unflagged,
      then an empty flagged one. No sealer emits it. */
  function SealedPadded(a: Aead, p: Bytes, counter: nat): Bytes
    requires p != [] && |p| % CHUNK == 0
  {
    SealedFull(a, p, counter) + a.seal(ChunkNonce(counter + |p| / CHUNK, true), [])
  }

  ghost predicate Framing(a: Aead, body: Bytes, p: Bytes, counter: nat) {
    || (body == Sealed(a, p, counter) && counter + NumChunks(|p|) <= MAX_INDEX + 1)
    || (p != [] && |p| % CHUNK == 0 && body == SealedPadded(a, p, counter) && counter + NumChunks(|p|) <= MAX_INDEX)
  }

  lemma FramingCons(a: Aead, p: Bytes, rest: Bytes, q: Bytes, counter: nat)
    requires |p| == CHUNK && Framing(a, rest, q, counter + 1)
    ensures Framing(a, a.seal(ChunkNonce(counter, false), p) + rest, p + q, counter)
  {
    hide ChunkNonce;
    assert (p + q)[..CHUNK] == p && (p + q)[CHUNK..] == q;
    if rest == Sealed(a, q, counter + 1) && q == [] {
      assert p + q == p && p[CHUNK..] == [] && p[..CHUNK] == p;
      assert SealedFull(a, p, counter) == a.seal(ChunkNonce(counter, false), p) + SealedFull(a, [], counter + 1);
    } else if rest != Sealed(a, q, counter + 1) {
      Regroup(a.seal(ChunkNonce(counter, false), p), SealedFull(a, q, counter + 1),
              a.seal(ChunkNonce(counter + 1 + |q| / CHUNK, true), []));
    }
  }

  /** Whatever opens is a framing of what it opens to. */
  lemma {:induction false} OpenedIsFraming(a: Aead, body: Bytes, counter: nat)
    requires Lawful(a) && counter <= MAX_INDEX && OpenBody(a, body, counter).Some?
    ensures Framing(a, body, OpenBody(a, body, counter).value, counter)
    decreases |body|
  {
    hide ChunkNonce;
    if |body| > MAX_CHUNK {
      var n := ChunkNonce(counter, false);
      var p := a.open(n, body[..MAX_CHUNK]).value;
      assert a.seal(n, p) == body[..MAX_CHUNK];
      OpenedIsFraming(a, body[MAX_CHUNK..], counter + 1);
      FramingCons(a, p, body[MAX_CHUNK..], OpenBody(a, body[MAX_CHUNK..], counter + 1).value, counter);
      assert body == body[..MAX_CHUNK] + body[MAX_CHUNK..];
    } else {
      var n := ChunkNonce(counter, true);
      assert a.seal(n, a.open(n, body).value) == body;
    }
  }

  lemma OpenAfterChunk(a: Aead, p: Bytes, rest: Bytes, counter: nat)
    requires Lawful(a) && |p| == CHUNK && rest != [] && counter < MAX_INDEX
    ensures var n := ChunkNonce(counter, false);
            OpenBody(a, a.seal(n, p) + rest, counter) ==
            (var o := OpenBody(a, rest, counter + 1); if o.None? then None else Some(p + o.value))
  {
    hide ChunkNonce;
    var n := ChunkNonce(counter, false);
    var c := a.seal(n, p);
    assert |c| == MAX_CHUNK;
    assert a.open(n, c) == Some(p);
    assert (c + rest)[..MAX_CHUNK] == c && (c + rest)[MAX_CHUNK..] == rest;
  }

  lemma OpenLastChunk(a: Aead, p: Bytes, counter: nat)
    requires Lawful(a) && |p| <= CHUNK
    ensures OpenBody(a, a.seal(ChunkNonce(counter, true), p), counter) == Some(p)
  {
    hide ChunkNonce;
    var n := ChunkNonce(counter, true);
    assert |a.seal(n, p)| == |p| + TAG;
    assert a.open(n, a.seal(n, p)) == Some(p);
  }

  lemma {:induction false} SealedOpens(a: Aead, p: Bytes, counter: nat)
    requires Lawful(a) && counter + NumChunks(|p|) <= MAX_INDEX + 1
    ensures OpenBody(a, Sealed(a, p, counter), counter) == Some(p)
    decreases |p|
  {
    hide ChunkNonce, OpenBody;
    if |p| <= CHUNK {
      OpenLastChunk(a, p, counter);
    } else {
      SealedOpens(a, p[CHUNK..], counter + 1);
      SealedNonempty(a, p[CHUNK..], counter + 1);
      OpenAfterChunk(a, p[..CHUNK], Sealed(a, p[CHUNK..], counter + 1), counter);
      assert p == p[..CHUNK] + p[CHUNK..];
    }
  }

  lemma SealedNonempty(a: Aead, p: Bytes, counter: nat)
    requires Lawful(a)
    ensures Sealed(a, p, counter) != []
  {
    hide ChunkNonce;
    assert |a.seal(ChunkNonce(counter, true), p)| == |p| + TAG;
    if |p| > CHUNK {
      assert |a.seal(ChunkNonce(counter, false), p[..CHUNK])| == CHUNK + TAG;
    }
  }

  /** The padded framing after its first chunk. */
  function PaddedTail(a: Aead, q: Bytes, counter: nat): Bytes
    requires |q| % CHUNK == 0
  {
    if q == [] then a.seal(ChunkNonce(counter, true), []) else SealedPadded(a, q, counter)
  }

  lemma PaddedCons(a: Aead, p: Bytes, counter: nat)
    requires p != [] && |p| % CHUNK == 0
    ensures SealedPadded(a, p, counter) ==
            a.seal(ChunkNonce(counter, false), p[..CHUNK]) + PaddedTail(a, p[CHUNK..], counter + 1)
  {
    hide ChunkNonce;
    var q := p[CHUNK..];
    var last := a.seal(ChunkNonce(counter + |p| / CHUNK, true), []);
    Regroup(a.seal(ChunkNonce(counter, false), p[..CHUNK]), SealedFull(a, q, counter + 1), last);
    if q == [] {
      assert SealedFull(a, q, counter + 1) + last == last;
    }
  }

  lemma {:induction false} PaddedOpens(a: Aead, p: Bytes, counter: nat)
    requires Lawful(a) && p != [] && |p| % CHUNK == 0 && counter + NumChunks(|p|) <= MAX_INDEX
    ensures OpenBody(a, SealedPadded(a, p, counter), counter) == Some(p)
    decreases |p|
  {
    hide ChunkNonce, OpenBody, SealedFull, SealedPadded;
    var q := p[CHUNK..];
    PaddedCons(a, p, counter);
    if q == [] {
      OpenLastChunk(a, [], counter + 1);
    } else {
      PaddedOpens(a, q, counter + 1);
    }
    assert PaddedTail(a, q, counter + 1) != [] by { TailNonempty(a, q, counter + 1); }
    OpenAfterChunk(a, p[..CHUNK], PaddedTail(a, q, counter + 1), counter);
    assert p == p[..CHUNK] + q;
  }

  lemma TailNonempty(a: Aead, q: Bytes, counter: nat)
    requires Lawful(a) && |q| % CHUNK == 0
    ensures PaddedTail(a, q, counter) != []
  {
    hide ChunkNonce, SealedFull;
    assert |a.seal(ChunkNonce(counter + |q| / CHUNK, true), [])| == TAG;
  }

  /** OpenStream accepts exactly two framings of a value: SealStream's, and for a nonempty value
      of whole chunks also the padded one. */
  lemma OpenBodyExact(a: Aead, body: Bytes, p: Bytes)
    requires Lawful(a)
    ensures OpenBody(a, body, 0) == Some(p) <==> Framing(a, body, p, 0)
  {
    hide OpenBody, Sealed, SealedPadded;
    if OpenBody(a, body, 0).Some? {
      OpenedIsFraming(a, body, 0);
    }
    if Framing(a, body, p, 0) {
      if body == Sealed(a, p, 0) && NumChunks(|p|) <= MAX_INDEX + 1 {
        SealedOpens(a, p, 0);
      } else {
        PaddedOpens(a, p, 0);
      }
    }
  }

  // ---- Opening with look-ahead ----

  datatype Opened = Opened(ok: bool, written: Bytes)

  /** What the look-ahead opener does from chunk `counter` on: whether it succeeds, and the
      plaintext it has written either way. */
  function OpenAhead(a: Aead, body: Bytes, counter: nat, maxChunks: int): Opened
    decreases |body|
  {
    if |body| < TAG || (maxChunks > 0 && counter >= maxChunks) then Opened(false, [])
    else
      var n := if |body| < MAX_CHUNK then |body| else MAX_CHUNK;
      var last := n == |body|;
      var chunk := a.open(ChunkNonce(counter, last), body[..n]);
      if chunk.None? then Opened(false, [])
      else if last then Opened(true, chunk.value)
      else if AdvanceChunk(counter).None? then Opened(false, chunk.value)
      else
        var rest := OpenAhead(a, body[n..], counter + 1, maxChunks);
        Opened(rest.ok, chunk.value + rest.written)
  }

  /** Reads up to a whole ciphertext chunk, fewer bytes only at the end of the source. */
  function ReadChunk(src: Bytes): (c: Bytes)
    ensures c <= src && |c| == if |src| < MAX_CHUNK then |src| else MAX_CHUNK
  {
    if |src| < MAX_CHUNK then src else src[..MAX_CHUNK]
  }

  /** Opens chunk by chunk, holding a current and a next ciphertext chunk. Returns what was
      written to the destination, also on failure. */
  method OpenStreamTo(key: Keyed, source: Bytes, maxChunks: int) returns (r: Opened)
    ensures r == if |source| < NONCE_SIZE then Opened(false, [])
                 else OpenAhead(key(source[..NONCE_SIZE]), source[NONCE_SIZE..], 0, maxChunks)
  {
    if |source| < NONCE_SIZE {
      return Opened(false, []);
    }
    hide ChunkNonce, OpenAhead;
    var aead := key(source[..NONCE_SIZE]);
    var src := source[NONCE_SIZE..];
    ghost var whole := OpenAhead(aead, src, 0, maxChunks);
    var dst: Bytes := [];
    var cur := ReadChunk(src);
    src := src[|cur|..];
    if |cur| < TAG {
      AheadRefuses(aead, source[NONCE_SIZE..], 0, maxChunks);
      return Opened(false, dst);
    }
    var counter: nat := 0;
    assert cur + src == source[NONCE_SIZE..];
    assert [] + whole.written == whole.written;
    while true
      invariant |cur| >= TAG && |cur| <= MAX_CHUNK && (src != [] ==> |cur| == MAX_CHUNK)
      invariant var rest := OpenAhead(aead, cur + src, counter, maxChunks);
                whole == Opened(rest.ok, dst + rest.written)
      decreases |src|
    {
      var next := ReadChunk(src);
      ghost var before := src;
      src := src[|next|..];
      assert before == next + src;
      var last := |next| == 0;
      if maxChunks > 0 && counter >= maxChunks {
        AheadRefuses(aead, cur + before, counter, maxChunks);
        return Opened(false, dst);
      }
      AheadStep(aead, cur, before, counter, maxChunks);
      var chunk := aead.open(ChunkNonce(counter, last), cur);
      if chunk.None? {
        return Opened(false, dst);
      }
      ghost var rest := OpenAhead(aead, before, counter + 1, maxChunks).written;
      Regroup(dst, chunk.value, rest);
      dst := dst + chunk.value;
      if last {
        return Opened(true, dst);
      }
      var advanced := AdvanceChunk(counter);
      if advanced.None? {
        return Opened(false, dst);
      }
      counter := advanced.value;
      if |next| < TAG {
        AheadRefuses(aead, before, counter, maxChunks);
        return Opened(false, dst);
      }
      cur := next;
    }
  }

  lemma AheadRefuses(a: Aead, body: Bytes, counter: nat, maxChunks: int)
    requires |body| < TAG || (maxChunks > 0 && counter >= maxChunks)
    ensures OpenAhead(a, body, counter, maxChunks) == Opened(false, [])
  {
  }

  lemma AheadStep(a: Aead, cur: Bytes, src: Bytes, counter: nat, maxChunks: int)
    requires TAG <= |cur| <= MAX_CHUNK && (src != [] ==> |cur| == MAX_CHUNK)
    requires !(maxChunks > 0 && counter >= maxChunks)
    ensures OpenAhead(a, cur + src, counter, maxChunks) ==
            var chunk := a.open(ChunkNonce(counter, src == []), cur);
            if chunk.None? then Opened(false, [])
            else if src == [] then Opened(true, chunk.value)
            else if AdvanceChunk(counter).None? then Opened(false, chunk.value)
            else (var rest := OpenAhead(a, src, counter + 1, maxChunks); Opened(rest.ok, chunk.value + rest.written))
  {
    hide ChunkNonce;
    assert (cur + src)[..|cur|] == cur && (cur + src)[|cur|..] == src;
  }

  /** Ciphertext chunks in a body. */
  function BodyChunks(n: nat): nat {
    if n <= MAX_CHUNK then 1 else 1 + BodyChunks(n - MAX_CHUNK)
  }

  /** The look-ahead opener succeeds on exactly the bodies OpenStream opens that stay within the
      chunk bound, and writes the same plaintext. */
  lemma {:induction false} AheadIsOpen(a: Aead, body: Bytes, counter: nat, maxChunks: int)
    ensures var ahead := OpenAhead(a, body, counter, maxChunks);
            && (ahead.ok <==> OpenBody(a, body, counter).Some? && (maxChunks <= 0 || counter + BodyChunks(|body|) <= maxChunks))
            && (ahead.ok ==> OpenBody(a, body, counter) == Some(ahead.written))
    decreases |body|
  {
    hide ChunkNonce;
    if |body| > MAX_CHUNK {
      AheadIsOpen(a, body[MAX_CHUNK..], counter + 1, maxChunks);
    } else {
      assert body[..|body|] == body;
    }
  }

  // ---- An ideal AEAD: only what one stream sealed will open ----

  /** Chunk i of the sealing of p, as plaintext. */
  function ChunkOf(p: Bytes, i: nat): Bytes
    requires i < NumChunks(|p|)
  {
    if i + 1 < NumChunks(|p|) then p[i * CHUNK..(i + 1) * CHUNK] else p[i * CHUNK..]
  }

  /** One sealing of p has put this pair of nonce and ciphertext on record. */
  ghost predicate Recorded(a: Aead, p: Bytes, n: Nonce, c: Bytes) {
    exists i :: 0 <= i < NumChunks(|p|) && n == ChunkNonce(i, i == NumChunks(|p|) - 1) && c == a.seal(n, ChunkOf(p, i))
  }

  /** Nothing opens but what the sealing of p put on record. */
  ghost predicate OnlyOpensSealing(a: Aead, p: Bytes) {
    forall n, c :: a.open(n, c).Some? ==> Recorded(a, p, n, c)
  }

  /** The real AEAD without forgeries: its opener refuses whatever was not put on record. */
  ghost function OnRecord(a: Aead, p: Bytes): (r: Aead)
    requires Lawful(a)
    ensures Sound(r) && OnlyOpensSealing(r, p)
  {
    Aead(a.seal, (n, c) => if Recorded(a, p, n, c) then a.open(n, c) else None)
  }

  lemma OpensAtIndex(a: Aead, p: Bytes, counter: nat, last: bool, c: Bytes)
    requires OnlyOpensSealing(a, p) && NumChunks(|p|) <= MAX_INDEX + 1 && counter <= MAX_INDEX
    requires a.open(ChunkNonce(counter, last), c).Some?
    ensures counter < NumChunks(|p|) && (last <==> counter == NumChunks(|p|) - 1)
    ensures c == a.seal(ChunkNonce(counter, last), ChunkOf(p, counter))
  {
    hide ChunkNonce, ChunkOf;
    var n := ChunkNonce(counter, last);
    assert Recorded(a, p, n, c);
    var i :| 0 <= i < NumChunks(|p|) && n == ChunkNonce(i, i == NumChunks(|p|) - 1) && c == a.seal(n, ChunkOf(p, i));
    NoncesDistinct(counter, i, last, i == NumChunks(|p|) - 1);
  }

  lemma ChunksOfRest(p: Bytes, i: nat)
    requires i < NumChunks(|p|)
    ensures i * CHUNK <= |p|
    ensures i == NumChunks(|p|) - 1 ==> |p[i * CHUNK..]| <= CHUNK && ChunkOf(p, i) == p[i * CHUNK..]
    ensures i < NumChunks(|p|) - 1 ==> |p[i * CHUNK..]| > CHUNK && ChunkOf(p, i) == p[i * CHUNK..][..CHUNK]
                                       && p[i * CHUNK..][CHUNK..] == p[(i + 1) * CHUNK..]
  {
  }

  /** No truncation, reordering, duplication, omission or splice of one stream's chunks opens:
      whatever opens from chunk i on is the sealing's own tail. */
  lemma {:induction false} OnlyTheSealingOpens(a: Aead, p: Bytes, body: Bytes, i: nat)
    requires Sound(a) && OnlyOpensSealing(a, p) && NumChunks(|p|) <= MAX_INDEX + 1 && i <= MAX_INDEX
    requires OpenBody(a, body, i).Some?
    ensures i < NumChunks(|p|) && i * CHUNK <= |p|
    ensures body == Sealed(a, p[i * CHUNK..], i) && OpenBody(a, body, i) == Some(p[i * CHUNK..])
    decreases |body|
  {
    hide ChunkNonce, ChunkOf, OnlyOpensSealing, NumChunks, Recorded;
    if |body| > MAX_CHUNK {
      OpensAtIndex(a, p, i, false, body[..MAX_CHUNK]);
      ChunksOfRest(p, i);
      OnlyTheSealingOpens(a, p, body[MAX_CHUNK..], i + 1);
      var n := ChunkNonce(i, false);
      assert a.seal(n, a.open(n, body[..MAX_CHUNK]).value) == body[..MAX_CHUNK];
      assert body == body[..MAX_CHUNK] + body[MAX_CHUNK..];
      assert p[i * CHUNK..] == ChunkOf(p, i) + p[(i + 1) * CHUNK..];
    } else {
      OpensAtIndex(a, p, i, true, body);
      ChunksOfRest(p, i);
      assert a.seal(ChunkNonce(i, true), a.open(ChunkNonce(i, true), body).value) == body;
    }
  }

  /** The sealings on record under the file key: each payload nonce was used for one plaintext. */
  ghost predicate OnlyOpensPayloads(key: Keyed, sealings: map<Bytes, Bytes>) {
    && (forall m :: m in sealings ==> |m| == NONCE_SIZE && NumChunks(|sealings[m]|) <= MAX_INDEX + 1)
    && (forall m :: m in sealings ==> Sound(key(m)) && OnlyOpensSealing(key(m), sealings[m]))
    && (forall m, n, c :: m !in sealings ==> key(m).open(n, c).None?)
  }

  /** The real AEADs of a file key without forgeries under any payload nonce. */
  ghost function AllOnRecord(key: Keyed, sealings: map<Bytes, Bytes>): (r: Keyed)
    requires forall m :: Lawful(key(m))
    requires forall m :: m in sealings ==> |m| == NONCE_SIZE && NumChunks(|sealings[m]|) <= MAX_INDEX + 1
    ensures OnlyOpensPayloads(r, sealings)
  {
    (m: Bytes) =>
      if m in sealings then OnRecord(key(m), sealings[m]) else Aead(key(m).seal, (n, c) => None)
  }

  /** Under a file key, whatever it has sealed, exactly the payloads it sealed open: no chunk of
      one can be put into another. */
  lemma TamperedPayloadRejected(key: Keyed, sealings: map<Bytes, Bytes>, payload: Bytes)
    requires OnlyOpensPayloads(key, sealings) && |payload| >= NONCE_SIZE
    ensures OpenBody(key(payload[..NONCE_SIZE]), payload[NONCE_SIZE..], 0).Some?
            ==> var m := payload[..NONCE_SIZE]; m in sealings && payload == m + Sealed(key(m), sealings[m], 0)
  {
    hide Sealed, NumChunks, Sound, OnlyOpensSealing, ChunkNonce;
    var m, body := payload[..NONCE_SIZE], payload[NONCE_SIZE..];
    assert payload == m + body;
    if OpenBody(key(m), body, 0).Some? {
      SomethingOpens(key(m), body, 0);
      var p := sealings[m];
      assert p[0..] == p;
      OnlyTheSealingOpens(key(m), p, body, 0);
    }
  }

  lemma SomethingOpens(a: Aead, body: Bytes, counter: nat)
    requires OpenBody(a, body, counter).Some?
    ensures exists n, c :: a.open(n, c).Some?
  {
    hide ChunkNonce;
    if |body| > MAX_CHUNK {
      assert a.open(ChunkNonce(counter, false), body[..MAX_CHUNK]).Some?;
    } else {
      assert a.open(ChunkNonce(counter, true), body).Some?;
    }
  }

  /** Whatever the look-ahead opener has written, even from a stream it then rejects, is a
      whole number of chunks of the sealed plaintext, or all of it. */
  lemma {:induction false} WrittenIsAlignedPrefix(a: Aead, p: Bytes, body: Bytes, i: nat, maxChunks: int)
    requires Sound(a) && OnlyOpensSealing(a, p) && NumChunks(|p|) <= MAX_INDEX + 1 && i <= MAX_INDEX
    ensures AlignedPrefix(OpenAhead(a, body, i, maxChunks).written, p, i)
    decreases |body|
  {
    hide ChunkNonce, ChunkOf, OnlyOpensSealing, NumChunks, Recorded, AlignedPrefix;
    var n := if |body| < MAX_CHUNK then |body| else MAX_CHUNK;
    NothingIsAligned(p, i);
    if |body| >= TAG && !(maxChunks > 0 && i >= maxChunks) && a.open(ChunkNonce(i, n == |body|), body[..n]).Some? {
      OpensAtIndex(a, p, i, n == |body|, body[..n]);
      assert a.seal(ChunkNonce(i, n == |body|), a.open(ChunkNonce(i, n == |body|), body[..n]).value) == body[..n];
      ChunkIsAligned(p, i);
      if n < |body| && i < MAX_INDEX {
        WrittenIsAlignedPrefix(a, p, body[n..], i + 1, maxChunks);
        AlignedCons(p, i, OpenAhead(a, body[n..], i + 1, maxChunks).written);
      }
    }
  }

  /** w is what lies in p from chunk i on, up to a chunk boundary or the end. */
  ghost predicate AlignedPrefix(w: Bytes, p: Bytes, i: nat) {
    w == [] || (i * CHUNK <= |p| && w <= p[i * CHUNK..] && (|w| % CHUNK == 0 || w == p[i * CHUNK..]))
  }

  lemma NothingIsAligned(p: Bytes, i: nat)
    ensures AlignedPrefix([], p, i)
  {
  }

  lemma ChunkIsAligned(p: Bytes, i: nat)
    requires i < NumChunks(|p|)
    ensures AlignedPrefix(ChunkOf(p, i), p, i)
  {
    ChunksOfRest(p, i);
  }

  lemma AlignedCons(p: Bytes, i: nat, w: Bytes)
    requires i + 1 < NumChunks(|p|) && AlignedPrefix(w, p, i + 1)
    ensures AlignedPrefix(ChunkOf(p, i) + w, p, i)
  {
    ChunksOfRest(p, i);
    assert p[i * CHUNK..] == ChunkOf(p, i) + p[(i + 1) * CHUNK..];
  }
}
