/** The recipient set of a root manifest: the listed keys, the break-glass role, and the capsule's
    wraps. */
module Recipients {
  import opened Common

  /** A listed recipient; the key is None when its parts do not decode. */
  datatype Recipient = Recipient(key: Option<Bytes>, fingerprint: string, role: string)

  /** The wraps are known by the fingerprints they address. */
  datatype Root = Root(breakGlassPresent: bool, recipients: seq<Recipient>, wraps: seq<string>, recipientSetHash: Option<Bytes>)

  function Listed(rs: seq<Recipient>): (s: set<string>)
    ensures forall f :: f in s <==> exists i :: 0 <= i < |rs| && rs[i].fingerprint == f
  {
    if rs == [] then {} else Listed(rs[..|rs| - 1]) + {rs[|rs| - 1].fingerprint}
  }

  function Addressed(wraps: seq<string>): (s: set<string>)
    ensures forall f :: f in s <==> f in wraps
  {
    if wraps == [] then {}
    else
      assert wraps == wraps[..|wraps| - 1] + [wraps[|wraps| - 1]];
      Addressed(wraps[..|wraps| - 1]) + {wraps[|wraps| - 1]}
  }

  function BreakGlassCount(rs: seq<Recipient>): nat {
    if rs == [] then 0 else BreakGlassCount(rs[..|rs| - 1]) + if rs[|rs| - 1].role == "break-glass" then 1 else 0
  }

  predicate Genuine(fp: Bytes -> string, r: Recipient) { r.key.Some? && fp(r.key.value) == r.fingerprint }

  predicate AllGenuine(fp: Bytes -> string, rs: seq<Recipient>) { forall i :: 0 <= i < |rs| ==> Genuine(fp, rs[i]) }

  function Keys(rs: seq<Recipient>): (ks: seq<Bytes>)
    requires forall i :: 0 <= i < |rs| ==> rs[i].key.Some?
    ensures |ks| == |rs| && forall i :: 0 <= i < |rs| ==> ks[i] == rs[i].key.value
  {
    seq(|rs|, i requires 0 <= i < |rs| => rs[i].key.value)
  }

  /** Every listed fingerprint is its key's, one recipient is break-glass, the wraps address
      exactly the listed recipients, and the signed hash is that of the listed keys. */
  predicate Holds(fp: Bytes -> string, setHash: seq<Bytes> -> Bytes, root: Root) {
    && root.breakGlassPresent && AllGenuine(fp, root.recipients) && BreakGlassCount(root.recipients) == 1
    && Addressed(root.wraps) == Listed(root.recipients)
    && root.recipientSetHash == Some(setHash(Keys(root.recipients)))
  }

  method ValidateRecipients(fp: Bytes -> string, rs: seq<Recipient>) returns (ok: bool, pubs: seq<Bytes>, recipientFp: map<string, nat>)
    ensures ok <==> AllGenuine(fp, rs) && BreakGlassCount(rs) == 1
    ensures ok ==> pubs == Keys(rs) && recipientFp.Keys == Listed(rs)
  {
    hide Listed, BreakGlassCount;
    pubs, recipientFp := [], map[];
    var breakGlass := 0;
    NobodyListed();
    for i := 0 to |rs|
      invariant AllGenuine(fp, rs[..i]) && pubs == Keys(rs[..i])
      invariant recipientFp.Keys == Listed(rs[..i]) && breakGlass == BreakGlassCount(rs[..i])
    {
      OneMoreListed(rs, i);
      var r := rs[i];
      if r.key.None? {
        return false, pubs, recipientFp;
      }
      if fp(r.key.value) != r.fingerprint {
        return false, pubs, recipientFp;
      }
      pubs := pubs + [r.key.value];
      recipientFp := recipientFp[r.fingerprint := (if r.fingerprint in recipientFp then recipientFp[r.fingerprint] else 0) + 1];
      if r.role == "break-glass" {
        breakGlass := breakGlass + 1;
      }
    }
    assert rs[..|rs|] == rs;
    ok := breakGlass == 1;
  }

  lemma NobodyListed()
    ensures Listed([]) == {} && BreakGlassCount([]) == 0
  {
  }

  lemma OneMoreListed(rs: seq<Recipient>, i: nat)
    requires i < |rs|
    ensures Listed(rs[..i + 1]) == Listed(rs[..i]) + {rs[i].fingerprint}
    ensures BreakGlassCount(rs[..i + 1]) == BreakGlassCount(rs[..i]) + if rs[i].role == "break-glass" then 1 else 0
  {
    assert rs[..i + 1][..i] == rs[..i];
  }

  /** Every wrap addresses a listed recipient, and as many fingerprints are addressed as listed. */
  method VerifyWrapCoverage(setHash: seq<Bytes> -> Bytes, root: Root, pubs: seq<Bytes>, recipientFp: map<string, nat>) returns (ok: bool)
    ensures ok <==> Addressed(root.wraps) == recipientFp.Keys && root.recipientSetHash == Some(setHash(pubs))
  {
    hide Addressed;
    var wrapFp: map<string, nat> := map[];
    assert Addressed(root.wraps[..0]) == {} by { NothingAddressed(); }
    for i := 0 to |root.wraps|
      invariant wrapFp.Keys == Addressed(root.wraps[..i]) && wrapFp.Keys <= recipientFp.Keys
    {
      var w := root.wraps[i];
      OneMoreAddressed(root.wraps, i);
      if w !in recipientFp {
        assert w in Addressed(root.wraps);
        return false;
      }
      wrapFp := wrapFp[w := (if w in wrapFp then wrapFp[w] else 0) + 1];
    }
    assert root.wraps[..|root.wraps|] == root.wraps;
    SameSize(wrapFp.Keys, recipientFp.Keys);
    if |wrapFp.Keys| != |recipientFp.Keys| {
      return false;
    }
    ok := root.recipientSetHash == Some(setHash(pubs));
  }

  lemma NothingAddressed()
    ensures Addressed([]) == {}
  {
  }

  lemma OneMoreAddressed(wraps: seq<string>, i: nat)
    requires i < |wraps|
    ensures Addressed(wraps[..i + 1]) == Addressed(wraps[..i]) + {wraps[i]}
  {
    assert wraps[..i + 1][..i] == wraps[..i];
  }

  lemma SameSize(a: set<string>, b: set<string>)
    requires a <= b
    ensures |a| == |b| <==> a == b
  {
    assert b == a + (b - a);
    assert |b| == |a| + |b - a|;
    if |b - a| == 0 {
      assert b - a == {};
    }
  }

  method CheckRecipientSet(fp: Bytes -> string, setHash: seq<Bytes> -> Bytes, root: Root) returns (ok: bool)
    ensures ok <==> Holds(fp, setHash, root)
  {
    if !root.breakGlassPresent {
      return false;
    }
    var pubs, recipientFp;
    ok, pubs, recipientFp := ValidateRecipients(fp, root.recipients);
    if !ok {
      return;
    }
    ok := VerifyWrapCoverage(setHash, root, pubs, recipientFp);
  }

  /** Against an accepted root, changing the wraps alone is refused exactly when it changes which
      fingerprints are addressed: a wrap dropped outright or retargeted elsewhere is, a second
      wrap for a listed recipient is not. */
  lemma WrapsChangeDetected(fp: Bytes -> string, setHash: seq<Bytes> -> Bytes, root: Root, wraps: seq<string>)
    requires Holds(fp, setHash, root)
    ensures Holds(fp, setHash, root.(wraps := wraps)) <==> forall f :: f in wraps <==> f in root.wraps
  {
    hide BreakGlassCount, AllGenuine;
    assert Addressed(root.wraps) == Listed(root.recipients);
    if forall f :: f in wraps <==> f in root.wraps {
      assert Addressed(wraps) == Addressed(root.wraps);
    }
  }

  /** The three edits of one wrap. A wrap for a stranger cannot be added; a wrap whose recipient
      has no other cannot be dropped or retargeted; and a retargeted one stays with the listed. */
  lemma WrapEdits(fp: Bytes -> string, setHash: seq<Bytes> -> Bytes, root: Root, i: nat, w: string)
    requires Holds(fp, setHash, root) && i < |root.wraps|
    ensures Holds(fp, setHash, root.(wraps := root.wraps + [w])) <==> w in Listed(root.recipients)
    ensures Holds(fp, setHash, root.(wraps := root.wraps[..i] + root.wraps[i + 1..])) <==> Elsewhere(root.wraps, i, root.wraps[i])
    ensures Holds(fp, setHash, root.(wraps := root.wraps[i := w])) <==>
              w == root.wraps[i] || (w in Listed(root.recipients) && Elsewhere(root.wraps, i, root.wraps[i]))
  {
    hide Holds, Listed, Elsewhere;
    var wraps := root.wraps;
    assert forall f :: f in Listed(root.recipients) <==> f in wraps by { ListedAreAddressed(fp, setHash, root); }
    WrapsChangeDetected(fp, setHash, root, wraps + [w]);
    WrapsChangeDetected(fp, setHash, root, wraps[..i] + wraps[i + 1..]);
    WrapsChangeDetected(fp, setHash, root, wraps[i := w]);
    MembersElsewhere(wraps, i);
    DropMembers(wraps, i);
    RetargetMembers(wraps, i, w);
  }

  lemma ListedAreAddressed(fp: Bytes -> string, setHash: seq<Bytes> -> Bytes, root: Root)
    requires Holds(fp, setHash, root)
    ensures forall f :: f in Listed(root.recipients) <==> f in root.wraps
  {
    assert Addressed(root.wraps) == Listed(root.recipients);
  }

  /** Some wrap other than the one at i addresses f. */
  predicate Elsewhere(wraps: seq<string>, i: nat, f: string) {
    exists j :: 0 <= j < |wraps| && j != i && wraps[j] == f
  }

  lemma DropMembers(wraps: seq<string>, i: nat)
    requires i < |wraps|
    ensures forall f :: f in wraps[..i] + wraps[i + 1..] <==> Elsewhere(wraps, i, f)
  {
    var rest := wraps[..i] + wraps[i + 1..];
    forall f | f in rest
      ensures Elsewhere(wraps, i, f)
    {
      var p :| 0 <= p < |rest| && rest[p] == f;
      assert wraps[if p < i then p else p + 1] == f;
    }
    forall f | Elsewhere(wraps, i, f)
      ensures f in rest
    {
      var j :| 0 <= j < |wraps| && j != i && wraps[j] == f;
      assert rest[if j < i then j else j - 1] == f;
    }
  }

  lemma RetargetMembers(wraps: seq<string>, i: nat, w: string)
    requires i < |wraps|
    ensures forall f :: f in wraps[i := w] <==> f == w || Elsewhere(wraps, i, f)
  {
    var edited := wraps[i := w];
    assert edited[i] == w;
    forall f | f in edited && f != w
      ensures Elsewhere(wraps, i, f)
    {
      var p :| 0 <= p < |edited| && edited[p] == f;
      assert wraps[p] == f;
    }
    forall f | Elsewhere(wraps, i, f)
      ensures f in edited
    {
      var j :| 0 <= j < |wraps| && j != i && wraps[j] == f;
      assert edited[j] == f;
    }
  }

  lemma MembersElsewhere(wraps: seq<string>, i: nat)
    requires i < |wraps|
    ensures forall f :: f in wraps <==> f == wraps[i] || Elsewhere(wraps, i, f)
  {
  }

  /** A root with one recipient, and the same root with its wrap there twice: both are accepted,
      so a wrap has been added relative to the signed recipients. */
  lemma SecondWrapPasses(fp: Bytes -> string, setHash: seq<Bytes> -> Bytes, key: Bytes) returns (root: Root)
    ensures |root.wraps| == 1 && Holds(fp, setHash, root)
    ensures Holds(fp, setHash, root.(wraps := root.wraps + [root.wraps[0]]))
  {
    var r := Recipient(Some(key), fp(key), "break-glass");
    root := Root(true, [r], [fp(key)], Some(setHash([key])));
    assert Keys([r]) == [key];
    assert BreakGlassCount([r][..0]) == 0 && BreakGlassCount([r]) == 1;
    assert [r][0] == r && Listed([r]) == {fp(key)};
    WrapEdits(fp, setHash, root, 0, fp(key));
  }
}
