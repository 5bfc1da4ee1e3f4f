/** The longest-valid-chain rule: what a scan over peer replies must pick.

    A peer's `/chain` answer is modelled as a `Reply` (HTTP status, the length
    the peer reports, the chain it sends); the replies arrive as a sequence in
    the order the peer set is iterated. */
module Consensus {
  import opened Blocks

  datatype Reply = Reply(status: int, length: int, chain: seq<Block>)

  /** A reply that beats `bound`: a success status, a reported length above
      the bound and a non-empty chain that validates. */
  predicate Qualifies(hash: Hasher, validProof: ProofCheck, r: Reply, bound: int)
  {
    r.status == 200 && r.length > bound && |r.chain| > 0 && ChainValid(hash, validProof, r.chain)
  }

  /** Reply `k` is the one to adopt: it qualifies against the local length, no
      qualifying reply reports more, and every qualifying reply before it
      reports strictly less (the first reply at the maximum wins). */
  predicate IsBest(hash: Hasher, validProof: ProofCheck, local: int, rs: seq<Reply>, k: int)
  {
    && 0 <= k < |rs|
    && Qualifies(hash, validProof, rs[k], local)
    && (forall j :: 0 <= j < |rs| && Qualifies(hash, validProof, rs[j], local) ==> rs[j].length <= rs[k].length)
    && (forall j :: 0 <= j < k && Qualifies(hash, validProof, rs[j], local) ==> rs[j].length < rs[k].length)
  }

  /** The scan raises on reply `i`: it has a success status and an empty
      chain, and its reported length beats the local length and every
      qualifying reply before it, so validation is reached and reading the
      chain's first block fails. */
  predicate RaisesAt(hash: Hasher, validProof: ProofCheck, local: int, rs: seq<Reply>, i: int)
  {
    && 0 <= i < |rs|
    && rs[i].status == 200 && |rs[i].chain| == 0 && rs[i].length > local
    && forall j :: 0 <= j < i && Qualifies(hash, validProof, rs[j], local) ==> rs[j].length < rs[i].length
  }

  predicate ScanRaises(hash: Hasher, validProof: ProofCheck, local: int, rs: seq<Reply>)
  {
    exists i :: 0 <= i < |rs| && RaisesAt(hash, validProof, local, rs, i)
  }

  /** At most one reply is the one to adopt. */
  lemma BestIsUnique(hash: Hasher, validProof: ProofCheck, local: int, rs: seq<Reply>, k1: int, k2: int)
    requires IsBest(hash, validProof, local, rs, k1)
    requires IsBest(hash, validProof, local, rs, k2)
    ensures k1 == k2
  {
  }

  /** When some reply qualifies, one of them is the one to adopt. */
  lemma {:induction false} BestExists(hash: Hasher, validProof: ProofCheck, local: int, rs: seq<Reply>, q: int)
    requires 0 <= q < |rs| && Qualifies(hash, validProof, rs[q], local)
    ensures exists k :: IsBest(hash, validProof, local, rs, k)
    decreases |rs|
  {
    var front := rs[..|rs| - 1];
    var r := rs[|rs| - 1];
    assert rs == front + [r];
    var q': int;
    if q < |front| {
      assert front[q] == rs[q];
      q' := q;
    } else if forall j :: 0 <= j < |front| ==> !Qualifies(hash, validProof, front[j], local) {
      assert IsBest(hash, validProof, local, rs, q);
      return;
    } else {
      q' :| 0 <= q' < |front| && Qualifies(hash, validProof, front[q'], local);
    }
    BestExists(hash, validProof, local, front, q');
    var k :| IsBest(hash, validProof, local, front, k);
    if Qualifies(hash, validProof, r, local) && r.length > front[k].length {
      assert IsBest(hash, validProof, local, rs, |rs| - 1);
    } else {
      assert IsBest(hash, validProof, local, rs, k);
    }
  }

  /** What the scan knows after the replies `rs`: the running maximum `m`,
      whether a chain was found and, if so, which reply it came from. */
  ghost predicate Scanned(hash: Hasher, validProof: ProofCheck, local: int, rs: seq<Reply>, m: int, found: bool, best: int)
  {
    && (!found <==> forall j :: 0 <= j < |rs| ==> !Qualifies(hash, validProof, rs[j], local))
    && (!found ==> m == local)
    && (found ==> IsBest(hash, validProof, local, rs, best) && m == rs[best].length)
  }

  /** A reply that does not beat the running maximum changes nothing. */
  lemma ScanSkip(hash: Hasher, validProof: ProofCheck, local: int, rs: seq<Reply>, m: int, found: bool, best: int, r: Reply)
    requires Scanned(hash, validProof, local, rs, m, found, best)
    requires !Qualifies(hash, validProof, r, m)
    ensures Scanned(hash, validProof, local, rs + [r], m, found, best)
  {
  }

  /** A reply that beats the running maximum becomes the chosen one. */
  lemma ScanAdopt(hash: Hasher, validProof: ProofCheck, local: int, rs: seq<Reply>, m: int, found: bool, best: int, r: Reply)
    requires Scanned(hash, validProof, local, rs, m, found, best)
    requires Qualifies(hash, validProof, r, m)
    ensures Scanned(hash, validProof, local, rs + [r], r.length, true, |rs|)
  {
  }

  /** Whether the scan raises on reply `i` depends only on the replies up to
      and including `i`. */
  lemma RaisesAtPrefix(hash: Hasher, validProof: ProofCheck, local: int, rs: seq<Reply>, k: nat, i: int)
    requires 0 <= i < k <= |rs|
    ensures RaisesAt(hash, validProof, local, rs[..k], i) <==> RaisesAt(hash, validProof, local, rs, i)
  {
  }

  /** The scan raises on `rs + [r]` exactly when it raises on `rs` or when
      `r` reaches validation against the running maximum with an empty
      chain. */
  lemma ScanRaisesExtend(hash: Hasher, validProof: ProofCheck, local: int, rs: seq<Reply>, m: int, found: bool, best: int, r: Reply)
    requires Scanned(hash, validProof, local, rs, m, found, best)
    ensures ScanRaises(hash, validProof, local, rs + [r]) <==>
              ScanRaises(hash, validProof, local, rs) || (r.status == 200 && |r.chain| == 0 && r.length > m)
  {
    var d := rs + [r];
    assert d[..|rs|] == rs;
    assert forall j :: 0 <= j < |rs| ==> d[j] == rs[j];
    assert d[|rs|] == r;
    if ScanRaises(hash, validProof, local, rs) {
      var i :| 0 <= i < |rs| && RaisesAt(hash, validProof, local, rs, i);
      RaisesAtPrefix(hash, validProof, local, d, |rs|, i);
    }
    if r.status == 200 && |r.chain| == 0 && r.length > m {
      assert RaisesAt(hash, validProof, local, d, |rs|);
    }
    if ScanRaises(hash, validProof, local, d) {
      var i :| 0 <= i < |d| && RaisesAt(hash, validProof, local, d, i);
      if i < |rs| {
        RaisesAtPrefix(hash, validProof, local, d, |rs|, i);
      }
    }
  }

  /** A scan that raises on a prefix of the replies raises on all of them. */
  lemma ScanRaisesOnPrefix(hash: Hasher, validProof: ProofCheck, local: int, rs: seq<Reply>, k: nat)
    requires k <= |rs|
    requires ScanRaises(hash, validProof, local, rs[..k])
    ensures ScanRaises(hash, validProof, local, rs)
  {
    var i :| 0 <= i < k && RaisesAt(hash, validProof, local, rs[..k], i);
    RaisesAtPrefix(hash, validProof, local, rs, k, i);
  }
}
