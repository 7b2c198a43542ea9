/**
 The scan step of `main`: `check_speed` is run over every candidate through an
 order-preserving `executor.map`, and the non-`None` results are kept in that order.
 The socket connect itself is an oracle: `probe(s)` is `Some(latency)` exactly when
 `connect_ex` returns 0 for `s`, with the latency in whole milliseconds.
 */
module Probing {
  import opened Common
  import opened Matcher

  /** The tuple `(latency, server)` that `check_speed` returns on success. */
  datatype Hit = Hit(latency: nat, server: Server)

  /** The outcome of one bounded TCP connect attempt. */
  type Prober = Server -> Option<nat>

  /** The surviving probe results, in candidate order. */
  function ProbeAll(cands: seq<Server>, probe: Prober): (r: seq<Hit>)
    ensures |r| <= |cands|
    ensures forall h :: h in r ==> h.server in cands && probe(h.server) == Some(h.latency)
    ensures forall s :: s in cands && probe(s).Some? ==> Hit(probe(s).value, s) in r
  {
    if |cands| == 0 then []
    else
      var rest := ProbeAll(cands[1..], probe);
      assert forall s :: s in cands ==> s == cands[0] || s in cands[1..];
      match probe(cands[0])
      case None => rest
      case Some(latency) => [Hit(latency, cands[0])] + rest
  }

  /** Probing distributes over concatenation: survivors keep candidate order. */
  lemma {:induction false} ProbeAllAppend(a: seq<Server>, b: seq<Server>, probe: Prober)
    ensures ProbeAll(a + b, probe) == ProbeAll(a, probe) + ProbeAll(b, probe)
  {
    if |a| > 0 {
      assert (a + b)[1..] == a[1..] + b;
      ProbeAllAppend(a[1..], b, probe);
    } else {
      assert a + b == b;
    }
  }

  /** Distinct candidates give distinct hits. */
  lemma {:induction false} ProbeAllDistinct(cands: seq<Server>, probe: Prober)
    requires NoDup(cands)
    ensures NoDup(ProbeAll(cands, probe))
  {
    if |cands| > 0 {
      assert NoDup(cands[1..]);
      ProbeAllDistinct(cands[1..], probe);
      assert cands[0] !in cands[1..];
    }
  }
}
