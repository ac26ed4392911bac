/**
 The two query operations the dashboard issues, applied to the replies of the
 SNMP agent: a scalar GET (`snmp_get`) and a column walk by GETNEXT
 (`snmp_walk`). The transport itself is not modelled; a reply is a value.
 */
module Queries {
  import opened Wrappers
  import opened SnmpValues
  import opened Seqs

  /** One (OID, value) pair of a reply; the OID is its text `str(oid)`. */
  datatype VarBind = VarBind(oid: string, value: SnmpValue)

  /**
   One reply as the library reports it: an error indication (a transport
   failure such as a timeout), the protocol error status (0 is noError), the
   error index and the variable bindings.
   */
  datatype Response = Response(
    errorIndication: Option<string>,
    errorStatus: nat,
    errorIndex: nat,
    varBinds: seq<VarBind>)

  /** `errInd or errStat` is truthy. */
  predicate Failed(r: Response) {
    r.errorIndication.Some? || r.errorStatus != 0
  }

  /** A successful GET reply carries the binding that was asked for. */
  predicate WellFormedGet(r: Response) {
    Failed(r) || |r.varBinds| > 0
  }

  /** `snmp_get`: absent on any error, otherwise the value of the first binding. */
  function SnmpGet(r: Response): (v: Option<SnmpValue>)
    requires WellFormedGet(r)
    ensures v.None? <==> Failed(r)
    ensures v.Some? ==> v.value == r.varBinds[0].value
  {
    if r.errorIndication.Some? then None
    else if r.errorStatus != 0 then None
    else Some(r.varBinds[0].value)
  }

  /** The position of the first failed reply, or |rs| when none failed. */
  function FirstFailure(rs: seq<Response>): (k: nat)
    ensures k <= |rs|
    ensures forall j :: 0 <= j < k ==> !Failed(rs[j])
    ensures k < |rs| ==> Failed(rs[k])
  {
    if rs == [] then 0
    else if Failed(rs[0]) then 0
    else 1 + FirstFailure(rs[1..])
  }

  /** All bindings of all replies, in order. */
  function Flatten(rs: seq<Response>): seq<VarBind> {
    if rs == [] then [] else rs[0].varBinds + Flatten(rs[1..])
  }

  /**
   What `snmp_walk` yields for the replies of one walk: the bindings of each
   reply in turn, stopping at the first failed reply.
   */
  function Walk(rs: seq<Response>): seq<VarBind> {
    if rs == [] || Failed(rs[0]) then [] else rs[0].varBinds + Walk(rs[1..])
  }

  /**
   `snmp_walk` run to exhaustion: the generator loop, which returns at the
   first failed reply and otherwise yields the reply's bindings one by one.
   */
  method SnmpWalk(rs: seq<Response>) returns (bindings: seq<VarBind>)
    ensures bindings == Walk(rs)
  {
    bindings := [];
    var i := 0;
    while i < |rs|
      invariant i <= |rs|
      invariant bindings + Walk(rs[i..]) == Walk(rs)
    {
      var response := rs[i];
      if Failed(response) {
        assert bindings + [] == bindings;
        return;
      }
      WalkFrom(rs, i);
      ghost var later := Walk(rs[i + 1..]);
      AppendAssoc(bindings, response.varBinds, later);
      assert response.varBinds[0..] == response.varBinds;
      var k := 0;
      while k < |response.varBinds|
        invariant k <= |response.varBinds|
        invariant bindings + (response.varBinds[k..] + later) == Walk(rs)
      {
        YieldStep(bindings, response.varBinds, k, later);
        bindings := bindings + [response.varBinds[k]];
        k := k + 1;
      }
      assert response.varBinds[k..] + later == later;
      i := i + 1;
    }
    assert bindings + [] == bindings;
  }

  lemma WalkFrom(rs: seq<Response>, i: nat)
    requires i < |rs| && !Failed(rs[i])
    ensures Walk(rs[i..]) == rs[i].varBinds + Walk(rs[i + 1..])
  {
    assert rs[i..][1..] == rs[i + 1..];
  }

  /** Moving one binding from the pending part of a reply to the output. */
  lemma YieldStep(out: seq<VarBind>, vbs: seq<VarBind>, k: nat, later: seq<VarBind>)
    requires k < |vbs|
    ensures (out + [vbs[k]]) + (vbs[k + 1..] + later) == out + (vbs[k..] + later)
  {
    assert vbs[k..] == [vbs[k]] + vbs[k + 1..];
  }

  /**
   The reference reading of a walk: every binding of every reply before the
   first failed one, in order, and nothing at or after it.
   */
  lemma {:induction false} WalkIsFlattenBeforeFailure(rs: seq<Response>)
    ensures Walk(rs) == Flatten(rs[..FirstFailure(rs)])
  {
    if rs != [] && !Failed(rs[0]) {
      var k := FirstFailure(rs[1..]);
      WalkIsFlattenBeforeFailure(rs[1..]);
      assert rs[..1 + k][1..] == rs[1..][..k];
    }
  }

  /** Once a failed reply has been seen, the replies after it are never looked at. */
  lemma {:induction false} WalkAfterFailure(a: seq<Response>, b: seq<Response>)
    requires FirstFailure(a) < |a|
    ensures Walk(a + b) == Walk(a)
  {
    if !Failed(a[0]) {
      assert (a + b)[1..] == a[1..] + b;
      WalkAfterFailure(a[1..], b);
    }
  }

  /** Without a failure in a, all of a's bindings come first, then b's walk. */
  lemma {:induction false} WalkAfterClean(a: seq<Response>, b: seq<Response>)
    requires FirstFailure(a) == |a|
    ensures Walk(a + b) == Flatten(a) + Walk(b)
  {
    if a == [] {
      assert a + b == b;
    } else {
      var first, rest := a[0], a[1..];
      assert !Failed(first) && FirstFailure(rest) == |rest|;
      assert (a + b)[0] == first && (a + b)[1..] == rest + b;
      calc {
        Walk(a + b);
        first.varBinds + Walk(rest + b);
        { WalkAfterClean(rest, b); }
        first.varBinds + (Flatten(rest) + Walk(b));
        { AppendAssoc(first.varBinds, Flatten(rest), Walk(b)); }
        Flatten(a) + Walk(b);
      }
    }
  }

  /** Nothing from a failed reply, or from any reply after it, is emitted. */
  lemma {:induction false} WalkStopsAtFailure(rs: seq<Response>, k: nat)
    requires k < |rs| && Failed(rs[k])
    ensures Walk(rs) == Walk(rs[..k])
  {
    if k > 0 && !Failed(rs[0]) {
      assert rs[..k][1..] == rs[1..][..k - 1];
      WalkStopsAtFailure(rs[1..], k - 1);
    }
  }

  /** The walk of the first n replies is a prefix of the walk of all of them. */
  lemma {:induction false} WalkOfPrefix(rs: seq<Response>, n: nat)
    requires n <= |rs|
    ensures var w, w' := Walk(rs), Walk(rs[..n]); |w'| <= |w| && w[..|w'|] == w'
  {
    if n > 0 && !Failed(rs[0]) {
      assert rs[..n][1..] == rs[1..][..n - 1];
      WalkOfPrefix(rs[1..], n - 1);
    }
  }

  /** Without a failure the walk is every binding of every reply, in order. */
  lemma WalkWithoutFailure(rs: seq<Response>)
    requires forall j :: 0 <= j < |rs| ==> !Failed(rs[j])
    ensures Walk(rs) == Flatten(rs)
  {
    WalkIsFlattenBeforeFailure(rs);
    assert rs[..|rs|] == rs;
  }

  /** An empty reply list, or one that fails at once, walks to nothing. */
  lemma WalkOfFailedStart(rs: seq<Response>)
    requires rs == [] || Failed(rs[0])
    ensures Walk(rs) == []
  {
  }
}
