/**
 The dashboard `main` assembles: a fixed set of scalar GETs, one walk of the
 `dskPath` column, and three GETs at the resolved row of the disk table. The
 agent is a function from OID to the reply it gives; every field is optional
 and degrades on its own.
 */
module Dashboard {
  import opened Wrappers
  import opened SnmpValues
  import opened Queries
  import opened Uptime
  import opened DiskTable
  import opened Seqs

  const SysNameOid: string := "1.3.6.1.2.1.1.5.0"
  const SysUpTimeOid: string := "1.3.6.1.2.1.1.3.0"
  const LoadAverageOids: seq<string> :=
    ["1.3.6.1.4.1.2021.10.1.3.1", "1.3.6.1.4.1.2021.10.1.3.2", "1.3.6.1.4.1.2021.10.1.3.3"]
  const MemTotalRealOid: string := "1.3.6.1.4.1.2021.4.5.0"
  const MemAvailRealOid: string := "1.3.6.1.4.1.2021.4.6.0"

  /** The agent as seen through scalar GETs: the reply it gives for each OID. */
  type Agent = string -> Response

  /** A successful reply to the `sysUpTime.0` GET carries TimeTicks. */
  predicate UptimeReply(r: Response) {
    Failed(r) || (|r.varBinds| > 0 && r.varBinds[0].value.TimeTicks?)
  }

  /** Every GET reply is well formed, and the uptime reply is TimeTicks. */
  ghost predicate WellFormedAgent(get: Agent) {
    && (forall oid :: WellFormedGet(get(oid)))
    && UptimeReply(get(SysUpTimeOid))
  }

  /** Python truthiness of an optional int: present and non-zero. */
  predicate IsTruthy(x: Option<int>) {
    x.Some? && x.value != 0
  }

  /**
   `mem_used_kib`: total - avail when both are truthy; a zero operand counts as
   absent.
   */
  function MemUsed(total: Option<int>, avail: Option<int>): (used: Option<int>)
    ensures used.Some? <==> IsTruthy(total) && IsTruthy(avail)
    ensures used.Some? ==> used.value + avail.value == total.value
  {
    if IsTruthy(total) && IsTruthy(avail) then Some(total.value - avail.value) else None
  }

  /** `if root_idx:` — a row index that is present and not the empty text. */
  predicate HasRow(rootIdx: Option<string>) {
    rootIdx.Some? && rootIdx.value != ""
  }

  /** The OIDs of the disk GETs: total, used and percent at the row, or none. */
  function DiskOids(rootIdx: Option<string>): seq<string> {
    if HasRow(rootIdx) then
      [ColumnOid(DskTotalOid, rootIdx.value),
       ColumnOid(DskUsedOid, rootIdx.value),
       ColumnOid(DskPercentOid, rootIdx.value)]
    else []
  }

  /** Every GET `main` issues, in order, once the row index is known. */
  function Requests(rootIdx: Option<string>): seq<string> {
    [SysNameOid, SysUpTimeOid] + LoadAverageOids + [MemTotalRealOid, MemAvailRealOid] + DiskOids(rootIdx)
  }

  datatype DiskUsage = DiskUsage(totalKib: Option<int>, usedKib: Option<int>, percent: Option<int>)

  const NoDisk: DiskUsage := DiskUsage(None, None, None)

  /** The disk block: the three columns at the row read through `to_int`, or all absent. */
  function Disk(rootIdx: Option<string>, get: Agent): DiskUsage
    requires forall oid :: WellFormedGet(get(oid))
  {
    var oids := DiskOids(rootIdx);
    if oids == [] then NoDisk
    else DiskUsage(ToInt(SnmpGet(get(oids[0]))), ToInt(SnmpGet(get(oids[1]))), ToInt(SnmpGet(get(oids[2]))))
  }

  /** The TimeTicks count of the uptime reply, if any. */
  function Ticks(v: Option<SnmpValue>): Option<nat>
    requires v.None? || v.value.TimeTicks?
  {
    match v
    case None => None
    case Some(x) => Some(x.ticks)
  }

  /** The integer and text fields of one dashboard run. */
  datatype Snapshot = Snapshot(
    sysName: Option<SnmpValue>,
    uptime: string,
    memTotalKib: Option<int>,
    memAvailKib: Option<int>,
    memUsedKib: Option<int>,
    rootIdx: Option<string>,
    disk: DiskUsage)

  /** What one run of `main` computes from the agent and the replies of the `dskPath` walk. */
  function Assemble(get: Agent, dskPathReplies: seq<Response>): Snapshot
    requires WellFormedAgent(get)
  {
    var total := ToInt(SnmpGet(get(MemTotalRealOid)));
    var avail := ToInt(SnmpGet(get(MemAvailRealOid)));
    var rootIdx := RootIndex(Walk(dskPathReplies));
    Snapshot(
      SnmpGet(get(SysNameOid)),
      HumanUptime(Ticks(SnmpGet(get(SysUpTimeOid)))),
      total, avail, MemUsed(total, avail),
      rootIdx, Disk(rootIdx, get))
  }

  /** `snmp_get(oid)` against the agent, with the OID appended to the log of issued GETs. */
  method Get(get: Agent, oid: string, ghost log: seq<string>) returns (v: Option<SnmpValue>, ghost logged: seq<string>)
    requires WellFormedGet(get(oid))
    ensures v == SnmpGet(get(oid))
    ensures logged == log + [oid]
  {
    v := SnmpGet(get(oid));
    logged := log + [oid];
  }

  /** `main` up to the printing: the GETs, the walk, the row search and the disk GETs. */
  method CollectSnapshot(get: Agent, dskPathReplies: seq<Response>) returns (snap: Snapshot, ghost issued: seq<string>)
    requires WellFormedAgent(get)
    ensures snap == Assemble(get, dskPathReplies)
    ensures issued == Requests(snap.rootIdx)
  {
    issued := [];
    var sysName, sysUptime;
    sysName, issued := Get(get, SysNameOid, issued);
    sysUptime, issued := Get(get, SysUpTimeOid, issued);

    // The load averages are read but only used as floats, which are not modelled.
    var la1, la5, la15;
    la1, issued := Get(get, LoadAverageOids[0], issued);
    la5, issued := Get(get, LoadAverageOids[1], issued);
    la15, issued := Get(get, LoadAverageOids[2], issued);

    var rawTotal, rawAvail;
    rawTotal, issued := Get(get, MemTotalRealOid, issued);
    rawAvail, issued := Get(get, MemAvailRealOid, issued);
    var memTotal := ToInt(rawTotal);
    var memAvail := ToInt(rawAvail);
    var memUsed := MemUsed(memTotal, memAvail);
    AppendSingles(SysNameOid, SysUpTimeOid, LoadAverageOids[0], LoadAverageOids[1], LoadAverageOids[2],
      MemTotalRealOid, MemAvailRealOid);
    assert LoadAverageOids == [LoadAverageOids[0], LoadAverageOids[1], LoadAverageOids[2]];

    var walk := SnmpWalk(dskPathReplies);
    var rootIdx := FindRootIndex(walk);

    var disk: DiskUsage;
    if rootIdx.Some? && rootIdx.value != "" {
      ghost var before := issued;
      var totalOid := ColumnOid(DskTotalOid, rootIdx.value);
      var usedOid := ColumnOid(DskUsedOid, rootIdx.value);
      var pctOid := ColumnOid(DskPercentOid, rootIdx.value);
      var rawDiskTotal, rawDiskUsed, rawPct;
      rawDiskTotal, issued := Get(get, totalOid, issued);
      rawDiskUsed, issued := Get(get, usedOid, issued);
      rawPct, issued := Get(get, pctOid, issued);
      AppendTriple(before, totalOid, usedOid, pctOid);
      assert DiskOids(rootIdx) == [totalOid, usedOid, pctOid];
      disk := DiskUsage(ToInt(rawDiskTotal), ToInt(rawDiskUsed), ToInt(rawPct));
    } else {
      assert DiskOids(rootIdx) == [];
      disk := NoDisk;
    }
    snap := Snapshot(sysName, HumanUptime(Ticks(sysUptime)), memTotal, memAvail, memUsed, rootIdx, disk);
  }

  /** 2 000 000 KiB total and 500 000 available give 1 500 000 used; a zero available figure gives absent. */
  lemma MemUsedExample()
    ensures MemUsed(Some(2000000), Some(500000)) == Some(1500000)
    ensures MemUsed(Some(2000000), Some(0)) == None
  {
  }

  /**
   With a row index, the disk GETs are the three sibling columns at that row,
   and, for an index without a '.' (as every resolved one is), reading the row
   back from each OID gives the index.
   */
  lemma DiskOidsAtRow(idx: string)
    requires idx != ""
    requires forall i :: 0 <= i < |idx| ==> idx[i] != '.'
    ensures DiskOids(Some(idx)) ==
      [DskTotalOid + "." + idx, DskUsedOid + "." + idx, DskPercentOid + "." + idx]
    ensures LastComponent(DiskOids(Some(idx))[0]) == idx
    ensures LastComponent(DiskOids(Some(idx))[1]) == idx
    ensures LastComponent(DiskOids(Some(idx))[2]) == idx
  {
    ColumnOidRoundTrip(DskTotalOid, idx);
    ColumnOidRoundTrip(DskUsedOid, idx);
    ColumnOidRoundTrip(DskPercentOid, idx);
  }

  /** The disk block reads the agent only at the disk OIDs. */
  lemma DiskReadsOnlyDiskOids(rootIdx: Option<string>, get1: Agent, get2: Agent)
    requires forall oid :: WellFormedGet(get1(oid))
    requires forall oid :: WellFormedGet(get2(oid))
    requires forall i :: 0 <= i < |DiskOids(rootIdx)| ==> get1(DiskOids(rootIdx)[i]) == get2(DiskOids(rootIdx)[i])
    ensures Disk(rootIdx, get1) == Disk(rootIdx, get2)
  {
  }

  /**
   No row (no "/" in the walk, an empty walk, or an empty index): no disk GET
   is issued and the disk block is absent whatever the agent answers.
   */
  lemma NoRowNoDisk(get: Agent, dskPathReplies: seq<Response>)
    requires WellFormedAgent(get)
    requires !HasRow(RootIndex(Walk(dskPathReplies)))
    ensures DiskOids(RootIndex(Walk(dskPathReplies))) == []
    ensures Assemble(get, dskPathReplies).disk == NoDisk
  {
  }

  /** Where each OID sits in the request list. */
  lemma RequestsLayout(rootIdx: Option<string>)
    ensures var oids := Requests(rootIdx);
      && |oids| == 7 + |DiskOids(rootIdx)|
      && oids[0] == SysNameOid && oids[1] == SysUpTimeOid
      && oids[2..5] == LoadAverageOids
      && oids[5] == MemTotalRealOid && oids[6] == MemAvailRealOid
      && oids[7..] == DiskOids(rootIdx)
  {
  }

  /** A run reads the agent only at the OIDs it requests. */
  lemma AssembleReadsOnlyRequests(get1: Agent, get2: Agent, dskPathReplies: seq<Response>)
    requires WellFormedAgent(get1) && WellFormedAgent(get2)
    requires forall oid :: oid in Requests(RootIndex(Walk(dskPathReplies))) ==> get1(oid) == get2(oid)
    ensures Assemble(get1, dskPathReplies) == Assemble(get2, dskPathReplies)
  {
    var rootIdx := RootIndex(Walk(dskPathReplies));
    var oids := Requests(rootIdx);
    var disk := DiskOids(rootIdx);
    RequestsLayout(rootIdx);
    assert oids[0] in oids && oids[1] in oids && oids[5] in oids && oids[6] in oids;
    forall i | 0 <= i < |disk|
      ensures get1(disk[i]) == get2(disk[i])
    {
      assert disk[i] == oids[7 + i] && oids[7 + i] in oids;
    }
    DiskReadsOnlyDiskOids(rootIdx, get1, get2);
  }

  /**
   An agent that answers nothing (every GET fails, and the walk fails at once or
   yields no reply) gives a snapshot with every field absent and uptime "n/a".
   */
  lemma SilentAgent(get: Agent, dskPathReplies: seq<Response>)
    requires WellFormedAgent(get)
    requires forall oid :: Failed(get(oid))
    requires dskPathReplies == [] || Failed(dskPathReplies[0])
    ensures Assemble(get, dskPathReplies) == Snapshot(None, "n/a", None, None, None, None, NoDisk)
  {
    ToIntAbsent();
    WalkOfFailedStart(dskPathReplies);
    RootIndexAbsent([]);
  }
}
