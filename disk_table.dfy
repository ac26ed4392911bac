/**
 The UCD-SNMP disk table (`dskTable`, 1.3.6.1.4.1.2021.9.1): finding the row
 of the root filesystem in a walk of the `dskPath` column, and the OIDs of the
 sibling columns at that row.
 */
module DiskTable {
  import opened Wrappers
  import opened Quotes
  import opened SnmpValues
  import opened Queries
  import opened Seqs

  const DskPathOid: string := "1.3.6.1.4.1.2021.9.1.2"
  const DskTotalOid: string := "1.3.6.1.4.1.2021.9.1.6"
  const DskUsedOid: string := "1.3.6.1.4.1.2021.9.1.8"
  const DskPercentOid: string := "1.3.6.1.4.1.2021.9.1.9"

  /**
   `oid.split('.')[-1]`: the text after the last '.', or the whole text when
   there is none (empty when the text ends with '.').
   */
  function LastComponent(oid: string): string {
    if oid == [] || oid[|oid| - 1] == '.' then [] else LastComponent(oid[..|oid| - 1]) + [oid[|oid| - 1]]
  }

  /**
   The last component is the longest suffix without a '.': it is all of the
   text, or it follows a '.'.
   */
  lemma {:induction false} LastComponentSpec(oid: string)
    ensures var r := LastComponent(oid);
      && |r| <= |oid| && r == oid[|oid| - |r|..]
      && (forall i :: 0 <= i < |r| ==> r[i] != '.')
      && (|r| < |oid| ==> oid[|oid| - |r| - 1] == '.')
  {
    if oid != [] && oid[|oid| - 1] != '.' {
      var init := oid[..|oid| - 1];
      LastComponentSpec(init);
      SuffixOfInit(oid, |init| - |LastComponent(init)|);
    }
  }

  /** `text.strip('"') == "/"` */
  predicate IsRootPath(text: string) {
    StripQuotes(text) == "/"
  }

  /** `str(val).strip('"') == "/"` for the value of a binding. */
  predicate IsRootEntry(vb: VarBind) {
    IsRootPath(Str(vb.value))
  }

  /** The position of the first entry of the root filesystem, or |walk| when there is none. */
  function FirstRootEntry(walk: seq<VarBind>): (k: nat)
    ensures k <= |walk|
    ensures forall j :: 0 <= j < k ==> !IsRootEntry(walk[j])
    ensures k < |walk| ==> IsRootEntry(walk[k])
  {
    if walk == [] then 0
    else if IsRootEntry(walk[0]) then 0
    else 1 + FirstRootEntry(walk[1..])
  }

  /**
   The row index the dashboard resolves from a walk of `dskPath`: the last OID
   component of the first entry whose value is "/", if there is one.
   */
  function RootIndex(walk: seq<VarBind>): Option<string> {
    var k := FirstRootEntry(walk);
    if k < |walk| then Some(LastComponent(walk[k].oid)) else None
  }

  /** No root entry in the walk (in particular an empty walk): no row index. */
  lemma RootIndexAbsent(walk: seq<VarBind>)
    ensures RootIndex(walk).None? <==> forall j :: 0 <= j < |walk| ==> !IsRootEntry(walk[j])
  {
  }

  /** Some root entry: the row index comes from the first of them, later ones are ignored. */
  lemma RootIndexOfFirstMatch(walk: seq<VarBind>, k: nat)
    requires k < |walk| && IsRootEntry(walk[k])
    requires forall j :: 0 <= j < k ==> !IsRootEntry(walk[j])
    ensures RootIndex(walk) == Some(LastComponent(walk[k].oid))
  {
  }

  /**
   The search loop of the dashboard: scan the walk in order, and at the first
   entry whose value is "/" take its row index and stop.
   */
  method FindRootIndex(walk: seq<VarBind>) returns (rootIdx: Option<string>)
    ensures rootIdx == RootIndex(walk)
  {
    rootIdx := None;
    var i := 0;
    while i < |walk|
      invariant i <= |walk|
      invariant forall j :: 0 <= j < i ==> !IsRootEntry(walk[j])
    {
      var entry := walk[i];
      if StripQuotes(Str(entry.value)) == "/" {
        rootIdx := Some(LastComponent(entry.oid));
        RootIndexOfFirstMatch(walk, i);
        break;
      }
      i := i + 1;
    }
    if rootIdx.None? {
      RootIndexAbsent(walk);
    }
  }

  /** A resolved row index never contains a '.'. */
  lemma RootIndexHasNoDot(walk: seq<VarBind>)
    requires RootIndex(walk).Some?
    ensures forall i :: 0 <= i < |RootIndex(walk).value| ==> RootIndex(walk).value[i] != '.'
  {
    LastComponentSpec(walk[FirstRootEntry(walk)].oid);
  }

  /** Entries after a match do not change the result: the scan has stopped. */
  lemma RootIndexOfExtension(w1: seq<VarBind>, w: seq<VarBind>)
    requires |w1| <= |w| && w[..|w1|] == w1
    requires RootIndex(w1).Some?
    ensures RootIndex(w) == RootIndex(w1)
  {
    var k := FirstRootEntry(w1);
    assert forall j :: 0 <= j <= k ==> w[j] == w1[j];
    RootIndexOfFirstMatch(w, k);
  }

  /**
   Once the replies fetched so far hold the root entry, no further reply of the
   walk can change the row index: the generator need not be asked for more.
   */
  lemma RootIndexFromFetchedReplies(rs: seq<Response>, n: nat)
    requires n <= |rs| && RootIndex(Walk(rs[..n])).Some?
    ensures RootIndex(Walk(rs)) == RootIndex(Walk(rs[..n]))
  {
    WalkOfPrefix(rs, n);
    RootIndexOfExtension(Walk(rs[..n]), Walk(rs));
  }

  /** The OID of column `column` of the disk table at row `idx`. */
  function ColumnOid(column: string, idx: string): string {
    column + "." + idx
  }

  /** The row index read back from a sibling-column OID is the row it was built from. */
  lemma ColumnOidRoundTrip(column: string, idx: string)
    requires forall i :: 0 <= i < |idx| ==> idx[i] != '.'
    ensures LastComponent(ColumnOid(column, idx)) == idx
  {
    var oid := ColumnOid(column, idx);
    var r := LastComponent(oid);
    LastComponentSpec(oid);
    assert oid[|oid| - |idx| - 1] == '.';
    assert oid[|oid| - |idx|..] == idx;
  }

  /**
   A `dskPath` column with rows "/boot", "/" and "/var": the root filesystem
   is row 2.
   */
  lemma RootIndexExample(column: string)
    ensures RootIndex([
      VarBind(ColumnOid(column, "1"), OctetString("/boot")),
      VarBind(ColumnOid(column, "2"), OctetString("/")),
      VarBind(ColumnOid(column, "3"), OctetString("/var"))]) == Some("2")
  {
    var walk := [
      VarBind(ColumnOid(column, "1"), OctetString("/boot")),
      VarBind(ColumnOid(column, "2"), OctetString("/")),
      VarBind(ColumnOid(column, "3"), OctetString("/var"))];
    assert !IsRootPath("/boot") by { StripQuotesUnchanged("/boot"); }
    assert IsRootPath("/") by { StripQuotesUnchanged("/"); }
    ColumnOidRoundTrip(column, "2");
    RootIndexOfFirstMatch(walk, 1);
  }
}
