/** The dependency ledger (hdl_depend) and its check mode (hdl_dchk).
    The ledger is a list of (name, version, size) records in the order they
    were added; the first record for a name is the one every later module is
    checked against. */
module Dependency {
  import opened HdlTypes

  /** Index of the first record for name: the scan at the head of hdl_dchk. */
  function FindDep(deps: seq<Dep>, name: string): (r: Option<nat>)
    ensures r.Some? ==> r.value < |deps| && deps[r.value].name == name
    ensures r.Some? ==> forall k :: 0 <= k < r.value ==> deps[k].name != name
    ensures r.None? ==> forall k :: 0 <= k < |deps| ==> deps[k].name != name
  {
    FirstMatch(deps, (d: Dep) => d.name == name)
  }

  /** The ledger holds a record for d's name, and its first record has d's
      version and size. */
  predicate Agrees(deps: seq<Dep>, d: Dep)
  {
    match FindDep(deps, d.name)
    case None => false
    case Some(i) => deps[i].version == d.version && deps[i].size == d.size
  }

  /** At most one record per name. */
  ghost predicate UniqueNames(deps: seq<Dep>)
  {
    forall i, j :: 0 <= i < j < |deps| ==> deps[i].name != deps[j].name
  }

  /** Records appended after a name is known never change which record is
      first for it. */
  lemma FindDepPrefix(a: seq<Dep>, b: seq<Dep>, name: string)
    requires FindDep(a, name).Some?
    ensures FindDep(a + b, name) == FindDep(a, name)
  {
    assert forall k :: 0 <= k < |a| ==> (a + b)[k] == a[k];
  }

  /** A record appended for an unknown name is the first one for it. */
  lemma FindDepAppendNew(a: seq<Dep>, d: Dep)
    requires FindDep(a, d.name).None?
    ensures FindDep(a + [d], d.name) == Some(|a|)
  {
    assert forall k :: 0 <= k < |a| ==> (a + [d])[k] == a[k];
    assert (a + [d])[|a|] == d;
  }

  /** Appending records changes nothing for a name the ledger already holds. */
  lemma AgreesPrefix(a: seq<Dep>, b: seq<Dep>, d: Dep)
    requires FindDep(a, d.name).Some?
    ensures Agrees(a + b, d) <==> Agrees(a, d)
  {
    FindDepPrefix(a, b, d.name);
    var i := FindDep(a, d.name).value;
    assert (a + b)[i] == a[i];
  }

  datatype DchkResult = DchkResult(rc: int, deps: seq<Dep>)

  /** hdl_dchk: a known name succeeds (0) exactly when the version and the
      size both equal its first record, fails with -1 otherwise, and leaves
      the ledger alone; an unknown name gets one record at the tail and
      succeeds. Either way, afterwards the ledger agrees with d exactly when
      the check succeeded. */
  function Dchk(deps: seq<Dep>, d: Dep): (r: DchkResult)
    ensures r.rc == 0 || r.rc == -1
    ensures FindDep(deps, d.name).Some? ==> r.deps == deps && (r.rc == 0 <==> Agrees(deps, d))
    ensures FindDep(deps, d.name).None? ==> r.rc == 0 && r.deps == deps + [d]
    ensures r.rc == 0 <==> Agrees(r.deps, d)
  {
    match FindDep(deps, d.name)
    case None =>
      FindDepAppendNew(deps, d);
      DchkResult(0, deps + [d])
    case Some(i) =>
      if deps[i].version != d.version then DchkResult(-1, deps)
      else if deps[i].size != d.size then DchkResult(-1, deps)
      else DchkResult(0, deps)
  }

  /** A module's dependency section run in check mode: every triple is
      submitted to hdl_dchk in order, and the section reports failure when
      any check failed. Returns (all passed, resulting ledger). */
  function CheckAll(deps: seq<Dep>, ts: seq<Dep>): (r: (bool, seq<Dep>))
    decreases |ts|
  {
    if ts == [] then (true, deps)
    else
      var prev := CheckAll(deps, ts[..|ts| - 1]);
      var last := Dchk(prev.1, ts[|ts| - 1]);
      (prev.0 && last.rc == 0, last.deps)
  }

  /** The check only ever appends to the ledger. */
  lemma {:induction false} CheckAllExtends(deps: seq<Dep>, ts: seq<Dep>)
    ensures |CheckAll(deps, ts).1| >= |deps|
    ensures CheckAll(deps, ts).1[..|deps|] == deps
    decreases |ts|
  {
    if ts != [] {
      CheckAllExtends(deps, ts[..|ts| - 1]);
    }
  }

  /** First writer wins: a name already in the ledger keeps its record
      through any dependency check. */
  lemma FirstWriterWins(deps: seq<Dep>, ts: seq<Dep>, name: string)
    requires FindDep(deps, name).Some?
    ensures FindDep(CheckAll(deps, ts).1, name) == FindDep(deps, name)
  {
    var after := CheckAll(deps, ts).1;
    CheckAllExtends(deps, ts);
    assert after == deps + after[|deps|..];
    FindDepPrefix(deps, after[|deps|..], name);
  }

  /** After a dependency check every submitted name is in the ledger. */
  lemma {:induction false} CheckAllRecords(deps: seq<Dep>, ts: seq<Dep>)
    ensures forall k :: 0 <= k < |ts| ==> FindDep(CheckAll(deps, ts).1, ts[k].name).Some?
    decreases |ts|
  {
    if ts != [] {
      var init := ts[..|ts| - 1];
      var prev := CheckAll(deps, init);
      var last := Dchk(prev.1, ts[|ts| - 1]);
      CheckAllRecords(deps, init);
      assert last.deps == prev.1 + last.deps[|prev.1|..];
      forall k | 0 <= k < |ts|
        ensures FindDep(last.deps, ts[k].name).Some?
      {
        if k < |init| {
          assert ts[k] == init[k];
          FindDepPrefix(prev.1, last.deps[|prev.1|..], ts[k].name);
        }
      }
    }
  }

  /** A dependency section passes exactly when, afterwards, every triple it
      submitted agrees with the ledger. */
  lemma {:induction false} CheckAllPasses(deps: seq<Dep>, ts: seq<Dep>)
    ensures CheckAll(deps, ts).0 <==>
      forall k :: 0 <= k < |ts| ==> Agrees(CheckAll(deps, ts).1, ts[k])
    decreases |ts|
  {
    if ts != [] {
      var init := ts[..|ts| - 1];
      var prev := CheckAll(deps, init);
      var last := Dchk(prev.1, ts[|ts| - 1]);
      CheckAllPasses(deps, init);
      CheckAllRecords(deps, init);
      assert last.deps == prev.1 + last.deps[|prev.1|..];
      forall k | 0 <= k < |init|
        ensures ts[k] == init[k]
        ensures Agrees(prev.1, init[k]) <==> Agrees(last.deps, init[k])
      {
        AgreesPrefix(prev.1, last.deps[|prev.1|..], init[k]);
      }
    }
  }

  /** The check never introduces a second record for a name. */
  lemma {:induction false} CheckAllKeepsUnique(deps: seq<Dep>, ts: seq<Dep>)
    requires UniqueNames(deps)
    ensures UniqueNames(CheckAll(deps, ts).1)
    decreases |ts|
  {
    if ts != [] {
      var prev := CheckAll(deps, ts[..|ts| - 1]);
      var d := ts[|ts| - 1];
      CheckAllKeepsUnique(deps, ts[..|ts| - 1]);
      if FindDep(prev.1, d.name).None? {
        var after := prev.1 + [d];
        forall i, j | 0 <= i < j < |after| ensures after[i].name != after[j].name {
          if j == |prev.1| {
            assert after[i] == prev.1[i];
          }
        }
      }
    }
  }
}
