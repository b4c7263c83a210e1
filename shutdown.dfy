/** The shutdown list: routines registered with hdl_adsc, removed with
    hdl_rmsc, and called by hdl_shut in LIFO order. The list is kept with
    its head (the last routine added) first.

    A shutdown routine may itself call hdl_adsc. What each routine adds
    when it runs is given as a function from the entry being called to the
    entries it adds, in the order it adds them. */
module Shutdown {
  import opened HdlTypes

  /** A shutdown call entry (HDLSHD): name, routine and its argument. */
  datatype ShutdownCall = ShutdownCall(name: string, call: Addr, arg: Addr)

  /** Index of the first entry with the given routine and argument. */
  function FindCall(calls: seq<ShutdownCall>, call: Addr, arg: Addr): (r: Option<nat>)
    ensures r.Some? ==> r.value < |calls| && calls[r.value].call == call && calls[r.value].arg == arg
    ensures r.Some? ==> forall k :: 0 <= k < r.value ==> !(calls[k].call == call && calls[k].arg == arg)
    ensures r.None? ==> forall k :: 0 <= k < |calls| ==> !(calls[k].call == call && calls[k].arg == arg)
  {
    FirstMatch(calls, (c: ShutdownCall) => c.call == call && c.arg == arg)
  }

  /** The list hdl_rmsc leaves: the first entry with that routine and
      argument unlinked, nothing else changed. */
  function RemoveFirst(calls: seq<ShutdownCall>, call: Addr, arg: Addr): seq<ShutdownCall>
  {
    match FindCall(calls, call, arg)
    case None => calls
    case Some(i) => calls[..i] + calls[i + 1..]
  }

  /** hdl_rmsc removes exactly one matching entry when there is one and
      leaves the list alone otherwise; the other entries keep their order. */
  lemma RemoveFirstRemovesOne(calls: seq<ShutdownCall>, call: Addr, arg: Addr)
    ensures FindCall(calls, call, arg).None? ==> RemoveFirst(calls, call, arg) == calls
    ensures FindCall(calls, call, arg).Some? ==>
      var i := FindCall(calls, call, arg).value;
      |RemoveFirst(calls, call, arg)| == |calls| - 1 &&
      multiset(RemoveFirst(calls, call, arg)) + multiset{calls[i]} == multiset(calls)
  {
    match FindCall(calls, call, arg)
    case None =>
    case Some(i) =>
      assert calls == calls[..i] + [calls[i]] + calls[i + 1..];
  }

  /** Removing a routine right after adding it restores the list. */
  lemma RemoveUndoesAdd(calls: seq<ShutdownCall>, c: ShutdownCall)
    ensures RemoveFirst([c] + calls, c.call, c.arg) == calls
  {
    assert FindCall([c] + calls, c.call, c.arg) == Some(0);
  }

  /** Entries added by a routine while it runs add nothing themselves. This
      bounds the shutdown sequence. */
  ghost predicate AddsAreLeaves(added: ShutdownCall -> seq<ShutdownCall>)
  {
    forall e, x :: x in added(e) ==> added(x) == []
  }

  /** Calls still to make: each entry, and each entry it will add. */
  function Weight(calls: seq<ShutdownCall>, added: ShutdownCall -> seq<ShutdownCall>): nat
  {
    if calls == [] then 0 else 1 + |added(calls[0])| + Weight(calls[1..], added)
  }

  lemma {:induction false} WeightAppend(a: seq<ShutdownCall>, b: seq<ShutdownCall>,
                                        added: ShutdownCall -> seq<ShutdownCall>)
    ensures Weight(a + b, added) == Weight(a, added) + Weight(b, added)
    decreases |a|
  {
    if a == [] {
      assert a + b == b;
    } else {
      assert (a + b)[1..] == a[1..] + b;
      WeightAppend(a[1..], b, added);
    }
  }

  lemma {:induction false} WeightOfLeaves(xs: seq<ShutdownCall>, added: ShutdownCall -> seq<ShutdownCall>)
    requires forall k :: 0 <= k < |xs| ==> added(xs[k]) == []
    ensures Weight(xs, added) == |xs|
    decreases |xs|
  {
    if xs != [] {
      WeightOfLeaves(xs[1..], added);
    }
  }

  /** What is left after calling the head entry: the entries it added,
      pushed at the head, then the rest of the list. */
  function AfterCall(calls: seq<ShutdownCall>, added: ShutdownCall -> seq<ShutdownCall>): (r: seq<ShutdownCall>)
    requires calls != [] && AddsAreLeaves(added)
    ensures Weight(r, added) < Weight(calls, added)
  {
    var r := Pushed(added(calls[0])) + calls[1..];
    WeightAppend(Pushed(added(calls[0])), calls[1..], added);
    WeightOfLeaves(Pushed(added(calls[0])), added);
    r
  }

  /** The order in which the corrected hdl_shut calls the routines: the
      head first, then whatever is at the head after it ran. */
  function ShutOrder(calls: seq<ShutdownCall>, added: ShutdownCall -> seq<ShutdownCall>): seq<ShutdownCall>
    requires AddsAreLeaves(added)
    decreases Weight(calls, added)
  {
    if calls == [] then [] else [calls[0]] + ShutOrder(AfterCall(calls, added), added)
  }

  /** With routines that add nothing, shutdown calls the list in order,
      head first. */
  lemma {:induction false} ShutOrderNoAdds(calls: seq<ShutdownCall>, added: ShutdownCall -> seq<ShutdownCall>)
    requires forall e :: added(e) == []
    ensures ShutOrder(calls, added) == calls
    decreases |calls|
  {
    if calls != [] {
      assert AfterCall(calls, added) == calls[1..];
      ShutOrderNoAdds(calls[1..], added);
    }
  }

  /** Every listed routine is called, and so is every routine one of them
      adds while it runs. */
  lemma {:induction false} ShutCallsAll(calls: seq<ShutdownCall>, added: ShutdownCall -> seq<ShutdownCall>)
    requires AddsAreLeaves(added)
    ensures forall c :: c in calls ==> c in ShutOrder(calls, added)
    ensures forall c, x :: c in calls && x in added(c) ==> x in ShutOrder(calls, added)
    decreases Weight(calls, added)
  {
    if calls != [] {
      var next := AfterCall(calls, added);
      ShutCallsAll(next, added);
      var p := Pushed(added(calls[0]));
      assert forall x :: x in added(calls[0]) ==> x in p by {
        forall x | x in added(calls[0]) ensures x in p {
          var j :| 0 <= j < |added(calls[0])| && added(calls[0])[j] == x;
          assert p[|added(calls[0])| - 1 - j] == x;
        }
      }
      assert forall c :: c in calls[1..] ==> c in next;
      assert forall c :: c in calls ==> c == calls[0] || c in calls[1..];
    }
  }

  /** The routines the given entries add while they run, counted with
      multiplicity. */
  function AddedAll(calls: seq<ShutdownCall>, added: ShutdownCall -> seq<ShutdownCall>): multiset<ShutdownCall>
  {
    if calls == [] then multiset{} else multiset(added(calls[0])) + AddedAll(calls[1..], added)
  }

  lemma {:induction false} AddedAllAppend(a: seq<ShutdownCall>, b: seq<ShutdownCall>,
                                          added: ShutdownCall -> seq<ShutdownCall>)
    ensures AddedAll(a + b, added) == AddedAll(a, added) + AddedAll(b, added)
    decreases |a|
  {
    if a == [] {
      assert a + b == b;
    } else {
      assert (a + b)[1..] == a[1..] + b;
      AddedAllAppend(a[1..], b, added);
    }
  }

  lemma {:induction false} AddedAllOfLeaves(xs: seq<ShutdownCall>, added: ShutdownCall -> seq<ShutdownCall>)
    requires forall k :: 0 <= k < |xs| ==> added(xs[k]) == []
    ensures AddedAll(xs, added) == multiset{}
    decreases |xs|
  {
    if xs != [] {
      AddedAllOfLeaves(xs[1..], added);
    }
  }

  /** Head insertions keep every element, each as often as it was pushed. */
  lemma {:induction false} PushedMultiset(xs: seq<ShutdownCall>)
    ensures multiset(Pushed(xs)) == multiset(xs)
    decreases |xs|
  {
    if xs != [] {
      PushedMultiset(xs[..|xs| - 1]);
      assert xs == xs[..|xs| - 1] + [xs[|xs| - 1]];
    }
  }

  /** The entries left after calling the head, with what they will add,
      are what the head added and the rest of the list, with what the rest
      will add: the entries the head added add nothing. */
  lemma AfterCallMultiset(calls: seq<ShutdownCall>, added: ShutdownCall -> seq<ShutdownCall>)
    requires calls != [] && AddsAreLeaves(added)
    ensures multiset(AfterCall(calls, added)) + AddedAll(AfterCall(calls, added), added)
         == multiset(added(calls[0])) + multiset(calls[1..]) + AddedAll(calls[1..], added)
  {
    var p := Pushed(added(calls[0]));
    PushedMultiset(added(calls[0]));
    AddedAllAppend(p, calls[1..], added);
    forall k | 0 <= k < |p| ensures added(p[k]) == [] {
      assert p[k] == added(calls[0])[|added(calls[0])| - 1 - k];
    }
    AddedAllOfLeaves(p, added);
  }

  /** Corrected shutdown calls each listed routine, and each routine one of
      them adds, exactly as often as it was registered: nothing twice that
      was registered once, and nothing else. */
  lemma {:induction false} ShutCallsEachOnce(calls: seq<ShutdownCall>, added: ShutdownCall -> seq<ShutdownCall>)
    requires AddsAreLeaves(added)
    ensures multiset(ShutOrder(calls, added)) == multiset(calls) + AddedAll(calls, added)
    decreases Weight(calls, added)
  {
    if calls != [] {
      var next := AfterCall(calls, added);
      ShutCallsEachOnce(next, added);
      EachOnceStep(calls, added);
    }
  }

  /** One call of shutdown keeps the count: if it holds for what is left
      after the head ran, it holds for the whole list. */
  lemma EachOnceStep(calls: seq<ShutdownCall>, added: ShutdownCall -> seq<ShutdownCall>)
    requires calls != [] && AddsAreLeaves(added)
    requires multiset(ShutOrder(AfterCall(calls, added), added))
          == multiset(AfterCall(calls, added)) + AddedAll(AfterCall(calls, added), added)
    ensures multiset(ShutOrder(calls, added)) == multiset(calls) + AddedAll(calls, added)
  {
    var c, rest := calls[0], calls[1..];
    var s := ShutOrder(AfterCall(calls, added), added);
    AfterCallMultiset(calls, added);
    assert ShutOrder(calls, added) == [c] + s;
    assert AddedAll(calls, added) == multiset(added(c)) + AddedAll(rest, added);
    HeadSplit(calls);
    Rearrange(c, s, multiset(rest), multiset(added(c)), AddedAll(rest, added));
  }

  lemma HeadSplit(xs: seq<ShutdownCall>)
    requires xs != []
    ensures multiset(xs) == multiset{xs[0]} + multiset(xs[1..])
  {
    assert xs == [xs[0]] + xs[1..];
  }

  lemma Rearrange(c: ShutdownCall, s: seq<ShutdownCall>, r: multiset<ShutdownCall>,
                  a: multiset<ShutdownCall>, ar: multiset<ShutdownCall>)
    requires multiset(s) == a + r + ar
    ensures multiset([c] + s) == multiset{c} + r + (a + ar)
  {
  }

  /** LIFO: routines registered one after another are called last
      registered first. */
  lemma ShutIsLifo(regs: seq<ShutdownCall>, added: ShutdownCall -> seq<ShutdownCall>)
    requires forall e :: added(e) == []
    ensures |ShutOrder(Pushed(regs), added)| == |regs|
    ensures forall k :: 0 <= k < |regs| ==> ShutOrder(Pushed(regs), added)[k] == regs[|regs| - 1 - k]
  {
    ShutOrderNoAdds(Pushed(regs), added);
  }

  /** The global shutdown list (hdl_shdlist). */
  class ShutdownList {
    var calls: seq<ShutdownCall>

    constructor()
      ensures calls == []
    {
      calls := [];
    }

    /** hdl_adsc: a new entry at the head. */
    method Add(name: string, call: Addr, arg: Addr)
      modifies this
      ensures calls == [ShutdownCall(name, call, arg)] + old(calls)
    {
      calls := [ShutdownCall(name, call, arg)] + calls;
    }

    /** hdl_rmsc: unlinks the first entry with that routine and argument
      and returns 0, or returns -1 when there is none. */
    method Remove(call: Addr, arg: Addr) returns (rc: int)
      modifies this
      ensures rc == 0 <==> FindCall(old(calls), call, arg).Some?
      ensures rc == 0 || rc == -1
      ensures calls == RemoveFirst(old(calls), call, arg)
    {
      var i := 0;
      while i < |calls|
        invariant 0 <= i <= |calls|
        invariant forall k :: 0 <= k < i ==> !(calls[k].call == call && calls[k].arg == arg)
      {
        if calls[i].call == call && calls[i].arg == arg {
          assert FindCall(calls, call, arg) == Some(i);
          calls := calls[..i] + calls[i + 1..];
          return 0;
        }
        i := i + 1;
      }
      return -1;
    }

    /** hdl_shut as written: the head routine is called, and only then is
      the list head set to the entry that followed it, so every entry the
      routine added meanwhile is unlinked without being called. */
    method ShutAsWritten(added: ShutdownCall -> seq<ShutdownCall>) returns (fired: seq<ShutdownCall>)
      modifies this
      ensures fired == old(calls)
      ensures calls == []
    {
      fired := [];
      while calls != []
        invariant fired + calls == old(calls)
        decreases |calls|
      {
        var e := calls[0];
        var next := calls[1..];
        fired := fired + [e];
        calls := Pushed(added(e)) + calls;
        calls := next;
      }
    }

    /** hdl_shut with the entry unlinked before its routine is called, so
      that entries the routine adds are called next. */
    method Shut(added: ShutdownCall -> seq<ShutdownCall>) returns (fired: seq<ShutdownCall>)
      requires AddsAreLeaves(added)
      modifies this
      ensures fired == ShutOrder(old(calls), added)
      ensures calls == []
    {
      fired := [];
      while calls != []
        invariant fired + ShutOrder(calls, added) == ShutOrder(old(calls), added)
        decreases Weight(calls, added)
      {
        var e := calls[0];
        ghost var before := calls;
        calls := calls[1..];
        fired := fired + [e];
        calls := Pushed(added(e)) + calls;
        assert calls == AfterCall(before, added);
      }
    }
  }

  /** Finding: a routine that registers another routine while it runs.
      As written, the second routine is never called; the corrected
      shutdown calls it right after the first. */
  method DroppedShutdownEntry() returns (asWritten: seq<ShutdownCall>, corrected: seq<ShutdownCall>)
    ensures asWritten == [ShutdownCall("first", 1, 0)]
    ensures corrected == [ShutdownCall("first", 1, 0), ShutdownCall("second", 2, 0)]
  {
    var first := ShutdownCall("first", 1, 0);
    var second := ShutdownCall("second", 2, 0);
    var added := (e: ShutdownCall) => if e == first then [second] else [];
    var list := new ShutdownList();
    list.Add("first", 1, 0);
    asWritten := list.ShutAsWritten(added);
    list.Add("first", 1, 0);
    corrected := list.Shut(added);
    assert AfterCall([first], added) == [second];
    assert AfterCall([second], added) == [];
    assert ShutOrder([second], added) == [second];
  }
}
