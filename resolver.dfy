/** The entry-point resolver: the per-module lists of resolved entry points
    (MODENT) hanging off the module chain, the lookup hdl_fent performs over
    them, the registration hdl_regi performs, and the override chaining of
    hdl_nent. The chain is a sequence of modules, newest first; each module's
    list is newest entry first. */
module Resolver {
  import opened HdlTypes

  function NameIs(name: string): ModEnt -> bool
  {
    (e: ModEnt) => e.name == name
  }

  function FepIs(fep: Addr): ModEnt -> bool
  {
    (e: ModEnt) => e.fep == fep
  }

  /** The entry-point lists of the chain, in chain order. */
  function Entries(chain: seq<Module>): (r: seq<seq<ModEnt>>)
    ensures |r| == |chain|
    ensures forall i :: 0 <= i < |chain| ==> r[i] == chain[i].modents
  {
    seq(|chain|, i requires 0 <= i < |chain| => chain[i].modents)
  }

  /** The chain with the entry-point lists left out: what the resolver never
      changes. */
  function Shapes(chain: seq<Module>): (r: seq<Module>)
    ensures |r| == |chain|
    ensures forall i :: 0 <= i < |chain| ==> r[i] == chain[i].(modents := [])
  {
    seq(|chain|, i requires 0 <= i < |chain| => chain[i].(modents := []))
  }

  /** All entry points in chain order: newest module first, newest entry
      first within a module. */
  function Flat(chain: seq<Module>): seq<ModEnt>
  {
    if chain == [] then [] else chain[0].modents + Flat(chain[1..])
  }

  /** Position of the first entry named name, in chain order: the first loop
      of hdl_fent. */
  function FindEntry(chain: seq<Module>, name: string): (r: Option<(nat, nat)>)
    ensures r.Some? ==> r.value.0 < |chain| && r.value.1 < |chain[r.value.0].modents|
    ensures r.Some? ==> chain[r.value.0].modents[r.value.1].name == name
    ensures r.Some? ==> forall i, k :: 0 <= i < r.value.0 && 0 <= k < |chain[i].modents| ==>
                          chain[i].modents[k].name != name
    ensures r.Some? ==> forall k :: 0 <= k < r.value.1 ==> chain[r.value.0].modents[k].name != name
    ensures r.None? ==> forall i, k :: 0 <= i < |chain| && 0 <= k < |chain[i].modents| ==>
                          chain[i].modents[k].name != name
  {
    FirstMatch2(Entries(chain), NameIs(name))
  }

  /** Index of the first module whose binary exports name: the second loop
      of hdl_fent. */
  function FirstResolving(chain: seq<Module>, name: string): (r: Option<nat>)
    ensures r.Some? ==> r.value < |chain| && Dlsym(chain[r.value].bin, name) != NULL
    ensures r.Some? ==> forall i :: 0 <= i < r.value ==> Dlsym(chain[i].bin, name) == NULL
    ensures r.None? ==> forall i :: 0 <= i < |chain| ==> Dlsym(chain[i].bin, name) == NULL
  {
    FirstMatch(chain, (m: Module) => Dlsym(m.bin, name) != NULL)
  }

  datatype Lookup = Lookup(fep: Addr, chain: seq<Module>)

  /** hdl_fent. A cache hit returns the first entry of that name in chain
      order and adds one to its load count, touching nothing else. On a miss
      the first module that exports the symbol gets a new entry with load
      count 1 at the head of its list. When no module exports it the result
      is NULL and nothing changes. Module descriptors other than their entry
      lists are never touched. */
  function Fent(chain: seq<Module>, name: string): (r: Lookup)
    ensures Shapes(r.chain) == Shapes(chain)
    ensures FindEntry(chain, name).Some? ==>
      var (i, k) := FindEntry(chain, name).value;
      var e := chain[i].modents[k];
      && r.fep == e.fep
      && (forall j :: 0 <= j < |chain| && j != i ==> r.chain[j] == chain[j])
      && r.chain[i].modents == chain[i].modents[k := e.(count := e.count + 1)]
    ensures FindEntry(chain, name).None? && FirstResolving(chain, name).Some? ==>
      var i := FirstResolving(chain, name).value;
      && r.fep == Dlsym(chain[i].bin, name) && r.fep != NULL
      && (forall j :: 0 <= j < |chain| && j != i ==> r.chain[j] == chain[j])
      && r.chain[i].modents == [ModEnt(name, r.fep, 1)] + chain[i].modents
    ensures FindEntry(chain, name).None? && FirstResolving(chain, name).None? ==>
      r.fep == NULL && r.chain == chain
  {
    match FindEntry(chain, name)
    case Some((i, k)) =>
      var e := chain[i].modents[k];
      Lookup(e.fep, chain[i := chain[i].(modents := chain[i].modents[k := e.(count := e.count + 1)])])
    case None =>
      match FirstResolving(chain, name)
      case None => Lookup(NULL, chain)
      case Some(i) =>
        var fep := Dlsym(chain[i].bin, name);
        Lookup(fep, chain[i := chain[i].(modents := [ModEnt(name, fep, 1)] + chain[i].modents)])
  }

  /** Once hdl_fent has found or resolved a name, asking again is a cache
      hit that returns the same address. */
  lemma FentCaches(chain: seq<Module>, name: string)
    requires FindEntry(chain, name).Some? || FirstResolving(chain, name).Some?
    ensures FindEntry(Fent(chain, name).chain, name).Some?
    ensures Fent(Fent(chain, name).chain, name).fep == Fent(chain, name).fep
  {
    var after := Fent(chain, name).chain;
    match FindEntry(chain, name)
    case Some((i, k)) =>
      var rows: seq<seq<ModEnt>> := Entries(chain);
      var rows': seq<seq<ModEnt>> := Entries(after);
      assert forall j :: 0 <= j < |rows| && j != i ==> rows'[j] == rows[j];
      assert forall l :: 0 <= l < |rows[i]| ==> rows'[i][l].name == rows[i][l].name;
      var r := FirstMatch2(rows', NameIs(name));
      assert r.Some?;
      assert r.value == (i, k);
    case None =>
      var i := FirstResolving(chain, name).value;
      var rows': seq<seq<ModEnt>> := Entries(after);
      assert rows'[i][0].name == name;
      assert forall j :: 0 <= j < i ==> rows'[j] == chain[j].modents;
      var r := FirstMatch2(rows', NameIs(name));
      assert r.Some?;
      assert r.value == (i, 0);
  }

  /** The override order: an entry registered by the newest module hides
      every same-named entry of the modules loaded before it. */
  lemma NewestModuleWins(m: Module, older: seq<Module>, name: string)
    requires exists k :: 0 <= k < |m.modents| && m.modents[k].name == name
    ensures FindEntry([m] + older, name).Some?
    ensures FindEntry([m] + older, name).value.0 == 0
    ensures Fent([m] + older, name).fep ==
            m.modents[FirstMatch(m.modents, NameIs(name)).value].fep
  {
    var k :| 0 <= k < |m.modents| && m.modents[k].name == name;
    assert NameIs(name)(m.modents[k]);
    assert Entries([m] + older)[0] == m.modents;
  }

  /** hdl_fent applied to each name in turn, as a module's resolver section
      does. Only entry-point lists change. */
  function FentAll(chain: seq<Module>, names: seq<string>): (r: seq<Module>)
    ensures Shapes(r) == Shapes(chain) && |r| == |chain|
    decreases |names|
  {
    if names == [] then chain
    else Fent(FentAll(chain, names[..|names| - 1]), names[|names| - 1]).chain
  }

  /** One more name resolves on top of the names before it. */
  lemma FentAllStep(chain: seq<Module>, names: seq<string>, j: nat)
    requires j < |names|
    ensures FentAll(chain, names[..j + 1]) == Fent(FentAll(chain, names[..j]), names[j]).chain
  {
    assert names[..j + 1][..j] == names[..j];
  }

  /** Resolving one list of names and then another is resolving both. */
  lemma {:induction false} FentAllAppend(chain: seq<Module>, a: seq<string>, b: seq<string>)
    ensures FentAll(chain, a + b) == FentAll(FentAll(chain, a), b)
    decreases |b|
  {
    if b == [] {
      assert a + b == a;
    } else {
      var b' := b[..|b| - 1];
      assert (a + b)[..|a + b| - 1] == a + b';
      assert (a + b)[|a + b| - 1] == b[|b| - 1];
      FentAllAppend(chain, a, b');
    }
  }

  /** Every name the resolver sections of the given binaries ask for, in
      chain order. */
  function Requests(bins: seq<Binary>): seq<string>
  {
    if bins == [] then [] else Requests(bins[..|bins| - 1]) + bins[|bins| - 1].resolves
  }

  function Bins(chain: seq<Module>): (r: seq<Binary>)
    ensures |r| == |chain|
    ensures forall i :: 0 <= i < |chain| ==> r[i] == chain[i].bin
  {
    seq(|chain|, i requires 0 <= i < |chain| => chain[i].bin)
  }

  lemma BinsOfShapes(a: seq<Module>, b: seq<Module>)
    requires Shapes(a) == Shapes(b)
    ensures Bins(a) == Bins(b)
  {
    assert forall i :: 0 <= i < |a| ==> Shapes(a)[i].bin == a[i].bin;
  }

  /** "Call all resolvers": every module's resolver section, in chain order. */
  function ResolveAll(chain: seq<Module>): (r: seq<Module>)
    ensures Shapes(r) == Shapes(chain) && |r| == |chain|
  {
    FentAll(chain, Requests(Bins(chain)))
  }

  /** What hdl_load and hdl_dele do after changing the chain: reset every
      load count, then call every resolver. Only entry-point lists change. */
  function Reresolve(chain: seq<Module>): (r: seq<Module>)
    ensures Shapes(r) == Shapes(chain) && |r| == |chain|
  {
    ResolveAll(ZeroCounts(chain))
  }

  /** Every load count set to zero, nothing else changed. */
  function ZeroCounts(chain: seq<Module>): (r: seq<Module>)
    ensures |r| == |chain| && Shapes(r) == Shapes(chain)
    ensures forall i :: 0 <= i < |chain| ==> |r[i].modents| == |chain[i].modents|
    ensures forall i, k :: 0 <= i < |chain| && 0 <= k < |chain[i].modents| ==>
              r[i].modents[k] == chain[i].modents[k].(count := 0)
  {
    seq(|chain|, i requires 0 <= i < |chain| => chain[i].(modents := ZeroEnts(chain[i].modents)))
  }

  function ZeroEnts(es: seq<ModEnt>): (r: seq<ModEnt>)
    ensures |r| == |es|
    ensures forall k :: 0 <= k < |es| ==> r[k] == es[k].(count := 0)
  {
    seq(|es|, k requires 0 <= k < |es| => es[k].(count := 0))
  }

  /** hdl_regi: a new entry with load count 0 at the head of the module's
      list. */
  function Regi(m: Module, name: string, fep: Addr): (r: Module)
    ensures r.(modents := []) == m.(modents := [])
    ensures r.modents == [ModEnt(name, fep, 0)] + m.modents
  {
    m.(modents := [ModEnt(name, fep, 0)] + m.modents)
  }

  /** The entries a module's initialiser creates from the registrations it
      makes, in list order (the last registration first). */
  function Registered(regs: seq<EntryReg>): (r: seq<ModEnt>)
    ensures |r| == |regs|
    ensures forall k :: 0 <= k < |regs| ==>
              r[k] == ModEnt(regs[|regs| - 1 - k].name, regs[|regs| - 1 - k].fep, 0)
  {
    var ents := seq(|regs|, k requires 0 <= k < |regs| => ModEnt(regs[k].name, regs[k].fep, 0));
    Pushed(ents)
  }

  /** One more registration puts its entry at the head. */
  lemma RegisteredSnoc(regs: seq<EntryReg>, reg: EntryReg)
    ensures Registered(regs + [reg]) == [ModEnt(reg.name, reg.fep, 0)] + Registered(regs)
  {
    var a := Registered(regs + [reg]);
    var b := [ModEnt(reg.name, reg.fep, 0)] + Registered(regs);
    assert |a| == |b|;
    forall k | 0 <= k < |a| ensures a[k] == b[k] {
      if k > 0 {
        assert (regs + [reg])[|regs| - k] == regs[|regs| - 1 - (k - 1)];
      }
    }
  }

  // -----------------------------------------------------------------------
  // hdl_nent

  /** A NULL result, a found address, or the NULL dereference of the scan
      at hdl.c line 575. */
  datatype NentOutcome = Returned(fep: Addr) | NullDeref

  /** Position of the first entry whose address is fep (the loop of hdl_nent
      at 549-559). */
  function FindFep(chain: seq<Module>, fep: Addr): (r: Option<(nat, nat)>)
    ensures r.Some? ==> r.value.0 < |chain| && r.value.1 < |chain[r.value.0].modents|
    ensures r.Some? ==> chain[r.value.0].modents[r.value.1].fep == fep
    decreases |chain|
  {
    if chain == [] then None
    else match FirstMatch(chain[0].modents, FepIs(fep))
      case Some(k) => Some((0, k))
      case None =>
        match FindFep(chain[1..], fep)
        case None => None
        case Some(pos) => Some((pos.0 + 1, pos.1))
  }

  /** The scan of hdl_nent at 575-584 as written: the rest of the current
      module's list, then each later module. When the last module has been
      scanned without a match, the step expression of the for loop reads
      dllent->modent of the NULL dllent. */
  function ScanAsWritten(es: seq<ModEnt>, later: seq<Module>, name: string): NentOutcome
    decreases |later|
  {
    match FirstMatch(es, NameIs(name))
    case Some(k) => Returned(es[k].fep)
    case None =>
      if later == [] then NullDeref
      else ScanAsWritten(later[0].modents, later[1..], name)
  }

  /** hdl_nent as written, from entry k of module d onwards (561-586):
      the scan starts at the next entry, or at the next module's list when
      entry k is its module's last; the last entry of the last module
      returns NULL. */
  function NentAsWrittenFrom(chain: seq<Module>, d: nat, k: nat): NentOutcome
    requires d < |chain| && k < |chain[d].modents|
  {
    var es := chain[d].modents;
    if k + 1 < |es| then ScanAsWritten(es[k + 1..], chain[d + 1..], es[k].name)
    else if d + 1 < |chain| then ScanAsWritten(chain[d + 1].modents, chain[d + 2..], es[k].name)
    else Returned(NULL)
  }

  /** hdl_nent as written. */
  function NentAsWritten(chain: seq<Module>, fep: Addr): NentOutcome
  {
    match FindFep(chain, fep)
    case None => Returned(NULL)
    case Some((d, k)) => NentAsWrittenFrom(chain, d, k)
  }

  /** The same scan returning NULL when the chain runs out. */
  function Scan(es: seq<ModEnt>, later: seq<Module>, name: string): Addr
    decreases |later|
  {
    match FirstMatch(es, NameIs(name))
    case Some(k) => es[k].fep
    case None =>
      if later == [] then NULL
      else Scan(later[0].modents, later[1..], name)
  }

  /** The corrected scan from entry k of module d onwards. */
  function NentFrom(chain: seq<Module>, d: nat, k: nat): Addr
    requires d < |chain| && k < |chain[d].modents|
  {
    var es := chain[d].modents;
    if k + 1 < |es| then Scan(es[k + 1..], chain[d + 1..], es[k].name)
    else if d + 1 < |chain| then Scan(chain[d + 1].modents, chain[d + 2..], es[k].name)
    else NULL
  }

  /** hdl_nent with the end of the chain handled. */
  function Nent(chain: seq<Module>, fep: Addr): Addr
  {
    match FindFep(chain, fep)
    case None => NULL
    case Some((d, k)) => NentFrom(chain, d, k)
  }

  /** The override-chaining contract over the whole chain: take the first
      entry whose address is fep, then the address of the next entry after
      it, in chain order, with the same name; NULL when either is missing. */
  function NextInChain(flat: seq<ModEnt>, fep: Addr): Addr
  {
    match FirstMatch(flat, FepIs(fep))
    case None => NULL
    case Some(i) => FirstNamedFep(flat[i + 1..], flat[i].name)
  }

  /** The address of the first entry named name in s, NULL when none is. */
  function FirstNamedFep(s: seq<ModEnt>, name: string): Addr
  {
    match FirstMatch(s, NameIs(name))
    case None => NULL
    case Some(j) => s[j].fep
  }

  lemma {:induction false} ScanIsFlat(es: seq<ModEnt>, later: seq<Module>, name: string)
    ensures Scan(es, later, name) == FirstNamedFep(es + Flat(later), name)
    ensures ScanAsWritten(es, later, name) ==
      if FirstMatch(es + Flat(later), NameIs(name)).Some?
      then Returned(Scan(es, later, name)) else NullDeref
    decreases |later|
  {
    FirstMatchAppend(es, Flat(later), NameIs(name));
    if FirstMatch(es, NameIs(name)).None? && later != [] {
      ScanIsFlat(later[0].modents, later[1..], name);
      FirstMatchAppend(later[0].modents, Flat(later[1..]), NameIs(name));
      var k := FirstMatch(es + Flat(later), NameIs(name));
      if k.Some? {
        assert (es + Flat(later))[k.value] == Flat(later)[k.value - |es|];
      }
    } else if FirstMatch(es, NameIs(name)).Some? {
      var k := FirstMatch(es, NameIs(name)).value;
      assert (es + Flat(later))[k] == es[k];
    }
  }

  lemma {:induction false} FindFepNoneIsFlat(chain: seq<Module>, fep: Addr)
    requires FindFep(chain, fep).None?
    ensures FirstMatch(Flat(chain), FepIs(fep)).None?
  {
    if chain != [] {
      FindFepNoneIsFlat(chain[1..], fep);
      FirstMatchAppend(chain[0].modents, Flat(chain[1..]), FepIs(fep));
    }
  }

  lemma SliceOfAppend<T>(a: seq<T>, b: seq<T>, i: nat)
    requires i <= |a|
    ensures (a + b)[i..] == a[i..] + b
  {
  }

  lemma SliceOfAppendRight<T>(a: seq<T>, b: seq<T>, j: nat)
    requires j <= |b|
    ensures (a + b)[|a| + j..] == b[j..]
  {
  }

  /** Index in Flat(chain) of entry k of module d. */
  function FlatPos(chain: seq<Module>, d: nat, k: nat): nat
    requires d < |chain|
    decreases d
  {
    if d == 0 then k else |chain[0].modents| + FlatPos(chain[1..], d - 1, k)
  }

  /** Entry k of module d sits at FlatPos in the flattened chain, followed by
      the rest of its module's list and then every later module's. */
  lemma {:induction false} FlatAt(chain: seq<Module>, d: nat, k: nat)
    requires d < |chain| && k < |chain[d].modents|
    ensures FlatPos(chain, d, k) < |Flat(chain)|
    ensures Flat(chain)[FlatPos(chain, d, k)] == chain[d].modents[k]
    ensures Flat(chain)[FlatPos(chain, d, k) + 1..] == chain[d].modents[k + 1..] + Flat(chain[d + 1..])
    decreases d
  {
    var es := chain[0].modents;
    var tail := Flat(chain[1..]);
    assert Flat(chain) == es + tail;
    if d == 0 {
      SliceOfAppend(es, tail, k + 1);
    } else {
      FlatAt(chain[1..], d - 1, k);
      SliceOfAppendRight(es, tail, FlatPos(chain[1..], d - 1, k) + 1);
      assert chain[1..][d..] == chain[d + 1..];
    }
  }

  /** The first entry with address fep is the same one whether the chain is
      scanned module by module or flattened. */
  lemma {:induction false} FindFepSomeIsFlat(chain: seq<Module>, fep: Addr, d: nat, k: nat)
    requires FindFep(chain, fep) == Some((d, k))
    ensures FirstMatch(Flat(chain), FepIs(fep)) == Some(FlatPos(chain, d, k))
  {
    var es := chain[0].modents;
    var tail := Flat(chain[1..]);
    assert Flat(chain) == es + tail;
    FirstMatchAppend(es, tail, FepIs(fep));
    if d != 0 {
      FindFepSomeIsFlat(chain[1..], fep, d - 1, k);
    }
  }

  /** What follows entry k of module d, in chain order. */
  function After(chain: seq<Module>, d: nat, k: nat): seq<ModEnt>
    requires d < |chain| && k < |chain[d].modents|
  {
    chain[d].modents[k + 1..] + Flat(chain[d + 1..])
  }

  /** Both scans from a given entry, stated over what follows it. */
  lemma NentFromIsFlat(chain: seq<Module>, d: nat, k: nat)
    requires d < |chain| && k < |chain[d].modents|
    ensures NentFrom(chain, d, k) == FirstNamedFep(After(chain, d, k), chain[d].modents[k].name)
    ensures NentAsWrittenFrom(chain, d, k) ==
      if FirstMatch(After(chain, d, k), NameIs(chain[d].modents[k].name)).Some?
      then Returned(NentFrom(chain, d, k))
      else if k + 1 < |chain[d].modents| || d + 1 < |chain| then NullDeref
      else Returned(NULL)
  {
    var es := chain[d].modents;
    var name := es[k].name;
    if k + 1 < |es| {
      ScanIsFlat(es[k + 1..], chain[d + 1..], name);
    } else if d + 1 < |chain| {
      assert es[k + 1..] == [];
      assert chain[d + 1..][1..] == chain[d + 2..];
      assert Flat(chain[d + 1..]) == chain[d + 1].modents + Flat(chain[d + 2..]);
      assert After(chain, d, k) == chain[d + 1].modents + Flat(chain[d + 2..]);
      ScanIsFlat(chain[d + 1].modents, chain[d + 2..], name);
    } else {
      assert After(chain, d, k) == [];
    }
  }

  /** hdl_nent, with the end of the chain handled, returns the next
      same-named entry after the first entry with the given address, in
      chain order across modules, or NULL. */
  lemma NentIsNextInChain(chain: seq<Module>, fep: Addr)
    ensures Nent(chain, fep) == NextInChain(Flat(chain), fep)
  {
    match FindFep(chain, fep)
    case None => FindFepNoneIsFlat(chain, fep);
    case Some((d, k)) =>
      FindFepSomeIsFlat(chain, fep, d, k);
      FlatAt(chain, d, k);
      NentFromIsFlat(chain, d, k);
  }

  /** As written, hdl_nent agrees with the corrected scan whenever it does
      not dereference NULL, and it dereferences NULL exactly when the entry
      is found, no later entry in chain order has its name, and it is not
      the last entry of the last module. */
  lemma NentAsWrittenAgrees(chain: seq<Module>, fep: Addr)
    ensures NentAsWritten(chain, fep) != NullDeref ==>
              NentAsWritten(chain, fep) == Returned(Nent(chain, fep))
    ensures NentAsWritten(chain, fep) == NullDeref <==>
      && FindFep(chain, fep).Some?
      && var (d, k) := FindFep(chain, fep).value;
         && FirstMatch(After(chain, d, k), NameIs(chain[d].modents[k].name)).None?
         && (k + 1 < |chain[d].modents| || d + 1 < |chain|)
  {
    match FindFep(chain, fep)
    case None =>
    case Some((d, k)) => NentFromIsFlat(chain, d, k);
  }

  /** The dereference is reachable: a module whose only entry is looked up
      by address, loaded above the resident module with an unrelated entry.
      The corrected scan answers NULL there. */
  lemma NentAsWrittenDereferencesNull(b: Binary)
    ensures var chain := [Module("mod", {}, b, [ModEnt("x", 1, 0)], [], []),
                          Module(MainName, {Main, NoUnload}, b, [ModEnt("y", 2, 0)], [], [])];
            NentAsWritten(chain, 1) == NullDeref && Nent(chain, 1) == NULL
  {
    var chain := [Module("mod", {}, b, [ModEnt("x", 1, 0)], [], []),
                  Module(MainName, {Main, NoUnload}, b, [ModEnt("y", 2, 0)], [], [])];
    assert FepIs(1)(chain[0].modents[0]);
    assert FindFep(chain, 1) == Some((0, 0));
    assert !NameIs("x")(chain[1].modents[0]);
    assert chain[2..] == [];
  }

  /** Override chaining across two modules that both register a name: the
      newer module's address leads to the older one's, and that one to NULL. */
  lemma OverrideChain(a: Module, b: Module, name: string, fa: Addr, fb: Addr)
    requires a.modents == [ModEnt(name, fa, 0)] && b.modents == [ModEnt(name, fb, 0)]
    requires fa != fb
    ensures Fent([b, a], name).fep == fb
    ensures Nent([b, a], fb) == fa
    ensures Nent([b, a], fa) == NULL
  {
    var chain := [b, a];
    assert NameIs(name)(b.modents[0]);
    assert Entries(chain)[0] == b.modents;
    assert FepIs(fb)(chain[0].modents[0]);
    assert FindFep(chain, fb) == Some((0, 0));
    assert chain[1..] == [a] && chain[2..] == [];
    assert NameIs(name)(a.modents[0]);
    assert !FepIs(fa)(chain[0].modents[0]);
    assert FepIs(fa)(chain[1].modents[0]);
    assert Entries(chain)[1..] == Entries(chain[1..]);
    assert FindFep(chain, fa) == Some((1, 0));
  }
}
