/** The loader's global state held in place, as hdl.c keeps it in its
    static list heads (hdl_dll, hdl_depend) and in the opcode tables. Each
    method performs the steps of one hdl.c routine on the fields and is
    proved to leave the state the specification functions of Loader,
    Resolver, Dependency, Devices and Opcode describe. */
module Hdl {
  import opened HdlTypes
  import opened Dependency
  import opened Resolver
  import opened Devices
  import opened Opcode
  import opened Loader
  import Shutdown

  /** The names of the modules whose final section hdl_term calls, in the
      order it calls them: chain order, newest module first. */
  function FiniOrder(chain: seq<Module>): seq<string>
  {
    if chain == [] then []
    else FiniOrder(chain[..|chain| - 1]) +
         (if chain[|chain| - 1].bin.fini.Some? then [chain[|chain| - 1].name] else [])
  }

  /** hdl_term calls a newly loaded module's final section before those of
      every module loaded earlier. */
  lemma {:induction false} FiniOrderNewestFirst(m: Module, chain: seq<Module>)
    ensures FiniOrder([m] + chain) ==
            (if m.bin.fini.Some? then [m.name] else []) + FiniOrder(chain)
    decreases |chain|
  {
    if chain != [] {
      var c := [m] + chain;
      assert c[..|c| - 1] == [m] + chain[..|chain| - 1];
      assert c[|c| - 1] == chain[|chain| - 1];
      FiniOrderNewestFirst(m, chain[..|chain| - 1]);
    } else {
      assert [m] + chain == [m];
      assert [m][..0] == [];
    }
  }

  /** hdl_term calls exactly the final sections present, each once; the
      resident module's, when it has one, comes last. */
  lemma {:induction false} FiniOrderCallsEach(chain: seq<Module>)
    requires ChainInv(chain)
    ensures forall x :: x in FiniOrder(chain) <==>
              exists i :: 0 <= i < |chain| && chain[i].name == x && chain[i].bin.fini.Some?
    ensures |FiniOrder(chain)| <= |chain|
    ensures chain[|chain| - 1].bin.fini.Some? ==> FiniOrder(chain)[|FiniOrder(chain)| - 1] == MainName
    ensures forall j, k :: 0 <= j < k < |FiniOrder(chain)| ==> FiniOrder(chain)[j] != FiniOrder(chain)[k]
  {
    FiniOrderMembers(chain);
    FiniOrderDistinct(chain);
  }

  /** Modules with distinct names have their final sections called once
      each. */
  lemma {:induction false} FiniOrderDistinct(chain: seq<Module>)
    requires forall i, j :: 0 <= i < j < |chain| ==> chain[i].name != chain[j].name
    ensures forall j, k :: 0 <= j < k < |FiniOrder(chain)| ==> FiniOrder(chain)[j] != FiniOrder(chain)[k]
    decreases |chain|
  {
    if chain != [] {
      var init := chain[..|chain| - 1];
      FiniOrderDistinct(init);
      FiniOrderMembers(init);
      forall x | x in FiniOrder(init) ensures x != chain[|chain| - 1].name {
        var i :| 0 <= i < |init| && init[i].name == x && init[i].bin.fini.Some?;
        assert chain[i] == init[i];
      }
      var f := FiniOrder(init);
      if chain[|chain| - 1].bin.fini.Some? {
        var g := f + [chain[|chain| - 1].name];
        assert FiniOrder(chain) == g;
        forall j, k | 0 <= j < k < |g| ensures g[j] != g[k] {
          if k == |f| { assert g[j] in f; }
        }
      }
    }
  }

  lemma {:induction false} FiniOrderMembers(chain: seq<Module>)
    ensures forall x :: x in FiniOrder(chain) <==>
              exists i :: 0 <= i < |chain| && chain[i].name == x && chain[i].bin.fini.Some?
    ensures |FiniOrder(chain)| <= |chain|
    decreases |chain|
  {
    if chain != [] {
      var init := chain[..|chain| - 1];
      FiniOrderMembers(init);
      forall x ensures x in FiniOrder(chain) <==>
        exists i :: 0 <= i < |chain| && chain[i].name == x && chain[i].bin.fini.Some?
      {
        if x in FiniOrder(init) {
          var i :| 0 <= i < |init| && init[i].name == x && init[i].bin.fini.Some?;
          assert chain[i] == init[i];
        }
        if exists i :: 0 <= i < |chain| && chain[i].name == x && chain[i].bin.fini.Some? {
          var i :| 0 <= i < |chain| && chain[i].name == x && chain[i].bin.fini.Some?;
          if i < |init| { assert init[i] == chain[i]; }
        }
      }
    }
  }

  /** A module's initialiser: each registration goes through hdl_regi
      into the module being loaded (hdl_cdll). */
  method RunInitialiser(m: Module, regs: seq<EntryReg>) returns (r: Module)
    ensures r == m.(modents := Registered(regs) + m.modents)
  {
    r := m;
    var j := 0;
    assert Registered(regs[..j]) + m.modents == m.modents;
    while j < |regs|
      invariant 0 <= j <= |regs|
      invariant r == m.(modents := Registered(regs[..j]) + m.modents)
    {
      RegisteredSnoc(regs[..j], regs[j]);
      assert regs[..j + 1] == regs[..j] + [regs[j]];
      r := Resolver.Regi(r, regs[j].name, regs[j].fep);
      j := j + 1;
    }
    assert regs[..j] == regs;
  }

  /** The loader: module chain, dependency ledger and opcode tables. The
      architectures compiled in are fixed. */
  class Registry {
    var chain: seq<Module>
    var ledger: seq<Dep>
    var tables: Tables
    const config: set<Arch>

    function Snapshot(): State
      reads this
    {
      State(chain, ledger, tables)
    }

    ghost predicate Valid()
      reads this
    {
      Inv(Snapshot())
    }

    /** hdl_main up to its preloads: the resident module "*Hercules" alone
        on the chain, marked main and no-unload; its dependency section
        records its triples with hdl_dadd; its initialiser, resolver,
        device and instruction sections run against it; and hdl_term is
        put on the shutdown list. */
    constructor (main: Binary, tables: Tables, config: set<Arch>,
                 shut: Shutdown.ShutdownList, term: Addr)
      requires main.depc != NULL && Complete(tables)
      modifies shut
      ensures Valid() && this.config == config
      ensures Snapshot() == MainSpec(main, tables, config)
      ensures shut.calls == [Shutdown.ShutdownCall("hdl_term", term, NULL)] + old(shut.calls)
    {
      var m := Module(MainName, {Main, NoUnload}, main, [], [], []);
      m := RunInitialiser(m, main.inits);
      this.chain := [m];
      this.ledger := [];
      this.tables := tables;
      this.config := config;
      new;
      DeclareDependencies(main.deps);
      ghost var m' := Module(MainName, {Main, NoUnload}, main, Registered(main.inits), [], []);
      assert Registered(main.inits) + [] == Registered(main.inits);
      assert chain == [m'];
      RunResolver(main.resolves);
      ghost var c := FentAll([m'], main.resolves);
      assert chain == c;
      SameShape(c, [m'], 0);
      RegisterDevices(main.devices);
      assert Pushed(main.devices) + [] == Pushed(main.devices);
      assert chain == [c[0].(hndents := Pushed(main.devices))];
      DefineInstructions(main.instrs);
      ghost var d := DefineAll(tables, main.instrs, [], config);
      assert chain == [c[0].(hndents := Pushed(main.devices), insents := d.1)];
      assert Snapshot() == MainSpec(main, tables, config);
      MainSpecInv(main, tables, config);
      shut.Add("hdl_term", term, NULL);
    }

    /** The resident module's dependency section in declare mode: every
        triple recorded with hdl_dadd, without a check. */
    method DeclareDependencies(deps: seq<Dep>)
      modifies this
      ensures ledger == old(ledger) + deps
      ensures chain == old(chain) && tables == old(tables)
    {
      var j := 0;
      while j < |deps|
        invariant 0 <= j <= |deps|
        invariant ledger == old(ledger) + deps[..j]
        invariant chain == old(chain) && tables == old(tables)
      {
        assert deps[..j + 1] == deps[..j] + [deps[j]];
        Dadd(deps[j]);
        j := j + 1;
      }
      assert deps[..j] == deps;
    }

    /** One module's resolver section: each name it needs is looked up
        with hdl_fent, in order. */
    method RunResolver(names: seq<string>)
      modifies this
      ensures chain == FentAll(old(chain), names)
      ensures ledger == old(ledger) && tables == old(tables)
    {
      var j := 0;
      while j < |names|
        invariant 0 <= j <= |names|
        invariant chain == FentAll(old(chain), names[..j])
        invariant ledger == old(ledger) && tables == old(tables)
      {
        FentAllStep(old(chain), names, j);
        var fep := Fent(names[j]);
        j := j + 1;
      }
      assert names[..j] == names;
    }

    /** A module's device section: each device type registered with
        hdl_dvad into the current module, the chain head. */
    method RegisterDevices(devs: seq<DevEnt>)
      requires |chain| > 0
      modifies this
      ensures chain == old(chain)[0 := old(chain)[0].(hndents := Pushed(devs) + old(chain)[0].hndents)]
      ensures ledger == old(ledger) && tables == old(tables)
    {
      ghost var m0 := chain[0];
      var j := 0;
      assert Pushed(devs[..j]) + m0.hndents == m0.hndents;
      while j < |devs|
        invariant 0 <= j <= |devs| && |chain| == |old(chain)|
        invariant chain == old(chain)[0 := m0.(hndents := Pushed(devs[..j]) + m0.hndents)]
        invariant ledger == old(ledger) && tables == old(tables)
      {
        PushedSnoc(devs[..j], devs[j]);
        assert devs[..j + 1] == devs[..j] + [devs[j]];
        Dvad(devs[j].name, devs[j].hnd);
        assert chain[0] == m0.(hndents := Pushed(devs[..j + 1]) + m0.hndents);
        j := j + 1;
      }
      assert devs[..j] == devs;
    }

    /** A module's instruction section: each instruction defined with
        hdl_didf into the current module, the chain head. */
    method DefineInstructions(reqs: seq<InsReq>)
      requires |chain| > 0 && Complete(tables)
      modifies this
      ensures Complete(tables)
      ensures var d := DefineAll(old(tables), reqs, old(chain)[0].insents, config);
              tables == d.0 && chain == old(chain)[0 := old(chain)[0].(insents := d.1)]
      ensures ledger == old(ledger)
    {
      ghost var t0, c0, m0 := tables, chain, chain[0];
      var j := 0;
      while j < |reqs|
        invariant 0 <= j <= |reqs| && |chain| == |c0|
        invariant var d := DefineAll(t0, reqs[..j], m0.insents, config);
                  tables == d.0 && chain == c0[0 := m0.(insents := d.1)]
        invariant ledger == old(ledger)
      {
        DefineAllStep(t0, reqs, m0.insents, config, j);
        ghost var before := chain;
        Didf(reqs[j]);
        UpdateTwice(c0, m0.(insents := before[0].insents), chain[0]);
        j := j + 1;
      }
      assert reqs[..j] == reqs;
    }

    /** hdl_dadd: a record appended at the tail of the ledger. */
    method Dadd(d: Dep)
      modifies this
      ensures ledger == old(ledger) + [d]
      ensures chain == old(chain) && tables == old(tables)
    {
      ledger := ledger + [d];
    }

    /** hdl_dchk: scan the ledger for the name; compare version, then size;
        record an unknown name. */
    method Dchk(d: Dep) returns (rc: int)
      modifies this
      ensures DchkResult(rc, ledger) == Dependency.Dchk(old(ledger), d)
      ensures chain == old(chain) && tables == old(tables)
    {
      var i := 0;
      while i < |ledger| && ledger[i].name != d.name
        invariant 0 <= i <= |ledger|
        invariant forall k :: 0 <= k < i ==> ledger[k].name != d.name
      {
        i := i + 1;
      }
      if i < |ledger| {
        assert FindDep(ledger, d.name) == Some(i);
        if ledger[i].version != d.version {
          return -1;
        }
        if ledger[i].size != d.size {
          return -1;
        }
      } else {
        Dadd(d);
      }
      return 0;
    }

    /** A dependency section run in check mode: every triple goes through
        hdl_dchk; the section fails when any of them failed. */
    method CheckDependencies(ts: seq<Dep>) returns (ok: bool)
      modifies this
      ensures (ok, ledger) == CheckAll(old(ledger), ts)
      ensures chain == old(chain) && tables == old(tables)
    {
      ok := true;
      var j := 0;
      while j < |ts|
        invariant 0 <= j <= |ts|
        invariant (ok, ledger) == CheckAll(old(ledger), ts[..j])
        invariant chain == old(chain) && tables == old(tables)
      {
        ghost var prev := CheckAll(old(ledger), ts[..j]);
        assert (ts[..j + 1])[..j] == ts[..j];
        var rc := Dchk(ts[j]);
        assert DchkResult(rc, ledger) == Dependency.Dchk(prev.1, ts[j]);
        ok := ok && rc == 0;
        assert (ok, ledger) == CheckAll(old(ledger), ts[..j + 1]);
        j := j + 1;
      }
      assert ts[..j] == ts;
    }

    /** The scan of hdl_load and hdl_dele for a loaded module by name. */
    method FindLoaded(modname: string) returns (r: Option<nat>)
      ensures r == FindModule(chain, modname)
    {
      var i := 0;
      while i < |chain|
        invariant 0 <= i <= |chain|
        invariant forall k :: 0 <= k < i ==> !SameFileName(modname, chain[k].name)
      {
        if SameFileName(modname, chain[i].name) {
          return Some(i);
        }
        i := i + 1;
      }
      return None;
    }

    /** The scan of hdl_load for a loaded module with the same dependency
        section. */
    method FindDuplicate(depc: Addr) returns (found: bool)
      ensures found <==> FindDepc(chain, depc).Some?
    {
      var i := 0;
      while i < |chain|
        invariant 0 <= i <= |chain|
        invariant forall k :: 0 <= k < i ==> chain[k].bin.depc != depc
      {
        if chain[i].bin.depc == depc {
          return true;
        }
        i := i + 1;
      }
      return false;
    }

    /** hdl_fhnd: the first handler registered for the device type,
        ignoring case, newest module first; NULL when there is none. */
    method Fhnd(devname: string) returns (hnd: Addr)
      ensures hnd == Devices.Fhnd(chain, devname)
    {
      var i := 0;
      while i < |chain|
        invariant 0 <= i <= |chain|
        invariant forall i', k :: 0 <= i' < i && 0 <= k < |chain[i'].hndents| ==>
                    !SameIgnoringCase(chain[i'].hndents[k].name, devname)
      {
        var k := 0;
        while k < |chain[i].hndents|
          invariant 0 <= k <= |chain[i].hndents|
          invariant forall k' :: 0 <= k' < k ==> !SameIgnoringCase(chain[i].hndents[k'].name, devname)
        {
          if SameIgnoringCase(chain[i].hndents[k].name, devname) {
            assert FindHandler(chain, devname) == Some((i, k));
            return chain[i].hndents[k].hnd;
          }
          k := k + 1;
        }
        i := i + 1;
      }
      return NULL;
    }

    /** hdl_fent: the first entry of that name in chain order has its load
        count raised and its address returned; otherwise the first module
        whose binary exports the symbol gets a new entry with load count 1
        at the head of its list; otherwise NULL. */
    method Fent(name: string) returns (fep: Addr)
      modifies this
      ensures Lookup(fep, chain) == Resolver.Fent(old(chain), name)
      ensures ledger == old(ledger) && tables == old(tables)
      ensures old(Valid()) ==> Valid()
    {
      ghost var s0 := Snapshot();
      fep := FentScan(name);
      FentKeepsInv(s0, name);
    }

    /** The two scans of hdl_fent, each returning from inside its loop. */
    method FentScan(name: string) returns (fep: Addr)
      modifies this
      ensures Lookup(fep, chain) == Resolver.Fent(old(chain), name)
      ensures ledger == old(ledger) && tables == old(tables)
    {
      var i := 0;
      while i < |chain|
        invariant 0 <= i <= |chain|
        invariant forall i', k :: 0 <= i' < i && 0 <= k < |chain[i'].modents| ==>
                    chain[i'].modents[k].name != name
      {
        var k := 0;
        while k < |chain[i].modents|
          invariant 0 <= k <= |chain[i].modents|
          invariant forall k' :: 0 <= k' < k ==> chain[i].modents[k'].name != name
        {
          var e := chain[i].modents[k];
          if e.name == name {
            assert FindEntry(chain, name) == Some((i, k));
            chain := chain[i := chain[i].(modents := chain[i].modents[k := e.(count := e.count + 1)])];
            return e.fep;
          }
          k := k + 1;
        }
        i := i + 1;
      }
      assert FindEntry(chain, name).None?;
      i := 0;
      while i < |chain|
        invariant 0 <= i <= |chain|
        invariant forall i' :: 0 <= i' < i ==> Dlsym(chain[i'].bin, name) == NULL
      {
        var f := Dlsym(chain[i].bin, name);
        if f != NULL {
          assert FirstResolving(chain, name) == Some(i);
          chain := chain[i := chain[i].(modents := [ModEnt(name, f, 1)] + chain[i].modents)];
          return f;
        }
        i := i + 1;
      }
      return NULL;
    }

    /** hdl_dvad: a handler at the head of the current module's list (the
        chain head while a module's device section runs). */
    method Dvad(devname: string, hnd: Addr)
      requires |chain| > 0
      modifies this
      ensures chain == old(chain)[0 := Devices.Dvad(old(chain)[0], devname, hnd)]
      ensures ledger == old(ledger) && tables == old(tables)
    {
      chain := chain[0 := chain[0].(hndents := [DevEnt(devname, hnd)] + chain[0].hndents)];
    }

    /** hdl_modify_optab(TRUE, ...), with the old entry saved per
        architecture: each architecture both named and compiled in has its
        entry saved and replaced by the routine. */
    method PatchIn(s: Slot, flags: set<Arch>, routine: Addr) returns (saved: map<Arch, Addr>)
      requires forall a: Arch :: Cell(s, a) in tables
      modifies this
      ensures (tables, saved) == Insert(old(tables), s, flags, routine, config)
      ensures chain == old(chain) && ledger == old(ledger)
    {
      saved := map[];
      ghost var t0 := tables;
      if S370 in config && S370 in flags {
        saved := saved[S370 := tables[Cell(s, S370)]];
        tables := tables[Cell(s, S370) := routine];
      }
      ghost var p1 := InsertArch(t0, map[], s, S370, S370 in config && S370 in flags, routine);
      assert (tables, saved) == p1;
      if S390 in config && S390 in flags {
        saved := saved[S390 := tables[Cell(s, S390)]];
        tables := tables[Cell(s, S390) := routine];
      }
      ghost var p2 := InsertArch(p1.0, p1.1, s, S390, S390 in config && S390 in flags, routine);
      assert (tables, saved) == p2;
      if Z900 in config && Z900 in flags {
        saved := saved[Z900 := tables[Cell(s, Z900)]];
        tables := tables[Cell(s, Z900) := routine];
      }
    }

    /** hdl_modify_optab(FALSE, ...), each patched architecture restored
        from its own saved entry. */
    method PatchOut(s: Slot, saved: map<Arch, Addr>)
      modifies this
      ensures tables == Remove(old(tables), s, saved)
      ensures chain == old(chain) && ledger == old(ledger)
    {
      if S370 in saved {
        tables := tables[Cell(s, S370) := saved[S370]];
      }
      if S390 in saved {
        tables := tables[Cell(s, S390) := saved[S390]];
      }
      if Z900 in saved {
        tables := tables[Cell(s, Z900) := saved[Z900]];
      }
    }

    /** hdl_didf: the opcode normalised, a binding at the head of the
        current module's list, the tables patched. */
    method Didf(req: InsReq)
      requires |chain| > 0 && Complete(tables)
      modifies this
      ensures Complete(tables)
      ensures var d := Define(old(tables), req, config);
              tables == d.0 && chain == old(chain)[0 := old(chain)[0].(insents := [d.1] + old(chain)[0].insents)]
      ensures ledger == old(ledger)
    {
      var op := Normalize(req.opcode);
      var slot := SlotOf(op);
      assert forall a: Arch :: Cell(slot, a) in tables;
      var saved := PatchIn(slot, req.archflags, req.routine);
      var ins := InsEnt(op, req.archflags, req.name, req.routine, saved);
      chain := chain[0 := chain[0].(insents := [ins] + chain[0].insents)];
    }

    /** The load-count reset of hdl_load and hdl_dele: every entry point of
        every module gets count 0. */
    method ResetCounts()
      modifies this
      ensures chain == ZeroCounts(old(chain))
      ensures ledger == old(ledger) && tables == old(tables)
    {
      ghost var z := ZeroCounts(chain);
      var i := 0;
      while i < |chain|
        invariant 0 <= i <= |chain| && |chain| == |old(chain)|
        invariant forall j :: 0 <= j < i ==> chain[j] == z[j]
        invariant forall j :: i <= j < |chain| ==> chain[j] == old(chain)[j]
        invariant ledger == old(ledger) && tables == old(tables)
      {
        var k := 0;
        while k < |chain[i].modents|
          invariant |chain| == |old(chain)| && 0 <= k <= |chain[i].modents|
          invariant forall j :: 0 <= j < i ==> chain[j] == z[j]
          invariant forall j :: i < j < |chain| ==> chain[j] == old(chain)[j]
          invariant chain[i].(modents := []) == old(chain)[i].(modents := [])
          invariant |chain[i].modents| == |old(chain)[i].modents|
          invariant forall k' :: 0 <= k' < k ==> chain[i].modents[k'] == old(chain)[i].modents[k'].(count := 0)
          invariant forall k' :: k <= k' < |chain[i].modents| ==> chain[i].modents[k'] == old(chain)[i].modents[k']
          invariant ledger == old(ledger) && tables == old(tables)
        {
          var ents := chain[i].modents;
          chain := chain[i := chain[i].(modents := ents[k := ents[k].(count := 0)])];
          k := k + 1;
        }
        assert chain[i].modents == z[i].modents;
        assert chain[i] == z[i];
        i := i + 1;
      }
    }

    /** "Call all resolvers": each module's resolver section, in chain
        order, asks hdl_fent for the names it needs. */
    method CallResolvers()
      modifies this
      ensures chain == ResolveAll(old(chain))
      ensures ledger == old(ledger) && tables == old(tables)
    {
      ghost var c0 := chain;
      ghost var bins := Bins(chain);
      var i := 0;
      while i < |chain|
        invariant |chain| == |c0| && 0 <= i <= |chain|
        invariant chain == FentAll(c0, Requests(bins[..i]))
        invariant ledger == old(ledger) && tables == old(tables)
      {
        SameShape(chain, c0, i);
        RunResolver(chain[i].bin.resolves);
        FentAllAppend(c0, Requests(bins[..i]), bins[i].resolves);
        assert bins[..i + 1][..i] == bins[..i];
        i := i + 1;
      }
      assert bins[..i] == bins;
    }

    /** hdl_load. Refused (-1) when a module of the name after the last
        '/' is loaded, when the binary cannot be opened, when it has no
        dependency section, when a loaded module has the same dependency
        section, and when the dependency check fails without
        HDL_LOAD_FORCE. Otherwise the module is built with the caller's
        flags less WAS_FORCED (plus WAS_FORCED when the check failed under
        force), its initialiser is run, it is put at the head of the chain,
        every load count is reset, every resolver is called, and its device
        and instruction sections are run. */
    method Load(name: string, flags: set<LoadFlag>, lib: Library) returns (rc: int)
      requires Valid()
      modifies this
      ensures Valid()
      ensures (rc, Snapshot()) == LoadSpec(old(Snapshot()), name, flags, lib, config)
    {
      ghost var s0 := Snapshot();
      var a := Check(name, flags, lib);
      if a.Refused? {
        return -1;
      }
      InstallModule(a.m);
      rc := 0;
      LoadPreservesInv(s0, name, flags, lib, config);
    }

    /** The checks of hdl_load, in its order, and the descriptor it builds
        when they pass, with the initialiser run. Only the ledger changes. */
    method Check(name: string, flags: set<LoadFlag>, lib: Library) returns (a: Admission)
      modifies this
      ensures a == Admit(old(Snapshot()), name, flags, lib)
      ensures ledger == a.ledger && chain == old(chain) && tables == old(tables)
    {
      var modname := BaseName(name);
      var loaded := FindLoaded(modname);
      if loaded.Some? {
        return Refused(ledger);
      }
      if name !in lib {
        return Refused(ledger);
      }
      var bin := lib[name];
      var mflags := flags - {WasForced};
      if bin.depc == NULL {
        return Refused(ledger);
      }
      var dup := FindDuplicate(bin.depc);
      if dup {
        return Refused(ledger);
      }
      var ok := CheckDependencies(bin.deps);
      if !ok {
        if Force !in flags {
          return Refused(ledger);
        }
        mflags := mflags + {WasForced};
      }
      var m := RunInitialiser(Module(modname, mflags, bin, [], [], []), bin.inits);
      assert Registered(bin.inits) + [] == Registered(bin.inits);
      assert m == NewModule(modname, flags, bin, ok);
      a := Admitted(m, ledger);
    }

    /** The commit of hdl_load: the new module at the head of the chain,
        every load count reset, every resolver called, then the new
        module's device and instruction sections. */
    method InstallModule(m: Module)
      requires Complete(tables)
      modifies this
      ensures Snapshot() == Install(old(Snapshot()), m, config)
    {
      ghost var s0 := Snapshot();
      chain := [m] + chain;
      ResetCounts();
      CallResolvers();
      SameShape(chain, [m] + s0.chain, 0);
      RegisterDevices(m.bin.devices);
      DefineInstructions(m.bin.instrs);
    }

    /** hdl_modify_opcode(FALSE, ...) for each of a module's instruction
        bindings, from the head of its list: newest first. */
    method UndoInstructions(ents: seq<InsEnt>)
      modifies this
      ensures tables == UndefineAll(old(tables), ents)
      ensures chain == old(chain) && ledger == old(ledger)
    {
      var j := 0;
      while j < |ents|
        invariant 0 <= j <= |ents|
        invariant UndefineAll(tables, ents[j..]) == UndefineAll(old(tables), ents)
        invariant chain == old(chain) && ledger == old(ledger)
      {
        assert ents[j..][1..] == ents[j + 1..];
        PatchOut(SlotOf(ents[j].opcode), ents[j].saved);
        j := j + 1;
      }
    }

    /** hdl_dele. Refused (-1) when no module has the name after the last
        '/', when the module is marked main or no-unload, and when a valid
        device uses one of its handlers (active holds the handlers of the
        valid devices); refused with the final section's own code when that
        is non-zero. Otherwise the module is unlinked, its instructions are
        unpatched, every load count is reset and every resolver is called
        again. */
    method Dele(name: string, active: set<Addr>) returns (rc: int)
      requires Valid()
      modifies this
      ensures Valid()
      ensures (rc, Snapshot()) == DeleSpec(old(Snapshot()), name, active)
    {
      ghost var s0 := Snapshot();
      var modname := BaseName(name);
      var found := FindLoaded(modname);
      if found.None? {
        return -1;
      }
      var i := found.value;
      rc := DeleChecks(chain[i], active);
      if rc != 0 {
        return;
      }
      UnloadAt(i);
      DelePreservesInv(s0, name, active);
    }

    /** The refusals of hdl_dele, in the source's order: a main or
        no-unload module, a handler bound to a valid device, a final
        section that refuses. */
    method DeleChecks(m: Module, active: set<Addr>) returns (rc: int)
      ensures rc == DeleCheck(m, active)
    {
      if Main in m.flags || NoUnload in m.flags {
        return -1;
      }
      var k := 0;
      while k < |m.hndents|
        invariant 0 <= k <= |m.hndents|
        invariant forall k' :: 0 <= k' < k ==> m.hndents[k'].hnd !in active
      {
        if m.hndents[k].hnd in active {
          return -1;
        }
        k := k + 1;
      }
      if m.bin.fini.Some? && m.bin.fini.value != 0 {
        return m.bin.fini.value;
      }
      return 0;
    }

    /** The commit of hdl_dele: the module is unlinked, its instructions are
        unpatched newest first, counts are reset and every resolver runs
        again. */
    method UnloadAt(i: nat)
      requires i < |chain|
      modifies this
      ensures Snapshot() == Unload(old(Snapshot()), i)
    {
      var m := chain[i];
      chain := chain[..i] + chain[i + 1..];
      UndoInstructions(m.insents);
      ResetCounts();
      CallResolvers();
    }

    /** hdl_ghnd. A handler already registered for the device type is
        returned. Otherwise the module named after the type is loaded; when
        that fails or does not register the type, and the device-type
        equates hook (equates, when set) maps the type to another, the
        module named after that one is loaded. The answer is what hdl_fhnd
        finds for the original type afterwards. */
    method Ghnd(devtype: string, lib: Library, equates: Option<map<string, string>>) returns (hnd: Addr)
      requires Valid()
      modifies this
      ensures Valid()
      ensures (hnd, Snapshot()) == GhndSpec(old(Snapshot()), devtype, lib, equates, config)
    {
      hnd := Fhnd(devtype);
      if hnd != NULL {
        return;
      }
      var hdtname := BuildDeviceModuleName(devtype);
      var rc := Load(hdtname, {NoMsg}, lib);
      var found := Fhnd(devtype);
      if rc != 0 || found == NULL {
        if equates.Some? && devtype in equates.value {
          var ltype := equates.value[devtype];
          hdtname := BuildDeviceModuleName(ltype);
          rc := Load(hdtname, {NoMsg}, lib);
        }
      }
      hnd := Fhnd(devtype);
    }

    /** The preloads of hdl_main, each loaded with HDL_LOAD_NOMSG in table
        order. */
    method Preload(lib: Library)
      requires Valid()
      modifies this
      ensures Valid()
      ensures Snapshot() == LoadEach(old(Snapshot()), Preloads, lib, config)
    {
      ghost var s0 := Snapshot();
      LoadNames(Preloads, lib);
      LoadEachInv(s0, Preloads, lib, config);
    }

    /** Loads each named module in turn with messages suppressed, as the
        preload loop of hdl_main does, ignoring each return code. */
    method LoadNames(names: seq<string>, lib: Library)
      requires Valid()
      modifies this
      ensures Snapshot() == LoadEach(old(Snapshot()), names, lib, config)
    {
      ghost var s0 := Snapshot();
      var j := 0;
      while j < |names|
        invariant 0 <= j <= |names| && Inv(s0)
        invariant Snapshot() == LoadEach(s0, names[..j], lib, config)
      {
        LoadNext(s0, names, lib, j);
        j := j + 1;
      }
      assert names[..j] == names;
    }

    /** One preload: the next name loaded with NOMSG, its return code
        ignored. */
    method LoadNext(ghost s0: State, names: seq<string>, lib: Library, j: nat)
      requires j < |names| && Inv(s0)
      requires Snapshot() == LoadEach(s0, names[..j], lib, config)
      modifies this
      ensures Snapshot() == LoadEach(s0, names[..j + 1], lib, config)
    {
      LoadEachInv(s0, names[..j], lib, config);
      LoadEachStep(s0, names, lib, config, j);
      var rc := Load(names[j], {NoMsg}, lib);
    }

    /** hdl_term: the final section of every module that has one, in chain
        order. Returns the names of the modules whose final section is
        called, in the order of the calls. */
    method Term() returns (called: seq<string>)
      ensures called == FiniOrder(chain)
    {
      called := [];
      var i := 0;
      while i < |chain|
        invariant 0 <= i <= |chain|
        invariant called == FiniOrder(chain[..i])
      {
        assert (chain[..i + 1])[..i] == chain[..i];
        if chain[i].bin.fini.Some? {
          called := called + [chain[i].name];
        }
        i := i + 1;
      }
      assert chain[..i] == chain;
    }
  }
}
