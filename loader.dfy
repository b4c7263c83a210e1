/** What hdl_main, hdl_load, hdl_dele and hdl_ghnd do to the loader's
    state, as functions from the state before to the return code and the
    state after. The Registry class performs the same steps in place and
    is proved against these functions; the properties of the loader are
    proved here about them. */
module Loader {
  import opened HdlTypes
  import opened Dependency
  import opened Resolver
  import opened Devices
  import opened Opcode

  /** dlopen: the binary a name opens, if any. */
  type Library = map<string, Binary>

  /** The loader's global state: the module chain (hdl_dll, newest first),
      the dependency ledger (hdl_depend) and the opcode tables. */
  datatype State = State(chain: seq<Module>, ledger: seq<Dep>, tables: Tables)

  /** Index of the loaded module with the given name. */
  function FindModule(chain: seq<Module>, modname: string): (r: Option<nat>)
    ensures r.Some? ==> r.value < |chain| && SameFileName(modname, chain[r.value].name)
    ensures r.Some? ==> forall k :: 0 <= k < r.value ==> !SameFileName(modname, chain[k].name)
    ensures r.None? ==> forall k :: 0 <= k < |chain| ==> !SameFileName(modname, chain[k].name)
  {
    FirstMatch(chain, (m: Module) => SameFileName(modname, m.name))
  }

  /** Index of a loaded module with the given dependency section. */
  function FindDepc(chain: seq<Module>, depc: Addr): (r: Option<nat>)
    ensures r.Some? ==> r.value < |chain| && chain[r.value].bin.depc == depc
    ensures r.None? ==> forall k :: 0 <= k < |chain| ==> chain[k].bin.depc != depc
  {
    FirstMatch(chain, (m: Module) => m.bin.depc == depc)
  }

  /** What the loader keeps true of the chain: the resident module is the
      oldest one and carries the main and no-unload flags; names and
      dependency sections of loaded modules are distinct and present. */
  ghost predicate ChainInv(chain: seq<Module>)
  {
    && |chain| > 0
    && chain[|chain| - 1].name == MainName
    && Main in chain[|chain| - 1].flags
    && NoUnload in chain[|chain| - 1].flags
    && (forall i, j :: 0 <= i < j < |chain| ==> chain[i].name != chain[j].name)
    && (forall i :: 0 <= i < |chain| ==> chain[i].bin.depc != NULL)
    && (forall i, j :: 0 <= i < j < |chain| ==> chain[i].bin.depc != chain[j].bin.depc)
  }

  /** The loader invariant: the chain invariant, and every opcode table
      entry exists. */
  ghost predicate Inv(s: State)
  {
    ChainInv(s.chain) && Complete(s.tables)
  }

  /** Chains that differ only in their entry-point lists. */
  lemma SameShape(a: seq<Module>, b: seq<Module>, i: nat)
    requires Shapes(a) == Shapes(b) && i < |a|
    ensures |b| == |a|
    ensures a[i].name == b[i].name && a[i].flags == b[i].flags && a[i].bin == b[i].bin
    ensures a[i].hndents == b[i].hndents && a[i].insents == b[i].insents
  {
    assert Shapes(a)[i] == Shapes(b)[i];
  }

  lemma ShapesTail(a: seq<Module>, b: seq<Module>)
    requires |a| > 0 && Shapes(a) == Shapes(b)
    ensures Shapes(a[1..]) == Shapes(b[1..])
  {
    forall i | 0 <= i < |a| - 1 ensures Shapes(a[1..])[i] == Shapes(b[1..])[i] {
      assert Shapes(a)[i + 1] == Shapes(b)[i + 1];
    }
  }

  /** The chain invariant does not look at entry-point lists. */
  lemma ChainInvShapes(a: seq<Module>, b: seq<Module>)
    requires Shapes(a) == Shapes(b) && ChainInv(b)
    ensures ChainInv(a)
  {
    forall i | 0 <= i < |a|
      ensures a[i].name == b[i].name && a[i].flags == b[i].flags && a[i].bin == b[i].bin
    {
      SameShape(a, b, i);
    }
  }

  /** hdl_fent, which any module may call at any time, keeps the loader
      invariant: it changes entry-point lists only. */
  lemma FentKeepsInv(s: State, name: string)
    ensures Inv(s) ==> Inv(s.(chain := Fent(s.chain, name).chain))
  {
    if Inv(s) {
      ChainInvShapes(Fent(s.chain, name).chain, s.chain);
    }
  }

  /** A module with a new name and a new, present dependency section can
      be put at the head. */
  lemma ChainInvPush(m: Module, chain: seq<Module>)
    requires ChainInv(chain)
    requires FindModule(chain, m.name).None? && m.bin.depc != NULL && FindDepc(chain, m.bin.depc).None?
    ensures ChainInv([m] + chain)
  {
    var c := [m] + chain;
    forall i, j | 0 <= i < j < |c| ensures c[i].name != c[j].name && c[i].bin.depc != c[j].bin.depc {
      if i == 0 {
        assert c[j] == chain[j - 1];
      } else {
        assert c[i] == chain[i - 1] && c[j] == chain[j - 1];
      }
    }
  }

  /** Any module but the resident one can be taken out. */
  lemma ChainInvRemove(chain: seq<Module>, i: nat)
    requires ChainInv(chain) && i < |chain| - 1
    ensures ChainInv(chain[..i] + chain[i + 1..])
  {
    var c := chain[..i] + chain[i + 1..];
    assert forall j :: 0 <= j < |c| ==> c[j] == chain[if j < i then j else j + 1];
  }

  /** The steps of hdl_load after the checks, with m the new descriptor
      holding its initialiser's registrations: insert m at the head, reset
      every load count, call every resolver, then register m's device types
      and instructions with m. */
  function Install(s: State, m: Module, config: set<Arch>): (r: State)
    requires Complete(s.tables)
    ensures Complete(r.tables) && r.ledger == s.ledger
    ensures |r.chain| == |s.chain| + 1
    ensures Shapes(r.chain[1..]) == Shapes(s.chain)
    ensures r.chain[0].name == m.name && r.chain[0].flags == m.flags && r.chain[0].bin == m.bin
    ensures r.chain[0].hndents == Pushed(m.bin.devices) + m.hndents
    ensures (r.tables, r.chain[0].insents) == DefineAll(s.tables, m.bin.instrs, m.insents, config)
  {
    var c := Reresolve([m] + s.chain);
    SameShape(c, [m] + s.chain, 0);
    var d := DefineAll(s.tables, m.bin.instrs, m.insents, config);
    var chain := c[0 := c[0].(hndents := Pushed(m.bin.devices) + c[0].hndents, insents := d.1)];
    ShapesTail(c, [m] + s.chain);
    assert chain[1..] == c[1..];
    assert ([m] + s.chain)[1..] == s.chain;
    State(chain, s.ledger, d.0)
  }

  /** The descriptor hdl_load builds for a binary that passed its checks:
      the caller's flags without WAS_FORCED, plus WAS_FORCED when the
      dependency check failed, and the entries its initialiser registered. */
  function NewModule(modname: string, flags: set<LoadFlag>, bin: Binary, checked: bool): (r: Module)
    ensures r.name == modname && r.bin == bin && r.modents == Registered(bin.inits)
    ensures r.hndents == [] && r.insents == []
    ensures WasForced in r.flags <==> !checked
    ensures r.flags - {WasForced} == flags - {WasForced}
  {
    Module(modname, (flags - {WasForced}) + (if checked then {} else {WasForced}), bin,
           Registered(bin.inits), [], [])
  }

  /** The checks of hdl_load, and the ledger they leave. */
  datatype Admission = Refused(ledger: seq<Dep>) | Admitted(m: Module, ledger: seq<Dep>)

  /** hdl_load reaches the dependency check: no module of the name is
      loaded, the binary opens, has a dependency section, and no loaded
      module has that section. */
  predicate Checked(s: State, name: string, lib: Library)
  {
    && FindModule(s.chain, BaseName(name)).None?
    && name in lib && lib[name].depc != NULL
    && FindDepc(s.chain, lib[name].depc).None?
  }

  /** hdl_load's checks. Refused when a module of that name is loaded, when
      the binary cannot be opened, when it has no dependency section, when a
      loaded module has the same dependency section, and when its
      dependency check fails without the force flag; a refusal after the
      check keeps whatever the check added to the ledger. */
  function Admit(s: State, name: string, flags: set<LoadFlag>, lib: Library): (r: Admission)
    ensures r.Admitted? <==>
      && FindModule(s.chain, BaseName(name)).None?
      && name in lib && lib[name].depc != NULL
      && FindDepc(s.chain, lib[name].depc).None?
      && (CheckAll(s.ledger, lib[name].deps).0 || Force in flags)
    ensures r.Admitted? ==>
      r.m == NewModule(BaseName(name), flags, lib[name], CheckAll(s.ledger, lib[name].deps).0)
    ensures r.Admitted? ==> r.ledger == CheckAll(s.ledger, lib[name].deps).1
    ensures r.Refused? && !Checked(s, name, lib) ==> r.ledger == s.ledger
    ensures r.Refused? && Checked(s, name, lib) ==>
      && !CheckAll(s.ledger, lib[name].deps).0 && Force !in flags
      && r.ledger == CheckAll(s.ledger, lib[name].deps).1
  {
    var modname := BaseName(name);
    if FindModule(s.chain, modname).Some? then Refused(s.ledger)
    else if name !in lib then Refused(s.ledger)
    else
      var bin := lib[name];
      if bin.depc == NULL then Refused(s.ledger)
      else if FindDepc(s.chain, bin.depc).Some? then Refused(s.ledger)
      else
        var checked := CheckAll(s.ledger, bin.deps);
        if !checked.0 && Force !in flags then Refused(checked.1)
        else Admitted(NewModule(modname, flags, bin, checked.0), checked.1)
  }

  /** hdl_load: -1 when refused, otherwise the module is installed and 0
      returned. */
  function LoadSpec(s: State, name: string, flags: set<LoadFlag>, lib: Library,
                    config: set<Arch>): (r: (int, State))
    requires Complete(s.tables)
    ensures r.0 == 0 || r.0 == -1
    ensures r.0 == 0 <==> Admit(s, name, flags, lib).Admitted?
    ensures r.0 == 0 ==>
      var a := Admit(s, name, flags, lib);
      r.1 == Install(s.(ledger := a.ledger), a.m, config)
    ensures r.0 != 0 ==> r.1.chain == s.chain && r.1.tables == s.tables
    ensures r.0 != 0 ==> r.1.ledger == Admit(s, name, flags, lib).ledger
    ensures r.0 == 0 ==> |r.1.chain| == |s.chain| + 1 && Shapes(r.1.chain[1..]) == Shapes(s.chain)
    ensures Complete(r.1.tables)
  {
    match Admit(s, name, flags, lib)
    case Refused(ledger) => (-1, s.(ledger := ledger))
    case Admitted(m, ledger) => (0, Install(s.(ledger := ledger), m, config))
  }

  /** A successful load puts the new module at the head under the base
      name of the path, keeps the caller's flags, and marks it forced
      exactly when its dependency check failed; it happens only when the
      check passed or the force flag was given. */
  lemma LoadSucceeds(s: State, name: string, flags: set<LoadFlag>, lib: Library, config: set<Arch>)
    requires Complete(s.tables)
    requires LoadSpec(s, name, flags, lib, config).0 == 0
    ensures name in lib
    ensures var r := LoadSpec(s, name, flags, lib, config).1;
            var ok := CheckAll(s.ledger, lib[name].deps).0;
            && r.chain[0].name == BaseName(name)
            && r.chain[0].bin == lib[name]
            && (WasForced in r.chain[0].flags <==> !ok)
            && r.chain[0].flags - {WasForced} == flags - {WasForced}
            && (ok || Force in flags)
            && r.ledger == CheckAll(s.ledger, lib[name].deps).1
            && r.chain[0].hndents == Pushed(lib[name].devices)
            && (r.tables, r.chain[0].insents) == DefineAll(s.tables, lib[name].instrs, [], config)
  {
    var a := Admit(s, name, flags, lib);
    var r := Install(s.(ledger := a.ledger), a.m, config);
    assert r.chain[0].hndents == Pushed(lib[name].devices) + [];
  }

  /** A module whose name is already loaded is refused and nothing
      changes. */
  lemma LoadRefusesLoadedName(s: State, name: string, flags: set<LoadFlag>, lib: Library,
                              config: set<Arch>, i: nat)
    requires Complete(s.tables)
    requires i < |s.chain| && s.chain[i].name == BaseName(name)
    ensures LoadSpec(s, name, flags, lib, config) == (-1, s)
  {
    assert FindModule(s.chain, BaseName(name)).Some?;
    assert Admit(s, name, flags, lib) == Refused(s.ledger);
  }

  /** Lookups by name and by dependency section do not look at
      entry-point lists. */
  lemma FindShapes(a: seq<Module>, b: seq<Module>, modname: string, depc: Addr)
    requires Shapes(a) == Shapes(b)
    ensures FindModule(a, modname) == FindModule(b, modname)
    ensures FindDepc(a, depc) == FindDepc(b, depc)
  {
    forall k | 0 <= k < |a| ensures a[k].name == b[k].name && a[k].bin == b[k].bin {
      SameShape(a, b, k);
    }
  }

  /** Installing a module whose name and dependency section are new keeps
      the chain invariant. */
  lemma InstallKeepsChainInv(s: State, m: Module, config: set<Arch>)
    requires ChainInv(s.chain) && Complete(s.tables)
    requires FindModule(s.chain, m.name).None? && m.bin.depc != NULL && FindDepc(s.chain, m.bin.depc).None?
    ensures ChainInv(Install(s, m, config).chain)
  {
    var c := Install(s, m, config).chain;
    ChainInvShapes(c[1..], s.chain);
    FindShapes(c[1..], s.chain, m.name, m.bin.depc);
    ChainInvPush(c[0], c[1..]);
    assert [c[0]] + c[1..] == c;
  }

  /** hdl_load keeps the loader invariant. */
  lemma LoadPreservesInv(s: State, name: string, flags: set<LoadFlag>, lib: Library, config: set<Arch>)
    requires Inv(s)
    ensures Inv(LoadSpec(s, name, flags, lib, config).1)
  {
    match Admit(s, name, flags, lib)
    case Refused(_) =>
    case Admitted(m, ledger) =>
      InstallKeepsChainInv(s.(ledger := ledger), m, config);
  }

  /** hdl_dele. Refused (-1) when no module has the name, and for a module
      marked main or no-unload; refused when a valid device is bound to one
      of its handlers; refused with the final section's own code when that
      returns non-zero. Otherwise the module is unlinked, its instructions
      are unpatched newest first, every load count is reset and every
      remaining resolver is called again. active holds the handler
      addresses of the valid devices. */
  function DeleSpec(s: State, name: string, active: set<Addr>): (r: (int, State))
    ensures r.0 != 0 ==> r.1 == s
    ensures r.0 == 0 ==> FindModule(s.chain, BaseName(name)).Some? &&
                         r.1 == Unload(s, FindModule(s.chain, BaseName(name)).value)
    ensures FindModule(s.chain, BaseName(name)).None? ==> r.0 == -1
    ensures FindModule(s.chain, BaseName(name)).Some? ==>
              r.0 == DeleCheck(s.chain[FindModule(s.chain, BaseName(name)).value], active)
  {
    match FindModule(s.chain, BaseName(name))
    case None => (-1, s)
    case Some(i) =>
      var rc := DeleCheck(s.chain[i], active);
      if rc != 0 then (rc, s) else (0, Unload(s, i))
  }

  /** A valid device uses one of the module's handlers. */
  predicate BindsActive(m: Module, active: set<Addr>)
  {
    exists k :: 0 <= k < |m.hndents| && m.hndents[k].hnd in active
  }

  /** The checks hdl_dele makes on the module it found, in order: -1 for a
      main or no-unload module, -1 when a valid device is bound to it, the
      final section's own code when that is non-zero, and 0 when the module
      may go. */
  function DeleCheck(m: Module, active: set<Addr>): (rc: int)
    ensures rc == 0 <==>
      && Main !in m.flags && NoUnload !in m.flags
      && !BindsActive(m, active)
      && (m.bin.fini.None? || m.bin.fini.value == 0)
    ensures Main in m.flags || NoUnload in m.flags ==> rc == -1
    ensures BindsActive(m, active) ==> rc == -1
    ensures rc != 0 && rc != -1 ==> m.bin.fini == Some(rc)
    ensures (Main !in m.flags && NoUnload !in m.flags && !BindsActive(m, active)
             && m.bin.fini.Some?) ==> rc == m.bin.fini.value
  {
    if Main in m.flags || NoUnload in m.flags then -1
    else if BindsActive(m, active) then -1
    else if m.bin.fini.Some? && m.bin.fini.value != 0 then m.bin.fini.value
    else 0
  }

  /** The steps of hdl_dele once the module is accepted for unloading. */
  function Unload(s: State, i: nat): (r: State)
    requires i < |s.chain|
    ensures r.ledger == s.ledger
    ensures Shapes(r.chain) == Shapes(s.chain[..i] + s.chain[i + 1..])
    ensures i == 0 ==> Shapes(r.chain) == Shapes(s.chain[1..])
    ensures r.tables == UndefineAll(s.tables, s.chain[i].insents)
  {
    assert i == 0 ==> s.chain[..i] + s.chain[i + 1..] == s.chain[1..];
    State(Reresolve(s.chain[..i] + s.chain[i + 1..]), s.ledger, UndefineAll(s.tables, s.chain[i].insents))
  }

  /** The resident module is never unloaded. */
  lemma DeleKeepsMain(s: State, name: string, active: set<Addr>)
    requires Inv(s)
    ensures var r := DeleSpec(s, name, active).1;
            |r.chain| > 0 && r.chain[|r.chain| - 1].name == MainName
  {
    DelePreservesInv(s, name, active);
  }

  /** hdl_dele accepts the newest module when it is neither main nor
      no-unload, binds no active device and its final section accepts;
      what is left is the rest of the chain, re-resolved, and the tables
      with its instructions unpatched. */
  lemma DeleAcceptsHead(s: State, name: string, active: set<Addr>)
    requires |s.chain| > 0 && s.chain[0].name == BaseName(name)
    requires Main !in s.chain[0].flags && NoUnload !in s.chain[0].flags
    requires forall k :: 0 <= k < |s.chain[0].hndents| ==> s.chain[0].hndents[k].hnd !in active
    requires s.chain[0].bin.fini.None? || s.chain[0].bin.fini.value == 0
    ensures DeleSpec(s, name, active) == (0, Unload(s, 0))
  {
    assert FindModule(s.chain, BaseName(name)) == Some(0);
    assert !BindsActive(s.chain[0], active);
  }

  /** Loading a module and then unloading it, when it marks itself neither
      main nor no-unload, binds no active device and its final section
      accepts, restores the opcode tables exactly and leaves every other
      module as it was apart from its entry-point list. */
  lemma DeleUndoesLoad(s: State, name: string, flags: set<LoadFlag>, lib: Library,
                       config: set<Arch>, active: set<Addr>)
    requires Complete(s.tables)
    requires LoadSpec(s, name, flags, lib, config).0 == 0
    requires Main !in flags && NoUnload !in flags
    requires name in lib && (lib[name].fini.None? || lib[name].fini.value == 0)
    requires forall k :: 0 <= k < |lib[name].devices| ==> lib[name].devices[k].hnd !in active
    ensures var s1 := LoadSpec(s, name, flags, lib, config).1;
            var r := DeleSpec(s1, name, active);
            && r.0 == 0
            && r.1.tables == s.tables
            && Shapes(r.1.chain) == Shapes(s.chain)
            && r.1.ledger == s1.ledger
  {
    LoadedHeadDeletable(s, name, flags, lib, config, active);
    LoadSucceeds(s, name, flags, lib, config);
    UndefineAllUndoesDefineAll(s.tables, lib[name].instrs, config);
  }

  /** The module just loaded, under the conditions of DeleUndoesLoad, is
      accepted by hdl_dele. */
  lemma LoadedHeadDeletable(s: State, name: string, flags: set<LoadFlag>, lib: Library,
                            config: set<Arch>, active: set<Addr>)
    requires Complete(s.tables)
    requires LoadSpec(s, name, flags, lib, config).0 == 0
    requires Main !in flags && NoUnload !in flags
    requires name in lib && (lib[name].fini.None? || lib[name].fini.value == 0)
    requires forall k :: 0 <= k < |lib[name].devices| ==> lib[name].devices[k].hnd !in active
    ensures var s1 := LoadSpec(s, name, flags, lib, config).1;
            DeleSpec(s1, name, active) == (0, Unload(s1, 0))
  {
    var s1 := LoadSpec(s, name, flags, lib, config).1;
    LoadSucceeds(s, name, flags, lib, config);
    var h := s1.chain[0];
    FlagsBesidesForced(h.flags, flags);
    PushedHandlers(lib[name].devices, active);
    DeleAcceptsHead(s1, name, active);
  }

  /** Flags that agree apart from WAS_FORCED agree on MAIN and NOUNLOAD. */
  lemma FlagsBesidesForced(f: set<LoadFlag>, g: set<LoadFlag>)
    requires f - {WasForced} == g - {WasForced}
    ensures Main in f <==> Main in g
    ensures NoUnload in f <==> NoUnload in g
  {
    assert Main in f <==> Main in f - {WasForced};
    assert NoUnload in f <==> NoUnload in f - {WasForced};
  }

  /** hdl_dele keeps the loader invariant. */
  lemma DelePreservesInv(s: State, name: string, active: set<Addr>)
    requires Inv(s)
    ensures Inv(DeleSpec(s, name, active).1)
  {
    var r := DeleSpec(s, name, active);
    if r.0 == 0 {
      var i := FindModule(s.chain, BaseName(name)).value;
      assert i != |s.chain| - 1;
      UnloadKeepsInv(s, i);
    }
  }

  /** Unloading any module but the resident one keeps the invariant. */
  lemma UnloadKeepsInv(s: State, i: nat)
    requires Inv(s) && i < |s.chain| - 1
    ensures Inv(Unload(s, i))
  {
    ChainInvRemove(s.chain, i);
    ChainInvShapes(Unload(s, i).chain, s.chain[..i] + s.chain[i + 1..]);
    UndefineAllComplete(s.tables, s.chain[i].insents);
  }

  /** Unpatching never removes a table entry. */
  lemma {:induction false} UndefineAllComplete(t: Tables, ents: seq<InsEnt>)
    requires Complete(t)
    ensures Complete(UndefineAll(t, ents))
    decreases |ents|
  {
    if ents != [] {
      var t' := Undefine(t, ents[0]);
      assert Complete(t') by {
        forall s: Slot, a: Arch | ValidSlot(s) ensures Cell(s, a) in t' {
          assert Cell(s, a) in t;
        }
      }
      UndefineAllComplete(t', ents[1..]);
    }
  }

  /** The state hdl_main sets up before its preloads: the resident module
      alone, its dependency section recorded with hdl_dadd (no check), then
      its initialiser, its resolver, its device types and its instructions,
      all against the resident module alone. */
  function MainSpec(main: Binary, tables: Tables, config: set<Arch>): (r: State)
    requires Complete(tables)
    ensures Complete(r.tables) && |r.chain| == 1 && r.ledger == main.deps
  {
    var m := Module(MainName, {Main, NoUnload}, main, Registered(main.inits), [], []);
    var c := FentAll([m], main.resolves);
    SameShape(c, [m], 0);
    var d := DefineAll(tables, main.instrs, [], config);
    State([c[0].(hndents := Pushed(main.devices), insents := d.1)], main.deps, d.0)
  }

  lemma MainSpecInv(main: Binary, tables: Tables, config: set<Arch>)
    requires main.depc != NULL && Complete(tables)
    ensures Inv(MainSpec(main, tables, config))
  {
    var m := Module(MainName, {Main, NoUnload}, main, Registered(main.inits), [], []);
    SameShape(FentAll([m], main.resolves), [m], 0);
  }

  /** The modules hdl_main loads after setting up, each without messages. */
  const Preloads: seq<string> := ["hdteq", "dyncrypt"]

  /** Each named module loaded in turn with HDL_LOAD_NOMSG, whatever
      each load returns. */
  function LoadEach(s: State, names: seq<string>, lib: Library, config: set<Arch>): (r: State)
    requires Complete(s.tables)
    ensures Complete(r.tables)
    decreases |names|
  {
    if names == [] then s
    else LoadSpec(LoadEach(s, names[..|names| - 1], lib, config), names[|names| - 1], {NoMsg}, lib, config).1
  }

  /** One more name loads on top of the names before it. */
  lemma LoadEachStep(s: State, names: seq<string>, lib: Library, config: set<Arch>, j: nat)
    requires Complete(s.tables) && j < |names|
    ensures LoadEach(s, names[..j + 1], lib, config)
         == LoadSpec(LoadEach(s, names[..j], lib, config), names[j], {NoMsg}, lib, config).1
  {
    assert names[..j + 1][..j] == names[..j];
  }

  /** Loading modules never breaks the loader invariant. */
  lemma {:induction false} LoadEachInv(s: State, names: seq<string>, lib: Library, config: set<Arch>)
    requires Inv(s)
    ensures Inv(LoadEach(s, names, lib, config))
    decreases |names|
  {
    if names != [] {
      LoadEachInv(s, names[..|names| - 1], lib, config);
      LoadPreservesInv(LoadEach(s, names[..|names| - 1], lib, config), names[|names| - 1], {NoMsg}, lib, config);
    }
  }

  /** After hdl_main the invariant holds, whatever the preloads did. */
  lemma HdlMainInv(main: Binary, tables: Tables, lib: Library, config: set<Arch>)
    requires main.depc != NULL && Complete(tables)
    ensures Inv(LoadEach(MainSpec(main, tables, config), Preloads, lib, config))
  {
    MainSpecInv(main, tables, config);
    LoadEachInv(MainSpec(main, tables, config), Preloads, lib, config);
  }

  /** hdl_ghnd. A registered handler is returned at once. Otherwise the
      module named after the device type is loaded; when that fails or does
      not register the type, and the device-type equates hook (equates,
      when set) maps the type to another, the module named after that one is
      loaded. The result is whatever hdl_fhnd finds afterwards. */
  function GhndSpec(s: State, devtype: string, lib: Library, equates: Option<map<string, string>>,
                    config: set<Arch>): (r: (Addr, State))
    requires Complete(s.tables)
    ensures r.0 == Fhnd(r.1.chain, devtype)
    ensures Fhnd(s.chain, devtype) != NULL ==> r.1 == s
    ensures Fhnd(s.chain, devtype) == NULL ==>
      var (rc, s1) := LoadSpec(s, DeviceModuleName(devtype), {NoMsg}, lib, config);
      (rc == 0 && Fhnd(s1.chain, devtype) != NULL) || equates.None? || devtype !in equates.value ==>
        r.1 == s1
    ensures Fhnd(s.chain, devtype) == NULL ==>
      var (rc, s1) := LoadSpec(s, DeviceModuleName(devtype), {NoMsg}, lib, config);
      (rc != 0 || Fhnd(s1.chain, devtype) == NULL) && equates.Some? && devtype in equates.value ==>
        r.1 == LoadSpec(s1, DeviceModuleName(equates.value[devtype]), {NoMsg}, lib, config).1
    ensures Complete(r.1.tables)
  {
    if Fhnd(s.chain, devtype) != NULL then (Fhnd(s.chain, devtype), s)
    else
      var (rc, s1) := LoadSpec(s, DeviceModuleName(devtype), {NoMsg}, lib, config);
      var s2 :=
        if (rc != 0 || Fhnd(s1.chain, devtype) == NULL) && equates.Some? && devtype in equates.value
        then LoadSpec(s1, DeviceModuleName(equates.value[devtype]), {NoMsg}, lib, config).1
        else s1;
      (Fhnd(s2.chain, devtype), s2)
  }

  /** hdl_ghnd keeps the loader invariant. */
  lemma GhndPreservesInv(s: State, devtype: string, lib: Library,
                         equates: Option<map<string, string>>, config: set<Arch>)
    requires Inv(s)
    ensures Inv(GhndSpec(s, devtype, lib, equates, config).1)
  {
    if Fhnd(s.chain, devtype) == NULL {
      var s1 := LoadSpec(s, DeviceModuleName(devtype), {NoMsg}, lib, config).1;
      LoadPreservesInv(s, DeviceModuleName(devtype), {NoMsg}, lib, config);
      if equates.Some? && devtype in equates.value {
        LoadPreservesInv(s1, DeviceModuleName(equates.value[devtype]), {NoMsg}, lib, config);
      }
    }
  }
}
