/** The instruction patcher of the loader (hdl_didf, hdl_modify_opcode,
    hdl_modify_optab), as built with ZZ_NO_BACKLINK. Every opcode table entry
    holds one routine address per architecture (S/370, ESA/390,
    z/Architecture); a module's instruction section replaces entries for the
    architectures it names and unloading the module puts the old ones back.

    The tables are a map from cells (table, index, architecture) to
    addresses. The architectures compiled in (_370, _390, _900) are a set
    passed to every operation. */
module Opcode {
  import opened HdlTypes

  /** The opcode tables hdl_modify_opcode can select. TabMain is
      opcode_table, indexed by the first opcode byte. */
  datatype OpTable =
    | Tab01 | TabA5 | TabA7 | TabB2 | TabB3 | TabB9 | TabC0 | TabC2 | TabC4
    | TabC6 | TabC8 | TabCC | TabE3 | TabE5 | TabE6 | TabEB | TabEC | TabED
    | TabMain

  /** The extension tables indexed by the low four bits of the opcode. */
  predicate NibbleTable(t: OpTable)
  {
    t in {TabA5, TabA7, TabC0, TabC2, TabC4, TabC6, TabC8, TabCC}
  }

  function TableSize(t: OpTable): nat
  {
    if NibbleTable(t) then 16 else 256
  }

  datatype Slot = Slot(table: OpTable, index: nat)

  predicate ValidSlot(s: Slot)
  {
    s.index < TableSize(s.table)
  }

  datatype Cell = Cell(slot: Slot, arch: Arch)

  type Tables = map<Cell, Addr>

  /** hdl_didf's normalisation: an opcode that fits in one byte is moved to
      the high byte. */
  function Normalize(op: Opcode): (r: Opcode)
    ensures op > 0xff ==> r == op
    ensures op <= 0xff ==> r / 256 == op && r % 256 == 0
  {
    if op > 0xff then op else op * 256
  }

  /** The table the switch of hdl_modify_opcode picks for a normalised
      opcode, from its high byte. */
  function TableOf(op: Opcode): OpTable
  {
    match op / 256
    case 0x01 => Tab01
    case 0xA5 => TabA5
    case 0xA7 => TabA7
    case 0xB2 => TabB2
    case 0xB3 => TabB3
    case 0xB9 => TabB9
    case 0xC0 => TabC0
    case 0xC2 => TabC2
    case 0xC4 => TabC4
    case 0xC6 => TabC6
    case 0xC8 => TabC8
    case 0xCC => TabCC
    case 0xE3 => TabE3
    case 0xE5 => TabE5
    case 0xE6 => TabE6
    case 0xEB => TabEB
    case 0xEC => TabEC
    case 0xED => TabED
    case _ => TabMain
  }

  /** The entry hdl_modify_opcode patches for a normalised opcode: the low
      byte in a 256-entry extension table, the low four bits in a 16-entry
      one, the high byte in the main table. It is always inside its table. */
  function SlotOf(op: Opcode): (r: Slot)
    ensures ValidSlot(r)
    ensures r.table == TableOf(op)
    ensures r.table == TabMain ==> r.index == op / 256
    ensures r.table != TabMain && NibbleTable(r.table) ==> r.index == op % 16
    ensures r.table != TabMain && !NibbleTable(r.table) ==> r.index == op % 256
  {
    var t := TableOf(op);
    if t == TabMain then Slot(t, op / 256)
    else if NibbleTable(t) then Slot(t, op % 16)
    else Slot(t, op % 256)
  }

  /** A one-byte opcode is defined in the main table at its own index,
      except for a byte that introduces an extension table: that one lands
      in entry 0 of the extension table. */
  lemma OneByteOpcodeSlot(op: Opcode)
    requires op <= 0xff
    ensures TableOf(Normalize(op)) == TabMain ==> SlotOf(Normalize(op)) == Slot(TabMain, op)
    ensures TableOf(Normalize(op)) != TabMain ==> SlotOf(Normalize(op)).index == 0
  {
  }

  /** Two opcodes that hdl_didf cannot tell apart: 0x01 and 0x0100 patch
      the same entry, and 0xB2 patches entry 0 of the B2xx table rather than
      entry 0xB2 of the main table. */
  lemma NormalizeCollides()
    ensures Normalize(0x01) == Normalize(0x0100)
    ensures SlotOf(Normalize(0xB2)) == Slot(TabB2, 0)
  {
  }

  /** Every valid cell is present. */
  ghost predicate Complete(t: Tables)
  {
    forall s: Slot, a: Arch :: ValidSlot(s) ==> Cell(s, a) in t
  }

  // -----------------------------------------------------------------------
  // hdl_modify_optab, corrected: one saved value per architecture

  /** One architecture's step of an insertion: when the architecture is
      selected, its entry is saved and replaced by the routine. */
  function InsertArch(t: Tables, saved: map<Arch, Addr>, s: Slot, a: Arch,
                      on: bool, routine: Addr): (r: (Tables, map<Arch, Addr>))
    requires Cell(s, a) in t
    ensures r.0.Keys == t.Keys
    ensures r.0[Cell(s, a)] == if on then routine else t[Cell(s, a)]
    ensures forall c :: c in t && c != Cell(s, a) ==> r.0[c] == t[c]
    ensures r.1.Keys == if on then saved.Keys + {a} else saved.Keys
    ensures on ==> r.1[a] == t[Cell(s, a)]
    ensures forall b :: b in saved && b != a ==> r.1[b] == saved[b]
  {
    if on then (t[Cell(s, a) := routine], saved[a := t[Cell(s, a)]]) else (t, saved)
  }

  /** hdl_modify_optab(TRUE, ...) with a separate saved value for each
      architecture. The architectures patched are those both named by the
      instruction and compiled in. */
  function Insert(t: Tables, s: Slot, flags: set<Arch>, routine: Addr,
                  config: set<Arch>): (r: (Tables, map<Arch, Addr>))
    requires forall a: Arch :: Cell(s, a) in t
    ensures r.0.Keys == t.Keys
    ensures r.1.Keys == flags * config
    ensures forall a :: a in flags * config ==>
              r.0[Cell(s, a)] == routine && r.1[a] == t[Cell(s, a)]
    ensures forall c :: c in t && (c.slot != s || c.arch !in flags * config) ==> r.0[c] == t[c]
  {
    var r := InsertSteps(t, s, flags, routine, config);
    forall a ensures a in r.1 <==> a in flags * config { InsertStepsAt(t, s, flags, routine, config, a); }
    forall a | a in flags * config ensures r.0[Cell(s, a)] == routine && r.1[a] == t[Cell(s, a)] {
      InsertStepsAt(t, s, flags, routine, config, a);
    }
    forall c | c in t && (c.slot != s || c.arch !in flags * config) ensures r.0[c] == t[c] {
      InsertStepsElse(t, s, flags, routine, config, c);
    }
    r
  }

  /** The three architecture steps of an insertion, in the source's order. */
  function InsertSteps(t: Tables, s: Slot, flags: set<Arch>, routine: Addr,
                       config: set<Arch>): (r: (Tables, map<Arch, Addr>))
    requires forall a: Arch :: Cell(s, a) in t
    ensures r.0.Keys == t.Keys
  {
    var p1 := InsertArch(t, map[], s, S370, S370 in config && S370 in flags, routine);
    var p2 := InsertArch(p1.0, p1.1, s, S390, S390 in config && S390 in flags, routine);
    InsertArch(p2.0, p2.1, s, Z900, Z900 in config && Z900 in flags, routine)
  }

  lemma InsertStepsAt(t: Tables, s: Slot, flags: set<Arch>, routine: Addr, config: set<Arch>, a: Arch)
    requires forall b: Arch :: Cell(s, b) in t
    ensures var r := InsertSteps(t, s, flags, routine, config);
            && (a in r.1 <==> a in flags * config)
            && (a in flags * config ==> r.0[Cell(s, a)] == routine && r.1[a] == t[Cell(s, a)])
  {
    ArchCases(a);
  }

  lemma InsertStepsElse(t: Tables, s: Slot, flags: set<Arch>, routine: Addr, config: set<Arch>, c: Cell)
    requires forall b: Arch :: Cell(s, b) in t
    requires c in t && (c.slot != s || c.arch !in flags * config)
    ensures InsertSteps(t, s, flags, routine, config).0[c] == t[c]
  {
    ArchCases(c.arch);
  }

  /** One architecture's step of a removal: a saved entry is put back. */
  function RestoreArch(t: Tables, saved: map<Arch, Addr>, s: Slot, a: Arch): (r: Tables)
    ensures r.Keys == if a in saved then t.Keys + {Cell(s, a)} else t.Keys
    ensures a in saved ==> r[Cell(s, a)] == saved[a]
    ensures forall c :: c in t && c != Cell(s, a) ==> r[c] == t[c]
  {
    if a in saved then t[Cell(s, a) := saved[a]] else t
  }

  /** hdl_modify_optab(FALSE, ...) with a separate saved value for each
      architecture: every architecture that was patched gets its own saved
      value back. */
  function Remove(t: Tables, s: Slot, saved: map<Arch, Addr>): (r: Tables)
    ensures r.Keys == t.Keys + set a | a in saved :: Cell(s, a)
    ensures forall a :: a in saved ==> r[Cell(s, a)] == saved[a]
    ensures forall c :: c in t && (c.slot != s || c.arch !in saved) ==> r[c] == t[c]
  {
    var r := RestoreArch(RestoreArch(RestoreArch(t, saved, s, S370), saved, s, S390), saved, s, Z900);
    assert forall a :: a in saved ==> Cell(s, a) in r && r[Cell(s, a)] == saved[a] by {
      forall a | a in saved ensures Cell(s, a) in r && r[Cell(s, a)] == saved[a] { ArchCases(a); }
    }
    assert forall c :: c in r <==> c in t || (c.slot == s && c.arch in saved) by {
      forall c ensures c in r <==> c in t || (c.slot == s && c.arch in saved) { ArchCases(c.arch); }
    }
    r
  }

  /** Removing an instruction undoes inserting it. */
  lemma RemoveUndoesInsert(t: Tables, s: Slot, flags: set<Arch>, routine: Addr,
                           config: set<Arch>)
    requires forall a: Arch :: Cell(s, a) in t
    ensures var (t', saved) := Insert(t, s, flags, routine, config);
            Remove(t', s, saved) == t
  {
    var (t', saved) := Insert(t, s, flags, routine, config);
    var r := Remove(t', s, saved);
    assert r.Keys == t.Keys;
    forall c | c in t ensures r[c] == t[c] {
      if c.slot == s && c.arch in saved {
        assert c == Cell(s, c.arch);
      }
    }
  }

  /** hdl_didf's binding: the normalised opcode, the architectures, the
      routine and the values saved when it was patched in. */
  function Define(t: Tables, req: InsReq, config: set<Arch>): (r: (Tables, InsEnt))
    requires Complete(t)
    ensures Complete(r.0) && r.0.Keys == t.Keys
    ensures r.1.opcode == Normalize(req.opcode) && r.1.archflags == req.archflags
    ensures r.1.name == req.name && r.1.routine == req.routine
    ensures forall a :: a in req.archflags * config ==>
              r.0[Cell(SlotOf(Normalize(req.opcode)), a)] == req.routine
  {
    var op := Normalize(req.opcode);
    var s := SlotOf(op);
    var (t', saved) := Insert(t, s, req.archflags, req.routine, config);
    (t', InsEnt(op, req.archflags, req.name, req.routine, saved))
  }

  /** hdl_modify_opcode(FALSE, ins), corrected. */
  function Undefine(t: Tables, e: InsEnt): Tables
  {
    Remove(t, SlotOf(e.opcode), e.saved)
  }

  lemma UndefineUndoesDefine(t: Tables, req: InsReq, config: set<Arch>)
    requires Complete(t)
    ensures Undefine(Define(t, req, config).0, Define(t, req, config).1) == t
  {
    var s := SlotOf(Normalize(req.opcode));
    assert forall a: Arch :: Cell(s, a) in t;
    RemoveUndoesInsert(t, s, req.archflags, req.routine, config);
  }

  /** A module's instruction section: each definition in turn, each new
      binding pushed at the head of the module's list. */
  function DefineAll(t: Tables, reqs: seq<InsReq>, ents: seq<InsEnt>, config: set<Arch>)
    : (r: (Tables, seq<InsEnt>))
    requires Complete(t)
    ensures Complete(r.0) && r.0.Keys == t.Keys
    ensures |r.1| == |reqs| + |ents| && r.1[|reqs|..] == ents
    decreases |reqs|
  {
    if reqs == [] then (t, ents)
    else
      var prev := DefineAll(t, reqs[..|reqs| - 1], ents, config);
      var (t', e) := Define(prev.0, reqs[|reqs| - 1], config);
      (t', [e] + prev.1)
  }

  /** One more request defines on top of the requests before it. */
  lemma DefineAllStep(t: Tables, reqs: seq<InsReq>, ents: seq<InsEnt>, config: set<Arch>, j: nat)
    requires Complete(t) && j < |reqs|
    ensures var prev := DefineAll(t, reqs[..j], ents, config);
            var step := Define(prev.0, reqs[j], config);
            DefineAll(t, reqs[..j + 1], ents, config) == (step.0, [step.1] + prev.1)
  {
    assert reqs[..j + 1][..j] == reqs[..j];
  }

  /** hdl_dele's unpatching: the module's bindings from the head of its
      list, that is newest first. */
  function UndefineAll(t: Tables, ents: seq<InsEnt>): Tables
    decreases |ents|
  {
    if ents == [] then t else UndefineAll(Undefine(t, ents[0]), ents[1..])
  }

  /** Unloading a module restores the tables it patched, however its
      definitions overlapped: the bindings are undone in the reverse order
      of their definition. */
  lemma {:induction false} UndefineAllUndoesDefineAll(t: Tables, reqs: seq<InsReq>, config: set<Arch>)
    requires Complete(t)
    ensures var r := DefineAll(t, reqs, [], config);
            UndefineAll(r.0, r.1) == t
    decreases |reqs|
  {
    if reqs != [] {
      var prev := DefineAll(t, reqs[..|reqs| - 1], [], config);
      UndefineAllUndoesDefineAll(t, reqs[..|reqs| - 1], config);
      var (t', e) := Define(prev.0, reqs[|reqs| - 1], config);
      UndefineUndoesDefine(prev.0, reqs[|reqs| - 1], config);
      assert ([e] + prev.1)[1..] == prev.1;
    }
  }

  // -----------------------------------------------------------------------
  // hdl_modify_optab as written

  /** The result of an insertion as written: the tables and the single
      `original` field of the binding. */
  datatype Patched = Patched(tables: Tables, original: Addr)

  function InsertArchAsWritten(p: Patched, s: Slot, a: Arch, on: bool, routine: Addr): (r: Patched)
    requires Cell(s, a) in p.tables
    ensures r.tables.Keys == p.tables.Keys
    ensures r.tables[Cell(s, a)] == if on then routine else p.tables[Cell(s, a)]
    ensures forall c :: c in p.tables && c != Cell(s, a) ==> r.tables[c] == p.tables[c]
    ensures r.original == if on then p.tables[Cell(s, a)] else p.original
  {
    if on then Patched(p.tables[Cell(s, a) := routine], p.tables[Cell(s, a)]) else p
  }

  /** hdl_modify_optab(TRUE, ...) as written (1096-1117): every selected
      architecture overwrites the one `original` field, so only the last
      one's old entry survives. `original` starts as whatever the binding
      held (malloc leaves it unset). */
  function InsertAsWritten(t: Tables, s: Slot, flags: set<Arch>, routine: Addr,
                           config: set<Arch>, original: Addr): (r: Patched)
    requires forall a: Arch :: Cell(s, a) in t
    ensures r.tables.Keys == t.Keys
    ensures forall a :: a in flags * config ==> r.tables[Cell(s, a)] == routine
    ensures forall c :: c in t && (c.slot != s || c.arch !in flags * config) ==> r.tables[c] == t[c]
    ensures r.original == match LastSelected(flags * config)
                          case None => original
                          case Some(a) => t[Cell(s, a)]
  {
    var p1 := InsertArchAsWritten(Patched(t, original), s, S370, S370 in config && S370 in flags, routine);
    var p2 := InsertArchAsWritten(p1, s, S390, S390 in config && S390 in flags, routine);
    var p3 := InsertArchAsWritten(p2, s, Z900, Z900 in config && Z900 in flags, routine);
    assert forall a :: a in flags * config ==> p3.tables[Cell(s, a)] == routine by {
      forall a | a in flags * config ensures p3.tables[Cell(s, a)] == routine { ArchCases(a); }
    }
    assert forall c :: c in t && (c.slot != s || c.arch !in flags * config) ==> p3.tables[c] == t[c] by {
      forall c | c in t && (c.slot != s || c.arch !in flags * config) ensures p3.tables[c] == t[c] {
        ArchCases(c.arch);
      }
    }
    p3
  }

  /** The architecture hdl_modify_optab patches last among those selected,
      in its order S/370, ESA/390, z/Architecture: the one whose old entry
      the single `original` field keeps. */
  function LastSelected(sel: set<Arch>): (r: Option<Arch>)
    ensures r.None? <==> sel == {}
    ensures r.Some? ==> r.value in sel
  {
    if Z900 in sel then Some(Z900)
    else if S390 in sel then Some(S390)
    else if S370 in sel then Some(S370)
    else assert forall a :: a in sel ==> false by { forall a | a in sel ensures false { ArchCases(a); } } None
  }

  /** hdl_modify_optab(FALSE, ...) as written (1118-1132): each named
      architecture gets `original`, and the ESA/390 entry is restored only
      when z/Architecture is compiled in. */
  function RemoveAsWritten(t: Tables, s: Slot, flags: set<Arch>, config: set<Arch>,
                           original: Addr): Tables
  {
    var t1 := if S370 in config && S370 in flags then t[Cell(s, S370) := original] else t;
    var t2 := if Z900 in config && S390 in flags then t1[Cell(s, S390) := original] else t1;
    if Z900 in config && Z900 in flags then t2[Cell(s, Z900) := original] else t2
  }

  /** As written, removal undoes insertion when the instruction patches at
      most one architecture and that one is restored by the same guard it
      was patched under. */
  lemma RemoveAsWrittenUndoesInsertOneArch(t: Tables, s: Slot, a: Arch, routine: Addr,
                                           config: set<Arch>, original: Addr)
    requires forall b: Arch :: Cell(s, b) in t
    requires a in config && (a == S390 ==> Z900 in config)
    ensures var p := InsertAsWritten(t, s, {a}, routine, config, original);
            RemoveAsWritten(p.tables, s, {a}, config, p.original) == t
  {
    var p := InsertAsWritten(t, s, {a}, routine, config, original);
    assert p.original == t[Cell(s, a)];
    var r := RemoveAsWritten(p.tables, s, {a}, config, p.original);
    assert r.Keys == t.Keys;
    forall c | c in t ensures r[c] == t[c] {
    }
  }

  /** Finding: an instruction defined for S/370 and z/Architecture whose two
      entries differ leaves the z/Architecture routine in the S/370 table
      after it is removed. */
  lemma SharedOriginalLosesEntry(t: Tables, s: Slot, routine: Addr, original: Addr)
    requires forall a: Arch :: Cell(s, a) in t
    requires t[Cell(s, S370)] == 1 && t[Cell(s, Z900)] == 2
    ensures var config := {S370, S390, Z900};
            var p := InsertAsWritten(t, s, {S370, Z900}, routine, config, original);
            RemoveAsWritten(p.tables, s, {S370, Z900}, config, p.original)[Cell(s, S370)] == 2
  {
  }

  /** Finding: in a build with S/370 and ESA/390 but not z/Architecture, an
      ESA/390 instruction stays patched in after it is removed. */
  lemma Unrestored390(t: Tables, s: Slot, routine: Addr, original: Addr)
    requires forall a: Arch :: Cell(s, a) in t
    requires routine != t[Cell(s, S390)]
    ensures var config := {S370, S390};
            var p := InsertAsWritten(t, s, {S390}, routine, config, original);
            RemoveAsWritten(p.tables, s, {S390}, config, p.original)[Cell(s, S390)] == routine
  {
  }

  /** The corrected patcher restores both cases above. */
  lemma CorrectedRestoresBoth(t: Tables, s: Slot, routine: Addr)
    requires forall a: Arch :: Cell(s, a) in t
    ensures var p := Insert(t, s, {S370, Z900}, routine, {S370, S390, Z900});
            Remove(p.0, s, p.1)[Cell(s, S370)] == t[Cell(s, S370)]
    ensures var p := Insert(t, s, {S390}, routine, {S370, S390});
            Remove(p.0, s, p.1)[Cell(s, S390)] == t[Cell(s, S390)]
  {
    RemoveUndoesInsert(t, s, {S370, Z900}, routine, {S370, S390, Z900});
    RemoveUndoesInsert(t, s, {S390}, routine, {S370, S390});
  }
}
