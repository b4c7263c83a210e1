/** Shared vocabulary of the Hercules Dynamic Loader model: the records the
    loader keeps (dependency, entry point, device handler, instruction), the
    module descriptor, the description of a loadable binary, and the string
    and sequence scans used throughout hdl.c. */
module HdlTypes {

  /** A code or data address. 0 stands for NULL. */
  type Addr = nat

  const NULL: Addr := 0

  datatype Option<T> = None | Some(value: T)

  /** Load flags (HDL_LOAD_*). A C bit mask becomes a set of flags. */
  datatype LoadFlag = Main | NoUnload | Force | NoMsg | WasForced

  /** Architecture bits of an instruction registration (HDL_INSTARCH_*). */
  datatype Arch = S370 | S390 | Z900

  lemma ArchCases(a: Arch)
    ensures a == S370 || a == S390 || a == Z900
  {
  }

  /** Operation codes as passed to the instruction-definition callback:
      at most two bytes, since the top byte indexes a 256-entry table. */
  type Opcode = x: int | 0 <= x <= 0xFFFF

  /** A dependency record of the ledger (HDLDEP). */
  datatype Dep = Dep(name: string, version: string, size: int)

  /** A resolved entry point (MODENT): name, address, load count. */
  datatype ModEnt = ModEnt(name: string, fep: Addr, count: nat)

  /** A device-type handler binding (HDLDEV). */
  datatype DevEnt = DevEnt(name: string, hnd: Addr)

  /** One call a module's instruction section makes to hdl_didf. */
  datatype InsReq = InsReq(archflags: set<Arch>, opcode: Opcode, name: string, routine: Addr)

  /** An instruction binding (HDLINS) as this model keeps it: the normalised
      opcode, the architectures, the routine, and the table value saved for
      each architecture it patched. */
  datatype InsEnt = InsEnt(opcode: Opcode, archflags: set<Arch>, name: string, routine: Addr,
                           saved: map<Arch, Addr>)

  /** One call a module's initialiser makes to hdl_regi. */
  datatype EntryReg = EntryReg(name: string, fep: Addr)

  /** What a loadable binary is to the loader: what dlsym finds in it and
      what each of its optional sections does when called.
        depc      address of the dependency section, NULL when absent
        deps      triples the dependency section submits to the ledger
        symbols   the binary's exported symbols (dlsym)
        inits     registrations made by the initialiser (hdl_regi)
        resolves  names the resolver section asks for (hdl_fent)
        devices   device types registered (hdl_dvad)
        instrs    instructions defined (hdl_didf)
        fini      the final section and the value it returns, if present */
  datatype Binary = Binary(
    depc: Addr,
    deps: seq<Dep>,
    symbols: map<string, Addr>,
    inits: seq<EntryReg>,
    resolves: seq<string>,
    devices: seq<DevEnt>,
    instrs: seq<InsReq>,
    fini: Option<int>)

  /** A loaded module (DLLENT). */
  datatype Module = Module(
    name: string,
    flags: set<LoadFlag>,
    bin: Binary,
    modents: seq<ModEnt>,
    hndents: seq<DevEnt>,
    insents: seq<InsEnt>)

  /** dlsym(handle, name): the symbol's address, NULL when it is not found. */
  function Dlsym(bin: Binary, name: string): Addr
  {
    if name in bin.symbols then bin.symbols[name] else NULL
  }

  /** Name of the resident module created by hdl_main. */
  const MainName: string := "*Hercules"

  // ---------------------------------------------------------------------
  // Strings

  /** isupper/tolower in the C locale. */
  function LowerChar(c: char): char
  {
    if 'A' <= c <= 'Z' then (c as int + 32) as char else c
  }

  function Lower(s: string): (r: string)
    ensures |r| == |s|
    ensures forall i :: 0 <= i < |s| ==> r[i] == LowerChar(s[i])
  {
    seq(|s|, i requires 0 <= i < |s| => LowerChar(s[i]))
  }

  /** strcasecmp(a, b) == 0 */
  predicate SameIgnoringCase(a: string, b: string)
  {
    Lower(a) == Lower(b)
  }

  /** strfilenamecmp(a, b) == 0 on a POSIX build, where it is strcmp. */
  predicate SameFileName(a: string, b: string)
  {
    a == b
  }

  /** The module name hdl_load and hdl_dele derive from a path: what
      follows the last '/', or the whole name when there is none. */
  function BaseName(name: string): (r: string)
    ensures '/' !in r
    ensures |r| <= |name| && r == name[|name| - |r|..]
    ensures |r| < |name| ==> name[|name| - |r| - 1] == '/'
  {
    if |name| == 0 then name
    else if name[|name| - 1] == '/' then []
    else
      var init := name[..|name| - 1];
      var r := BaseName(init);
      assert r + [name[|name| - 1]] == name[|init| - |r|..];
      r + [name[|name| - 1]]
  }

  // ---------------------------------------------------------------------
  // Scans in list order

  /** Index of the first element satisfying p. */
  function FirstMatch<T>(s: seq<T>, p: T -> bool): (r: Option<nat>)
    ensures r.Some? ==> r.value < |s| && p(s[r.value])
    ensures r.Some? ==> forall k :: 0 <= k < r.value ==> !p(s[k])
    ensures r.None? ==> forall k :: 0 <= k < |s| ==> !p(s[k])
  {
    if |s| == 0 then None
    else if p(s[0]) then Some(0)
    else match FirstMatch(s[1..], p)
      case None => None
      case Some(k) => Some(k + 1)
  }

  /** Position (row, column) of the first element satisfying p when the rows
      are scanned in order and each row from its head: the order in which
      hdl.c walks a list of lists hanging off the module chain. */
  function FirstMatch2<T>(rows: seq<seq<T>>, p: T -> bool): (r: Option<(nat, nat)>)
    ensures r.Some? ==> r.value.0 < |rows| && r.value.1 < |rows[r.value.0]|
    ensures r.Some? ==> p(rows[r.value.0][r.value.1])
    ensures r.Some? ==> forall i, k :: 0 <= i < r.value.0 && 0 <= k < |rows[i]| ==> !p(rows[i][k])
    ensures r.Some? ==> forall k :: 0 <= k < r.value.1 ==> !p(rows[r.value.0][k])
    ensures r.None? ==> forall i, k :: 0 <= i < |rows| && 0 <= k < |rows[i]| ==> !p(rows[i][k])
  {
    if |rows| == 0 then None
    else match FirstMatch(rows[0], p)
      case Some(k) => Some((0, k))
      case None =>
        match FirstMatch2(rows[1..], p)
        case None => None
        case Some(pos) => Some((pos.0 + 1, pos.1))
  }

  /** The first match is the one position that matches with no match before it. */
  lemma FirstMatchIs<T>(s: seq<T>, p: T -> bool, i: nat)
    requires i < |s| && p(s[i])
    requires forall k :: 0 <= k < i ==> !p(s[k])
    ensures FirstMatch(s, p) == Some(i)
  {
  }

  /** Scanning a concatenation scans the first part, then the second. */
  lemma FirstMatchAppend<T>(a: seq<T>, b: seq<T>, p: T -> bool)
    ensures FirstMatch(a + b, p) ==
      match FirstMatch(a, p)
      case Some(k) => Some(k)
      case None =>
        match FirstMatch(b, p)
        case None => None
        case Some(k) => Some(|a| + k)
  {
    assert forall k :: 0 <= k < |a| ==> (a + b)[k] == a[k];
    assert forall k :: 0 <= k < |b| ==> (a + b)[|a| + k] == b[k];
    match FirstMatch(a, p)
    case Some(k) => FirstMatchIs(a + b, p, k);
    case None =>
      match FirstMatch(b, p)
      case None =>
        forall k | 0 <= k < |a + b| ensures !p((a + b)[k]) {
          if k >= |a| { assert (a + b)[k] == b[k - |a|]; }
        }
      case Some(k) => FirstMatchIs(a + b, p, |a| + k);
  }

  /** The list a sequence of head insertions builds: the last one pushed
      comes first. */
  function Pushed<T>(xs: seq<T>): (r: seq<T>)
    ensures |r| == |xs|
    ensures forall k :: 0 <= k < |xs| ==> r[k] == xs[|xs| - 1 - k]
  {
    if xs == [] then [] else [xs[|xs| - 1]] + Pushed(xs[..|xs| - 1])
  }

  /** Replacing the head twice is replacing it once. */
  lemma UpdateTwice<T>(s: seq<T>, x: T, y: T)
    requires |s| > 0
    ensures s[0 := x][0 := y] == s[0 := y]
  {
  }

  /** One more head insertion puts its element in front. */
  lemma PushedSnoc<T>(xs: seq<T>, x: T)
    ensures Pushed(xs + [x]) == [x] + Pushed(xs)
  {
    assert (xs + [x])[..|xs|] == xs;
  }
}
