/** Device-type handlers: the per-module handler lists (HDLDEV) that
    hdl_dvad fills, the case-insensitive lookup hdl_fhnd performs over the
    whole chain, and the name hdl_bdnm builds for the module that provides
    a device type. */
module Devices {
  import opened HdlTypes

  /** The prefix of a device-type module name (HDL_HDTP_Q). */
  const HdtPrefix: string := "hdt"

  /** A handler whose name equals the given one when both are lowercased;
      key is the lowercased name looked for. */
  function HandlerIs(key: string): DevEnt -> bool
  {
    (h: DevEnt) => Lower(h.name) == key
  }

  /** The handler lists of the chain, in chain order. */
  function HandlerLists(chain: seq<Module>): (r: seq<seq<DevEnt>>)
    ensures |r| == |chain|
    ensures forall i :: 0 <= i < |chain| ==> r[i] == chain[i].hndents
  {
    seq(|chain|, i requires 0 <= i < |chain| => chain[i].hndents)
  }

  /** Position of the first handler for devname, ignoring case, scanning
      the newest module first and each list from its head (hdl_fhnd). */
  function FindHandler(chain: seq<Module>, devname: string): (r: Option<(nat, nat)>)
    ensures r.Some? ==> r.value.0 < |chain| && r.value.1 < |chain[r.value.0].hndents|
    ensures r.Some? ==> SameIgnoringCase(chain[r.value.0].hndents[r.value.1].name, devname)
    ensures r.Some? ==> forall i, k :: 0 <= i < r.value.0 && 0 <= k < |chain[i].hndents| ==>
                          !SameIgnoringCase(chain[i].hndents[k].name, devname)
    ensures r.Some? ==> forall k :: 0 <= k < r.value.1 ==>
                          !SameIgnoringCase(chain[r.value.0].hndents[k].name, devname)
    ensures r.None? ==> forall i, k :: 0 <= i < |chain| && 0 <= k < |chain[i].hndents| ==>
                          !SameIgnoringCase(chain[i].hndents[k].name, devname)
  {
    FirstMatch2(HandlerLists(chain), HandlerIs(Lower(devname)))
  }

  /** hdl_fhnd: the handler of the first matching registration, NULL when
      there is none. */
  function Fhnd(chain: seq<Module>, devname: string): Addr
  {
    match FindHandler(chain, devname)
    case None => NULL
    case Some((i, k)) => chain[i].hndents[k].hnd
  }

  /** hdl_dvad: a new handler at the head of the module's list. */
  function Dvad(m: Module, devname: string, hnd: Addr): (r: Module)
    ensures r.(hndents := []) == m.(hndents := [])
    ensures r.hndents == [DevEnt(devname, hnd)] + m.hndents
  {
    m.(hndents := [DevEnt(devname, hnd)] + m.hndents)
  }

  /** The newest registration wins: a handler just registered by the
      newest module is what hdl_fhnd returns for that name, spelt in any
      case, whatever older modules registered. */
  lemma NewestHandlerWins(m: Module, older: seq<Module>, devname: string, query: string, hnd: Addr)
    requires SameIgnoringCase(devname, query)
    ensures Fhnd([Dvad(m, devname, hnd)] + older, query) == hnd
  {
    var chain := [Dvad(m, devname, hnd)] + older;
    assert HandlerLists(chain)[0][0] == DevEnt(devname, hnd);
  }

  /** hdl_fhnd finds a registration exactly when some module registered
      the name, ignoring case. */
  lemma FhndFindsRegistered(chain: seq<Module>, devname: string)
    ensures FindHandler(chain, devname).Some? <==>
      exists i, k :: 0 <= i < |chain| && 0 <= k < |chain[i].hndents| &&
                     SameIgnoringCase(chain[i].hndents[k].name, devname)
  {
  }

  /** Reversing a handler list keeps the handlers it holds. */
  lemma PushedHandlers(devs: seq<DevEnt>, active: set<Addr>)
    requires forall k :: 0 <= k < |devs| ==> devs[k].hnd !in active
    ensures forall k :: 0 <= k < |Pushed(devs)| ==> Pushed(devs)[k].hnd !in active
  {
  }

  /** The name hdl_bdnm builds: the prefix and the device type,
      lowercased. */
  function DeviceModuleName(ltype: string): string
  {
    Lower(HdtPrefix + ltype)
  }

  /** hdl_bdnm: copies the prefix and the type into a fresh buffer, then
      lowercases it in place. */
  method BuildDeviceModuleName(ltype: string) returns (name: string)
    ensures name == DeviceModuleName(ltype)
  {
    var src := HdtPrefix + ltype;
    var buf := new char[|src|](i requires 0 <= i < |src| => src[i]);
    var n := 0;
    while n < buf.Length
      invariant 0 <= n <= buf.Length
      invariant forall i :: 0 <= i < n ==> buf[i] == LowerChar(src[i])
      invariant forall i :: n <= i < buf.Length ==> buf[i] == src[i]
    {
      if 'A' <= buf[n] <= 'Z' {
        buf[n] := LowerChar(buf[n]);
      }
      n := n + 1;
    }
    name := buf[..];
  }

  /** The module name starts with the prefix, keeps the type's length,
      holds no upper-case letter, and is the same for any spelling of the
      type that differs only in case. */
  lemma DeviceModuleNameShape(ltype: string, other: string)
    ensures |DeviceModuleName(ltype)| == |HdtPrefix| + |ltype|
    ensures DeviceModuleName(ltype)[..|HdtPrefix|] == HdtPrefix
    ensures forall i :: 0 <= i < |DeviceModuleName(ltype)| ==> !('A' <= DeviceModuleName(ltype)[i] <= 'Z')
    ensures SameIgnoringCase(ltype, other) ==> DeviceModuleName(ltype) == DeviceModuleName(other)
  {
    var full := HdtPrefix + ltype;
    assert forall i :: 0 <= i < |HdtPrefix| ==> full[i] == HdtPrefix[i];
    if SameIgnoringCase(ltype, other) {
      var full' := HdtPrefix + other;
      assert forall i :: 0 <= i < |full| ==>
        LowerChar(full[i]) == LowerChar(full'[i]) by {
        forall i | 0 <= i < |full| ensures LowerChar(full[i]) == LowerChar(full'[i]) {
          if i >= |HdtPrefix| {
            assert Lower(ltype)[i - |HdtPrefix|] == Lower(other)[i - |HdtPrefix|];
          }
        }
      }
    }
  }
}
