/** The DIMM list: counted first, filled in later, by nested searches over the parsed table. */
module NfitDimm {
  import opened Basics
  import opened LittleEndian
  import opened NfitTables
  import opened Firsts

  const MAX_IFC_COUNT: nat := 9

  /** The parsed table as far as it is looked at. */
  datatype Nfit = Nfit(spas: seq<Spa>, mappings: seq<RegionMapping>, regions: seq<ControlRegion>)

  function HandleOf(m: RegionMapping): nat {
    m.handle
  }

  function HandlesOf(mappings: seq<RegionMapping>): (handles: seq<nat>)
    ensures |handles| == |mappings| && forall i :: 0 <= i < |handles| ==> handles[i] == mappings[i].handle
  {
    seq(|mappings|, i requires 0 <= i < |mappings| => mappings[i].handle)
  }

  /** The first mapping of each handle. */
  ghost function FirstMappings(nfit: Nfit): seq<RegionMapping> {
    FirstsOf(nfit.mappings, HandleOf)
  }

  /** The handles in the list are those of the mappings, each once, in the order in which they
      first occur. */
  lemma HandlesListed(nfit: Nfit)
    ensures forall m <- nfit.mappings :: m.handle in HandlesOf(FirstMappings(nfit))
    ensures forall m <- FirstMappings(nfit) :: m in nfit.mappings
    ensures var h := HandlesOf(FirstMappings(nfit));
            forall i, j :: 0 <= i < j < |h| ==>
              h[i] != h[j] && FirstIndex(nfit.mappings, HandleOf, h[i]) < FirstIndex(nfit.mappings, HandleOf, h[j])
  {
    hide FirstsOf, FirstIndex;
    EachKeyOnce(nfit.mappings, HandleOf);
    InOrder(nfit.mappings, HandleOf);
    var firsts := FirstMappings(nfit);
    assert forall i :: 0 <= i < |firsts| ==> HandleOf(firsts[i]) == HandlesOf(firsts)[i];
    forall m | m in nfit.mappings
      ensures m.handle in HandlesOf(firsts)
    {
      var i :| 0 <= i < |nfit.mappings| && nfit.mappings[i] == m;
      assert HasKey(firsts, HandleOf, HandleOf(nfit.mappings[i]));
      KeyInHandles(firsts, m.handle);
    }
  }

  predicate HasRegion(regions: seq<ControlRegion>, index: nat) {
    exists r <- regions :: r.index == index
  }

  ghost predicate AllMatched(nfit: Nfit, mappings: seq<RegionMapping>) {
    forall m <- mappings :: HasRegion(nfit.regions, m.controlRegionIndex)
  }

  /** What the count phase says: the number of handles, or that one leads to no control region. */
  ghost function DimmCount(nfit: Nfit): int {
    if AllMatched(nfit, FirstMappings(nfit)) then |FirstMappings(nfit)| else ERR_BADNFIT
  }

  // ---------------------------------------------------------------- interface codes

  /** The list with a code put in the first free place, if it is not met before that. */
  function AddIfc(list: seq<nat>, ifc: nat): (r: seq<nat>)
    ensures |r| == |list|
  {
    if list == [] || list[0] == ifc then list
    else if list[0] == 0 then [ifc] + list[1..]
    else [list[0]] + AddIfc(list[1..], ifc)
  }

  /** The search at place i, when everything before it has been passed. */
  lemma AddIfcAt(list: seq<nat>, i: nat, ifc: nat)
    requires i < |list|
    ensures list[i] == ifc ==> list[..i] + AddIfc(list[i..], ifc) == list
    ensures list[i] != ifc && list[i] == 0 ==> list[..i] + AddIfc(list[i..], ifc) == list[i := ifc]
    ensures list[i] != ifc && list[i] != 0 ==>
              list[..i] + AddIfc(list[i..], ifc) == list[..i + 1] + AddIfc(list[i + 1..], ifc)
  {
    var rest := list[i..];
    assert rest[1..] == list[i + 1..] && list == list[..i] + rest && list[..i + 1] == list[..i] + [list[i]];
    ConcatAssociative(list[..i], [list[i]], AddIfc(list[i + 1..], ifc));
  }

  lemma NothingLeft(list: seq<nat>, ifc: nat)
    ensures list[..|list|] + AddIfc(list[|list|..], ifc) == list
  {
  }

  /** The codes of the control regions with the serial number are added one by one. */
  function AddCodes(regions: seq<ControlRegion>, serial: nat, list: seq<nat>): (r: seq<nat>)
    ensures |r| == |list|
  {
    if regions == [] then list
    else AddCodes(regions[1..], serial, if regions[0].serialNumber == serial then AddIfc(list, regions[0].ifc) else list)
  }

  /** Distinct codes, none of them zero, and zeros behind them. */
  predicate CodesThenZeros(list: seq<nat>) {
    forall i, j :: 0 <= i < j < |list| && list[j] != 0 ==> list[i] != 0 && list[i] != list[j]
  }

  lemma {:induction false} AddIfcKeepsShape(list: seq<nat>, ifc: nat)
    requires CodesThenZeros(list)
    ensures CodesThenZeros(AddIfc(list, ifc))
    ensures forall i :: 0 <= i < |list| && AddIfc(list, ifc)[i] != list[i] ==> AddIfc(list, ifc)[i] == ifc
  {
    if list != [] && list[0] != ifc {
      if list[0] == 0 {
        assert forall j :: 0 < j < |list| ==> list[j] == 0;
      } else {
        var rest, r := list[1..], AddIfc(list, ifc);
        forall i, j | 0 <= i < j < |rest| && rest[j] != 0
          ensures rest[i] != 0 && rest[i] != rest[j]
        {
          assert list[i + 1] == rest[i] && list[j + 1] == rest[j];
        }
        AddIfcKeepsShape(rest, ifc);
        forall i, j | 0 <= i < j < |r| && r[j] != 0
          ensures r[i] != 0 && r[i] != r[j]
        {
          assert r[j] == AddIfc(rest, ifc)[j - 1];
          assert rest[j - 1] == list[j];
          if i > 0 {
            assert r[i] == AddIfc(rest, ifc)[i - 1];
          }
        }
      }
    }
  }

  lemma {:induction false} AddCodesKeepsShape(regions: seq<ControlRegion>, serial: nat, list: seq<nat>)
    requires CodesThenZeros(list)
    ensures CodesThenZeros(AddCodes(regions, serial, list))
    decreases |regions|
  {
    hide CodesThenZeros, AddIfc;
    if regions != [] {
      if regions[0].serialNumber == serial {
        AddIfcKeepsShape(list, regions[0].ifc);
        AddCodesKeepsShape(regions[1..], serial, AddIfc(list, regions[0].ifc));
      } else {
        AddCodesKeepsShape(regions[1..], serial, list);
      }
    }
  }

  /** The nonzero codes of all control regions with the serial number, in order. */
  function CodesOf(regions: seq<ControlRegion>, serial: nat): (codes: seq<nat>)
    ensures 0 !in codes
  {
    if regions == [] then []
    else
      (if regions[0].serialNumber == serial && regions[0].ifc != 0 then [regions[0].ifc] else [])
      + CodesOf(regions[1..], serial)
  }

  function Self(code: nat): nat {
    code
  }

  function Zeros(n: nat): (zeros: seq<nat>)
    ensures |zeros| == n && forall i :: 0 <= i < n ==> zeros[i] == 0
  {
    seq(n, _ => 0)
  }

  /** The first codes that there is room for, filled up with zeros. */
  function Padded(codes: seq<nat>, room: nat): (list: seq<nat>)
    ensures |list| == room
  {
    if |codes| >= room then codes[..room] else codes + Zeros(room - |codes|)
  }

  /** Adding a code to the padded list of distinct codes: a full list takes no more. */
  lemma {:induction false} AddIfcPadded(codes: seq<nat>, room: nat, ifc: nat)
    requires 0 !in codes && ifc != 0
    ensures AddIfc(Padded(codes, room), ifc) == Padded(if ifc in codes then codes else codes + [ifc], room)
    decreases room
  {
    var list := Padded(codes, room);
    var after := if ifc in codes then codes else codes + [ifc];
    if room == 0 {
      assert list == [] == Padded(after, room);
    } else if codes == [] {
      assert list == Zeros(room) && Padded([ifc], room) == [ifc] + Zeros(room - 1);
      assert Zeros(room)[1..] == Zeros(room - 1);
    } else if codes[0] == ifc {
      assert list[0] == ifc && ifc in codes;
    } else {
      var rest := codes[1..];
      assert codes == [codes[0]] + rest && list == [codes[0]] + Padded(rest, room - 1);
      assert list[1..] == Padded(rest, room - 1);
      assert codes[0] != 0;
      AddIfcPadded(rest, room - 1, ifc);
      var restAfter := if ifc in rest then rest else rest + [ifc];
      assert ifc in codes <==> ifc in rest;
      assert after == [codes[0]] + restAfter;
      assert Padded(after, room) == [codes[0]] + Padded(restAfter, room - 1);
    }
  }

  lemma HasSelf(codes: seq<nat>, code: nat)
    ensures HasKey(codes, Self, code) <==> code in codes
  {
    if code in codes {
      var i :| 0 <= i < |codes| && codes[i] == code;
      assert Self(codes[i]) == code;
    }
  }

  lemma {:induction false} FirstsNonzero(codes: seq<nat>)
    requires 0 !in codes
    ensures 0 !in FirstsOf(codes, Self)
    decreases |codes|
  {
    if codes != [] {
      assert 0 !in codes[..|codes| - 1];
      FirstsNonzero(codes[..|codes| - 1]);
    }
  }

  /** Adding a region's codes to a list that holds the firsts of `done` makes it hold the firsts of all. */
  lemma {:induction false} AddCodesPadded(regions: seq<ControlRegion>, serial: nat, done: seq<nat>, room: nat)
    requires 0 !in done
    ensures AddCodes(regions, serial, Padded(FirstsOf(done, Self), room))
         == Padded(FirstsOf(done + CodesOf(regions, serial), Self), room)
    decreases |regions|
  {
    hide FirstsOf, Padded, AddIfc, HasKey;
    if regions == [] {
      assert done + [] == done;
    } else {
      var r, rest := regions[0], CodesOf(regions[1..], serial);
      if r.serialNumber == serial && r.ifc != 0 {
        FirstsNonzero(done);
        AddIfcPadded(FirstsOf(done, Self), room, r.ifc);
        HasSelf(FirstsOf(done, Self), r.ifc);
        FirstsNext(done, Self, r.ifc);
        AddCodesPadded(regions[1..], serial, done + [r.ifc], room);
        ConcatAssociative(done, [r.ifc], rest);
      } else {
        if r.ifc == 0 {
          FirstsNonzero(done);
          ZeroAddsNothing(FirstsOf(done, Self), room);
        }
        AddCodesPadded(regions[1..], serial, done, room);
        assert [] + rest == rest;
      }
    }
  }

  /** The code zero is found at the first free place, or not at all: nothing changes. */
  lemma ZeroAddsNothing(codes: seq<nat>, room: nat)
    requires 0 !in codes
    ensures AddIfc(Padded(codes, room), 0) == Padded(codes, room)
  {
    ZeroKept(Padded(codes, room));
  }

  lemma {:induction false} ZeroKept(list: seq<nat>)
    ensures AddIfc(list, 0) == list
  {
    if list != [] && list[0] != 0 {
      ZeroKept(list[1..]);
    }
  }

  // ---------------------------------------------------------------- one DIMM

  /** What is copied from a control region. */
  datatype Identity = Identity(
    serialNumber: nat, vendorId: nat, deviceId: nat, revisionId: nat,
    subsystemVendorId: nat, subsystemDeviceId: nat, subsystemRevisionId: nat,
    validFields: nat, manufacturingLocation: nat, manufacturingDate: nat)

  const NO_IDENTITY := Identity(0, 0, 0, 0, 0, 0, 0, 0, 0, 0)

  function IdentityOf(r: ControlRegion): Identity {
    Identity(r.serialNumber, r.vendorId, r.deviceId, r.revisionId,
             r.subsystemVendorId, r.subsystemDeviceId, r.subsystemRevisionId,
             r.validFields, r.manufacturingLocation, r.manufacturingDate)
  }

  datatype DimmInfo = DimmInfo(handle: nat, physicalId: nat, stateFlags: nat, identity: Identity, ifc: seq<nat>)

  const NO_DIMM := DimmInfo(0, 0, 0, NO_IDENTITY, Zeros(MAX_IFC_COUNT))

  /** The effect of all control regions of that index, one after the other: the identity of the
      last one stays, the codes pile up. */
  function Filled(all: seq<ControlRegion>, regions: seq<ControlRegion>, index: nat, d: DimmInfo): DimmInfo {
    if regions == [] then d
    else
      var r := regions[0];
      Filled(all, regions[1..], index,
             if r.index == index then d.(identity := IdentityOf(r), ifc := AddCodes(all, r.serialNumber, d.ifc)) else d)
  }

  /** The DIMM behind a region mapping. */
  function DimmOf(nfit: Nfit, m: RegionMapping): DimmInfo {
    Filled(nfit.regions, nfit.regions, m.controlRegionIndex,
           NO_DIMM.(handle := m.handle, physicalId := m.physicalId, stateFlags := m.stateFlag))
  }

  lemma {:induction false} FilledKeepsShape(all: seq<ControlRegion>, regions: seq<ControlRegion>, index: nat,
                                            d: DimmInfo)
    requires CodesThenZeros(d.ifc) && |d.ifc| == MAX_IFC_COUNT
    ensures CodesThenZeros(Filled(all, regions, index, d).ifc) && |Filled(all, regions, index, d).ifc| == MAX_IFC_COUNT
    decreases |regions|
  {
    hide CodesThenZeros, AddCodes;
    if regions != [] {
      var r := regions[0];
      AddCodesKeepsShape(all, r.serialNumber, d.ifc);
      FilledKeepsShape(all, regions[1..], index,
        if r.index == index then d.(identity := IdentityOf(r), ifc := AddCodes(all, r.serialNumber, d.ifc)) else d);
    }
  }

  /** Whatever the table: nine places that hold distinct nonzero codes and then zeros. */
  lemma CodesShape(nfit: Nfit, m: RegionMapping)
    ensures |DimmOf(nfit, m).ifc| == MAX_IFC_COUNT && CodesThenZeros(DimmOf(nfit, m).ifc)
  {
    FilledKeepsShape(nfit.regions, nfit.regions, m.controlRegionIndex,
                     NO_DIMM.(handle := m.handle, physicalId := m.physicalId, stateFlags := m.stateFlag));
  }

  /** The codes for every control region of that index, one region after the other. */
  function PiledCodes(all: seq<ControlRegion>, regions: seq<ControlRegion>, index: nat): (codes: seq<nat>)
    ensures 0 !in codes
  {
    if regions == [] then []
    else
      (if regions[0].index == index then CodesOf(all, regions[0].serialNumber) else [])
      + PiledCodes(all, regions[1..], index)
  }

  lemma {:induction false} CodesPileUp(all: seq<ControlRegion>, regions: seq<ControlRegion>, index: nat, d: DimmInfo,
                                       done: seq<nat>)
    requires 0 !in done && d.ifc == Padded(FirstsOf(done, Self), MAX_IFC_COUNT)
    ensures Filled(all, regions, index, d).ifc
         == Padded(FirstsOf(done + PiledCodes(all, regions, index), Self), MAX_IFC_COUNT)
    decreases |regions|
  {
    hide FirstsOf, Padded, AddCodes, IdentityOf, CodesOf;
    if regions == [] {
      assert done + [] == done;
    } else {
      var r, rest := regions[0], PiledCodes(all, regions[1..], index);
      if r.index == index {
        var codes := CodesOf(all, r.serialNumber);
        AddCodesPadded(all, r.serialNumber, done, MAX_IFC_COUNT);
        CodesPileUp(all, regions[1..], index,
                    d.(identity := IdentityOf(r), ifc := AddCodes(all, r.serialNumber, d.ifc)), done + codes);
        ConcatAssociative(done, codes, rest);
      } else {
        CodesPileUp(all, regions[1..], index, d, done);
        assert [] + rest == rest;
      }
    }
  }

  /** Place k holds the last control region of that index, or there is none and k is their number. */
  predicate LastOfIndex(regions: seq<ControlRegion>, index: nat, k: nat) {
    && k <= |regions|
    && (k < |regions| ==> regions[k].index == index)
    && (forall j :: 0 <= j < |regions| && (k == |regions| || k < j) ==> regions[j].index != index)
  }

  lemma {:induction false} LastIdentityStays(all: seq<ControlRegion>, regions: seq<ControlRegion>, index: nat,
                                             d: DimmInfo, k: nat)
    requires LastOfIndex(regions, index, k)
    ensures Filled(all, regions, index, d).identity == if k < |regions| then IdentityOf(regions[k]) else d.identity
    ensures Filled(all, regions, index, d)
         == d.(identity := Filled(all, regions, index, d).identity, ifc := Filled(all, regions, index, d).ifc)
    decreases |regions|
  {
    hide AddCodes;
    if regions != [] {
      var r, rest := regions[0], regions[1..];
      var next := if r.index != index then d
                  else d.(identity := IdentityOf(r), ifc := AddCodes(all, r.serialNumber, d.ifc));
      assert forall j :: 0 <= j < |rest| ==> rest[j] == regions[j + 1];
      LastIdentityStays(all, rest, index, next, if k == 0 then |rest| else k - 1);
    }
  }

  /** For every table: a DIMM carries the identity of the last control region of its index, and the
      first nine distinct nonzero codes among all regions that share a serial number with one of
      that index, in the order in which they pile up. */
  lemma DimmOfEveryTable(nfit: Nfit, m: RegionMapping, k: nat)
    requires LastOfIndex(nfit.regions, m.controlRegionIndex, k)
    ensures DimmOf(nfit, m)
         == DimmInfo(m.handle, m.physicalId, m.stateFlag,
                     if k < |nfit.regions| then IdentityOf(nfit.regions[k]) else NO_IDENTITY,
                     Padded(FirstsOf(PiledCodes(nfit.regions, nfit.regions, m.controlRegionIndex), Self), MAX_IFC_COUNT))
  {
    hide Filled, FirstsOf, PiledCodes;
    var d := NO_DIMM.(handle := m.handle, physicalId := m.physicalId, stateFlags := m.stateFlag);
    var piled := PiledCodes(nfit.regions, nfit.regions, m.controlRegionIndex);
    NoFirsts<nat, nat>(Self);
    assert Padded([], MAX_IFC_COUNT) == Zeros(MAX_IFC_COUNT);
    CodesPileUp(nfit.regions, nfit.regions, m.controlRegionIndex, d, []);
    assert [] + piled == piled;
    LastIdentityStays(nfit.regions, nfit.regions, m.controlRegionIndex, d, k);
  }

  /** Two regions with one index: the second gives the identity, and the codes of both are kept. */
  lemma TwoRegionsOneIndex(a: ControlRegion, b: ControlRegion, m: RegionMapping)
    requires a.index == b.index == m.controlRegionIndex && a.serialNumber != b.serialNumber
    requires a.ifc != 0 && b.ifc != 0 && a.ifc != b.ifc
    ensures DimmOf(Nfit([], [m], [a, b]), m)
         == DimmInfo(m.handle, m.physicalId, m.stateFlag, IdentityOf(b), Padded([a.ifc, b.ifc], MAX_IFC_COUNT))
  {
    hide CodesOf, Padded, DimmOf, FirstsOf, IdentityOf;
    var nfit := Nfit([], [m], [a, b]);
    DimmOfEveryTable(nfit, m, 1);
    TwoCodes(a, b, a.serialNumber);
    TwoCodes(a, b, b.serialNumber);
    assert [a, b][1..] == [b] && [b][1..] == [];
    assert PiledCodes([a, b], [b], a.index) == [b.ifc] + PiledCodes([a, b], [], a.index) == [b.ifc];
    assert PiledCodes([a, b], [a, b], a.index) == [a.ifc] + [b.ifc] == [a.ifc, b.ifc];
    TwoFirsts(a.ifc, b.ifc);
  }

  lemma TwoCodes(a: ControlRegion, b: ControlRegion, serial: nat)
    requires a.ifc != 0 && b.ifc != 0
    ensures CodesOf([a, b], serial)
         == (if a.serialNumber == serial then [a.ifc] else []) + (if b.serialNumber == serial then [b.ifc] else [])
  {
    assert [a, b][1..] == [b] && [b][1..] == [];
    assert CodesOf([b], serial) == (if b.serialNumber == serial then [b.ifc] else []) + CodesOf([], serial);
  }

  lemma TwoFirsts(a: nat, b: nat)
    requires a != b
    ensures FirstsOf([a, b], Self) == [a, b]
  {
    NoFirsts<nat, nat>(Self);
    FirstsNext([], Self, a);
    FirstsNext([a], Self, b);
    assert [] + [a] == [a] && [a] + [b] == [a, b];
  }

  predicate UniqueIndices(regions: seq<ControlRegion>) {
    forall i, j :: 0 <= i < j < |regions| ==> regions[i].index != regions[j].index
  }

  lemma {:induction false} PiledOnce(all: seq<ControlRegion>, regions: seq<ControlRegion>, index: nat, k: nat)
    requires UniqueIndices(regions) && k <= |regions|
    requires k < |regions| ==> regions[k].index == index
    requires k == |regions| ==> forall r <- regions :: r.index != index
    ensures PiledCodes(all, regions, index) == if k < |regions| then CodesOf(all, regions[k].serialNumber) else []
    decreases |regions|
  {
    hide CodesOf;
    if regions != [] {
      var rest, r := regions[1..], regions[0];
      if k == 0 {
        forall x | x in rest
          ensures x.index != index
        {
          var i :| 0 <= i < |rest| && rest[i] == x;
          assert regions[i + 1] == x;
        }
        PiledOnce(all, rest, index, |rest|);
        assert CodesOf(all, r.serialNumber) + [] == CodesOf(all, r.serialNumber);
      } else {
        assert r in regions && r.index != index;
        PiledOnce(all, rest, index, k - 1);
      }
    }
  }

  /** With one control region for an index, the DIMM carries its identity, and the first nine
      distinct nonzero codes among all control regions that share its serial number. */
  lemma DimmWithUniqueRegion(nfit: Nfit, m: RegionMapping, k: nat)
    requires UniqueIndices(nfit.regions) && k < |nfit.regions| && nfit.regions[k].index == m.controlRegionIndex
    ensures DimmOf(nfit, m)
         == DimmInfo(m.handle, m.physicalId, m.stateFlag, IdentityOf(nfit.regions[k]),
                     Padded(FirstsOf(CodesOf(nfit.regions, nfit.regions[k].serialNumber), Self), MAX_IFC_COUNT))
  {
    hide DimmOf, FirstsOf, PiledCodes, CodesOf;
    PiledOnce(nfit.regions, nfit.regions, m.controlRegionIndex, k);
    DimmOfEveryTable(nfit, m, k);
  }

  class NfitDimm {
    var handle: nat
    var physicalId: nat
    var stateFlags: nat
    var identity: Identity
    const ifc: array<nat>

    constructor ()
      ensures fresh(ifc) && ifc.Length == MAX_IFC_COUNT && Info() == NO_DIMM
    {
      handle, physicalId, stateFlags, identity := 0, 0, 0, NO_IDENTITY;
      ifc := new nat[MAX_IFC_COUNT](_ => 0);
      new;
      assert ifc[..] == Zeros(MAX_IFC_COUNT);
    }

    function Info(): DimmInfo
      reads this, ifc
    {
      DimmInfo(handle, physicalId, stateFlags, identity, ifc[..])
    }

    /** memset of one element. */
    method Reset()
      requires ifc.Length == MAX_IFC_COUNT
      modifies this, ifc
      ensures Info() == NO_DIMM
    {
      handle, physicalId, stateFlags, identity := 0, 0, 0, NO_IDENTITY;
      for i := 0 to MAX_IFC_COUNT
        invariant Info() == NO_DIMM.(ifc := ifc[..]) && ifc[..i] == Zeros(i)
      {
        ifc[i] := 0;
        assert ifc[..i + 1] == ifc[..i] + [0];
      }
      assert ifc[..] == Zeros(MAX_IFC_COUNT);
    }

    /** The first mapping of the handle, and the control regions with the index it names. */
    method AddInfoFromHandle(nfit: Nfit, handle: nat) returns (result: int)
      modifies this, ifc
      ensures var i := FirstIndex(nfit.mappings, HandleOf, handle);
              && (i == |nfit.mappings| ==> result == ERR_BADNFIT && Info() == old(Info()))
              && (i < |nfit.mappings| ==>
                    var m := nfit.mappings[i];
                    && result == (if HasRegion(nfit.regions, m.controlRegionIndex) then SUCCESS else ERR_BADNFIT)
                    && Info() == Filled(nfit.regions, nfit.regions, m.controlRegionIndex,
                                        old(Info()).(handle := m.handle, physicalId := m.physicalId,
                                                     stateFlags := m.stateFlag)))
    {
      hide Filled, HasRegion;
      result := ERR_BADNFIT;
      for i := 0 to |nfit.mappings|
        invariant forall j :: 0 <= j < i ==> HandleOf(nfit.mappings[j]) != handle
        invariant result == ERR_BADNFIT && Info() == old(Info())
      {
        var m := nfit.mappings[i];
        if m.handle == handle {
          FirstIndexIs(nfit.mappings, HandleOf, handle, i);
          this.handle := handle;
          physicalId := m.physicalId;
          stateFlags := m.stateFlag;
          result := AddControlRegionInfo(nfit.regions, m.controlRegionIndex);
          return;
        }
      }
    }

    method AddIfcToList(code: nat)
      modifies ifc
      ensures ifc[..] == AddIfc(old(ifc[..]), code)
    {
      hide AddIfc;
      ghost var list := ifc[..];
      assert list[..0] + AddIfc(list[0..], code) == AddIfc(list, code);
      for i := 0 to ifc.Length
        invariant ifc[..] == list
        invariant AddIfc(list, code) == list[..i] + AddIfc(list[i..], code)
      {
        AddIfcAt(list, i, code);
        if ifc[i] == code {
          return;
        } else if ifc[i] == 0 {
          ifc[i] := code;
          return;
        }
      }
      NothingLeft(list, code);
    }

    method AddAllFormatCodes(regions: seq<ControlRegion>)
      modifies ifc
      ensures ifc[..] == AddCodes(regions, identity.serialNumber, old(ifc[..]))
    {
      hide AddIfc;
      for i := 0 to |regions|
        invariant AddCodes(regions, identity.serialNumber, old(ifc[..]))
                    == AddCodes(regions[i..], identity.serialNumber, ifc[..])
      {
        assert regions[i..][1..] == regions[i + 1..];
        if regions[i].serialNumber == identity.serialNumber {
          AddIfcToList(regions[i].ifc);
        }
      }
    }

    method AddControlRegionInfo(regions: seq<ControlRegion>, index: nat) returns (result: int)
      modifies this`identity, ifc
      ensures result == if HasRegion(regions, index) then SUCCESS else ERR_BADNFIT
      ensures Info() == Filled(regions, regions, index, old(Info()))
    {
      hide AddCodes;
      result := ERR_BADNFIT;
      for i := 0 to |regions|
        invariant Filled(regions, regions, index, old(Info())) == Filled(regions, regions[i..], index, Info())
        invariant result == if HasRegion(regions[..i], index) then SUCCESS else ERR_BADNFIT
      {
        var r := regions[i];
        assert regions[i..][1..] == regions[i + 1..];
        assert regions[..i + 1] == regions[..i] + [r];
        if r.index == index {
          identity := IdentityOf(r);
          AddAllFormatCodes(regions);
          result := SUCCESS;
        }
      }
      assert regions[..|regions|] == regions;
    }
  }

  // ---------------------------------------------------------------- counting and filling

  method HasMatchingControlRegion(regions: seq<ControlRegion>, index: nat) returns (found: bool)
    ensures found == HasRegion(regions, index)
  {
    for i := 0 to |regions|
      invariant !HasRegion(regions[..i], index)
    {
      if regions[i].index == index {
        return true;
      }
      assert regions[..i + 1] == regions[..i] + [regions[i]];
    }
    assert regions[..|regions|] == regions;
    return false;
  }

  method IsUnique(handle: nat, handles: array<nat>, count: nat) returns (unique: bool)
    requires count <= handles.Length
    ensures unique == (handle !in handles[..count])
  {
    unique := true;
    var j := 0;
    while j < count && unique
      invariant j <= count && unique == (handle !in handles[..j])
    {
      assert handles[..j + 1] == handles[..j] + [handles[j]];
      if handle == handles[j] {
        unique := false;
      }
      j := j + 1;
    }
    if !unique {
      assert handles[..j] <= handles[..count];
    }
  }

  lemma KeyInHandles(mappings: seq<RegionMapping>, handle: nat)
    ensures HasKey(mappings, HandleOf, handle) <==> handle in HandlesOf(mappings)
  {
    if handle in HandlesOf(mappings) {
      var i :| 0 <= i < |mappings| && HandlesOf(mappings)[i] == handle;
      assert HandleOf(mappings[i]) == handle;
    } else {
      forall i | 0 <= i < |mappings|
        ensures HandleOf(mappings[i]) != handle
      {
        assert HandlesOf(mappings)[i] == mappings[i].handle;
      }
    }
  }

  /** The count phase: the distinct handles in the order they first occur. */
  method GetUniqueHandles(nfit: Nfit, handles: array<nat>) returns (count: int)
    requires handles.Length >= |nfit.mappings|
    modifies handles
    ensures count == DimmCount(nfit)
    ensures count >= 0 ==> count <= handles.Length && handles[..count] == HandlesOf(FirstMappings(nfit))
  {
    hide FirstsOf, HasRegion, HasKey;
    var n: nat := 0;
    ghost var firsts: seq<RegionMapping> := [];
    NoFirsts<RegionMapping, nat>(HandleOf);
    for i := 0 to |nfit.mappings|
      invariant n == |firsts| <= i && firsts == FirstsOf(nfit.mappings[..i], HandleOf)
      invariant handles[..n] == HandlesOf(firsts)
      invariant AllMatched(nfit, firsts)
    {
      var m := nfit.mappings[i];
      FirstsNext(nfit.mappings[..i], HandleOf, m);
      assert nfit.mappings[..i] + [m] == nfit.mappings[..i + 1];
      KeyInHandles(firsts, m.handle);
      var unique := IsUnique(m.handle, handles, n);
      if unique {
        var matched := HasMatchingControlRegion(nfit.regions, m.controlRegionIndex);
        if !matched {
          PrefixFirsts(nfit.mappings, HandleOf, i + 1);
          assert FirstMappings(nfit)[n] == m;
          return ERR_BADNFIT;
        }
        handles[n] := m.handle;
        assert handles[..n + 1] == handles[..n] + [m.handle];
        firsts := firsts + [m];
        n := n + 1;
      }
    }
    assert nfit.mappings[..|nfit.mappings|] == nfit.mappings;
    count := n;
  }

  /** The elements of the caller's array: separate structures, each with its own code list. */
  predicate Separate(dimms: seq<NfitDimm>) {
    && (forall d <- dimms :: d.ifc.Length == MAX_IFC_COUNT)
    && forall i, j :: 0 <= i < j < |dimms| ==> dimms[i] != dimms[j] && dimms[i].ifc != dimms[j].ifc
  }

  method ResetAll(dimms: seq<NfitDimm>)
    requires Separate(dimms)
    modifies dimms, set d | d in dimms :: d.ifc
    ensures forall i :: 0 <= i < |dimms| ==> dimms[i].Info() == NO_DIMM
  {
    for i := 0 to |dimms|
      invariant forall j :: 0 <= j < i ==> dimms[j].Info() == NO_DIMM
    {
      dimms[i].Reset();
    }
  }

  /** The first mapping of each handle is the one a search for that handle finds, and the count
      phase has checked its control region. */
  lemma FillFinds(nfit: Nfit, i: nat)
    requires i < |FirstMappings(nfit)| && AllMatched(nfit, FirstMappings(nfit))
    ensures var m := FirstMappings(nfit)[i];
            var k := FirstIndex(nfit.mappings, HandleOf, m.handle);
            k < |nfit.mappings| && nfit.mappings[k] == m && HasRegion(nfit.regions, m.controlRegionIndex)
  {
    hide FirstsOf, FirstIndex, HasRegion;
    InOrder(nfit.mappings, HandleOf);
    var m := FirstMappings(nfit)[i];
    assert HandleOf(m) == m.handle;
    assert m in FirstMappings(nfit);
  }

  /** The fill phase. */
  method FillAll(nfit: Nfit, dimms: seq<NfitDimm>, handles: array<nat>, count: nat) returns (result: int)
    requires Separate(dimms) && count <= |dimms| && count <= handles.Length
    requires forall d <- dimms :: d.Info() == NO_DIMM
    requires AllMatched(nfit, FirstMappings(nfit)) && handles[..count] == HandlesOf(FirstMappings(nfit))
    requires forall d <- dimms :: (d.ifc as object) != handles
    modifies dimms, set d | d in dimms :: d.ifc
    ensures result == count
    ensures forall i :: 0 <= i < |dimms| ==>
              dimms[i].Info() == if i < count then DimmOf(nfit, FirstMappings(nfit)[i]) else NO_DIMM
  {
    hide Filled, FirstsOf, HasRegion, FirstIndex;
    result := count;
    assert count == |FirstMappings(nfit)|;
    for i := 0 to count
      invariant result == count && handles[..count] == HandlesOf(FirstMappings(nfit))
      invariant forall j :: 0 <= j < |dimms| ==>
                  dimms[j].Info() == if j < i then DimmOf(nfit, FirstMappings(nfit)[j]) else NO_DIMM
    {
      FillFinds(nfit, i);
      assert handles[i] == handles[..count][i];
      var added := dimms[i].AddInfoFromHandle(nfit, handles[i]);
      if added != SUCCESS {
        return added;
      }
    }
  }

  /** With room for all, the fill phase succeeds whenever the count phase has. A negative count is bad
      input, unless the table is bad and the count happens not to be below the error code: then the
      source would clear memory of a negative size, which `overrun` says. */
  method GetDimms(count: int, isNull: bool, dimms: seq<NfitDimm>, nfit: Nfit) returns (result: int, overrun: bool)
    requires Separate(dimms) && (!isNull && count >= 0 ==> |dimms| == count)
    modifies dimms, set d | d in dimms :: d.ifc
    ensures overrun <==> nfit.mappings != [] && !isNull && DimmCount(nfit) <= count < 0
    ensures nfit.mappings == [] ==> result == 0
    ensures nfit.mappings != [] && count == 0 ==> result == DimmCount(nfit)
    ensures nfit.mappings != [] && count != 0 && (count < DimmCount(nfit) || isNull) ==> result == ERR_BADINPUT
    ensures nfit.mappings != [] && count > 0 && !(count < DimmCount(nfit) || isNull) ==>
              && result == DimmCount(nfit)
              && forall i :: 0 <= i < |dimms| ==>
                   dimms[i].Info() == if i < result then DimmOf(nfit, FirstMappings(nfit)[i]) else NO_DIMM
  {
    hide DimmOf, FirstsOf, HasRegion;
    result, overrun := 0, false;
    if nfit.mappings != [] {
      var handles := new nat[|nfit.mappings|](_ => 0);
      result := GetUniqueHandles(nfit, handles);
      if count != 0 {
        if count < result || isNull {
          result := ERR_BADINPUT;
        } else if count < 0 {
          overrun := true;
        } else {
          ResetAll(dimms);
          if result > 0 {
            result := FillAll(nfit, dimms, handles, result);
          }
        }
      }
    }
  }

  /** Such a table and such a count: no control region at all, and one less than nothing asked for. */
  lemma NegativeCount(m: RegionMapping)
    ensures var nfit := Nfit([], [m], []);
            nfit.mappings != [] && DimmCount(nfit) <= -1 < 0
  {
    var nfit := Nfit([], [m], []);
    NoFirsts<RegionMapping, nat>(HandleOf);
    FirstsNext([], HandleOf, m);
    assert [] + [m] == [m];
    assert m in FirstMappings(nfit);
  }
}
