/** The structures of the NVDIMM firmware interface table, section 5.2.25 of ACPI 6.2. */
module NfitTables {
  import opened LittleEndian

  /** Result codes; counts are returned in the same integer. */
  const SUCCESS: int := 0
  const ERR_BADNFIT: int := -3
  const ERR_BADINPUT: int := -5

  const HEADER_SIZE: nat := 40

  const HEADER: Layout := [4, 4, 1, 1, 6, 8, 4, 4, 4, 4]
  const SPA: Layout := [2, 2, 2, 2, 4, 4, 16, 8, 8, 8]
  const REGION_MAPPING: Layout := [2, 2, 4, 2, 2, 2, 2, 8, 8, 8, 2, 2, 2, 2]
  const INTERLEAVE: Layout := [2, 2, 2, 2, 4, 4]
  const SMBIOS_MANAGEMENT_INFO: Layout := [2, 2, 4]
  const CONTROL_REGION: Layout := [2, 2, 2, 2, 2, 2, 2, 2, 2, 1, 1, 2, 2, 4, 2, 2, 8, 8, 8, 8, 8, 2, 6]
  const BLOCK_DATA_WINDOW_REGION: Layout := [2, 2, 2, 2, 8, 8, 8, 8]
  const FLUSH_HINT_ADDRESS: Layout := [2, 2, 4, 2, 6]

  const KNOWN_TYPES: nat := 7

  /** The structure for each known type; all begin with type and length. */
  function LayoutOf(kind: nat): (layout: Layout)
    requires kind < KNOWN_TYPES
    ensures |layout| >= 2 && layout[0] == 2 && layout[1] == 2
  {
    match kind
    case 0 => SPA
    case 1 => REGION_MAPPING
    case 2 => INTERLEAVE
    case 3 => SMBIOS_MANAGEMENT_INFO
    case 4 => CONTROL_REGION
    case 5 => BLOCK_DATA_WINDOW_REGION
    case _ => FLUSH_HINT_ADDRESS
  }

  lemma HeaderSize()
    ensures SizeOf(HEADER) == HEADER_SIZE
  {
  }

  lemma SpaSize()
    ensures SizeOf(SPA) == 56
  {
  }

  // ---------------------------------------------------------------- the fields that are looked at

  /** A system physical address range. The range type is its GUID as one number. */
  datatype Spa = Spa(rangeIndex: nat, proximityDomain: nat, rangeType: nat, base: nat, length: nat, attributes: nat)

  datatype RegionMapping = RegionMapping(
    handle: nat, physicalId: nat, spaIndex: nat, controlRegionIndex: nat,
    regionSize: nat, regionOffset: nat, physicalAddressBase: nat, stateFlag: nat)

  datatype ControlRegion = ControlRegion(
    index: nat, vendorId: nat, deviceId: nat, revisionId: nat,
    subsystemVendorId: nat, subsystemDeviceId: nat, subsystemRevisionId: nat,
    validFields: nat, manufacturingLocation: nat, manufacturingDate: nat,
    serialNumber: nat, ifc: nat)

  function AsSpa(r: Record): Spa
    requires |r| == |SPA|
  {
    Spa(r[2], r[5], r[6], r[7], r[8], r[9])
  }

  function AsRegionMapping(r: Record): RegionMapping
    requires |r| == |REGION_MAPPING|
  {
    RegionMapping(r[2], r[3], r[5], r[6], r[7], r[8], r[9], r[12])
  }

  function AsControlRegion(r: Record): ControlRegion
    requires |r| == |CONTROL_REGION|
  {
    ControlRegion(r[2], r[3], r[4], r[5], r[6], r[7], r[8], r[9], r[10], r[11], r[13], r[14])
  }
}
