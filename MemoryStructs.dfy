/** The records of include/MemoryStructs.h. */
module MemoryStructs {

  /** The four permission letters of a maps line, as flags. */
  datatype MemRegionPerms = MemRegionPerms(readFlag: bool, writeFlag: bool, executeFlag: bool, sharedFlag: bool)

  /** One mapped region of the target process. Addresses are unsigned longs. */
  datatype MemRegion = MemRegion(
    addressRangeStr: string,
    startAddr: nat,
    endAddr: nat,
    rangeLength: nat,
    permsStr: string,
    perms: MemRegionPerms,
    pathName: string)

  /** An absolute address together with the region it was found in. */
  datatype MemAddress = MemAddress(address: nat, memRegion: MemRegion)
}
