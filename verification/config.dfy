/** TimSortConfig: the three tunables of one sort call. */
module Config {

  /** Capacity of the pending-run stack, initial galloping threshold, and the
      length of the scratch buffer allocated up front. */
  datatype TimSortConfig = TimSortConfig(maxMergePending: int, minGallop: int, mergeStateTempSize: int)

  /** `new TimSortConfig()`: the documented defaults. */
  function DefaultConfig(): (c: TimSortConfig)
    ensures c.maxMergePending == 85
    ensures c.minGallop == 7
    ensures c.mergeStateTempSize == 256
  {
    TimSortConfig(85, 7, 256)
  }

  /** `new TimSortConfig(maxMergePending, minGallop, mergeStateTempSize)`:
      each argument is stored unchanged. */
  function MakeConfig(maxMergePending: int, minGallop: int, mergeStateTempSize: int): (c: TimSortConfig)
    ensures c.maxMergePending == maxMergePending
    ensures c.minGallop == minGallop
    ensures c.mergeStateTempSize == mergeStateTempSize
  {
    TimSortConfig(maxMergePending, minGallop, mergeStateTempSize)
  }
}
