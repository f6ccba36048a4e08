/** The memory map: resolved instruction words appended one per instruction,
    so that each word's address is its index. */
module Memory {
  import opened Diagnostics

  /** One printed memory-map line: an address and the word stored there. */
  datatype MemLine = MemLine(addr: nat, info: MemInfo)

  class MemMap {
    var memMap: seq<MemInfo>

    constructor ()
      ensures memMap == []
    {
      memMap := [];
    }

    /** Appends one resolved word; nothing already in the map changes. */
    method AllocateMem(val: int, err: Wrappers.Option<LinkError>, sym: string)
      modifies this
      ensures memMap == old(memMap) + [MemInfo(val, err, sym)]
    {
      memMap := memMap + [MemInfo(val, err, sym)];
    }

    /** The line printed right after an append: the newest word, at the
        address equal to its index. */
    function Print(): (line: MemLine)
      reads this
      requires memMap != []
      ensures line.addr == |memMap| - 1 && line.info == memMap[line.addr]
    {
      MemLine(|memMap| - 1, memMap[|memMap| - 1])
    }
  }
}
