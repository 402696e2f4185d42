/** The scan state machine of include/MemoryScanner.h and src/MemoryScanner.cpp. */
module MemoryScanner {
  import opened Common
  import opened MemoryStructs
  import opened MemoryAccess
  import opened MemoryFuncs

  /** Narrows a set of addresses over successive scans, with an undo depth of one. */
  class MemoryScanner {
    var undoFlag: bool
    var scanStarted: bool
    var pid: int
    var currScan: seq<MemAddress>
    var prevScan: seq<MemAddress>

    /** What every operation keeps: before the first scan both sets are
        empty; right after an undo the two sets are equal; and whenever a
        previous set is kept, the current set was narrowed from it. */
    predicate Valid()
      reads this
    {
      && (!scanStarted ==> currScan == [] && prevScan == [])
      && (undoFlag ==> currScan == prevScan)
      && (prevScan != [] ==> IsSubsequence(currScan, prevScan))
    }

    /** The pid is left as it is: the C++ constructor does not set it. */
    constructor()
      ensures Valid()
      ensures !undoFlag && !scanStarted && currScan == [] && prevScan == []
    {
      undoFlag := false;
      scanStarted := false;
      currScan := [];
      prevScan := [];
    }

    method Clear()
      modifies this
      ensures Valid()
      ensures currScan == [] && prevScan == [] && !undoFlag && !scanStarted
      ensures pid == old(pid)
    {
      currScan := [];
      prevScan := [];
      undoFlag := false;
      scanStarted := false;
    }

    /** Restores the set before the last NextScan, once. */
    method Undo() returns (o: Outcome)
      requires Valid()
      modifies this
      ensures Valid()
      ensures old(prevScan) == [] ==> o == Fail(Exc(RuntimeError, "Nothing to undo.")) && unchanged(this)
      ensures old(prevScan) != [] && old(undoFlag) ==>
        o == Fail(Exc(RuntimeError, "Undo has already been called.")) && unchanged(this)
      ensures old(prevScan) != [] && !old(undoFlag) ==>
        && o == Done && currScan == old(prevScan) && undoFlag
        && prevScan == old(prevScan) && scanStarted == old(scanStarted) && pid == old(pid)
    {
      if |prevScan| == 0 {
        return Fail(Exc(RuntimeError, "Nothing to undo."));
      } else if undoFlag {
        return Fail(Exc(RuntimeError, "Undo has already been called."));
      } else {
        SubsequenceRefl(prevScan);
        currScan := prevScan;
        undoFlag := true;
        return Done;
      }
    }

    /** Records the pid, then behaves exactly as Clear. */
    method SetPid(newPid: int)
      modifies this
      ensures Valid()
      ensures pid == newPid
      ensures currScan == [] && prevScan == [] && !undoFlag && !scanStarted
    {
      pid := newPid;
      Clear();
    }

    function GetCurrScanVector(): seq<MemAddress>
      reads this
    {
      currScan
    }

    function GetScanStartedFlag(): bool
      reads this
    {
      scanStarted
    }

    /** The first scan: searches the given regions. Refused once a scan has
        begun, leaving everything as it was. */
    method NewScan(sys: ReadSyscall, memRegions: seq<MemRegion>, q: Query) returns (r: Result<nat>)
      requires Valid() && q.Valid()
      modifies this
      ensures Valid()
      ensures old(scanStarted) ==>
        r == Err(Exc(RuntimeError, "Incorrect call to NewScan after a scan has already begun.")) && unchanged(this)
      ensures !old(scanStarted) ==>
        && currScan == SearchRegions(sys, pid, memRegions, q)
        && !undoFlag && scanStarted
        && prevScan == old(prevScan) && pid == old(pid)
        && r == Ok(|currScan|)
    {
      if scanStarted {
        return Err(Exc(RuntimeError, "Incorrect call to NewScan after a scan has already begun."));
      }
      currScan := FindDataInRegions(sys, pid, memRegions, q);
      undoFlag := false;
      scanStarted := true;
      return Ok(|currScan|);
    }

    /** A later scan: re-checks the current set and keeps the set it
        started from as the one to undo to. It does not check scanStarted. */
    method NextScan(sys: ReadSyscall, q: Query) returns (n: nat)
      requires Valid() && q.Valid()
      requires NoShortRereads(sys, pid, q.dataSize, currScan)
      modifies this
      ensures Valid()
      ensures currScan == FilterAddresses(sys, pid, old(currScan), q)
      ensures IsSubsequence(currScan, old(currScan)) && |currScan| <= |old(currScan)|
      ensures prevScan == old(currScan) && !undoFlag
      ensures scanStarted == old(scanStarted) && pid == old(pid)
      ensures n == |currScan|
    {
      var temporary := currScan;
      currScan := FindDataInAddresses(sys, pid, currScan, q);
      FilterIsSubsequence(sys, pid, temporary, q);
      prevScan := temporary;
      undoFlag := false;
      return |currScan|;
    }
  }
}
