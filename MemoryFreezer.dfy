/** The freezer of src/MemoryFreezer.cpp: a list of frozen addresses, a
    counter of enabled ones, and a worker that keeps rewriting them. */
module MemoryFreezer {
  import opened Common
  import opened MemoryStructs
  import opened MemoryAccess

  /** include/MemoryFreezer.h: an address, whether it is frozen, the two
      texts shown to the user, and the bytes rewritten to it. */
  datatype FrozenMemAddress = FrozenMemAddress(
    memAddress: MemAddress,
    enabled: bool,
    typeStr: string,
    dataStr: string,
    data: seq<byte>)

  /** The number of enabled entries. */
  function EnabledCount(s: seq<FrozenMemAddress>): (n: nat)
    ensures n <= |s|
  {
    if s == [] then 0 else EnabledCount(s[..|s| - 1]) + (if s[|s| - 1].enabled then 1 else 0)
  }

  /** `s` with all flags set to `flag`, everything else kept. */
  predicate AllFlagged(s: seq<FrozenMemAddress>, flag: bool) {
    forall k :: 0 <= k < |s| ==> s[k].enabled == flag
  }

  /** `t` differs from `s` at most in the flags. */
  predicate SameButFlags(s: seq<FrozenMemAddress>, t: seq<FrozenMemAddress>) {
    |s| == |t| && forall k :: 0 <= k < |s| ==> t[k] == s[k].(enabled := t[k].enabled)
  }

  lemma {:induction false} EnabledCountAppend(s: seq<FrozenMemAddress>, e: FrozenMemAddress)
    ensures EnabledCount(s + [e]) == EnabledCount(s) + (if e.enabled then 1 else 0)
  {
    assert (s + [e])[..|s|] == s;
  }

  lemma {:induction false} EnabledCountConcat(s: seq<FrozenMemAddress>, t: seq<FrozenMemAddress>)
    ensures EnabledCount(s + t) == EnabledCount(s) + EnabledCount(t)
    decreases |t|
  {
    if t == [] {
      assert s + t == s;
    } else {
      var t' := t[..|t| - 1];
      assert s + t == (s + t') + [t[|t| - 1]];
      assert t == t' + [t[|t| - 1]];
      EnabledCountAppend(s + t', t[|t| - 1]);
      EnabledCountAppend(t', t[|t| - 1]);
      EnabledCountConcat(s, t');
    }
  }

  /** Removing entry `i` removes its contribution to the count. */
  lemma EnabledCountRemove(s: seq<FrozenMemAddress>, i: nat)
    requires i < |s|
    ensures EnabledCount(s[..i] + s[i + 1..]) == EnabledCount(s) - (if s[i].enabled then 1 else 0)
  {
    var before, after := s[..i], s[i + 1..];
    assert s[..i + 1] == before + [s[i]];
    assert s == (before + [s[i]]) + after;
    EnabledCountConcat(before + [s[i]], after);
    EnabledCountConcat(before, after);
    EnabledCountAppend(before, s[i]);
  }

  /** Setting the flag of entry `i` moves the count by one exactly when the
      flag changes. */
  lemma EnabledCountUpdate(s: seq<FrozenMemAddress>, i: nat, flag: bool)
    requires i < |s|
    ensures EnabledCount(s[i := s[i].(enabled := flag)])
      == EnabledCount(s) - (if s[i].enabled then 1 else 0) + (if flag then 1 else 0)
  {
    var t := s[i := s[i].(enabled := flag)];
    assert t == s[..i] + [t[i]] + s[i + 1..];
    assert s == s[..i] + [s[i]] + s[i + 1..];
    EnabledCountConcat(s[..i] + [t[i]], s[i + 1..]);
    EnabledCountConcat(s[..i] + [s[i]], s[i + 1..]);
    EnabledCountAppend(s[..i], t[i]);
    EnabledCountAppend(s[..i], s[i]);
  }

  /** A list whose flags are all `flag` counts all or none of its entries. */
  lemma {:induction false} EnabledCountAllFlagged(s: seq<FrozenMemAddress>, flag: bool)
    requires AllFlagged(s, flag)
    ensures EnabledCount(s) == if flag then |s| else 0
  {
    if s != [] {
      EnabledCountAllFlagged(s[..|s| - 1], flag);
    }
  }

  class MemoryFreezer {
    var enabledAddressesAmount: int
    var threadRunning: bool
    var pid: int
    var frozenAddresses: seq<FrozenMemAddress>
    /** The worker's position in the list; |frozenAddresses| is end(). */
    var cursor: nat
    /** The worker's message queue, oldest first. */
    var messageQueue: seq<string>

    /** The counter agrees with the list. */
    predicate CounterExact()
      reads this
    {
      enabledAddressesAmount == EnabledCount(frozenAddresses)
    }

    predicate CursorInRange()
      reads this
    {
      cursor <= |frozenAddresses|
    }

    constructor()
      ensures enabledAddressesAmount == 0 && !threadRunning && pid == 0
      ensures frozenAddresses == [] && messageQueue == [] && cursor == 0
      ensures CounterExact() && CursorInRange()
    {
      enabledAddressesAmount := 0;
      threadRunning := false;
      pid := 0;
      frozenAddresses := [];
      cursor := 0;
      messageQueue := [];
    }

    /** Starts the worker only when none runs and the counter is positive;
        the worker begins at the front of the list. */
    method StartThreadLoopIfNeeded()
      modifies this
      ensures threadRunning == (old(threadRunning) || old(enabledAddressesAmount) > 0)
      ensures !old(threadRunning) && old(enabledAddressesAmount) > 0 ==> cursor == 0
      ensures old(threadRunning) || old(enabledAddressesAmount) <= 0 ==> cursor == old(cursor)
      ensures enabledAddressesAmount == old(enabledAddressesAmount) && pid == old(pid)
      ensures frozenAddresses == old(frozenAddresses) && messageQueue == old(messageQueue)
    {
      if !threadRunning && enabledAddressesAmount > 0 {
        threadRunning := true;
        cursor := 0;
      }
    }

    /** Appends one enabled entry and counts it. */
    method AddAddress(address: MemAddress, typeStr: string, dataStr: string, data: seq<byte>)
      requires CursorInRange()
      modifies this
      ensures frozenAddresses == old(frozenAddresses) + [FrozenMemAddress(address, true, typeStr, dataStr, data)]
      ensures enabledAddressesAmount == old(enabledAddressesAmount) + 1
      ensures CounterExact() == old(CounterExact())
      ensures threadRunning == (old(threadRunning) || enabledAddressesAmount > 0)
      ensures cursor == (if !old(threadRunning) && enabledAddressesAmount > 0 then 0 else old(cursor))
      ensures CursorInRange() && pid == old(pid) && messageQueue == old(messageQueue)
    {
      var frozenAddr := FrozenMemAddress(address, true, typeStr, dataStr, data);
      EnabledCountAppend(frozenAddresses, frozenAddr);
      frozenAddresses := frozenAddresses + [frozenAddr];
      enabledAddressesAmount := enabledAddressesAmount + 1;
      StartThreadLoopIfNeeded();
    }

    /** Erases entry `index` and always decrements the counter, so the
        counter stays exact only when the erased entry was enabled. An index
        past the end is refused; the index equal to the size passes the
        guard, which is undefined in C++ and excluded here. */
    method RemoveAddress(index: nat) returns (o: Outcome)
      requires CursorInRange()
      requires index != |frozenAddresses|
      modifies this
      ensures index > old(|frozenAddresses|) ==>
        o == Fail(Exc(RuntimeError, "Index out of bounds.")) && unchanged(this)
      ensures index < old(|frozenAddresses|) ==>
        && o == Done
        && frozenAddresses == old(frozenAddresses[..index] + frozenAddresses[index + 1..])
        && enabledAddressesAmount == old(enabledAddressesAmount) - 1
        && (old(CounterExact()) ==> (CounterExact() <==> old(frozenAddresses[index].enabled)))
        && cursor == (if index < old(cursor) then old(cursor) - 1 else old(cursor))
      ensures CursorInRange() && threadRunning == old(threadRunning) && pid == old(pid)
      ensures messageQueue == old(messageQueue)
    {
      if index > |frozenAddresses| {
        return Fail(Exc(RuntimeError, "Index out of bounds."));
      }
      EnabledCountRemove(frozenAddresses, index);
      frozenAddresses := frozenAddresses[..index] + frozenAddresses[index + 1..];
      enabledAddressesAmount := enabledAddressesAmount - 1;
      if index < cursor {
        cursor := cursor - 1;
      }
      return Done;
    }

    method RemoveAllAddresses()
      modifies this
      ensures frozenAddresses == [] && enabledAddressesAmount == 0 && cursor == 0
      ensures CounterExact() && CursorInRange()
      ensures threadRunning == old(threadRunning) && pid == old(pid) && messageQueue == old(messageQueue)
    {
      frozenAddresses := [];
      enabledAddressesAmount := 0;
      cursor := 0;
    }

    /** Sets the flag of entry `index` and always increments the counter,
        so the counter stays exact only when the entry was disabled. */
    method EnableAddress(index: nat) returns (o: Outcome)
      requires CursorInRange()
      requires index != |frozenAddresses|
      modifies this
      ensures index > old(|frozenAddresses|) ==>
        o == Fail(Exc(RuntimeError, "Index out of bounds.")) && unchanged(this)
      ensures index < old(|frozenAddresses|) ==>
        && o == Done
        && frozenAddresses == old(frozenAddresses[index := frozenAddresses[index].(enabled := true)])
        && enabledAddressesAmount == old(enabledAddressesAmount) + 1
        && (old(CounterExact()) ==> (CounterExact() <==> !old(frozenAddresses[index].enabled)))
        && threadRunning == (old(threadRunning) || enabledAddressesAmount > 0)
        && cursor == (if !old(threadRunning) && enabledAddressesAmount > 0 then 0 else old(cursor))
      ensures CursorInRange() && pid == old(pid) && messageQueue == old(messageQueue)
    {
      if index > |frozenAddresses| {
        return Fail(Exc(RuntimeError, "Index out of bounds."));
      }
      EnabledCountUpdate(frozenAddresses, index, true);
      frozenAddresses := frozenAddresses[index := frozenAddresses[index].(enabled := true)];
      enabledAddressesAmount := enabledAddressesAmount + 1;
      StartThreadLoopIfNeeded();
      return Done;
    }

    /** Clears the flag of entry `index` and always decrements the counter,
        so the counter stays exact only when the entry was enabled. */
    method DisableAddress(index: nat) returns (o: Outcome)
      requires CursorInRange()
      requires index != |frozenAddresses|
      modifies this
      ensures index > old(|frozenAddresses|) ==>
        o == Fail(Exc(RuntimeError, "Index out of bounds.")) && unchanged(this)
      ensures index < old(|frozenAddresses|) ==>
        && o == Done
        && frozenAddresses == old(frozenAddresses[index := frozenAddresses[index].(enabled := false)])
        && enabledAddressesAmount == old(enabledAddressesAmount) - 1
        && (old(CounterExact()) ==> (CounterExact() <==> old(frozenAddresses[index].enabled)))
      ensures CursorInRange() && threadRunning == old(threadRunning) && pid == old(pid)
      ensures cursor == old(cursor) && messageQueue == old(messageQueue)
    {
      if index > |frozenAddresses| {
        return Fail(Exc(RuntimeError, "Index out of bounds."));
      }
      EnabledCountUpdate(frozenAddresses, index, false);
      frozenAddresses := frozenAddresses[index := frozenAddresses[index].(enabled := false)];
      enabledAddressesAmount := enabledAddressesAmount - 1;
      return Done;
    }

    /** Enables every disabled entry, counting each one it enables: the
        counter grows by the number of entries that were disabled, so it is
        exact afterwards exactly when it was exact before. */
    method EnableAllAddresses()
      requires CursorInRange()
      modifies this
      ensures SameButFlags(old(frozenAddresses), frozenAddresses) && AllFlagged(frozenAddresses, true)
      ensures enabledAddressesAmount
        == old(enabledAddressesAmount) + (old(|frozenAddresses|) - old(EnabledCount(frozenAddresses)))
      ensures CounterExact() == old(CounterExact())
      ensures threadRunning == (old(threadRunning) || enabledAddressesAmount > 0)
      ensures cursor == (if !old(threadRunning) && enabledAddressesAmount > 0 then 0 else old(cursor))
      ensures CursorInRange() && pid == old(pid) && messageQueue == old(messageQueue)
    {
      ghost var before := frozenAddresses;
      var it := 0;
      while it < |frozenAddresses|
        invariant 0 <= it <= |frozenAddresses| == |before|
        invariant SameButFlags(before, frozenAddresses)
        invariant forall k :: 0 <= k < it ==> frozenAddresses[k].enabled
        invariant forall k :: it <= k < |before| ==> frozenAddresses[k] == before[k]
        invariant enabledAddressesAmount
          == old(enabledAddressesAmount) + (it - EnabledCount(before[..it]))
        invariant cursor == old(cursor) && pid == old(pid) && messageQueue == old(messageQueue)
        invariant threadRunning == old(threadRunning)
      {
        EnabledCountAppend(before[..it], before[it]);
        assert before[..it + 1] == before[..it] + [before[it]];
        if !frozenAddresses[it].enabled {
          frozenAddresses := frozenAddresses[it := frozenAddresses[it].(enabled := true)];
          enabledAddressesAmount := enabledAddressesAmount + 1;
        }
        it := it + 1;
      }
      assert before[..it] == before;
      EnabledCountAllFlagged(frozenAddresses, true);
      StartThreadLoopIfNeeded();
    }

    /** Disables every entry and zeroes the counter, which makes it exact. */
    method DisableAllAddresses()
      requires CursorInRange()
      modifies this
      ensures SameButFlags(old(frozenAddresses), frozenAddresses) && AllFlagged(frozenAddresses, false)
      ensures enabledAddressesAmount == 0 && CounterExact()
      ensures CursorInRange() && threadRunning == old(threadRunning) && pid == old(pid)
      ensures cursor == old(cursor) && messageQueue == old(messageQueue)
    {
      ghost var before := frozenAddresses;
      var it := 0;
      while it < |frozenAddresses|
        invariant 0 <= it <= |frozenAddresses| == |before|
        invariant SameButFlags(before, frozenAddresses)
        invariant AllFlagged(frozenAddresses[..it], false)
        invariant cursor == old(cursor) && pid == old(pid) && messageQueue == old(messageQueue)
        invariant threadRunning == old(threadRunning)
      {
        frozenAddresses := frozenAddresses[it := frozenAddresses[it].(enabled := false)];
        assert frozenAddresses[..it + 1] == frozenAddresses[..it] + [frozenAddresses[it]];
        it := it + 1;
      }
      assert frozenAddresses[..it] == frozenAddresses;
      enabledAddressesAmount := 0;
      EnabledCountAllFlagged(frozenAddresses, false);
    }

    function GetFrozenAddresses(): seq<FrozenMemAddress>
      reads this
    {
      frozenAddresses
    }

    function GetEnabledAddressesAmount(): int
      reads this
    {
      enabledAddressesAmount
    }

    /** Records the pid and forgets every entry. */
    method SetPid(newPid: int)
      modifies this
      ensures pid == newPid && frozenAddresses == [] && enabledAddressesAmount == 0 && cursor == 0
      ensures CounterExact() && CursorInRange()
      ensures threadRunning == old(threadRunning) && messageQueue == old(messageQueue)
    {
      pid := newPid;
      frozenAddresses := [];
      enabledAddressesAmount := 0;
      cursor := 0;
    }

    /** One pass of the worker's loop. It stops, clearing the running flag,
        once the counter is not positive. Otherwise it wraps to the front at
        the end of the list, rewrites the entry there if it is enabled, and
        moves on. A failed or partial write disables that entry alone and
        queues one message, without touching the counter. Reaching an entry
        of an empty list is undefined in C++ and excluded here. */
    method WorkerStep(sys: WriteSyscall) returns (stopped: bool)
      requires threadRunning && CursorInRange()
      requires enabledAddressesAmount > 0 ==> frozenAddresses != []
      modifies this
      ensures stopped <==> old(enabledAddressesAmount) <= 0
      ensures stopped ==> !threadRunning && unchanged(`frozenAddresses, `cursor, `messageQueue)
      ensures !stopped ==> threadRunning && WorkerWrote(sys, old(pid), old(frozenAddresses),
        (if old(cursor) == old(|frozenAddresses|) then 0 else old(cursor)),
        old(messageQueue), frozenAddresses, messageQueue)
      ensures !stopped ==> cursor == (if old(cursor) == old(|frozenAddresses|) then 0 else old(cursor)) + 1
      ensures !stopped ==> 1 <= cursor <= |frozenAddresses|
      ensures enabledAddressesAmount == old(enabledAddressesAmount) && pid == old(pid)
      ensures EnabledCount(frozenAddresses) <= old(EnabledCount(frozenAddresses))
      ensures CursorInRange()
    {
      if enabledAddressesAmount <= 0 {
        threadRunning := false;
        return true;
      }
      if cursor == |frozenAddresses| {
        cursor := 0;
      }
      var entry := frozenAddresses[cursor];
      if entry.enabled {
        var data := entry.data;
        var dataSize := |data|;
        var written := WriteToProcessMemory(sys, pid, entry.memAddress.address, data);
        match written
        case Ok(nread) =>
          if nread != dataSize {
            var msg := PartialWriteMessage(entry.memAddress.address, nread, dataSize);
            messageQueue := messageQueue + [msg];
            EnabledCountUpdate(frozenAddresses, cursor, false);
            frozenAddresses := frozenAddresses[cursor := entry.(enabled := false)];
          }
        case Err(e) =>
          var msg := WriteErrorMessage(entry.memAddress.address, e.what);
          messageQueue := messageQueue + [msg];
          EnabledCountUpdate(frozenAddresses, cursor, false);
          frozenAddresses := frozenAddresses[cursor := entry.(enabled := false)];
      }
      cursor := cursor + 1;
      return false;
    }
  }

  function PartialWriteMessage(address: nat, nwritten: int, size: nat): string {
    "WARNING: Disabling address " + HexAddress(address) + " due to a partial write of "
      + DecimalString(nwritten) + "/" + DecimalString(size) + "."
  }

  function WriteErrorMessage(address: nat, what: string): string {
    "Error writing to memory location " + HexAddress(address) + ": " + what
  }

  /** What the worker does at position `at` of list `s`: a disabled entry is
      left alone; an enabled one is rewritten, and when the write throws or
      is partial, that entry alone is disabled and one message is queued. */
  ghost predicate WorkerWrote(sys: WriteSyscall, pid: int, s: seq<FrozenMemAddress>, at: nat,
                               queue: seq<string>, s': seq<FrozenMemAddress>, queue': seq<string>)
  {
    at < |s| &&
    var e := s[at];
    if !e.enabled then s' == s && queue' == queue
    else match WriteToProcessMemory(sys, pid, e.memAddress.address, e.data)
      case Err(x) =>
        s' == s[at := e.(enabled := false)] && queue' == queue + [WriteErrorMessage(e.memAddress.address, x.what)]
      case Ok(n) =>
        if n == |e.data| then s' == s && queue' == queue
        else s' == s[at := e.(enabled := false)] && queue' == queue + [PartialWriteMessage(e.memAddress.address, n, |e.data|)]
  }
}
