/** The cross-process transfer wrappers of src/MemoryFuncs.cpp over the Linux
    calls process_vm_readv(2) and process_vm_writev(2), which are parameters. */
module MemoryAccess {
  import opened Common

  /** Linux errno values the wrappers recognise. */
  const EPERM: int := 1
  const ESRCH: int := 3
  const ENOMEM: int := 12
  const EFAULT: int := 14
  const EINVAL: int := 22

  const KnownErrnos: set<int> := {EFAULT, EINVAL, ENOMEM, EPERM, ESRCH}

  /** The message thrown when a transfer call fails with `err`. */
  function GetErrorMessage(err: int): string {
    if err == EFAULT then "Memory address is outside the accessible space of the process."
    else if err == EINVAL then "Invalid arguments."
    else if err == ENOMEM then "Failed to allocate memory for iovec structures."
    else if err == EPERM then "Permission denied."
    else if err == ESRCH then "Invalid PID (process doesn't exist)."
    else "Unknown error."
  }

  /** The five recognised codes have five distinct messages, none of which is
      the fallback; every other code gets the fallback. */
  lemma ErrorMessagesDistinct(e1: int, e2: int)
    ensures e1 in KnownErrnos && e2 in KnownErrnos && e1 != e2 ==> GetErrorMessage(e1) != GetErrorMessage(e2)
    ensures e1 in KnownErrnos ==> GetErrorMessage(e1) != "Unknown error."
    ensures e1 !in KnownErrnos ==> GetErrorMessage(e1) == "Unknown error."
  {
  }

  // ---------------------------------------------------------------------
  // process_vm_readv

  /** What one process_vm_readv call of `len` bytes leaves behind: its return
      value, errno, and the local buffer of `len` bytes it filled. */
  datatype SysRead = SysRead(nread: int, errno: int, buffer: seq<byte>)

  /** The kernel never reports more bytes than were asked for, and the local
      buffer has the requested size. */
  ghost predicate KernelReadContract(f: (int, nat, nat) -> SysRead) {
    forall pid: int, addr: nat, len: nat {:trigger f(pid, addr, len)} ::
      f(pid, addr, len).nread <= len && |f(pid, addr, len).buffer| == len
  }

  /** process_vm_readv(pid, [buffer of len], [addr, len]) as an oracle. */
  type ReadSyscall = f: (int, nat, nat) -> SysRead | KernelReadContract(f)
    witness (pid: int, addr: nat, len: nat) => SysRead(-1, EFAULT, seq(len, _ => 0))

  /** MemoryFuncs::ReadProcessMemory: a negative count throws the mapped
      message; otherwise exactly the bytes obtained are returned, and a short
      read is not an error. */
  function ReadProcessMemory(sys: ReadSyscall, pid: int, baseAddr: nat, length: nat): (r: Result<seq<byte>>)
    ensures var call := sys(pid, baseAddr, length);
      && (r.Err? <==> call.nread < 0)
      && (r.Err? ==> r.exc == Exc(RuntimeError, GetErrorMessage(call.errno)))
      && (r.Ok? ==> |r.value| == call.nread <= length && r.value == call.buffer[..call.nread])
  {
    var call := sys(pid, baseAddr, length);
    if call.nread < 0 then Err(Exc(RuntimeError, GetErrorMessage(call.errno)))
    else Ok(call.buffer[..call.nread])
  }

  // ---------------------------------------------------------------------
  // process_vm_writev

  /** What one process_vm_writev call returns: the count and errno. */
  datatype SysWrite = SysWrite(nwritten: int, errno: int)

  ghost predicate KernelWriteContract(f: (int, nat, seq<byte>) -> SysWrite) {
    forall pid: int, addr: nat, data: seq<byte> {:trigger f(pid, addr, data)} ::
      f(pid, addr, data).nwritten <= |data|
  }

  /** process_vm_writev(pid, [data], [addr, |data|]) as an oracle. */
  type WriteSyscall = f: (int, nat, seq<byte>) -> SysWrite | KernelWriteContract(f)
    witness (pid: int, addr: nat, data: seq<byte>) => SysWrite(-1, EFAULT)

  /** MemoryFuncs::WriteToProcessMemory as its header declares it: a negative
      count throws the mapped message; otherwise the count of bytes written is
      returned, and a partial write is not an error. */
  function WriteToProcessMemory(sys: WriteSyscall, pid: int, baseAddr: nat, data: seq<byte>): (r: Result<int>)
    ensures var call := sys(pid, baseAddr, data);
      && (r.Err? <==> call.nwritten < 0)
      && (r.Err? ==> r.exc == Exc(RuntimeError, GetErrorMessage(call.errno)))
      && (r.Ok? ==> 0 <= r.value <= |data| && r.value == call.nwritten)
  {
    var call := sys(pid, baseAddr, data);
    if call.nwritten < 0 then Err(Exc(RuntimeError, GetErrorMessage(call.errno)))
    else Ok(call.nwritten)
  }
}
