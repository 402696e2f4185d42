/** The "scan" command (src/cmds/ScanCommand.cpp). */
module ScanCommand {
  import opened Common
  import opened Utils
  import opened MemoryStructs
  import opened ComparisonType
  import opened DataType
  import opened MemoryAccess
  import opened MemoryFuncs
  import opened MemoryScanner
  import opened Process
  import opened Conversions

  /** Every line of the maps file has the fields the parser indexes. */
  predicate WellShaped(mapsLines: seq<string>) {
    forall k :: 0 <= k < |mapsLines| ==> MapsLineShape(mapsLines[k])
  }

  // ---------------------------------------------------------------------
  // CallScanner

  /** What CallScanner<T> does to the scanner: a started scan is narrowed
      by NextScan; otherwise the regions of the maps lines are searched by
      NewScan, unless parsing them throws. */
  twostate predicate Scanned(scanner: MemoryScanner, sys: ReadSyscall, mapsLines: seq<string>, q: Query, o: Outcome)
    requires q.Valid() && WellShaped(mapsLines)
    reads scanner
  {
    && scanner.pid == old(scanner.pid)
    && if old(scanner.scanStarted) then
      && o == Done
      && scanner.currScan == FilterAddresses(sys, scanner.pid, old(scanner.currScan), q)
      && scanner.prevScan == old(scanner.currScan)
      && !scanner.undoFlag && scanner.scanStarted
    else
      match ParseMapsLines(mapsLines)
      case Err(e) =>
        && o == Fail(e)
        && scanner.currScan == old(scanner.currScan) && scanner.prevScan == old(scanner.prevScan)
        && scanner.undoFlag == old(scanner.undoFlag) && !scanner.scanStarted
      case Ok(regions) =>
        && o == Done
        && scanner.currScan == SearchRegions(sys, scanner.pid, regions, q)
        && scanner.prevScan == old(scanner.prevScan)
        && !scanner.undoFlag && scanner.scanStarted
  }

  method CallScanner(scanner: MemoryScanner, sys: ReadSyscall, mapsLines: seq<string>, q: Query) returns (o: Outcome)
    requires scanner.Valid() && q.Valid() && WellShaped(mapsLines)
    requires NoShortRereads(sys, scanner.pid, q.dataSize, scanner.currScan)
    modifies scanner
    ensures scanner.Valid()
    ensures Scanned(scanner, sys, mapsLines, q, o)
  {
    if scanner.GetScanStartedFlag() {
      var n := scanner.NextScan(sys, q);
      return Done;
    }
    var regions := GetMemoryRegions(mapsLines);
    if regions.Err? {
      return Fail(regions.exc);
    }
    var r := scanner.NewScan(sys, regions.value, q);
    return Done;
  }

  // ---------------------------------------------------------------------
  // ScanForData

  /** The needle of a scan: for an integer type the bytes of the parsed
      value, sizeof(T) of them; for text the arguments from the fourth on,
      joined by spaces, as many bytes as the text has characters. */
  function ScanRequest(args: seq<string>, parseValue: NumberParser): (r: Result<Query>)
    requires |args| >= 2 && ScanModelled(args)
    ensures r.Ok? ==> r.value.Valid()
  {
    var op :- ParseComparisonType(args[1]);
    if |args| < 4 then Err(Exc(RuntimeError, "Missing arguments for scanning."))
    else
      var t :- ParseDataType(args[2]);
      if t == String then
        var data := Join(args[3..], ' ');
        Ok(Query(Bytes, StringBytes(data), |data|))
      else if IsIntType(t) then
        var k := IntKindOf(t);
        var v :- parseValue(k, args[3]);
        Ok(Query(Numeric(k, op), Encode(k, v), Width(k)))
      else assert false; Err(Exc(RuntimeError, ""))
  }

  /** The scans this model covers: no floating-point type, and text only
      compared for equality (the text comparison has no visible body) and
      made of one-byte characters. */
  predicate ScanModelled(args: seq<string>) {
    |args| >= 4 && ParseComparisonType(args[1]).Ok? && ParseDataType(args[2]).Ok? ==>
      var t := ParseDataType(args[2]).value;
      && t != F32 && t != F64
      && (t == String ==> ParseComparisonType(args[1]).value == Equal && IsByteString(Join(args[3..], ' ')))
  }

  /** A request fails exactly when the operator, the argument count, the
      type or the value is wrong; otherwise an integer needle reads back as
      the parsed value under the requested operator, and a text needle is
      the joined text. */
  lemma ScanRequestMeaning(args: seq<string>, parseValue: NumberParser)
    requires |args| >= 2 && ScanModelled(args)
    ensures ParseComparisonType(args[1]).Err? ==> ScanRequest(args, parseValue) == Err(Exc(InvalidArgument, "Invalid scan type."))
    ensures ParseComparisonType(args[1]).Ok? && |args| < 4 ==>
      ScanRequest(args, parseValue) == Err(Exc(RuntimeError, "Missing arguments for scanning."))
    ensures ParseComparisonType(args[1]).Ok? && |args| >= 4 && ParseDataType(args[2]).Err? ==>
      ScanRequest(args, parseValue) == Err(ParseDataType(args[2]).exc)
    ensures ParseComparisonType(args[1]).Ok? && |args| >= 4 && ParseDataType(args[2]) == Ok(String) ==>
      ScanRequest(args, parseValue) == Ok(Query(Bytes, StringBytes(Join(args[3..], ' ')), |Join(args[3..], ' ')|))
    ensures ParseComparisonType(args[1]).Ok? && |args| >= 4 && ParseDataType(args[2]).Ok? && IsIntType(ParseDataType(args[2]).value) ==>
      var k := IntKindOf(ParseDataType(args[2]).value);
      && (ScanRequest(args, parseValue).Ok? <==> parseValue(k, args[3]).Ok?)
      && (ScanRequest(args, parseValue).Err? ==> ScanRequest(args, parseValue).exc == parseValue(k, args[3]).exc)
      && (ScanRequest(args, parseValue).Ok? ==>
        && ScanRequest(args, parseValue).value.cmp == Numeric(k, ParseComparisonType(args[1]).value)
        && ScanRequest(args, parseValue).value.dataSize == Width(k)
        && Value(k, ScanRequest(args, parseValue).value.needle) == parseValue(k, args[3]).value)
  {
    if ParseComparisonType(args[1]).Ok? && |args| >= 4 && ParseDataType(args[2]).Ok? && IsIntType(ParseDataType(args[2]).value) {
      var k := IntKindOf(ParseDataType(args[2]).value);
      if parseValue(k, args[3]).Ok? {
        ValueOfEncode(k, parseValue(k, args[3]).value);
      }
    }
  }

  // ---------------------------------------------------------------------
  // ListSavedAddresses

  /** Listing an empty set throws; printing the set is not modelled. */
  function ListSavedAddresses(memAddrs: seq<MemAddress>): (o: Outcome)
    ensures o.Fail? <==> memAddrs == []
    ensures o.Fail? ==> o.exc == Exc(RuntimeError, "No memory addresses to list.")
  {
    if memAddrs == [] then Fail(Exc(RuntimeError, "No memory addresses to list.")) else Done
  }

  // ---------------------------------------------------------------------
  // WriteToSavedAddresses

  /** WriteCommand::Main, whose body is not part of this model. */
  type WriteCommandMain = seq<string> -> Outcome

  /** The arguments handed to the write command for one saved address:
      the address in "{:x}" hexadecimal, then the type and the data. */
  function WriteArgs(a: MemAddress, typeStr: string, dataStr: string): seq<string> {
    ["write", HexString(a.address), typeStr, dataStr]
  }

  predicate Writable(a: MemAddress) {
    a.memRegion.perms.writeFlag
  }

  function WritableCount(addrs: seq<MemAddress>): (n: nat)
    ensures n <= |addrs|
  {
    if addrs == [] then 0
    else WritableCount(addrs[..|addrs| - 1]) + (if Writable(addrs[|addrs| - 1]) then 1 else 0)
  }

  /** The loop over the saved addresses: the number of writes that did not
      throw, or the first exception other than runtime_error, which escapes. */
  function WriteTally(addrs: seq<MemAddress>, writeMain: WriteCommandMain, typeStr: string, dataStr: string): Result<nat>
  {
    if addrs == [] then Ok(0)
    else
      var count :- WriteTally(addrs[..|addrs| - 1], writeMain, typeStr, dataStr);
      var a := addrs[|addrs| - 1];
      if !Writable(a) then Ok(count)
      else match writeMain(WriteArgs(a, typeStr, dataStr))
        case Done => Ok(count + 1)
        case Fail(e) => if e.kind == RuntimeError then Ok(count) else Err(e)
  }

  /** A write that throws something other than runtime_error. */
  predicate Escapes(a: MemAddress, writeMain: WriteCommandMain, typeStr: string, dataStr: string) {
    Writable(a) && writeMain(WriteArgs(a, typeStr, dataStr)).Fail?
      && writeMain(WriteArgs(a, typeStr, dataStr)).exc.kind != RuntimeError
  }

  /** The count covers only writable addresses, so never more than there are saved. */
  lemma {:induction false} WriteTallyBound(addrs: seq<MemAddress>, writeMain: WriteCommandMain, typeStr: string, dataStr: string)
    requires WriteTally(addrs, writeMain, typeStr, dataStr).Ok?
    ensures WriteTally(addrs, writeMain, typeStr, dataStr).value <= WritableCount(addrs) <= |addrs|
  {
    if addrs != [] {
      WriteTallyBound(addrs[..|addrs| - 1], writeMain, typeStr, dataStr);
    }
  }

  /** When every writable address is written without an exception, the
      count is exactly the number of writable addresses. */
  lemma {:induction false} WriteTallyAllWritten(addrs: seq<MemAddress>, writeMain: WriteCommandMain, typeStr: string, dataStr: string)
    requires forall k :: 0 <= k < |addrs| && Writable(addrs[k]) ==> writeMain(WriteArgs(addrs[k], typeStr, dataStr)) == Done
    ensures WriteTally(addrs, writeMain, typeStr, dataStr) == Ok(WritableCount(addrs))
  {
    if addrs != [] {
      WriteTallyAllWritten(addrs[..|addrs| - 1], writeMain, typeStr, dataStr);
    }
  }

  /** The loop throws exactly when some writable address's write throws
      something other than runtime_error, and then with that exception. */
  lemma {:induction false} WriteTallyErr(addrs: seq<MemAddress>, writeMain: WriteCommandMain, typeStr: string, dataStr: string)
    ensures WriteTally(addrs, writeMain, typeStr, dataStr).Err? <==>
      exists k :: 0 <= k < |addrs| && Escapes(addrs[k], writeMain, typeStr, dataStr)
    ensures WriteTally(addrs, writeMain, typeStr, dataStr).Err? ==>
      (exists k :: 0 <= k < |addrs| && Escapes(addrs[k], writeMain, typeStr, dataStr)
        && WriteTally(addrs, writeMain, typeStr, dataStr).exc == writeMain(WriteArgs(addrs[k], typeStr, dataStr)).exc)
  {
    if addrs != [] {
      var init := addrs[..|addrs| - 1];
      var last := addrs[|addrs| - 1];
      WriteTallyErr(init, writeMain, typeStr, dataStr);
      if WriteTally(init, writeMain, typeStr, dataStr).Err? {
        var k :| 0 <= k < |init| && Escapes(init[k], writeMain, typeStr, dataStr)
          && WriteTally(init, writeMain, typeStr, dataStr).exc == writeMain(WriteArgs(init[k], typeStr, dataStr)).exc;
        assert addrs[k] == init[k];
      } else {
        if Escapes(last, writeMain, typeStr, dataStr) {
          assert addrs[|addrs| - 1] == last;
        } else {
          assert forall k :: 0 <= k < |init| ==> init[k] == addrs[k];
        }
      }
    }
  }

  /** Once an exception escapes, the rest of the loop does not run. */
  lemma {:induction false} WriteTallyStops(addrs: seq<MemAddress>, writeMain: WriteCommandMain, typeStr: string, dataStr: string, n: nat)
    requires n <= |addrs| && WriteTally(addrs[..n], writeMain, typeStr, dataStr).Err?
    ensures WriteTally(addrs, writeMain, typeStr, dataStr) == WriteTally(addrs[..n], writeMain, typeStr, dataStr)
    decreases |addrs|
  {
    if n < |addrs| {
      var init := addrs[..|addrs| - 1];
      assert init[..n] == addrs[..n];
      WriteTallyStops(init, writeMain, typeStr, dataStr, n);
    } else {
      assert addrs[..n] == addrs;
    }
  }

  /** WriteToSavedAddresses: writes the value to every writable saved
      address through the write command and counts the writes that did not
      throw; the per-address error lines and the summary are printed and
      not modelled. */
  method WriteToSavedAddresses(memAddrs: seq<MemAddress>, writeMain: WriteCommandMain, args: seq<string>) returns (r: Result<nat>)
    ensures |args| < 4 ==> r == Err(Exc(RuntimeError, "Missing arguments."))
    ensures |args| >= 4 ==> r == WriteTally(memAddrs, writeMain, args[2], args[3])
  {
    if |args| < 4 {
      return Err(Exc(RuntimeError, "Missing arguments."));
    }
    var writeSuccess := 0;
    var it := 0;
    while it < |memAddrs|
      invariant 0 <= it <= |memAddrs|
      invariant WriteTally(memAddrs[..it], writeMain, args[2], args[3]) == Ok(writeSuccess)
    {
      var a := memAddrs[it];
      assert memAddrs[..it + 1][..it] == memAddrs[..it];
      if !a.memRegion.perms.writeFlag {
        it := it + 1;
        continue;
      }
      var writeCmdArgs := ["write", HexString(a.address), args[2], args[3]];
      var o := writeMain(writeCmdArgs);
      match o {
        case Done =>
          writeSuccess := writeSuccess + 1;
        case Fail(e) =>
          if e.kind != RuntimeError {
            WriteTallyStops(memAddrs, writeMain, args[2], args[3], it + 1);
            return Err(e);
          }
      }
      it := it + 1;
    }
    assert memAddrs[..it] == memAddrs;
    return Ok(writeSuccess);
  }

  // ---------------------------------------------------------------------
  // ScanCommand::Main

  /** The keywords handled before the operator is parsed. */
  predicate ActionKeyword(keyword: string) {
    keyword == "clear" || keyword == "undo" || keyword == "list" || keyword == "write"
  }

  /** ScanCommand::Main. The maps lines stand for the file the process's
      region list is read from; for a scan request, the re-reads of the saved
      addresses are assumed never to come back shorter than its data size. */
  method ScanMain(scanner: MemoryScanner, sys: ReadSyscall, mapsLines: seq<string>, parseValue: NumberParser,
                  writeMain: WriteCommandMain, args: seq<string>) returns (o: Outcome)
    requires scanner.Valid() && WellShaped(mapsLines) && ScanModelled(args)
    requires |args| >= 2 && !ActionKeyword(args[1]) && ScanRequest(args, parseValue).Ok? ==>
      NoShortRereads(sys, scanner.pid, ScanRequest(args, parseValue).value.dataSize, scanner.currScan)
    modifies scanner
    ensures scanner.Valid()
    ensures |args| < 2 ==> o == Fail(Exc(RuntimeError, "Missing keyword argument.")) && unchanged(scanner)
    ensures |args| >= 2 && args[1] == "clear" ==>
      && o == Done && scanner.currScan == [] && scanner.prevScan == []
      && !scanner.undoFlag && !scanner.scanStarted && scanner.pid == old(scanner.pid)
    ensures |args| >= 2 && args[1] == "undo" ==>
      && (o.Done? <==> old(scanner.prevScan) != [] && !old(scanner.undoFlag))
      && (o.Done? ==>
        && scanner.currScan == old(scanner.prevScan) && scanner.undoFlag
        && scanner.prevScan == old(scanner.prevScan) && scanner.scanStarted == old(scanner.scanStarted)
        && scanner.pid == old(scanner.pid))
      && (o.Fail? ==> unchanged(scanner))
    ensures |args| >= 2 && args[1] == "list" ==> o == ListSavedAddresses(old(scanner.currScan)) && unchanged(scanner)
    ensures |args| >= 2 && args[1] == "write" ==>
      && unchanged(scanner)
      && (|args| < 4 ==> o == Fail(Exc(RuntimeError, "Missing arguments.")))
      && (|args| >= 4 ==>
        match WriteTally(old(scanner.currScan), writeMain, args[2], args[3])
        case Ok(_) => o == Done
        case Err(e) => o == Fail(e))
    ensures |args| >= 2 && !ActionKeyword(args[1]) ==>
      match ScanRequest(args, parseValue)
      case Err(e) => o == Fail(e) && unchanged(scanner)
      case Ok(q) => Scanned(scanner, sys, mapsLines, q, o)
  {
    if |args| < 2 {
      return Fail(Exc(RuntimeError, "Missing keyword argument."));
    }
    var keywordStr := args[1];
    if keywordStr == "clear" {
      scanner.Clear();
      return Done;
    } else if keywordStr == "undo" {
      o := scanner.Undo();
    } else if keywordStr == "list" {
      o := ListSavedAddresses(scanner.GetCurrScanVector());
    } else if keywordStr == "write" {
      var r := WriteToSavedAddresses(scanner.GetCurrScanVector(), writeMain, args);
      o := if r.Err? then Fail(r.exc) else Done;
    } else {
      var request := ScanRequest(args, parseValue);
      if request.Err? {
        return Fail(request.exc);
      }
      o := CallScanner(scanner, sys, mapsLines, request.value);
    }
  }
}
