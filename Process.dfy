/** The target process of src/Process.cpp: its pid, and the parsing of the
    lines of its proc(5) maps file into memory regions. */
module Process {
  import opened Common
  import opened MemoryStructs
  import opened Utils

  class Process {
    var pid: int

    constructor()
      ensures pid == 0
    {
      pid := 0;
    }

    /** Accepts a positive pid other than the tool's own (`selfPid`, what
        getpid() returns); anything else is refused and the pid kept. */
    method SetProcessPid(newPid: int, selfPid: int) returns (o: Outcome)
      modifies this
      ensures newPid > 0 && newPid != selfPid ==> o == Done && pid == newPid
      ensures !(newPid > 0 && newPid != selfPid) ==>
        o == Fail(Exc(InvalidArgument, "Invalid pid.")) && pid == old(pid)
    {
      if newPid > 0 && newPid != selfPid {
        pid := newPid;
        return Done;
      } else {
        return Fail(Exc(InvalidArgument, "Invalid pid."));
      }
    }

    function GetCurrentPid(): int
      reads this
    {
      pid
    }
  }

  /** std::string::operator[]: the character at `i`, and '\0' at the length. */
  function CharAt(s: string, i: nat): char
    requires i <= |s|
  {
    if i < |s| then s[i] else '\0'
  }

  /** Stores the range text and reads the start and end addresses from the
      hexadecimal texts before and after the '-'; a text std::stoul rejects
      throws. Fewer than two pieces would index past the token vector. */
  function SetMemoryRangeBoundaries(reg: MemRegion, addressRange: string): (r: Result<MemRegion>)
    requires |Split(addressRange, '-')| >= 2
    ensures var tokens := Split(addressRange, '-');
      r.Ok? <==> StoulHex(tokens[0]).Ok? && StoulHex(tokens[1]).Ok?
    ensures var tokens := Split(addressRange, '-');
      r.Err? ==> r.exc == (if StoulHex(tokens[0]).Err? then StoulHex(tokens[0]).exc else StoulHex(tokens[1]).exc)
    ensures var tokens := Split(addressRange, '-');
      r.Ok? ==> r.value.startAddr == StoulHex(tokens[0]).value && r.value.endAddr == StoulHex(tokens[1]).value
    ensures r.Ok? ==>
      && r.value.addressRangeStr == addressRange
      && r.value.startAddr < ULONG_MODULUS && r.value.endAddr < ULONG_MODULUS
      && r.value.rangeLength == reg.rangeLength && r.value.permsStr == reg.permsStr
      && r.value.perms == reg.perms && r.value.pathName == reg.pathName
    ensures r.Err? ==> r.exc.kind in {InvalidArgument, OutOfRange}
  {
    var addressTokens := Split(addressRange, '-');
    var withText := reg.(addressRangeStr := addressRange);
    var startAddr :- StoulHex(addressTokens[0]);
    var endAddr :- StoulHex(addressTokens[1]);
    Ok(withText.(startAddr := startAddr, endAddr := endAddr))
  }

  /** Stores the permissions text and sets each flag from its column: r, w,
      x, and s for shared. A text of three characters reads '\0' in the
      fourth column; a shorter one would read past the end. */
  function SetMemoryRegionPerms(reg: MemRegion, perms: string): (r: MemRegion)
    requires |perms| >= 3
    ensures r.permsStr == perms
    ensures r.perms.readFlag <==> perms[0] == 'r'
    ensures r.perms.writeFlag <==> perms[1] == 'w'
    ensures r.perms.executeFlag <==> perms[2] == 'x'
    ensures r.perms.sharedFlag <==> |perms| > 3 && perms[3] == 's'
    ensures r == reg.(permsStr := r.permsStr, perms := r.perms)
  {
    reg.(permsStr := perms,
         perms := MemRegionPerms(CharAt(perms, 0) == 'r', CharAt(perms, 1) == 'w',
                                 CharAt(perms, 2) == 'x', CharAt(perms, 3) == 's'))
  }

  /** The permissions column that the kernel prints for a set of flags. */
  function PermsText(p: MemRegionPerms): string {
    [if p.readFlag then 'r' else '-', if p.writeFlag then 'w' else '-',
     if p.executeFlag then 'x' else '-', if p.sharedFlag then 's' else 'p']
  }

  /** Reading the permissions column back gives the flags it was printed from. */
  lemma PermsRoundTrip(reg: MemRegion, p: MemRegionPerms)
    ensures SetMemoryRegionPerms(reg, PermsText(p)).perms == p
  {
  }

  /** What a range printed as "start-end" in hexadecimal reads back as. */
  lemma RangeRoundTrip(reg: MemRegion, startAddr: nat, endAddr: nat)
    requires startAddr < ULONG_MODULUS && endAddr < ULONG_MODULUS
    ensures var text := HexString(startAddr) + "-" + HexString(endAddr);
      |Split(text, '-')| >= 2 &&
      SetMemoryRangeBoundaries(reg, text)
        == Ok(reg.(addressRangeStr := text, startAddr := startAddr, endAddr := endAddr))
  {
    var hs, he := HexString(startAddr), HexString(endAddr);
    HexHasNoDash(hs);
    HexHasNoDash(he);
    assert Join([hs, he], '-') == hs + "-" + he;
    SplitJoin([hs, he], '-');
    StoulHexString(startAddr);
    StoulHexString(endAddr);
  }

  lemma HexHasNoDash(s: string)
    requires forall k :: 0 <= k < |s| ==> IsHexChar(s[k])
    ensures '-' !in s
  {
  }

  /** The shape every maps line has: at least the range and permissions
      columns, a range with a '-', and a permissions text of at least three
      characters. */
  predicate MapsLineShape(line: string) {
    var tokens := Split(line, ' ');
    |tokens| >= 2 && |Split(tokens[0], '-')| >= 2 && |tokens[1]| >= 3
  }

  /** The column count of a maps line without a pathname. */
  const MIN_AMOUNT_OF_FIELDS: nat := 5

  /** The region fields before parsing; every one is overwritten. */
  const BlankRegion := MemRegion("", 0, 0, 0, "", MemRegionPerms(false, false, false, false), "")

  /** The pathname column: the tokens from the sixth on, joined by single
      spaces, or "unknown" when there are none. */
  function PathName(tokens: seq<string>): string {
    if |tokens| > MIN_AMOUNT_OF_FIELDS then Join(tokens[MIN_AMOUNT_OF_FIELDS..], ' ') else "unknown"
  }

  /** The body of the GetMemoryRegions loop for one line. */
  function ParseMapsLine(line: string): Result<MemRegion>
    requires MapsLineShape(line)
  {
    var tokens := Split(line, ' ');
    var bounded :- SetMemoryRangeBoundaries(BlankRegion, tokens[0]);
    var sized := bounded.(rangeLength := (bounded.endAddr - bounded.startAddr) % ULONG_MODULUS);
    var permitted := SetMemoryRegionPerms(sized, tokens[1]);
    Ok(permitted.(pathName := PathName(tokens)))
  }

  /** The lines parsed in order; the first line that throws ends the parse. */
  function ParseMapsLines(lines: seq<string>): Result<seq<MemRegion>>
    requires forall k :: 0 <= k < |lines| ==> MapsLineShape(lines[k])
  {
    if lines == [] then Ok([])
    else
      var prefix :- ParseMapsLines(lines[..|lines| - 1]);
      var reg :- ParseMapsLine(lines[|lines| - 1]);
      Ok(prefix + [reg])
  }

  /** The text columns of a parsed line are kept verbatim and its flags
      follow the permission columns. */
  lemma ParseMapsLineText(line: string)
    requires MapsLineShape(line)
    requires ParseMapsLine(line).Ok?
    ensures var tokens := Split(line, ' ');
      var reg := ParseMapsLine(line).value;
      && reg.addressRangeStr == tokens[0]
      && reg.permsStr == tokens[1]
      && (reg.perms.readFlag <==> tokens[1][0] == 'r')
      && (reg.perms.writeFlag <==> tokens[1][1] == 'w')
      && (reg.perms.executeFlag <==> tokens[1][2] == 'x')
      && (reg.perms.sharedFlag <==> |tokens[1]| > 3 && tokens[1][3] == 's')
  {
    var tokens := Split(line, ' ');
    var bounded := SetMemoryRangeBoundaries(BlankRegion, tokens[0]).value;
    var sized := bounded.(rangeLength := (bounded.endAddr - bounded.startAddr) % ULONG_MODULUS);
    assert ParseMapsLine(line).value == SetMemoryRegionPerms(sized, tokens[1]).(pathName := PathName(tokens));
  }

  /** The bounds of a parsed line are the two hexadecimal texts of its range
      column, and its length is their unsigned difference, so that
      start + length = end whenever start <= end. */
  lemma ParseMapsLineBounds(line: string)
    requires MapsLineShape(line)
    requires ParseMapsLine(line).Ok?
    ensures var range := Split(Split(line, ' ')[0], '-');
      var reg := ParseMapsLine(line).value;
      && StoulHex(range[0]) == Ok(reg.startAddr)
      && StoulHex(range[1]) == Ok(reg.endAddr)
      && reg.rangeLength < ULONG_MODULUS
      && reg.rangeLength == (reg.endAddr - reg.startAddr) % ULONG_MODULUS
      && (reg.startAddr <= reg.endAddr ==> reg.startAddr + reg.rangeLength == reg.endAddr)
  {
    var tokens := Split(line, ' ');
    var bounded := SetMemoryRangeBoundaries(BlankRegion, tokens[0]).value;
    var sized := bounded.(rangeLength := (bounded.endAddr - bounded.startAddr) % ULONG_MODULUS);
    assert ParseMapsLine(line).value == SetMemoryRegionPerms(sized, tokens[1]).(pathName := PathName(tokens));
  }

  /** The pathname of a parsed line splits back into the columns from the
      sixth on, and is "unknown" when the line has no such column. */
  lemma PathNameSplits(tokens: seq<string>)
    requires forall k :: 0 <= k < |tokens| ==> tokens[k] != [] && ' ' !in tokens[k]
    ensures |tokens| > MIN_AMOUNT_OF_FIELDS ==> Split(PathName(tokens), ' ') == tokens[MIN_AMOUNT_OF_FIELDS..]
    ensures |tokens| <= MIN_AMOUNT_OF_FIELDS ==> PathName(tokens) == "unknown"
  {
    if |tokens| > MIN_AMOUNT_OF_FIELDS {
      var rest := tokens[MIN_AMOUNT_OF_FIELDS..];
      assert forall k :: 0 <= k < |rest| ==> rest[k] == tokens[k + MIN_AMOUNT_OF_FIELDS];
      SplitJoin(rest, ' ');
    }
  }

  lemma ParseMapsLinePath(line: string)
    requires MapsLineShape(line)
    requires ParseMapsLine(line).Ok?
    ensures var tokens := Split(line, ' ');
      ParseMapsLine(line).value.pathName == PathName(tokens)
      && (|tokens| > MIN_AMOUNT_OF_FIELDS ==>
            Split(ParseMapsLine(line).value.pathName, ' ') == tokens[MIN_AMOUNT_OF_FIELDS..])
  {
    SplitTokensAreClean(line, ' ');
    PathNameSplits(Split(line, ' '));
  }

  /** A parse succeeds exactly when every line parses. */
  lemma ParseMapsLinesOk(lines: seq<string>)
    requires forall k :: 0 <= k < |lines| ==> MapsLineShape(lines[k])
    ensures ParseMapsLines(lines).Ok? <==> forall k :: 0 <= k < |lines| ==> ParseMapsLine(lines[k]).Ok?
  {
    if ParseMapsLines(lines).Ok? {
      ParseMapsLinesValues(lines);
    } else {
      ParseMapsLinesErr(lines);
    }
  }

  /** A parse without error gives one region per line, in line order. */
  lemma {:induction false} ParseMapsLinesValues(lines: seq<string>)
    requires forall k :: 0 <= k < |lines| ==> MapsLineShape(lines[k])
    requires ParseMapsLines(lines).Ok?
    ensures |ParseMapsLines(lines).value| == |lines|
    ensures forall k :: 0 <= k < |lines| ==>
      ParseMapsLine(lines[k]).Ok? && ParseMapsLines(lines).value[k] == ParseMapsLine(lines[k]).value
  {
    if lines != [] {
      var n := |lines| - 1;
      var init := lines[..n];
      assert forall k :: 0 <= k < n ==> init[k] == lines[k];
      ParseMapsLinesValues(init);
    }
  }

  /** A failed parse throws the error of the first line that throws. */
  lemma {:induction false} ParseMapsLinesErr(lines: seq<string>)
    requires forall k :: 0 <= k < |lines| ==> MapsLineShape(lines[k])
    requires ParseMapsLines(lines).Err?
    ensures exists k :: (0 <= k < |lines| && ParseMapsLine(lines[k]) == Err(ParseMapsLines(lines).exc)
      && forall j :: 0 <= j < k ==> ParseMapsLine(lines[j]).Ok?)
  {
    var init := lines[..|lines| - 1];
    assert forall k :: 0 <= k < |init| ==> init[k] == lines[k];
    if ParseMapsLines(init).Err? {
      ParseMapsLinesErr(init);
      var k :| 0 <= k < |init| && ParseMapsLine(init[k]) == Err(ParseMapsLines(init).exc)
        && forall j :: 0 <= j < k ==> ParseMapsLine(init[j]).Ok?;
      assert ParseMapsLine(lines[k]) == Err(ParseMapsLines(lines).exc);
    } else {
      ParseMapsLinesValues(init);
      var k := |lines| - 1;
      assert ParseMapsLine(lines[k]) == Err(ParseMapsLines(lines).exc);
    }
  }

  /** Process::GetMemoryRegions over the lines of the maps file. */
  method GetMemoryRegions(lines: seq<string>) returns (r: Result<seq<MemRegion>>)
    requires forall k :: 0 <= k < |lines| ==> MapsLineShape(lines[k])
    ensures r == ParseMapsLines(lines)
  {
    var memRegions: seq<MemRegion> := [];
    var it := 0;
    while it < |lines|
      invariant 0 <= it <= |lines|
      invariant ParseMapsLines(lines[..it]) == Ok(memRegions)
    {
      var parsed := ParseRegionLine(lines[it]);
      ParseMapsLinesStep(lines, it, memRegions);
      if parsed.Err? {
        return Err(parsed.exc);
      }
      memRegions := memRegions + [parsed.value];
      it := it + 1;
    }
    assert lines[..it] == lines;
    return Ok(memRegions);
  }

  /** The body of the GetMemoryRegions loop: the region one line describes. */
  method ParseRegionLine(line: string) returns (r: Result<MemRegion>)
    requires MapsLineShape(line)
    ensures r == ParseMapsLine(line)
  {
    var tokens := SplitString(line, ' ');
    var bounded := SetMemoryRangeBoundaries(BlankRegion, tokens[0]);
    if bounded.Err? {
      return Err(bounded.exc);
    }
    var reg := bounded.value;
    reg := reg.(rangeLength := (reg.endAddr - reg.startAddr) % ULONG_MODULUS);
    reg := SetMemoryRegionPerms(reg, tokens[1]);
    if |tokens| > MIN_AMOUNT_OF_FIELDS {
      var pathName := JoinVectorOfStrings(tokens, MIN_AMOUNT_OF_FIELDS, ' ');
      reg := reg.(pathName := pathName);
    } else {
      reg := reg.(pathName := "unknown");
    }
    return Ok(reg);
  }

  /** One more line: it either ends the parse with its exception or adds its region. */
  lemma ParseMapsLinesStep(lines: seq<string>, it: nat, memRegions: seq<MemRegion>)
    requires forall k :: 0 <= k < |lines| ==> MapsLineShape(lines[k])
    requires it < |lines| && ParseMapsLines(lines[..it]) == Ok(memRegions)
    ensures ParseMapsLine(lines[it]).Err? ==> ParseMapsLines(lines) == Err(ParseMapsLine(lines[it]).exc)
    ensures ParseMapsLine(lines[it]).Ok? ==> ParseMapsLines(lines[..it + 1]) == Ok(memRegions + [ParseMapsLine(lines[it]).value])
  {
    assert lines[..it + 1][..it] == lines[..it];
    assert lines[..it + 1][it] == lines[it];
    if ParseMapsLine(lines[it]).Err? {
      ParseMapsLinesStops(lines, it + 1);
    }
  }

  /** Once a prefix of the lines throws, the whole parse throws the same. */
  lemma {:induction false} ParseMapsLinesStops(lines: seq<string>, n: nat)
    requires forall k :: 0 <= k < |lines| ==> MapsLineShape(lines[k])
    requires n <= |lines| && ParseMapsLines(lines[..n]).Err?
    ensures ParseMapsLines(lines) == ParseMapsLines(lines[..n])
    decreases |lines| - n
  {
    if n < |lines| {
      assert lines[..n + 1][..n] == lines[..n];
      ParseMapsLinesStops(lines, n + 1);
    } else {
      assert lines[..n] == lines;
    }
  }
}
