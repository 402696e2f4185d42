/** The "freeze" command (src/cmds/FreezeCommand.cpp). */
module FreezeCommand {
  import opened Common
  import opened MemoryStructs
  import opened DataType
  import opened MemoryFuncs
  import opened MemoryFreezer
  import opened Process
  import opened Conversions

  /** DataToByteVector<T>: the object representation of the parsed value,
      sizeof(T) bytes that read back as that value; for text, its bytes in
      order. Unparsable numbers throw whatever StrToNumber throws. */
  function DataToByteVector(t: DataType, data: string, parseValue: NumberParser): (r: Result<seq<byte>>)
    requires t != F32 && t != F64 && (t == String ==> IsByteString(data))
    ensures t == String ==> r == Ok(StringBytes(data))
    ensures IsIntType(t) ==>
      var k := IntKindOf(t);
      && (r.Ok? <==> parseValue(k, data).Ok?)
      && (r.Err? ==> r.exc == parseValue(k, data).exc)
      && (r.Ok? ==> |r.value| == Width(k) && Value(k, r.value) == parseValue(k, data).value)
  {
    if t == String then Ok(StringBytes(data))
    else
      var k := IntKindOf(t);
      var v :- parseValue(k, data);
      ValueOfEncode(k, v);
      Ok(Encode(k, v))
  }

  /** A needle that reads back as the same value is the only one: two
      parsed values give equal byte vectors exactly when they are equal. */
  lemma DataToByteVectorInjective(t: DataType, a: string, b: string, parseValue: NumberParser)
    requires IsIntType(t)
    requires DataToByteVector(t, a, parseValue).Ok? && DataToByteVector(t, b, parseValue).Ok?
    ensures DataToByteVector(t, a, parseValue) == DataToByteVector(t, b, parseValue)
      <==> parseValue(IntKindOf(t), a).value == parseValue(IntKindOf(t), b).value
  {
  }

  /** Utils::FindRegionOfAddress, whose body is not part of this model. */
  type RegionFinder = (seq<MemRegion>, nat) -> Result<MemRegion>

  /** The entry "freeze add <address> <type> <data>" appends, in the order
      the C++ code evaluates and may throw: the address, the region list,
      the region of the address, the type, then the data. */
  function AddRequest(args: seq<string>, parseValue: NumberParser, mapsLines: seq<string>,
                      findRegion: RegionFinder): Result<FrozenMemAddress>
    requires |args| >= 5 && AddModelled(args)
    requires forall k :: 0 <= k < |mapsLines| ==> MapsLineShape(mapsLines[k])
  {
    var address :- parseValue(U64, args[2]);
    var regions :- ParseMapsLines(mapsLines);
    var memRegion :- findRegion(regions, address);
    var t :- ParseDataType(args[3]);
    var data :- DataToByteVector(t, args[4], parseValue);
    Ok(FrozenMemAddress(MemAddress(address, memRegion), true, args[3], args[4], data))
  }

  /** Adding covers no floating-point type, and text made of one-byte characters. */
  predicate AddModelled(args: seq<string>) {
    && (|args| >= 4 && ParseDataType(args[3]).Ok? ==> ParseDataType(args[3]).value != F32 && ParseDataType(args[3]).value != F64)
    && (|args| >= 5 && ParseDataType(args[3]) == Ok(String) ==> IsByteString(args[4]))
  }

  /** The added entry is enabled, keeps the typed text it was given, lives
      at the parsed address within the region found for it, and holds the
      encoding of the parsed value (or the text's bytes). */
  lemma AddRequestMeaning(args: seq<string>, parseValue: NumberParser, mapsLines: seq<string>, findRegion: RegionFinder)
    requires |args| >= 5 && AddModelled(args)
    requires forall k :: 0 <= k < |mapsLines| ==> MapsLineShape(mapsLines[k])
    requires AddRequest(args, parseValue, mapsLines, findRegion).Ok?
    ensures var e := AddRequest(args, parseValue, mapsLines, findRegion).value;
      && e.enabled && e.typeStr == args[3] && e.dataStr == args[4]
      && parseValue(U64, args[2]) == Ok(e.memAddress.address)
      && ParseMapsLines(mapsLines).Ok?
      && findRegion(ParseMapsLines(mapsLines).value, e.memAddress.address) == Ok(e.memAddress.memRegion)
      && ParseDataType(args[3]).Ok?
      && DataToByteVector(ParseDataType(args[3]).value, args[4], parseValue) == Ok(e.data)
  {
  }

  /** The keywords that take an index or "all". */
  predicate IndexKeyword(keyword: string) {
    keyword == "remove" || keyword == "enable" || keyword == "disable"
  }

  /** The index an index keyword's argument parses to, as a size_t. */
  predicate IndexIs(args: seq<string>, parseValue: NumberParser, index: nat) {
    |args| >= 3 && args[2] != "all" && parseValue(U64, args[2]) == Ok(index)
  }

  /** FreezeCommand::Main. The maps lines stand for the file the process's
      region list is read from. An index equal to the list's size is
      excluded, as the freezer's own guards let it through. */
  method FreezeMain(freezer: MemoryFreezer, parseValue: NumberParser, mapsLines: seq<string>,
                    findRegion: RegionFinder, args: seq<string>) returns (o: Outcome)
    requires freezer.CursorInRange() && AddModelled(args)
    requires forall k :: 0 <= k < |mapsLines| ==> MapsLineShape(mapsLines[k])
    requires |args| >= 3 && IndexKeyword(args[1]) && args[2] != "all" && parseValue(U64, args[2]).Ok? ==>
      parseValue(U64, args[2]).value != |freezer.frozenAddresses|
    modifies freezer
    ensures freezer.CursorInRange() && freezer.pid == old(freezer.pid)
    ensures freezer.messageQueue == old(freezer.messageQueue)
    ensures |args| < 2 ==> o == Fail(Exc(RuntimeError, "Missing keyword argument.")) && unchanged(freezer)
    ensures |args| >= 2 && args[1] == "list" ==> o == Done && unchanged(freezer)
    ensures |args| == 2 && IndexKeyword(args[1]) ==> o == Fail(Exc(RuntimeError, "Missing arguments.")) && unchanged(freezer)
    ensures |args| >= 3 && args[1] == "remove" && args[2] == "all" ==>
      && o == Done && freezer.frozenAddresses == [] && freezer.enabledAddressesAmount == 0
      && freezer.cursor == 0 && freezer.threadRunning == old(freezer.threadRunning)
    ensures |args| >= 3 && args[1] == "enable" && args[2] == "all" ==>
      && o == Done && AllFlagged(freezer.frozenAddresses, true)
      && SameButFlags(old(freezer.frozenAddresses), freezer.frozenAddresses)
      && freezer.enabledAddressesAmount == old(freezer.enabledAddressesAmount)
           + (old(|freezer.frozenAddresses|) - old(EnabledCount(freezer.frozenAddresses)))
      && freezer.threadRunning == (old(freezer.threadRunning) || freezer.enabledAddressesAmount > 0)
      && freezer.cursor == (if !old(freezer.threadRunning) && freezer.enabledAddressesAmount > 0 then 0 else old(freezer.cursor))
    ensures |args| >= 3 && args[1] == "disable" && args[2] == "all" ==>
      && o == Done && AllFlagged(freezer.frozenAddresses, false)
      && SameButFlags(old(freezer.frozenAddresses), freezer.frozenAddresses)
      && freezer.enabledAddressesAmount == 0
      && freezer.threadRunning == old(freezer.threadRunning) && freezer.cursor == old(freezer.cursor)
    ensures |args| >= 3 && IndexKeyword(args[1]) && args[2] != "all" && parseValue(U64, args[2]).Err? ==>
      o == Fail(parseValue(U64, args[2]).exc) && unchanged(freezer)
    ensures forall index: nat :: IndexIs(args, parseValue, index) && IndexKeyword(args[1]) && index > old(|freezer.frozenAddresses|) ==>
      o == Fail(Exc(RuntimeError, "Index out of bounds.")) && unchanged(freezer)
    ensures forall index: nat :: IndexIs(args, parseValue, index) && args[1] == "remove" && index < old(|freezer.frozenAddresses|) ==>
      && o == Done && freezer.frozenAddresses == old(freezer.frozenAddresses[..index] + freezer.frozenAddresses[index + 1..])
      && freezer.enabledAddressesAmount == old(freezer.enabledAddressesAmount) - 1
      && freezer.threadRunning == old(freezer.threadRunning)
      && freezer.cursor == (if index < old(freezer.cursor) then old(freezer.cursor) - 1 else old(freezer.cursor))
    ensures forall index: nat :: IndexIs(args, parseValue, index) && args[1] == "enable" && index < old(|freezer.frozenAddresses|) ==>
      && o == Done && freezer.frozenAddresses == old(freezer.frozenAddresses[index := freezer.frozenAddresses[index].(enabled := true)])
      && freezer.enabledAddressesAmount == old(freezer.enabledAddressesAmount) + 1
      && freezer.threadRunning == (old(freezer.threadRunning) || freezer.enabledAddressesAmount > 0)
      && freezer.cursor == (if !old(freezer.threadRunning) && freezer.enabledAddressesAmount > 0 then 0 else old(freezer.cursor))
    ensures forall index: nat :: IndexIs(args, parseValue, index) && args[1] == "disable" && index < old(|freezer.frozenAddresses|) ==>
      && o == Done && freezer.frozenAddresses == old(freezer.frozenAddresses[index := freezer.frozenAddresses[index].(enabled := false)])
      && freezer.enabledAddressesAmount == old(freezer.enabledAddressesAmount) - 1
      && freezer.threadRunning == old(freezer.threadRunning) && freezer.cursor == old(freezer.cursor)
    ensures |args| >= 2 && args[1] == "add" && |args| < 5 ==> o == Fail(Exc(RuntimeError, "Missing arguments.")) && unchanged(freezer)
    ensures |args| >= 5 && args[1] == "add" ==>
      match AddRequest(args, parseValue, mapsLines, findRegion)
      case Err(e) => o == Fail(e) && unchanged(freezer)
      case Ok(entry) =>
        && o == Done
        && freezer.frozenAddresses == old(freezer.frozenAddresses) + [entry]
        && freezer.enabledAddressesAmount == old(freezer.enabledAddressesAmount) + 1
        && freezer.threadRunning == (old(freezer.threadRunning) || freezer.enabledAddressesAmount > 0)
        && freezer.cursor == (if !old(freezer.threadRunning) && freezer.enabledAddressesAmount > 0 then 0 else old(freezer.cursor))
    ensures |args| >= 2 && args[1] != "list" && !IndexKeyword(args[1]) && args[1] != "add" ==>
      o == Fail(Exc(RuntimeError, "Invalid keyword.")) && unchanged(freezer)
  {
    if |args| < 2 {
      return Fail(Exc(RuntimeError, "Missing keyword argument."));
    }
    var keywordStr := args[1];
    if keywordStr == "list" {
      return Done;
    } else if keywordStr == "remove" || keywordStr == "enable" || keywordStr == "disable" {
      if |args| < 3 {
        return Fail(Exc(RuntimeError, "Missing arguments."));
      }
      var allFlag := false;
      var index: nat := ULONG_MODULUS - 1;
      var indexStr := args[2];
      if indexStr == "all" {
        allFlag := true;
      } else {
        var parsed := parseValue(U64, indexStr);
        if parsed.Err? {
          return Fail(parsed.exc);
        }
        index := parsed.value;
      }
      if keywordStr == "remove" {
        if allFlag {
          freezer.RemoveAllAddresses();
          o := Done;
        } else {
          o := freezer.RemoveAddress(index);
        }
      } else if keywordStr == "enable" {
        if allFlag {
          freezer.EnableAllAddresses();
          o := Done;
        } else {
          o := freezer.EnableAddress(index);
        }
      } else {
        if allFlag {
          freezer.DisableAllAddresses();
          o := Done;
        } else {
          o := freezer.DisableAddress(index);
        }
      }
    } else if keywordStr == "add" {
      if |args| < 5 {
        return Fail(Exc(RuntimeError, "Missing arguments."));
      }
      var address := parseValue(U64, args[2]);
      if address.Err? {
        return Fail(address.exc);
      }
      var regions := GetMemoryRegions(mapsLines);
      if regions.Err? {
        return Fail(regions.exc);
      }
      var memRegion := findRegion(regions.value, address.value);
      if memRegion.Err? {
        return Fail(memRegion.exc);
      }
      var typeStr := args[3];
      var dataStr := args[4];
      var t := ParseDataType(typeStr);
      if t.Err? {
        return Fail(t.exc);
      }
      var dataVector := DataToByteVector(t.value, dataStr, parseValue);
      if dataVector.Err? {
        return Fail(dataVector.exc);
      }
      var memAddress := MemAddress(address.value, memRegion.value);
      freezer.AddAddress(memAddress, typeStr, dataStr, dataVector.value);
      o := Done;
    } else {
      return Fail(Exc(RuntimeError, "Invalid keyword."));
    }
  }
}
