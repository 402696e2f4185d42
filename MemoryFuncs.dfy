/** Typed comparison and the searches of include/MemoryFuncs.h and
    src/MemoryFuncs.cpp. */
module MemoryFuncs {
  import opened Common
  import opened MemoryStructs
  import opened ComparisonType
  import opened MemoryAccess

  // ---------------------------------------------------------------------
  // Fixed-width integers stored little-endian

  /** The integer instantiations of CompareData<T> (int8_t … uint64_t). */
  datatype IntKind = I8 | I16 | I32 | I64 | U8 | U16 | U32 | U64

  /** sizeof(T). */
  function Width(k: IntKind): nat {
    match k
    case I8 | U8 => 1
    case I16 | U16 => 2
    case I32 | U32 => 4
    case I64 | U64 => 8
  }

  predicate Signed(k: IntKind) {
    k in {I8, I16, I32, I64}
  }

  function Pow256(n: nat): (p: nat)
    ensures p >= 1
  {
    if n == 0 then 1 else 256 * Pow256(n - 1)
  }

  /** 2^(8 * sizeof(T)). */
  function Modulus(k: IntKind): (m: nat)
    ensures m == Pow256(Width(k))
  {
    match k
    case I8 | U8 => assert Pow256(1) == 256; 256
    case I16 | U16 => assert Pow256(2) == 65536; 65536
    case I32 | U32 => assert Pow256(4) == 0x1_0000_0000; 0x1_0000_0000
    case I64 | U64 => assert Pow256(8) == 0x1_0000_0000_0000_0000; 0x1_0000_0000_0000_0000
  }

  /** The values a T can hold. */
  predicate InRange(k: IntKind, v: int) {
    if Signed(k) then -(Modulus(k) / 2) <= v < Modulus(k) / 2 else 0 <= v < Modulus(k)
  }

  /** The unsigned value of bytes stored least significant first. */
  function LittleEndian(bs: seq<byte>): nat {
    if bs == [] then 0 else bs[0] + 256 * LittleEndian(bs[1..])
  }

  /** The `w` bytes, least significant first, of `n` modulo 256^w. */
  function ToLittleEndian(n: nat, w: nat): (bs: seq<byte>)
    ensures |bs| == w
  {
    if w == 0 then [] else [n % 256] + ToLittleEndian(n / 256, w - 1)
  }

  /** `*(T*)p`: the value of the first sizeof(T) bytes read as a T
      (two's complement for the signed kinds). */
  function Value(k: IntKind, bs: seq<byte>): (v: int)
    requires |bs| >= Width(k)
  {
    var u := LittleEndian(bs[..Width(k)]);
    if Signed(k) && u >= Modulus(k) / 2 then u - Modulus(k) else u
  }

  /** The bytes of a T holding `v` (the object representation of `v`). */
  function Encode(k: IntKind, v: int): (bs: seq<byte>)
    requires InRange(k, v)
    ensures |bs| == Width(k)
  {
    ToLittleEndian(if v < 0 then v + Modulus(k) else v, Width(k))
  }

  /** CompareData<T>: lhs (the memory) against rhs (the needle) under `op`. */
  function CompareData(k: IntKind, lhs: seq<byte>, rhs: seq<byte>, op: ComparisonType): bool
    requires |lhs| >= Width(k) && |rhs| >= Width(k)
  {
    var l, r := Value(k, lhs), Value(k, rhs);
    match op
    case Equal => l == r
    case NotEqual => l != r
    case Greater => l > r
    case Less => l < r
    case GreaterEqual => l >= r
    case LessEqual => l <= r
  }

  lemma {:induction false} LittleEndianBound(bs: seq<byte>)
    ensures LittleEndian(bs) < Pow256(|bs|)
  {
    if bs != [] {
      LittleEndianBound(bs[1..]);
    }
  }

  lemma DivModByte(x: nat, y: nat)
    requires x < 256
    ensures (x + 256 * y) % 256 == x && (x + 256 * y) / 256 == y
  {
  }

  lemma {:induction false} ToLittleEndianOf(bs: seq<byte>)
    ensures ToLittleEndian(LittleEndian(bs), |bs|) == bs
  {
    if bs != [] {
      DivModByte(bs[0], LittleEndian(bs[1..]));
      ToLittleEndianOf(bs[1..]);
    }
  }

  lemma {:induction false} LittleEndianOf(n: nat, w: nat)
    requires n < Pow256(w)
    ensures LittleEndian(ToLittleEndian(n, w)) == n
  {
    if w > 0 {
      LittleEndianOf(n / 256, w - 1);
    }
  }

  /** Equal-length byte strings with the same value are the same bytes. */
  lemma LittleEndianInjective(a: seq<byte>, b: seq<byte>)
    requires |a| == |b| && LittleEndian(a) == LittleEndian(b)
    ensures a == b
  {
    ToLittleEndianOf(a);
    ToLittleEndianOf(b);
  }

  /** Every decoded value is one a T can hold. */
  lemma ValueInRange(k: IntKind, bs: seq<byte>)
    requires |bs| >= Width(k)
    ensures InRange(k, Value(k, bs))
  {
    var w := Width(k);
    var u := LittleEndian(bs[..w]);
    LittleEndianBound(bs[..w]);
    assert |bs[..w]| == w;
    assert u < Modulus(k);
    var m := Modulus(k);
    assert m % 2 == 0 && m / 2 * 2 == m;
  }

  /** Reading back the bytes of a stored value gives the value. */
  lemma ValueOfEncode(k: IntKind, v: int)
    requires InRange(k, v)
    ensures Value(k, Encode(k, v)) == v
  {
    var u := if v < 0 then v + Modulus(k) else v;
    LittleEndianOf(u, Width(k));
    assert Encode(k, v)[..Width(k)] == Encode(k, v);
  }

  /** Storing a decoded value gives back the bytes it was read from. */
  lemma EncodeOfValue(k: IntKind, bs: seq<byte>)
    requires |bs| == Width(k)
    ensures InRange(k, Value(k, bs)) && Encode(k, Value(k, bs)) == bs
  {
    ValueInRange(k, bs);
    assert bs[..Width(k)] == bs;
    LittleEndianBound(bs);
    ToLittleEndianOf(bs);
  }

  /** `==` holds exactly when the two buffers agree byte for byte over the
      width of T, for signed and unsigned kinds alike. */
  lemma CompareEqualIffSameBytes(k: IntKind, lhs: seq<byte>, rhs: seq<byte>)
    requires |lhs| >= Width(k) && |rhs| >= Width(k)
    ensures CompareData(k, lhs, rhs, Equal) <==> lhs[..Width(k)] == rhs[..Width(k)]
  {
    var w := Width(k);
    var l, r := lhs[..w], rhs[..w];
    assert Value(k, l) == Value(k, lhs) by {
      assert l[..w] == l;
    }
    assert Value(k, r) == Value(k, rhs) by {
      assert r[..w] == r;
    }
    if Value(k, lhs) == Value(k, rhs) {
      EncodeOfValue(k, l);
      EncodeOfValue(k, r);
    }
  }

  /** The six operators are each other's negations and converses. */
  lemma CompareDataDuality(k: IntKind, lhs: seq<byte>, rhs: seq<byte>)
    requires |lhs| >= Width(k) && |rhs| >= Width(k)
    ensures CompareData(k, lhs, rhs, NotEqual) == !CompareData(k, lhs, rhs, Equal)
    ensures CompareData(k, lhs, rhs, GreaterEqual) == !CompareData(k, lhs, rhs, Less)
    ensures CompareData(k, lhs, rhs, LessEqual) == !CompareData(k, lhs, rhs, Greater)
    ensures CompareData(k, lhs, rhs, Greater) == CompareData(k, rhs, lhs, Less)
  {
  }

  /** Against the stored representation of a needle value `v`, each operator
      is the matching relation between the memory value and `v`. */
  lemma CompareAgainstEncoded(k: IntKind, mem: seq<byte>, v: int, op: ComparisonType)
    requires |mem| >= Width(k) && InRange(k, v)
    ensures var m := Value(k, mem);
      CompareData(k, mem, Encode(k, v), op) ==
        match op
        case Equal => m == v
        case NotEqual => m != v
        case Greater => m > v
        case Less => m < v
        case GreaterEqual => m >= v
        case LessEqual => m <= v
  {
    ValueOfEncode(k, v);
  }

  // ---------------------------------------------------------------------
  // What a search compares

  /** A scan's comparison: CompareData<T> for an integer T under an operator,
      or the byte equality used for text (memcmp). */
  datatype Comparator = Numeric(kind: IntKind, op: ComparisonType) | Bytes

  /** A search request: the comparison, the needle's bytes and dataSize. */
  datatype Query = Query(cmp: Comparator, needle: seq<byte>, dataSize: nat) {
    /** The callers pass sizeof(T) for an integer T, and the text's length for text. */
    predicate Valid() {
      match cmp
      case Numeric(k, _) => dataSize == Width(k) && |needle| == Width(k)
      case Bytes => |needle| == dataSize
    }
  }

  /** Whether a window of dataSize memory bytes (the lhs) matches the needle (the rhs). */
  predicate Matches(q: Query, window: seq<byte>)
    requires q.Valid() && |window| == q.dataSize
  {
    match q.cmp
    case Numeric(k, op) => CompareData(k, window, q.needle, op)
    case Bytes => window == q.needle
  }

  /** Offset `i` is visited by the window loop: i < size and at least
      dataSize bytes remain from it. */
  predicate Fits(mem: seq<byte>, dataSize: nat, i: nat) {
    i < |mem| && i + dataSize <= |mem|
  }

  predicate HitAt(q: Query, mem: seq<byte>, i: nat)
    requires q.Valid()
  {
    Fits(mem, q.dataSize, i) && Matches(q, mem[i..i + q.dataSize])
  }

  // ---------------------------------------------------------------------
  // FindDataInMemory over regions

  /** For each offset of `mem` below `n`, whether the window loop reports it. */
  function HitMask(q: Query, mem: seq<byte>, n: nat): (m: seq<bool>)
    requires q.Valid() && n <= |mem|
    ensures |m| == n
  {
    if n == 0 then [] else HitMask(q, mem, n - 1) + [HitAt(q, mem, n - 1)]
  }

  lemma {:induction false} HitMaskAt(q: Query, mem: seq<byte>, n: nat, i: nat)
    requires q.Valid() && i < n <= |mem|
    ensures HitMask(q, mem, n)[i] == HitAt(q, mem, i)
  {
    if i < n - 1 {
      HitMaskAt(q, mem, n - 1, i);
    }
  }

  /** The addresses of region `r` at the offsets below `n` that `mask`
      marks, in increasing order. */
  function Collect(r: MemRegion, mask: seq<bool>, n: nat): seq<MemAddress>
    requires n <= |mask|
  {
    if n == 0 then []
    else Collect(r, mask, n - 1) + (if mask[n - 1] then [MemAddress(r.startAddr + n - 1, r)] else [])
  }

  /** The addresses the window loop reports over the bytes `mem` read from region `r`. */
  function RegionHits(q: Query, r: MemRegion, mem: seq<byte>): seq<MemAddress>
    requires q.Valid()
  {
    Collect(r, HitMask(q, mem, |mem|), |mem|)
  }

  /** What one region contributes: nothing when it is unreadable or its read
      throws, otherwise the hits over the bytes read. */
  function ScanRegion(sys: ReadSyscall, pid: int, q: Query, r: MemRegion): seq<MemAddress>
    requires q.Valid()
  {
    if !r.perms.readFlag then []
    else match ReadProcessMemory(sys, pid, r.startAddr, r.rangeLength)
      case Err(_) => []
      case Ok(mem) => RegionHits(q, r, mem)
  }

  /** The template region search: every region's contribution, in region order. */
  function SearchRegions(sys: ReadSyscall, pid: int, regions: seq<MemRegion>, q: Query): seq<MemAddress>
    requires q.Valid()
  {
    if regions == [] then []
    else SearchRegions(sys, pid, regions[..|regions| - 1], q) + ScanRegion(sys, pid, q, regions[|regions| - 1])
  }

  /** `a` is a match found in region `r`: the region is readable, its read
      succeeded, and the comparison holds at offset a.address - r.startAddr. */
  predicate FoundIn(sys: ReadSyscall, pid: int, q: Query, r: MemRegion, a: MemAddress)
    requires q.Valid()
  {
    && r.perms.readFlag
    && ReadProcessMemory(sys, pid, r.startAddr, r.rangeLength).Ok?
    && a.memRegion == r
    && r.startAddr <= a.address
    && HitAt(q, ReadProcessMemory(sys, pid, r.startAddr, r.rangeLength).value, a.address - r.startAddr)
  }

  /** Collecting keeps only marked offsets of region `r`, keeps every one
      of them, and lists them in strictly increasing address order. */
  lemma {:induction false} CollectSpec(r: MemRegion, mask: seq<bool>, n: nat)
    requires n <= |mask|
    ensures var res := Collect(r, mask, n);
      && (forall k :: 0 <= k < |res| ==>
            res[k].memRegion == r && r.startAddr <= res[k].address < r.startAddr + n
            && mask[res[k].address - r.startAddr])
      && (forall i :: 0 <= i < n && mask[i] ==> MemAddress(r.startAddr + i, r) in res)
      && (forall k, l :: 0 <= k < l < |res| ==> res[k].address < res[l].address)
  {
    if n > 0 {
      CollectSpec(r, mask, n - 1);
    }
  }

  /** Unmarked offsets past `i` add nothing. */
  lemma {:induction false} CollectPastEnd(r: MemRegion, mask: seq<bool>, i: nat, n: nat)
    requires i <= n <= |mask|
    requires forall j :: i <= j < n ==> !mask[j]
    ensures Collect(r, mask, n) == Collect(r, mask, i)
    decreases n
  {
    if n > i {
      CollectPastEnd(r, mask, i, n - 1);
    }
  }

  /** Within one region: every reported address is start + i for an offset
      where the comparison holds, every such offset is reported, and the
      addresses increase strictly. */
  lemma RegionHitsSpec(q: Query, r: MemRegion, mem: seq<byte>)
    requires q.Valid()
    ensures var res := RegionHits(q, r, mem);
      && (forall k :: 0 <= k < |res| ==>
            res[k].memRegion == r && r.startAddr <= res[k].address < r.startAddr + |mem|
            && HitAt(q, mem, res[k].address - r.startAddr))
      && (forall i :: 0 <= i < |mem| && HitAt(q, mem, i) ==> MemAddress(r.startAddr + i, r) in res)
      && (forall k, l :: 0 <= k < l < |res| ==> res[k].address < res[l].address)
  {
    var mask := HitMask(q, mem, |mem|);
    CollectSpec(r, mask, |mem|);
    forall i | 0 <= i < |mem|
      ensures mask[i] == HitAt(q, mem, i)
    {
      HitMaskAt(q, mem, |mem|, i);
    }
    var res := RegionHits(q, r, mem);
    assert res == Collect(r, mask, |mem|);
    forall k | 0 <= k < |res|
      ensures HitAt(q, mem, res[k].address - r.startAddr)
    {
      var i := res[k].address - r.startAddr;
      assert 0 <= i < |mem| && mask[i];
    }
  }

  /** Once fewer than dataSize bytes remain, no later offset is a hit: the
      loop's early `break` loses no match. */
  lemma NoHitsPastEnd(q: Query, r: MemRegion, mem: seq<byte>, i: nat)
    requires q.Valid() && i <= |mem| && |mem| - i < q.dataSize
    ensures RegionHits(q, r, mem) == Collect(r, HitMask(q, mem, |mem|), i)
  {
    var mask := HitMask(q, mem, |mem|);
    forall j | i <= j < |mem|
      ensures !mask[j]
    {
      HitMaskAt(q, mem, |mem|, j);
    }
    CollectPastEnd(r, mask, i, |mem|);
  }

  /** Searching two lists of regions one after the other gives the two
      results in that order. */
  lemma {:induction false} SearchRegionsAppend(sys: ReadSyscall, pid: int, a: seq<MemRegion>, b: seq<MemRegion>, q: Query)
    requires q.Valid()
    ensures SearchRegions(sys, pid, a + b, q) == SearchRegions(sys, pid, a, q) + SearchRegions(sys, pid, b, q)
    decreases |b|
  {
    if b == [] {
      assert a + b == a;
    } else {
      var b' := b[..|b| - 1];
      SearchRegionsAppend(sys, pid, a, b', q);
      assert b == b' + [b[|b| - 1]];
      SearchRegionsAppendStep(sys, pid, a, b', b[|b| - 1], q);
    }
  }

  lemma SearchRegionsAppendStep(sys: ReadSyscall, pid: int, a: seq<MemRegion>, b: seq<MemRegion>, last: MemRegion, q: Query)
    requires q.Valid()
    requires SearchRegions(sys, pid, a + b, q) == SearchRegions(sys, pid, a, q) + SearchRegions(sys, pid, b, q)
    ensures SearchRegions(sys, pid, a + (b + [last]), q) == SearchRegions(sys, pid, a, q) + SearchRegions(sys, pid, b + [last], q)
  {
    var ab := a + (b + [last]);
    assert ab[..|ab| - 1] == a + b && ab[|ab| - 1] == last;
    var bl := b + [last];
    assert bl[..|bl| - 1] == b && bl[|bl| - 1] == last;
    var x := ScanRegion(sys, pid, q, last);
    var sa, sb := SearchRegions(sys, pid, a, q), SearchRegions(sys, pid, b, q);
    assert SearchRegions(sys, pid, ab, q) == (sa + sb) + x;
    assert SearchRegions(sys, pid, bl, q) == sb + x;
    ConcatAssoc(sa, sb, x);
  }

  lemma ConcatAssoc<T>(p: seq<T>, q: seq<T>, r: seq<T>)
    ensures (p + q) + r == p + (q + r)
  {
  }

  /** A region whose read throws, like an unreadable one, contributes nothing,
      and the regions after it are still searched. */
  lemma SkippedRegion(sys: ReadSyscall, pid: int, a: seq<MemRegion>, r: MemRegion, b: seq<MemRegion>, q: Query)
    requires q.Valid()
    requires !r.perms.readFlag || ReadProcessMemory(sys, pid, r.startAddr, r.rangeLength).Err?
    ensures SearchRegions(sys, pid, a + [r] + b, q) == SearchRegions(sys, pid, a, q) + SearchRegions(sys, pid, b, q)
  {
    assert ScanRegion(sys, pid, q, r) == [];
    var ar := a + [r];
    assert ar[..|ar| - 1] == a && ar[|ar| - 1] == r;
    assert SearchRegions(sys, pid, ar, q) == SearchRegions(sys, pid, a, q) + ScanRegion(sys, pid, q, r);
    SearchRegionsAppend(sys, pid, ar, b, q);
  }

  /** One more region adds its own contribution at the end. */
  lemma SearchRegionsStep(sys: ReadSyscall, pid: int, regions: seq<MemRegion>, q: Query, n: nat)
    requires q.Valid() && n < |regions|
    ensures SearchRegions(sys, pid, regions[..n + 1], q)
      == SearchRegions(sys, pid, regions[..n], q) + ScanRegion(sys, pid, q, regions[n])
  {
    assert regions[..n + 1][..n] == regions[..n];
  }

  /** Soundness: every reported address was found in one of the regions
      searched (so never in an unreadable region or one whose read failed). */
  lemma {:induction false} SearchRegionsSound(sys: ReadSyscall, pid: int, regions: seq<MemRegion>, q: Query, a: MemAddress)
    requires q.Valid()
    requires a in SearchRegions(sys, pid, regions, q)
    ensures exists j :: 0 <= j < |regions| && FoundIn(sys, pid, q, regions[j], a)
  {
    var n := |regions|;
    var init := regions[..n - 1];
    var r := regions[n - 1];
    assert SearchRegions(sys, pid, regions, q) == SearchRegions(sys, pid, init, q) + ScanRegion(sys, pid, q, r);
    if a in SearchRegions(sys, pid, init, q) {
      SearchRegionsSound(sys, pid, init, q, a);
      var j :| 0 <= j < |init| && FoundIn(sys, pid, q, init[j], a);
      assert regions[j] == init[j];
    } else {
      ScanRegionSound(sys, pid, q, r, a);
    }
  }

  /** Every address a region contributes was found in that region. */
  lemma ScanRegionSound(sys: ReadSyscall, pid: int, q: Query, r: MemRegion, a: MemAddress)
    requires q.Valid() && a in ScanRegion(sys, pid, q, r)
    ensures FoundIn(sys, pid, q, r, a)
  {
    var read := ReadProcessMemory(sys, pid, r.startAddr, r.rangeLength);
    assert r.perms.readFlag && read.Ok?;
    var res := RegionHits(q, r, read.value);
    assert a in res;
    RegionHitsSpec(q, r, read.value);
    var k :| 0 <= k < |res| && res[k] == a;
  }

  /** What a region contributes is part of the search of any list holding it. */
  lemma {:induction false} SearchRegionsContains(sys: ReadSyscall, pid: int, regions: seq<MemRegion>, q: Query, j: nat, a: MemAddress)
    requires q.Valid() && j < |regions|
    requires a in ScanRegion(sys, pid, q, regions[j])
    ensures a in SearchRegions(sys, pid, regions, q)
  {
    var init := regions[..|regions| - 1];
    if j < |regions| - 1 {
      assert init[j] == regions[j];
      SearchRegionsContains(sys, pid, init, q, j, a);
    }
  }

  /** Completeness: every offset of every readable, successfully read region
      where the comparison holds is reported, at any alignment. */
  lemma SearchRegionsComplete(sys: ReadSyscall, pid: int, regions: seq<MemRegion>, q: Query, j: nat, i: nat)
    requires q.Valid() && j < |regions|
    requires regions[j].perms.readFlag
    requires ReadProcessMemory(sys, pid, regions[j].startAddr, regions[j].rangeLength).Ok?
    requires HitAt(q, ReadProcessMemory(sys, pid, regions[j].startAddr, regions[j].rangeLength).value, i)
    ensures MemAddress(regions[j].startAddr + i, regions[j]) in SearchRegions(sys, pid, regions, q)
  {
    ScanRegionComplete(sys, pid, q, regions[j], i);
    SearchRegionsContains(sys, pid, regions, q, j, MemAddress(regions[j].startAddr + i, regions[j]));
  }

  lemma ScanRegionComplete(sys: ReadSyscall, pid: int, q: Query, r: MemRegion, i: nat)
    requires q.Valid() && r.perms.readFlag
    requires ReadProcessMemory(sys, pid, r.startAddr, r.rangeLength).Ok?
    requires HitAt(q, ReadProcessMemory(sys, pid, r.startAddr, r.rangeLength).value, i)
    ensures MemAddress(r.startAddr + i, r) in ScanRegion(sys, pid, q, r)
  {
    RegionHitsSpec(q, r, ReadProcessMemory(sys, pid, r.startAddr, r.rangeLength).value);
  }

  /** The window loop of FindDataInMemory over one region's bytes: one-byte
      steps, stopping once fewer than dataSize bytes remain. */
  method FindDataInBuffer(q: Query, r: MemRegion, regMemory: seq<byte>) returns (hits: seq<MemAddress>)
    requires q.Valid()
    ensures hits == RegionHits(q, r, regMemory)
  {
    ghost var mask := HitMask(q, regMemory, |regMemory|);
    hits := [];
    var i := 0;
    while i < |regMemory|
      invariant 0 <= i <= |regMemory|
      invariant hits == Collect(r, mask, i)
    {
      if |regMemory| - i < q.dataSize {
        NoHitsPastEnd(q, r, regMemory, i);
        return;
      }
      HitMaskAt(q, regMemory, |regMemory|, i);
      if Matches(q, regMemory[i..i + q.dataSize]) {
        hits := hits + [MemAddress(r.startAddr + i, r)];
      }
      i := i + 1;
    }
  }

  /** The template FindDataInMemory over regions: skips unreadable regions,
      swallows a failed read and goes on with the next region. */
  method FindDataInRegions(sys: ReadSyscall, pid: int, memRegions: seq<MemRegion>, q: Query)
    returns (addrs: seq<MemAddress>)
    requires q.Valid()
    ensures addrs == SearchRegions(sys, pid, memRegions, q)
  {
    addrs := [];
    var it := 0;
    while it < |memRegions|
      invariant 0 <= it <= |memRegions|
      invariant addrs == SearchRegions(sys, pid, memRegions[..it], q)
    {
      var r := memRegions[it];
      SearchRegionsStep(sys, pid, memRegions, q, it);
      if r.perms.readFlag {
        var read := ReadProcessMemory(sys, pid, r.startAddr, r.rangeLength);
        if read.Ok? {
          var hits := FindDataInBuffer(q, r, read.value);
          addrs := addrs + hits;
        }
      }
      it := it + 1;
    }
    assert memRegions[..it] == memRegions;
  }

  // ---------------------------------------------------------------------
  // FindDataInMemory over saved addresses

  /** A saved address survives a re-check: its region is readable, its
      re-read of dataSize bytes succeeds, and the comparison holds. */
  predicate Keep(sys: ReadSyscall, pid: int, q: Query, a: MemAddress)
    requires q.Valid()
  {
    && a.memRegion.perms.readFlag
    && var read := ReadProcessMemory(sys, pid, a.address, q.dataSize);
    && read.Ok?
    && |read.value| == q.dataSize
    && Matches(q, read.value)
  }

  /** No readable saved address is re-read short: comparing a short buffer
      reads past its end, which has no defined result in C++. */
  predicate NoShortRereads(sys: ReadSyscall, pid: int, dataSize: nat, addrs: seq<MemAddress>) {
    forall k :: 0 <= k < |addrs| && addrs[k].memRegion.perms.readFlag ==>
      sys(pid, addrs[k].address, dataSize).nread < 0 || sys(pid, addrs[k].address, dataSize).nread == dataSize
  }

  /** The template address search: the saved addresses that survive, in order. */
  function FilterAddresses(sys: ReadSyscall, pid: int, addrs: seq<MemAddress>, q: Query): seq<MemAddress>
    requires q.Valid()
  {
    if addrs == [] then []
    else
      var last := addrs[|addrs| - 1];
      FilterAddresses(sys, pid, addrs[..|addrs| - 1], q) + (if Keep(sys, pid, q, last) then [last] else [])
  }

  /** `s` is `t` with some elements left out, the rest kept in order. */
  predicate IsSubsequence<T(==)>(s: seq<T>, t: seq<T>)
    decreases |t|
  {
    if s == [] then true
    else if t == [] then false
    else if s[|s| - 1] == t[|t| - 1] then IsSubsequence(s[..|s| - 1], t[..|t| - 1])
    else IsSubsequence(s, t[..|t| - 1])
  }

  lemma {:induction false} SubsequenceDropLast<T>(s: seq<T>, t: seq<T>)
    requires s != [] && IsSubsequence(s, t)
    ensures IsSubsequence(s[..|s| - 1], t)
    decreases |t|, 1
  {
    var t' := t[..|t| - 1];
    if s[|s| - 1] == t[|t| - 1] {
      SubsequenceExtend(s[..|s| - 1], t', t[|t| - 1]);
      assert t' + [t[|t| - 1]] == t;
    } else {
      SubsequenceDropLast(s, t');
      SubsequenceExtend(s[..|s| - 1], t', t[|t| - 1]);
      assert t' + [t[|t| - 1]] == t;
    }
  }

  lemma {:induction false} SubsequenceExtend<T>(s: seq<T>, t: seq<T>, x: T)
    requires IsSubsequence(s, t)
    ensures IsSubsequence(s, t + [x])
    decreases |t|, 2
  {
    assert (t + [x])[..|t|] == t;
    if s != [] && s[|s| - 1] == x {
      SubsequenceDropLast(s, t);
    }
  }

  /** Every sequence is a subsequence of itself. */
  lemma {:induction false} SubsequenceRefl<T>(s: seq<T>)
    ensures IsSubsequence(s, s)
    decreases |s|
  {
    if s != [] {
      SubsequenceRefl(s[..|s| - 1]);
    }
  }

  /** A subsequence is no longer than the sequence and holds only its elements. */
  lemma {:induction false} SubsequenceBounds<T>(s: seq<T>, t: seq<T>)
    requires IsSubsequence(s, t)
    ensures |s| <= |t|
    ensures forall x :: x in s ==> x in t
    decreases |t|
  {
    if s != [] {
      var t' := t[..|t| - 1];
      if s[|s| - 1] == t[|t| - 1] {
        SubsequenceBounds(s[..|s| - 1], t');
        assert s == s[..|s| - 1] + [s[|s| - 1]];
        assert t == t' + [t[|t| - 1]];
      } else {
        SubsequenceBounds(s, t');
        assert t == t' + [t[|t| - 1]];
      }
    }
  }

  /** The address search keeps an order-preserving subsequence of its input,
      entries unaltered, so it never grows the list. */
  lemma {:induction false} FilterIsSubsequence(sys: ReadSyscall, pid: int, addrs: seq<MemAddress>, q: Query)
    requires q.Valid()
    ensures IsSubsequence(FilterAddresses(sys, pid, addrs, q), addrs)
    ensures |FilterAddresses(sys, pid, addrs, q)| <= |addrs|
  {
    if addrs != [] {
      var init := addrs[..|addrs| - 1];
      var last := addrs[|addrs| - 1];
      var f := FilterAddresses(sys, pid, init, q);
      FilterIsSubsequence(sys, pid, init, q);
      assert addrs == init + [last];
      assert addrs[..|addrs| - 1] == init;
      if Keep(sys, pid, q, last) {
        assert (f + [last])[..|f|] == f;
        assert IsSubsequence(f + [last], init + [last]);
      } else {
        SubsequenceExtend(f, init, last);
        assert FilterAddresses(sys, pid, addrs, q) == f;
      }
    }
    SubsequenceBounds(FilterAddresses(sys, pid, addrs, q), addrs);
  }

  /** An entry is kept exactly when it was in the input and its re-check
      succeeds: unreadable regions and failed re-reads are dropped. */
  lemma {:induction false} FilterMembership(sys: ReadSyscall, pid: int, addrs: seq<MemAddress>, q: Query, a: MemAddress)
    requires q.Valid()
    ensures a in FilterAddresses(sys, pid, addrs, q) <==> a in addrs && Keep(sys, pid, q, a)
  {
    if addrs != [] {
      var init := addrs[..|addrs| - 1];
      FilterMembership(sys, pid, init, q, a);
      assert addrs == init + [addrs[|addrs| - 1]];
    }
  }

  /** The template FindDataInMemory over saved addresses: re-reads each
      readable address for dataSize bytes and keeps it when the comparison
      still holds; a failed re-read drops the address. */
  method FindDataInAddresses(sys: ReadSyscall, pid: int, memAddrs: seq<MemAddress>, q: Query)
    returns (addrs: seq<MemAddress>)
    requires q.Valid()
    requires NoShortRereads(sys, pid, q.dataSize, memAddrs)
    ensures addrs == FilterAddresses(sys, pid, memAddrs, q)
  {
    addrs := [];
    var it := 0;
    while it < |memAddrs|
      invariant 0 <= it <= |memAddrs|
      invariant addrs == FilterAddresses(sys, pid, memAddrs[..it], q)
    {
      var a := memAddrs[it];
      assert memAddrs[..it + 1][..it] == memAddrs[..it];
      if a.memRegion.perms.readFlag {
        var read := ReadProcessMemory(sys, pid, a.address, q.dataSize);
        if read.Ok? {
          var addrMemory := read.value;
          if Matches(q, addrMemory) {
            addrs := addrs + [a];
          }
        }
      }
      it := it + 1;
    }
    assert memAddrs[..it] == memAddrs;
  }

  // ---------------------------------------------------------------------
  // The non-template FindDataInMemory (memcmp equality, failures propagate)

  /** The equality search of src/MemoryFuncs.cpp: like the byte-equality
      region search, except that the first failed read of a readable region
      is thrown out of the search. */
  function SearchRegionsOrThrow(sys: ReadSyscall, pid: int, regions: seq<MemRegion>, q: Query): Result<seq<MemAddress>>
    requires q.Valid()
  {
    if regions == [] then Ok([])
    else
      var prefix := SearchRegionsOrThrow(sys, pid, regions[..|regions| - 1], q);
      var r := regions[|regions| - 1];
      if prefix.Err? then prefix
      else if !r.perms.readFlag then prefix
      else match ReadProcessMemory(sys, pid, r.startAddr, r.rangeLength)
        case Err(e) => Err(e)
        case Ok(mem) => Ok(prefix.value + RegionHits(q, r, mem))
  }

  /** A readable region whose read throws. */
  predicate ReadFails(sys: ReadSyscall, pid: int, r: MemRegion) {
    r.perms.readFlag && ReadProcessMemory(sys, pid, r.startAddr, r.rangeLength).Err?
  }

  /** The equality search succeeds exactly when no readable region's read
      fails, and then reports what the lenient search reports; when it fails,
      it throws the error of the first failing region. */
  lemma {:induction false} SearchOrThrowAgrees(sys: ReadSyscall, pid: int, regions: seq<MemRegion>, q: Query)
    requires q.Valid()
    ensures var r := SearchRegionsOrThrow(sys, pid, regions, q);
      && (r.Ok? <==> forall j :: 0 <= j < |regions| ==> !ReadFails(sys, pid, regions[j]))
      && (r.Ok? ==> r.value == SearchRegions(sys, pid, regions, q))
      && (r.Err? ==>
            exists j :: 0 <= j < |regions| && ReadFails(sys, pid, regions[j])
              && (forall i :: 0 <= i < j ==> !ReadFails(sys, pid, regions[i]))
              && r.exc == ReadProcessMemory(sys, pid, regions[j].startAddr, regions[j].rangeLength).exc)
  {
    if regions != [] {
      var init := regions[..|regions| - 1];
      SearchOrThrowAgrees(sys, pid, init, q);
      assert forall j :: 0 <= j < |init| ==> init[j] == regions[j];
    }
  }

  /** MemoryFuncs::FindDataInMemory (non-template): the addresses where the
      memory bytes equal `dataToFind`; a failed region read propagates. */
  method FindBytesInRegions(sys: ReadSyscall, pid: int, memRegions: seq<MemRegion>, dataSize: nat, dataToFind: seq<byte>)
    returns (r: Result<seq<MemAddress>>)
    requires |dataToFind| == dataSize
    ensures r == SearchRegionsOrThrow(sys, pid, memRegions, Query(Bytes, dataToFind, dataSize))
  {
    var q := Query(Bytes, dataToFind, dataSize);
    var addrs := [];
    var it := 0;
    while it < |memRegions|
      invariant 0 <= it <= |memRegions|
      invariant SearchRegionsOrThrow(sys, pid, memRegions[..it], q) == Ok(addrs)
    {
      var reg := memRegions[it];
      assert memRegions[..it + 1][..it] == memRegions[..it];
      if reg.perms.readFlag {
        var read := ReadProcessMemory(sys, pid, reg.startAddr, reg.rangeLength);
        if read.Err? {
          SearchOrThrowStops(sys, pid, memRegions, q, it + 1);
          return Err(read.exc);
        }
        var hits := FindDataInBuffer(q, reg, read.value);
        addrs := addrs + hits;
      }
      it := it + 1;
    }
    assert memRegions[..it] == memRegions;
    return Ok(addrs);
  }

  /** Once the search of a prefix has thrown, the whole search throws the same. */
  lemma {:induction false} SearchOrThrowStops(sys: ReadSyscall, pid: int, regions: seq<MemRegion>, q: Query, n: nat)
    requires q.Valid() && n <= |regions|
    requires SearchRegionsOrThrow(sys, pid, regions[..n], q).Err?
    ensures SearchRegionsOrThrow(sys, pid, regions, q) == SearchRegionsOrThrow(sys, pid, regions[..n], q)
    decreases |regions| - n
  {
    if n < |regions| {
      assert regions[..n + 1][..n] == regions[..n];
      SearchOrThrowStops(sys, pid, regions, q, n + 1);
    } else {
      assert regions[..n] == regions;
    }
  }
}
