/** ROM table scanning: reading a table in chunks handles the entries that reading it entry by entry would, and the
    addresses it computes. */
module RomTables {
  import opened Bytes
  import opened AdiHardware

  const READ_COUNT := 9
  const CLASS1_MAX_ENTRIES := 960
  const CLASS9_MAX_ENTRIES := 512

  datatype Format = Class1 | Class9Narrow | Class9Wide   // Class 0x9 with 32- or 64-bit entries

  /** A component that is looked at: the number of its entry, and its address. */
  datatype Probe = Probe(number: nat, address: int)

  /** 32-bit words in an entry. */
  function Words(f: Format): nat {
    if f.Class9Wide? then 2 else 1
  }

  /** How many entries are read at most. The limit of the wide format counts words, so it is a quarter of 512. */
  function MaxEntries(f: Format): nat {
    match f
    case Class1 => CLASS1_MAX_ENTRIES
    case Class9Narrow => CLASS9_MAX_ENTRIES
    case Class9Wide => CLASS9_MAX_ENTRIES / 2 / 2
  }

  function AddressSpace(f: Format): int {
    if f.Class9Wide? then 0x1_0000_0000_0000_0000 else 0x1_0000_0000
  }

  function Joined(lo: word, hi: word): int {
    lo + 0x1_0000_0000 * hi
  }

  /** Entry `n` of the table at `base`, in a memory given word by word. */
  function EntryAt(f: Format, memory: int -> word, base: int, n: nat): int {
    var a := EntryAddress(f, base, n);
    if f.Class9Wide? then Joined(memory(a), memory(a + 4)) else memory(a)
  }

  function EntryAddress(f: Format, base: int, n: nat): int {
    if f.Class9Wide? then base + 8 * n else base + 4 * n
  }

  predicate IsFinal(f: Format, entry: int) {
    if f.Class1? then entry == 0 else entry % 4 == 0
  }

  /** Present, and in 32-bit format (Class 0x1); present (Class 0x9). The same two bits. */
  predicate IsProbed(entry: int) {
    entry % 4 == 3
  }

  lemma LowBits(entry: int)
    ensures IsProbed(entry) <==> entry % 2 != 0 && entry / 2 % 2 != 0
  {
  }

  /** A 64-bit entry has its first word at the bottom. */
  lemma JoinedHalves(lo: word, hi: word)
    ensures Joined(lo, hi) % 0x1_0000_0000 == lo && Joined(lo, hi) / 0x1_0000_0000 == hi
  {
  }

  /** A Class 0x1 table ends at a zero word, a Class 0x9 table at an entry with both low bits clear; an entry with only
      one of them set is passed over. */
  lemma FinalEntries(f: Format, entry: nat)
    ensures f.Class1? ==> (IsFinal(f, entry) <==> entry == 0)
    ensures !f.Class1? ==> (IsFinal(f, entry) <==> entry % 2 == 0 && entry / 2 % 2 == 0)
    ensures !f.Class1? && !IsFinal(f, entry) && !IsProbed(entry) <==>
              !f.Class1? && (entry % 2 == 0) != (entry / 2 % 2 == 0)
  {
    assert entry == 4 * (entry / 4) + entry % 4;
    LowBits(entry);
  }

  /** At most the 0xF00 bytes before the registers of a Class 0x1 table are read, and of a Class 0x9 table 0x800 bytes,
      or 0x400 of the 64-bit format, whose limit is halved twice; entries follow one another without gaps. */
  lemma TableExtent(f: Format, base: int, n: nat)
    ensures EntryAddress(f, base, 0) == base && EntryAddress(f, base, n + 1) == EntryAddress(f, base, n) + 4 * Words(f)
    ensures EntryAddress(f, base, MaxEntries(f)) == base + match f
            case Class1 => 0xF00
            case Class9Narrow => 0x800
            case Class9Wide => 0x400
  {
  }

  // ---- Addresses ----

  /** The value with all bits of its width inverted. */
  function BitInvert(value: int, space: int): int {
    space - 1 - value
  }

  /** The offset field: the entry without its low 12 bits, negative when its top bit is set. */
  function OffsetOf(entry: int, space: int): int {
    var offset := entry / 0x1000 * 0x1000;
    if entry >= space / 2 then -BitInvert(offset, space) - 1 else offset
  }

  function AddressOf(base: int, entry: int, space: int): int {
    var address := base + OffsetOf(entry, space);
    if address < 0 then space + address else address
  }

  /** The address is base plus offset modulo the address space exactly for negative offsets, and for positive ones
      that stay inside the space: a positive offset that runs over the top is not reduced. */
  lemma AddressIsModularExactlyWhen(f: Format, base: int, entry: int)
    requires var space := if f.Class9Wide? then 0x1_0000_0000_0000_0000 else 0x1_0000_0000;
             0 <= base < space && 0 <= entry < space
    ensures var space := if f.Class9Wide? then 0x1_0000_0000_0000_0000 else 0x1_0000_0000;
            var offset := entry / 0x1000 * 0x1000;
            AddressOf(base, entry, AddressSpace(f)) == (base + offset) % space
            <==> entry >= space / 2 || base + offset < space
  {
    var space := AddressSpace(f);
    var offset := entry / 0x1000 * 0x1000;
    assert 0 <= offset <= entry;
    if base + offset < space {
      assert (base + offset) % space == base + offset;
    } else {
      assert (base + offset) % space == base + offset - space;
    }
  }

  /** A table at 0xF0000000 with an entry 0x20000 pages up: the address is over the top of the 32-bit space. */
  lemma AddressOverTheTop()
    ensures AddressOf(0xF000_0000, 0x2000_0003, 0x1_0000_0000) == 0x1_1000_0000
  {
  }

  // ---- Scanning ----

  /** Entry by entry from entry `n` on: the components to look at, until a final entry or the limit. */
  function Scan(f: Format, memory: int -> word, base: int, n: nat): seq<Probe>
    decreases MaxEntries(f) - n
  {
    if n >= MaxEntries(f) then []
    else
      var entry := EntryAt(f, memory, base, n);
      if IsFinal(f, entry) then []
      else ProbeOf(f, base, entry, n) + Scan(f, memory, base, n + 1)
  }

  function ProbeOf(f: Format, base: int, entry: int, n: nat): seq<Probe> {
    if IsProbed(entry) then [Probe(n, AddressOf(base, entry, AddressSpace(f)))] else []
  }

  /** Where the table ends: at its first final entry, or at the limit. */
  function EndOf(f: Format, memory: int -> word, base: int, n: nat): (e: nat)
    requires n <= MaxEntries(f)
    ensures n <= e <= MaxEntries(f)
    ensures forall k :: n <= k < e ==> !IsFinal(f, EntryAt(f, memory, base, k))
    ensures e < MaxEntries(f) ==> IsFinal(f, EntryAt(f, memory, base, e))
    decreases MaxEntries(f) - n
  {
    if n == MaxEntries(f) || IsFinal(f, EntryAt(f, memory, base, n)) then n else EndOf(f, memory, base, n + 1)
  }

  predicate IncreasingNumbers(probes: seq<Probe>) {
    forall i, j :: 0 <= i < j < |probes| ==> probes[i].number < probes[j].number
  }

  /** `p` is what looking at a present entry in [n, e) gives. */
  predicate IsPresent(f: Format, memory: int -> word, base: int, p: Probe, n: nat, e: nat) {
    && n <= p.number < e
    && IsProbed(EntryAt(f, memory, base, p.number))
    && p.address == AddressOf(base, EntryAt(f, memory, base, p.number), AddressSpace(f))
  }

  /** The scan looks at every present entry before the end of the table, once each, in order, at its address. */
  lemma {:induction false} ScanIsThePresentEntries(f: Format, memory: int -> word, base: int, n: nat)
    requires n <= MaxEntries(f)
    ensures var probes := Scan(f, memory, base, n);
            && IncreasingNumbers(probes)
            && forall p :: p in probes <==> IsPresent(f, memory, base, p, n, EndOf(f, memory, base, n))
    decreases MaxEntries(f) - n
  {
    hide EntryAt, IsProbed, AddressOf, MaxEntries, AddressSpace, IsFinal;
    if n < MaxEntries(f) && !IsFinal(f, EntryAt(f, memory, base, n)) {
      ScanIsThePresentEntries(f, memory, base, n + 1);
      var first, rest := ProbeOf(f, base, EntryAt(f, memory, base, n), n), Scan(f, memory, base, n + 1);
      var e := EndOf(f, memory, base, n + 1);
      forall p
        ensures p in first + rest <==> IsPresent(f, memory, base, p, n, e)
      {
        assert p in first <==> IsPresent(f, memory, base, p, n, e) && p.number == n;
      }
      assert forall i :: 0 <= i < |rest| ==> rest[i] in rest;
      LowerFirst(first, rest);
    }
  }

  lemma LowerFirst(first: seq<Probe>, rest: seq<Probe>)
    requires IncreasingNumbers(rest) && |first| <= 1
    requires first != [] ==> forall i :: 0 <= i < |rest| ==> first[0].number < rest[i].number
    ensures IncreasingNumbers(first + rest)
  {
  }

  /** The pairs of a word list, as 64-bit values. */
  function Paired(words: seq<word>): (entries: seq<int>)
    ensures |entries| == |words| / 2
    ensures forall i :: 0 <= i < |entries| ==> entries[i] == Joined(words[2 * i], words[2 * i + 1])
  {
    seq<int>(|words| / 2, i requires 0 <= i < |words| / 2 => Joined(words[2 * i], words[2 * i + 1]))
  }

  class RomTable {
    const memory: int -> word
    const address: int
    const format: Format
    var probes: seq<Probe>
    ghost var failures: nat   // block reads that failed
    ghost var longest: nat    // words of the longest block read

    constructor (memory: int -> word, address: int, format: Format)
      ensures this.memory == memory && this.address == address && this.format == format
      ensures probes == [] && failures == longest == 0
    {
      this.memory, this.address, this.format, probes := memory, address, format, [];
      failures, longest := 0, 0;
    }

    /** A block read through the MEM-AP, which may fail. */
    method ReadMemoryBlock32(addr: int, count: nat) returns (r: Result<seq<word>>)
      modifies this`failures, this`longest
      ensures failures == old(failures) + if r.Ok? then 0 else 1
      ensures longest == if old(longest) < count then count else old(longest)
      ensures r.Ok? ==> |r.value| == count && forall i :: 0 <= i < count ==> r.value[i] == memory(addr + 4 * i)
    {
      longest := if longest < count then count else longest;
      var fails: bool := *;
      if fails {
        failures := failures + 1;
        return Err(TransferFault);
      }
      return Ok(seq<word>(count, i => memory(addr + 4 * i)));
    }

    /** Looks at the component of an entry, unless it is not present or not in 32-bit format. */
    method HandleTableEntry(entry: int, number: nat)
      requires 0 <= entry < AddressSpace(format)
      modifies this`probes
      ensures probes == old(probes) + ProbeOf(format, address, entry, number)
    {
      LowBits(entry);
      hide IsProbed;
      if entry % 2 == 0 || entry / 2 % 2 == 0 { return; }
      var space := AddressSpace(format);
      var offset := entry / 0x1000 * 0x1000;
      if entry >= space / 2 {
        offset := -BitInvert(offset, space) - 1;
      }
      var component := address + offset;
      if component < 0 {
        component := space + component;
      }
      probes := probes + [Probe(number, component)];
    }

    /** The table from entry `n` on is what is still to be scanned, `all` what the whole scan gives. */
    ghost predicate Reaches(n: nat, foundEnd: bool, all: seq<Probe>)
      reads this`probes
    {
      n <= MaxEntries(format) && probes + (if foundEnd then [] else Scan(format, memory, address, n)) == all
    }

    lemma ScanStarts(all: seq<Probe>)
      requires all == probes + Scan(format, memory, address, 0)
      ensures Reaches(0, false, all)
    {
    }

    lemma ScanProgress(n: nat, foundEnd: bool, all: seq<Probe>)
      requires Reaches(n, foundEnd, all)
      ensures probes <= all
    {
    }

    lemma ScanFinished(n: nat, foundEnd: bool, all: seq<Probe>)
      requires Reaches(n, foundEnd, all)
      ensures foundEnd || n >= MaxEntries(format) ==> probes == all
    {
      ScanEnds(format, memory, address, n);
      assert probes + [] == probes;
    }

    /** One chunk of entries, up to the end of the table. */
    method HandleChunk(entries: seq<int>, start: nat, ghost all: seq<Probe>)
      returns (foundEnd: bool, number: nat, entryAddress: int)
      requires start + |entries| <= MaxEntries(format) && Reaches(start, false, all)
      requires AreEntries(format, memory, address, start, entries)
      modifies this`probes
      ensures Reaches(number, foundEnd, all) && (!foundEnd ==> number == start + |entries|)
      ensures entryAddress == EntryAddress(format, address, number)
    {
      hide EntryAt, AddressOf, Scan, ProbeOf;
      foundEnd, number, entryAddress := false, start, EntryAddress(format, address, start);
      for i := 0 to |entries|
        invariant number == start + i && Reaches(number, false, all)
        invariant entryAddress == EntryAddress(format, address, number)
      {
        ghost var was := probes;
        ScanNext(format, memory, address, number);
        if IsFinal(format, entries[i]) {
          assert probes + [] == probes;
          return true, number, entryAddress;
        }
        if format.Class1? || entries[i] % 4 == 3 {
          HandleTableEntry(entries[i], number);
        } else {
          NotProbed(format, address, entries[i], number);
        }
        JoinRest(was, ProbeOf(format, address, entries[i], number), probes, Scan(format, memory, address, number + 1));
        entryAddress := entryAddress + 4 * Words(format);
        number := number + 1;
      }
    }

    /** Class 0x1: nine words at a time, at most 960. */
    method ReadClass1Table() returns (r: Result<()>)
      requires format.Class1?
      modifies this`probes, this`failures, this`longest
      ensures failures == old(failures) + if r.Ok? then 0 else 1
      ensures old(longest) <= 9 ==> longest <= 9
      ensures r.Ok? ==> probes == old(probes) + Scan(format, memory, address, 0)
      ensures r.Err? ==> probes <= old(probes) + Scan(format, memory, address, 0)
    {
      ghost var all := probes + Scan(format, memory, address, 0);
      hide Scan, EntryAt;
      var entryAddress, foundEnd, entriesRead, entryNumber := address, false, 0, 0;
      while !foundEnd && entriesRead < CLASS1_MAX_ENTRIES
        invariant entriesRead <= CLASS1_MAX_ENTRIES && Reaches(entryNumber, foundEnd, all)
        invariant failures == old(failures) && (old(longest) <= 9 ==> longest <= 9)
        invariant !foundEnd ==> entryNumber == entriesRead && entryAddress == EntryAddress(format, address, entryNumber)
        decreases CLASS1_MAX_ENTRIES - entriesRead
      {
        var left := CLASS1_MAX_ENTRIES - entriesRead;
        var readCount := if left < READ_COUNT then left else READ_COUNT;
        var entries := ReadEntries(entryAddress, readCount, entryNumber);
        if entries.Err? { return Err(entries.error); }
        entriesRead := entriesRead + readCount;
        foundEnd, entryNumber, entryAddress := HandleChunk(entries.value, entryNumber, all);
      }
      ScanEnds(format, memory, address, entryNumber);
      assert probes + [] == probes;
      return Ok(());
    }

    /** The limit, and the words in a chunk: whole entries only. */
    method Class9Limits() returns (actualMaxEntries: nat, entryReadCount: nat)
      ensures actualMaxEntries == (if format.Class9Wide? then 256 else 512)
      ensures entryReadCount == (if format.Class9Wide? then 8 else 9)
    {
      var entrySizeMultiplier := Words(format);
      actualMaxEntries := CLASS9_MAX_ENTRIES / entrySizeMultiplier;
      entryReadCount := READ_COUNT / entrySizeMultiplier * entrySizeMultiplier;
    }

    /** One chunk of words, joined in pairs for the wide format. */
    method ReadEntries(entryAddress: int, readCount: nat, ghost n: nat) returns (r: Result<seq<int>>)
      requires entryAddress == EntryAddress(format, address, n)
      modifies this`failures, this`longest
      ensures failures == old(failures) + if r.Ok? then 0 else 1
      ensures longest == if old(longest) < readCount then readCount else old(longest)
      ensures r.Ok? ==> |r.value| == (if format.Class9Wide? then readCount / 2 else readCount)
      ensures r.Ok? ==> AreEntries(format, memory, address, n, r.value)
    {
      var words := ReadMemoryBlock32(entryAddress, readCount);
      if words.Err? { return Err(words.error); }
      if format.Class9Wide? {
        WideEntries(format, memory, address, n, words.value);
        return Ok(Paired(words.value));
      }
      NarrowEntries(format, memory, address, n, words.value);
      return Ok(words.value);
    }

    /** Class 0x9: nine words at a time, or four pairs of words; the limit is halved for the wide format, and
        counts words. */
    method ReadClass9Table() returns (r: Result<()>)
      requires !format.Class1?
      modifies this`probes, this`failures, this`longest
      ensures failures == old(failures) + if r.Ok? then 0 else 1
      ensures var chunk := if format.Class9Wide? then 8 else 9; old(longest) <= chunk ==> longest <= chunk
      ensures r.Ok? ==> probes == old(probes) + Scan(format, memory, address, 0)
      ensures r.Err? ==> probes <= old(probes) + Scan(format, memory, address, 0)
    {
      hide *;
      ghost var all := probes + Scan(format, memory, address, 0);
      ScanStarts(all);
      TableExtent(format, address, 0);
      var actualMaxEntries, entryReadCount := Class9Limits();
      var entryAddress, foundEnd, entriesRead, entryNumber := address, false, 0, 0;
      while !foundEnd && entriesRead < actualMaxEntries
        invariant entriesRead <= actualMaxEntries && Reaches(entryNumber, foundEnd, all)
        invariant failures == old(failures) && (old(longest) <= entryReadCount ==> longest <= entryReadCount)
        invariant !foundEnd ==> entriesRead == (if format.Class9Wide? then 2 * entryNumber else entryNumber)
        invariant !foundEnd ==> entryAddress == EntryAddress(format, address, entryNumber)
        decreases actualMaxEntries - entriesRead
      {
        var left := actualMaxEntries - entriesRead;
        var readCount := if left < entryReadCount then left else entryReadCount;
        ScanProgress(entryNumber, foundEnd, all);
        ChunkFits(format, entriesRead, readCount, entryNumber);
        var entries := ReadEntries(entryAddress, readCount, entryNumber);
        if entries.Err? { return Err(entries.error); }
        entriesRead := entriesRead + readCount;
        foundEnd, entryNumber, entryAddress := HandleChunk(entries.value, entryNumber, all);
      }
      LimitReached(format);
      ScanFinished(entryNumber, foundEnd, all);
      return Ok(());
    }
  }

  lemma LimitReached(f: Format)
    requires !f.Class1?
    ensures MaxEntries(f) == if f.Class9Wide? then 128 else 512
  {
  }

  lemma ChunkFits(f: Format, entriesRead: nat, readCount: nat, n: nat)
    requires !f.Class1? && entriesRead == (if f.Class9Wide? then 2 * n else n)
    requires entriesRead + readCount <= (if f.Class9Wide? then 256 else 512)
    ensures n + (if f.Class9Wide? then readCount / 2 else readCount) <= MaxEntries(f)
  {
  }

  ghost predicate AreEntries(f: Format, memory: int -> word, base: int, n: nat, entries: seq<int>) {
    forall i :: 0 <= i < |entries| ==> entries[i] == EntryAt(f, memory, base, n + i) && 0 <= entries[i] < AddressSpace(f)
  }

  lemma NarrowEntries(f: Format, memory: int -> word, base: int, n: nat, words: seq<word>)
    requires !f.Class9Wide?
    requires forall i :: 0 <= i < |words| ==> words[i] == memory(EntryAddress(f, base, n) + 4 * i)
    ensures AreEntries(f, memory, base, n, words)
  {
    forall i | 0 <= i < |words|
      ensures words[i] == EntryAt(f, memory, base, n + i)
    {
      assert EntryAddress(f, base, n + i) == EntryAddress(f, base, n) + 4 * i;
    }
  }

  lemma WideEntries(f: Format, memory: int -> word, base: int, n: nat, words: seq<word>)
    requires f.Class9Wide?
    requires forall i :: 0 <= i < |words| ==> words[i] == memory(EntryAddress(f, base, n) + 4 * i)
    ensures AreEntries(f, memory, base, n, Paired(words))
  {
    forall i | 0 <= i < |Paired(words)|
      ensures Paired(words)[i] == EntryAt(f, memory, base, n + i) && 0 <= Paired(words)[i] < AddressSpace(f)
    {
      assert EntryAddress(f, base, n + i) == EntryAddress(f, base, n) + 4 * (2 * i);
      assert words[2 * i + 1] == memory(EntryAddress(f, base, n) + 4 * (2 * i + 1));
    }
  }

  lemma ScanNext(f: Format, memory: int -> word, base: int, n: nat)
    requires n < MaxEntries(f)
    ensures var entry := EntryAt(f, memory, base, n);
            Scan(f, memory, base, n) ==
            if IsFinal(f, entry) then [] else ProbeOf(f, base, entry, n) + Scan(f, memory, base, n + 1)
  {
  }

  lemma ScanEnds(f: Format, memory: int -> word, base: int, n: nat)
    ensures n >= MaxEntries(f) ==> Scan(f, memory, base, n) == []
  {
  }

  lemma NotProbed(f: Format, base: int, entry: int, n: nat)
    ensures entry % 4 != 3 ==> ProbeOf(f, base, entry, n) == []
  {
  }

  lemma JoinRest(was: seq<Probe>, step: seq<Probe>, now: seq<Probe>, rest: seq<Probe>)
    requires now == was + step || (step == [] && now == was)
    ensures now + rest == was + (step + rest)
  {
  }

  // ---- Tables of tables ----

  /** What a table's component list holds: components, and the component lists of child tables. */
  datatype Component = Leaf(id: int) | Table(components: seq<Component>)

  /** The components of a list and of all its child tables, in order. */
  function Leaves(cs: seq<Component>): seq<int>
    decreases cs
  {
    if cs == [] then []
    else
      (match cs[0]
       case Leaf(id) => [id]
       case Table(children) => Leaves(children))
      + Leaves(cs[1..])
  }

  function Filtered(ids: seq<int>, keep: int -> bool): seq<int> {
    if ids == [] then [] else (if keep(ids[0]) then [ids[0]] else []) + Filtered(ids[1..], keep)
  }

  lemma {:induction false} FilteredSplit(a: seq<int>, b: seq<int>, keep: int -> bool)
    ensures Filtered(a + b, keep) == Filtered(a, keep) + Filtered(b, keep)
  {
    if a == [] {
      assert a + b == b;
    } else {
      assert (a + b)[1..] == a[1..] + b && (a + b)[0] == a[0];
      FilteredSplit(a[1..], b, keep);
      var first := if keep(a[0]) then [a[0]] else [];
      assert first + (Filtered(a[1..], keep) + Filtered(b, keep)) == first + Filtered(a[1..], keep) + Filtered(b, keep);
    }
  }

  lemma {:induction false} LeavesSplit(a: seq<Component>, b: seq<Component>)
    ensures Leaves(a + b) == Leaves(a) + Leaves(b)
    decreases |a|
  {
    if a == [] {
      assert a + b == b;
    } else {
      assert (a + b)[1..] == a[1..] + b && (a + b)[0] == a[0];
      LeavesSplit(a[1..], b);
      var first := match a[0] case Leaf(id) => [id] case Table(children) => Leaves(children);
      assert first + (Leaves(a[1..]) + Leaves(b)) == first + Leaves(a[1..]) + Leaves(b);
    }
  }

  /** Visits every component of the table and its child tables that passes the filter, in order; the tables
      themselves are not offered to the filter. `visited` are the components the action was performed on. */
  method ForEach(components: seq<Component>, keep: int -> bool) returns (visited: seq<int>)
    ensures visited == Filtered(Leaves(components), keep)
    decreases components
  {
    visited := [];
    for i := 0 to |components|
      invariant visited == Filtered(Leaves(components[..i]), keep)
    {
      NextComponent(components, i, keep);
      match components[i]
      case Table(children) =>
        var below := ForEach(children, keep);
        visited := visited + below;
      case Leaf(id) =>
        if keep(id) {
          visited := visited + [id];
        } else {
          assert visited + [] == visited;
        }
    }
    assert components[..|components|] == components;
  }

  lemma NextComponent(cs: seq<Component>, i: nat, keep: int -> bool)
    requires i < |cs|
    ensures Filtered(Leaves(cs[..i + 1]), keep) ==
            Filtered(Leaves(cs[..i]), keep)
            + match cs[i]
              case Leaf(id) => (if keep(id) then [id] else [])
              case Table(children) => Filtered(Leaves(children), keep)
  {
    assert cs[..i + 1] == cs[..i] + [cs[i]];
    LeavesSplit(cs[..i], [cs[i]]);
    FilteredSplit(Leaves(cs[..i]), Leaves([cs[i]]), keep);
    assert [cs[i]][1..] == [];
    match cs[i]
    case Leaf(id) =>
      assert Leaves([cs[i]]) == [id] + [];
      assert [id][1..] == [];
    case Table(children) =>
      assert Leaves([cs[i]]) == Leaves(children) + Leaves([]);
      assert Leaves(children) + [] == Leaves(children);
  }
}
