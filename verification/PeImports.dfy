/**
 Two walks over the import tables of a PE image: one collects DLL names, the
 other whole descriptors with their symbols. Offsets are unbounded here; the
 source's 64-bit offset additions cannot overflow on 32-bit fields.
 */
module PeImports {
  import opened Common
  import Lex

  type Bytes = seq<Byte>
  type Name = seq<int>

  datatype PeError =
    | Truncated | NotPe | UnsupportedMachine | Incomplete | MissingDirectories | OutsideImage | Overflow | Unmapped
    | BadString | BadName | PrecedesBase | TooLarge | PartialDirectory | NoRoom | NoName | NoThunks | ReservedBits
    | Unterminated

  const MACHINE_AMD64: nat := 0x8664
  const MACHINE_ARM64: nat := 0xAA64
  const MAX_DESCRIPTORS: nat := 1024
  const MAX_THUNKS: nat := 16384
  const MAX_STRING: nat := 4096

  // ----- little-endian fields ----------------------------------------------------------------

  function Word(bytes: Bytes, offset: nat): (r: Result<nat, PeError>) {
    if offset + 2 <= |bytes| then Ok(bytes[offset] as int + 0x100 * bytes[offset + 1] as int) else Err(Truncated)
  }

  function Dword(bytes: Bytes, offset: nat): (r: Result<nat, PeError>) {
    var low :- Word(bytes, offset);
    var high :- Word(bytes, offset + 2);
    Ok(low + 0x1_0000 * high)
  }

  function Qword(bytes: Bytes, offset: nat): (r: Result<nat, PeError>) {
    var low :- Dword(bytes, offset);
    var high :- Dword(bytes, offset + 4);
    Ok(low + 0x1_0000_0000 * high)
  }

  // ----- headers -------------------------------------------------------------------------------

  datatype Section = Section(virtualAddress: nat, virtualSize: nat, rawOffset: nat, rawSize: nat)

  datatype Headers = Headers(
    machine: nat, imageBase: nat, sizeOfHeaders: nat, sections: seq<Section>, normalRva: nat, normalSize: nat,
    delayRva: nat, delaySize: nat)

  function SectionAt(bytes: Bytes, offset: nat): (r: Result<Section, PeError>) {
    if offset + 40 > |bytes| then Err(Truncated)
    else
      var virtualSize :- Dword(bytes, offset + 8);
      var virtualAddress :- Dword(bytes, offset + 12);
      var rawSize :- Dword(bytes, offset + 16);
      var rawOffset :- Dword(bytes, offset + 20);
      Ok(Section(virtualAddress, virtualSize, rawOffset, rawSize))
  }

  function SectionEntry(bytes: Bytes, table: nat, i: nat): (r: Result<Section, PeError>) {
    SectionAt(bytes, table + i * 40)
  }

  function SectionEntries(bytes: Bytes, table: nat): nat -> Result<Section, PeError> {
    (i: nat) => SectionEntry(bytes, table, i)
  }

  function Sections(bytes: Bytes, table: nat, count: nat): (r: Result<seq<Section>, PeError>) {
    Collect(SectionEntries(bytes, table), 0, count)
  }

  function PeHeaders(bytes: Bytes): (r: Result<Headers, PeError>) {
    if |bytes| < 2 || bytes[..2] != [0x4D, 0x5A] then Err(NotPe)
    else
      var pe :- Dword(bytes, 0x3C);
      if pe + 4 > |bytes| || bytes[pe..pe + 4] != [0x50, 0x45, 0, 0] then Err(NotPe)
      else
        var machine :- Word(bytes, pe + 4);
        if machine != MACHINE_AMD64 && machine != MACHINE_ARM64 then Err(UnsupportedMachine)
        else
          var sectionCount :- Word(bytes, pe + 6);
          var optionalSize :- Word(bytes, pe + 20);
          OptionalHeader(bytes, machine, sectionCount, pe + 24, optionalSize)
  }

  function OptionalHeader(bytes: Bytes, machine: nat, sectionCount: nat, optional: nat, optionalSize: nat)
    : (r: Result<Headers, PeError>)
  {
    var magic :- Word(bytes, optional);
    if magic != 0x20B || optionalSize < 224 then Err(Incomplete)
    else if optional + optionalSize > |bytes| then Err(Truncated)
    else
      var imageBase :- Qword(bytes, optional + 24);
      var sizeOfHeaders :- Dword(bytes, optional + 60);
      var directories :- Dword(bytes, optional + 108);
      if directories <= 13 then Err(MissingDirectories)
      else
        var sections :- Sections(bytes, optional + optionalSize, sectionCount);
        var normalRva :- Dword(bytes, optional + 120);
        var normalSize :- Dword(bytes, optional + 124);
        var delayRva :- Dword(bytes, optional + 216);
        var delaySize :- Dword(bytes, optional + 220);
        Ok(Headers(machine, imageBase, sizeOfHeaders, sections, normalRva, normalSize, delayRva, delaySize))
  }

  method ReadSections(bytes: Bytes, table: nat, count: nat) returns (r: Result<seq<Section>, PeError>)
    ensures r == Sections(bytes, table, count)
  {
    var sections: seq<Section> := [];
    ghost var read := SectionEntries(bytes, table);
    ghost var whole := Collect(read, 0, count);
    LedNothing(sections, whole);
    for i := 0 to count
      invariant whole == Led(sections, Collect(read, i, count))
    {
      var section :- SectionEntry(bytes, table, i);
      LedTwice(sections, section, Collect(read, i + 1, count));
      sections := sections + [section];
    }
    LedNothing(sections, Ok([]));
    return Ok(sections);
  }

  /** The section table is read if and only if every entry is, each in its place. */
  lemma SectionsMeaning(bytes: Bytes, table: nat, count: nat, sections: seq<Section>)
    ensures Sections(bytes, table, count) == Ok(sections) <==>
      |sections| == count && forall k: nat :: k < count ==> SectionEntry(bytes, table, k) == Ok(sections[k])
  {
    var read := SectionEntries(bytes, table);
    CollectMeaning(read, 0, count, sections);
    assert forall k: nat :: read(k) == SectionEntry(bytes, table, k);
  }

  /** A walk's result with what was collected before it in front. */
  function Led<T>(front: seq<T>, r: Result<seq<T>, PeError>): Result<seq<T>, PeError> {
    match r
    case Ok(rest) => Ok(front + rest)
    case Err(e) => Err(e)
  }

  lemma LedTwice<T>(front: seq<T>, x: T, r: Result<seq<T>, PeError>)
    ensures Led(front, Led([x], r)) == Led(front + [x], r)
  {
    if r.Ok? {
      assert front + ([x] + r.value) == front + [x] + r.value;
    }
  }

  lemma LedNothing<T>(front: seq<T>, r: Result<seq<T>, PeError>)
    ensures Led([], r) == r
    ensures Led(front, Ok([])) == Ok(front)
  {
    assert front + [] == front;
    if r.Ok? {
      assert [] + r.value == r.value;
    }
  }

  // ----- tables of known length ----------------------------------------------------------------------

  /** The `n - i` items at `i`, `i + 1`, ..., or the first error among them. */
  function Collect<T>(read: nat -> Result<T, PeError>, i: nat, n: nat): Result<seq<T>, PeError>
    requires i <= n
    decreases n - i
  {
    if i == n then Ok([])
    else
      match read(i)
      case Err(e) => Err(e)
      case Ok(item) => Led([item], Collect(read, i + 1, n))
  }

  ghost predicate Lists<T>(read: nat -> Result<T, PeError>, i: nat, n: nat, items: seq<T>)
    requires i <= n
  {
    |items| == n - i && forall k: nat :: i <= k < n ==> read(k) == Ok(items[k - i])
  }

  lemma {:induction false} CollectMeaning<T>(read: nat -> Result<T, PeError>, i: nat, n: nat, items: seq<T>)
    requires i <= n
    ensures Collect(read, i, n) == Ok(items) <==> Lists(read, i, n, items)
    decreases n - i
  {
    if i == n {
    } else if items == [] {
      assert forall x, r: Result<seq<T>, PeError> :: Led([x], r) != Ok([]);
    } else {
      CollectMeaning(read, i + 1, n, items[1..]);
      LedHead(items, Collect(read, i + 1, n));
      ListsStep(read, i, n, items);
    }
  }

  lemma ListsStep<T>(read: nat -> Result<T, PeError>, i: nat, n: nat, items: seq<T>)
    requires i < n && items != []
    ensures Lists(read, i, n, items) <==> read(i) == Ok(items[0]) && Lists(read, i + 1, n, items[1..])
  {
    var rest := items[1..];
    assert forall j :: 0 <= j < |rest| ==> rest[j] == items[j + 1];
    if read(i) == Ok(items[0]) && Lists(read, i + 1, n, rest) {
      forall k: nat | i <= k < n ensures read(k) == Ok(items[k - i]) {
      }
    }
  }

  // ----- tables that end in a mark -------------------------------------------------------------------

  /** The items at `i`, `i + 1`, ... up to the end mark, which must come before entry `n`. */
  function Walk<T>(read: nat -> Result<Option<T>, PeError>, i: nat, n: nat): Result<seq<T>, PeError>
    requires i <= n
    decreases n - i
  {
    if i == n then Err(Unterminated)
    else
      match read(i)
      case Err(e) => Err(e)
      case Ok(None) => Ok([])
      case Ok(Some(item)) => Led([item], Walk(read, i + 1, n))
  }

  ghost predicate Spells<T>(read: nat -> Result<Option<T>, PeError>, i: nat, n: nat, items: seq<T>) {
    && i + |items| < n
    && read(i + |items|) == Ok(None)
    && forall k: nat :: i <= k < i + |items| ==> read(k) == Ok(Some(items[k - i]))
  }

  /** A walk succeeds with exactly the items before the first end mark. */
  lemma {:induction false} WalkMeaning<T>(read: nat -> Result<Option<T>, PeError>, i: nat, n: nat, items: seq<T>)
    requires i <= n
    ensures Walk(read, i, n) == Ok(items) <==> Spells(read, i, n, items)
    decreases n - i
  {
    if i == n || items == [] {
    } else {
      WalkMeaning(read, i + 1, n, items[1..]);
      LedHead(items, Walk(read, i + 1, n));
      SpellsStep(read, i, n, items);
    }
  }

  lemma LedHead<T>(items: seq<T>, r: Result<seq<T>, PeError>)
    requires items != []
    ensures forall x :: Led([x], r) == Ok(items) <==> x == items[0] && r == Ok(items[1..])
  {
    forall x ensures Led([x], r) == Ok(items) <==> x == items[0] && r == Ok(items[1..]) {
      if r.Ok? {
        assert ([x] + r.value)[1..] == r.value;
        assert [items[0]] + items[1..] == items;
      }
    }
  }

  lemma SpellsStep<T>(read: nat -> Result<Option<T>, PeError>, i: nat, n: nat, items: seq<T>)
    requires i < n && items != []
    ensures Spells(read, i, n, items) <==> read(i) == Ok(Some(items[0])) && Spells(read, i + 1, n, items[1..])
  {
    var rest := items[1..];
    assert forall j :: 0 <= j < |rest| ==> rest[j] == items[j + 1];
    if read(i) == Ok(Some(items[0])) && Spells(read, i + 1, n, rest) {
      forall k: nat | i <= k < i + |items| ensures read(k) == Ok(Some(items[k - i])) {
      }
    }
  }

  lemma WalkStep<T>(read: nat -> Result<Option<T>, PeError>, i: nat, n: nat, front: seq<T>)
    requires i < n
    ensures read(i).Err? ==> Led(front, Walk(read, i, n)) == Err(read(i).error)
    ensures read(i) == Ok(None) ==> Led(front, Walk(read, i, n)) == Ok(front)
    ensures read(i).Ok? && read(i).value.Some? ==>
      Led(front, Walk(read, i, n)) == Led(front + [read(i).value.value], Walk(read, i + 1, n))
  {
    match read(i) {
      case Ok(Some(item)) => LedTwice(front, item, Walk(read, i + 1, n));
      case _ => LedNothing(front, Walk(read, i, n));
    }
  }

  // ----- addresses and strings ----------------------------------------------------------------------

  function SectionOffset(bytes: Bytes, rva: nat, s: Section): (r: Result<nat, PeError>)
    requires rva >= s.virtualAddress
  {
    var within := rva - s.virtualAddress;
    if within >= s.rawSize then Err(OutsideImage)
    else if s.rawOffset + within > U32_MAX then Err(Overflow)
    else if s.rawOffset + within > |bytes| then Err(OutsideImage)
    else Ok(s.rawOffset + within)
  }

  function SectionEnd(s: Section): (end: nat) {
    s.virtualAddress + Max(s.virtualSize, s.rawSize)
  }

  predicate Covers(s: Section, rva: nat) {
    s.virtualAddress <= rva < SectionEnd(s)
  }

  function MappedFrom(bytes: Bytes, rva: nat, sections: seq<Section>, i: nat): (r: Result<nat, PeError>)
    requires i <= |sections|
    decreases |sections| - i
  {
    if i == |sections| then Err(Unmapped)
    else
      var s := sections[i];
      if SectionEnd(s) > U32_MAX then Err(Overflow)
      else if Covers(s, rva) then SectionOffset(bytes, rva, s)
      else MappedFrom(bytes, rva, sections, i + 1)
  }

  function RvaOffset(bytes: Bytes, rva: nat, h: Headers): (r: Result<nat, PeError>) {
    if rva < h.sizeOfHeaders then
      if rva <= |bytes| then Ok(rva) else Err(OutsideImage)
    else MappedFrom(bytes, rva, h.sections, 0)
  }

  method FindOffset(bytes: Bytes, rva: nat, h: Headers) returns (r: Result<nat, PeError>)
    ensures r == RvaOffset(bytes, rva, h)
  {
    if rva < h.sizeOfHeaders {
      return if rva <= |bytes| then Ok(rva) else Err(OutsideImage);
    }
    for i := 0 to |h.sections|
      invariant MappedFrom(bytes, rva, h.sections, i) == MappedFrom(bytes, rva, h.sections, 0)
    {
      var s := h.sections[i];
      var end := s.virtualAddress + Max(s.virtualSize, s.rawSize);
      if end > U32_MAX {
        return Err(Overflow);
      }
      if s.virtualAddress <= rva < end {
        return SectionOffset(bytes, rva, s);
      }
    }
    return Err(Unmapped);
  }

  /** The section is in 32-bit reach, in memory and in the file. */
  ghost predicate InReach(s: Section) {
    s.virtualAddress + s.virtualSize < 0x1_0000_0000 && s.virtualAddress + s.rawSize < 0x1_0000_0000
  }

  /** The address lies in the section as it is in memory or as it is in the file. */
  ghost predicate Encloses(s: Section, rva: nat) {
    && s.virtualAddress <= rva
    && (rva < s.virtualAddress + s.virtualSize || rva < s.virtualAddress + s.rawSize)
  }

  /** Section `i` is the first to enclose `rva`, none up to it overflows, and its file data hold `offset` for it. */
  ghost predicate Maps(bytes: Bytes, rva: nat, sections: seq<Section>, from: nat, i: nat, offset: nat)
    requires from <= i < |sections|
  {
    var s := sections[i];
    && (forall j :: from <= j <= i ==> InReach(sections[j]))
    && (forall j :: from <= j < i ==> !Encloses(sections[j], rva))
    && Encloses(s, rva) && rva - s.virtualAddress < s.rawSize
    && offset == s.rawOffset + (rva - s.virtualAddress) <= Min(U32_MAX, |bytes|)
  }

  lemma {:induction false} MappedMeaning(bytes: Bytes, rva: nat, sections: seq<Section>, from: nat, offset: nat)
    requires from <= |sections|
    ensures MappedFrom(bytes, rva, sections, from) == Ok(offset)
       <==> exists i :: from <= i < |sections| && Maps(bytes, rva, sections, from, i, offset)
    decreases |sections| - from
  {
    if from == |sections| {
    } else if SectionEnd(sections[from]) > U32_MAX {
    } else if Covers(sections[from], rva) {
      assert MappedFrom(bytes, rva, sections, from) == Ok(offset) ==> Maps(bytes, rva, sections, from, from, offset);
    } else {
      var next := from + 1;
      MappedMeaning(bytes, rva, sections, next, offset);
      if i :| next <= i < |sections| && Maps(bytes, rva, sections, next, i, offset) {
        assert Maps(bytes, rva, sections, from, i, offset);
      }
      if i :| from <= i < |sections| && Maps(bytes, rva, sections, from, i, offset) {
        assert Maps(bytes, rva, sections, next, i, offset);
      }
    }
  }

  /** An address is in the headers as it stands, or in the file data of the first section that covers it. */
  lemma OffsetMeaning(bytes: Bytes, rva: nat, h: Headers, offset: nat)
    ensures RvaOffset(bytes, rva, h) == Ok(offset) <==>
      if rva < h.sizeOfHeaders then offset == rva <= |bytes|
      else exists i :: 0 <= i < |h.sections| && Maps(bytes, rva, h.sections, 0, i, offset)
  {
    MappedMeaning(bytes, rva, h.sections, 0, offset);
  }

  function ZeroFrom(bytes: Bytes, i: nat): (n: nat)
    requires i <= |bytes|
    ensures i <= n <= |bytes|
    ensures n < |bytes| ==> bytes[n] == 0
    ensures forall k :: i <= k < n ==> bytes[k] != 0
    decreases |bytes| - i
  {
    if i == |bytes| || bytes[i] == 0 then i else ZeroFrom(bytes, i + 1)
  }

  function AsciiString(bytes: Bytes, offset: nat): (r: Result<Name, PeError>) {
    if offset > |bytes| then Err(OutsideImage)
    else
      var end := ZeroFrom(bytes, offset);
      if end == |bytes| || end - offset > MAX_STRING then Err(BadString)
      else
        var text := bytes[offset..end];
        if text == [] || exists k :: 0 <= k < |text| && text[k] >= 0x80 then Err(BadString) else Ok(text)
  }

  function Upper(name: Name): (u: Name)
    ensures |u| == |name|
  {
    seq(|name|, i requires 0 <= i < |name| => if 0x61 <= name[i] <= 0x7A then name[i] - 0x20 else name[i])
  }

  function DllName(bytes: Bytes, offset: nat): (r: Result<Name, PeError>) {
    var name :- AsciiString(bytes, offset);
    if 0x2F in name || 0x5C in name then Err(BadName) else Ok(Upper(name))
  }

  function VaOrRva(value: nat, imageBase: nat, rvaBased: bool): (r: Result<nat, PeError>) {
    if rvaBased || value == 0 then Ok(value)
    else if value < imageBase then Err(PrecedesBase)
    else if value - imageBase > U32_MAX then Err(TooLarge)
    else Ok(value - imageBase)
  }

  // ----- symbols ----------------------------------------------------------------------------------------

  datatype Symbol = ByName(hint: nat, name: Name) | ByOrdinal(ordinal: nat)

  function SymbolOf(bytes: Bytes, h: Headers, thunk: nat): (r: Result<Symbol, PeError>) {
    if thunk >= 0x8000_0000_0000_0000 then
      var bits := thunk - 0x8000_0000_0000_0000;
      if bits > U16_MAX then Err(ReservedBits) else Ok(ByOrdinal(bits))
    else if thunk > U32_MAX then Err(TooLarge)
    else
      var offset :- RvaOffset(bytes, thunk, h);
      var hint :- Word(bytes, offset);
      var name :- AsciiString(bytes, offset + 2);
      Ok(ByName(hint, name))
  }

  /** The symbol of thunk `i`, or the zero thunk's end mark. */
  function ThunkAt(bytes: Bytes, h: Headers, start: nat, i: nat): (r: Result<Option<Symbol>, PeError>) {
    var thunk :- Qword(bytes, start + i * 8);
    if thunk == 0 then Ok(None)
    else
      var symbol :- SymbolOf(bytes, h, thunk);
      Ok(Some(symbol))
  }

  function Thunks(bytes: Bytes, h: Headers, start: nat): nat -> Result<Option<Symbol>, PeError> {
    (i: nat) => ThunkAt(bytes, h, start, i)
  }

  function ImportSymbols(bytes: Bytes, lookupRva: nat, h: Headers): (r: Result<seq<Symbol>, PeError>) {
    if lookupRva == 0 then Err(NoThunks)
    else
      var start :- RvaOffset(bytes, lookupRva, h);
      Walk(Thunks(bytes, h, start), 0, MAX_THUNKS)
  }

  method ReadSymbols(bytes: Bytes, lookupRva: nat, h: Headers) returns (r: Result<seq<Symbol>, PeError>)
    ensures r == ImportSymbols(bytes, lookupRva, h)
  {
    if lookupRva == 0 {
      return Err(NoThunks);
    }
    var start :- FindOffset(bytes, lookupRva, h);
    r := ReadThunks(bytes, start, h);
  }

  method ReadThunks(bytes: Bytes, start: nat, h: Headers) returns (r: Result<seq<Symbol>, PeError>)
    ensures r == Walk(Thunks(bytes, h, start), 0, MAX_THUNKS)
  {
    var symbols: seq<Symbol> := [];
    ghost var read := Thunks(bytes, h, start);
    ghost var whole := Walk(read, 0, MAX_THUNKS);
    LedNothing(symbols, whole);
    for i := 0 to MAX_THUNKS
      invariant whole == Led(symbols, Walk(read, i, MAX_THUNKS))
    {
      WalkStep(read, i, MAX_THUNKS, symbols);
      var thunk :- Qword(bytes, start + i * 8);
      if thunk == 0 {
        return Ok(symbols);
      }
      var symbol :- SymbolOf(bytes, h, thunk);
      symbols := symbols + [symbol];
    }
    return Err(Unterminated);
  }

  /** The symbols read are exactly those of the thunks before the first zero one, which must come in time. */
  lemma SymbolsMeaning(bytes: Bytes, lookupRva: nat, h: Headers, symbols: seq<Symbol>)
    ensures ImportSymbols(bytes, lookupRva, h) == Ok(symbols) <==>
      && lookupRva != 0 && RvaOffset(bytes, lookupRva, h).Ok?
      && var start := RvaOffset(bytes, lookupRva, h).value;
      && |symbols| < 16384
      && ThunkAt(bytes, h, start, |symbols|) == Ok(None)
      && forall k: nat :: k < |symbols| ==> ThunkAt(bytes, h, start, k) == Ok(Some(symbols[k]))
  {
    if lookupRva != 0 && RvaOffset(bytes, lookupRva, h).Ok? {
      var start := RvaOffset(bytes, lookupRva, h).value;
      var read := Thunks(bytes, h, start);
      WalkMeaning(read, 0, MAX_THUNKS, symbols);
      assert forall k: nat :: read(k) == ThunkAt(bytes, h, start, k);
    }
  }

  // ----- descriptors --------------------------------------------------------------------------------------

  datatype Descriptor = Descriptor(
    ordinal: nat, dll: Name, symbols: seq<Symbol>, lookupRva: nat, iatRva: nat, timestamp: nat)

  function EntrySize(delay: bool): (n: nat) {
    if delay then 32 else 20
  }

  function EntryOffset(start: nat, i: nat, delay: bool): (offset: nat) {
    start + i * EntrySize(delay)
  }

  function NameField(delay: bool): (n: nat) {
    if delay then 4 else 12
  }

  predicate AllZero(bytes: Bytes, offset: nat, size: nat)
    requires offset + size <= |bytes|
  {
    forall k :: offset <= k < offset + size ==> bytes[k] == 0
  }

  function RvaBased(bytes: Bytes, offset: nat, delay: bool): (r: Result<bool, PeError>) {
    if !delay then Ok(true)
    else
      var attributes :- Dword(bytes, offset);
      Ok(attributes % 2 == 1)
  }

  function DescriptorNameRva(bytes: Bytes, h: Headers, delay: bool, offset: nat, rvaBased: bool): (r: Result<nat, PeError>) {
    var rawName :- Dword(bytes, offset + NameField(delay));
    var nameRva :- VaOrRva(rawName, h.imageBase, rvaBased);
    if nameRva == 0 then Err(NoName) else Ok(nameRva)
  }

  function AddressField(delay: bool): (n: nat) {
    if delay then 12 else 16
  }

  function LookupField(delay: bool): (n: nat) {
    if delay then 16 else 0
  }

  /** The address of the lookup table, or of the import address table in its absence. */
  function LookupRva(rawLookup: nat, iatRva: nat, imageBase: nat, rvaBased: bool): (r: Result<nat, PeError>) {
    VaOrRva(if rawLookup == 0 then iatRva else rawLookup, imageBase, rvaBased)
  }

  function DescriptorAt(bytes: Bytes, h: Headers, delay: bool, offset: nat, index: nat): (r: Result<Descriptor, PeError>) {
    var rvaBased :- RvaBased(bytes, offset, delay);
    var nameRva :- DescriptorNameRva(bytes, h, delay, offset, rvaBased);
    var rawIat :- Dword(bytes, offset + AddressField(delay));
    var iatRva :- VaOrRva(rawIat, h.imageBase, rvaBased);
    var rawLookup :- Dword(bytes, offset + LookupField(delay));
    var lookupRva :- LookupRva(rawLookup, iatRva, h.imageBase, rvaBased);
    var nameOffset :- RvaOffset(bytes, nameRva, h);
    var dll :- DllName(bytes, nameOffset);
    var symbols :- ImportSymbols(bytes, lookupRva, h);
    var timestamp :- Dword(bytes, offset + if delay then 28 else 4);
    Ok(Descriptor(index, dll, symbols, lookupRva, iatRva, timestamp))
  }

  /** Whether entry `i` of a table lies in the file and is not the all-zero end mark. */
  function EntryPresent(bytes: Bytes, delay: bool, start: nat, i: nat): (r: Result<bool, PeError>) {
    var offset, size := EntryOffset(start, i, delay), EntrySize(delay);
    if offset + size > |bytes| then Err(Truncated) else Ok(!AllZero(bytes, offset, size))
  }

  /** The descriptor of entry `i`, or the all-zero entry's end mark. */
  function DescriptorEntry(bytes: Bytes, h: Headers, delay: bool, start: nat, i: nat): (r: Result<Option<Descriptor>, PeError>) {
    var present :- EntryPresent(bytes, delay, start, i);
    if !present then Ok(None)
    else
      var descriptor :- DescriptorAt(bytes, h, delay, EntryOffset(start, i, delay), i);
      Ok(Some(descriptor))
  }

  function Descriptors(bytes: Bytes, h: Headers, delay: bool, start: nat): nat -> Result<Option<Descriptor>, PeError> {
    (i: nat) => DescriptorEntry(bytes, h, delay, start, i)
  }

  /** Where a present directory starts and how many entries it has room for. */
  function Directory(bytes: Bytes, rva: nat, size: nat, delay: bool, h: Headers): (r: Result<(nat, nat), PeError>) {
    if rva == 0 || size == 0 then Err(PartialDirectory)
    else
      var start :- RvaOffset(bytes, rva, h);
      if size / EntrySize(delay) == 0 then Err(NoRoom) else Ok((start, size / EntrySize(delay)))
  }

  function ImportDescriptors(bytes: Bytes, rva: nat, size: nat, delay: bool, h: Headers): (r: Result<seq<Descriptor>, PeError>) {
    if rva == 0 && size == 0 then Ok([])
    else
      var table :- Directory(bytes, rva, size, delay, h);
      Walk(Descriptors(bytes, h, delay, table.0), 0, Min(table.1, MAX_DESCRIPTORS))
  }

  method ReadDescriptors(bytes: Bytes, rva: nat, size: nat, delay: bool, h: Headers) returns (r: Result<seq<Descriptor>, PeError>)
    ensures r == ImportDescriptors(bytes, rva, size, delay, h)
  {
    if rva == 0 && size == 0 {
      return Ok([]);
    }
    var table :- Directory(bytes, rva, size, delay, h);
    var start, maximum := table.0, Min(table.1, MAX_DESCRIPTORS);
    var descriptors: seq<Descriptor> := [];
    ghost var read := Descriptors(bytes, h, delay, start);
    ghost var whole := Walk(read, 0, maximum);
    LedNothing(descriptors, whole);
    for i := 0 to maximum
      invariant whole == Led(descriptors, Walk(read, i, maximum))
    {
      WalkStep(read, i, maximum, descriptors);
      var offset := EntryOffset(start, i, delay);
      if offset + EntrySize(delay) > |bytes| {
        return Err(Truncated);
      }
      if AllZero(bytes, offset, EntrySize(delay)) {
        return Ok(descriptors);
      }
      var descriptor :- DescriptorAt(bytes, h, delay, offset, i);
      descriptors := descriptors + [descriptor];
    }
    return Err(Unterminated);
  }

  /** The descriptors read are exactly those of the entries before the first all-zero one, which must come in time. */
  lemma DescriptorsMeaning(bytes: Bytes, rva: nat, size: nat, delay: bool, h: Headers, descriptors: seq<Descriptor>)
    requires rva != 0 || size != 0
    ensures ImportDescriptors(bytes, rva, size, delay, h) == Ok(descriptors) <==>
      && Directory(bytes, rva, size, delay, h).Ok?
      && var (start, room) := Directory(bytes, rva, size, delay, h).value;
      && |descriptors| < Min(room, 1024)
      && DescriptorEntry(bytes, h, delay, start, |descriptors|) == Ok(None)
      && forall k: nat :: k < |descriptors| ==> DescriptorEntry(bytes, h, delay, start, k) == Ok(Some(descriptors[k]))
  {
    if Directory(bytes, rva, size, delay, h).Ok? {
      var (start, room) := Directory(bytes, rva, size, delay, h).value;
      var read := Descriptors(bytes, h, delay, start);
      WalkMeaning(read, 0, Min(room, MAX_DESCRIPTORS), descriptors);
      assert forall k: nat :: read(k) == DescriptorEntry(bytes, h, delay, start, k);
    }
  }

  // ----- a missing lookup table ------------------------------------------------------------------------

  /** The lookup address an entry's fields lead to, whatever becomes of the rest of the entry. */
  function EntryLookup(bytes: Bytes, h: Headers, delay: bool, offset: nat): (r: Result<nat, PeError>) {
    var rvaBased :- RvaBased(bytes, offset, delay);
    var rawIat :- Dword(bytes, offset + AddressField(delay));
    var iatRva :- VaOrRva(rawIat, h.imageBase, rvaBased);
    var rawLookup :- Dword(bytes, offset + LookupField(delay));
    LookupRva(rawLookup, iatRva, h.imageBase, rvaBased)
  }

  /**
   An entry without a lookup table falls back to its import address table. That
   address is already relative and is rebased once more: it is kept exactly when
   rebasing does nothing, refused when it lies below the image base, and otherwise
   leads to another place.
   */
  lemma FallbackExactly(bytes: Bytes, h: Headers, delay: bool, offset: nat, rvaBased: bool, rawIat: nat, iatRva: nat)
    requires RvaBased(bytes, offset, delay) == Ok(rvaBased)
    requires Dword(bytes, offset + AddressField(delay)) == Ok(rawIat) && VaOrRva(rawIat, h.imageBase, rvaBased) == Ok(iatRva)
    requires Dword(bytes, offset + LookupField(delay)) == Ok(0)
    ensures var lookup := EntryLookup(bytes, h, delay, offset);
      && (lookup == Ok(iatRva) <==> rvaBased || h.imageBase == 0 || iatRva == 0)
      && (lookup == Err(PrecedesBase) <==> !rvaBased && 0 < iatRva < h.imageBase)
      && (lookup == Ok(iatRva) || lookup == Err(PrecedesBase) || lookup == Ok(iatRva - h.imageBase))
  {
    FallbackFits(rawIat, h.imageBase, rvaBased, iatRva);
  }

  /** The descriptor stores that address, and without it there is no descriptor. */
  lemma LookupDecides(bytes: Bytes, h: Headers, delay: bool, offset: nat, index: nat)
    ensures var d, lookup := DescriptorAt(bytes, h, delay, offset, index), EntryLookup(bytes, h, delay, offset);
      && (d.Ok? ==> lookup == Ok(d.value.lookupRva))
      && (lookup.Err? ==> d.Err?)
  {
  }

  lemma FallbackFits(rawIat: nat, imageBase: nat, rvaBased: bool, iatRva: nat)
    requires VaOrRva(rawIat, imageBase, rvaBased) == Ok(iatRva)
    ensures rvaBased || iatRva <= U32_MAX
  {
  }

  // ----- names only -------------------------------------------------------------------------------------------

  function NameRva(bytes: Bytes, h: Headers, delay: bool, offset: nat): (r: Result<nat, PeError>) {
    var rawName :- Dword(bytes, offset + NameField(delay));
    if rawName == 0 then Err(NoName)
    else
      var rvaBased :- RvaBased(bytes, offset, delay);
      if rvaBased then Ok(rawName)
      else if rawName < h.imageBase then Err(PrecedesBase)
      else if rawName - h.imageBase > U32_MAX then Err(TooLarge)
      else Ok(rawName - h.imageBase)
  }

  function NameAt(bytes: Bytes, h: Headers, delay: bool, offset: nat): (r: Result<Name, PeError>) {
    var nameRva :- NameRva(bytes, h, delay, offset);
    var nameOffset :- RvaOffset(bytes, nameRva, h);
    DllName(bytes, nameOffset)
  }

  /** The name of entry `i`, or the all-zero entry's end mark. */
  function NameEntry(bytes: Bytes, h: Headers, delay: bool, start: nat, i: nat): (r: Result<Option<Name>, PeError>) {
    var present :- EntryPresent(bytes, delay, start, i);
    if !present then Ok(None)
    else
      var name :- NameAt(bytes, h, delay, EntryOffset(start, i, delay));
      Ok(Some(name))
  }

  function Names(bytes: Bytes, h: Headers, delay: bool, start: nat): nat -> Result<Option<Name>, PeError> {
    (i: nat) => NameEntry(bytes, h, delay, start, i)
  }

  /** The names as an ordered set, inserted one by one. */
  function Collected(names: seq<Name>): (found: seq<Name>) {
    if names == [] then [] else Lex.Insert(Collected(names[..|names| - 1]), names[|names| - 1])
  }

  function ImportNames(bytes: Bytes, rva: nat, size: nat, delay: bool, h: Headers): (r: Result<seq<Name>, PeError>) {
    if rva == 0 && size == 0 then Ok([])
    else
      var table :- Directory(bytes, rva, size, delay, h);
      NameTable(bytes, table.0, table.1, delay, h)
  }

  function NameTable(bytes: Bytes, start: nat, maximum: nat, delay: bool, h: Headers): (r: Result<seq<Name>, PeError>) {
    var names :- Walk(Names(bytes, h, delay, start), 0, maximum);
    Ok(Collected(names))
  }

  lemma CollectedSnoc(names: seq<Name>, name: Name)
    ensures Collected(names + [name]) == Lex.Insert(Collected(names), name)
  {
    assert (names + [name])[..|names|] == names;
  }

  method ReadNames(bytes: Bytes, rva: nat, size: nat, delay: bool, h: Headers) returns (r: Result<seq<Name>, PeError>)
    ensures r == ImportNames(bytes, rva, size, delay, h)
  {
    if rva == 0 && size == 0 {
      return Ok([]);
    }
    var table :- Directory(bytes, rva, size, delay, h);
    r := ReadNameTable(bytes, table.0, table.1, delay, h);
  }

  method ReadNameTable(bytes: Bytes, start: nat, maximum: nat, delay: bool, h: Headers) returns (r: Result<seq<Name>, PeError>)
    ensures r == NameTable(bytes, start, maximum, delay, h)
  {
    var found: seq<Name> := [];
    ghost var names: seq<Name> := [];
    ghost var read := Names(bytes, h, delay, start);
    ghost var whole := Walk(read, 0, maximum);
    LedNothing(names, whole);
    for i := 0 to maximum
      invariant found == Collected(names)
      invariant whole == Led(names, Walk(read, i, maximum))
    {
      WalkStep(read, i, maximum, names);
      var present :- EntryPresent(bytes, delay, start, i);
      if !present {
        return Ok(found);
      }
      var name :- NameAt(bytes, h, delay, EntryOffset(start, i, delay));
      CollectedSnoc(names, name);
      names := names + [name];
      found := Lex.Insert(found, name);
    }
    return Err(Unterminated);
  }

  // ----- the two parsers ------------------------------------------------------------------------------------------

  datatype Imports = Imports(machine: nat, normal: seq<Name>, delayed: seq<Name>)
  datatype Contract = Contract(machine: nat, normal: seq<Descriptor>, delayed: seq<Descriptor>)

  function ParseImports(bytes: Bytes): (r: Result<Imports, PeError>) {
    var h :- PeHeaders(bytes);
    var normal :- ImportNames(bytes, h.normalRva, h.normalSize, false, h);
    var delayed :- ImportNames(bytes, h.delayRva, h.delaySize, true, h);
    Ok(Imports(h.machine, normal, delayed))
  }

  function ParseContract(bytes: Bytes): (r: Result<Contract, PeError>) {
    var h :- PeHeaders(bytes);
    var normal :- ImportDescriptors(bytes, h.normalRva, h.normalSize, false, h);
    var delayed :- ImportDescriptors(bytes, h.delayRva, h.delaySize, true, h);
    Ok(Contract(h.machine, normal, delayed))
  }

  // ----- agreement ---------------------------------------------------------------------------------------------------

  lemma SameNameRva(bytes: Bytes, h: Headers, delay: bool, offset: nat, rvaBased: bool)
    requires RvaBased(bytes, offset, delay) == Ok(rvaBased)
    requires DescriptorNameRva(bytes, h, delay, offset, rvaBased).Ok?
    ensures NameRva(bytes, h, delay, offset) == DescriptorNameRva(bytes, h, delay, offset, rvaBased)
  {
  }

  /** One entry: a descriptor that parses has the name the other walk reads. */
  lemma SameName(bytes: Bytes, h: Headers, delay: bool, offset: nat, index: nat)
    requires DescriptorAt(bytes, h, delay, offset, index).Ok?
    ensures NameAt(bytes, h, delay, offset) == Ok(DescriptorAt(bytes, h, delay, offset, index).value.dll)
  {
    SameNameRva(bytes, h, delay, offset, RvaBased(bytes, offset, delay).value);
  }

  function DllNames(descriptors: seq<Descriptor>): (names: seq<Name>)
    ensures |names| == |descriptors|
    ensures forall i :: 0 <= i < |names| ==> names[i] == descriptors[i].dll
  {
    seq(|descriptors|, i requires 0 <= i < |descriptors| => descriptors[i].dll)
  }

  lemma SameEntry(bytes: Bytes, h: Headers, delay: bool, start: nat, i: nat)
    ensures var d, n := DescriptorEntry(bytes, h, delay, start, i), NameEntry(bytes, h, delay, start, i);
      d.Ok? ==> n == if d.value.Some? then Ok(Some(d.value.value.dll)) else Ok(None)
  {
    var offset := EntryOffset(start, i, delay);
    if DescriptorAt(bytes, h, delay, offset, i).Ok? {
      SameName(bytes, h, delay, offset, i);
    }
  }

  /** Whenever the descriptor walk succeeds, the name walk succeeds with the same DLL names in the same order. */
  lemma WalksAgree(
    bytes: Bytes, h: Headers, delay: bool, start: nat, bound: nat, maximum: nat, descriptors: seq<Descriptor>)
    requires bound <= maximum
    requires Walk(Descriptors(bytes, h, delay, start), 0, bound) == Ok(descriptors)
    ensures Walk(Names(bytes, h, delay, start), 0, maximum) == Ok(DllNames(descriptors))
  {
    var full, short := Descriptors(bytes, h, delay, start), Names(bytes, h, delay, start);
    WalkMeaning(full, 0, bound, descriptors);
    forall k: nat ensures full(k).Ok? ==>
      short(k) == if full(k).value.Some? then Ok(Some(full(k).value.value.dll)) else Ok(None)
    {
      SameEntry(bytes, h, delay, start, k);
    }
    SpellsNames(full, short, bound, maximum, descriptors);
    WalkMeaning(short, 0, maximum, DllNames(descriptors));
  }

  lemma SpellsNames(
    full: nat -> Result<Option<Descriptor>, PeError>, short: nat -> Result<Option<Name>, PeError>,
    bound: nat, maximum: nat, descriptors: seq<Descriptor>)
    requires bound <= maximum && Spells(full, 0, bound, descriptors)
    requires forall k: nat :: full(k).Ok? ==>
      short(k) == if full(k).value.Some? then Ok(Some(full(k).value.value.dll)) else Ok(None)
    ensures Spells(short, 0, maximum, DllNames(descriptors))
  {
    forall k: nat | k < |descriptors| ensures short(k) == Ok(Some(DllNames(descriptors)[k])) {
      assert full(k) == Ok(Some(descriptors[k - 0]));
    }
    assert full(0 + |descriptors|) == Ok(None);
  }

  ghost predicate Imported(descriptors: seq<Descriptor>, name: Name) {
    exists i :: 0 <= i < |descriptors| && descriptors[i].dll == name
  }

  /** `names` is the strictly sorted list of exactly the DLL names of `descriptors`. */
  ghost predicate SortedNamesOf(names: seq<Name>, descriptors: seq<Descriptor>) {
    && Lex.StrictlySorted(names)
    && forall name :: name in names <==> Imported(descriptors, name)
  }

  lemma {:induction false} CollectedNames(names: seq<Name>)
    ensures Lex.StrictlySorted(Collected(names))
    ensures forall name :: name in Collected(names) <==> name in names
  {
    if names == [] {
    } else {
      var front, last := names[..|names| - 1], names[|names| - 1];
      CollectedNames(front);
      Lex.InsertSorted(Collected(front), last);
      Lex.InsertElements(Collected(front), last);
      assert names == front + [last];
    }
  }

  lemma CollectsImported(descriptors: seq<Descriptor>)
    ensures SortedNamesOf(Collected(DllNames(descriptors)), descriptors)
  {
    var names := DllNames(descriptors);
    CollectedNames(names);
    forall name ensures name in names <==> Imported(descriptors, name) {
      if i :| 0 <= i < |descriptors| && descriptors[i].dll == name {
        assert names[i] == name;
      }
    }
  }

  lemma TablesAgree(bytes: Bytes, rva: nat, size: nat, delay: bool, h: Headers)
    requires ImportDescriptors(bytes, rva, size, delay, h).Ok?
    ensures ImportNames(bytes, rva, size, delay, h).Ok?
    ensures SortedNamesOf(ImportNames(bytes, rva, size, delay, h).value, ImportDescriptors(bytes, rva, size, delay, h).value)
  {
    var descriptors := ImportDescriptors(bytes, rva, size, delay, h).value;
    CollectsImported(descriptors);
    if rva != 0 || size != 0 {
      var table := Directory(bytes, rva, size, delay, h).value;
      WalksAgree(bytes, h, delay, table.0, Min(table.1, MAX_DESCRIPTORS), table.1, descriptors);
    }
  }

  /** Whenever the contract parse succeeds, so does the name parse: same machine, exactly the sorted distinct names. */
  lemma ParsersAgree(bytes: Bytes)
    requires ParseContract(bytes).Ok?
    ensures ParseImports(bytes).Ok?
    ensures var contract, imports := ParseContract(bytes).value, ParseImports(bytes).value;
      && imports.machine == contract.machine
      && SortedNamesOf(imports.normal, contract.normal)
      && SortedNamesOf(imports.delayed, contract.delayed)
  {
    var h := PeHeaders(bytes).value;
    TablesAgree(bytes, h.normalRva, h.normalSize, false, h);
    TablesAgree(bytes, h.delayRva, h.delaySize, true, h);
  }

  /** The sorted list of names is determined by the descriptors alone. */
  lemma SortedNamesUnique(left: seq<Name>, right: seq<Name>, descriptors: seq<Descriptor>)
    requires SortedNamesOf(left, descriptors) && SortedNamesOf(right, descriptors)
    ensures left == right
  {
    Lex.SortedUnique(left, right);
  }
}
