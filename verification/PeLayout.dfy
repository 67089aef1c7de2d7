/**
 Where the import parsers look in a Portable Executable file, as byte positions: what a
 file must hold for headers, an import entry, a DLL name or a thunk to be read as they are.
 */
module PeLayout {
  import opened Common
  import opened PeImports

  // ----- numbers ---------------------------------------------------------------------------------

  /** Least significant byte first. */
  function Little(b: Bytes): (n: nat) {
    if b == [] then 0 else b[0] + 256 * Little(b[1..])
  }

  /** The `width` bytes at `at` are in the file and read `v`. */
  ghost predicate Holds(bytes: Bytes, at: nat, width: nat, v: nat) {
    at + width <= |bytes| && Little(bytes[at..at + width]) == v
  }

  lemma LittleAppends(a: Bytes, b: Bytes, scale: nat)
    requires (|a| == 1 && scale == 0x100) || (|a| == 2 && scale == 0x1_0000) || (|a| == 4 && scale == 0x1_0000_0000)
    ensures Little(a + b) == Little(a) + scale * Little(b)
  {
    if |a| == 1 {
      assert (a + b)[1..] == b;
    } else if |a| == 2 {
      LittleAppends(a[..1], a[1..] + b, 0x100);
      LittleAppends(a[..1], a[1..], 0x100);
      LittleAppends(a[1..], b, 0x100);
      assert a + b == a[..1] + (a[1..] + b) && a == a[..1] + a[1..];
    } else {
      LittleAppends(a[..2], a[2..] + b, 0x1_0000);
      LittleAppends(a[..2], a[2..], 0x1_0000);
      LittleAppends(a[2..], b, 0x1_0000);
      assert a + b == a[..2] + (a[2..] + b) && a == a[..2] + a[2..];
    }
  }

  lemma WordExactly(bytes: Bytes, at: nat, v: nat)
    ensures Word(bytes, at) == Ok(v) <==> Holds(bytes, at, 2, v)
  {
    if at + 2 <= |bytes| {
      var low, high := [bytes[at]], [bytes[at + 1]];
      assert bytes[at..at + 2] == low + high;
      LittleAppends(low, high, 0x100);
    }
  }

  lemma DwordExactly(bytes: Bytes, at: nat, v: nat)
    ensures Dword(bytes, at) == Ok(v) <==> Holds(bytes, at, 4, v)
  {
    if at + 4 <= |bytes| {
      var low, high := bytes[at..at + 2], bytes[at + 2..at + 4];
      assert bytes[at..at + 4] == low + high;
      LittleAppends(low, high, 0x1_0000);
      WordExactly(bytes, at, Little(low));
      WordExactly(bytes, at + 2, Little(high));
    }
  }

  lemma QwordExactly(bytes: Bytes, at: nat, v: nat)
    ensures Qword(bytes, at) == Ok(v) <==> Holds(bytes, at, 8, v)
  {
    if at + 8 <= |bytes| {
      var low, high := bytes[at..at + 4], bytes[at + 4..at + 8];
      assert bytes[at..at + 8] == low + high;
      LittleAppends(low, high, 0x1_0000_0000);
      DwordExactly(bytes, at, Little(low));
      DwordExactly(bytes, at + 4, Little(high));
    }
  }

  // ----- names -------------------------------------------------------------------------------------

  /** `text` and a NUL at `at`: up to 4096 ASCII characters, none of them NUL. */
  ghost predicate TextAt(bytes: Bytes, at: nat, text: Name) {
    && 0 < |text| <= 4096 && at + |text| < |bytes|
    && bytes[at + |text|] == 0
    && forall i :: 0 <= i < |text| ==> text[i] == bytes[at + i] && 0 < text[i] < 0x80
  }

  lemma TextExactly(bytes: Bytes, at: nat, text: Name)
    ensures AsciiString(bytes, at) == Ok(text) <==> TextAt(bytes, at, text)
  {
    if at <= |bytes| {
      var end := ZeroFrom(bytes, at);
      if TextAt(bytes, at, text) {
        forall k | at <= k < at + |text| ensures bytes[k] != 0 {
          assert text[k - at] == bytes[at + (k - at)];
        }
        assert end == at + |text|;
        assert bytes[at..end] == text;
      }
    }
  }

  /** A DLL name: text without slashes, its letters in upper case. */
  ghost predicate DllAt(bytes: Bytes, at: nat, name: Name) {
    exists text :: TextAt(bytes, at, text) && Capitals(text, name)
  }

  ghost predicate Capitals(text: Name, name: Name) {
    && |name| == |text|
    && forall i :: 0 <= i < |text| ==>
         && text[i] != '/' as int && text[i] != '\\' as int
         && name[i] == if 'a' as int <= text[i] <= 'z' as int then text[i] - 32 else text[i]
  }

  lemma CapitalsExactly(text: Name, name: Name)
    ensures Capitals(text, name) <==> 0x2F !in text && 0x5C !in text && name == Upper(text)
  {
    assert '/' as int == 0x2F && '\\' as int == 0x5C && 'a' as int == 0x61 && 'z' as int == 0x7A;
    if 0x2F in text {
      var i :| 0 <= i < |text| && text[i] == 0x2F;
    }
    if 0x5C in text {
      var i :| 0 <= i < |text| && text[i] == 0x5C;
    }
    if Capitals(text, name) {
      assert name == Upper(text);
    }
  }

  lemma DllExactly(bytes: Bytes, at: nat, name: Name)
    ensures DllName(bytes, at) == Ok(name) <==> DllAt(bytes, at, name)
  {
    if AsciiString(bytes, at).Ok? {
      var text := AsciiString(bytes, at).value;
      TextExactly(bytes, at, text);
      CapitalsExactly(text, name);
    }
    if text :| TextAt(bytes, at, text) && Capitals(text, name) {
      TextExactly(bytes, at, text);
      CapitalsExactly(text, name);
    }
  }

  /** The address leads into the file, to a DLL name. */
  ghost predicate NamedAt(bytes: Bytes, h: Headers, rva: nat, name: Name) {
    RvaOffset(bytes, rva, h).Ok? && DllAt(bytes, RvaOffset(bytes, rva, h).value, name)
  }

  // ----- thunks --------------------------------------------------------------------------------------

  /** A thunk: bit 63 and sixteen bits of ordinal, or the 32-bit address of a hint and a name. */
  ghost predicate ThunkMeans(bytes: Bytes, h: Headers, thunk: nat, symbol: Symbol) {
    match symbol
    case ByOrdinal(ordinal) => ordinal < 0x1_0000 && thunk == 0x8000_0000_0000_0000 + ordinal
    case ByName(hint, name) =>
      && thunk < 0x1_0000_0000 && RvaOffset(bytes, thunk, h).Ok?
      && var at := RvaOffset(bytes, thunk, h).value;
      Holds(bytes, at, 2, hint) && TextAt(bytes, at + 2, name)
  }

  lemma SymbolExactly(bytes: Bytes, h: Headers, thunk: nat, symbol: Symbol)
    ensures SymbolOf(bytes, h, thunk) == Ok(symbol) <==> ThunkMeans(bytes, h, thunk, symbol)
  {
    if symbol.ByName? && RvaOffset(bytes, thunk, h).Ok? {
      var at := RvaOffset(bytes, thunk, h).value;
      WordExactly(bytes, at, symbol.hint);
      TextExactly(bytes, at + 2, symbol.name);
    }
  }

  /** Thunk `i` of the table at `start`, eight bytes each; zero ends the table. */
  lemma ThunkExactly(bytes: Bytes, h: Headers, start: nat, i: nat, thunk: nat, symbol: Symbol)
    requires Holds(bytes, start + 8 * i, 8, thunk)
    ensures ThunkAt(bytes, h, start, i) == Ok(None) <==> thunk == 0
    ensures ThunkAt(bytes, h, start, i) == Ok(Some(symbol)) <==> thunk != 0 && ThunkMeans(bytes, h, thunk, symbol)
  {
    QwordExactly(bytes, start + 8 * i, thunk);
    SymbolExactly(bytes, h, thunk, symbol);
  }

  // ----- import entries --------------------------------------------------------------------------------

  datatype Fields = Fields(attributes: nat, name: nat, iat: nat, lookup: nat, timestamp: nat)

  /** The fields of an IMAGE_IMPORT_DESCRIPTOR, whose addresses are always relative. */
  ghost predicate NormalFields(bytes: Bytes, at: nat, f: Fields) {
    && f.attributes == 1
    && Holds(bytes, at, 4, f.lookup) && Holds(bytes, at + 4, 4, f.timestamp)
    && Holds(bytes, at + 12, 4, f.name) && Holds(bytes, at + 16, 4, f.iat)
  }

  /** The fields of an IMAGE_DELAYLOAD_DESCRIPTOR. */
  ghost predicate DelayFields(bytes: Bytes, at: nat, f: Fields) {
    && Holds(bytes, at, 4, f.attributes) && Holds(bytes, at + 4, 4, f.name)
    && Holds(bytes, at + 12, 4, f.iat) && Holds(bytes, at + 16, 4, f.lookup) && Holds(bytes, at + 28, 4, f.timestamp)
  }

  ghost predicate EntryFields(bytes: Bytes, delay: bool, at: nat, f: Fields) {
    if delay then DelayFields(bytes, at, f) else NormalFields(bytes, at, f)
  }

  /** With odd attributes addresses are relative; otherwise all but zero are counted from the image base. */
  ghost predicate Leads(h: Headers, f: Fields, address: nat, rva: nat) {
    if f.attributes % 2 == 1 || address == 0 then rva == address
    else h.imageBase <= address <= h.imageBase + 0xFFFF_FFFF && rva == address - h.imageBase
  }

  lemma LeadsExactly(h: Headers, f: Fields, address: nat, rva: nat)
    ensures VaOrRva(address, h.imageBase, f.attributes % 2 == 1) == Ok(rva) <==> Leads(h, f, address, rva)
  {
  }

  lemma FieldsRead(bytes: Bytes, delay: bool, at: nat, f: Fields)
    requires EntryFields(bytes, delay, at, f)
    ensures RvaBased(bytes, at, delay) == Ok(f.attributes % 2 == 1)
    ensures Dword(bytes, at + NameField(delay)) == Ok(f.name)
    ensures Dword(bytes, at + AddressField(delay)) == Ok(f.iat)
    ensures Dword(bytes, at + LookupField(delay)) == Ok(f.lookup)
    ensures Dword(bytes, at + if delay then 28 else 4) == Ok(f.timestamp)
  {
    if delay {
      DwordExactly(bytes, at, f.attributes);
      DwordExactly(bytes, at + 4, f.name);
      DwordExactly(bytes, at + 12, f.iat);
      DwordExactly(bytes, at + 16, f.lookup);
      DwordExactly(bytes, at + 28, f.timestamp);
    } else {
      DwordExactly(bytes, at, f.lookup);
      DwordExactly(bytes, at + 4, f.timestamp);
      DwordExactly(bytes, at + 12, f.name);
      DwordExactly(bytes, at + 16, f.iat);
    }
  }

  /** The address `name` leads to is where the DLL name is, and is not zero. */
  ghost predicate NameLeads(bytes: Bytes, h: Headers, f: Fields, name: Name) {
    exists rva: nat :: Leads(h, f, f.name, rva) && rva != 0 && NamedAt(bytes, h, rva, name)
  }

  lemma NameLeadsExactly(bytes: Bytes, h: Headers, f: Fields, name: Name)
    ensures NameLeads(bytes, h, f, name) <==>
      var rva := VaOrRva(f.name, h.imageBase, f.attributes % 2 == 1);
      rva.Ok? && rva.value != 0 && NamedAt(bytes, h, rva.value, name)
  {
    var rva := VaOrRva(f.name, h.imageBase, f.attributes % 2 == 1);
    if rva.Ok? {
      LeadsExactly(h, f, f.name, rva.value);
    }
    if r: nat :| Leads(h, f, f.name, r) && r != 0 && NamedAt(bytes, h, r, name) {
      LeadsExactly(h, f, f.name, r);
    }
  }

  lemma NameRead(bytes: Bytes, h: Headers, rva: nat, name: Name)
    ensures NamedAt(bytes, h, rva, name) <==>
      RvaOffset(bytes, rva, h).Ok? && DllName(bytes, RvaOffset(bytes, rva, h).value) == Ok(name)
  {
    if RvaOffset(bytes, rva, h).Ok? {
      DllExactly(bytes, RvaOffset(bytes, rva, h).value, name);
    }
  }

  /** What a descriptor must be for an entry with these fields. */
  ghost predicate Describes(bytes: Bytes, h: Headers, f: Fields, index: nat, d: Descriptor) {
    && d.ordinal == index && d.timestamp == f.timestamp
    && NameLeads(bytes, h, f, d.dll)
    && Leads(h, f, f.iat, d.iatRva)
    && Leads(h, f, if f.lookup == 0 then d.iatRva else f.lookup, d.lookupRva)
    && ImportSymbols(bytes, d.lookupRva, h) == Ok(d.symbols)
  }

  ghost predicate NameFound(bytes: Bytes, h: Headers, rva: Result<nat, PeError>, name: Name) {
    && rva.Ok? && rva.value != 0 && RvaOffset(bytes, rva.value, h).Ok?
    && DllName(bytes, RvaOffset(bytes, rva.value, h).value) == Ok(name)
  }

  /** The reader's own steps, in its own order. */
  lemma EntryUnrolled(bytes: Bytes, h: Headers, delay: bool, at: nat, f: Fields, based: bool, index: nat, d: Descriptor)
    requires RvaBased(bytes, at, delay) == Ok(based)
    requires Dword(bytes, at + NameField(delay)) == Ok(f.name)
    requires Dword(bytes, at + AddressField(delay)) == Ok(f.iat)
    requires Dword(bytes, at + LookupField(delay)) == Ok(f.lookup)
    requires Dword(bytes, at + if delay then 28 else 4) == Ok(f.timestamp)
    ensures DescriptorAt(bytes, h, delay, at, index) == Ok(d) <==>
      && d.ordinal == index && d.timestamp == f.timestamp
      && NameFound(bytes, h, VaOrRva(f.name, h.imageBase, based), d.dll)
      && VaOrRva(f.iat, h.imageBase, based) == Ok(d.iatRva)
      && VaOrRva(if f.lookup == 0 then d.iatRva else f.lookup, h.imageBase, based) == Ok(d.lookupRva)
      && ImportSymbols(bytes, d.lookupRva, h) == Ok(d.symbols)
  {
  }

  lemma NameFoundExactly(bytes: Bytes, h: Headers, f: Fields, name: Name)
    ensures NameFound(bytes, h, VaOrRva(f.name, h.imageBase, f.attributes % 2 == 1), name) <==> NameLeads(bytes, h, f, name)
  {
    NameLeadsExactly(bytes, h, f, name);
    var rva := VaOrRva(f.name, h.imageBase, f.attributes % 2 == 1);
    if rva.Ok? {
      NameRead(bytes, h, rva.value, name);
    }
  }

  /** An entry is read as the descriptor its fields describe, and as no other. */
  lemma EntryExactly(bytes: Bytes, h: Headers, delay: bool, at: nat, f: Fields, index: nat, d: Descriptor)
    requires EntryFields(bytes, delay, at, f)
    ensures DescriptorAt(bytes, h, delay, at, index) == Ok(d) <==> Describes(bytes, h, f, index, d)
  {
    FieldsRead(bytes, delay, at, f);
    EntryUnrolled(bytes, h, delay, at, f, f.attributes % 2 == 1, index, d);
    NameFoundExactly(bytes, h, f, d.dll);
    LeadsExactly(h, f, f.iat, d.iatRva);
    LeadsExactly(h, f, if f.lookup == 0 then d.iatRva else f.lookup, d.lookupRva);
  }

  /** The name walk reads a name where its entry's field leads; an address at the image base itself is read there. */
  lemma NameEntryExactly(bytes: Bytes, h: Headers, delay: bool, at: nat, f: Fields, name: Name)
    requires EntryFields(bytes, delay, at, f)
    ensures NameAt(bytes, h, delay, at) == Ok(name) <==>
      f.name != 0 && exists rva: nat :: Leads(h, f, f.name, rva) && NamedAt(bytes, h, rva, name)
  {
    FieldsRead(bytes, delay, at, f);
    if NameRva(bytes, h, delay, at).Ok? {
      var rva := NameRva(bytes, h, delay, at).value;
      assert Leads(h, f, f.name, rva);
      NameRead(bytes, h, rva, name);
    }
    if rva: nat :| Leads(h, f, f.name, rva) && NamedAt(bytes, h, rva, name) {
      NameRead(bytes, h, rva, name);
    }
  }

  // ----- tables ---------------------------------------------------------------------------------------------

  /** Entry `i` of a table: 20 bytes each, 32 if delay-loaded; the first all-zero one ends the table. */
  lemma TableExactly(bytes: Bytes, h: Headers, delay: bool, start: nat, i: nat, at: nat, size: nat)
    requires size == (if delay then 32 else 20) && at == start + size * i
    ensures DescriptorEntry(bytes, h, delay, start, i) == Ok(None)
       <==> at + size <= |bytes| && forall k :: at <= k < at + size ==> bytes[k] == 0
    ensures forall d :: DescriptorEntry(bytes, h, delay, start, i) == Ok(Some(d)) <==>
      && at + size <= |bytes| && (exists k :: at <= k < at + size && bytes[k] != 0)
      && DescriptorAt(bytes, h, delay, at, i) == Ok(d)
  {
    assert at == EntryOffset(start, i, delay);
  }

  /** A directory needs both its fields; it has room for as many whole entries as its size gives. */
  lemma DirectoryExactly(bytes: Bytes, rva: nat, size: nat, delay: bool, h: Headers, start: nat, room: nat)
    ensures Directory(bytes, rva, size, delay, h) == Ok((start, room)) <==>
      && rva != 0 && room >= 1 && RvaOffset(bytes, rva, h) == Ok(start)
      && if delay then 32 * room <= size < 32 * (room + 1) else 20 * room <= size < 20 * (room + 1)
  {
  }

  // ----- headers ------------------------------------------------------------------------------------------------

  /** A section header at `at`. */
  ghost predicate SectionHolds(bytes: Bytes, at: nat, s: Section) {
    && at + 40 <= |bytes|
    && Holds(bytes, at + 8, 4, s.virtualSize) && Holds(bytes, at + 12, 4, s.virtualAddress)
    && Holds(bytes, at + 16, 4, s.rawSize) && Holds(bytes, at + 20, 4, s.rawOffset)
  }

  lemma SectionExactly(bytes: Bytes, at: nat, s: Section)
    ensures SectionAt(bytes, at) == Ok(s) <==> SectionHolds(bytes, at, s)
  {
    DwordExactly(bytes, at + 8, s.virtualSize);
    DwordExactly(bytes, at + 12, s.virtualAddress);
    DwordExactly(bytes, at + 16, s.rawSize);
    DwordExactly(bytes, at + 20, s.rawOffset);
  }

  /** `count` section headers, 40 bytes each, from `table` on. */
  ghost predicate SectionsHold(bytes: Bytes, table: nat, count: nat, sections: seq<Section>) {
    |sections| == count && forall k: nat :: k < count ==> SectionHolds(bytes, table + 40 * k, sections[k])
  }

  lemma SectionsExactly(bytes: Bytes, table: nat, count: nat, sections: seq<Section>)
    ensures Sections(bytes, table, count) == Ok(sections) <==> SectionsHold(bytes, table, count, sections)
  {
    SectionsMeaning(bytes, table, count, sections);
    if |sections| == count {
      forall k: nat | k < count
        ensures SectionEntry(bytes, table, k) == Ok(sections[k]) <==> SectionHolds(bytes, table + 40 * k, sections[k])
      {
        SectionExactly(bytes, table + 40 * k, sections[k]);
      }
    }
  }

  /** The PE32+ optional header at `at`: image base, header size, more than 13 directories, the two import directories. */
  ghost predicate OptionalHolds(bytes: Bytes, at: nat, directories: nat, h: Headers) {
    && Holds(bytes, at, 2, 0x20B)
    && Holds(bytes, at + 24, 8, h.imageBase) && Holds(bytes, at + 60, 4, h.sizeOfHeaders)
    && Holds(bytes, at + 108, 4, directories) && directories >= 14
    && Holds(bytes, at + 120, 4, h.normalRva) && Holds(bytes, at + 124, 4, h.normalSize)
    && Holds(bytes, at + 216, 4, h.delayRva) && Holds(bytes, at + 220, 4, h.delaySize)
  }

  lemma OptionalExactly(bytes: Bytes, machine: nat, count: nat, at: nat, size: nat, h: Headers)
    ensures OptionalHeader(bytes, machine, count, at, size) == Ok(h) <==>
      && h.machine == machine && 224 <= size && at + size <= |bytes|
      && (exists directories: nat :: OptionalHolds(bytes, at, directories, h))
      && SectionsHold(bytes, at + size, count, h.sections)
  {
    SectionsExactly(bytes, at + size, count, h.sections);
    OptionalUnrolled(bytes, machine, count, at, size, h);
    OptionalHeld(bytes, at, h);
  }

  ghost predicate OptionalRead(bytes: Bytes, at: nat, h: Headers) {
    && Word(bytes, at) == Ok(0x20B)
    && Qword(bytes, at + 24) == Ok(h.imageBase) && Dword(bytes, at + 60) == Ok(h.sizeOfHeaders)
    && Dword(bytes, at + 108).Ok? && Dword(bytes, at + 108).value > 13
    && Dword(bytes, at + 120) == Ok(h.normalRva) && Dword(bytes, at + 124) == Ok(h.normalSize)
    && Dword(bytes, at + 216) == Ok(h.delayRva) && Dword(bytes, at + 220) == Ok(h.delaySize)
  }

  lemma OptionalUnrolled(bytes: Bytes, machine: nat, count: nat, at: nat, size: nat, h: Headers)
    ensures OptionalHeader(bytes, machine, count, at, size) == Ok(h) <==>
      && h.machine == machine && 224 <= size && at + size <= |bytes|
      && OptionalRead(bytes, at, h) && Sections(bytes, at + size, count) == Ok(h.sections)
  {
  }

  lemma OptionalHeld(bytes: Bytes, at: nat, h: Headers)
    ensures OptionalRead(bytes, at, h) <==> exists directories: nat :: OptionalHolds(bytes, at, directories, h)
  {
    WordExactly(bytes, at, 0x20B);
    OptionalNumbers(bytes, at, h);
    if OptionalRead(bytes, at, h) {
      var directories := Dword(bytes, at + 108).value;
      DwordExactly(bytes, at + 108, directories);
      assert OptionalHolds(bytes, at, directories, h);
    }
    if directories: nat :| OptionalHolds(bytes, at, directories, h) {
      DwordExactly(bytes, at + 108, directories);
    }
  }

  lemma OptionalNumbers(bytes: Bytes, at: nat, h: Headers)
    ensures Qword(bytes, at + 24) == Ok(h.imageBase) <==> Holds(bytes, at + 24, 8, h.imageBase)
    ensures Dword(bytes, at + 60) == Ok(h.sizeOfHeaders) <==> Holds(bytes, at + 60, 4, h.sizeOfHeaders)
    ensures Dword(bytes, at + 120) == Ok(h.normalRva) <==> Holds(bytes, at + 120, 4, h.normalRva)
    ensures Dword(bytes, at + 124) == Ok(h.normalSize) <==> Holds(bytes, at + 124, 4, h.normalSize)
    ensures Dword(bytes, at + 216) == Ok(h.delayRva) <==> Holds(bytes, at + 216, 4, h.delayRva)
    ensures Dword(bytes, at + 220) == Ok(h.delaySize) <==> Holds(bytes, at + 220, 4, h.delaySize)
  {
    QwordExactly(bytes, at + 24, h.imageBase);
    DwordExactly(bytes, at + 60, h.sizeOfHeaders);
    DwordExactly(bytes, at + 120, h.normalRva);
    DwordExactly(bytes, at + 124, h.normalSize);
    DwordExactly(bytes, at + 216, h.delayRva);
    DwordExactly(bytes, at + 220, h.delaySize);
  }

  /** MZ, the address of PE at 0x3C, a supported machine, section count, optional header and section table. */
  ghost predicate ImageHolds(bytes: Bytes, pe: nat, count: nat, size: nat, directories: nat, h: Headers) {
    && 2 <= |bytes| && bytes[0] == 'M' as int && bytes[1] == 'Z' as int
    && Holds(bytes, 0x3C, 4, pe)
    && pe + 4 <= |bytes| && bytes[pe..pe + 4] == ['P' as int, 'E' as int, 0, 0]
    && Holds(bytes, pe + 4, 2, h.machine) && (h.machine == 0x8664 || h.machine == 0xAA64)
    && Holds(bytes, pe + 6, 2, count) && Holds(bytes, pe + 20, 2, size)
    && 224 <= size && pe + 24 + size <= |bytes|
    && OptionalHolds(bytes, pe + 24, directories, h)
    && SectionsHold(bytes, pe + 24 + size, count, h.sections)
  }

  lemma SignatureExactly(bytes: Bytes, pe: nat)
    ensures |bytes| < 2 || bytes[..2] != [0x4D, 0x5A]
       <==> !(2 <= |bytes| && bytes[0] == 'M' as int && bytes[1] == 'Z' as int)
    ensures pe + 4 <= |bytes| ==>
      (bytes[pe..pe + 4] == [0x50, 0x45, 0, 0] <==> bytes[pe..pe + 4] == ['P' as int, 'E' as int, 0, 0])
  {
    assert 'M' as int == 0x4D && 'Z' as int == 0x5A && 'P' as int == 0x50 && 'E' as int == 0x45;
    if 2 <= |bytes| {
      assert bytes[..2] == [bytes[0], bytes[1]];
    }
  }

  lemma HeadersRead(bytes: Bytes, h: Headers) returns (pe: nat, count: nat, size: nat, directories: nat)
    requires PeHeaders(bytes) == Ok(h)
    ensures ImageHolds(bytes, pe, count, size, directories, h)
  {
    pe := Dword(bytes, 0x3C).value;
    count, size := Word(bytes, pe + 6).value, Word(bytes, pe + 20).value;
    SignatureExactly(bytes, pe);
    DwordExactly(bytes, 0x3C, pe);
    WordExactly(bytes, pe + 4, Word(bytes, pe + 4).value);
    WordExactly(bytes, pe + 6, count);
    WordExactly(bytes, pe + 20, size);
    OptionalExactly(bytes, Word(bytes, pe + 4).value, count, pe + 24, size, h);
    directories :| OptionalHolds(bytes, pe + 24, directories, h);
  }

  lemma HeadersFound(bytes: Bytes, pe: nat, count: nat, size: nat, directories: nat, h: Headers)
    requires ImageHolds(bytes, pe, count, size, directories, h)
    ensures PeHeaders(bytes) == Ok(h)
  {
    SignatureExactly(bytes, pe);
    DwordExactly(bytes, 0x3C, pe);
    WordExactly(bytes, pe + 4, h.machine);
    WordExactly(bytes, pe + 6, count);
    WordExactly(bytes, pe + 20, size);
    OptionalExactly(bytes, h.machine, count, pe + 24, size, h);
  }

  /** The headers are read exactly when the file holds them, field by field. */
  lemma HeadersExactly(bytes: Bytes, h: Headers)
    ensures PeHeaders(bytes) == Ok(h) <==>
      exists pe: nat, count: nat, size: nat, directories: nat :: ImageHolds(bytes, pe, count, size, directories, h)
  {
    if PeHeaders(bytes) == Ok(h) {
      var pe, count, size, directories := HeadersRead(bytes, h);
    }
    if pe: nat, count: nat, size: nat, directories: nat :| ImageHolds(bytes, pe, count, size, directories, h) {
      HeadersFound(bytes, pe, count, size, directories, h);
    }
  }
}
