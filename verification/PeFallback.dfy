/**
 A whole file on which the twice-rebased fallback shows: one delay-load entry by
 virtual addresses, with an import address table and no lookup table.
 */
module PeFallback {
  import opened Common
  import opened PeImports

  const NAME: Name := [0x41]

  /** Headers to 0x138, the delay directory at 0x140, the DLL name at 0x180, an empty address table at 0x1A0. */
  function FileByte(i: nat): (b: Byte) {
    if i < 0x58 then SignatureByte(i) else if i < 0x140 then OptionalByte(i) else TableByte(i)
  }

  function SignatureByte(i: nat): (b: Byte) {
    if i == 0x00 then 0x4D
    else if i == 0x01 then 0x5A
    else if i == 0x3C then 0x40
    else if i == 0x40 then 0x50
    else if i == 0x41 then 0x45
    else if i == 0x44 then 0x64
    else if i == 0x45 then 0x86
    else if i == 0x54 then 0xE0
    else 0
  }

  function OptionalByte(i: nat): (b: Byte) {
    if i == 0x58 then 0x0B
    else if i == 0x59 then 0x02
    else if i == 0x73 then 0x10
    else if i == 0x95 then 0x02
    else if i == 0xC4 then 0x10
    else if i == 0x130 then 0x40
    else if i == 0x131 then 0x01
    else if i == 0x134 then 0x40
    else 0
  }

  function TableByte(i: nat): (b: Byte) {
    if i == 0x144 then 0x80
    else if i == 0x145 then 0x01
    else if i == 0x147 then 0x10
    else if i == 0x14C then 0xA0
    else if i == 0x14D then 0x01
    else if i == 0x14F then 0x10
    else if i == 0x180 then 0x41
    else 0
  }

  function File(): (bytes: Bytes)
    ensures |bytes| == 0x200
    ensures forall i :: 0 <= i < 0x200 ==> bytes[i] == FileByte(i)
  {
    seq(0x200, i requires 0 <= i < 0x200 => FileByte(i))
  }

  /** No sections; SizeOfHeaders covers the whole file, so that addresses are offsets. */
  const HEADERS := Headers(MACHINE_AMD64, 0x1000_0000, 0x200, [], 0, 0, 0x140, 64)

  lemma FileWord(offset: nat)
    requires offset + 2 <= 0x200
    ensures Word(File(), offset) == Ok(FileByte(offset) + 0x100 * FileByte(offset + 1))
  {
  }

  lemma FileDword(offset: nat)
    requires offset + 4 <= 0x200
    ensures Dword(File(), offset) == Ok(FileByte(offset) + 0x100 * FileByte(offset + 1)
                                        + 0x1_0000 * FileByte(offset + 2) + 0x100_0000 * FileByte(offset + 3))
  {
    FileWord(offset);
    FileWord(offset + 2);
  }

  // ----- what any file with these fields parses to ------------------------------------------

  lemma SampleHeaders(bytes: Bytes)
    requires |bytes| == 0x200 && bytes[..2] == [0x4D, 0x5A] && bytes[0x40..0x44] == [0x50, 0x45, 0, 0]
    requires Dword(bytes, 0x3C) == Ok(0x40) && Word(bytes, 0x44) == Ok(MACHINE_AMD64)
    requires Word(bytes, 0x46) == Ok(0) && Word(bytes, 0x54) == Ok(224)
    requires OptionalHeader(bytes, MACHINE_AMD64, 0, 0x58, 224) == Ok(HEADERS)
    ensures PeHeaders(bytes) == Ok(HEADERS)
  {
  }

  ghost predicate SampleEntry(bytes: Bytes) {
    && |bytes| == 0x200 && Dword(bytes, 0x140) == Ok(0) && Dword(bytes, 0x144) == Ok(0x1000_0180)
    && Dword(bytes, 0x14C) == Ok(0x1000_01A0) && Dword(bytes, 0x150) == Ok(0)
    && bytes[0x144] != 0 && AllZero(bytes, 0x160, 32)
  }

  lemma SampleTable(bytes: Bytes)
    requires SampleEntry(bytes)
    ensures EntryPresent(bytes, true, 0x140, 0) == Ok(true) && EntryPresent(bytes, true, 0x140, 1) == Ok(false)
  {
  }

  lemma SampleNameRva(bytes: Bytes)
    requires SampleEntry(bytes)
    ensures NameRva(bytes, HEADERS, true, 0x140) == Ok(0x180)
  {
  }

  lemma SampleDllName(bytes: Bytes)
    requires |bytes| == 0x200 && bytes[0x180] == 0x41 && bytes[0x181] == 0
    ensures DllName(bytes, 0x180) == Ok(NAME)
  {
    assert ZeroFrom(bytes, 0x180) == 0x181;
    assert bytes[0x180..0x181] == [0x41];
    assert Upper([0x41]) == NAME;
  }

  lemma SampleName(bytes: Bytes)
    requires SampleEntry(bytes) && bytes[0x180] == 0x41 && bytes[0x181] == 0
    ensures NameEntry(bytes, HEADERS, true, 0x140, 0) == Ok(Some(NAME)) && NameEntry(bytes, HEADERS, true, 0x140, 1) == Ok(None)
  {
    SampleTable(bytes);
    SampleNameRva(bytes);
    SampleDllName(bytes);
    assert RvaOffset(bytes, 0x180, HEADERS) == Ok(0x180);
  }

  lemma OneName(read: nat -> Result<Option<Name>, PeError>)
    requires read(0) == Ok(Some(NAME)) && read(1) == Ok(None)
    ensures Walk(read, 0, 2) == Ok([NAME])
  {
    WalkMeaning(read, 0, 2, [NAME]);
  }

  lemma OneCollected()
    ensures Collected([NAME]) == [NAME]
  {
    assert [NAME][..0] == [];
  }

  lemma SampleDirectory(bytes: Bytes)
    requires |bytes| == 0x200
    ensures Directory(bytes, 0x140, 64, true, HEADERS) == Ok((0x140, 2))
  {
  }

  lemma SampleNames(bytes: Bytes)
    requires SampleEntry(bytes) && bytes[0x180] == 0x41 && bytes[0x181] == 0
    ensures ImportNames(bytes, 0x140, 64, true, HEADERS) == Ok([NAME])
  {
    SampleName(bytes);
    SampleDirectory(bytes);
    OneName(Names(bytes, HEADERS, true, 0x140));
    OneCollected();
  }

  lemma SampleDescriptor(bytes: Bytes)
    requires SampleEntry(bytes)
    ensures DescriptorAt(bytes, HEADERS, true, 0x140, 0) == Err(PrecedesBase)
  {
  }

  lemma SampleDescriptors(bytes: Bytes)
    requires SampleEntry(bytes)
    ensures ImportDescriptors(bytes, 0x140, 64, true, HEADERS) == Err(PrecedesBase)
  {
    SampleTable(bytes);
    SampleDirectory(bytes);
    SampleDescriptor(bytes);
    var read := Descriptors(bytes, HEADERS, true, 0x140);
    assert read(0) == Err(PrecedesBase);
    WalkStep(read, 0, 2, []);
  }

  lemma SampleAddressTable(bytes: Bytes)
    requires |bytes| == 0x200 && Qword(bytes, 0x1A0) == Ok(0)
    ensures ImportSymbols(bytes, 0x1A0, HEADERS) == Ok([])
  {
    var read := Thunks(bytes, HEADERS, 0x1A0);
    assert RvaOffset(bytes, 0x1A0, HEADERS) == Ok(0x1A0);
    assert read(0) == Ok(None);
    WalkMeaning(read, 0, MAX_THUNKS, []);
  }

  // ----- the file ------------------------------------------------------------------------------

  lemma FileOptionalHeader()
    ensures OptionalHeader(File(), MACHINE_AMD64, 0, 0x58, 224) == Ok(HEADERS)
  {
    FileWord(0x58);
    FileDword(0x70);
    FileDword(0x74);
    FileDword(0x94);
    FileDword(0xC4);
    FileDword(0xD0);
    FileDword(0xD4);
    FileDword(0x130);
    FileDword(0x134);
    assert Qword(File(), 0x70) == Ok(0x1000_0000);
    assert Sections(File(), 0x138, 0) == Ok([]);
  }

  lemma FileSignatures()
    ensures File()[..2] == [0x4D, 0x5A] && File()[0x40..0x44] == [0x50, 0x45, 0, 0]
  {
    assert File()[0x40..0x44] == [File()[0x40], File()[0x41], File()[0x42], File()[0x43]];
  }

  lemma FileCounts()
    ensures Dword(File(), 0x3C) == Ok(0x40) && Word(File(), 0x44) == Ok(MACHINE_AMD64)
    ensures Word(File(), 0x46) == Ok(0) && Word(File(), 0x54) == Ok(224)
  {
    FileDword(0x3C);
    FileWord(0x44);
    FileWord(0x46);
    FileWord(0x54);
  }

  lemma FileHeaders()
    ensures PeHeaders(File()) == Ok(HEADERS)
  {
    FileSignatures();
    FileCounts();
    FileOptionalHeader();
    SampleHeaders(File());
  }

  lemma FileEntry()
    ensures SampleEntry(File())
  {
    FileDword(0x140);
    FileDword(0x144);
    FileDword(0x14C);
    FileDword(0x150);
    assert File()[0x144] == FileByte(0x144);
    assert forall k :: 0x160 <= k < 0x180 ==> FileByte(k) == 0;
  }

  lemma FileAddressTable()
    ensures Qword(File(), 0x1A0) == Ok(0)
  {
    FileDword(0x1A0);
    FileDword(0x1A4);
  }

  /**
   The name parse of this file succeeds, and its address table is in place and
   empty; the contract parse refuses it for an address below the image base.
   */
  lemma FallbackRefused()
    ensures ParseImports(File()) == Ok(Imports(MACHINE_AMD64, [], [NAME]))
    ensures Dword(File(), 0x14C) == Ok(0x1000_01A0) && VaOrRva(0x1000_01A0, HEADERS.imageBase, false) == Ok(0x1A0)
    ensures ImportSymbols(File(), 0x1A0, HEADERS) == Ok([])
    ensures ParseContract(File()) == Err(PrecedesBase)
  {
    FileHeaders();
    FileEntry();
    FileAddressTable();
    assert File()[0x180] == FileByte(0x180) && File()[0x181] == FileByte(0x181);
    SampleVerdicts(File());
  }

  lemma SampleVerdicts(bytes: Bytes)
    requires PeHeaders(bytes) == Ok(HEADERS) && SampleEntry(bytes) && Qword(bytes, 0x1A0) == Ok(0)
    requires bytes[0x180] == 0x41 && bytes[0x181] == 0
    ensures ParseImports(bytes) == Ok(Imports(MACHINE_AMD64, [], [NAME]))
    ensures ImportSymbols(bytes, 0x1A0, HEADERS) == Ok([])
    ensures ParseContract(bytes) == Err(PrecedesBase)
  {
    SampleNames(bytes);
    SampleDescriptors(bytes);
    SampleAddressTable(bytes);
  }
}
