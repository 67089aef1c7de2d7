/**
 A reader for the digest transcript, written from the format alone: tags, widths and
 order. It gets every projection back, so the transcript holds each field in its place.
 */
module TranscriptReader {
  import opened Common
  import opened CausalEvents
  import opened DigestTranscript

  datatype ReadError = Malformed
  type Reading<T> = Result<(T, Bytes), ReadError>

  // ----- numbers --------------------------------------------------------------------------------

  /** Most significant byte first. */
  function Number(b: Bytes): (n: nat) {
    if b == [] then 0 else 256 * Number(b[..|b| - 1]) + b[|b| - 1]
  }

  lemma {:induction false} NumberOfBe(width: nat, v: nat)
    requires v < Bound(width)
    ensures Number(Be(width, v)) == v
  {
    if width == 0 {
    } else {
      NumberOfBe(width - 1, v / 256);
      assert Be(width, v)[..width - 1] == Be(width - 1, v / 256);
    }
  }

  /** A number of `width` bytes, below `limit`. */
  function ReadNumber(width: nat, limit: nat, b: Bytes): (r: Reading<nat>)
    ensures r.Ok? ==> r.value.0 < limit
  {
    if width <= |b| && Number(b[..width]) < limit then Ok((Number(b[..width]), b[width..])) else Err(Malformed)
  }

  lemma NumberBack(width: nat, limit: nat, v: nat, k: Bytes)
    requires v < limit <= Bound(width)
    ensures ReadNumber(width, limit, Be(width, v) + k) == Ok((v, k))
  {
    NumberOfBe(width, v);
    assert (Be(width, v) + k)[..width] == Be(width, v) && (Be(width, v) + k)[width..] == k;
  }

  function ReadByte(b: Bytes): (r: Reading<Byte>) {
    if b == [] then Err(Malformed) else Ok((b[0], b[1..]))
  }

  lemma ByteBack(v: Byte, k: Bytes)
    ensures ReadByte([v] + k) == Ok((v, k))
  {
  }

  function ReadBool(b: Bytes): (r: Reading<bool>) {
    var tag :- ReadByte(b);
    if tag.0 > 1 then Err(Malformed) else Ok((tag.0 == 1, tag.1))
  }

  lemma BoolBack(v: bool, k: Bytes)
    ensures ReadBool([Bit(v)] + k) == Ok((v, k))
  {
    ByteBack(Bit(v), k);
  }

  function ReadBytes(count: nat, b: Bytes): (r: Reading<Bytes>) {
    if count <= |b| then Ok((b[..count], b[count..])) else Err(Malformed)
  }

  lemma BytesBack(bytes: Bytes, k: Bytes)
    ensures ReadBytes(|bytes|, bytes + k) == Ok((bytes, k))
  {
  }

  /** Two's complement. */
  function Signed(v: U32): (i: I32) {
    if v < 0x8000_0000 then v else v - 0x1_0000_0000
  }

  // ----- one event --------------------------------------------------------------------------------

  function ReadNative(b: Bytes): (r: Reading<Option<NativeCode>>) {
    var tag :- ReadByte(b);
    if tag.0 == 0 then Ok((None, tag.1))
    else
      var code :- ReadNumber(4, 0x1_0000_0000, tag.1);
      match tag.0
      case 1 => Ok((Some(Win32(code.0)), code.1))
      case 2 => Ok((Some(NtStatus(code.0)), code.1))
      case 3 => Ok((Some(HResult(code.0)), code.1))
      case 4 => Ok((Some(Winsock(Signed(code.0))), code.1))
      case 5 => Ok((Some(Errno(Signed(code.0))), code.1))
      case 6 => Ok((Some(LegacyUntyped(Signed(code.0))), code.1))
      case _ => Err(Malformed)
  }

  lemma NativeBack(native: Option<NativeCode>, k: Bytes)
    ensures ReadNative(NativeThen(native, k)) == Ok((native, k))
  {
    match native
    case None => ByteBack(0, k);
    case Some(code) =>
      Bounds();
      ByteBack(Domain(code), Be(4, CodeBits(code)) + k);
      NumberBack(4, 0x1_0000_0000, CodeBits(code), k);
  }

  function ReadDetail(b: Bytes): (r: Reading<Detail>) {
    var tag :- ReadByte(b);
    match tag.0
    case 0 => Ok((NoDetail, tag.1))
    case 1 =>
      var observed :- ReadNumber(4, 0x1_0000_0000, tag.1);
      var limit :- ReadNumber(4, 0x1_0000_0000, observed.1);
      Ok((CountAndLimit(observed.0, limit.0), limit.1))
    case 2 =>
      var id :- ReadNumber(2, 5, tag.1);
      Ok((ProviderMessage(id.0), id.1))
    case _ => Err(Malformed)
  }

  lemma DetailBack(detail: Detail, k: Bytes)
    ensures ReadDetail(DetailThen(detail, k)) == Ok((detail, k))
  {
    Bounds();
    match detail
    case NoDetail => ByteBack(0, k);
    case CountAndLimit(observed, limit) =>
      ByteBack(1, Be(4, observed) + (Be(4, limit) + k));
      NumberBack(4, 0x1_0000_0000, observed, Be(4, limit) + k);
      NumberBack(4, 0x1_0000_0000, limit, k);
    case ProviderMessage(id) =>
      ByteBack(2, Be(2, id) + k);
      NumberBack(2, 5, id, k);
  }

  function ReadReference(b: Bytes): (r: Reading<Option<Reference>>) {
    var tag :- ReadByte(b);
    match tag.0
    case 0 => Ok((None, tag.1))
    case 1 => Ok((Some(FirstError), tag.1))
    case 2 =>
      var index :- ReadByte(tag.1);
      Ok((Some(SecondaryError(index.0)), index.1))
    case _ => Err(Malformed)
  }

  lemma ReferenceBack(reference: Option<Reference>, k: Bytes)
    ensures ReadReference(ReferenceThen(reference, k)) == Ok((reference, k))
  {
    match reference
    case None => ByteBack(0, k);
    case Some(FirstError) => ByteBack(1, k);
    case Some(SecondaryError(index)) =>
      ByteBack(2, [index] + k);
      ByteBack(index, k);
  }

  /** The redaction and truncation flags and the reference, into `e`. */
  function ReadFlags(e: Event, b: Bytes): (r: Reading<Event>) {
    var redacted :- ReadBool(b);
    var truncated :- ReadBool(redacted.1);
    var reference :- ReadReference(truncated.1);
    Ok((e.(redacted := redacted.0, truncated := truncated.0, reference := reference.0), reference.1))
  }

  lemma FlagsBack(blank: Event, e: Event, k: Bytes)
    ensures ReadFlags(blank, FlagsThen(e, k))
         == Ok((blank.(redacted := e.redacted, truncated := e.truncated, reference := e.reference), k))
  {
    BoolBack(e.redacted, [Bit(e.truncated)] + ReferenceThen(e.reference, k));
    BoolBack(e.truncated, ReferenceThen(e.reference, k));
    ReferenceBack(e.reference, k);
  }

  /** The native code, the phase and the detail, into `e`. */
  function ReadPhase(e: Event, b: Bytes): (r: Reading<Event>) {
    var native :- ReadNative(b);
    var phase :- ReadNumber(2, 8, native.1);
    var detail :- ReadDetail(phase.1);
    Ok((e.(native := native.0, phase := phase.0, detail := detail.0), detail.1))
  }

  lemma PhaseBack(blank: Event, e: Event, k: Bytes)
    ensures ReadPhase(blank, NativeThen(e.native, PhaseThen(e, k)))
         == Ok((blank.(native := e.native, phase := e.phase, detail := e.detail), FlagsThen(e, k)))
  {
    Bounds();
    NativeBack(e.native, PhaseThen(e, k));
    NumberBack(2, 8, e.phase, DetailThen(e.detail, FlagsThen(e, k)));
    DetailBack(e.detail, FlagsThen(e, k));
  }

  const BLANK := Event(0, 0, 0, 0, 0, None, 0, NoDetail, false, false, None)

  /** The sequence and the four tags. */
  function ReadTags(b: Bytes): (r: Reading<Event>) {
    var sequence :- ReadNumber(8, 0x1_0000_0000_0000_0000, b);
    var origin :- ReadNumber(2, 6, sequence.1);
    var category :- ReadNumber(2, 8, origin.1);
    var operation :- ReadNumber(2, 34, category.1);
    var code :- ReadNumber(2, 15, operation.1);
    Ok((BLANK.(sequence := sequence.0, origin := origin.0, category := category.0, operation := operation.0,
               code := code.0), code.1))
  }

  lemma TagsBack(e: Event, k: Bytes)
    ensures ReadTags(EventThen(e, k))
         == Ok((BLANK.(sequence := e.sequence, origin := e.origin, category := e.category, operation := e.operation,
                       code := e.code), NativeThen(e.native, PhaseThen(e, k))))
  {
    Bounds();
    var a4 := NativeThen(e.native, PhaseThen(e, k));
    var a3 := Be(2, e.code) + a4;
    var a2 := Be(2, e.operation) + a3;
    NumberBack(8, 0x1_0000_0000_0000_0000, e.sequence, TagsThen(e, k));
    NumberBack(2, 6, e.origin, Be(2, e.category) + a2);
    NumberBack(2, 8, e.category, a2);
    NumberBack(2, 34, e.operation, a3);
    NumberBack(2, 15, e.code, a4);
  }

  function ReadEvent(b: Bytes): (r: Reading<Event>) {
    var tags :- ReadTags(b);
    var phase :- ReadPhase(tags.0, tags.1);
    ReadFlags(phase.0, phase.1)
  }

  lemma EventBack(e: Event, k: Bytes)
    ensures ReadEvent(EventThen(e, k)) == Ok((e, k))
  {
    TagsBack(e, k);
    var tags := ReadTags(EventThen(e, k)).value.0;
    PhaseBack(tags, e, k);
    FlagsBack(tags.(native := e.native, phase := e.phase, detail := e.detail), e, k);
  }

  // ----- the projection ------------------------------------------------------------------------------

  /** The domain text and its NUL. */
  function ReadTag(b: Bytes): (r: Reading<()>) {
    var text := "memcordon:causal-diagnostic:v1\0";
    if |text| <= |b| && (forall i :: 0 <= i < |text| ==> b[i] == text[i] as int) then Ok(((), b[|text|..]))
    else Err(Malformed)
  }

  lemma TagBack(k: Bytes)
    ensures ReadTag(TAG + k) == Ok(((), k))
  {
    TagSpelled();
    assert forall i :: 0 <= i < |TAG| ==> (TAG + k)[i] == TAG[i];
    assert (TAG + k)[|TAG|..] == k;
  }

  lemma TagSpelled()
    ensures var text := "memcordon:causal-diagnostic:v1\0";
      |TAG| == |text| == 31 && forall i :: 0 <= i < 31 ==> TAG[i] == text[i] as int
  {
  }

  function ReadText(b: Bytes): (r: Reading<Bytes>) {
    var length :- ReadNumber(8, 0x1_0000_0000_0000_0000, b);
    ReadBytes(length.0, length.1)
  }

  lemma TextBack(text: Bytes, k: Bytes)
    requires |text| <= U64_MAX
    ensures ReadText(TextThen(text, k)) == Ok((text, k))
  {
    Bounds();
    NumberBack(8, 0x1_0000_0000_0000_0000, |text|, text + k);
    BytesBack(text, k);
  }

  function ReadDurable(b: Bytes): (r: Reading<Option<U64>>) {
    var some :- ReadBool(b);
    if !some.0 then Ok((None, some.1))
    else
      var v :- ReadNumber(8, 0x1_0000_0000_0000_0000, some.1);
      Ok((Some(v.0), v.1))
  }

  lemma DurableBack(durable: Option<U64>, k: Bytes)
    ensures ReadDurable(DurableThen(durable, k)) == Ok((durable, k))
  {
    match durable
    case None => BoolBack(false, k);
    case Some(v) =>
      Bounds();
      BoolBack(true, Be(8, v) + k);
      NumberBack(8, 0x1_0000_0000_0000_0000, v, k);
  }

  function ReadOriginal(b: Bytes): (r: Reading<Original>) {
    var missing :- ReadBool(b);
    if missing.0 then
      var reason :- ReadNumber(2, 7, missing.1);
      Ok((Unavailable(reason.0), reason.1))
    else
      var event :- ReadEvent(missing.1);
      Ok((Observed(event.0), event.1))
  }

  lemma OriginalBack(original: Original, k: Bytes)
    ensures ReadOriginal(OriginalThen(original, k)) == Ok((original, k))
  {
    match original
    case Observed(event) =>
      BoolBack(false, EventThen(event, k));
      EventBack(event, k);
    case Unavailable(reason) =>
      Bounds();
      BoolBack(true, Be(2, reason) + k);
      NumberBack(2, 7, reason, k);
  }

  /** `count` items, one after another. */
  function ReadChain<T>(read: Bytes -> Reading<T>, count: nat, b: Bytes): (r: Reading<seq<T>>) {
    if count == 0 then Ok(([], b))
    else
      var first :- read(b);
      var others :- ReadChain(read, count - 1, first.1);
      Ok(([first.0] + others.0, others.1))
  }

  ghost predicate ReadsBack<T(!new)>(item: (T, Bytes) -> Bytes, read: Bytes -> Reading<T>) {
    forall x, k :: read(item(x, k)) == Ok((x, k))
  }

  lemma {:induction false} ChainBack<T(!new)>(
    item: (T, Bytes) -> Bytes, read: Bytes -> Reading<T>, items: seq<T>, i: nat, k: Bytes)
    requires ReadsBack(item, read) && i <= |items|
    ensures ReadChain(read, |items| - i, Chain(item, items, i, k)) == Ok((items[i..], k))
    decreases |items| - i
  {
    if i == |items| {
    } else {
      ChainBack(item, read, items, i + 1, k);
      assert items[i..] == [items[i]] + items[i + 1..];
    }
  }

  function ReadEvents(b: Bytes): (r: Reading<seq<Event>>) {
    var count :- ReadNumber(8, 0x1_0000_0000_0000_0000, b);
    ReadChain(ReadEvent, count.0, count.1)
  }

  lemma EventsReadBack()
    ensures ReadsBack(EventThen, ReadEvent)
  {
    forall e, k ensures ReadEvent(EventThen(e, k)) == Ok((e, k)) {
      EventBack(e, k);
    }
  }

  lemma EventsBack(events: seq<Event>, k: Bytes)
    requires |events| <= U64_MAX
    ensures ReadEvents(ListThen(events, k)) == Ok((events, k))
  {
    Bounds();
    NumberBack(8, 0x1_0000_0000_0000_0000, |events|, EventsThen(events, 0, k));
    EventsReadBack();
    ChainBack(EventThen, ReadEvent, events, 0, k);
    assert events[0..] == events;
  }

  function ReadLoss(b: Bytes): (r: Reading<Loss>) {
    var omitted :- ReadNumber(4, 0x1_0000_0000, b);
    var saturated :- ReadBool(omitted.1);
    var failed :- ReadBool(saturated.1);
    var unavailable :- ReadBool(failed.1);
    Ok((Loss(omitted.0, saturated.0, failed.0, unavailable.0), unavailable.1))
  }

  lemma LossBack(loss: Loss)
    ensures ReadLoss(LossBytes(loss)) == Ok((loss, []))
  {
    Bounds();
    var x, y, z := Bit(loss.saturated), Bit(loss.persistenceFailure), Bit(loss.writerUnavailable);
    assert [x, y, z] == [x] + ([y] + ([z] + []));
    NumberBack(4, 0x1_0000_0000, loss.omitted, [x, y, z]);
    BoolBack(loss.saturated, [y] + ([z] + []));
    BoolBack(loss.persistenceFailure, [z] + []);
    BoolBack(loss.writerUnavailable, []);
  }

  /** Sequence, durable mark, original, secondary list and loss, into `p`. */
  function ReadJournal(p: Projection, b: Bytes): (r: Reading<Projection>) {
    var sequence :- ReadNumber(8, 0x1_0000_0000_0000_0000, b);
    var durable :- ReadDurable(sequence.1);
    var original :- ReadOriginal(durable.1);
    var secondary :- ReadEvents(original.1);
    var loss :- ReadLoss(secondary.1);
    Ok((p.(sequence := sequence.0, durable := durable.0, original := original.0, secondary := secondary.0,
           loss := loss.0), loss.1))
  }

  lemma JournalBack(blank: Projection, p: Projection)
    requires p.Valid()
    ensures ReadJournal(blank, JournalBytes(p))
         == Ok((blank.(sequence := p.sequence, durable := p.durable, original := p.original, secondary := p.secondary,
                       loss := p.loss), []))
  {
    Bounds();
    var list := ListThen(p.secondary, LossBytes(p.loss));
    NumberBack(8, 0x1_0000_0000_0000_0000, p.sequence, DurableThen(p.durable, OriginalThen(p.original, list)));
    DurableBack(p.durable, OriginalThen(p.original, list));
    OriginalBack(p.original, list);
    EventsBack(p.secondary, LossBytes(p.loss));
    LossBack(p.loss);
  }

  /** Domain text, schema, generation, source commit and the manifest, attempt and request digests, into `p`. */
  function ReadHeader(p: Projection, b: Bytes): (r: Reading<Projection>) {
    var tag :- ReadTag(b);
    var schema :- ReadNumber(4, 0x1_0000_0000, tag.1);
    var generation :- ReadText(schema.1);
    var commit :- ReadText(generation.1);
    var manifest :- ReadBytes(32, commit.1);
    var attempt :- ReadBytes(32, manifest.1);
    var request :- ReadBytes(32, attempt.1);
    Ok((p.(schema := schema.0, generation := generation.0, sourceCommit := commit.0, manifest := manifest.0,
           attempt := attempt.0, request := request.0), request.1))
  }

  lemma HeaderBack(blank: Projection, p: Projection)
    requires p.Valid()
    ensures ReadHeader(blank, Transcript(p))
         == Ok((blank.(schema := p.schema, generation := p.generation, sourceCommit := p.sourceCommit,
                       manifest := p.manifest, attempt := p.attempt, request := p.request), JournalBytes(p)))
  {
    Bounds();
    var commit := TextThen(p.sourceCommit, BindingBytes(p));
    TagBack(Be(4, p.schema) + TextThen(p.generation, commit));
    NumberBack(4, 0x1_0000_0000, p.schema, TextThen(p.generation, commit));
    TextBack(p.generation, commit);
    TextBack(p.sourceCommit, BindingBytes(p));
    BytesBack(p.manifest, p.attempt + (p.request + JournalBytes(p)));
    BytesBack(p.attempt, p.request + JournalBytes(p));
    BytesBack(p.request, JournalBytes(p));
  }

  /** A whole transcript, and nothing after it; the digest is not part of it. */
  function Read(b: Bytes, digest: Bytes): (r: Result<Projection, ReadError>) {
    var blank := Projection(0, [], [], [], [], [], 0, None, Unavailable(0), [], Loss(0, false, false, false), digest);
    var header :- ReadHeader(blank, b);
    var journal :- ReadJournal(header.0, header.1);
    if journal.1 == [] then Ok(journal.0) else Err(Malformed)
  }

  /** Every projection can be read back from its transcript. */
  lemma TranscriptReadsBack(p: Projection)
    requires p.Valid()
    ensures Read(Transcript(p), p.digest) == Ok(p)
  {
    var blank := Projection(0, [], [], [], [], [], 0, None, Unavailable(0), [], Loss(0, false, false, false), p.digest);
    HeaderBack(blank, p);
    JournalBack(ReadHeader(blank, Transcript(p)).value.0, p);
  }

  // ----- only transcripts are read -------------------------------------------------------------------------

  lemma {:induction false} BeOfNumber(b: Bytes)
    ensures Be(|b|, Number(b)) == b
  {
    if b == [] {
    } else {
      BeOfNumber(b[..|b| - 1]);
      assert b == b[..|b| - 1] + [b[|b| - 1]];
    }
  }

  lemma NumberOnly(width: nat, limit: nat, b: Bytes)
    ensures ReadNumber(width, limit, b).Ok? ==>
      b == Be(width, ReadNumber(width, limit, b).value.0) + ReadNumber(width, limit, b).value.1
  {
    if width <= |b| {
      BeOfNumber(b[..width]);
      assert b == b[..width] + b[width..];
    }
  }

  lemma ByteOnly(b: Bytes)
    ensures ReadByte(b).Ok? ==> b == [ReadByte(b).value.0] + ReadByte(b).value.1
  {
  }

  lemma BoolOnly(b: Bytes)
    ensures ReadBool(b).Ok? ==> b == [Bit(ReadBool(b).value.0)] + ReadBool(b).value.1
  {
    ByteOnly(b);
  }

  lemma BytesOnly(count: nat, b: Bytes)
    ensures ReadBytes(count, b).Ok? ==>
      b == ReadBytes(count, b).value.0 + ReadBytes(count, b).value.1 && |ReadBytes(count, b).value.0| == count
  {
  }

  lemma NativeOnly(b: Bytes)
    ensures ReadNative(b).Ok? ==> b == NativeThen(ReadNative(b).value.0, ReadNative(b).value.1)
  {
    ByteOnly(b);
    if b != [] {
      NumberOnly(4, 0x1_0000_0000, b[1..]);
    }
  }

  lemma DetailOnly(b: Bytes)
    ensures ReadDetail(b).Ok? ==> b == DetailThen(ReadDetail(b).value.0, ReadDetail(b).value.1)
  {
    ByteOnly(b);
    if b != [] && b[0] == 1 {
      NumberOnly(4, 0x1_0000_0000, b[1..]);
      if ReadNumber(4, 0x1_0000_0000, b[1..]).Ok? {
        NumberOnly(4, 0x1_0000_0000, ReadNumber(4, 0x1_0000_0000, b[1..]).value.1);
      }
    } else if b != [] && b[0] == 2 {
      NumberOnly(2, 5, b[1..]);
    }
  }

  lemma ReferenceOnly(b: Bytes)
    ensures ReadReference(b).Ok? ==> b == ReferenceThen(ReadReference(b).value.0, ReadReference(b).value.1)
  {
    ByteOnly(b);
    if b != [] {
      ByteOnly(b[1..]);
    }
  }

  lemma FlagsOnly(e: Event, b: Bytes)
    requires ReadFlags(e, b).Ok?
    ensures var (f, k) := ReadFlags(e, b).value;
      b == FlagsThen(f, k) && f == e.(redacted := f.redacted, truncated := f.truncated, reference := f.reference)
  {
    var redacted := ReadBool(b).value;
    var truncated := ReadBool(redacted.1).value;
    BoolOnly(b);
    BoolOnly(redacted.1);
    ReferenceOnly(truncated.1);
  }

  lemma PhaseOnly(e: Event, b: Bytes)
    requires ReadPhase(e, b).Ok?
    ensures var (f, k) := ReadPhase(e, b).value;
      && b == NativeThen(f.native, Be(2, f.phase) + DetailThen(f.detail, k))
      && f == e.(native := f.native, phase := f.phase, detail := f.detail)
  {
    var native := ReadNative(b).value;
    var phase := ReadNumber(2, 8, native.1).value;
    NativeOnly(b);
    NumberOnly(2, 8, native.1);
    DetailOnly(phase.1);
  }

  lemma TagsOnly(b: Bytes)
    requires ReadTags(b).Ok?
    ensures var (f, k) := ReadTags(b).value;
      b == Be(8, f.sequence) + (Be(2, f.origin) + (Be(2, f.category) + (Be(2, f.operation) + (Be(2, f.code) + k))))
  {
    var sequence := ReadNumber(8, 0x1_0000_0000_0000_0000, b).value;
    var origin := ReadNumber(2, 6, sequence.1).value;
    var category := ReadNumber(2, 8, origin.1).value;
    var operation := ReadNumber(2, 34, category.1).value;
    NumberOnly(8, 0x1_0000_0000_0000_0000, b);
    NumberOnly(2, 6, sequence.1);
    NumberOnly(2, 8, origin.1);
    NumberOnly(2, 34, category.1);
    NumberOnly(2, 15, operation.1);
  }

  lemma EventOnly(b: Bytes)
    requires ReadEvent(b).Ok?
    ensures b == EventThen(ReadEvent(b).value.0, ReadEvent(b).value.1)
  {
    var tags := ReadTags(b).value;
    var phase := ReadPhase(tags.0, tags.1).value;
    TagsOnly(b);
    PhaseOnly(tags.0, tags.1);
    FlagsOnly(phase.0, phase.1);
  }

  lemma TagOnly(b: Bytes)
    requires ReadTag(b).Ok?
    ensures b == TAG + ReadTag(b).value.1
  {
    TagSpelled();
    assert b[..31] == TAG;
    assert b == b[..31] + b[31..];
  }

  lemma TextOnly(b: Bytes)
    requires ReadText(b).Ok?
    ensures b == TextThen(ReadText(b).value.0, ReadText(b).value.1)
  {
    NumberOnly(8, 0x1_0000_0000_0000_0000, b);
    var length := ReadNumber(8, 0x1_0000_0000_0000_0000, b).value;
    BytesOnly(length.0, length.1);
  }

  lemma DurableOnly(b: Bytes)
    requires ReadDurable(b).Ok?
    ensures b == DurableThen(ReadDurable(b).value.0, ReadDurable(b).value.1)
  {
    BoolOnly(b);
    NumberOnly(8, 0x1_0000_0000_0000_0000, ReadBool(b).value.1);
  }

  lemma OriginalOnly(b: Bytes)
    requires ReadOriginal(b).Ok?
    ensures b == OriginalThen(ReadOriginal(b).value.0, ReadOriginal(b).value.1)
  {
    BoolOnly(b);
    var missing := ReadBool(b).value;
    if missing.0 {
      NumberOnly(2, 7, missing.1);
    } else {
      EventOnly(missing.1);
    }
  }

  ghost predicate ReadsOnly<T(!new)>(item: (T, Bytes) -> Bytes, read: Bytes -> Reading<T>) {
    forall b :: read(b).Ok? ==> b == item(read(b).value.0, read(b).value.1)
  }

  lemma {:induction false} ChainOnly<T(!new)>(item: (T, Bytes) -> Bytes, read: Bytes -> Reading<T>, count: nat, b: Bytes)
    requires ReadsOnly(item, read) && ReadChain(read, count, b).Ok?
    ensures var (items, k) := ReadChain(read, count, b).value;
      |items| == count && b == Chain(item, items, 0, k)
  {
    if count == 0 {
    } else {
      var first := read(b).value;
      ChainOnly(item, read, count - 1, first.1);
      var others := ReadChain(read, count - 1, first.1).value;
      ChainShifts(item, first.0, others.0, 0, others.1);
    }
  }

  /** A chain read from its second item on is the chain of the rest. */
  lemma {:induction false} ChainShifts<T(!new)>(item: (T, Bytes) -> Bytes, first: T, others: seq<T>, i: nat, k: Bytes)
    requires i <= |others|
    ensures Chain(item, [first] + others, i + 1, k) == Chain(item, others, i, k)
    decreases |others| - i
  {
    if i == |others| {
    } else {
      ChainShifts(item, first, others, i + 1, k);
    }
  }

  lemma EventsReadOnly()
    ensures ReadsOnly(EventThen, ReadEvent)
  {
    forall b | ReadEvent(b).Ok? ensures b == EventThen(ReadEvent(b).value.0, ReadEvent(b).value.1) {
      EventOnly(b);
    }
  }

  lemma EventsOnly(b: Bytes)
    requires ReadEvents(b).Ok?
    ensures b == ListThen(ReadEvents(b).value.0, ReadEvents(b).value.1)
  {
    NumberOnly(8, 0x1_0000_0000_0000_0000, b);
    var count := ReadNumber(8, 0x1_0000_0000_0000_0000, b).value;
    EventsReadOnly();
    ChainOnly(EventThen, ReadEvent, count.0, count.1);
  }

  lemma LossOnly(b: Bytes)
    requires ReadLoss(b).Ok?
    ensures b == LossBytes(ReadLoss(b).value.0) + ReadLoss(b).value.1
  {
    var omitted := ReadNumber(4, 0x1_0000_0000, b).value;
    var saturated := ReadBool(omitted.1).value;
    var failed := ReadBool(saturated.1).value;
    NumberOnly(4, 0x1_0000_0000, b);
    BoolOnly(omitted.1);
    BoolOnly(saturated.1);
    BoolOnly(failed.1);
  }

  lemma JournalOnly(p: Projection, b: Bytes)
    requires ReadJournal(p, b).Ok? && ReadJournal(p, b).value.1 == []
    ensures var q := ReadJournal(p, b).value.0;
      && b == JournalBytes(q)
      && q == p.(sequence := q.sequence, durable := q.durable, original := q.original, secondary := q.secondary,
                 loss := q.loss)
  {
    var sequence := ReadNumber(8, 0x1_0000_0000_0000_0000, b).value;
    var durable := ReadDurable(sequence.1).value;
    var original := ReadOriginal(durable.1).value;
    var secondary := ReadEvents(original.1).value;
    NumberOnly(8, 0x1_0000_0000_0000_0000, b);
    DurableOnly(sequence.1);
    OriginalOnly(durable.1);
    EventsOnly(original.1);
    LossOnly(secondary.1);
    assert LossBytes(ReadLoss(secondary.1).value.0) + [] == LossBytes(ReadLoss(secondary.1).value.0);
  }

  lemma HeaderOnly(p: Projection, b: Bytes)
    requires ReadHeader(p, b).Ok?
    ensures var (q, k) := ReadHeader(p, b).value;
      && b == TAG + (Be(4, q.schema) + TextThen(q.generation, TextThen(q.sourceCommit,
                                                                       q.manifest + (q.attempt + (q.request + k)))))
      && q.digest == p.digest
  {
    var tag := ReadTag(b).value;
    var schema := ReadNumber(4, 0x1_0000_0000, tag.1).value;
    var generation := ReadText(schema.1).value;
    var commit := ReadText(generation.1).value;
    var manifest := ReadBytes(32, commit.1).value;
    var attempt := ReadBytes(32, manifest.1).value;
    TagOnly(b);
    NumberOnly(4, 0x1_0000_0000, tag.1);
    TextOnly(schema.1);
    TextOnly(generation.1);
    BytesOnly(32, commit.1);
    BytesOnly(32, manifest.1);
    BytesOnly(32, attempt.1);
  }

  lemma ReadIsTranscript(b: Bytes, digest: Bytes)
    requires Read(b, digest).Ok?
    ensures b == Transcript(Read(b, digest).value) && Read(b, digest).value.digest == digest
  {
    var blank := Projection(0, [], [], [], [], [], 0, None, Unavailable(0), [], Loss(0, false, false, false), digest);
    HeaderOnly(blank, b);
    var header := ReadHeader(blank, b).value;
    JournalOnly(header.0, header.1);
  }

  /** The reader accepts exactly the transcripts: one byte string for each projection, and no other. */
  lemma TranscriptExactly(b: Bytes, p: Projection)
    requires p.Valid()
    ensures Read(b, p.digest) == Ok(p) <==> b == Transcript(p)
  {
    TranscriptReadsBack(p);
    if Read(b, p.digest) == Ok(p) {
      ReadIsTranscript(b, p.digest);
    }
  }
}
