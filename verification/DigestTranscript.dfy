/**
 The byte transcript fed to the projection hash.

 Encoders take the bytes that follow (`k`), so that a transcript is one nested
 expression and unique decodability is proved field by field, from the left.
 */
module DigestTranscript {
  import opened Common
  import opened CausalEvents

  type Bytes = seq<Byte>

  // ----- big-endian fields -------------------------------------------------------------

  function Be(width: nat, v: nat): (bytes: Bytes)
    ensures |bytes| == width
  {
    if width == 0 then [] else Be(width - 1, v / 256) + [v % 256]
  }

  function Bound(width: nat): (b: nat) {
    if width == 0 then 1 else 256 * Bound(width - 1)
  }

  lemma Bounds()
    ensures Bound(2) == 0x1_0000 && Bound(4) == 0x1_0000_0000 && Bound(8) == 0x1_0000_0000_0000_0000
  {
    assert Bound(1) == 0x100 && Bound(3) == 0x100_0000 && Bound(5) == 0x100_0000_0000;
    assert Bound(6) == 0x1_0000_0000_0000 && Bound(7) == 0x100_0000_0000_0000;
  }

  lemma Cut(a: Bytes, b: Bytes, s: Bytes, t: Bytes)
    requires |a| == |b| && a + s == b + t
    ensures a == b && s == t
  {
    assert a == (a + s)[..|a|] && b == (b + t)[..|b|];
    assert s == (a + s)[|a|..] && t == (b + t)[|b|..];
  }

  lemma {:induction false} BeInjective(width: nat, a: nat, b: nat)
    requires a < Bound(width) && b < Bound(width) && Be(width, a) == Be(width, b)
    ensures a == b
  {
    if width == 0 {
    } else {
      Cut(Be(width - 1, a / 256), Be(width - 1, b / 256), [a % 256], [b % 256]);
      assert [a % 256][0] == [b % 256][0];
      BeInjective(width - 1, a / 256, b / 256);
    }
  }

  /** Two equal streams that start with a number of the same width start with the same number. */
  lemma FieldCut(width: nat, a: nat, b: nat, s: Bytes, t: Bytes)
    requires a < Bound(width) && b < Bound(width)
    requires Be(width, a) + s == Be(width, b) + t
    ensures a == b && s == t
  {
    Cut(Be(width, a), Be(width, b), s, t);
    BeInjective(width, a, b);
  }

  function Bit(b: bool): Byte {
    if b then 1 else 0
  }

  function Unsigned(v: I32): U32 {
    if v < 0 then v + 0x1_0000_0000 else v
  }

  // ----- one event ------------------------------------------------------------------------

  function Domain(code: NativeCode): Byte {
    match code
    case Win32(_) => 1
    case NtStatus(_) => 2
    case HResult(_) => 3
    case Winsock(_) => 4
    case Errno(_) => 5
    case LegacyUntyped(_) => 6
  }

  function CodeBits(code: NativeCode): U32 {
    match code
    case Win32(v) => v
    case NtStatus(v) => v
    case HResult(v) => v
    case Winsock(v) => Unsigned(v)
    case Errno(v) => Unsigned(v)
    case LegacyUntyped(v) => Unsigned(v)
  }

  function NativeThen(native: Option<NativeCode>, k: Bytes): Bytes {
    match native
    case None => [0] + k
    case Some(code) => [Domain(code)] + (Be(4, CodeBits(code)) + k)
  }

  function DetailThen(detail: Detail, k: Bytes): Bytes {
    match detail
    case NoDetail => [0] + k
    case CountAndLimit(observed, limit) => [1] + (Be(4, observed) + (Be(4, limit) + k))
    case ProviderMessage(id) => [2] + (Be(2, id) + k)
  }

  function ReferenceThen(reference: Option<Reference>, k: Bytes): Bytes {
    match reference
    case None => [0] + k
    case Some(FirstError) => [1] + k
    case Some(SecondaryError(index)) => [2] + ([index] + k)
  }

  function FlagsThen(e: Event, k: Bytes): Bytes {
    [Bit(e.redacted)] + ([Bit(e.truncated)] + ReferenceThen(e.reference, k))
  }

  function PhaseThen(e: Event, k: Bytes): Bytes {
    Be(2, e.phase) + DetailThen(e.detail, FlagsThen(e, k))
  }

  function TagsThen(e: Event, k: Bytes): Bytes {
    Be(2, e.origin) + (Be(2, e.category) + (Be(2, e.operation) + (Be(2, e.code) + NativeThen(e.native, PhaseThen(e, k)))))
  }

  function EventThen(e: Event, k: Bytes): Bytes {
    Be(8, e.sequence) + TagsThen(e, k)
  }

  lemma TagCut(a: Byte, b: Byte, s: Bytes, t: Bytes)
    requires [a] + s == [b] + t
    ensures a == b && s == t
  {
    Cut([a], [b], s, t);
    assert [a][0] == [b][0];
  }

  lemma NativeUnique(x: Option<NativeCode>, y: Option<NativeCode>, s: Bytes, t: Bytes)
    requires NativeThen(x, s) == NativeThen(y, t)
    ensures x == y && s == t
  {
    Bounds();
    if x.None? || y.None? {
      assert NativeThen(x, s)[0] == NativeThen(y, t)[0];
      Cut([0], [0], s, t);
    } else {
      TagCut(Domain(x.value), Domain(y.value), Be(4, CodeBits(x.value)) + s, Be(4, CodeBits(y.value)) + t);
      FieldCut(4, CodeBits(x.value), CodeBits(y.value), s, t);
    }
  }

  lemma DetailUnique(x: Detail, y: Detail, s: Bytes, t: Bytes)
    requires DetailThen(x, s) == DetailThen(y, t)
    ensures x == y && s == t
  {
    Bounds();
    assert DetailThen(x, s)[0] == DetailThen(y, t)[0];
    match x
    case NoDetail => TagCut(0, 0, s, t);
    case CountAndLimit(a, b) =>
      TagCut(1, 1, Be(4, a) + (Be(4, b) + s), Be(4, y.observed) + (Be(4, y.limit) + t));
      FieldCut(4, a, y.observed, Be(4, b) + s, Be(4, y.limit) + t);
      FieldCut(4, b, y.limit, s, t);
    case ProviderMessage(a) =>
      TagCut(2, 2, Be(2, a) + s, Be(2, y.id) + t);
      FieldCut(2, a, y.id, s, t);
  }

  lemma ReferenceUnique(x: Option<Reference>, y: Option<Reference>, s: Bytes, t: Bytes)
    requires ReferenceThen(x, s) == ReferenceThen(y, t)
    ensures x == y && s == t
  {
    assert ReferenceThen(x, s)[0] == ReferenceThen(y, t)[0];
    match x
    case None => TagCut(0, 0, s, t);
    case Some(FirstError) => TagCut(1, 1, s, t);
    case Some(SecondaryError(a)) =>
      TagCut(2, 2, [a] + s, [y.value.index] + t);
      TagCut(a, y.value.index, s, t);
  }

  lemma FlagsUnique(e: Event, f: Event, s: Bytes, t: Bytes)
    requires FlagsThen(e, s) == FlagsThen(f, t)
    ensures e.redacted == f.redacted && e.truncated == f.truncated && e.reference == f.reference && s == t
  {
    var x, y := ReferenceThen(e.reference, s), ReferenceThen(f.reference, t);
    TagCut(Bit(e.redacted), Bit(f.redacted), [Bit(e.truncated)] + x, [Bit(f.truncated)] + y);
    TagCut(Bit(e.truncated), Bit(f.truncated), x, y);
    ReferenceUnique(e.reference, f.reference, s, t);
  }

  lemma PhaseUnique(e: Event, f: Event, s: Bytes, t: Bytes)
    requires PhaseThen(e, s) == PhaseThen(f, t)
    ensures e.phase == f.phase && e.detail == f.detail && s == t
    ensures e.redacted == f.redacted && e.truncated == f.truncated && e.reference == f.reference
  {
    Bounds();
    var x, y := FlagsThen(e, s), FlagsThen(f, t);
    FieldCut(2, e.phase, f.phase, DetailThen(e.detail, x), DetailThen(f.detail, y));
    DetailUnique(e.detail, f.detail, x, y);
    FlagsUnique(e, f, s, t);
  }

  lemma EventUnique(e: Event, f: Event, s: Bytes, t: Bytes)
    requires EventThen(e, s) == EventThen(f, t)
    ensures e == f && s == t
  {
    Bounds();
    FieldCut(8, e.sequence, f.sequence, TagsThen(e, s), TagsThen(f, t));
    TagsUnique(e, f, s, t);
  }

  lemma TagsUnique(e: Event, f: Event, s: Bytes, t: Bytes)
    requires TagsThen(e, s) == TagsThen(f, t)
    ensures e == f.(sequence := e.sequence) && s == t
  {
    Bounds();
    var a4, b4 := NativeThen(e.native, PhaseThen(e, s)), NativeThen(f.native, PhaseThen(f, t));
    var a3, b3 := Be(2, e.code) + a4, Be(2, f.code) + b4;
    var a2, b2 := Be(2, e.operation) + a3, Be(2, f.operation) + b3;
    FieldCut(2, e.origin, f.origin, Be(2, e.category) + a2, Be(2, f.category) + b2);
    FieldCut(2, e.category, f.category, a2, b2);
    FieldCut(2, e.operation, f.operation, a3, b3);
    FieldCut(2, e.code, f.code, a4, b4);
    NativeUnique(e.native, f.native, PhaseThen(e, s), PhaseThen(f, t));
    PhaseUnique(e, f, s, t);
  }

  // ----- the projection -----------------------------------------------------------------------

  datatype Projection = Projection(
    schema: U32, generation: Bytes, sourceCommit: Bytes, manifest: Bytes, attempt: Bytes, request: Bytes,
    sequence: U64, durable: Option<U64>, original: Original, secondary: seq<Event>, loss: Loss, digest: Bytes)
  {
    /** The bounds the field types carry. */
    ghost predicate Valid() {
      && |generation| <= 256 && |sourceCommit| <= 64
      && |manifest| == 32 && |attempt| == 32 && |request| == 32
      && |secondary| <= 8
    }
  }

  /** The ASCII text memcordon:causal-diagnostic:v1 and a NUL. */
  const TAG: Bytes := [
    0x6D, 0x65, 0x6D, 0x63, 0x6F, 0x72, 0x64, 0x6F, 0x6E, 0x3A, 0x63, 0x61, 0x75, 0x73, 0x61, 0x6C, 0x2D, 0x64, 0x69,
    0x61, 0x67, 0x6E, 0x6F, 0x73, 0x74, 0x69, 0x63, 0x3A, 0x76, 0x31, 0x00]

  function TextThen(text: Bytes, k: Bytes): Bytes {
    Be(8, |text|) + (text + k)
  }

  function DurableThen(durable: Option<U64>, k: Bytes): Bytes {
    match durable
    case None => [0] + k
    case Some(v) => [1] + (Be(8, v) + k)
  }

  function OriginalThen(original: Original, k: Bytes): Bytes {
    match original
    case Observed(event) => [0] + EventThen(event, k)
    case Unavailable(reason) => [1] + (Be(2, reason) + k)
  }

  /** Items written one after another, in front of `k`. */
  function Chain<T>(item: (T, Bytes) -> Bytes, items: seq<T>, i: nat, k: Bytes): Bytes
    requires i <= |items|
    decreases |items| - i
  {
    if i == |items| then k else item(items[i], Chain(item, items, i + 1, k))
  }

  function EventsThen(events: seq<Event>, i: nat, k: Bytes): Bytes
    requires i <= |events|
  {
    Chain(EventThen, events, i, k)
  }

  function LossBytes(loss: Loss): Bytes {
    Be(4, loss.omitted) + [Bit(loss.saturated), Bit(loss.persistenceFailure), Bit(loss.writerUnavailable)]
  }

  function ListThen(events: seq<Event>, k: Bytes): Bytes {
    Be(8, |events|) + EventsThen(events, 0, k)
  }

  /** From the attempt's journal on. */
  function JournalBytes(p: Projection): Bytes {
    Be(8, p.sequence) + DurableThen(p.durable, OriginalThen(p.original, ListThen(p.secondary, LossBytes(p.loss))))
  }

  /** From the binding's digests on. */
  function BindingBytes(p: Projection): Bytes {
    p.manifest + (p.attempt + (p.request + JournalBytes(p)))
  }

  function Transcript(p: Projection): (bytes: Bytes) {
    TAG + (Be(4, p.schema) + TextThen(p.generation, TextThen(p.sourceCommit, BindingBytes(p))))
  }

  lemma TextUnique(x: Bytes, y: Bytes, s: Bytes, t: Bytes)
    requires |x| <= U64_MAX && |y| <= U64_MAX && TextThen(x, s) == TextThen(y, t)
    ensures x == y && s == t
  {
    Bounds();
    FieldCut(8, |x|, |y|, x + s, y + t);
    Cut(x, y, s, t);
  }

  lemma DurableUnique(x: Option<U64>, y: Option<U64>, s: Bytes, t: Bytes)
    requires DurableThen(x, s) == DurableThen(y, t)
    ensures x == y && s == t
  {
    Bounds();
    assert DurableThen(x, s)[0] == DurableThen(y, t)[0];
    match x
    case None => TagCut(0, 0, s, t);
    case Some(v) =>
      TagCut(1, 1, Be(8, v) + s, Be(8, y.value) + t);
      FieldCut(8, v, y.value, s, t);
  }

  lemma OriginalUnique(x: Original, y: Original, s: Bytes, t: Bytes)
    requires OriginalThen(x, s) == OriginalThen(y, t)
    ensures x == y && s == t
  {
    Bounds();
    assert OriginalThen(x, s)[0] == OriginalThen(y, t)[0];
    match x
    case Observed(e) =>
      TagCut(0, 0, EventThen(e, s), EventThen(y.event, t));
      EventUnique(e, y.event, s, t);
    case Unavailable(reason) =>
      TagCut(1, 1, Be(2, reason) + s, Be(2, y.reason) + t);
      FieldCut(2, reason, y.reason, s, t);
  }

  ghost predicate Readable<T(!new)>(item: (T, Bytes) -> Bytes) {
    forall a, b, s, t :: item(a, s) == item(b, t) ==> a == b && s == t
  }

  /** If single items read back uniquely, so does a chain of a known number of them. */
  lemma {:induction false} ChainUnique<T(!new)>(
    item: (T, Bytes) -> Bytes, x: seq<T>, y: seq<T>, i: nat, s: Bytes, t: Bytes)
    requires Readable(item)
    requires |x| == |y| && i <= |x| && Chain(item, x, i, s) == Chain(item, y, i, t)
    ensures (forall k :: i <= k < |x| ==> x[k] == y[k]) && s == t
    decreases |x| - i
  {
    if i == |x| {
    } else {
      ChainUnique(item, x, y, i + 1, s, t);
    }
  }

  lemma EventsReadable()
    ensures Readable(EventThen)
  {
    forall a, b, s, t | EventThen(a, s) == EventThen(b, t) ensures a == b && s == t {
      EventUnique(a, b, s, t);
    }
  }

  lemma EventsUnique(x: seq<Event>, y: seq<Event>, s: Bytes, t: Bytes)
    requires |x| == |y| && EventsThen(x, 0, s) == EventsThen(y, 0, t)
    ensures x == y && s == t
  {
    EventsReadable();
    ChainUnique(EventThen, x, y, 0, s, t);
  }

  lemma ListUnique(x: seq<Event>, y: seq<Event>, s: Bytes, t: Bytes)
    requires |x| <= U64_MAX && |y| <= U64_MAX && ListThen(x, s) == ListThen(y, t)
    ensures x == y && s == t
  {
    Bounds();
    FieldCut(8, |x|, |y|, EventsThen(x, 0, s), EventsThen(y, 0, t));
    EventsUnique(x, y, s, t);
  }

  lemma LossUnique(x: Loss, y: Loss)
    requires LossBytes(x) == LossBytes(y)
    ensures x == y
  {
    Bounds();
    var a := [Bit(x.saturated), Bit(x.persistenceFailure), Bit(x.writerUnavailable)];
    var b := [Bit(y.saturated), Bit(y.persistenceFailure), Bit(y.writerUnavailable)];
    FieldCut(4, x.omitted, y.omitted, a, b);
    assert a[0] == b[0] && a[1] == b[1] && a[2] == b[2];
  }

  lemma JournalUnique(p: Projection, q: Projection)
    requires p.Valid() && q.Valid() && JournalBytes(p) == JournalBytes(q)
    ensures p.sequence == q.sequence && p.durable == q.durable && p.original == q.original
    ensures p.secondary == q.secondary && p.loss == q.loss
  {
    Bounds();
    var a2, b2 := ListThen(p.secondary, LossBytes(p.loss)), ListThen(q.secondary, LossBytes(q.loss));
    var a1, b1 := OriginalThen(p.original, a2), OriginalThen(q.original, b2);
    FieldCut(8, p.sequence, q.sequence, DurableThen(p.durable, a1), DurableThen(q.durable, b1));
    DurableUnique(p.durable, q.durable, a1, b1);
    OriginalUnique(p.original, q.original, a2, b2);
    ListUnique(p.secondary, q.secondary, LossBytes(p.loss), LossBytes(q.loss));
    LossUnique(p.loss, q.loss);
  }

  lemma BindingUnique(p: Projection, q: Projection)
    requires p.Valid() && q.Valid() && BindingBytes(p) == BindingBytes(q)
    ensures p.manifest == q.manifest && p.attempt == q.attempt && p.request == q.request
    ensures JournalBytes(p) == JournalBytes(q)
  {
    var a2, b2 := p.request + JournalBytes(p), q.request + JournalBytes(q);
    Cut(p.manifest, q.manifest, p.attempt + a2, q.attempt + b2);
    Cut(p.attempt, q.attempt, a2, b2);
    Cut(p.request, q.request, JournalBytes(p), JournalBytes(q));
  }

  /** Projections with the same transcript agree in every field but the digest itself. */
  lemma TranscriptUnique(p: Projection, q: Projection)
    requires p.Valid() && q.Valid() && Transcript(p) == Transcript(q)
    ensures p.(digest := q.digest) == q
  {
    Bounds();
    var a2, b2 := TextThen(p.sourceCommit, BindingBytes(p)), TextThen(q.sourceCommit, BindingBytes(q));
    var a1, b1 := TextThen(p.generation, a2), TextThen(q.generation, b2);
    Cut(TAG, TAG, Be(4, p.schema) + a1, Be(4, q.schema) + b1);
    FieldCut(4, p.schema, q.schema, a1, b1);
    TextUnique(p.generation, q.generation, a2, b2);
    TextUnique(p.sourceCommit, q.sourceCommit, BindingBytes(p), BindingBytes(q));
    BindingUnique(p, q);
    JournalUnique(p, q);
  }

  // ----- feeding the hasher -----------------------------------------------------------------

  class Hasher {
    var fed: Bytes

    constructor ()
      ensures fed == []
    {
      fed := [];
    }

    /** `rest` is what the caller still means to feed. */
    method Update(bytes: Bytes, ghost rest: Bytes)
      modifies this
      ensures fed == old(fed) + bytes
      ensures fed + rest == old(fed) + (bytes + rest)
    {
      fed := fed + bytes;
      assert fed + rest == old(fed) + (bytes + rest);
    }
  }

  /** Feeds one event; whatever `k` the caller feeds next, the stream is that of `EventThen`. */
  method HashEvent(h: Hasher, e: Event, ghost k: Bytes)
    modifies h
    ensures h.fed + k == old(h.fed) + EventThen(e, k)
  {
    h.Update(Be(8, e.sequence), TagsThen(e, k));
    HashTags(h, e, k);
    HashPhase(h, e, k);
  }

  method HashTags(h: Hasher, e: Event, ghost k: Bytes)
    modifies h
    ensures h.fed + PhaseThen(e, k) == old(h.fed) + TagsThen(e, k)
  {
    ghost var native := NativeThen(e.native, PhaseThen(e, k));
    h.Update(Be(2, e.origin), Be(2, e.category) + (Be(2, e.operation) + (Be(2, e.code) + native)));
    h.Update(Be(2, e.category), Be(2, e.operation) + (Be(2, e.code) + native));
    h.Update(Be(2, e.operation), Be(2, e.code) + native);
    h.Update(Be(2, e.code), native);
    match e.native {
      case None => h.Update([0], PhaseThen(e, k));
      case Some(code) =>
        h.Update([Domain(code)], Be(4, CodeBits(code)) + PhaseThen(e, k));
        h.Update(Be(4, CodeBits(code)), PhaseThen(e, k));
    }
  }

  method HashPhase(h: Hasher, e: Event, ghost k: Bytes)
    modifies h
    ensures h.fed + k == old(h.fed) + PhaseThen(e, k)
  {
    ghost var flags := FlagsThen(e, k);
    h.Update(Be(2, e.phase), DetailThen(e.detail, flags));
    match e.detail {
      case NoDetail => h.Update([0], flags);
      case CountAndLimit(observed, limit) =>
        h.Update([1], Be(4, observed) + (Be(4, limit) + flags));
        h.Update(Be(4, observed), Be(4, limit) + flags);
        h.Update(Be(4, limit), flags);
      case ProviderMessage(id) =>
        h.Update([2], Be(2, id) + flags);
        h.Update(Be(2, id), flags);
    }
    HashFlags(h, e, k);
  }

  method HashFlags(h: Hasher, e: Event, ghost k: Bytes)
    modifies h
    ensures h.fed + k == old(h.fed) + FlagsThen(e, k)
  {
    h.Update([Bit(e.redacted)], [Bit(e.truncated)] + ReferenceThen(e.reference, k));
    h.Update([Bit(e.truncated)], ReferenceThen(e.reference, k));
    match e.reference {
      case None => h.Update([0], k);
      case Some(FirstError) => h.Update([1], k);
      case Some(SecondaryError(index)) =>
        h.Update([2], [index] + k);
        h.Update([index], k);
    }
  }

  method HashEvents(h: Hasher, events: seq<Event>, ghost k: Bytes)
    modifies h
    ensures h.fed + k == old(h.fed) + EventsThen(events, 0, k)
  {
    for i := 0 to |events|
      invariant h.fed + EventsThen(events, i, k) == old(h.fed) + EventsThen(events, 0, k)
    {
      EventsStep(events, i, k);
      HashEvent(h, events[i], EventsThen(events, i + 1, k));
    }
  }

  lemma EventsStep(events: seq<Event>, i: nat, k: Bytes)
    requires i < |events|
    ensures EventsThen(events, i, k) == EventThen(events[i], EventsThen(events, i + 1, k))
  {
  }

  method HashJournal(h: Hasher, p: Projection)
    modifies h
    ensures h.fed == old(h.fed) + JournalBytes(p)
  {
    ghost var loss := LossBytes(p.loss);
    ghost var list := ListThen(p.secondary, loss);
    ghost var original := OriginalThen(p.original, list);
    h.Update(Be(8, p.sequence), DurableThen(p.durable, original));
    match p.durable {
      case None => h.Update([0], original);
      case Some(v) =>
        h.Update([1], Be(8, v) + original);
        h.Update(Be(8, v), original);
    }
    match p.original {
      case Observed(event) =>
        h.Update([0], EventThen(event, list));
        HashEvent(h, event, list);
      case Unavailable(reason) =>
        h.Update([1], Be(2, reason) + list);
        h.Update(Be(2, reason), list);
    }
    h.Update(Be(8, |p.secondary|), EventsThen(p.secondary, 0, loss));
    HashEvents(h, p.secondary, loss);
    ghost var flags := [Bit(p.loss.saturated), Bit(p.loss.persistenceFailure), Bit(p.loss.writerUnavailable)];
    h.Update(Be(4, p.loss.omitted), flags);
    h.Update([Bit(p.loss.saturated), Bit(p.loss.persistenceFailure), Bit(p.loss.writerUnavailable)], []);
  }

  /** The bytes the canonical digest is taken of. */
  method CanonicalTranscript(p: Projection) returns (bytes: Bytes)
    ensures bytes == Transcript(p)
  {
    var h := new Hasher();
    ghost var binding := BindingBytes(p);
    ghost var commit := TextThen(p.sourceCommit, binding);
    h.Update(TAG, Be(4, p.schema) + TextThen(p.generation, commit));
    h.Update(Be(4, p.schema), TextThen(p.generation, commit));
    h.Update(Be(8, |p.generation|), p.generation + commit);
    h.Update(p.generation, commit);
    h.Update(Be(8, |p.sourceCommit|), p.sourceCommit + binding);
    h.Update(p.sourceCommit, binding);
    h.Update(p.manifest, p.attempt + (p.request + JournalBytes(p)));
    h.Update(p.attempt, p.request + JournalBytes(p));
    h.Update(p.request, JournalBytes(p));
    HashJournal(h, p);
    bytes := h.fed;
  }
}
