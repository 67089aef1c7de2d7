/**
 Windows command-line quoting and its decoder, over UTF-16 code units.

 `Encode` and `Decode` are the loops of the source; `EncodedLine` and
 `DecodedLine` say what they compute, and `RoundTrip` is the promise that ties
 the two together.
 */
module CommandLine {
  import opened Common

  const SPACE: U16 := 0x20
  const TAB: U16 := 0x09
  const QUOTE: U16 := 0x22
  const BACKSLASH: U16 := 0x5C

  datatype DecodeError = ContainsNul | UnterminatedQuote

  predicate IsBlank(u: U16) {
    u == SPACE || u == TAB
  }

  predicate NulFree(s: seq<U16>) {
    0 !in s
  }

  function Slashes(n: nat): (s: seq<U16>)
    ensures |s| == n
    ensures forall i :: 0 <= i < n ==> s[i] == BACKSLASH
  {
    seq(n, _ => BACKSLASH)
  }

  // ----- encoding ---------------------------------------------------------

  predicate NeedsQuotes(argument: seq<U16>) {
    argument == [] || exists i :: 0 <= i < |argument| && (IsBlank(argument[i]) || argument[i] == QUOTE)
  }

  /** The quoted form of `argument` after its opening quote, with `pending` backslashes held back. */
  function QuotedTail(argument: seq<U16>, pending: nat): (s: seq<U16>) {
    if argument == [] then
      Slashes(2 * pending) + [QUOTE]
    else if argument[0] == BACKSLASH then
      QuotedTail(argument[1..], pending + 1)
    else if argument[0] == QUOTE then
      Slashes(2 * pending + 1) + [QUOTE] + QuotedTail(argument[1..], 0)
    else
      Slashes(pending) + [argument[0]] + QuotedTail(argument[1..], 0)
  }

  function EncodedArgument(argument: seq<U16>): (s: seq<U16>) {
    if NeedsQuotes(argument) then [QUOTE] + QuotedTail(argument, 0) else argument
  }

  /** The command line from argument `i` on, led by its separator unless `i` is the first. */
  function EncodedFrom(arguments: seq<seq<U16>>, i: nat): (line: seq<U16>)
    requires i <= |arguments|
    decreases |arguments| - i
  {
    if i == |arguments| then []
    else (if i == 0 then [] else [SPACE]) + EncodedArgument(arguments[i]) + EncodedFrom(arguments, i + 1)
  }

  function EncodedLine(arguments: seq<seq<U16>>): (line: seq<U16>) {
    EncodedFrom(arguments, 0)
  }

  method EncodeArgument(argument: seq<U16>, output: seq<U16>) returns (extended: seq<U16>)
    ensures extended == output + EncodedArgument(argument)
  {
    if !NeedsQuotes(argument) {
      return output + argument;
    }
    extended := output + [QUOTE];
    var backslashes: nat := 0;
    assert argument[0..] == argument;
    for i := 0 to |argument|
      invariant extended + QuotedTail(argument[i..], backslashes) == output + EncodedArgument(argument)
    {
      assert argument[i..][1..] == argument[i + 1..];
      if argument[i] == BACKSLASH {
        backslashes := backslashes + 1;
      } else {
        var held := if argument[i] == QUOTE then 2 * backslashes + 1 else backslashes;
        ghost var tail := QuotedTail(argument[i + 1..], 0);
        assert QuotedTail(argument[i..], backslashes) == Slashes(held) + [argument[i]] + tail;
        assert extended + (Slashes(held) + [argument[i]] + tail) == extended + Slashes(held) + [argument[i]] + tail;
        extended := extended + Slashes(held) + [argument[i]];
        backslashes := 0;
      }
    }
    extended := extended + Slashes(2 * backslashes) + [QUOTE];
  }

  lemma Appended<T>(a: seq<T>, b: seq<T>, c: seq<T>, d: seq<T>)
    ensures a + (b + c + d) == a + b + c + d
    ensures b + c + d == b + (c + d)
    ensures b == [] ==> a + b == a
  {
  }

  method Encode(arguments: seq<seq<U16>>) returns (output: seq<U16>)
    ensures output == EncodedLine(arguments)
  {
    output := [];
    for i := 0 to |arguments|
      invariant EncodedLine(arguments) == output + EncodedFrom(arguments, i)
    {
      ghost var written := output;
      if i != 0 {
        output := output + [SPACE];
      }
      output := EncodeArgument(arguments[i], output);
      Appended(written, if i == 0 then [] else [SPACE], EncodedArgument(arguments[i]), EncodedFrom(arguments, i + 1));
    }
  }

  // ----- decoding ---------------------------------------------------------

  /** Outcome of reading one argument: its text, the quote state it stopped in, what is left. */
  datatype Scanned = Scanned(argument: seq<U16>, quoted: bool, rest: seq<U16>)

  /** Reads one argument after `read`, `pending` backslashes having been seen just before `s`. */
  function Scan(s: seq<U16>, quoted: bool, pending: nat, read: seq<U16>): (r: Scanned)
    ensures |r.rest| <= |s|
    ensures s != [] && !IsBlank(s[0]) ==> |r.rest| < |s|
  {
    if s == [] then
      Scanned(read + Slashes(pending), quoted, s)
    else if s[0] == BACKSLASH then
      Scan(s[1..], quoted, pending + 1, read)
    else if s[0] == QUOTE then
      if pending % 2 == 0 then
        Scan(s[1..], !quoted, 0, read + Slashes(pending / 2))
      else
        Scan(s[1..], quoted, 0, read + Slashes(pending / 2) + [QUOTE])
    else if !quoted && IsBlank(s[0]) then
      Scanned(read + Slashes(pending), quoted, s)
    else
      Scan(s[1..], quoted, 0, read + Slashes(pending) + [s[0]])
  }

  function SkipBlanks(s: seq<U16>): (t: seq<U16>)
    ensures |t| <= |s|
    ensures t != [] ==> !IsBlank(t[0])
  {
    if s != [] && IsBlank(s[0]) then SkipBlanks(s[1..]) else s
  }

  /** A decoding result with `arguments` already read in front. */
  function Prepended(arguments: seq<seq<U16>>, r: Result<seq<seq<U16>>, DecodeError>)
    : (joined: Result<seq<seq<U16>>, DecodeError>)
  {
    match r
    case Ok(more) => Ok(arguments + more)
    case Err(e) => Err(e)
  }

  function DecodedArguments(s: seq<U16>): (r: Result<seq<seq<U16>>, DecodeError>)
    decreases |s|
  {
    var t := SkipBlanks(s);
    if t == [] then Ok([])
    else
      var scanned := Scan(t, false, 0, []);
      if scanned.quoted then Err(UnterminatedQuote)
      else
        Prepended([scanned.argument], DecodedArguments(scanned.rest))
  }

  function DecodedLine(line: seq<U16>): (r: Result<seq<seq<U16>>, DecodeError>) {
    if 0 in line then Err(ContainsNul) else DecodedArguments(line)
  }

  lemma PrependedNothing(r: Result<seq<seq<U16>>, DecodeError>)
    ensures Prepended([], r) == r
  {
    if r.Ok? {
      assert [] + r.value == r.value;
    }
  }

  lemma PrependedTo(arguments: seq<seq<U16>>, argument: seq<U16>, r: Result<seq<seq<U16>>, DecodeError>)
    ensures Prepended(arguments, Prepended([argument], r)) == Prepended(arguments + [argument], r)
    ensures Prepended(arguments, Ok([])) == Ok(arguments)
  {
    assert arguments + [] == arguments;
    if r.Ok? {
      assert arguments + ([argument] + r.value) == arguments + [argument] + r.value;
    }
  }

  lemma ScanSlash(line: seq<U16>, cursor: nat, quoted: bool, pending: nat, read: seq<U16>)
    requires cursor < |line| && line[cursor] == BACKSLASH
    ensures Scan(line[cursor..], quoted, pending, read) == Scan(line[cursor + 1..], quoted, pending + 1, read)
  {
    assert line[cursor..][1..] == line[cursor + 1..];
  }

  /** Scanning a backslash run only counts it. */
  lemma {:induction false} ScansRun(line: seq<U16>, start: nat, n: nat, quoted: bool, read: seq<U16>)
    requires start + n <= |line| && forall k :: start <= k < start + n ==> line[k] == BACKSLASH
    ensures Scan(line[start..], quoted, 0, read) == Scan(line[start + n..], quoted, n, read)
  {
    if n == 0 {
    } else {
      ScansRun(line, start, n - 1, quoted, read);
      ScanSlash(line, start + n - 1, quoted, n - 1, read);
    }
  }

  /** The length of the backslash run at `start`. */
  method CountSlashes(line: seq<U16>, start: nat) returns (backslashes: nat)
    requires start <= |line|
    ensures start + backslashes <= |line|
    ensures forall k :: start <= k < start + backslashes ==> line[k] == BACKSLASH
    ensures start + backslashes < |line| ==> line[start + backslashes] != BACKSLASH
  {
    backslashes := 0;
    while start + backslashes < |line| && line[start + backslashes] == BACKSLASH
      invariant start + backslashes <= |line|
      invariant forall k :: start <= k < start + backslashes ==> line[k] == BACKSLASH
    {
      backslashes := backslashes + 1;
    }
  }

  /** One turn of the argument loop: a backslash run and the unit after it; `ended` when that unit is a blank. */
  method ScanTurn(line: seq<U16>, start: nat, wasQuoted: bool, read: seq<U16>)
    returns (argument: seq<U16>, quoted: bool, cursor: nat, ended: bool)
    requires start < |line| && (wasQuoted || !IsBlank(line[start]))
    ensures start < cursor <= |line|
    ensures ended ==> cursor < |line| && !quoted && IsBlank(line[cursor])
    ensures Scan(line[start..], wasQuoted, 0, read) == Scan(line[cursor..], quoted, 0, argument)
  {
    var backslashes := CountSlashes(line, start);
    ScansRun(line, start, backslashes, wasQuoted, read);
    argument, quoted, cursor, ended := read, wasQuoted, start + backslashes, false;
    if cursor < |line| && (quoted || !IsBlank(line[cursor])) {
      ScanUnit(line, cursor, quoted, backslashes, read);
    }
    if cursor < |line| && line[cursor] == QUOTE {
      argument := argument + Slashes(backslashes / 2);
      if backslashes % 2 == 0 {
        quoted := !quoted;
      } else {
        argument := argument + [QUOTE];
      }
      cursor := cursor + 1;
    } else {
      ScanStops(line[cursor..], quoted, backslashes, read);
      argument := argument + Slashes(backslashes);
      if cursor < |line| && !quoted && IsBlank(line[cursor]) {
        ended := true;
      } else if cursor < |line| {
        argument := argument + [line[cursor]];
        cursor := cursor + 1;
      }
    }
  }

  method ScanArgument(line: seq<U16>, start: nat) returns (argument: seq<U16>, quoted: bool, cursor: nat)
    requires start < |line| && !IsBlank(line[start])
    ensures start < cursor <= |line|
    ensures Scan(line[start..], false, 0, []) == Scanned(argument, quoted, line[cursor..])
  {
    argument, quoted, cursor := [], false, start;
    var ended := false;
    while cursor < |line| && !ended
      invariant start <= cursor <= |line|
      invariant Scan(line[start..], false, 0, []) == Scan(line[cursor..], quoted, 0, argument)
      invariant cursor == start ==> !ended
      invariant ended ==> cursor < |line| && !quoted && IsBlank(line[cursor])
      decreases |line| - cursor
    {
      if !quoted && IsBlank(line[cursor]) {
        break;
      }
      argument, quoted, cursor, ended := ScanTurn(line, cursor, quoted, argument);
    }
    ScanStops(line[cursor..], quoted, 0, argument);
  }

  lemma ScanUnit(line: seq<U16>, cursor: nat, quoted: bool, pending: nat, read: seq<U16>)
    requires cursor < |line| && line[cursor] != BACKSLASH
    requires quoted || !IsBlank(line[cursor])
    ensures Scan(line[cursor..], quoted, pending, read)
         == if line[cursor] != QUOTE then Scan(line[cursor + 1..], quoted, 0, read + Slashes(pending) + [line[cursor]])
            else if pending % 2 == 0 then Scan(line[cursor + 1..], !quoted, 0, read + Slashes(pending / 2))
            else Scan(line[cursor + 1..], quoted, 0, read + Slashes(pending / 2) + [QUOTE])
  {
    assert line[cursor..][1..] == line[cursor + 1..];
  }

  lemma ScanStops(s: seq<U16>, quoted: bool, pending: nat, read: seq<U16>)
    ensures s == [] || (!quoted && IsBlank(s[0])) ==>
      Scan(s, quoted, pending, read) == Scanned(read + Slashes(pending), quoted, s)
      == Scan(s, quoted, 0, read + Slashes(pending))
  {
    assert read + Slashes(pending) + Slashes(0) == read + Slashes(pending);
  }

  method Decode(line: seq<U16>) returns (r: Result<seq<seq<U16>>, DecodeError>)
    ensures r == DecodedLine(line)
  {
    if 0 in line {
      return Err(ContainsNul);
    }
    var arguments: seq<seq<U16>> := [];
    var cursor: nat := 0;
    assert line[0..] == line;
    PrependedNothing(DecodedArguments(line));
    while cursor < |line|
      invariant cursor <= |line|
      invariant Prepended(arguments, DecodedArguments(line[cursor..])) == DecodedArguments(line)
      decreases |line| - cursor
    {
      ghost var here := line[cursor..];
      while cursor < |line| && IsBlank(line[cursor])
        invariant cursor <= |line|
        invariant SkipBlanks(line[cursor..]) == SkipBlanks(here)
        invariant |here| >= |line| - cursor
      {
        assert line[cursor..][1..] == line[cursor + 1..];
        cursor := cursor + 1;
      }
      if cursor == |line| {
        PrependedTo(arguments, [], Ok([]));
        return Ok(arguments);
      }
      var argument, quoted, next := ScanArgument(line, cursor);
      if quoted {
        return Err(UnterminatedQuote);
      }
      PrependedTo(arguments, argument, DecodedArguments(line[next..]));
      arguments := arguments + [argument];
      cursor := next;
    }
    PrependedTo(arguments, [], Ok([]));
    r := Ok(arguments);
  }

  // ----- round trip -------------------------------------------------------

  /** Nothing after an encoded argument, or a separator: the only things that can follow one. */
  ghost predicate EndsArgument(rest: seq<U16>) {
    rest == [] || IsBlank(rest[0])
  }

  lemma {:induction false} ScanSlashes(n: nat, tail: seq<U16>, quoted: bool, pending: nat, read: seq<U16>)
    ensures Scan(Slashes(n) + tail, quoted, pending, read) == Scan(tail, quoted, pending + n, read)
  {
    if n == 0 {
      assert Slashes(0) + tail == tail;
    } else {
      var line := Slashes(n) + tail;
      assert line[0] == BACKSLASH && line[1..] == Slashes(n - 1) + tail;
      ScanSlashes(n - 1, tail, quoted, pending + 1, read);
    }
  }

  /** A backslash run written before `unit`, read back inside quotes. */
  lemma ScanRun(written: nat, unit: U16, tail: seq<U16>, read: seq<U16>)
    requires unit != BACKSLASH
    ensures Scan(Slashes(written) + [unit] + tail, true, 0, read)
         == if unit == QUOTE && written % 2 == 0 then Scan(tail, false, 0, read + Slashes(written / 2))
            else if unit == QUOTE then Scan(tail, true, 0, read + Slashes(written / 2) + [QUOTE])
            else Scan(tail, true, 0, read + Slashes(written) + [unit])
  {
    assert Slashes(written) + [unit] + tail == Slashes(written) + ([unit] + tail);
    ScanSlashes(written, [unit] + tail, true, 0, read);
    assert ([unit] + tail)[1..] == tail;
  }

  lemma HeldThen(read: seq<U16>, held: nat, argument: seq<U16>)
    requires argument != []
    ensures argument[0] == BACKSLASH ==> read + Slashes(held + 1) + argument[1..] == read + Slashes(held) + argument
    ensures read + Slashes(held) + [argument[0]] + Slashes(0) + argument[1..] == read + Slashes(held) + argument
  {
    assert [argument[0]] + argument[1..] == argument;
    if argument[0] == BACKSLASH {
      assert Slashes(held + 1) == Slashes(held) + [argument[0]];
    }
  }

  lemma ScanClosing(held: nat, rest: seq<U16>, read: seq<U16>)
    requires EndsArgument(rest)
    ensures Scan(Slashes(2 * held) + [QUOTE] + rest, true, 0, read) == Scanned(read + Slashes(held) + [], false, rest)
  {
    ScanRun(2 * held, QUOTE, rest, read);
    ScanStops(rest, false, 0, read + Slashes(held));
    assert Slashes(0) == [];
  }

  lemma ScanEscaped(unit: U16, held: nat, tail: seq<U16>, rest: seq<U16>, read: seq<U16>)
    requires unit != BACKSLASH
    ensures var written := if unit == QUOTE then 2 * held + 1 else held;
      Scan(Slashes(written) + [unit] + tail + rest, true, 0, read)
      == Scan(tail + rest, true, 0, read + Slashes(held) + [unit])
  {
    var written := if unit == QUOTE then 2 * held + 1 else held;
    assert Slashes(written) + [unit] + tail + rest == Slashes(written) + [unit] + (tail + rest);
    ScanRun(written, unit, tail + rest, read);
  }

  /** Inside quotes the decoder undoes the encoder, whatever number of backslashes is held back. */
  lemma {:induction false} ScanQuoted(argument: seq<U16>, held: nat, rest: seq<U16>, read: seq<U16>)
    requires EndsArgument(rest)
    ensures Scan(QuotedTail(argument, held) + rest, true, 0, read)
         == Scanned(read + Slashes(held) + argument, false, rest)
    decreases |argument|
  {
    if argument == [] {
      ScanClosing(held, rest, read);
    } else {
      HeldThen(read, held, argument);
      if argument[0] == BACKSLASH {
        ScanQuoted(argument[1..], held + 1, rest, read);
      } else {
        ScanEscaped(argument[0], held, QuotedTail(argument[1..], 0), rest, read);
        ScanQuoted(argument[1..], 0, rest, read + Slashes(held) + [argument[0]]);
      }
    }
  }

  /** An argument that needs no quotes is read back literally, backslashes included. */
  lemma {:induction false} ScanBare(argument: seq<U16>, pending: nat, rest: seq<U16>, read: seq<U16>)
    requires forall i :: 0 <= i < |argument| ==> !IsBlank(argument[i]) && argument[i] != QUOTE
    requires EndsArgument(rest)
    ensures Scan(argument + rest, false, pending, read) == Scanned(read + Slashes(pending) + argument, false, rest)
    decreases |argument|
  {
    if argument == [] {
      assert argument + rest == rest;
      assert read + Slashes(pending) + argument == read + Slashes(pending);
    } else {
      assert (argument + rest)[1..] == argument[1..] + rest;
      HeldThen(read, pending, argument);
      if argument[0] == BACKSLASH {
        ScanBare(argument[1..], pending + 1, rest, read);
      } else {
        ScanBare(argument[1..], 0, rest, read + Slashes(pending) + [argument[0]]);
      }
    }
  }

  lemma ScanEncoded(argument: seq<U16>, rest: seq<U16>)
    requires EndsArgument(rest)
    ensures Scan(EncodedArgument(argument) + rest, false, 0, []) == Scanned(argument, false, rest)
  {
    assert [] + Slashes(0) + argument == argument;
    if NeedsQuotes(argument) {
      var tail := QuotedTail(argument, 0);
      assert ([QUOTE] + tail + rest)[1..] == tail + rest;
      assert [] + Slashes(0) == [];
      ScanQuoted(argument, 0, rest, []);
    } else {
      ScanBare(argument, 0, rest, []);
    }
  }

  lemma EncodedStarts(argument: seq<U16>)
    ensures EncodedArgument(argument) != [] && !IsBlank(EncodedArgument(argument)[0])
  {
  }

  lemma DecodesNext(line: seq<U16>, argument: seq<U16>, rest: seq<U16>)
    requires EndsArgument(rest)
    requires SkipBlanks(line) == EncodedArgument(argument) + rest
    ensures DecodedArguments(line) == Prepended([argument], DecodedArguments(rest))
  {
    ScanEncoded(argument, rest);
    EncodedStarts(argument);
  }

  lemma SkipSeparator(arguments: seq<seq<U16>>, i: nat)
    requires i < |arguments|
    ensures SkipBlanks(EncodedFrom(arguments, i)) == EncodedArgument(arguments[i]) + EncodedFrom(arguments, i + 1)
  {
    EncodedStarts(arguments[i]);
    var here := EncodedArgument(arguments[i]) + EncodedFrom(arguments, i + 1);
    var separator := if i == 0 then [] else [SPACE];
    Appended([], separator, EncodedArgument(arguments[i]), EncodedFrom(arguments, i + 1));
    if i == 0 {
      assert [] + here == here;
    } else {
      assert ([SPACE] + here)[1..] == here;
    }
  }

  lemma {:induction false} DecodesEncoded(arguments: seq<seq<U16>>, i: nat)
    requires i <= |arguments|
    ensures DecodedArguments(EncodedFrom(arguments, i)) == Ok(arguments[i..])
    ensures i > 0 ==> EndsArgument(EncodedFrom(arguments, i))
    decreases |arguments| - i
  {
    if i == |arguments| {
      assert arguments[i..] == [];
    } else {
      DecodesEncoded(arguments, i + 1);
      SkipSeparator(arguments, i);
      DecodesNext(EncodedFrom(arguments, i), arguments[i], EncodedFrom(arguments, i + 1));
      assert [arguments[i]] + arguments[i + 1..] == arguments[i..];
    }
  }

  lemma {:induction false} QuotedTailNulFree(argument: seq<U16>, pending: nat)
    requires NulFree(argument)
    ensures NulFree(QuotedTail(argument, pending))
  {
    if argument == [] {
    } else {
      QuotedTailNulFree(argument[1..], if argument[0] == BACKSLASH then pending + 1 else 0);
    }
  }

  lemma {:induction false} EncodedNulFree(arguments: seq<seq<U16>>, i: nat)
    requires i <= |arguments|
    requires forall a :: a in arguments ==> NulFree(a)
    ensures NulFree(EncodedFrom(arguments, i))
    decreases |arguments| - i
  {
    if i == |arguments| {
    } else {
      QuotedTailNulFree(arguments[i], 0);
      EncodedNulFree(arguments, i + 1);
    }
  }

  /** Decoding an encoded argument list gives back exactly that list. */
  lemma RoundTrip(arguments: seq<seq<U16>>)
    requires forall a :: a in arguments ==> NulFree(a)
    ensures NulFree(EncodedLine(arguments))
    ensures DecodedLine(EncodedLine(arguments)) == Ok(arguments)
  {
    EncodedNulFree(arguments, 0);
    DecodesEncoded(arguments, 0);
  }

  /** No two argument lists share a command line. */
  lemma EncodingInjective(left: seq<seq<U16>>, right: seq<seq<U16>>)
    requires EncodedLine(left) == EncodedLine(right)
    ensures left == right
  {
    DecodesEncoded(left, 0);
    DecodesEncoded(right, 0);
  }

  // ----- when decoding fails ----------------------------------------------

  /** The quotes of `s` that are not escaped: each toggles quoting. `slashes` backslashes precede `s`. */
  function Toggles(s: seq<U16>, slashes: nat): (n: nat) {
    if s == [] then 0
    else if s[0] == BACKSLASH then Toggles(s[1..], slashes + 1)
    else if s[0] == QUOTE && slashes % 2 == 0 then 1 + Toggles(s[1..], 0)
    else Toggles(s[1..], 0)
  }

  /** Quote state after a scan: the starting state flipped once per unescaped quote consumed. */
  lemma {:induction false} ScanParity(s: seq<U16>, quoted: bool, pending: nat, read: seq<U16>)
    ensures var r := Scan(s, quoted, pending, read);
      && (r.quoted != quoted <==> (Toggles(s, pending) - Toggles(r.rest, 0)) % 2 == 1)
      && (r.quoted ==> r.rest == [])
    decreases |s|
  {
    if s == [] {
    } else if s[0] == BACKSLASH {
      ScanParity(s[1..], quoted, pending + 1, read);
    } else if s[0] == QUOTE {
      if pending % 2 == 0 {
        ScanParity(s[1..], !quoted, 0, read + Slashes(pending / 2));
      } else {
        ScanParity(s[1..], quoted, 0, read + Slashes(pending / 2) + [QUOTE]);
      }
    } else if quoted || !IsBlank(s[0]) {
      ScanParity(s[1..], quoted, 0, read + Slashes(pending) + [s[0]]);
    }
  }

  lemma {:induction false} TogglesSkipBlanks(s: seq<U16>)
    ensures Toggles(SkipBlanks(s), 0) == Toggles(s, 0)
  {
    if s != [] && IsBlank(s[0]) {
      TogglesSkipBlanks(s[1..]);
    }
  }

  lemma {:induction false} DecodedArgumentsFailure(s: seq<U16>)
    ensures DecodedArguments(s).Err? <==> Toggles(s, 0) % 2 == 1
    decreases |s|
  {
    var t := SkipBlanks(s);
    TogglesSkipBlanks(s);
    if t == [] {
    } else {
      ScanParity(t, false, 0, []);
      var scanned := Scan(t, false, 0, []);
      if !scanned.quoted {
        DecodedArgumentsFailure(scanned.rest);
      }
    }
  }

  /** Exactly two kinds of line are refused: those with a NUL, those with an odd number of live quotes. */
  lemma DecodeFailsExactly(line: seq<U16>)
    ensures DecodedLine(line) == Err(ContainsNul) <==> !NulFree(line)
    ensures DecodedLine(line).Err? <==> !NulFree(line) || Toggles(line, 0) % 2 == 1
  {
    DecodedArgumentsFailure(line);
    DecodedArgumentsNeverNul(line);
  }

  lemma {:induction false} DecodedArgumentsNeverNul(s: seq<U16>)
    ensures DecodedArguments(s) != Err(ContainsNul)
    decreases |s|
  {
    var t := SkipBlanks(s);
    if t == [] {
    } else {
      DecodedArgumentsNeverNul(Scan(t, false, 0, []).rest);
    }
  }
}
