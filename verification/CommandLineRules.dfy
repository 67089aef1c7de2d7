/**
 The command-line rules in terms of the code units themselves: which arguments are
 quoted, how a line is laid out, and how blanks, quotes and backslashes are read.
 Units are written as numbers: 0x09 tab, 0x20 space, 0x22 quote, 0x5C backslash.
 */
module CommandLineRules {
  import opened Common
  import opened CommandLine

  predicate IsPlain(s: seq<U16>) {
    forall i :: 0 <= i < |s| ==> s[i] !in {0, 0x09, 0x20, 0x22}
  }

  predicate AllBlank(s: seq<U16>) {
    forall i :: 0 <= i < |s| ==> s[i] in {0x09, 0x20}
  }

  function Backslashes(n: nat): (s: seq<U16>)
    ensures |s| == n && forall i :: 0 <= i < n ==> s[i] == 0x5C
  {
    seq(n, _ => 0x5C)
  }

  // ----- what the encoder writes -----------------------------------------------------------

  lemma {:induction false} QuotedTailLength(argument: seq<U16>, pending: nat)
    ensures |QuotedTail(argument, pending)| >= |argument| + pending + 1
    ensures QuotedTail(argument, pending)[|QuotedTail(argument, pending)| - 1] == 0x22
  {
    if argument == [] {
    } else {
      QuotedTailLength(argument[1..], if argument[0] == BACKSLASH then pending + 1 else 0);
    }
  }

  /** An argument is written as it stands exactly when it is not empty and holds no space, tab or quote. */
  lemma WrittenBareExactly(argument: seq<U16>)
    ensures EncodedArgument(argument) == argument <==>
      argument != [] && 0x20 !in argument && 0x09 !in argument && 0x22 !in argument
  {
    QuotedTailLength(argument, 0);
  }

  /** Any other argument is written between quotes. */
  lemma WrittenInQuotes(argument: seq<U16>)
    ensures var s := EncodedArgument(argument);
      s != argument ==> |s| >= |argument| + 2 && s[0] == 0x22 && s[|s| - 1] == 0x22
  {
    QuotedTailLength(argument, 0);
  }

  lemma Regroup(a: seq<U16>, b: seq<U16>, c: seq<U16>, d: seq<U16>)
    ensures a + (b + c + d) == a + b + c + d
  {
  }

  lemma {:induction false} EncodedFromSnoc(arguments: seq<seq<U16>>, last: seq<U16>, i: nat)
    requires i <= |arguments|
    ensures EncodedFrom(arguments + [last], i)
         == EncodedFrom(arguments, i) + (if arguments == [] then [] else [0x20]) + EncodedArgument(last)
    decreases |arguments| - i
  {
    var all := arguments + [last];
    if i == |arguments| {
      assert EncodedFrom(all, i + 1) == [];
    } else {
      EncodedFromSnoc(arguments, last, i + 1);
      assert all[i] == arguments[i];
      var separator := if i == 0 then [] else [SPACE];
      Regroup(separator + EncodedArgument(arguments[i]), EncodedFrom(arguments, i + 1), [0x20], EncodedArgument(last));
    }
  }

  /** Each further argument is appended after one space. */
  lemma LineGrowsByOne(arguments: seq<seq<U16>>, last: seq<U16>)
    ensures EncodedLine(arguments + [last])
         == EncodedLine(arguments) + (if arguments == [] then [] else [0x20]) + EncodedArgument(last)
  {
    EncodedFromSnoc(arguments, last, 0);
  }

  // ----- how the decoder splits a line --------------------------------------------------------

  /** The gaps and the words in turn: a gap before each word and one at the end. */
  function Spread(words: seq<seq<U16>>, gaps: seq<seq<U16>>, i: nat): (line: seq<U16>)
    requires i <= |words| && |gaps| == |words| + 1
    decreases |words| - i
  {
    if i == |words| then gaps[i] else gaps[i] + (words[i] + Spread(words, gaps, i + 1))
  }

  /** Words without blanks or quotes; blanks between any two of them, and any number of blanks around. */
  ghost predicate WellSpaced(words: seq<seq<U16>>, gaps: seq<seq<U16>>) {
    && |gaps| == |words| + 1
    && (forall w :: w in words ==> w != [] && IsPlain(w))
    && (forall g :: g in gaps ==> AllBlank(g))
    && forall i :: 0 < i < |words| ==> gaps[i] != []
  }

  lemma {:induction false} SkipsGap(gap: seq<U16>, rest: seq<U16>)
    requires AllBlank(gap) && (rest == [] || rest[0] !in {0x09, 0x20})
    ensures SkipBlanks(gap + rest) == rest
  {
    if gap == [] {
      assert gap + rest == rest;
    } else {
      assert (gap + rest)[1..] == gap[1..] + rest;
      SkipsGap(gap[1..], rest);
    }
  }

  lemma SpreadStarts(words: seq<seq<U16>>, gaps: seq<seq<U16>>, i: nat)
    requires WellSpaced(words, gaps) && 0 < i <= |words|
    ensures EndsArgument(Spread(words, gaps, i))
  {
    assert gaps[i] in gaps;
  }

  lemma NothingLeft()
    ensures DecodedArguments([]) == Ok([])
  {
    assert SkipBlanks([]) == [];
  }

  lemma WordRead(word: seq<U16>, rest: seq<U16>)
    requires word != [] && IsPlain(word) && EndsArgument(rest)
    ensures DecodedArguments(word + rest) == Prepended([word], DecodedArguments(rest))
  {
    assert SkipBlanks(word + rest) == word + rest;
    ScanBare(word, 0, rest, []);
    assert [] + Slashes(0) + word == word;
  }

  lemma GapIgnored(gap: seq<U16>, rest: seq<U16>)
    requires AllBlank(gap) && (rest == [] || rest[0] !in {0x09, 0x20})
    ensures DecodedArguments(gap + rest) == DecodedArguments(rest)
  {
    SkipsGap(gap, rest);
    SkipsGap([], rest);
    assert [] + rest == rest;
  }

  lemma {:induction false} SpreadDecodes(words: seq<seq<U16>>, gaps: seq<seq<U16>>, i: nat)
    requires WellSpaced(words, gaps) && i <= |words|
    ensures DecodedArguments(Spread(words, gaps, i)) == Ok(words[i..])
    decreases |words| - i
  {
    assert gaps[i] in gaps;
    if i == |words| {
      assert gaps[i] + [] == gaps[i];
      GapIgnored(gaps[i], []);
      NothingLeft();
      assert words[i..] == [];
    } else {
      var rest := Spread(words, gaps, i + 1);
      assert words[i] in words;
      SpreadStarts(words, gaps, i + 1);
      SpreadDecodes(words, gaps, i + 1);
      GapIgnored(gaps[i], words[i] + rest);
      WordRead(words[i], rest);
      assert [words[i]] + words[i + 1..] == words[i..];
    }
  }

  lemma {:induction false} SpreadNulFree(words: seq<seq<U16>>, gaps: seq<seq<U16>>, i: nat)
    requires WellSpaced(words, gaps) && i <= |words|
    ensures 0 !in Spread(words, gaps, i)
    decreases |words| - i
  {
    assert gaps[i] in gaps;
    if i == |words| {
    } else {
      assert words[i] in words;
      SpreadNulFree(words, gaps, i + 1);
    }
  }

  /** A line of plain words is split exactly at its runs of spaces and tabs. */
  lemma SplitAtBlanks(words: seq<seq<U16>>, gaps: seq<seq<U16>>)
    requires WellSpaced(words, gaps)
    ensures DecodedLine(Spread(words, gaps, 0)) == Ok(words)
  {
    SpreadNulFree(words, gaps, 0);
    SpreadDecodes(words, gaps, 0);
  }

  // ----- how the decoder reads backslashes before a quote ----------------------------------------

  lemma {:induction false} ScanText(text: seq<U16>, rest: seq<U16>, quoted: bool, read: seq<U16>)
    requires forall i :: 0 <= i < |text| ==> text[i] !in {0x22, 0x5C} && (quoted || text[i] !in {0x09, 0x20})
    ensures Scan(text + rest, quoted, 0, read) == Scan(rest, quoted, 0, read + text)
    decreases |text|
  {
    if text == [] {
      assert text + rest == rest && read + text == read;
    } else {
      var line := text + rest;
      assert line[1..] == text[1..] + rest;
      ScanText(text[1..], rest, quoted, read + Slashes(0) + [text[0]]);
      assert read + Slashes(0) + [text[0]] + text[1..] == read + text;
    }
  }

  lemma ScanQuoteAfter(n: nat, rest: seq<U16>, quoted: bool, read: seq<U16>)
    ensures Scan(Backslashes(n) + ([0x22] + rest), quoted, 0, read) ==
      if n % 2 == 0 then Scan(rest, !quoted, 0, read + Backslashes(n / 2))
      else Scan(rest, quoted, 0, read + Backslashes(n / 2) + [0x22])
  {
    assert Backslashes(n) == Slashes(n) && Backslashes(n / 2) == Slashes(n / 2);
    ScanSlashes(n, [0x22] + rest, quoted, 0, read);
    assert ([0x22] + rest)[1..] == rest;
  }

  lemma OnlyArgument(line: seq<U16>, argument: seq<U16>)
    requires line != [] && line[0] !in {0x09, 0x20} && 0 !in line
    requires Scan(line, false, 0, []) == Scanned(argument, false, [])
    ensures DecodedLine(line) == Ok([argument])
  {
    NothingLeft();
    assert SkipBlanks(line) == line;
    assert [argument] + [] == [argument];
    assert DecodedArguments(line) == Prepended([argument], DecodedArguments([]));
  }

  ghost predicate FreeOf(s: seq<U16>, units: set<U16>) {
    forall i :: 0 <= i < |s| ==> s[i] !in units
  }

  /** An even run of backslashes before a quote is halved, and the quote opens text that may hold blanks. */
  lemma EvenRunOpensQuote(word: seq<U16>, n: nat, text: seq<U16>)
    requires FreeOf(word, {0, 0x09, 0x20, 0x22, 0x5C}) && FreeOf(text, {0, 0x22, 0x5C})
    ensures DecodedLine(word + (Backslashes(2 * n) + ([0x22] + (text + [0x22])))) == Ok([word + Backslashes(n) + text])
  {
    var closing := text + [0x22];
    var quoted := Backslashes(2 * n) + ([0x22] + closing);
    ScanText(word, quoted, false, []);
    assert [] + word == word;
    ScanQuoteAfter(2 * n, closing, false, word);
    ScanText(text, [0x22], true, word + Backslashes(n));
    ClosingQuote(word + Backslashes(n) + text);
    OnlyArgument(word + quoted, word + Backslashes(n) + text);
  }

  lemma ClosingQuote(read: seq<U16>)
    ensures Scan([0x22], true, 0, read) == Scanned(read, false, [])
  {
    assert [0x22][1..] == [];
    assert read + Slashes(0) + Slashes(0) == read;
  }

  /** An odd run is halved and the quote stands for itself. */
  lemma OddRunKeepsQuote(word: seq<U16>, n: nat, more: seq<U16>)
    requires FreeOf(word, {0, 0x09, 0x20, 0x22, 0x5C}) && FreeOf(more, {0, 0x09, 0x20, 0x22, 0x5C})
    ensures DecodedLine(word + (Backslashes(2 * n + 1) + ([0x22] + more))) == Ok([word + Backslashes(n) + [0x22] + more])
  {
    var escaped := Backslashes(2 * n + 1) + ([0x22] + more);
    var read := word + Backslashes(n) + [0x22];
    ScanText(word, escaped, false, []);
    assert [] + word == word;
    ScanQuoteAfter(2 * n + 1, more, false, word);
    assert more + [] == more;
    ScanText(more, [], false, read);
    assert read + more + Slashes(0) == read + more;
    OnlyArgument(word + escaped, read + more);
  }
}
