/**
 The Windows environment block encoder.

 The case-folding key is a parameter: any function from names to code-unit
 sequences will do, compared lexicographically.
 */
module EnvironmentBlock {
  import opened Common
  import Lex

  const EQUALS: U16 := 0x3D
  const COLON: U16 := 0x3A
  const MAX_UNITS: nat := 32767

  type Text = seq<U16>
  type Key = Text -> Text

  datatype Entry = Entry(name: Text, value: Text)
  datatype EncodeError = DuplicateName | InvalidEntry | TooLong

  /** The native `=C:` entries, whose names start with the separator. */
  predicate IsDriveDirectory(name: Text) {
    |name| == 3 && name[0] == EQUALS && name[2] == COLON
    && (0x41 <= name[1] <= 0x5A || 0x61 <= name[1] <= 0x7A)
  }

  predicate IsValidEntry(e: Entry) {
    e.name != [] && 0 !in e.name && (EQUALS in e.name ==> IsDriveDirectory(e.name)) && 0 !in e.value
  }

  // ----- stable sort by key ------------------------------------------------

  function InsertByKey(sorted: seq<Entry>, e: Entry, key: Key): (r: seq<Entry>) {
    if sorted == [] then [e]
    else
      var last := sorted[|sorted| - 1];
      if Lex.Less(key(e.name), key(last.name)) then InsertByKey(sorted[..|sorted| - 1], e, key) + [last]
      else sorted + [e]
  }

  function SortByKey(entries: seq<Entry>, key: Key): (r: seq<Entry>) {
    if entries == [] then []
    else InsertByKey(SortByKey(entries[..|entries| - 1], key), entries[|entries| - 1], key)
  }

  ghost predicate Ordered(entries: seq<Entry>, key: Key) {
    forall i, j :: 0 <= i < j < |entries| ==> !Lex.Less(key(entries[j].name), key(entries[i].name))
  }

  ghost predicate StrictlyOrdered(entries: seq<Entry>, key: Key) {
    forall i, j :: 0 <= i < j < |entries| ==> Lex.Less(key(entries[i].name), key(entries[j].name))
  }

  ghost predicate DistinctKeys(entries: seq<Entry>, key: Key) {
    forall i, j :: 0 <= i < j < |entries| ==> key(entries[i].name) != key(entries[j].name)
  }

  lemma {:induction false} InsertKeeps(sorted: seq<Entry>, e: Entry, key: Key)
    ensures multiset(InsertByKey(sorted, e, key)) == multiset(sorted) + multiset{e}
  {
    if sorted == [] {
    } else {
      var front, last := sorted[..|sorted| - 1], sorted[|sorted| - 1];
      assert sorted == front + [last];
      InsertKeeps(front, e, key);
    }
  }

  lemma {:induction false} InsertOrders(sorted: seq<Entry>, e: Entry, key: Key)
    requires Ordered(sorted, key)
    ensures Ordered(InsertByKey(sorted, e, key), key)
  {
    if sorted == [] {
    } else {
      var front, last := sorted[..|sorted| - 1], sorted[|sorted| - 1];
      if Lex.Less(key(e.name), key(last.name)) {
        InsertOrders(front, e, key);
        InsertKeeps(front, e, key);
        var r := InsertByKey(front, e, key);
        forall i | 0 <= i < |r| ensures !Lex.Less(key(last.name), key(r[i].name)) {
          assert r[i] in multiset(r);
          if r[i] == e {
            Lex.Asymmetric(key(e.name), key(last.name));
          } else {
            assert r[i] in multiset(front);
          }
        }
      } else {
        forall i | 0 <= i < |sorted| ensures !Lex.Less(key(e.name), key(sorted[i].name)) {
          if i < |sorted| - 1 {
            NotLessTransitive(key(sorted[i].name), key(last.name), key(e.name));
          }
        }
      }
    }
  }

  lemma NotLessTransitive(a: Text, b: Text, c: Text)
    requires !Lex.Less(b, a) && !Lex.Less(c, b)
    ensures !Lex.Less(c, a)
  {
    Lex.Trichotomy(a, b);
    Lex.Trichotomy(b, c);
    if Lex.Less(c, a) {
      if Lex.Less(a, b) {
        Lex.Transitive(c, a, b);
      }
    }
  }

  lemma {:induction false} SortsByKey(entries: seq<Entry>, key: Key)
    ensures Ordered(SortByKey(entries, key), key)
    ensures multiset(SortByKey(entries, key)) == multiset(entries)
  {
    if entries == [] {
    } else {
      var front, last := entries[..|entries| - 1], entries[|entries| - 1];
      assert entries == front + [last];
      SortsByKey(front, key);
      InsertOrders(SortByKey(front, key), last, key);
      InsertKeeps(SortByKey(front, key), last, key);
    }
  }

  // ----- encoder -----------------------------------------------------------

  predicate AdjacentKeysDiffer(sorted: seq<Entry>, key: Key) {
    forall i :: 0 <= i < |sorted| - 1 ==> key(sorted[i].name) != key(sorted[i + 1].name)
  }

  function EntryUnits(e: Entry): (s: Text) {
    e.name + [EQUALS] + e.value
  }

  /** The entries from index `i` on, each closed by its NUL, and the final NUL. */
  function UnitsFrom(entries: seq<Entry>, i: nat): (s: Text)
    requires i <= |entries|
    decreases |entries| - i
  {
    if i == |entries| then [0] else EntryUnits(entries[i]) + [0] + UnitsFrom(entries, i + 1)
  }

  function BlockUnits(entries: seq<Entry>): (s: Text) {
    if entries == [] then [0, 0] else UnitsFrom(entries, 0)
  }

  function EncodedBlock(entries: seq<Entry>, key: Key): (r: Result<Text, EncodeError>) {
    var sorted := SortByKey(entries, key);
    if !AdjacentKeysDiffer(sorted, key) then Err(DuplicateName)
    else if exists e :: e in sorted && !IsValidEntry(e) then Err(InvalidEntry)
    else if |BlockUnits(sorted)| > MAX_UNITS then Err(TooLong)
    else Ok(BlockUnits(sorted))
  }

  method Encode(entries: seq<Entry>, key: Key) returns (r: Result<Text, EncodeError>)
    ensures r == EncodedBlock(entries, key)
  {
    var sorted := SortByKey(entries, key);
    var i: nat := 0;
    while i + 1 < |sorted|
      invariant forall k :: 0 <= k < i && k + 1 < |sorted| ==> key(sorted[k].name) != key(sorted[k + 1].name)
    {
      if key(sorted[i].name) == key(sorted[i + 1].name) {
        return Err(DuplicateName);
      }
      i := i + 1;
    }
    var output: Text := [];
    for n := 0 to |sorted|
      invariant output + UnitsFrom(sorted, n) == UnitsFrom(sorted, 0)
      invariant forall k :: 0 <= k < n ==> IsValidEntry(sorted[k])
      invariant n == 0 <==> output == []
    {
      var e := sorted[n];
      if !IsValidEntry(e) {
        return Err(InvalidEntry);
      }
      Reassociate(output, e, UnitsFrom(sorted, n + 1));
      output := output + e.name;
      output := output + [EQUALS];
      output := output + e.value;
      output := output + [0];
    }
    assert forall e :: e in sorted ==> IsValidEntry(e);
    assert AdjacentKeysDiffer(sorted, key);
    output := output + [0];
    if |output| == 1 {
      output := output + [0];
    }
    assert output == BlockUnits(sorted);
    r := if |output| > MAX_UNITS then Err(TooLong) else Ok(output);
  }

  lemma Reassociate(output: Text, e: Entry, rest: Text)
    ensures output + (EntryUnits(e) + [0] + rest) == output + e.name + [EQUALS] + e.value + [0] + rest
  {
  }

  // ----- reading a block back ----------------------------------------------

  /** First index at or after `from` holding `unit`, or the length of `s`. */
  function Find(s: Text, unit: U16, from: nat): (i: nat)
    requires from <= |s|
    ensures from <= i <= |s|
    ensures i < |s| ==> s[i] == unit
    ensures forall k :: from <= k < i ==> s[k] != unit
    decreases |s| - from
  {
    if from == |s| || s[from] == unit then from else Find(s, unit, from + 1)
  }

  /** One entry text, split at the first separator past its first unit. */
  function SplitEntry(text: Text): (e: Entry)
    requires text != []
  {
    var i := Find(text, '=' as int, 1);
    Entry(text[..i], if i == |text| then [] else text[i + 1..])
  }

  /** The entries of a block, up to the first empty one. */
  function ParseBlock(block: Text): (entries: seq<Entry>)
    decreases |block|
  {
    var n := Find(block, 0, 0);
    if n == 0 || n == |block| then []
    else [SplitEntry(block[..n])] + ParseBlock(block[n + 1..])
  }

  lemma FindsTerminator(text: Text, rest: Text)
    requires 0 !in text
    ensures Find(text + [0] + rest, 0, 0) == |text|
    ensures (text + [0] + rest)[..|text|] == text
    ensures (text + [0] + rest)[|text| + 1..] == rest
  {
    var s := text + [0] + rest;
    assert s[|text|] == 0;
    assert forall k :: 0 <= k < |text| ==> s[k] == text[k] && text[k] in text;
  }

  lemma SplitsEntry(e: Entry)
    requires IsValidEntry(e)
    ensures 0 !in EntryUnits(e)
    ensures EntryUnits(e) != [] && SplitEntry(EntryUnits(e)) == e
  {
    var s := EntryUnits(e);
    var i := Find(s, '=' as int, 1);
    assert s[|e.name|] == EQUALS;
    assert forall k :: 1 <= k < |e.name| ==> s[k] == e.name[k] != EQUALS by {
      assert forall k :: 1 <= k < |e.name| ==> e.name[k] in e.name;
    }
    assert i == |e.name|;
    assert s[..i] == e.name && s[i + 1..] == e.value;
  }

  lemma ParsesEntry(e: Entry, rest: Text)
    requires IsValidEntry(e)
    ensures ParseBlock(EntryUnits(e) + [0] + rest) == [e] + ParseBlock(rest)
  {
    SplitsEntry(e);
    FindsTerminator(EntryUnits(e), rest);
  }

  lemma ParsesStep(entries: seq<Entry>, i: nat, rest: Text)
    requires i < |entries| && IsValidEntry(entries[i])
    requires ParseBlock(rest) == entries[i + 1..]
    ensures ParseBlock(EntryUnits(entries[i]) + [0] + rest) == entries[i..]
  {
    ParsesEntry(entries[i], rest);
  }

  lemma ParsesEnd()
    ensures ParseBlock([0]) == []
  {
    assert Find([0], 0, 0) == 0;
  }

  lemma {:induction false} ParsesUnits(entries: seq<Entry>, i: nat)
    requires i <= |entries|
    requires forall e :: e in entries ==> IsValidEntry(e)
    ensures ParseBlock(UnitsFrom(entries, i)) == entries[i..]
    decreases |entries| - i
  {
    if i < |entries| {
      ParsesUnits(entries, i + 1);
      ParsesStep(entries, i, UnitsFrom(entries, i + 1));
    } else {
      ParsesEnd();
    }
  }

  /** Two adjacent NULs occur once, as the last two units. */
  ghost predicate DoubleNulOnlyAtEnd(block: Text) {
    && |block| >= 2
    && forall k :: 0 <= k < |block| - 1 ==> (NulPair(block, k) <==> k == |block| - 2)
  }

  ghost predicate NulPair(block: Text, k: nat)
    requires k + 1 < |block|
  {
    block[k] == 0 && block[k + 1] == 0
  }

  lemma {:induction false} DoubleNul(entries: seq<Entry>, i: nat)
    requires i < |entries|
    requires forall e :: e in entries ==> IsValidEntry(e)
    ensures UnitsFrom(entries, i)[0] != 0
    ensures DoubleNulOnlyAtEnd(UnitsFrom(entries, i))
    decreases |entries| - i
  {
    var text, rest := EntryUnits(entries[i]), UnitsFrom(entries, i + 1);
    SplitsEntry(entries[i]);
    if i + 1 == |entries| {
    } else {
      DoubleNul(entries, i + 1);
    }
    DoubleNulJoin(text, rest);
  }

  lemma DoubleNulJoin(text: Text, rest: Text)
    requires text != [] && 0 !in text
    requires rest == [0] || (|rest| >= 2 && rest[0] != 0 && DoubleNulOnlyAtEnd(rest))
    ensures (text + [0] + rest)[0] != 0
    ensures DoubleNulOnlyAtEnd(text + [0] + rest)
  {
    var s := text + [0] + rest;
    forall k | 0 <= k < |s| - 1 ensures NulPair(s, k) <==> k == |s| - 2 {
      if k < |text| {
        assert s[k] == text[k] && text[k] in text;
      } else if k > |text| {
        var m := k - |text| - 1;
        assert NulPair(s, k) <==> NulPair(rest, m);
      } else {
        assert s[k + 1] == rest[0];
      }
    }
    assert s[0] == text[0] && text[0] in text;
  }

  // ----- main results -------------------------------------------------------

  lemma AdjacentSuffices(sorted: seq<Entry>, key: Key)
    requires Ordered(sorted, key)
    ensures AdjacentKeysDiffer(sorted, key) <==> StrictlyOrdered(sorted, key)
    ensures StrictlyOrdered(sorted, key) <==> DistinctKeys(sorted, key)
  {
    if AdjacentKeysDiffer(sorted, key) {
      forall i, j | 0 <= i < j < |sorted| ensures Lex.Less(key(sorted[i].name), key(sorted[j].name)) {
        AdjacentChain(sorted, key, i, j);
      }
    }
    if StrictlyOrdered(sorted, key) {
      forall i, j | 0 <= i < j < |sorted| ensures key(sorted[i].name) != key(sorted[j].name) {
        Lex.Asymmetric(key(sorted[i].name), key(sorted[j].name));
      }
    }
  }

  lemma {:induction false} AdjacentChain(sorted: seq<Entry>, key: Key, i: nat, j: nat)
    requires Ordered(sorted, key) && AdjacentKeysDiffer(sorted, key)
    requires i < j < |sorted|
    ensures Lex.Less(key(sorted[i].name), key(sorted[j].name))
    decreases j
  {
    Lex.Trichotomy(key(sorted[j - 1].name), key(sorted[j].name));
    if i == j - 1 {
    } else {
      AdjacentChain(sorted, key, i, j - 1);
      Lex.Transitive(key(sorted[i].name), key(sorted[j - 1].name), key(sorted[j].name));
    }
  }

  /** Rearranging a list does not change which keys collide. */
  lemma DistinctUpToOrder(left: seq<Entry>, right: seq<Entry>, key: Key)
    requires multiset(left) == multiset(right)
    requires DistinctKeys(left, key)
    ensures DistinctKeys(right, key)
  {
    forall i, j | 0 <= i < j < |right| ensures key(right[i].name) != key(right[j].name) {
      if key(right[i].name) == key(right[j].name) {
        var a, b := right[i], right[j];
        assert a in multiset(right) && b in multiset(right);
        assert a in left && b in left;
        var m :| 0 <= m < |left| && left[m] == a;
        var n :| 0 <= n < |left| && left[n] == b;
        if a == b {
          CountTwice(right, i, j);
          CountOnce(left, m, key);
        }
      }
    }
  }

  lemma CountTwice(s: seq<Entry>, i: nat, j: nat)
    requires i < j < |s| && s[i] == s[j]
    ensures multiset(s)[s[i]] >= 2
  {
    assert s == s[..i] + [s[i]] + s[i + 1..j] + [s[j]] + s[j + 1..];
  }

  lemma CountOnce(s: seq<Entry>, m: nat, key: Key)
    requires m < |s| && DistinctKeys(s, key)
    ensures multiset(s)[s[m]] == 1
  {
    assert s == s[..m] + [s[m]] + s[m + 1..];
    assert s[m] !in s[..m];
    assert s[m] !in s[m + 1..];
  }

  /** What a caller can read out of every block the encoder returns. */
  lemma BlockMeaning(entries: seq<Entry>, key: Key)
    requires EncodedBlock(entries, key).Ok?
    ensures var block := EncodedBlock(entries, key).value;
      && multiset(ParseBlock(block)) == multiset(entries)
      && StrictlyOrdered(ParseBlock(block), key)
      && DoubleNulOnlyAtEnd(block)
      && |block| <= 32767
  {
    var sorted := SortByKey(entries, key);
    SortsByKey(entries, key);
    AdjacentSuffices(sorted, key);
    if sorted == [] {
      assert ParseBlock([0, 0]) == [];
    } else {
      ParsesUnits(sorted, 0);
      assert sorted[0..] == sorted;
      DoubleNul(sorted, 0);
    }
  }

  /** An entry a block can hold: a name without `=` or NUL, or `=C:` for some drive letter, and a value without NUL. */
  ghost predicate Writable(e: Entry) {
    && e.name != []
    && (forall i :: 0 <= i < |e.name| ==> e.name[i] != 0) && (forall i :: 0 <= i < |e.value| ==> e.value[i] != 0)
    && ((forall i :: 0 <= i < |e.name| ==> e.name[i] != '=' as int) || NamesDrive(e.name))
  }

  ghost predicate NamesDrive(name: Text) {
    exists letter: char :: (letter in UPPER || letter in LOWER) && name == ['=' as int, letter as int, ':' as int]
  }

  const UPPER: string := "ABCDEFGHIJKLMNOPQRSTUVWXYZ"
  const LOWER: string := "abcdefghijklmnopqrstuvwxyz"

  lemma Letters(c: char)
    ensures c in UPPER <==> 'A' <= c <= 'Z'
    ensures c in LOWER <==> 'a' <= c <= 'z'
  {
    assert forall i :: 0 <= i < 26 ==> UPPER[i] as int == 0x41 + i && LOWER[i] as int == 0x61 + i;
    if 'A' <= c <= 'Z' {
      assert UPPER[c as int - 0x41] == c;
    }
    if 'a' <= c <= 'z' {
      assert LOWER[c as int - 0x61] == c;
    }
  }

  lemma DrivesExactly(name: Text)
    ensures IsDriveDirectory(name) <==> NamesDrive(name)
  {
    if IsDriveDirectory(name) {
      var letter := name[1] as char;
      Letters(letter);
      assert name == ['=' as int, letter as int, ':' as int];
    }
    if letter: char :| (letter in UPPER || letter in LOWER) && name == ['=' as int, letter as int, ':' as int] {
      Letters(letter);
    }
  }

  lemma WritableExactly(e: Entry)
    ensures IsValidEntry(e) <==> Writable(e)
  {
    DrivesExactly(e.name);
    assert '=' as int == EQUALS;
  }

  /** Each refusal, by a condition on the caller's own list. */
  lemma BlockRefusals(entries: seq<Entry>, key: Key)
    ensures EncodedBlock(entries, key) == Err(DuplicateName) <==> !DistinctKeys(entries, key)
    ensures EncodedBlock(entries, key) == Err(InvalidEntry)
       <==> DistinctKeys(entries, key) && exists e :: e in entries && !Writable(e)
    ensures EncodedBlock(entries, key) == Err(TooLong)
       <==> && DistinctKeys(entries, key)
            && (forall e :: e in entries ==> Writable(e))
            && Max(2, 1 + TotalUnits(entries)) > 32767
  {
    SortKeepsDistinctness(entries, key);
    SortKeepsMembers(entries, key);
    SortKeepsLength(entries, key);
    forall e ensures IsValidEntry(e) <==> Writable(e) {
      WritableExactly(e);
    }
  }

  lemma SortKeepsDistinctness(entries: seq<Entry>, key: Key)
    ensures AdjacentKeysDiffer(SortByKey(entries, key), key) <==> DistinctKeys(entries, key)
  {
    var sorted := SortByKey(entries, key);
    SortsByKey(entries, key);
    AdjacentSuffices(sorted, key);
    if DistinctKeys(entries, key) {
      DistinctUpToOrder(entries, sorted, key);
    } else if DistinctKeys(sorted, key) {
      DistinctUpToOrder(sorted, entries, key);
    }
  }

  lemma SortKeepsMembers(entries: seq<Entry>, key: Key)
    ensures forall e :: e in SortByKey(entries, key) <==> e in entries
  {
    SortsByKey(entries, key);
    SameMembers(entries, SortByKey(entries, key));
  }

  lemma SortKeepsLength(entries: seq<Entry>, key: Key)
    ensures |BlockUnits(SortByKey(entries, key))| == Max(2, 1 + TotalUnits(entries))
  {
    SortsByKey(entries, key);
    LengthUpToOrder(entries, SortByKey(entries, key));
  }

  lemma LengthUpToOrder(left: seq<Entry>, right: seq<Entry>)
    requires multiset(left) == multiset(right)
    ensures |BlockUnits(right)| == Max(2, 1 + TotalUnits(left))
  {
    TotalUpToOrder(left, right);
    BlockLength(right);
  }

  lemma BlockLength(entries: seq<Entry>)
    ensures |BlockUnits(entries)| == Max(2, 1 + TotalUnits(entries))
  {
    if entries != [] {
      UnitsLength(entries, 0);
      assert entries[0..] == entries;
    }
  }

  lemma SameMembers(left: seq<Entry>, right: seq<Entry>)
    requires multiset(left) == multiset(right)
    ensures forall e :: e in left <==> e in right
  {
    forall e ensures e in left <==> e in right {
      assert e in left <==> e in multiset(left);
    }
  }

  /** Units the entries occupy, each with its separator and its NUL. */
  ghost function TotalUnits(entries: seq<Entry>): (n: nat) {
    if entries == [] then 0 else |entries[0].name| + |entries[0].value| + 2 + TotalUnits(entries[1..])
  }

  lemma {:induction false} UnitsLength(entries: seq<Entry>, i: nat)
    requires i <= |entries|
    ensures |UnitsFrom(entries, i)| == 1 + TotalUnits(entries[i..])
    decreases |entries| - i
  {
    if i == |entries| {
    } else {
      UnitsLength(entries, i + 1);
      assert entries[i..][1..] == entries[i + 1..];
    }
  }

  lemma {:induction false} TotalWithout(entries: seq<Entry>, k: nat)
    requires k < |entries|
    ensures TotalUnits(entries)
         == |entries[k].name| + |entries[k].value| + 2 + TotalUnits(entries[..k] + entries[k + 1..])
  {
    if k == 0 {
      assert entries[..0] + entries[1..] == entries[1..];
    } else {
      TotalWithout(entries[1..], k - 1);
      var rest := entries[..k] + entries[k + 1..];
      assert rest[1..] == entries[1..][..k - 1] + entries[1..][k..];
    }
  }

  lemma {:induction false} TotalUpToOrder(left: seq<Entry>, right: seq<Entry>)
    requires multiset(left) == multiset(right)
    ensures TotalUnits(left) == TotalUnits(right)
    decreases |left|
  {
    if left == [] {
      assert |multiset(right)| == |right|;
      assert |multiset(left)| == 0;
    } else {
      assert left[0] in multiset(right);
      var k :| 0 <= k < |right| && right[k] == left[0];
      var rest := right[..k] + right[k + 1..];
      TotalWithout(right, k);
      assert left == [left[0]] + left[1..];
      assert right == right[..k] + [right[k]] + right[k + 1..];
      assert multiset(left[1..]) == multiset(left) - multiset{left[0]};
      assert multiset(rest) == multiset(right) - multiset{right[k]};
      TotalUpToOrder(left[1..], rest);
    }
  }

  /** The block does not depend on the order the caller listed the entries in. */
  lemma OrderIrrelevant(left: seq<Entry>, right: seq<Entry>, key: Key)
    requires multiset(left) == multiset(right)
    ensures EncodedBlock(left, key) == EncodedBlock(right, key)
  {
    BlockRefusals(left, key);
    BlockRefusals(right, key);
    SameMembers(left, right);
    TotalUpToOrder(left, right);
    if DistinctKeys(left, key) {
      DistinctUpToOrder(left, right, key);
      SortsByKey(left, key);
      SortsByKey(right, key);
      var a, b := SortByKey(left, key), SortByKey(right, key);
      DistinctUpToOrder(left, a, key);
      DistinctUpToOrder(right, b, key);
      AdjacentSuffices(a, key);
      AdjacentSuffices(b, key);
      StrictOrderUnique(a, b, key);
    } else if DistinctKeys(right, key) {
      DistinctUpToOrder(right, left, key);
    }
  }

  lemma SameTails(a: seq<Entry>, b: seq<Entry>)
    requires a != [] && b != [] && a[0] == b[0] && multiset(a) == multiset(b)
    ensures multiset(a[1..]) == multiset(b[1..])
  {
    assert a == [a[0]] + a[1..] && b == [b[0]] + b[1..];
    assert multiset(a[1..]) == multiset(a) - multiset{a[0]};
    assert multiset(b[1..]) == multiset(b) - multiset{b[0]};
  }

  lemma StrictOrderTail(a: seq<Entry>, key: Key)
    requires a != [] && StrictlyOrdered(a, key)
    ensures StrictlyOrdered(a[1..], key)
  {
  }

  lemma {:induction false} StrictOrderUnique(a: seq<Entry>, b: seq<Entry>, key: Key)
    requires multiset(a) == multiset(b)
    requires StrictlyOrdered(a, key) && StrictlyOrdered(b, key)
    ensures a == b
    decreases |a|
  {
    if a == [] {
      assert |multiset(b)| == |b|;
      assert |multiset(a)| == 0;
    } else {
      SameMembers(a, b);
      StrictOrderHead(a, b, key);
      SameTails(a, b);
      StrictOrderTail(a, key);
      StrictOrderTail(b, key);
      StrictOrderUnique(a[1..], b[1..], key);
      assert a == [a[0]] + a[1..] && b == [b[0]] + b[1..];
    }
  }

  lemma StrictOrderHead(a: seq<Entry>, b: seq<Entry>, key: Key)
    requires forall e :: e in a <==> e in b
    requires StrictlyOrdered(a, key) && StrictlyOrdered(b, key)
    requires a != []
    ensures b != [] && a[0] == b[0]
  {
    assert a[0] in a;
    assert b[0] in b;
    if a[0] != b[0] {
      assert Lex.Less(key(a[0].name), key(b[0].name));
      assert Lex.Less(key(b[0].name), key(a[0].name));
      Lex.Asymmetric(key(a[0].name), key(b[0].name));
    }
  }
}
