/** Lexicographic order on code-unit sequences, and the strictly sorted lists an ordered set iterates as. */
module Lex {
  predicate Less(a: seq<int>, b: seq<int>) {
    if b == [] then false
    else if a == [] then true
    else a[0] < b[0] || (a[0] == b[0] && Less(a[1..], b[1..]))
  }

  /** `a` and `b` agree before `i`, where `a` ends first or has the smaller unit. */
  ghost predicate FirstBelow(a: seq<int>, b: seq<int>, i: nat) {
    i <= |a| && i < |b| && a[..i] == b[..i] && (i == |a| || a[i] < b[i])
  }

  /** The order by its first difference: a proper prefix comes first, else the smaller unit does. */
  lemma {:induction false} LessExactly(a: seq<int>, b: seq<int>)
    ensures Less(a, b) <==> exists i: nat :: FirstBelow(a, b, i)
  {
    if a == [] {
      if b != [] {
        assert FirstBelow(a, b, 0);
      }
    } else if b != [] {
      LessExactly(a[1..], b[1..]);
      if a[0] < b[0] {
        assert FirstBelow(a, b, 0);
      }
      if a[0] == b[0] && Less(a[1..], b[1..]) {
        var i: nat :| FirstBelow(a[1..], b[1..], i);
        assert a[..i + 1] == [a[0]] + a[1..][..i] && b[..i + 1] == [b[0]] + b[1..][..i];
        assert FirstBelow(a, b, i + 1);
      }
      if i: nat :| FirstBelow(a, b, i) {
        if i > 0 {
          assert a[0] == a[..i][0] == b[..i][0] == b[0];
          assert a[1..][..i - 1] == a[..i][1..] && b[1..][..i - 1] == b[..i][1..];
          assert FirstBelow(a[1..], b[1..], i - 1);
        }
      }
    }
  }

  lemma {:induction false} Irreflexive(a: seq<int>)
    ensures !Less(a, a)
  {
    if a == [] {
    } else {
      Irreflexive(a[1..]);
    }
  }

  lemma {:induction false} Transitive(a: seq<int>, b: seq<int>, c: seq<int>)
    requires Less(a, b) && Less(b, c)
    ensures Less(a, c)
  {
    if a != [] && a[0] == b[0] == c[0] {
      Transitive(a[1..], b[1..], c[1..]);
    }
  }

  lemma {:induction false} Trichotomy(a: seq<int>, b: seq<int>)
    ensures Less(a, b) || a == b || Less(b, a)
  {
    if a != [] && b != [] && a[0] == b[0] {
      Trichotomy(a[1..], b[1..]);
      assert a == [a[0]] + a[1..] && b == [b[0]] + b[1..];
    }
  }

  lemma Asymmetric(a: seq<int>, b: seq<int>)
    requires Less(a, b)
    ensures !Less(b, a) && a != b
  {
    Irreflexive(a);
    if Less(b, a) {
      Transitive(a, b, a);
    }
  }

  ghost predicate StrictlySorted(xs: seq<seq<int>>) {
    forall i, j :: 0 <= i < j < |xs| ==> Less(xs[i], xs[j])
  }

  /** Insertion into an ordered set kept as its sorted list of elements. */
  function Insert(xs: seq<seq<int>>, x: seq<int>): (ys: seq<seq<int>>) {
    if xs == [] then [x]
    else if x == xs[0] then xs
    else if Less(x, xs[0]) then [x] + xs
    else [xs[0]] + Insert(xs[1..], x)
  }

  lemma {:induction false} InsertElements(xs: seq<seq<int>>, x: seq<int>)
    ensures forall y :: y in Insert(xs, x) <==> y in xs || y == x
  {
    if xs == [] {
    } else {
      InsertElements(xs[1..], x);
      assert xs == [xs[0]] + xs[1..];
    }
  }

  lemma {:induction false} InsertSorted(xs: seq<seq<int>>, x: seq<int>)
    requires StrictlySorted(xs)
    ensures StrictlySorted(Insert(xs, x))
  {
    if xs != [] && x != xs[0] {
      if Less(x, xs[0]) {
        forall j | 0 <= j < |xs| ensures Less(x, xs[j]) {
          if j > 0 {
            Transitive(x, xs[0], xs[j]);
          }
        }
      } else {
        Trichotomy(x, xs[0]);
        InsertSorted(xs[1..], x);
        InsertElements(xs[1..], x);
        var ys := Insert(xs[1..], x);
        forall j | 0 <= j < |ys| ensures Less(xs[0], ys[j]) {
          assert ys[j] in ys;
        }
      }
    }
  }

  /** A strictly sorted list is determined by its elements. */
  lemma {:induction false} SortedUnique(xs: seq<seq<int>>, ys: seq<seq<int>>)
    requires StrictlySorted(xs) && StrictlySorted(ys)
    requires forall x :: x in xs <==> x in ys
    ensures xs == ys
  {
    if xs == [] {
      assert forall i :: 0 <= i < |ys| ==> ys[i] in ys;
    } else {
      SameHead(xs, ys);
      TailElements(xs);
      TailElements(ys);
      SortedUnique(xs[1..], ys[1..]);
      assert xs == [xs[0]] + xs[1..] && ys == [ys[0]] + ys[1..];
    }
  }

  lemma SameHead(xs: seq<seq<int>>, ys: seq<seq<int>>)
    requires StrictlySorted(xs) && StrictlySorted(ys)
    requires forall x :: x in xs <==> x in ys
    requires xs != []
    ensures ys != [] && xs[0] == ys[0]
  {
    assert xs[0] in xs;
    assert ys[0] in ys;
    if xs[0] != ys[0] {
      assert Less(xs[0], ys[0]);
      assert Less(ys[0], xs[0]);
      Asymmetric(xs[0], ys[0]);
    }
  }

  lemma TailElements(xs: seq<seq<int>>)
    requires StrictlySorted(xs) && xs != []
    ensures forall x :: x in xs[1..] <==> x in xs && x != xs[0]
  {
    Irreflexive(xs[0]);
    assert xs == [xs[0]] + xs[1..];
    assert forall j :: 0 < j < |xs| ==> Less(xs[0], xs[j]);
  }
}
