/** Facts about sequences that no one source file owns. */
module Sequences {

  lemma SplitLast<T>(s: seq<T>)
    requires s != []
    ensures s == s[..|s| - 1] + [s[|s| - 1]]
  {
  }

  lemma JoinEmpty<T>(s: seq<T>)
    ensures s + [] == s && [] + s == s
  {
  }

  lemma JoinAssoc<T>(a: seq<T>, b: seq<T>, c: seq<T>)
    ensures a + (b + c) == (a + b) + c
  {
  }

  lemma JoinSnoc<T>(a: seq<T>, b: seq<T>)
    requires b != []
    ensures a + b == (a + b[..|b| - 1]) + [b[|b| - 1]]
  {
  }

  lemma JoinRest<T>(a: seq<T>, b: seq<T>)
    requires a != []
    ensures (a + b)[0] == a[0] && (a + b)[1..] == a[1..] + b
  {
  }

  lemma JoinLast<T>(a: seq<T>, b: seq<T>)
    requires b != []
    ensures (a + b)[|a + b| - 1] == b[|b| - 1]
  {
  }

  /** Keep each element's first occurrence: `filter((x, i, all) => all.indexOf(x) === i)`. */
  function FirstOccurrences<T(==)>(s: seq<T>): seq<T> {
    if s == [] then []
    else
      var init, last := s[..|s| - 1], s[|s| - 1];
      FirstOccurrences(init) + if last in init then [] else [last]
  }

  lemma FirstOccurrencesSnoc<T>(s: seq<T>, x: T)
    ensures FirstOccurrences(s + [x]) == FirstOccurrences(s) + if x in s then [] else [x]
  {
    assert (s + [x])[..|s|] == s;
  }

  lemma {:induction false} FirstOccurrencesMembers<T>(s: seq<T>, x: T)
    ensures x in FirstOccurrences(s) <==> x in s
  {
    if s != [] {
      FirstOccurrencesMembers(s[..|s| - 1], x);
      assert s == s[..|s| - 1] + [s[|s| - 1]];
    }
  }

  predicate Distinct<T(==)>(s: seq<T>) {
    forall i, j :: 0 <= i < j < |s| ==> s[i] != s[j]
  }

  lemma {:induction false} FirstOccurrencesDistinct<T>(s: seq<T>)
    ensures Distinct(FirstOccurrences(s))
  {
    if s != [] {
      FirstOccurrencesDistinct(s[..|s| - 1]);
      FirstOccurrencesMembers(s[..|s| - 1], s[|s| - 1]);
    }
  }

  lemma {:induction false} FirstOccurrencesOfDistinct<T>(s: seq<T>)
    requires Distinct(s)
    ensures FirstOccurrences(s) == s
  {
    if s != [] {
      FirstOccurrencesOfDistinct(s[..|s| - 1]);
      assert s == s[..|s| - 1] + [s[|s| - 1]];
    }
  }

  lemma FirstOccurrencesIdempotent<T>(a: seq<T>)
    ensures FirstOccurrences(FirstOccurrences(a)) == FirstOccurrences(a)
  {
    FirstOccurrencesDistinct(a);
    FirstOccurrencesOfDistinct(FirstOccurrences(a));
  }

  /** Reducing either half first changes nothing. */
  lemma {:induction false} FirstOccurrencesOfReducedLeft<T>(a: seq<T>, b: seq<T>)
    ensures FirstOccurrences(FirstOccurrences(a) + b) == FirstOccurrences(a + b)
  {
    var r := FirstOccurrences(a);
    if b == [] {
      assert a + b == a && r + b == r;
      FirstOccurrencesIdempotent(a);
    } else {
      var init, last := b[..|b| - 1], b[|b| - 1];
      FirstOccurrencesOfReducedLeft(a, init);
      FirstOccurrencesMembers(a, last);
      JoinSnoc(a, b);
      JoinSnoc(r, b);
      FirstOccurrencesSnoc(a + init, last);
      FirstOccurrencesSnoc(r + init, last);
    }
  }

  lemma {:induction false} FirstOccurrencesOfReducedRight<T>(a: seq<T>, b: seq<T>)
    ensures FirstOccurrences(a + FirstOccurrences(b)) == FirstOccurrences(a + b)
  {
    if b != [] {
      var init, last := b[..|b| - 1], b[|b| - 1];
      var r := FirstOccurrences(init);
      FirstOccurrencesOfReducedRight(a, init);
      FirstOccurrencesMembers(init, last);
      JoinSnoc(a, b);
      FirstOccurrencesSnoc(a + init, last);
      if last in init {
        JoinEmpty(r);
        JoinEmpty(FirstOccurrences(a + init));
        assert last in a + init;
      } else {
        JoinAssoc(a, r, [last]);
        FirstOccurrencesSnoc(a + r, last);
      }
    }
  }

  /** A repeat of an element already present changes nothing. */
  lemma {:induction false} FirstOccurrencesOfRepeat<T>(a: seq<T>, x: T, b: seq<T>)
    requires x in a
    ensures FirstOccurrences(a + [x] + b) == FirstOccurrences(a + b)
  {
    if b == [] {
      FirstOccurrencesSnoc(a, x);
      assert a + [x] + b == a + [x] && a + b == a;
    } else {
      var init, last := b[..|b| - 1], b[|b| - 1];
      FirstOccurrencesOfRepeat(a, x, init);
      assert a + [x] + b == (a + [x] + init) + [last] && a + b == (a + init) + [last];
      FirstOccurrencesSnoc(a + [x] + init, last);
      FirstOccurrencesSnoc(a + init, last);
    }
  }

  /** Two lists reduced alike stay so when a reduced tail is appended. */
  lemma FirstOccurrencesOfParts<T>(found: seq<T>, a: seq<T>, b: seq<T>)
    requires FirstOccurrences(found) == FirstOccurrences(a)
    ensures FirstOccurrences(found + FirstOccurrences(b)) == FirstOccurrences(a + b)
  {
    FirstOccurrencesOfReducedRight(found, b);
    FirstOccurrencesOfReducedLeft(found, b);
    FirstOccurrencesOfReducedLeft(a, b);
  }

  /** Elements the same distance from the end are related, over the shorter length. */
  predicate PairedBackwards<T>(rel: (T, T) -> bool, a: seq<T>, b: seq<T>) {
    forall i, j :: 0 <= i < |a| && 0 <= j < |b| && |a| - i == |b| - j ==> rel(a[i], b[j])
  }

  lemma PairedOneMore<T>(rel: (T, T) -> bool, a: seq<T>, b: seq<T>)
    requires a != [] && b != [] && rel(a[|a| - 1], b[|b| - 1])
    requires PairedBackwards(rel, a[..|a| - 1], b[..|b| - 1])
    ensures PairedBackwards(rel, a, b)
  {
    var p, q := a[..|a| - 1], b[..|b| - 1];
    forall i, j | 0 <= i < |a| && 0 <= j < |b| && |a| - i == |b| - j ensures rel(a[i], b[j]) {
      if i < |p| {
        assert rel(p[i], q[j]);
      }
    }
  }

  function Reverse<T>(s: seq<T>): (r: seq<T>)
    ensures |r| == |s|
    ensures forall i :: 0 <= i < |s| ==> r[i] == s[|s| - 1 - i]
  {
    seq(|s|, i requires 0 <= i < |s| => s[|s| - 1 - i])
  }

  lemma ReverseSnoc<T>(s: seq<T>, x: T)
    ensures Reverse(s + [x]) == [x] + Reverse(s)
  {
  }

  lemma ReverseOfJoin<T>(a: seq<T>, b: seq<T>)
    ensures Reverse(a + b) == Reverse(b) + Reverse(a)
  {
  }

  lemma ReverseTwice<T>(s: seq<T>)
    ensures Reverse(Reverse(s)) == s
  {
  }

  function Map<T, U>(f: T -> U, s: seq<T>): seq<U> {
    if s == [] then [] else [f(s[0])] + Map(f, s[1..])
  }

  lemma {:induction false} MapAt<T, U>(f: T -> U, s: seq<T>)
    ensures |Map(f, s)| == |s|
    ensures forall i :: 0 <= i < |s| ==> Map(f, s)[i] == f(s[i])
  {
    if s != [] {
      MapAt(f, s[1..]);
    }
  }

  lemma {:induction false} MapOfJoin<T, U>(f: T -> U, a: seq<T>, b: seq<T>)
    ensures |Map(f, a)| == |a|
    ensures Map(f, a + b) == Map(f, a) + Map(f, b)
  {
    if a == [] {
      JoinEmpty(b);
    } else {
      MapOfJoin(f, a[1..], b);
      JoinRest(a, b);
      JoinAssoc([f(a[0])], Map(f, a[1..]), Map(f, b));
    }
  }

  function Filter<T>(p: T -> bool, s: seq<T>): seq<T> {
    if s == [] then [] else (if p(s[0]) then [s[0]] else []) + Filter(p, s[1..])
  }

  lemma MapMembers<T, U>(f: T -> U, s: seq<T>, y: U)
    ensures y in Map(f, s) <==> exists x :: x in s && f(x) == y
  {
    MapAt(f, s);
    if y in Map(f, s) {
      var i :| 0 <= i < |Map(f, s)| && Map(f, s)[i] == y;
      assert s[i] in s && f(s[i]) == y;
    }
    if x :| x in s && f(x) == y {
      var i :| 0 <= i < |s| && s[i] == x;
      assert Map(f, s)[i] == y;
    }
  }

  /** Mapping there and back. */
  lemma {:induction false} MapBack<T, U>(f: T -> U, g: U -> T, s: seq<T>)
    requires forall i :: 0 <= i < |s| ==> g(f(s[i])) == s[i]
    ensures Map(g, Map(f, s)) == s && |Map(f, s)| == |s|
  {
    if s != [] {
      MapBack(f, g, s[1..]);
    }
  }

  lemma MapSnoc<T, U>(f: T -> U, s: seq<T>, x: T)
    ensures Map(f, s + [x]) == Map(f, s) + [f(x)]
  {
    MapOfJoin(f, s, [x]);
    assert [x][1..] == [];
  }

  lemma FilterSnoc<T>(p: T -> bool, s: seq<T>, i: nat)
    requires i < |s|
    ensures Filter(p, s[..i + 1]) == Filter(p, s[..i]) + if p(s[i]) then [s[i]] else []
  {
    assert s[..i + 1] == s[..i] + [s[i]];
    FilterOfJoin(p, s[..i], [s[i]]);
    FilterOne(p, s[i]);
  }

  lemma {:induction false} FilterOfAll<T>(p: T -> bool, s: seq<T>)
    requires forall i :: 0 <= i < |s| ==> p(s[i])
    ensures Filter(p, s) == s
  {
    if s != [] {
      FilterOfAll(p, s[1..]);
    }
  }

  lemma FilterOne<T>(p: T -> bool, x: T)
    ensures Filter(p, [x]) == if p(x) then [x] else []
  {
    assert [x][1..] == [];
  }

  lemma {:induction false} FilterOfJoin<T>(p: T -> bool, a: seq<T>, b: seq<T>)
    ensures Filter(p, a + b) == Filter(p, a) + Filter(p, b)
  {
    if a == [] {
      JoinEmpty(b);
    } else {
      FilterOfJoin(p, a[1..], b);
      JoinRest(a, b);
      JoinAssoc(if p(a[0]) then [a[0]] else [], Filter(p, a[1..]), Filter(p, b));
    }
  }

  lemma {:induction false} FilterMembers<T>(p: T -> bool, s: seq<T>, x: T)
    ensures x in Filter(p, s) <==> x in s && p(x)
  {
    if s != [] {
      FilterMembers(p, s[1..], x);
    }
  }

  // ---------------------------------------------------------------------
  // Lists of lists
  // ---------------------------------------------------------------------

  function Concat<T>(pages: seq<seq<T>>): seq<T> {
    if pages == [] then [] else pages[0] + Concat(pages[1..])
  }

  lemma {:induction false} ConcatSnoc<T>(pages: seq<seq<T>>, page: seq<T>)
    ensures Concat(pages + [page]) == Concat(pages) + page
  {
    if pages == [] {
      assert pages + [page] == [page] && [page][1..] == [];
      JoinEmpty(page);
    } else {
      assert (pages + [page])[1..] == pages[1..] + [page];
      ConcatSnoc(pages[1..], page);
      JoinAssoc(pages[0], Concat(pages[1..]), page);
    }
  }

  lemma {:induction false} ConcatOfJoin<T>(a: seq<seq<T>>, b: seq<seq<T>>)
    ensures Concat(a + b) == Concat(a) + Concat(b)
  {
    if a == [] {
      JoinEmpty(b);
      JoinEmpty(Concat(b));
    } else {
      JoinRest(a, b);
      ConcatOfJoin(a[1..], b);
      JoinAssoc(a[0], Concat(a[1..]), Concat(b));
    }
  }

  /** Elements cut every `size`: the full batches, then the ones still waiting. */
  function SplitBatches<T>(s: seq<T>, size: nat): (seq<seq<T>>, seq<T>) {
    if s == [] then ([], [])
    else
      var (full, batch) := SplitBatches(s[..|s| - 1], size);
      var grown := batch + [s[|s| - 1]];
      if |grown| >= size then (full + [grown], []) else (full, grown)
  }

  /** All batches, the last one possibly short. */
  function Batches<T>(s: seq<T>, size: nat): seq<seq<T>> {
    var (full, batch) := SplitBatches(s, size);
    if batch == [] then full else full + [batch]
  }

  /** The batches are the elements, in order; each full batch has the given size. */
  lemma {:induction false} BatchesCut<T>(s: seq<T>, size: nat)
    requires size > 0
    ensures var (full, batch) := SplitBatches(s, size);
      && Concat(full) + batch == s && |batch| < size
      && (forall k :: 0 <= k < |full| ==> |full[k]| == size)
  {
    if s != [] {
      var init, last := s[..|s| - 1], s[|s| - 1];
      BatchesCut(init, size);
      var (full, batch) := SplitBatches(init, size);
      SplitLast(s);
      JoinAssoc(Concat(full), batch, [last]);
      ConcatSnoc(full, batch + [last]);
      JoinEmpty(Concat(full + [batch + [last]]));
    }
  }

  lemma BatchesWhole<T>(s: seq<T>, size: nat)
    requires size > 0
    ensures Concat(Batches(s, size)) == s
    ensures forall k :: 0 <= k < |Batches(s, size)| ==> 0 < |Batches(s, size)[k]| <= size
  {
    BatchesCut(s, size);
    var (full, batch) := SplitBatches(s, size);
    ConcatSnoc(full, batch);
    JoinEmpty(Concat(full));
  }
}
