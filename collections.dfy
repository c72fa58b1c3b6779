/** The functional-style collection utilities (Collections.java).
    An `Iterable` is modelled as the sequence of elements its iterator yields;
    the `ArrayList` the Java methods append to is the sequence `result`.
    Predicates and one-argument functions are partial arrows (they may throw),
    so each method requires them to be defined on the elements it applies
    them to; the folding functions are total. */
module Collections {
  import Predicate
  import JavaText

  /** `f` is defined on every element of `s`. */
  ghost predicate DefinedOn<T, R>(f: T --> R, s: seq<T>) {
    forall k :: 0 <= k < |s| ==> f.requires(s[k])
  }

  /** map: applies `f` to every element, in order. */
  method Map<T, R>(f: T --> R, src: seq<T>) returns (result: seq<R>)
    requires DefinedOn(f, src)
    ensures |result| == |src|
    ensures forall k :: 0 <= k < |src| ==> result[k] == f(src[k])
  {
    result := [];
    for i := 0 to |src|
      invariant |result| == i
      invariant forall k :: 0 <= k < i ==> result[k] == f(src[k])
    {
      result := result + [f(src[i])];
    }
  }

  /** The elements of `s` on which `p` holds, in their order in `s`. */
  ghost function Filtered<T>(p: T --> bool, s: seq<T>): seq<T>
    requires DefinedOn(p, s)
    decreases |s|
  {
    if s == [] then []
    else Filtered(p, s[..|s| - 1]) + (if p(s[|s| - 1]) then [s[|s| - 1]] else [])
  }

  /** filter: keeps exactly the elements on which `f` holds, order preserved. */
  method Filter<T>(f: T --> bool, src: seq<T>) returns (result: seq<T>)
    requires DefinedOn(f, src)
    ensures result == Filtered(f, src)
    ensures forall x :: x in result <==> x in src && f(x)
  {
    result := [];
    for i := 0 to |src|
      invariant result == Filtered(f, src[..i])
    {
      assert src[..i + 1][..i] == src[..i];
      if f(src[i]) {
        result := result + [src[i]];
      }
    }
    assert src[..|src|] == src;
    FilteredMembers(f, src);
  }

  /** Membership in `Filtered`: an element is kept iff it occurs and satisfies `p`. */
  lemma {:induction false} FilteredMembers<T>(p: T --> bool, s: seq<T>)
    requires DefinedOn(p, s)
    ensures forall x :: x in Filtered(p, s) <==> x in s && p(x)
    decreases |s|
  {
    if s != [] {
      var init := s[..|s| - 1];
      FilteredMembers(p, init);
      assert s == init + [s[|s| - 1]];
    }
  }

  /** Filtering distributes over concatenation, so it keeps the relative order
      of the elements it retains. */
  lemma {:induction false} FilteredAppend<T>(p: T --> bool, a: seq<T>, b: seq<T>)
    requires DefinedOn(p, a) && DefinedOn(p, b)
    ensures DefinedOn(p, a + b)
    ensures Filtered(p, a + b) == Filtered(p, a) + Filtered(p, b)
    decreases |b|
  {
    if b != [] {
      var last := b[|b| - 1];
      var bInit := b[..|b| - 1];
      assert (a + b)[..|a + b| - 1] == a + bInit;
      FilteredAppend(p, a, bInit);
    } else {
      assert a + b == a;
    }
  }

  /** The Java loop of takeWhile applies `f` to each element in turn and
      stops at the first one on which it is false, so `f` need be defined
      only on the elements up to that one. */
  ghost predicate DefinedWhile<T>(f: T --> bool, s: seq<T>) {
    forall k :: 0 <= k < |s| && (forall j :: 0 <= j < k ==> f.requires(s[j]) && f(s[j])) ==>
      f.requires(s[k])
  }

  /** The same for takeUnless, which stops at the first element on which
      `f` is true. */
  ghost predicate DefinedUnless<T>(f: T --> bool, s: seq<T>) {
    forall k :: 0 <= k < |s| && (forall j :: 0 <= j < k ==> f.requires(s[j]) && !f(s[j])) ==>
      f.requires(s[k])
  }

  /** takeWhile: the longest prefix of `src` all of whose elements satisfy `f`. */
  method TakeWhile<T>(f: T --> bool, src: seq<T>) returns (result: seq<T>)
    requires DefinedWhile(f, src)
    ensures |result| <= |src| && result == src[..|result|]
    ensures forall k :: 0 <= k < |result| ==> f.requires(src[k]) && f(src[k])
    ensures |result| < |src| ==> f.requires(src[|result|]) && !f(src[|result|])
  {
    result := [];
    var i := 0;
    while i < |src|
      invariant 0 <= i <= |src|
      invariant result == src[..i]
      invariant forall k :: 0 <= k < i ==> f.requires(src[k]) && f(src[k])
    {
      if !f(src[i]) {
        break;
      }
      result := result + [src[i]];
      i := i + 1;
    }
  }

  /** takeWhile never applies `f` past the first element on which it fails:
      with `10 / x > 0`, which throws on 0, takeWhile over [-1, 0] stops at
      -1 and never divides by zero. */
  method TakeWhileStopsEarly() returns (result: seq<int>)
    ensures result == []
  {
    var positive := (x: int) requires x != 0 => 10 / x > 0;
    var src := [-1, 0];
    assert positive.requires(src[0]) && !positive(src[0]);
    result := TakeWhile(positive, src);
  }

  /** Along a prefix on which `f.not()` held, `f` itself was defined and
      false: the first element where `f` were undefined would already be
      one `f.not()` cannot be applied to. */
  lemma {:induction false} NegatedPrefix<T(!new)>(f: T --> bool, notF: T --> bool, s: seq<T>, k: nat)
    requires DefinedUnless(f, s)
    requires forall x :: f.requires(x) ==> notF.requires(x) && (notF(x) <==> !f(x))
    requires k <= |s|
    requires forall j :: 0 <= j < k ==> notF.requires(s[j]) && notF(s[j])
    ensures forall j :: 0 <= j < k ==> f.requires(s[j]) && !f(s[j])
    decreases k
  {
    if k > 0 {
      NegatedPrefix(f, notF, s, k - 1);
    }
  }

  /** takeUnless: `takeWhile(f.not(), src)`, the longest prefix on which `f` is false. */
  method TakeUnless<T(!new)>(f: T --> bool, src: seq<T>) returns (result: seq<T>)
    requires DefinedUnless(f, src)
    ensures |result| <= |src| && result == src[..|result|]
    ensures forall k :: 0 <= k < |result| ==> f.requires(src[k]) && !f(src[k])
    ensures |result| < |src| ==> f.requires(src[|result|]) && f(src[|result|])
  {
    var notF := Predicate.Not(f);
    forall k | 0 <= k < |src| && (forall j :: 0 <= j < k ==> notF.requires(src[j]) && notF(src[j]))
      ensures notF.requires(src[k])
    {
      NegatedPrefix(f, notF, src, k);
    }
    result := TakeWhile(notF, src);
    NegatedPrefix(f, notF, src, |result|);
  }

  /** Left fold, f(...f(f(x, e1), e2)..., en), defined from the last element. */
  function FoldLeft<T, R>(f: (R, T) -> R, x: R, s: seq<T>): R
    decreases |s|
  {
    if s == [] then x else f(FoldLeft(f, x, s[..|s| - 1]), s[|s| - 1])
  }

  /** foldl: the loop that reassigns `x` for every element computes the left fold. */
  method Foldl<T, R>(f: (R, T) -> R, x: R, src: seq<T>) returns (result: R)
    ensures result == FoldLeft(f, x, src)
  {
    result := x;
    for i := 0 to |src|
      invariant result == FoldLeft(f, x, src[..i])
    {
      assert src[..i + 1][..i] == src[..i];
      result := f(result, src[i]);
    }
    assert src[..|src|] == src;
  }

  /** The private foldr over an iterator: the iterator is the position `pos`
      of the next element; it recurses on the rest before applying `f`. */
  function FoldrFrom<T, R>(f: (T, R) -> R, x: R, src: seq<T>, pos: nat): R
    requires pos <= |src|
    decreases |src| - pos
  {
    if pos == |src| then x else f(src[pos], FoldrFrom(f, x, src, pos + 1))
  }

  /** The public foldr: the private one, started on a fresh iterator. */
  function Foldr<T, R>(f: (T, R) -> R, x: R, src: seq<T>): R {
    FoldrFrom(f, x, src, 0)
  }

  /** Folding from the right over `src` from position `pos` is folding over the
      suffix `src[pos..]` from its start. */
  lemma {:induction false} FoldrFromSuffix<T, R>(f: (T, R) -> R, x: R, src: seq<T>, pos: nat)
    requires pos <= |src|
    ensures FoldrFrom(f, x, src, pos) == Foldr(f, x, src[pos..])
    decreases |src| - pos
  {
    if pos < |src| {
      FoldrFromSuffix(f, x, src, pos + 1);
      FoldrFromSuffix(f, x, src[pos..], 1);
      assert src[pos..][1..] == src[pos + 1..];
    }
  }

  /** foldr(f, x, [e1..en]) == f(e1, foldr(f, x, [e2..en])): the right fold
      unrolls from the first element. */
  lemma FoldrCons<T, R>(f: (T, R) -> R, x: R, src: seq<T>)
    requires src != []
    ensures Foldr(f, x, src) == f(src[0], Foldr(f, x, src[1..]))
  {
    FoldrFromSuffix(f, x, src, 1);
  }

  /** Left folds compose over concatenation. */
  lemma {:induction false} FoldLeftAppend<T, R>(f: (R, T) -> R, x: R, a: seq<T>, b: seq<T>)
    ensures FoldLeft(f, x, a + b) == FoldLeft(f, FoldLeft(f, x, a), b)
    decreases |b|
  {
    if b == [] {
      assert a + b == a;
    } else {
      assert (a + b)[..|a + b| - 1] == a + b[..|b| - 1];
      FoldLeftAppend(f, x, a, b[..|b| - 1]);
    }
  }

  /** Right folds compose over concatenation, the other way round. */
  lemma {:induction false} FoldrAppend<T, R>(f: (T, R) -> R, x: R, a: seq<T>, b: seq<T>)
    ensures Foldr(f, x, a + b) == Foldr(f, Foldr(f, x, b), a)
    decreases |a|
  {
    if a == [] {
      assert a + b == b;
    } else {
      FoldrCons(f, x, a + b);
      FoldrCons(f, Foldr(f, x, b), a);
      assert (a + b)[1..] == a[1..] + b;
      FoldrAppend(f, x, a[1..], b);
    }
  }

  /** The elements of `s` in the opposite order. */
  function Reversed<T>(s: seq<T>): (r: seq<T>)
    ensures |r| == |s|
    ensures forall i :: 0 <= i < |r| ==> r[i] == s[|s| - 1 - i]
    decreases |s|
  {
    if s == [] then [] else [s[|s| - 1]] + Reversed(s[..|s| - 1])
  }

  /** foldr is foldl with the arguments of `f` swapped, over the reversed input:
      f(e1, f(e2, ... f(en, x))). */
  lemma {:induction false} FoldrIsReversedFoldLeft<T, R>(f: (T, R) -> R, x: R, s: seq<T>)
    ensures Foldr(f, x, s) == FoldLeft((acc: R, e: T) => f(e, acc), x, Reversed(s))
    decreases |s|
  {
    var g := (acc: R, e: T) => f(e, acc);
    if s != [] {
      var init, last := s[..|s| - 1], s[|s| - 1];
      assert s == init + [last];
      FoldrAppend(f, x, init, [last]);
      FoldrCons(f, x, [last]);
      assert Foldr(f, x, [last][1..]) == x;
      FoldrIsReversedFoldLeft(f, f(last, x), init);
      assert Reversed(s) == [last] + Reversed(init);
      FoldLeftAppend(g, x, [last], Reversed(init));
      assert [last][..0] == [];
      assert FoldLeft(g, x, [last]) == f(last, x);
    }
  }

  /** Java's `x + y` of a String and an Integer: the Integer's decimal text
      appended. */
  function Concat(acc: string, d: int): string {
    acc + JavaText.ToDecimal(d)
  }

  /** The test suite's foldl over 1..8 from "trololo:" appends the digits in
      order. */
  lemma FoldlExample()
    ensures FoldLeft(Concat, "trololo:", [1, 2, 3, 4, 5, 6, 7, 8]) == "trololo:12345678"
  {
    assert [1][..0] == [];
    assert FoldLeft(Concat, "trololo:", [1]) == "trololo:1";
    assert [1, 2][..1] == [1];
    assert FoldLeft(Concat, "trololo:", [1, 2]) == "trololo:12";
    assert [1, 2, 3][..2] == [1, 2];
    assert FoldLeft(Concat, "trololo:", [1, 2, 3]) == "trololo:123";
    assert [1, 2, 3, 4][..3] == [1, 2, 3];
    assert FoldLeft(Concat, "trololo:", [1, 2, 3, 4]) == "trololo:1234";
    assert [1, 2, 3, 4, 5][..4] == [1, 2, 3, 4];
    assert FoldLeft(Concat, "trololo:", [1, 2, 3, 4, 5]) == "trololo:12345";
    assert [1, 2, 3, 4, 5, 6][..5] == [1, 2, 3, 4, 5];
    assert FoldLeft(Concat, "trololo:", [1, 2, 3, 4, 5, 6]) == "trololo:123456";
    assert [1, 2, 3, 4, 5, 6, 7][..6] == [1, 2, 3, 4, 5, 6];
    assert FoldLeft(Concat, "trololo:", [1, 2, 3, 4, 5, 6, 7]) == "trololo:1234567";
    assert [1, 2, 3, 4, 5, 6, 7, 8][..7] == [1, 2, 3, 4, 5, 6, 7];
    assert FoldLeft(Concat, "trololo:", [1, 2, 3, 4, 5, 6, 7, 8]) == "trololo:12345678";
  }

  /** The test suite's foldr over 1..8 from "trololo:" appends them last to
      first. */
  lemma FoldrExample()
    ensures Foldr((d: int, acc: string) => Concat(acc, d), "trololo:", [1, 2, 3, 4, 5, 6, 7, 8]) == "trololo:87654321"
  {
    var g := (d: int, acc: string) => Concat(acc, d);
    var s := [1, 2, 3, 4, 5, 6, 7, 8];
    assert FoldrFrom(g, "trololo:", s, 7) == "trololo:8";
    assert FoldrFrom(g, "trololo:", s, 6) == "trololo:87";
    assert FoldrFrom(g, "trololo:", s, 5) == "trololo:876";
    assert FoldrFrom(g, "trololo:", s, 4) == "trololo:8765";
    assert FoldrFrom(g, "trololo:", s, 3) == "trololo:87654";
    assert FoldrFrom(g, "trololo:", s, 2) == "trololo:876543";
    assert FoldrFrom(g, "trololo:", s, 1) == "trololo:8765432";
    assert FoldrFrom(g, "trololo:", s, 0) == "trololo:87654321";
  }
}
