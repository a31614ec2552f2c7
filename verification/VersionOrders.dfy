/** The order both version comparators are instances of: versions are sequences of parts, compared at the
    first place they differ, the shorter one padded without end by a fixed part. */
module VersionOrders {

  /** Numbers come before words. */
  datatype Part = Number(n: int) | Word(w: string)

  /** `strings.Compare` on ASCII text. */
  function CompareStrings(a: string, b: string): (r: int)
    ensures -1 <= r <= 1
  {
    if a == b then 0
    else if a == "" then -1
    else if b == "" then 1
    else if a[0] < b[0] then -1
    else if a[0] > b[0] then 1
    else CompareStrings(a[1..], b[1..])
  }

  function CompareParts(p: Part, q: Part): (r: int)
    ensures -1 <= r <= 1
  {
    match (p, q)
    case (Number(m), Number(n)) => if m < n then -1 else if m > n then 1 else 0
    case (Number(_), Word(_)) => -1
    case (Word(_), Number(_)) => 1
    case (Word(v), Word(w)) => CompareStrings(v, w)
  }

  function At(pad: Part, key: seq<Part>, k: nat): Part {
    if k < |key| then key[k] else pad
  }

  function Longer(a: seq<Part>, b: seq<Part>): nat {
    if |a| < |b| then |b| else |a|
  }

  /** The comparison of two keys from place `k` on: -1, 0 or 1. */
  function Lex(pad: Part, a: seq<Part>, b: seq<Part>, k: nat): (r: int)
    ensures -1 <= r <= 1
    decreases Longer(a, b) - k
  {
    if k >= Longer(a, b) then 0
    else
      var c := CompareParts(At(pad, a, k), At(pad, b, k));
      if c != 0 then c else Lex(pad, a, b, k + 1)
  }

  function Compare(pad: Part, a: seq<Part>, b: seq<Part>): int {
    Lex(pad, a, b, 0)
  }

  /** The keys are the same when both are padded without end. */
  ghost predicate SameStream(pad: Part, a: seq<Part>, b: seq<Part>) {
    forall k: nat :: At(pad, a, k) == At(pad, b, k)
  }

  /** At the first place where the padded keys differ, the part of `a` is below the part of `b`. */
  ghost predicate Precedes(pad: Part, a: seq<Part>, b: seq<Part>) {
    exists k: nat :: CompareParts(At(pad, a, k), At(pad, b, k)) < 0
                     && forall i: nat :: i < k ==> At(pad, a, i) == At(pad, b, i)
  }

  // ---------- parts are totally ordered ----------

  lemma {:induction false} StringsZero(a: string, b: string)
    ensures CompareStrings(a, b) == 0 <==> a == b
    ensures CompareStrings(b, a) == -CompareStrings(a, b)
  {
    if a != b && a != "" && b != "" && a[0] == b[0] {
      assert a == [a[0]] + a[1..] && b == [b[0]] + b[1..];
      StringsZero(a[1..], b[1..]);
    }
  }

  lemma {:induction false} StringsTransitive(a: string, b: string, c: string)
    requires CompareStrings(a, b) <= 0 && CompareStrings(b, c) <= 0
    ensures CompareStrings(a, c) <= 0
    ensures CompareStrings(a, b) < 0 || CompareStrings(b, c) < 0 ==> CompareStrings(a, c) < 0
    decreases |a|
  {
    StringsZero(a, b);
    StringsZero(b, c);
    StringsZero(a, c);
    if a != b && b != c && a != "" && b != "" && c != "" && a[0] == b[0] == c[0] {
      StringsTransitive(a[1..], b[1..], c[1..]);
      StringsZero(a[1..], c[1..]);
    }
  }

  /** Text is below other text that it begins, and below text with a greater character at their first difference. */
  predicate TextBelow(a: string, b: string) {
    a < b || exists k :: 0 <= k < |a| && k < |b| && a[..k] == b[..k] && a[k] < b[k]
  }

  lemma {:induction false} TailsBelow(head: char, s: string, t: string, a: string, b: string)
    requires a == [head] + s && b == [head] + t && TextBelow(a, b)
    ensures TextBelow(s, t)
  {
    if a < b {
      assert s == a[1..] && t == b[1..];
    } else {
      var k :| 0 <= k < |a| && k < |b| && a[..k] == b[..k] && a[k] < b[k];
      SameFront(head, s, t, a, b, k - 1);
      assert s[k - 1] < t[k - 1];
    }
  }

  lemma {:induction false} BelowWithHeads(head: char, s: string, t: string, a: string, b: string)
    requires a == [head] + s && b == [head] + t && TextBelow(s, t)
    ensures TextBelow(a, b)
  {
    if k :| 0 <= k < |s| && k < |t| && s[..k] == t[..k] && s[k] < t[k] {
      SameFront(head, s, t, a, b, k);
      assert a[k + 1] < b[k + 1];
    }
  }

  lemma {:induction false} SameFront(head: char, s: string, t: string, a: string, b: string, k: nat)
    requires a == [head] + s && b == [head] + t && k <= |s| && k <= |t|
    ensures a[..k + 1] == b[..k + 1] <==> s[..k] == t[..k]
  {
    assert a[..k + 1] == [head] + s[..k] && b[..k + 1] == [head] + t[..k];
    assert a[..k + 1][1..] == s[..k] && b[..k + 1][1..] == t[..k];
  }

  lemma {:induction false} TextBelowHead(a: string, b: string)
    requires a != "" && b != "" && a[0] != b[0]
    ensures TextBelow(a, b) <==> a[0] < b[0]
  {
    forall k | 0 < k < |a| && k < |b|
      ensures a[..k] != b[..k]
    {
      assert a[..k][0] == a[0] && b[..k][0] == b[0];
    }
    if a[0] < b[0] {
      assert a[..0] == b[..0];
    }
  }

  /** The comparison of strings is the order of dictionaries. */
  lemma {:induction false} StringsInOrder(a: string, b: string)
    ensures CompareStrings(a, b) < 0 <==> TextBelow(a, b)
    decreases |a|
  {
    if a != "" && b != "" {
      if a[0] == b[0] {
        var s, t := a[1..], b[1..];
        assert a == [a[0]] + s && b == [a[0]] + t;
        StringsInOrder(s, t);
        if TextBelow(a, b) {
          TailsBelow(a[0], s, t, a, b);
        }
        if TextBelow(s, t) {
          BelowWithHeads(a[0], s, t, a, b);
        }
      } else {
        TextBelowHead(a, b);
      }
    }
  }

  lemma PartsZero(p: Part, q: Part)
    ensures CompareParts(p, q) == 0 <==> p == q
    ensures CompareParts(q, p) == -CompareParts(p, q)
  {
    if p.Word? && q.Word? {
      StringsZero(p.w, q.w);
    }
  }

  lemma PartsTransitive(p: Part, q: Part, r: Part)
    requires CompareParts(p, q) <= 0 && CompareParts(q, r) <= 0
    ensures CompareParts(p, r) <= 0
    ensures CompareParts(p, q) < 0 || CompareParts(q, r) < 0 ==> CompareParts(p, r) < 0
  {
    if p.Word? && q.Word? && r.Word? {
      StringsTransitive(p.w, q.w, r.w);
    }
  }

  // ---------- keys are weakly ordered ----------

  /** One step of the comparison, also past the end of both keys. */
  lemma LexStep(pad: Part, a: seq<Part>, b: seq<Part>, k: nat)
    ensures var c := CompareParts(At(pad, a, k), At(pad, b, k));
            Lex(pad, a, b, k) == if c != 0 then c else Lex(pad, a, b, k + 1)
  {
    PartsZero(pad, pad);
  }

  lemma {:induction false} Antisymmetric(pad: Part, a: seq<Part>, b: seq<Part>, k: nat)
    ensures Lex(pad, b, a, k) == -Lex(pad, a, b, k)
    decreases Longer(a, b) - k
  {
    if k < Longer(a, b) {
      PartsZero(At(pad, a, k), At(pad, b, k));
      Antisymmetric(pad, a, b, k + 1);
    }
  }

  lemma {:induction false} Transitive(pad: Part, a: seq<Part>, b: seq<Part>, c: seq<Part>, k: nat)
    requires Lex(pad, a, b, k) <= 0 && Lex(pad, b, c, k) <= 0
    ensures Lex(pad, a, c, k) <= 0
    ensures Lex(pad, a, b, k) < 0 || Lex(pad, b, c, k) < 0 ==> Lex(pad, a, c, k) < 0
    decreases |a| + |b| + |c| - k
  {
    if k < |a| + |b| + |c| {
      LexStep(pad, a, b, k);
      LexStep(pad, b, c, k);
      LexStep(pad, a, c, k);
      PartsZero(At(pad, a, k), At(pad, b, k));
      PartsZero(At(pad, b, k), At(pad, c, k));
      PartsTransitive(At(pad, a, k), At(pad, b, k), At(pad, c, k));
      PartsZero(At(pad, a, k), At(pad, c, k));
      if At(pad, a, k) == At(pad, b, k) == At(pad, c, k) {
        Transitive(pad, a, b, c, k + 1);
      }
    }
  }

  /** The comparison decides at the first difference of the padded keys. */
  lemma {:induction false} FirstDifference(pad: Part, a: seq<Part>, b: seq<Part>, k: nat)
    requires forall i: nat :: i < k ==> At(pad, a, i) == At(pad, b, i)
    ensures Lex(pad, a, b, k) < 0 ==> Precedes(pad, a, b)
    ensures Lex(pad, a, b, k) == 0 ==> SameStream(pad, a, b)
    decreases Longer(a, b) - k
  {
    if k < Longer(a, b) {
      PartsZero(At(pad, a, k), At(pad, b, k));
      if At(pad, a, k) == At(pad, b, k) {
        FirstDifference(pad, a, b, k + 1);
      }
    }
  }

  lemma OneDifference(pad: Part, a: seq<Part>, b: seq<Part>)
    requires Precedes(pad, a, b)
    ensures !Precedes(pad, b, a) && !SameStream(pad, a, b)
  {
    var k: nat :| CompareParts(At(pad, a, k), At(pad, b, k)) < 0
        && forall i: nat :: i < k ==> At(pad, a, i) == At(pad, b, i);
    PartsZero(At(pad, a, k), At(pad, b, k));
    if Precedes(pad, b, a) {
      var j: nat :| CompareParts(At(pad, b, j), At(pad, a, j)) < 0
          && forall i: nat :: i < j ==> At(pad, b, i) == At(pad, a, i);
      PartsZero(At(pad, b, j), At(pad, a, j));
    }
  }

  /** The comparison is the lexicographic order of the padded keys. */
  lemma CompareIsLexicographic(pad: Part, a: seq<Part>, b: seq<Part>)
    ensures Compare(pad, a, b) < 0 <==> Precedes(pad, a, b)
    ensures Compare(pad, a, b) == 0 <==> SameStream(pad, a, b)
    ensures Compare(pad, a, b) > 0 <==> Precedes(pad, b, a)
  {
    Antisymmetric(pad, a, b, 0);
    FirstDifference(pad, a, b, 0);
    FirstDifference(pad, b, a, 0);
    if Precedes(pad, a, b) {
      OneDifference(pad, a, b);
    }
    if Precedes(pad, b, a) {
      OneDifference(pad, b, a);
    }
  }

  // ---------- sorting ----------

  /** What a comparison function must satisfy for sorting with it to make sense. */
  ghost predicate StrictWeak<T(!new)>(less: (T, T) -> bool) {
    && (forall x, y :: less(x, y) ==> !less(y, x))
    && (forall x, y, z :: less(x, z) ==> less(x, y) || less(y, z))
  }

  ghost predicate Sorted<T>(s: seq<T>, less: (T, T) -> bool) {
    forall i, j :: 0 <= i < j < |s| ==> !less(s[j], s[i])
  }

  lemma MultisetSwap<T>(s: seq<T>, i: nat, j: nat)
    requires i < |s| && j < |s|
    ensures multiset(s[i := s[j]][j := s[i]]) == multiset(s)
  {
  }

  method Swap<T>(a: array<T>, i: nat, j: nat)
    requires i < a.Length && j < a.Length
    modifies a
    ensures a[..] == old(a[..])[i := old(a[j])][j := old(a[i])]
    ensures multiset(a[..]) == multiset(old(a[..]))
  {
    MultisetSwap(a[..], i, j);
    a[i], a[j] := a[j], a[i];
    assert a[..] == old(a[..])[i := old(a[j])][j := old(a[i])];
  }

  /** The first `i + 1` items are in order but for the one at `j`, which may belong further down. */
  ghost predicate Sinking<T>(s: seq<T>, less: (T, T) -> bool, i: nat, j: nat)
    requires j <= i < |s|
  {
    && (forall p, q :: 0 <= p < q <= i && q != j ==> !less(s[q], s[p]))
  }

  lemma SinkStep<T(!new)>(s: seq<T>, less: (T, T) -> bool, i: nat, j: nat)
    requires 0 < j <= i < |s| && StrictWeak(less) && Sinking(s, less, i, j) && less(s[j], s[j - 1])
    ensures Sinking(s[j := s[j - 1]][j - 1 := s[j]], less, i, j - 1)
  {
  }

  lemma Sunk<T(!new)>(s: seq<T>, less: (T, T) -> bool, i: nat, j: nat)
    requires j <= i < |s| && StrictWeak(less) && Sinking(s, less, i, j) && (j > 0 ==> !less(s[j], s[j - 1]))
    ensures Sorted(s[..i + 1], less)
  {
    forall p, q | 0 <= p < q <= i
      ensures !less(s[q], s[p])
    {
      if q == j && p < j - 1 {
        assert !less(s[j - 1], s[p]);
      }
    }
  }

  method Sink<T(!new)>(a: array<T>, less: (T, T) -> bool, i: nat)
    requires i < a.Length && StrictWeak(less) && Sorted(a[..i], less)
    modifies a
    ensures Sorted(a[..i + 1], less) && multiset(a[..]) == multiset(old(a[..]))
  {
    var j := i;
    assert forall p :: 0 <= p < i ==> a[..i][p] == a[..][p];
    while j > 0 && less(a[j], a[j - 1])
      invariant 0 <= j <= i && Sinking(a[..], less, i, j)
      invariant multiset(a[..]) == multiset(old(a[..]))
    {
      SinkStep(a[..], less, i, j);
      Swap(a, j, j - 1);
      j := j - 1;
    }
    Sunk(a[..], less, i, j);
  }

  /** The sort of Go's library on a short slice; by `SortedUnique` a longer slice, which the library sorts
      in another way, gets equal items in the same places. */
  method Sort<T(!new)>(a: array<T>, less: (T, T) -> bool)
    requires StrictWeak(less)
    modifies a
    ensures Sorted(a[..], less) && multiset(a[..]) == multiset(old(a[..]))
  {
    for i := 0 to a.Length
      invariant Sorted(a[..i], less) && multiset(a[..]) == multiset(old(a[..]))
    {
      Sink(a, less, i);
    }
    assert a[..a.Length] == a[..];
  }

  /** The number of items that are not above `pivot`. */
  function NotAbove<T>(s: seq<T>, less: (T, T) -> bool, pivot: T): (n: nat)
    ensures n <= |s|
  {
    if s == [] then 0 else NotAbove(s[1..], less, pivot) + if less(pivot, s[0]) then 0 else 1
  }

  lemma {:induction false} NotAboveConcat<T>(a: seq<T>, b: seq<T>, less: (T, T) -> bool, pivot: T)
    ensures NotAbove(a + b, less, pivot) == NotAbove(a, less, pivot) + NotAbove(b, less, pivot)
  {
    if a == [] {
      assert a + b == b;
    } else {
      NotAboveConcat(a[1..], b, less, pivot);
      assert (a + b)[1..] == a[1..] + b;
    }
  }

  function Without<T>(t: seq<T>, i: nat): seq<T>
    requires i < |t|
  {
    t[..i] + t[i + 1..]
  }

  lemma MultisetWithout<T>(t: seq<T>, i: nat)
    requires i < |t|
    ensures multiset(t) == multiset(Without(t, i)) + multiset{t[i]}
  {
    var a, b := t[..i], t[i + 1..];
    assert t == a + ([t[i]] + b);
  }

  lemma Cancel<T>(a: multiset<T>, b: multiset<T>, x: T)
    requires a + multiset{x} == b + multiset{x}
    ensures a == b
  {
    assert a == (a + multiset{x}) - multiset{x};
    assert b == (b + multiset{x}) - multiset{x};
  }

  lemma WithoutBoth<T>(s: seq<T>, i: nat, t: seq<T>, j: nat)
    requires i < |s| && j < |t| && s[i] == t[j] && multiset(s) == multiset(t)
    ensures multiset(Without(s, i)) == multiset(Without(t, j))
  {
    MultisetWithout(s, i);
    MultisetWithout(t, j);
    Cancel(multiset(Without(s, i)), multiset(Without(t, j)), s[i]);
  }

  lemma NotAboveWithout<T>(t: seq<T>, less: (T, T) -> bool, pivot: T, i: nat)
    requires i < |t|
    ensures NotAbove(t, less, pivot) == NotAbove(Without(t, i), less, pivot) + if less(pivot, t[i]) then 0 else 1
  {
    assert t == t[..i] + t[i..];
    assert t[i..][1..] == t[i + 1..];
    NotAboveConcat(t[..i], t[i..], less, pivot);
    NotAboveConcat(t[..i], t[i + 1..], less, pivot);
  }

  lemma IndexIn<T>(t: seq<T>, x: T) returns (i: nat)
    requires x in multiset(t)
    ensures i < |t| && t[i] == x
  {
    assert x in t;
    i :| 0 <= i < |t| && t[i] == x;
  }

  lemma {:induction false} NotAbovePermuted<T(!new)>(s: seq<T>, t: seq<T>, less: (T, T) -> bool, pivot: T)
    requires multiset(s) == multiset(t)
    ensures NotAbove(s, less, pivot) == NotAbove(t, less, pivot)
    decreases |s|
  {
    assert |multiset(s)| == |s| && |multiset(t)| == |t|;
    if s != [] {
      assert s[0] in multiset(s);
      var i := IndexIn(t, s[0]);
      WithoutBoth(s, 0, t, i);
      NotAbovePermuted(Without(s, 0), Without(t, i), less, pivot);
      NotAboveWithout(s, less, pivot, 0);
      NotAboveWithout(t, less, pivot, i);
    }
  }

  lemma {:induction false} NotAboveAll<T(!new)>(s: seq<T>, less: (T, T) -> bool, pivot: T)
    ensures (forall x :: x in s ==> !less(pivot, x)) ==> NotAbove(s, less, pivot) == |s|
    ensures (forall x :: x in s ==> less(pivot, x)) ==> NotAbove(s, less, pivot) == 0
  {
    if s != [] {
      NotAboveAll(s[1..], less, pivot);
    }
  }

  /** Any two sorted arrangements of the same items agree, item by item, up to items the order does not tell apart. */
  lemma SortedUnique<T(!new)>(s: seq<T>, t: seq<T>, less: (T, T) -> bool, i: nat)
    requires StrictWeak(less) && Sorted(s, less) && Sorted(t, less) && multiset(s) == multiset(t)
    requires i < |s| && i < |t|
    ensures !less(s[i], t[i])
  {
    if less(s[i], t[i]) {
      NotAbovePermuted(s, t, less, s[i]);
      assert s == s[..i + 1] + s[i + 1..] && t == t[..i] + t[i..];
      NotAboveConcat(s[..i + 1], s[i + 1..], less, s[i]);
      NotAboveConcat(t[..i], t[i..], less, s[i]);
      forall x | x in s[..i + 1]
        ensures !less(s[i], x)
      {
        var p :| 0 <= p <= i && s[p] == x;
      }
      forall x | x in t[i..]
        ensures less(s[i], x)
      {
        var q :| i <= q < |t| && t[q] == x;
        assert !less(t[q], t[i]);
      }
      NotAboveAll(s[..i + 1], less, s[i]);
      NotAboveAll(t[i..], less, s[i]);
    }
  }
}
