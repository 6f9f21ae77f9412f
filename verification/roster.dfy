/** The region page's roster entries and the order it shows them in:
    `validPokemonData.sort((a, b) => (a.id || 0) - (b.id || 0))`.

    `Array.prototype.sort` is stable, so the order is the stable sort on the
    key `id || 0`. `SortedById` is that sort written as an insertion sort on
    sequences; the lemmas prove it sorted, a permutation of its input and
    stable, and the in-place method `SortById` is proved to produce it. */
module Roster {
  import opened Wrappers

  /** One roster entry: the base species name, an image URL (possibly empty)
      and the species number taken from the species URL, if any. */
  datatype Member = Member(name: string, image: string, id: Option<nat>)

  /** The sort key `id || 0`: a missing id counts as 0. */
  function Key(m: Member): (k: nat)
  {
    if m.id.Some? then m.id.value else 0
  }

  ghost predicate SortedByKey(s: seq<Member>)
  {
    forall i, j :: 0 <= i < j < |s| ==> Key(s[i]) <= Key(s[j])
  }

  /** The members of `s` whose key is `k`, in their order in `s`. Two
      sequences with the same `WithKey` for every key list equal-keyed
      members in the same relative order. */
  function WithKey(s: seq<Member>, k: nat): (r: seq<Member>)
  {
    if s == [] then []
    else WithKey(s[..|s| - 1], k) + (if Key(s[|s| - 1]) == k then [s[|s| - 1]] else [])
  }

  /** Insert `x` into sorted `s` after every member whose key is not larger. */
  function Insert(s: seq<Member>, x: Member): (r: seq<Member>)
  {
    if s == [] then [x]
    else if Key(s[|s| - 1]) <= Key(x) then s + [x]
    else Insert(s[..|s| - 1], x) + [s[|s| - 1]]
  }

  /** The stable sort on `Key`. */
  function SortedById(s: seq<Member>): (r: seq<Member>)
  {
    if s == [] then [] else Insert(SortedById(s[..|s| - 1]), s[|s| - 1])
  }

  /** One step of `Insert` on a non-empty sequence. */
  lemma InsertStep(s: seq<Member>, x: Member)
    requires s != []
    ensures Key(s[|s| - 1]) <= Key(x) ==> Insert(s, x) == s + [x]
    ensures Key(s[|s| - 1]) > Key(x) ==> Insert(s, x) == Insert(s[..|s| - 1], x) + [s[|s| - 1]]
  {
  }

  /** One step of `SortedById` on a non-empty sequence. */
  lemma SortedByIdStep(s: seq<Member>)
    requires s != []
    ensures SortedById(s) == Insert(SortedById(s[..|s| - 1]), s[|s| - 1])
  {
  }

  /** `WithKey` of a sequence extended by one member. */
  lemma WithKeySnoc(s: seq<Member>, y: Member, k: nat)
    ensures WithKey(s + [y], k) == WithKey(s, k) + (if Key(y) == k then [y] else [])
  {
    assert (s + [y])[..|s|] == s;
  }

  /** A non-empty sequence is its prefix and its last member. */
  lemma SplitLast(s: seq<Member>)
    requires s != []
    ensures s == s[..|s| - 1] + [s[|s| - 1]]
    ensures multiset(s) == multiset(s[..|s| - 1]) + multiset{s[|s| - 1]}
  {
    assert s == s[..|s| - 1] + [s[|s| - 1]];
  }

  lemma {:induction false} InsertPermutes(s: seq<Member>, x: Member)
    ensures multiset(Insert(s, x)) == multiset(s) + multiset{x}
  {
    if s != [] {
      InsertStep(s, x);
      SplitLast(s);
      if Key(s[|s| - 1]) > Key(x) {
        InsertPermutes(s[..|s| - 1], x);
      }
    }
  }

  /** Appending a member whose key bounds every key keeps the order. */
  lemma AppendLargest(s: seq<Member>, z: Member)
    requires SortedByKey(s)
    requires forall y <- s :: Key(y) <= Key(z)
    ensures SortedByKey(s + [z])
  {
    var r := s + [z];
    forall i, j | 0 <= i < j < |r| ensures Key(r[i]) <= Key(r[j]) {
      if j == |s| {
        assert r[i] in s;
      }
    }
  }

  /** Inserting keeps every key below a common bound. */
  lemma {:induction false} InsertBounded(s: seq<Member>, x: Member, z: Member)
    requires forall y <- s :: Key(y) <= Key(z)
    requires Key(x) <= Key(z)
    ensures forall y <- Insert(s, x) :: Key(y) <= Key(z)
  {
    if s != [] && Key(s[|s| - 1]) > Key(x) {
      InsertBounded(s[..|s| - 1], x, z);
    }
  }

  lemma {:induction false} InsertSorted(s: seq<Member>, x: Member)
    requires SortedByKey(s)
    ensures SortedByKey(Insert(s, x))
  {
    if s != [] {
      var n := |s|;
      var last := s[n - 1];
      if Key(last) <= Key(x) {
        forall y <- s ensures Key(y) <= Key(x) {
          var i :| 0 <= i < n && s[i] == y;
          assert Key(s[i]) <= Key(last);
        }
        AppendLargest(s, x);
      } else {
        var init := s[..n - 1];
        InsertSorted(init, x);
        forall y <- init ensures Key(y) <= Key(last) {
          var i :| 0 <= i < n - 1 && init[i] == y;
          assert Key(s[i]) <= Key(last);
        }
        InsertBounded(init, x, last);
        AppendLargest(Insert(init, x), last);
      }
    }
  }

  /** One insertion step puts `x` after every member with its key. */
  lemma {:induction false} InsertStable(s: seq<Member>, x: Member, k: nat)
    ensures WithKey(Insert(s, x), k) == WithKey(s, k) + (if Key(x) == k then [x] else [])
  {
    if s == [] {
      WithKeySnoc([], x, k);
      assert [] + [x] == [x];
    } else {
      var init, last := s[..|s| - 1], s[|s| - 1];
      InsertStep(s, x);
      if Key(last) <= Key(x) {
        WithKeySnoc(s, x, k);
      } else {
        InsertStable(init, x, k);
        WithKeySnoc(Insert(init, x), last, k);
        WithKeySnoc(init, last, k);
        SplitLast(s);
      }
    }
  }

  lemma {:induction false} SortedByIdSorted(s: seq<Member>)
    ensures SortedByKey(SortedById(s))
  {
    if s != [] {
      SortedByIdStep(s);
      SortedByIdSorted(s[..|s| - 1]);
      InsertSorted(SortedById(s[..|s| - 1]), s[|s| - 1]);
    }
  }

  lemma {:induction false} SortedByIdPermutes(s: seq<Member>)
    ensures multiset(SortedById(s)) == multiset(s)
  {
    if s != [] {
      var init, last := s[..|s| - 1], s[|s| - 1];
      SortedByIdStep(s);
      SortedByIdPermutes(init);
      InsertPermutes(SortedById(init), last);
      SplitLast(s);
    }
  }

  lemma {:induction false} SortedByIdStable(s: seq<Member>, k: nat)
    ensures WithKey(SortedById(s), k) == WithKey(s, k)
  {
    if s != [] {
      SortedByIdStep(s);
      SortedByIdStable(s[..|s| - 1], k);
      InsertStable(SortedById(s[..|s| - 1]), s[|s| - 1], k);
      WithKeySnoc(s[..|s| - 1], s[|s| - 1], k);
      SplitLast(s);
    }
  }

  /** The stable sort's output is ordered by key, is a permutation of its
      input, and keeps the input order among members with equal keys. */
  lemma SortedByIdCorrect(s: seq<Member>)
    ensures SortedByKey(SortedById(s))
    ensures multiset(SortedById(s)) == multiset(s)
    ensures forall k :: WithKey(SortedById(s), k) == WithKey(s, k)
  {
    SortedByIdSorted(s);
    SortedByIdPermutes(s);
    forall k ensures WithKey(SortedById(s), k) == WithKey(s, k) {
      SortedByIdStable(s, k);
    }
  }

  /** Members without an id come before every member with a positive id. */
  lemma MissingIdsFirst(s: seq<Member>, i: nat, j: nat)
    requires i < |SortedById(s)| && j < |SortedById(s)|
    requires SortedById(s)[i].id.None?
    requires SortedById(s)[j].id.Some? && SortedById(s)[j].id.value > 0
    ensures i < j
  {
    SortedByIdSorted(s);
  }

  /** One step of the in-place sort: `a[..i]` is already the sorted prefix;
      `a[i]` is shifted left past every larger key. */
  method InsertAt(a: array<Member>, i: nat)
    requires i < a.Length
    modifies a
    ensures a[..i + 1] == Insert(old(a[..i]), old(a[i]))
    ensures a[i + 1..] == old(a[i + 1..])
  {
    var x := a[i];
    ghost var sorted := a[..i];
    var j := i;
    while j > 0 && Key(a[j - 1]) > Key(x)
      invariant 0 <= j <= i
      invariant forall k :: 0 <= k < j ==> a[k] == sorted[k]
      invariant forall k :: j < k <= i ==> a[k] == sorted[k - 1]
      invariant forall k :: i < k < a.Length ==> a[k] == old(a[k])
      invariant forall k :: j <= k < i ==> Key(sorted[k]) > Key(x)
    {
      a[j] := a[j - 1];
      j := j - 1;
    }
    a[j] := x;
    PlacedIsInsert(sorted, x, j, a[..i + 1]);
    assert a[i + 1..] == old(a[i + 1..]);
  }

  /** The array contents after the shifting loop and the final write are the
      insertion of `x`. */
  lemma PlacedIsInsert(sorted: seq<Member>, x: Member, j: nat, b: seq<Member>)
    requires j <= |sorted| && |b| == |sorted| + 1
    requires j == 0 || Key(sorted[j - 1]) <= Key(x)
    requires forall k :: j <= k < |sorted| ==> Key(sorted[k]) > Key(x)
    requires forall k :: 0 <= k < j ==> b[k] == sorted[k]
    requires b[j] == x
    requires forall k :: j < k < |b| ==> b[k] == sorted[k - 1]
    ensures b == Insert(sorted, x)
  {
    InsertAtPoint(sorted, x, j);
    var r := sorted[..j] + [x] + sorted[j..];
    forall k | 0 <= k < |b| ensures b[k] == r[k] {
      if k > j {
        assert r[k] == sorted[k - 1];
      }
    }
  }

  /** `x` lands at position `p` when the key before `p` is not larger and
      every key from `p` on is larger. */
  lemma {:induction false} InsertAtPoint(s: seq<Member>, x: Member, p: nat)
    requires p <= |s|
    requires p == 0 || Key(s[p - 1]) <= Key(x)
    requires forall k :: p <= k < |s| ==> Key(s[k]) > Key(x)
    ensures Insert(s, x) == s[..p] + [x] + s[p..]
    decreases |s|
  {
    if p == |s| {
      if s != [] {
        InsertStep(s, x);
      }
      assert s[..p] == s && s[p..] == [];
    } else {
      InsertStep(s, x);
      var init := s[..|s| - 1];
      InsertAtPoint(init, x, p);
      assert init[..p] == s[..p];
      assert init[p..] + [s[|s| - 1]] == s[p..];
    }
  }

  /** The in-place `sort` on the filtered roster. */
  method SortById(a: array<Member>)
    modifies a
    ensures a[..] == SortedById(old(a[..]))
  {
    ghost var input := a[..];
    var i := 0;
    while i < a.Length
      invariant 0 <= i <= a.Length
      invariant a[..i] == SortedById(input[..i])
      invariant a[i..] == input[i..]
    {
      assert input[..i + 1][..i] == input[..i];
      InsertAt(a, i);
      i := i + 1;
    }
    assert a[..] == a[..a.Length];
    assert input[..a.Length] == input;
  }
}
