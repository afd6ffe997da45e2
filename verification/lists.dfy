/**
 * The list operations the add-or-update controllers build their merges
 * from: `Array.from(new Set(xs))` and `xs.filter(x => !remove.includes(x))`.
 */
module Lists {

  predicate NoDuplicates<T(==)>(s: seq<T>) {
    forall i, j :: 0 <= i < j < |s| ==> s[i] != s[j]
  }

  /** `Array.from(new Set(xs))`: the first occurrence of each element, in order of first occurrence. */
  function Dedup<T(==)>(xs: seq<T>): (r: seq<T>)
    ensures |r| <= |xs|
  {
    if xs == [] then []
    else
      var d := Dedup(xs[..|xs| - 1]);
      if xs[|xs| - 1] in d then d else d + [xs[|xs| - 1]]
  }

  /** `xs.filter(x => !remove.includes(x))`. */
  function Without<T(==)>(xs: seq<T>, remove: seq<T>): (r: seq<T>)
    ensures |r| <= |xs|
  {
    if xs == [] then []
    else Without(xs[..|xs| - 1], remove) + (if xs[|xs| - 1] in remove then [] else [xs[|xs| - 1]])
  }

  lemma {:induction false} DedupSpec<T>(xs: seq<T>)
    ensures NoDuplicates(Dedup(xs))
    ensures forall x :: x in Dedup(xs) <==> x in xs
  {
    if xs != [] {
      DedupSpec(xs[..|xs| - 1]);
      assert xs == xs[..|xs| - 1] + [xs[|xs| - 1]];
    }
  }

  /** A list without duplicates is left as it is. */
  lemma {:induction false} DedupOfDistinct<T>(xs: seq<T>)
    requires NoDuplicates(xs)
    ensures Dedup(xs) == xs
  {
    if xs != [] {
      var init := xs[..|xs| - 1];
      DedupOfDistinct(init);
      assert xs[|xs| - 1] !in init;
      assert xs == init + [xs[|xs| - 1]];
    }
  }

  /** Deduplicating a concatenation keeps the deduplicated first part as a prefix. */
  lemma {:induction false} DedupPrefix<T>(a: seq<T>, b: seq<T>)
    ensures |Dedup(a)| <= |Dedup(a + b)| && Dedup(a + b)[..|Dedup(a)|] == Dedup(a)
  {
    if b != [] {
      var b' := b[..|b| - 1];
      DedupPrefix(a, b');
      assert (a + b)[..|a + b| - 1] == a + b';
    } else {
      assert a + b == a;
    }
  }

  lemma {:induction false} WithoutSpec<T>(xs: seq<T>, remove: seq<T>)
    ensures forall x :: x in Without(xs, remove) <==> x in xs && x !in remove
    ensures NoDuplicates(xs) ==> NoDuplicates(Without(xs, remove))
  {
    if xs != [] {
      var init := xs[..|xs| - 1];
      WithoutSpec(init, remove);
      assert xs == init + [xs[|xs| - 1]];
    }
  }

  lemma {:induction false} WithoutPrefix<T>(a: seq<T>, b: seq<T>, remove: seq<T>)
    ensures Without(a + b, remove) == Without(a, remove) + Without(b, remove)
  {
    if b == [] {
      assert a + b == a;
    } else {
      var b' := b[..|b| - 1];
      WithoutPrefix(a, b', remove);
      assert (a + b)[..|a + b| - 1] == a + b';
    }
  }

  /**
   * The merge both controllers perform for an existing record: the union of
   * the stored and the requested list, each element once, minus the removal list.
   */
  function Merge<T(==)>(existing: seq<T>, requested: seq<T>, remove: seq<T>): seq<T> {
    Without(Dedup(existing + requested), remove)
  }

  lemma MergeSpec<T>(existing: seq<T>, requested: seq<T>, remove: seq<T>)
    ensures NoDuplicates(Merge(existing, requested, remove))
    ensures forall x :: x in Merge(existing, requested, remove) <==>
      (x in existing || x in requested) && x !in remove
    ensures var kept := Without(Dedup(existing), remove);
      |kept| <= |Merge(existing, requested, remove)| && Merge(existing, requested, remove)[..|kept|] == kept
  {
    var d := Dedup(existing + requested);
    DedupSpec(existing + requested);
    WithoutSpec(d, remove);
    DedupPrefix(existing, requested);
    var de := Dedup(existing);
    assert d == de + d[|de|..];
    WithoutPrefix(de, d[|de|..], remove);
  }
}
