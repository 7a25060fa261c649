/** Facts about Go slices used as lists of keys: no element twice, and a slice with
    every occurrence of one element dropped. */
module Lists {

  predicate NoDuplicates<T(==)>(s: seq<T>)
  {
    forall i, j | 0 <= i < j < |s| :: s[i] != s[j]
  }

  /** The slice with every occurrence of x dropped, keeping the order of the rest: the
      `newAliases` filter loop of `MultiKeyHashMap.Remove`. */
  function Without<T(==)>(s: seq<T>, x: T): (r: seq<T>)
    ensures |r| <= |s|
  {
    if s == [] then []
    else Without(s[..|s| - 1], x) + (if s[|s| - 1] == x then [] else [s[|s| - 1]])
  }

  /** Dropping x keeps exactly the other elements. */
  lemma {:induction false} WithoutMembers<T>(s: seq<T>, x: T)
    ensures forall y :: y in Without(s, x) <==> y in s && y != x
  {
    if s != [] {
      var init := s[..|s| - 1];
      WithoutMembers(init, x);
      assert s == init + [s[|s| - 1]];
      forall y
        ensures y in Without(s, x) <==> y in s && y != x
      {
        assert y in s <==> y in init || y == s[|s| - 1];
      }
    }
  }

  /** Dropping keeps a list without duplicates free of duplicates. */
  lemma {:induction false} WithoutNoDuplicates<T>(s: seq<T>, x: T)
    requires NoDuplicates(s)
    ensures NoDuplicates(Without(s, x))
  {
    if s != [] {
      var init := s[..|s| - 1];
      var last := s[|s| - 1];
      assert NoDuplicates(init);
      WithoutNoDuplicates(init, x);
      if last != x {
        WithoutMembers(init, x);
        assert last !in init;
        assert last !in Without(init, x);
      }
    }
  }
}
