/** LINQ GroupBy: groups in order of first appearance, members in source order. */
module Grouping {
  import opened StableSort

  datatype Group<K, T> = Group(key: K, members: seq<T>)

  /** The position of the group with key k, or -1 when there is none. */
  function FindGroup<K(==), T>(g: seq<Group<K, T>>, k: K): (i: int)
    ensures -1 <= i < |g|
    ensures i >= 0 ==> g[i].key == k
    ensures i == -1 ==> forall j :: 0 <= j < |g| ==> g[j].key != k
  {
    if g == [] then -1
    else if g[|g| - 1].key == k then |g| - 1
    else FindGroup(g[..|g| - 1], k)
  }

  /** Adds x to the group of key k, opening a new last group when none exists. */
  function AddToGroups<K(==), T>(g: seq<Group<K, T>>, k: K, x: T): seq<Group<K, T>> {
    var i := FindGroup(g, k);
    if i >= 0 then g[i := Group(k, g[i].members + [x])] else g + [Group(k, [x])]
  }

  ghost predicate KeysDistinct<K, T>(g: seq<Group<K, T>>) {
    forall i, j :: 0 <= i < j < |g| ==> g[i].key != g[j].key
  }

  ghost predicate MembersFiltered<T, K>(s: seq<T>, keyOf: T -> K, g: seq<Group<K, T>>) {
    forall i :: 0 <= i < |g| ==> g[i].members == FilterKey(s, keyOf, g[i].key)
  }

  ghost predicate NonEmptyGroups<K, T>(g: seq<Group<K, T>>) {
    forall i :: 0 <= i < |g| ==> |g[i].members| > 0
  }

  ghost predicate Covers<T, K>(s: seq<T>, keyOf: T -> K, g: seq<Group<K, T>>) {
    forall j :: 0 <= j < |s| ==> FindGroup(g, keyOf(s[j])) >= 0
  }

  /**
   * The groups have distinct keys, every element of s lies in the group of its
   * key, and each group holds exactly the elements of its key, in source order.
   */
  function GroupBy<T, K(==)>(s: seq<T>, keyOf: T -> K): (g: seq<Group<K, T>>)
    ensures KeysDistinct(g)
    ensures MembersFiltered(s, keyOf, g)
    ensures NonEmptyGroups(g)
    ensures Covers(s, keyOf, g)
  {
    if s == [] then []
    else
      var s', x := s[..|s| - 1], s[|s| - 1];
      var g' := GroupBy(s', keyOf);
      assert s == s' + [x];
      StepDistinct(g', keyOf(x), x);
      StepMembers(s', x, keyOf, g');
      StepCovers(s', x, keyOf, g');
      AddToGroups(g', keyOf(x), x)
  }

  lemma StepDistinct<K, T>(g': seq<Group<K, T>>, k: K, x: T)
    requires KeysDistinct(g')
    ensures KeysDistinct(AddToGroups(g', k, x))
  {
  }

  lemma FilterSnoc<T, K>(s': seq<T>, x: T, keyOf: T -> K, c: K)
    ensures FilterKey(s' + [x], keyOf, c) == FilterKey(s', keyOf, c) + (if keyOf(x) == c then [x] else [])
  {
    FilterKeyAppend(s', [x], keyOf, c);
    assert [x][1..] == [];
  }

  lemma StepMembers<T, K>(s': seq<T>, x: T, keyOf: T -> K, g': seq<Group<K, T>>)
    requires KeysDistinct(g') && MembersFiltered(s', keyOf, g') && Covers(s', keyOf, g')
    ensures MembersFiltered(s' + [x], keyOf, AddToGroups(g', keyOf(x), x))
    ensures NonEmptyGroups(AddToGroups(g', keyOf(x), x)) <== NonEmptyGroups(g')
  {
    var k := keyOf(x);
    var g := AddToGroups(g', k, x);
    forall i | 0 <= i < |g| ensures g[i].members == FilterKey(s' + [x], keyOf, g[i].key) {
      FilterSnoc(s', x, keyOf, g[i].key);
      if FindGroup(g', k) == -1 && i == |g'| {
        forall j | 0 <= j < |s'| ensures keyOf(s'[j]) != k {
          assert FindGroup(g', keyOf(s'[j])) >= 0;
        }
        FilterKeyNone(s', keyOf, k);
      }
    }
  }

  lemma StepCovers<T, K>(s': seq<T>, x: T, keyOf: T -> K, g': seq<Group<K, T>>)
    requires Covers(s', keyOf, g')
    ensures Covers(s' + [x], keyOf, AddToGroups(g', keyOf(x), x))
  {
    var g := AddToGroups(g', keyOf(x), x);
    forall c | FindGroup(g', c) >= 0 ensures FindGroup(g, c) >= 0 {
      var f := FindGroup(g', c);
      assert g[f].key == c;
    }
    assert FindGroup(g, keyOf(x)) >= 0 by {
      var f := FindGroup(g', keyOf(x));
      if f >= 0 { assert g[f].key == keyOf(x); } else { assert g[|g'|].key == keyOf(x); }
    }
    forall j | 0 <= j < |s' + [x]| ensures FindGroup(g, keyOf((s' + [x])[j])) >= 0 {
      if j < |s'| {
        assert (s' + [x])[j] == s'[j];
      }
    }
  }

  /** With pairwise distinct keys every group is a singleton, in source order. */
  function Singleton<T, K>(keyOf: T -> K): T -> Group<K, T> {
    x => Group(keyOf(x), [x])
  }

  ghost predicate KeysOfDistinct<T, K>(s: seq<T>, keyOf: T -> K) {
    forall i, j :: 0 <= i < j < |s| ==> keyOf(s[i]) != keyOf(s[j])
  }

  lemma {:induction false} MapSeqSnoc<A, B>(s: seq<A>, x: A, f: A -> B)
    ensures MapSeq(s + [x], f) == MapSeq(s, f) + [f(x)]
  {
    var l, r := MapSeq(s + [x], f), MapSeq(s, f) + [f(x)];
    assert |l| == |r|;
    forall i | 0 <= i < |l| ensures l[i] == r[i] {
      if i < |s| { assert (s + [x])[i] == s[i]; }
    }
  }

  lemma NoSingletonGroup<T, K>(s: seq<T>, keyOf: T -> K, k: K)
    requires forall i :: 0 <= i < |s| ==> keyOf(s[i]) != k
    ensures FindGroup(MapSeq(s, Singleton(keyOf)), k) == -1
  {
  }

  lemma {:induction false} GroupByDistinct<T, K>(s: seq<T>, keyOf: T -> K)
    requires KeysOfDistinct(s, keyOf)
    ensures GroupBy(s, keyOf) == MapSeq(s, Singleton(keyOf))
  {
    if s != [] {
      var s', x := s[..|s| - 1], s[|s| - 1];
      assert s == s' + [x];
      GroupByDistinct(s', keyOf);
      forall i | 0 <= i < |s'| ensures keyOf(s'[i]) != keyOf(x) {
        assert s'[i] == s[i];
      }
      NoSingletonGroup(s', keyOf, keyOf(x));
      MapSeqSnoc(s', x, Singleton(keyOf));
    }
  }

  /** Two elements with one key put at least two members into that key's group. */
  lemma SharedKeyGroup<T, K>(s: seq<T>, keyOf: T -> K, i: nat, j: nat)
    requires i < j < |s| && keyOf(s[i]) == keyOf(s[j])
    ensures var g := GroupBy(s, keyOf);
      var f := FindGroup(g, keyOf(s[i]));
      0 <= f && |g[f].members| >= 2
  {
    FilterKeyTwo(s, keyOf, keyOf(s[i]), i, j);
  }
}
