/**
 * Client-side sorting of the product table: the `compare` helper, the
 * per-column comparator handed to `Array.prototype.sort`, and the sort
 * itself, both as a specification on sequences (insertion of each element
 * in turn) and as an in-place method on an array.
 */
module ProductSort {
  import opened Wrappers

  /** One row of the product table; only the fields the table reads. */
  datatype Product = Product(id: int, sku: string, name: string, description: string, cost: int)

  /** The columns the comparator's `switch` recognises. */
  datatype Column = Id | Name | Sku | Cost

  /** The `case` of the `switch` that `active` selects; None is the `default` branch. */
  function ColumnOf(active: string): (c: Option<Column>)
    ensures c.Some? <==> active in {"id", "name", "sku", "cost"}
  {
    if active == "id" then Some(Id)
    else if active == "name" then Some(Name)
    else if active == "sku" then Some(Sku)
    else if active == "cost" then Some(Cost)
    else None
  }

  /** A sort key: `id` and `cost` compare as numbers, `name` and `sku` as strings. */
  datatype Key = Num(n: int) | Text(s: string)

  function KeyOf(c: Column, p: Product): (k: Key)
    ensures k.Num? <==> c == Id || c == Cost
  {
    match c
    case Id => Num(p.id)
    case Name => Text(p.name)
    case Sku => Text(p.sku)
    case Cost => Num(p.cost)
  }

  /** JavaScript's `<` on strings: lexicographic order on characters. */
  predicate StrLess(a: string, b: string)
    ensures StrLess(a, b) ==> a != b
    ensures a < b ==> StrLess(a, b)
  {
    if b == [] then false
    else if a == [] then true
    else if a[0] != b[0] then a[0] < b[0]
    else StrLess(a[1..], b[1..])
  }

  /** `<` on keys. Keys of different kinds never meet (one column has one kind); numbers are put first. */
  predicate KeyLess(a: Key, b: Key)
    ensures KeyLess(a, b) ==> a != b
  {
    match (a, b)
    case (Num(x), Num(y)) => x < y
    case (Text(x), Text(y)) => StrLess(x, y)
    case (Num(_), Text(_)) => true
    case (Text(_), Num(_)) => false
  }

  /**
   * `compare(a, b, isAsc)`: -1 or 1, never 0. Ascending gives -1 exactly
   * when a < b; descending gives -1 exactly when not a < b.
   */
  function Compare(a: Key, b: Key, isAsc: bool): (r: int)
    ensures r == -1 || r == 1
    ensures isAsc ==> (r == -1 <==> KeyLess(a, b))
    ensures !isAsc ==> (r == -1 <==> !KeyLess(a, b))
  {
    (if KeyLess(a, b) then -1 else 1) * (if isAsc then 1 else -1)
  }

  /** The callback passed to `data.sort`: `compare` on the active column's key, 0 for any other column. */
  function Comparator(active: string, isAsc: bool, a: Product, b: Product): (r: int)
    ensures ColumnOf(active).None? ==> r == 0
    ensures ColumnOf(active).Some? ==> r == -1 || r == 1
  {
    match ColumnOf(active)
    case Some(c) => Compare(KeyOf(c, a), KeyOf(c, b), isAsc)
    case None => 0
  }

  /** The comparator for the active column and direction, as the function value `data.sort` receives. */
  function ComparatorFor(active: string, isAsc: bool): (cmp: (Product, Product) -> int)
    ensures forall a, b :: cmp(a, b) == Comparator(active, isAsc, a, b)
  {
    (a, b) => Comparator(active, isAsc, a, b)
  }

  /**
   * Inserting `x` after the sorted run `t`: `x` moves left past every
   * element it compares below (`cmp` result < 0) and stops at the first
   * one it does not.
   */
  function Insert<T>(cmp: (T, T) -> int, t: seq<T>, x: T): (r: seq<T>)
    ensures |r| == |t| + 1
    decreases |t|
  {
    if t == [] then [x]
    else if cmp(x, t[|t| - 1]) < 0 then Insert(cmp, t[..|t| - 1], x) + [t[|t| - 1]]
    else t + [x]
  }

  /** The result of `data.sort(cmp)`: each element inserted in turn into the sorted prefix. */
  function SortBy<T>(cmp: (T, T) -> int, s: seq<T>): (r: seq<T>)
    ensures |r| == |s|
    decreases |s|
  {
    if s == [] then [] else Insert(cmp, SortBy(cmp, s[..|s| - 1]), s[|s| - 1])
  }

  // ---------------------------------------------------------------------
  // The key order is a strict total order.

  lemma {:induction false} StrLessIrreflexive(a: string)
    ensures !StrLess(a, a)
  {
    if a != [] { StrLessIrreflexive(a[1..]); }
  }

  lemma {:induction false} StrLessTransitive(a: string, b: string, c: string)
    requires StrLess(a, b) && StrLess(b, c)
    ensures StrLess(a, c)
  {
    if a != [] && a[0] == b[0] && b[0] == c[0] {
      StrLessTransitive(a[1..], b[1..], c[1..]);
    }
  }

  lemma {:induction false} StrLessTotal(a: string, b: string)
    requires a != b
    ensures StrLess(a, b) || StrLess(b, a)
  {
    if a != [] && b != [] && a[0] == b[0] {
      assert a == [a[0]] + a[1..] && b == [b[0]] + b[1..];
      StrLessTotal(a[1..], b[1..]);
    }
  }

  lemma KeyLessIrreflexive(a: Key)
    ensures !KeyLess(a, a)
  {
    if a.Text? { StrLessIrreflexive(a.s); }
  }

  lemma KeyLessTransitive(a: Key, b: Key, c: Key)
    requires KeyLess(a, b) && KeyLess(b, c)
    ensures KeyLess(a, c)
  {
    if a.Text? && b.Text? && c.Text? { StrLessTransitive(a.s, b.s, c.s); }
  }

  lemma KeyLessTotal(a: Key, b: Key)
    requires a != b
    ensures KeyLess(a, b) || KeyLess(b, a)
  {
    if a.Text? && b.Text? { StrLessTotal(a.s, b.s); }
  }

  // ---------------------------------------------------------------------
  // Order in the direction of the sort.

  /** `a` may stand before `b` in output sorted in direction `isAsc`. */
  predicate KeyLe(isAsc: bool, a: Key, b: Key)
  {
    if isAsc then !KeyLess(b, a) else !KeyLess(a, b)
  }

  lemma KeyLeTransitive(isAsc: bool, a: Key, b: Key, c: Key)
    requires KeyLe(isAsc, a, b) && KeyLe(isAsc, b, c)
    ensures KeyLe(isAsc, a, c)
  {
    if a != b && b != c {
      KeyLessTotal(a, b);
      KeyLessTotal(b, c);
      if isAsc && KeyLess(c, a) {
        KeyLessTransitive(c, a, b);
      } else if !isAsc && KeyLess(a, c) {
        KeyLessTransitive(b, a, c);
      }
    }
  }

  lemma KeyLeAntisymmetric(isAsc: bool, a: Key, b: Key)
    requires KeyLe(isAsc, a, b) && KeyLe(isAsc, b, a)
    ensures a == b
  {
    if a != b { KeyLessTotal(a, b); }
  }

  /** What the comparator's sign tells about the direction order. */
  lemma ComparatorSign(c: Column, isAsc: bool, x: Product, y: Product)
    ensures Compare(KeyOf(c, x), KeyOf(c, y), isAsc) < 0 ==> KeyLe(isAsc, KeyOf(c, x), KeyOf(c, y))
    ensures Compare(KeyOf(c, x), KeyOf(c, y), isAsc) >= 0 ==> KeyLe(isAsc, KeyOf(c, y), KeyOf(c, x))
  {
    var kx, ky := KeyOf(c, x), KeyOf(c, y);
    if kx == ky {
      KeyLessIrreflexive(kx);
    } else {
      KeyLessTotal(kx, ky);
      if KeyLess(kx, ky) && KeyLess(ky, kx) {
        KeyLessTransitive(kx, ky, kx);
        KeyLessIrreflexive(kx);
      }
    }
  }

  // ---------------------------------------------------------------------
  // Properties of the sort.

  /** Sorted in direction `isAsc` by the key of column `c`. */
  ghost predicate OrderedBy(c: Column, isAsc: bool, s: seq<Product>)
  {
    forall i, j :: 0 <= i < j < |s| ==> KeyLe(isAsc, KeyOf(c, s[i]), KeyOf(c, s[j]))
  }

  /** No two elements share a key in column `c`. */
  ghost predicate DistinctKeys(c: Column, s: seq<Product>)
  {
    forall i, j :: 0 <= i < j < |s| ==> KeyOf(c, s[i]) != KeyOf(c, s[j])
  }

  lemma {:induction false} InsertPermutation<T>(cmp: (T, T) -> int, t: seq<T>, x: T)
    ensures multiset(Insert(cmp, t, x)) == multiset(t) + multiset{x}
    decreases |t|
  {
    if t != [] && cmp(x, t[|t| - 1]) < 0 {
      InsertPermutation(cmp, t[..|t| - 1], x);
      assert t == t[..|t| - 1] + [t[|t| - 1]];
    }
  }

  /** The sort returns a permutation of its input: same elements, same count. */
  lemma {:induction false} SortPermutation<T>(cmp: (T, T) -> int, s: seq<T>)
    ensures multiset(SortBy(cmp, s)) == multiset(s)
    decreases |s|
  {
    if s != [] {
      var init, last := s[..|s| - 1], s[|s| - 1];
      SortPermutation(cmp, init);
      InsertPermutation(cmp, SortBy(cmp, init), last);
      assert s == init + [last];
    }
  }

  /** For an unrecognised column the comparator is always 0, so every element stays in place. */
  lemma {:induction false} SortUnknownColumnKeepsOrder(active: string, isAsc: bool, s: seq<Product>)
    requires ColumnOf(active).None?
    ensures SortBy(ComparatorFor(active, isAsc), s) == s
    decreases |s|
  {
    if s != [] {
      SortUnknownColumnKeepsOrder(active, isAsc, s[..|s| - 1]);
      assert s == s[..|s| - 1] + [s[|s| - 1]];
    }
  }

  /** Appending an element that every element may precede keeps a sequence ordered. */
  lemma AppendOrdered(c: Column, isAsc: bool, s: seq<Product>, y: Product)
    requires OrderedBy(c, isAsc, s)
    requires forall i :: 0 <= i < |s| ==> KeyLe(isAsc, KeyOf(c, s[i]), KeyOf(c, y))
    ensures OrderedBy(c, isAsc, s + [y])
  {
    var r := s + [y];
    forall i, j | 0 <= i < j < |r|
      ensures KeyLe(isAsc, KeyOf(c, r[i]), KeyOf(c, r[j]))
    {
      if j == |s| { assert r[i] == s[i]; }
    }
  }

  lemma {:induction false} InsertOrdered(c: Column, isAsc: bool, t: seq<Product>, x: Product)
    requires OrderedBy(c, isAsc, t)
    ensures OrderedBy(c, isAsc, Insert(ComparatorFor(ColumnName(c), isAsc), t, x))
    decreases |t|
  {
    var cmp := ComparatorFor(ColumnName(c), isAsc);
    if t != [] {
      var n := |t| - 1;
      var last := t[n];
      ComparatorSign(c, isAsc, x, last);
      if cmp(x, last) < 0 {
        var init := t[..n];
        InsertOrdered(c, isAsc, init, x);
        var u := Insert(cmp, init, x);
        InsertPermutation(cmp, init, x);
        forall i | 0 <= i < |u|
          ensures KeyLe(isAsc, KeyOf(c, u[i]), KeyOf(c, last))
        {
          assert u[i] in multiset(u);
          if u[i] != x {
            assert u[i] in multiset(init);
            var k :| 0 <= k < |init| && init[k] == u[i];
            assert t[k] == u[i];
          }
        }
        AppendOrdered(c, isAsc, u, last);
      } else {
        forall i | 0 <= i < |t|
          ensures KeyLe(isAsc, KeyOf(c, t[i]), KeyOf(c, x))
        {
          if i < n {
            KeyLeTransitive(isAsc, KeyOf(c, t[i]), KeyOf(c, last), KeyOf(c, x));
          }
        }
        AppendOrdered(c, isAsc, t, x);
      }
    }
  }

  /** The name under which the `switch` selects column `c`. */
  function ColumnName(c: Column): (active: string)
    ensures ColumnOf(active) == Some(c)
  {
    match c
    case Id => "id"
    case Name => "name"
    case Sku => "sku"
    case Cost => "cost"
  }

  /** With a recognised column, the output is ordered by that column's key in the sort's direction. */
  lemma {:induction false} SortOrdered(c: Column, isAsc: bool, s: seq<Product>)
    ensures OrderedBy(c, isAsc, SortBy(ComparatorFor(ColumnName(c), isAsc), s))
    decreases |s|
  {
    if s != [] {
      var cmp := ComparatorFor(ColumnName(c), isAsc);
      SortOrdered(c, isAsc, s[..|s| - 1]);
      InsertOrdered(c, isAsc, SortBy(cmp, s[..|s| - 1]), s[|s| - 1]);
    }
  }

  lemma MultisetRemove<T>(t: seq<T>, k: nat)
    requires k < |t|
    ensures multiset(t[..k] + t[k + 1..]) == multiset(t) - multiset{t[k]}
  {
    assert t == t[..k] + [t[k]] + t[k + 1..];
  }

  lemma MultisetTail<T>(t: seq<T>)
    requires t != []
    ensures multiset(t[1..]) == multiset(t) - multiset{t[0]}
  {
    assert t == [t[0]] + t[1..];
  }

  /** Putting back at index `k` an element whose key no other element has keeps keys distinct. */
  lemma DistinctAfterReinsert(c: Column, t: seq<Product>, k: nat)
    requires k < |t|
    requires DistinctKeys(c, t[..k] + t[k + 1..])
    requires forall e :: e in t[..k] + t[k + 1..] ==> KeyOf(c, e) != KeyOf(c, t[k])
    ensures DistinctKeys(c, t)
  {
    var t' := t[..k] + t[k + 1..];
    forall i, j | 0 <= i < j < |t|
      ensures KeyOf(c, t[i]) != KeyOf(c, t[j])
    {
      if i != k && j != k {
        var i', j' := if i < k then i else i - 1, if j < k then j else j - 1;
        assert t'[i'] == t[i] && t'[j'] == t[j];
      } else {
        var o := if i == k then j else i;
        var o' := if o < k then o else o - 1;
        assert t'[o'] == t[o];
      }
    }
  }

  /** A permutation keeps keys pairwise distinct. */
  lemma {:induction false} PermutationKeepsDistinctKeys(c: Column, s: seq<Product>, t: seq<Product>)
    requires DistinctKeys(c, s)
    requires multiset(s) == multiset(t)
    ensures DistinctKeys(c, t)
    decreases |s|
  {
    if s != [] {
      var x := s[0];
      assert x in multiset(t);
      var k :| 0 <= k < |t| && t[k] == x;
      var t' := t[..k] + t[k + 1..];
      MultisetRemove(t, k);
      MultisetTail(s);
      PermutationKeepsDistinctKeys(c, s[1..], t');
      forall e | e in t'
        ensures KeyOf(c, e) != KeyOf(c, x)
      {
        assert e in multiset(s[1..]);
        var m :| 0 <= m < |s[1..]| && s[1..][m] == e;
        assert s[m + 1] == e;
      }
      DistinctAfterReinsert(c, t, k);
    }
  }

  /** With pairwise distinct keys, ascending output strictly increases by the key. */
  lemma SortAscendingStrict(c: Column, s: seq<Product>)
    requires DistinctKeys(c, s)
    ensures var r := SortBy(ComparatorFor(ColumnName(c), true), s);
      forall i, j :: 0 <= i < j < |r| ==> KeyLess(KeyOf(c, r[i]), KeyOf(c, r[j]))
  {
    var r := SortBy(ComparatorFor(ColumnName(c), true), s);
    SortOrdered(c, true, s);
    SortPermutation(ComparatorFor(ColumnName(c), true), s);
    PermutationKeepsDistinctKeys(c, s, r);
    forall i, j | 0 <= i < j < |r|
      ensures KeyLess(KeyOf(c, r[i]), KeyOf(c, r[j]))
    {
      KeyLessTotal(KeyOf(c, r[i]), KeyOf(c, r[j]));
    }
  }

  /** Of two orderings of the same elements, one with distinct keys, the first elements agree. */
  lemma OrderedPermutationSameHead(c: Column, isAsc: bool, a: seq<Product>, b: seq<Product>)
    requires OrderedBy(c, isAsc, a) && OrderedBy(c, isAsc, b)
    requires DistinctKeys(c, a)
    requires multiset(a) == multiset(b) && a != []
    ensures b != [] && a[0] == b[0]
  {
    assert a[0] in multiset(b);
    var k :| 0 <= k < |b| && b[k] == a[0];
    assert b[0] in multiset(a);
    var m :| 0 <= m < |a| && a[m] == b[0];
    if m != 0 {
      assert KeyLe(isAsc, KeyOf(c, a[0]), KeyOf(c, a[m]));
      if k != 0 {
        assert KeyLe(isAsc, KeyOf(c, b[0]), KeyOf(c, b[k]));
      }
      KeyLeAntisymmetric(isAsc, KeyOf(c, a[0]), KeyOf(c, a[m]));
      assert false;
    }
  }

  /** Two orderings of the same elements, one of them with distinct keys, are the same sequence. */
  lemma {:induction false} OrderedPermutationUnique(c: Column, isAsc: bool, a: seq<Product>, b: seq<Product>)
    requires OrderedBy(c, isAsc, a) && OrderedBy(c, isAsc, b)
    requires DistinctKeys(c, a)
    requires multiset(a) == multiset(b)
    ensures a == b
    decreases |a|
  {
    if a != [] {
      OrderedPermutationSameHead(c, isAsc, a, b);
      MultisetTail(a);
      MultisetTail(b);
      OrderedPermutationUnique(c, isAsc, a[1..], b[1..]);
      assert a == [a[0]] + a[1..] && b == [b[0]] + b[1..];
    } else {
      assert |b| == |multiset(b)| == 0;
    }
  }

  function Reverse<T>(s: seq<T>): (r: seq<T>)
    ensures |r| == |s|
    ensures forall i :: 0 <= i < |s| ==> r[i] == s[|s| - 1 - i]
  {
    if s == [] then [] else Reverse(s[1..]) + [s[0]]
  }

  lemma {:induction false} ReversePermutation<T>(s: seq<T>)
    ensures multiset(Reverse(s)) == multiset(s)
  {
    if s != [] {
      ReversePermutation(s[1..]);
      assert s == [s[0]] + s[1..];
    }
  }

  /** Reversing ascending order gives descending order. */
  lemma ReverseOrdered(c: Column, s: seq<Product>)
    requires OrderedBy(c, true, s)
    ensures OrderedBy(c, false, Reverse(s))
  {
    var r := Reverse(s);
    forall i, j | 0 <= i < j < |r|
      ensures KeyLe(false, KeyOf(c, r[i]), KeyOf(c, r[j]))
    {
      assert r[i] == s[|s| - 1 - i] && r[j] == s[|s| - 1 - j];
    }
  }

  /** With pairwise distinct keys, the descending sort is exactly the reverse of the ascending one. */
  lemma SortDescendingIsReverse(c: Column, s: seq<Product>)
    requires DistinctKeys(c, s)
    ensures SortBy(ComparatorFor(ColumnName(c), false), s) == Reverse(SortBy(ComparatorFor(ColumnName(c), true), s))
  {
    var up, down := ComparatorFor(ColumnName(c), true), ComparatorFor(ColumnName(c), false);
    var asc, desc := SortBy(up, s), SortBy(down, s);
    SortOrdered(c, true, s);
    SortOrdered(c, false, s);
    ReverseOrdered(c, asc);
    SortPermutation(up, s);
    SortPermutation(down, s);
    ReversePermutation(asc);
    PermutationKeepsDistinctKeys(c, s, desc);
    OrderedPermutationUnique(c, false, desc, Reverse(asc));
  }

  // ---------------------------------------------------------------------
  // The sort as the engine runs it: in place on the array.

  /**
   * Where `x` lands: after `t[..j]` when it compares below every element of
   * `t[j..]` and not below `t[j - 1]`.
   */
  lemma {:induction false} InsertAt<T>(cmp: (T, T) -> int, t: seq<T>, j: nat, x: T)
    requires j <= |t|
    requires j == 0 || cmp(x, t[j - 1]) >= 0
    requires forall k :: j <= k < |t| ==> cmp(x, t[k]) < 0
    ensures Insert(cmp, t, x) == t[..j] + [x] + t[j..]
    decreases |t|
  {
    if j < |t| {
      var n := |t| - 1;
      InsertAt(cmp, t[..n], j, x);
      assert t[..n][..j] == t[..j];
      assert t[j..] == t[..n][j..] + [t[n]];
    }
  }

  /**
   * Shifts right by one every element at the end of the run `a[..i]`
   * that `x` compares below, and returns the slot left free for `x`.
   */
  method ShiftPast<T>(a: array<T>, i: nat, x: T, cmp: (T, T) -> int) returns (j: nat)
    requires i < a.Length
    modifies a
    ensures j <= i
    ensures j == 0 || cmp(x, a[j - 1]) >= 0
    ensures forall k :: j <= k < i ==> cmp(x, old(a[k])) < 0
    ensures forall k :: 0 <= k < j ==> a[k] == old(a[k])
    ensures forall k :: j < k <= i ==> a[k] == old(a[k - 1])
    ensures forall k :: i < k < a.Length ==> a[k] == old(a[k])
  {
    j := i;
    while j > 0 && cmp(x, a[j - 1]) < 0
      invariant 0 <= j <= i
      invariant forall k :: j <= k < i ==> cmp(x, old(a[k])) < 0
      invariant forall k :: 0 <= k < j ==> a[k] == old(a[k])
      invariant forall k :: j < k <= i ==> a[k] == old(a[k - 1])
      invariant forall k :: i < k < a.Length ==> a[k] == old(a[k])
    {
      a[j] := a[j - 1];
      j := j - 1;
    }
  }

  /** Moves `a[i]` left past the elements of the run `a[..i]` that it compares below. */
  method InsertInPlace<T>(a: array<T>, i: nat, cmp: (T, T) -> int)
    requires i < a.Length
    modifies a
    ensures a[..i + 1] == Insert(cmp, old(a[..i]), old(a[i]))
    ensures forall k :: i < k < a.Length ==> a[k] == old(a[k])
  {
    var x := a[i];
    ghost var t := a[..i];
    var j := ShiftPast(a, i, x, cmp);
    a[j] := x;
    InsertAt(cmp, t, j, x);
    assert a[..i + 1] == t[..j] + [x] + t[j..];
  }

  /** `a.sort(cmp)`: each element in turn is inserted into the sorted prefix, in place. */
  method SortInPlace<T>(a: array<T>, cmp: (T, T) -> int)
    modifies a
    ensures a[..] == SortBy(cmp, old(a[..]))
  {
    ghost var s := a[..];
    var i := 0;
    while i < a.Length
      invariant 0 <= i <= a.Length
      invariant a[..i] == SortBy(cmp, s[..i])
      invariant forall k :: i <= k < a.Length ==> a[k] == s[k]
    {
      InsertInPlace(a, i, cmp);
      assert s[..i + 1][..i] == s[..i];
      i := i + 1;
    }
    assert s[..a.Length] == s;
  }
}
