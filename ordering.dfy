/** The orderings the author listing may ask the store for, and the sorted
    sequence the store returns for each. */
module Ordering {
  import opened Models

  /** The two fields a listing may be sorted on. */
  datatype SortKey = ByName | ByDateOfBirth

  datatype Direction = Ascending | Descending

  datatype SortSpec = SortSpec(key: SortKey, dir: Direction)

  /** Lexicographic order on strings, character by character. */
  predicate StrLe(a: string, b: string)
  {
    if a == [] then true
    else if b == [] then false
    else if a[0] != b[0] then a[0] < b[0]
    else StrLe(a[1..], b[1..])
  }

  lemma {:induction false} StrLeTotal(a: string, b: string)
    ensures StrLe(a, b) || StrLe(b, a)
  {
    if a != [] && b != [] && a[0] == b[0] {
      StrLeTotal(a[1..], b[1..]);
    }
  }

  lemma {:induction false} StrLeTrans(a: string, b: string, c: string)
    requires StrLe(a, b) && StrLe(b, c)
    ensures StrLe(a, c)
  {
    if a != [] && b != [] && c != [] && a[0] == b[0] == c[0] {
      StrLeTrans(a[1..], b[1..], c[1..]);
    }
  }

  /** Order on dates of birth: a missing date comes before every present one,
      as the store orders a missing field like null. */
  predicate DateLe(a: Option<int>, b: Option<int>)
  {
    a.None? || (b.Some? && a.value <= b.value)
  }

  predicate KeyLe(k: SortKey, a: Author, b: Author)
  {
    match k
    case ByName => StrLe(a.name, b.name)
    case ByDateOfBirth => DateLe(a.dateOfBirth, b.dateOfBirth)
  }

  /** `a` may come before `b` in a listing sorted by `s`. */
  predicate Before(s: SortSpec, a: Author, b: Author)
  {
    if s.dir == Ascending then KeyLe(s.key, a, b) else KeyLe(s.key, b, a)
  }

  lemma BeforeTotal(s: SortSpec, a: Author, b: Author)
    ensures Before(s, a, b) || Before(s, b, a)
  {
    if s.key == ByName {
      StrLeTotal(a.name, b.name);
    }
  }

  lemma BeforeTrans(s: SortSpec, a: Author, b: Author, c: Author)
    requires Before(s, a, b) && Before(s, b, c)
    ensures Before(s, a, c)
  {
    if s.key == ByName {
      if s.dir == Ascending {
        StrLeTrans(a.name, b.name, c.name);
      } else {
        StrLeTrans(c.name, b.name, a.name);
      }
    }
  }

  ghost predicate SortedBy(s: SortSpec, xs: seq<Author>)
  {
    forall i, j :: 0 <= i < j < |xs| ==> Before(s, xs[i], xs[j])
  }

  /** Inserts `x` into the sorted `xs` in front of the first element it may
      precede. */
  function Insert(s: SortSpec, x: Author, xs: seq<Author>): (r: seq<Author>)
    requires SortedBy(s, xs)
    ensures SortedBy(s, r)
    ensures multiset(r) == multiset(xs) + multiset{x}
  {
    if xs == [] then [x]
    else if Before(s, x, xs[0]) then
      InsertAtFront(s, x, xs);
      [x] + xs
    else
      var t := Insert(s, x, xs[1..]);
      assert xs == [xs[0]] + xs[1..];
      BeforeTotal(s, x, xs[0]);
      HeadPrecedesAll(s, xs[0], x, xs[1..], t);
      [xs[0]] + t
  }

  /** `[x] + xs` is sorted when `x` may precede the head of the sorted `xs`. */
  lemma InsertAtFront(s: SortSpec, x: Author, xs: seq<Author>)
    requires SortedBy(s, xs) && xs != [] && Before(s, x, xs[0])
    ensures SortedBy(s, [x] + xs)
  {
    forall j | 0 < j < |xs| ensures Before(s, x, xs[j]) {
      BeforeTrans(s, x, xs[0], xs[j]);
    }
  }

  /** `[y] + t` is sorted when `t` is sorted and holds `x` and the elements of
      `rest`, all of which `y` may precede. */
  lemma HeadPrecedesAll(s: SortSpec, y: Author, x: Author, rest: seq<Author>, t: seq<Author>)
    requires SortedBy(s, [y] + rest) && SortedBy(s, t) && Before(s, y, x)
    requires multiset(t) == multiset(rest) + multiset{x}
    ensures SortedBy(s, [y] + t)
  {
    forall k | 0 <= k < |t| ensures Before(s, y, t[k]) {
      assert t[k] in multiset(t);
      if t[k] != x {
        assert t[k] in multiset(rest);
        var m :| 0 <= m < |rest| && rest[m] == t[k];
        assert ([y] + rest)[0] == y && ([y] + rest)[m + 1] == t[k];
      }
    }
    var r := [y] + t;
    forall i, j | 0 <= i < j < |r| ensures Before(s, r[i], r[j]) {
      if i > 0 {
        assert r[i] == t[i - 1] && r[j] == t[j - 1];
      }
    }
  }

  /** Insertion sort: the store's answer to a sorted find. */
  function SortAuthors(s: SortSpec, xs: seq<Author>): (r: seq<Author>)
    ensures SortedBy(s, r)
    ensures multiset(r) == multiset(xs)
  {
    if xs == [] then []
    else
      assert xs == [xs[0]] + xs[1..];
      Insert(s, xs[0], SortAuthors(s, xs[1..]))
  }

  /** The sequence the store returns for a find with sort options `spec`:
      sorted when a key is set, in the collection's natural order otherwise. */
  function Arrange(spec: Option<SortSpec>, xs: seq<Author>): (r: seq<Author>)
    ensures multiset(r) == multiset(xs) && |r| == |xs|
    ensures spec.Some? ==> SortedBy(spec.value, r)
    ensures spec.None? ==> r == xs
  {
    assert |multiset(xs)| == |xs|;
    match spec
    case None => xs
    case Some(s) => SortAuthors(s, xs)
  }
}
