/** Rows, group keys and the orders on them that the legacy GRanges class
    relies on: one row of the pandas data frame, the key `df.groupby` files it
    under, and Python's ordering of strings and of key tuples. */
module Intervals {

  datatype Option<T> = None | Some(value: T)

  /** One row of the data frame: its index label, then the Chromosome, Start,
      End and Strand columns. `strand` means nothing when the frame has no
      Strand column. */
  datatype Row = Row(id: int, chrom: string, start: int, end: int, strand: string)

  /** A data frame: whether it has a Strand column, and its rows in order. */
  datatype Table = Table(hasStrand: bool, rows: seq<Row>)

  /** A group key: the chromosome alone, or the (chromosome, strand) pair. */
  datatype Key = Chrom(chrom: string) | ChromStrand(chrom: string, strand: string)

  /** What an NCLS index is built from: Start, End and the row's index label. */
  datatype Triple = Triple(start: int, end: int, id: int)

  function KeyOf(hasStrand: bool, r: Row): Key {
    if hasStrand then ChromStrand(r.chrom, r.strand) else Chrom(r.chrom)
  }

  function TripleOf(r: Row): Triple {
    Triple(r.start, r.end, r.id)
  }

  /** Membership in `"+ -".split()`. */
  predicate IsStrand(s: string) {
    s == "+" || s == "-"
  }

  /** The half-open overlap test of [start, end) with the query [qs, qe). */
  predicate Overlaps(t: Triple, qs: int, qe: int) {
    t.start < qe && qs < t.end
  }

  function Elems<T>(s: seq<T>): set<T> {
    set x | x in s
  }

  lemma ElemsCons<T>(x: T, s: seq<T>)
    ensures Elems([x] + s) == {x} + Elems(s)
  {
    assert forall y :: y in [x] + s <==> y == x || y in s;
  }

  predicate NoDup<T(==)>(s: seq<T>) {
    forall i, j :: 0 <= i < j < |s| ==> s[i] != s[j]
  }

  lemma NoDupAppend<T>(a: seq<T>, b: seq<T>)
    requires NoDup(a) && NoDup(b)
    requires forall x :: x in a ==> x !in b
    ensures NoDup(a + b)
  {
    forall i, j | 0 <= i < j < |a + b|
      ensures (a + b)[i] != (a + b)[j]
    {
      if j < |a| {
        assert (a + b)[i] == a[i] && (a + b)[j] == a[j];
      } else if i >= |a| {
        assert (a + b)[i] == b[i - |a|] && (a + b)[j] == b[j - |a|];
      } else {
        assert (a + b)[i] == a[i] && (a + b)[j] == b[j - |a|];
        assert a[i] in a && b[j - |a|] in b;
      }
    }
  }

  /** Index labels are unique, as with the default RangeIndex of a frame. */
  predicate UniqueIds(rows: seq<Row>) {
    forall i, j :: 0 <= i < j < |rows| ==> rows[i].id != rows[j].id
  }

  /** With unique labels, a label names one row. */
  lemma SameIdSameRow(rows: seq<Row>, a: Row, b: Row)
    requires UniqueIds(rows) && a in rows && b in rows && a.id == b.id
    ensures a == b
  {
    var i :| 0 <= i < |rows| && rows[i] == a;
    var j :| 0 <= j < |rows| && rows[j] == b;
    assert !(i < j) && !(j < i);
  }

  lemma UniqueIdsTail(rows: seq<Row>)
    requires rows != [] && UniqueIds(rows)
    ensures UniqueIds(rows[1..])
    ensures forall r :: r in rows[1..] ==> r.id != rows[0].id
  {
    var rest := rows[1..];
    forall i, j | 0 <= i < j < |rest|
      ensures rest[i].id != rest[j].id
    {
      assert rest[i] == rows[i + 1] && rest[j] == rows[j + 1];
    }
    forall r | r in rest
      ensures r.id != rows[0].id
    {
      var p :| 0 <= p < |rest| && rest[p] == r;
      assert rows[p + 1] == r;
    }
  }

  /** `a` is `b` with some elements dropped, the rest kept in order. */
  predicate IsSubsequence<T(==)>(a: seq<T>, b: seq<T>)
    decreases |b|
  {
    if a == [] then true
    else if b == [] then false
    else if a[0] == b[0] then IsSubsequence(a[1..], b[1..])
    else IsSubsequence(a, b[1..])
  }

  /** Python's `a < b` on str: code point by code point, a proper prefix first. */
  predicate StrLess(a: string, b: string)
    decreases |a|
  {
    if a == [] then b != []
    else if b == [] then false
    else a[0] < b[0] || (a[0] == b[0] && StrLess(a[1..], b[1..]))
  }

  lemma {:induction false} StrLessIrreflexive(a: string)
    ensures !StrLess(a, a)
    decreases |a|
  {
    if a != [] {
      StrLessIrreflexive(a[1..]);
    }
  }

  lemma {:induction false} StrLessTransitive(a: string, b: string, c: string)
    requires StrLess(a, b) && StrLess(b, c)
    ensures StrLess(a, c)
    decreases |a|
  {
    if a != [] && a[0] == b[0] && b[0] == c[0] {
      StrLessTransitive(a[1..], b[1..], c[1..]);
    }
  }

  lemma {:induction false} StrLessTotal(a: string, b: string)
    requires a != b
    ensures StrLess(a, b) || StrLess(b, a)
    decreases |a|
  {
    if a != [] && b != [] && a[0] == b[0] {
      assert a == [a[0]] + a[1..];
      assert b == [b[0]] + b[1..];
      StrLessTotal(a[1..], b[1..]);
    }
  }

  /** The order in which `df.groupby` lists its keys: by chromosome, then by
      strand. A frame never mixes the two kinds of key; a chromosome-only key is
      put first so that the order is total. */
  predicate KeyLess(x: Key, y: Key) {
    if x.Chrom? then y.ChromStrand? || StrLess(x.chrom, y.chrom)
    else y.ChromStrand? && (StrLess(x.chrom, y.chrom) || (x.chrom == y.chrom && StrLess(x.strand, y.strand)))
  }

  lemma KeyLessIrreflexive(x: Key)
    ensures !KeyLess(x, x)
  {
    StrLessIrreflexive(x.chrom);
    if x.ChromStrand? {
      StrLessIrreflexive(x.strand);
    }
  }

  lemma KeyLessTransitive(x: Key, y: Key, z: Key)
    requires KeyLess(x, y) && KeyLess(y, z)
    ensures KeyLess(x, z)
  {
    if StrLess(x.chrom, y.chrom) && StrLess(y.chrom, z.chrom) {
      StrLessTransitive(x.chrom, y.chrom, z.chrom);
    } else if x.ChromStrand? && y.ChromStrand? && z.ChromStrand? && x.chrom == y.chrom == z.chrom {
      StrLessTransitive(x.strand, y.strand, z.strand);
    }
  }

  lemma KeyLessTotal(x: Key, y: Key)
    requires x != y
    ensures KeyLess(x, y) || KeyLess(y, x)
  {
    if x.chrom != y.chrom {
      StrLessTotal(x.chrom, y.chrom);
    } else if x.ChromStrand? && y.ChromStrand? {
      StrLessTotal(x.strand, y.strand);
    }
  }
}
