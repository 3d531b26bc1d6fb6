/** `mysort`, the normaliser the property tests pass every generated
    (Chromosome, position, position, Strand) tuple through: it makes the two
    positions differ, then reorders the tuple by the sort keys
    [-1, p1, p2, 1e10], so that a well-formed tuple comes out as
    [Chromosome, Start, End, Strand] with Start < End. */
module HypothesisRows {
  import opened Intervals

  /** One element of the tuple: a string (chromosome, strand) or an int. */
  datatype Cell = Text(s: string) | Num(n: int)

  /** Python raises TypeError when `sorted` has to compare a str with an int. */
  datatype Sorted = Ok(row: seq<Cell>) | TypeError

  /** One element of `zip(key, tp)`. */
  datatype Pair = Pair(key: int, cell: Cell)

  /** `int(1e10)`, the key that keeps the strand last. */
  const StrandKey: int := 10_000_000_000

  /** The bounds of the `positions` strategy. */
  const MaxPosition: int := 10_000_000

  /** The input `mysort` works on: a chromosome, two int positions and a
      strand. */
  predicate Tuple4(tp: seq<Cell>) {
    |tp| == 4 && tp[0].Text? && tp[1].Num? && tp[2].Num? && tp[3].Text?
  }

  /** A tuple the test's strategy can produce: both positions in [0, 1e7]. */
  predicate Generated(tp: seq<Cell>) {
    Tuple4(tp) && 0 <= tp[1].n <= MaxPosition && 0 <= tp[2].n <= MaxPosition
  }

  /** Equal positions: the second is increased by one. */
  function Bump(tp: seq<Cell>): (t: seq<Cell>)
    requires Tuple4(tp)
    ensures Tuple4(t) && t[0] == tp[0] && t[1] == tp[1] && t[3] == tp[3]
    ensures t[2] == if tp[1].n == tp[2].n then Num(tp[2].n + 1) else tp[2]
    ensures t[1].n != t[2].n
  {
    if tp[1] == tp[2] then [tp[0], tp[1], Num(tp[2].n + 1), tp[3]] else tp
  }

  function SortKeys(t: seq<Cell>): seq<int>
    requires Tuple4(t)
  {
    [-1, t[1].n, t[2].n, StrandKey]
  }

  function Zip(ks: seq<int>, t: seq<Cell>): (ps: seq<Pair>)
    requires |ks| == |t|
    ensures |ps| == |t|
    ensures forall i :: 0 <= i < |t| ==> ps[i] == Pair(ks[i], t[i])
  {
    if t == [] then [] else [Pair(ks[0], t[0])] + Zip(ks[1..], t[1..])
  }

  function Cells(ps: seq<Pair>): (cs: seq<Cell>)
    ensures |cs| == |ps|
    ensures forall i :: 0 <= i < |ps| ==> cs[i] == ps[i].cell
  {
    if ps == [] then [] else [ps[0].cell] + Cells(ps[1..])
  }

  /** Two elements share a key while one is a str and the other an int: the
      tie makes Python compare the elements themselves, which fails. */
  predicate Clash(t: seq<Cell>)
    requires Tuple4(t)
  {
    exists i, j :: 0 <= i < j < 4 && SortKeys(t)[i] == SortKeys(t)[j] && t[i].Text? != t[j].Text?
  }

  predicate Increasing(ps: seq<Pair>) {
    forall i, j :: 0 <= i < j < |ps| ==> ps[i].key < ps[j].key
  }

  function Insert(p: Pair, ps: seq<Pair>): seq<Pair> {
    if ps == [] then [p]
    else if p.key < ps[0].key then [p] + ps
    else [ps[0]] + Insert(p, ps[1..])
  }

  /** `sorted` on pairs whose keys differ: ordering by key alone. */
  function SortByKey(ps: seq<Pair>): seq<Pair> {
    if ps == [] then [] else Insert(ps[0], SortByKey(ps[1..]))
  }

  lemma {:induction false} InsertKeeps(p: Pair, ps: seq<Pair>)
    ensures multiset(Insert(p, ps)) == multiset(ps) + multiset{p}
  {
    if ps != [] && p.key >= ps[0].key {
      InsertKeeps(p, ps[1..]);
      assert ps == [ps[0]] + ps[1..];
    }
  }

  lemma {:induction false} SortByKeyKeeps(ps: seq<Pair>)
    ensures multiset(SortByKey(ps)) == multiset(ps)
  {
    if ps != [] {
      SortByKeyKeeps(ps[1..]);
      InsertKeeps(ps[0], SortByKey(ps[1..]));
      assert ps == [ps[0]] + ps[1..];
    }
  }

  /** `mysort(tp)`. */
  function MySort(tp: seq<Cell>): Sorted
    requires Tuple4(tp)
  {
    var t := Bump(tp);
    if Clash(t) then TypeError else Ok(Cells(SortByKey(Zip(SortKeys(t), t))))
  }

  lemma ConsIncreasing(x: Pair, rest: seq<Pair>)
    requires Increasing(rest) && forall q :: q in rest ==> x.key < q.key
    ensures Increasing([x] + rest)
  {
    var r := [x] + rest;
    forall i, j | 0 <= i < j < |r|
      ensures r[i].key < r[j].key
    {
      assert r[j] == rest[j - 1] && r[j] in rest;
      if i > 0 {
        assert r[i] == rest[i - 1];
      }
    }
  }

  lemma {:induction false} InsertIncreasing(p: Pair, ps: seq<Pair>)
    requires Increasing(ps) && forall q :: q in ps ==> q.key != p.key
    ensures Increasing(Insert(p, ps))
  {
    if ps == [] {
    } else if p.key < ps[0].key {
      forall q | q in ps
        ensures p.key < q.key
      {
        var j :| 0 <= j < |ps| && ps[j] == q;
        assert j == 0 || ps[0].key < ps[j].key;
      }
      ConsIncreasing(p, ps);
    } else {
      var tail := ps[1..];
      assert Increasing(tail) by {
        forall i, j | 0 <= i < j < |tail|
          ensures tail[i].key < tail[j].key
        {
          assert tail[i] == ps[i + 1] && tail[j] == ps[j + 1];
        }
      }
      assert forall q :: q in tail ==> q in ps;
      InsertIncreasing(p, tail);
      var rest := Insert(p, tail);
      InsertKeeps(p, tail);
      assert ps[0] in ps;
      forall q | q in rest
        ensures ps[0].key < q.key
      {
        assert q in multiset(rest);
        if q != p {
          assert q in multiset(tail);
          var j :| 0 <= j < |tail| && tail[j] == q;
          assert ps[j + 1] == q;
        }
      }
      ConsIncreasing(ps[0], rest);
    }
  }

  /** `sorted` orders pairs with distinct keys strictly by key and keeps
      every pair. */
  lemma {:induction false} SortByKeyIncreasing(ps: seq<Pair>)
    requires forall i, j :: 0 <= i < j < |ps| ==> ps[i].key != ps[j].key
    ensures Increasing(SortByKey(ps))
    ensures multiset(SortByKey(ps)) == multiset(ps)
  {
    if ps != [] {
      var tail := ps[1..];
      forall i, j | 0 <= i < j < |tail|
        ensures tail[i].key != tail[j].key
      {
        assert tail[i] == ps[i + 1] && tail[j] == ps[j + 1];
      }
      SortByKeyIncreasing(tail);
      var sorted := SortByKey(tail);
      SortByKeyKeeps(tail);
      forall q | q in sorted
        ensures q.key != ps[0].key
      {
        assert q in multiset(tail);
        var j :| 0 <= j < |tail| && tail[j] == q;
        assert ps[j + 1] == q;
      }
      InsertIncreasing(ps[0], sorted);
      SortByKeyKeeps(ps);
    }
  }

  /** The bump leaves the positions distinct, so the only possible ties are
      between a position and the key of the chromosome or of the strand. */
  lemma ClashOnlyAtEnds(tp: seq<Cell>)
    requires Tuple4(tp)
    ensures var t := Bump(tp);
      Clash(t) <==> t[1].n == -1 || t[2].n == -1 || t[1].n == StrandKey || t[2].n == StrandKey
  {
    var t := Bump(tp);
    var ks := SortKeys(t);
    if Clash(t) {
      var i, j :| 0 <= i < j < 4 && ks[i] == ks[j] && t[i].Text? != t[j].Text?;
      assert (i, j) != (1, 2) && (i, j) != (0, 3);
    }
    if t[1].n == -1 {
      assert ks[0] == ks[1] && t[0].Text? != t[1].Text?;
    }
    if t[2].n == -1 {
      assert ks[0] == ks[2] && t[0].Text? != t[2].Text?;
    }
    if t[1].n == StrandKey {
      assert ks[1] == ks[3] && t[1].Text? != t[3].Text?;
    }
    if t[2].n == StrandKey {
      assert ks[2] == ks[3] && t[2].Text? != t[3].Text?;
    }
  }

  lemma InsertFront(p: Pair, ps: seq<Pair>)
    requires ps != [] && p.key < ps[0].key
    ensures Insert(p, ps) == [p] + ps
  {
  }

  lemma InsertPast(p: Pair, q: Pair, ps: seq<Pair>)
    requires p.key >= q.key
    ensures Insert(p, [q] + ps) == [q] + Insert(p, ps)
  {
    assert ([q] + ps)[1..] == ps;
  }

  lemma SortCons(p: Pair, ps: seq<Pair>)
    ensures SortByKey([p] + ps) == Insert(p, SortByKey(ps))
  {
    assert ([p] + ps)[1..] == ps;
  }

  /** Sorting four pairs whose first key is the least and whose last key is
      the greatest. */
  lemma SortFour(p0: Pair, p1: Pair, p2: Pair, p3: Pair)
    requires p2.key < p3.key && p1.key < p3.key && p0.key < p1.key && p0.key < p2.key && p1.key != p2.key
    ensures SortByKey([p0, p1, p2, p3]) == [p0] + if p1.key < p2.key then [p1, p2, p3] else [p2, p1, p3]
  {
    assert SortByKey([p3]) == [p3] by {
      SortCons(p3, []);
      assert [p3] + [] == [p3];
    }
    assert SortByKey([p2, p3]) == [p2, p3] by {
      SortCons(p2, [p3]);
      assert [p2] + [p3] == [p2, p3];
      InsertFront(p2, [p3]);
    }
    var s1 := if p1.key < p2.key then [p1, p2, p3] else [p2, p1, p3];
    assert SortByKey([p1, p2, p3]) == s1 by {
      SortCons(p1, [p2, p3]);
      assert [p1] + [p2, p3] == [p1, p2, p3];
      if p1.key < p2.key {
        InsertFront(p1, [p2, p3]);
      } else {
        InsertPast(p1, p2, [p3]);
        assert [p2] + [p3] == [p2, p3];
        InsertFront(p1, [p3]);
        assert [p2] + ([p1] + [p3]) == [p2, p1, p3];
      }
    }
    SortCons(p0, [p1, p2, p3]);
    assert [p0] + [p1, p2, p3] == [p0, p1, p2, p3];
    InsertFront(p0, s1);
  }

  /** Whenever no str is tied with an int, `mysort` returns the elements in
      strictly increasing key order, each exactly once. */
  lemma MySortOrdersByKey(tp: seq<Cell>)
    requires Tuple4(tp) && !Clash(Bump(tp))
    ensures MySort(tp).Ok?
    ensures var ps := SortByKey(Zip(SortKeys(Bump(tp)), Bump(tp)));
      Increasing(ps) && multiset(ps) == multiset(Zip(SortKeys(Bump(tp)), Bump(tp))) && MySort(tp).row == Cells(ps)
  {
    var t := Bump(tp);
    var ks := SortKeys(t);
    ClashOnlyAtEnds(tp);
    var zs := Zip(ks, t);
    forall i, j | 0 <= i < j < |zs|
      ensures zs[i].key != zs[j].key
    {
      assert zs[i].key == ks[i] && zs[j].key == ks[j];
    }
    SortByKeyIncreasing(zs);
  }

  /** The smaller and the larger of the two positions after the bump. */
  function Lo(tp: seq<Cell>): int
    requires Tuple4(tp)
  {
    var t := Bump(tp);
    if t[1].n < t[2].n then t[1].n else t[2].n
  }

  function Hi(tp: seq<Cell>): int
    requires Tuple4(tp)
  {
    var t := Bump(tp);
    if t[1].n < t[2].n then t[2].n else t[1].n
  }

  /** With both positions strictly between the chromosome's key -1 and the
      strand's key 1e10, `mysort` returns the chromosome, the two positions
      in ascending order and the strand. */
  lemma {:induction false} MySortInRange(tp: seq<Cell>)
    requires Tuple4(tp)
    requires -1 < Bump(tp)[1].n < StrandKey && -1 < Bump(tp)[2].n < StrandKey
    ensures MySort(tp) == Ok([tp[0], Num(Lo(tp)), Num(Hi(tp)), tp[3]])
    ensures Lo(tp) < Hi(tp)
    ensures multiset{Lo(tp), Hi(tp)} == multiset{Bump(tp)[1].n, Bump(tp)[2].n}
  {
    var t := Bump(tp);
    ClashOnlyAtEnds(tp);
    var p0, p1, p2, p3 := Pair(-1, t[0]), Pair(t[1].n, t[1]), Pair(t[2].n, t[2]), Pair(StrandKey, t[3]);
    assert Zip(SortKeys(t), t) == [p0, p1, p2, p3];
    SortFour(p0, p1, p2, p3);
    var s1 := if t[1].n < t[2].n then [p1, p2, p3] else [p2, p1, p3];
    assert Cells([p0] + s1) == [t[0], Num(Lo(tp)), Num(Hi(tp)), t[3]];
  }

  /** Every tuple the strategy generates becomes a row
      [Chromosome, Start, End, Strand] with 0 <= Start < End: a non-empty
      interval, with the chromosome and strand unchanged and the two
      positions, after the bump, kept as a multiset. */
  lemma GeneratedRowIsInterval(tp: seq<Cell>)
    requires Generated(tp)
    ensures MySort(tp).Ok?
    ensures var row := MySort(tp).row;
      |row| == 4 && row[0] == tp[0] && row[3] == tp[3]
      && row[1].Num? && row[2].Num? && 0 <= row[1].n < row[2].n
      && multiset{row[1].n, row[2].n} == multiset{Bump(tp)[1].n, Bump(tp)[2].n}
  {
    MySortInRange(tp);
  }

  /** Equal positions p, p come out as the interval [p, p + 1). */
  lemma EqualPositionsBumped(tp: seq<Cell>)
    requires Generated(tp) && tp[1] == tp[2]
    ensures MySort(tp) == Ok([tp[0], tp[1], Num(tp[1].n + 1), tp[3]])
  {
    MySortInRange(tp);
  }

  /** Sorting a row `mysort` has already produced changes nothing. */
  lemma MySortIdempotent(tp: seq<Cell>)
    requires Generated(tp)
    ensures MySort(tp).Ok? && Tuple4(MySort(tp).row)
    ensures MySort(MySort(tp).row) == MySort(tp)
  {
    MySortInRange(tp);
    var row := MySort(tp).row;
    assert Bump(row) == row;
    MySortInRange(row);
  }

  /** Outside the keys' range the tuple is not normalised: a position equal
      to -1 ties with the chromosome's key and raises TypeError, and a first
      position below -1, with the other one in range, is sorted in front of
      the chromosome. */
  lemma MySortOutOfRange(c: string, s: string, p: int, q: int)
    ensures MySort([Text(c), Num(-1), Num(p), Text(s)]) == TypeError
    ensures MySort([Text(c), Num(p), Num(-1), Text(s)]) == TypeError
    ensures p < -1 && -1 < q < StrandKey ==>
              MySort([Text(c), Num(p), Num(q), Text(s)]) == Ok([Num(p), Text(c), Num(q), Text(s)])
  {
    var t := [Text(c), Num(-1), Num(p), Text(s)];
    assert Bump(t)[1] == Num(-1);
    ClashOnlyAtEnds(t);
    var t' := [Text(c), Num(p), Num(-1), Text(s)];
    assert Bump(t')[1] == Num(-1) || Bump(t')[2] == Num(-1);
    ClashOnlyAtEnds(t');
    if p < -1 && -1 < q < StrandKey {
      var u := [Text(c), Num(p), Num(q), Text(s)];
      assert Bump(u) == u;
      ClashOnlyAtEnds(u);
      var p0, p1, p2, p3 := Pair(-1, Text(c)), Pair(p, Num(p)), Pair(q, Num(q)), Pair(StrandKey, Text(s));
      assert Zip(SortKeys(u), u) == [p0, p1, p2, p3];
      SortCons(p3, []);
      SortCons(p2, [p3]);
      InsertFront(p2, [p3]);
      SortCons(p1, [p2, p3]);
      InsertFront(p1, [p2, p3]);
      SortCons(p0, [p1, p2, p3]);
      InsertPast(p0, p1, [p2, p3]);
      InsertFront(p0, [p2, p3]);
      assert Cells([p1, p0, p2, p3]) == [Num(p), Text(c), Num(q), Text(s)];
    }
  }
}
