/** What `GRanges.__getitem__` selects, selector form by selector form: the
    rows each form picks out, the bounds it fills in, the errors it raises and
    the selectors it lets fall through to None. */
module GetItemProperties {
  import opened Intervals
  import opened NclsDict
  import opened GRangesModel

  /** The frame has a Strand column and a row on chromosome `c` and strand `s`. */
  predicate HasRowOn(t: Table, c: string, s: string) {
    t.hasStrand && exists y :: y in t.rows && y.chrom == c && y.strand == s
  }

  // ---------------------------------------------------------------------------
  // The frame operations: boolean masks and label lookup

  lemma {:induction false} WhereInOrder(rows: seq<Row>, m: Mask)
    ensures IsSubsequence(Where(rows, m), rows)
  {
    if rows != [] {
      var rest := Where(rows[1..], m);
      WhereInOrder(rows[1..], m);
      if Matches(m, rows[0]) {
        assert Where(rows, m) == [rows[0]] + rest;
        assert ([rows[0]] + rest)[1..] == rest;
      } else {
        assert Where(rows, m) == rest;
        if rest != [] {
          WhereCounts(rows[1..], m);
          assert rest[0] in multiset(rest);
          assert Matches(m, rest[0]);
        }
      }
    }
  }

  lemma {:induction false} WhereCounts(rows: seq<Row>, m: Mask)
    ensures forall x :: multiset(Where(rows, m))[x] == if Matches(m, x) then multiset(rows)[x] else 0
  {
    if rows != [] {
      WhereCounts(rows[1..], m);
      assert rows == [rows[0]] + rows[1..];
      if Matches(m, rows[0]) {
        assert Where(rows, m) == [rows[0]] + Where(rows[1..], m);
      } else {
        assert Where(rows, m) == Where(rows[1..], m);
      }
    }
  }

  /** `df.loc[mask]` keeps the rows the mask holds for, each as often as the
      frame has it, in frame order. */
  lemma WhereIsFilter(rows: seq<Row>, m: Mask)
    ensures IsSubsequence(Where(rows, m), rows)
    ensures forall x :: multiset(Where(rows, m))[x] == if Matches(m, x) then multiset(rows)[x] else 0
    ensures forall x :: x in Where(rows, m) <==> x in rows && Matches(m, x)
  {
    WhereInOrder(rows, m);
    WhereCounts(rows, m);
    forall x
      ensures x in Where(rows, m) <==> x in rows && Matches(m, x)
    {
      assert x in Where(rows, m) <==> x in multiset(Where(rows, m));
      assert x in rows <==> x in multiset(rows);
    }
  }

  lemma {:induction false} LocMembership(rows: seq<Row>, ids: seq<int>)
    ensures forall r :: r in Loc(rows, ids) <==> r in rows && r.id in ids
  {
    if ids != [] {
      var init := ids[..|ids| - 1];
      LocMembership(rows, init);
      assert ids == init + [ids[|ids| - 1]];
    }
  }

  lemma {:induction false} LabelledAtMostOne(rows: seq<Row>, x: int)
    requires UniqueIds(rows)
    ensures |Labelled(rows, x)| <= 1
  {
    if rows != [] {
      UniqueIdsTail(rows);
      LabelledAtMostOne(rows[1..], x);
      if rows[0].id == x {
        LabelledNone(rows[1..], x);
      }
    }
  }

  lemma {:induction false} LabelledNone(rows: seq<Row>, x: int)
    requires forall r :: r in rows ==> r.id != x
    ensures Labelled(rows, x) == []
  {
    if rows != [] {
      assert rows[0] in rows;
      assert forall r :: r in rows[1..] ==> r in rows;
      LabelledNone(rows[1..], x);
    }
  }

  /** `df.loc[ids]` with distinct labels, on a frame with unique labels, gives
      every row at most once. */
  lemma {:induction false} LocNoDup(rows: seq<Row>, ids: seq<int>)
    requires UniqueIds(rows) && NoDup(ids)
    ensures NoDup(Loc(rows, ids))
  {
    if ids != [] {
      var init, x := ids[..|ids| - 1], ids[|ids| - 1];
      assert ids == init + [x];
      assert NoDup(init) by {
        forall i, j | 0 <= i < j < |init|
          ensures init[i] != init[j]
        {
          assert init[i] == ids[i] && init[j] == ids[j];
        }
      }
      assert x !in init by {
        forall i | 0 <= i < |init|
          ensures init[i] != x
        {
          assert init[i] == ids[i];
        }
      }
      LocNoDup(rows, init);
      LabelledAtMostOne(rows, x);
      LocMembership(rows, init);
      NoDupAppend(Loc(rows, init), Labelled(rows, x));
    }
  }

  // ---------------------------------------------------------------------------
  // The per-key indexes

  /** The labels an index built over `cdf` reports for a query. */
  lemma TriplesMembership(cdf: seq<Row>, x: int, qs: int, qe: int)
    ensures x in FindOverlap(CreateNcls(cdf), qs, qe) <==>
            exists r :: r in cdf && r.id == x && Overlaps(TripleOf(r), qs, qe)
  {
    var ts := CreateNcls(cdf);
    if x in FindOverlap(ts, qs, qe) {
      var tr :| tr in ts && tr.id == x && Overlaps(tr, qs, qe);
      var p :| 0 <= p < |ts| && ts[p] == tr;
      assert cdf[p] in cdf;
    }
    if exists r :: r in cdf && r.id == x && Overlaps(TripleOf(r), qs, qe) {
      var r :| r in cdf && r.id == x && Overlaps(TripleOf(r), qs, qe);
      var p :| 0 <= p < |cdf| && cdf[p] == r;
      assert ts[p] == TripleOf(r) && ts[p] in ts;
    }
  }

  /** The labels one index reports are those of the rows filed under its key
      that overlap the query. */
  lemma IndexMembership(t: Table, k: Key, x: int, qs: int, qe: int)
    requires k in CreateNclsDict(t)
    ensures x in FindOverlap(CreateNclsDict(t)[k], qs, qe) <==>
            exists r :: r in t.rows && KeyOf(t.hasStrand, r) == k && r.id == x && Overlaps(TripleOf(r), qs, qe)
  {
    var grp := Group(t.hasStrand, t.rows, k);
    GroupMembers(t.hasStrand, t.rows, k);
    assert CreateNclsDict(t)[k] == CreateNcls(grp);
    TriplesMembership(grp, x, qs, qe);
  }

  lemma {:induction false} GroupUniqueIds(hasStrand: bool, rows: seq<Row>, k: Key)
    requires UniqueIds(rows)
    ensures UniqueIds(Group(hasStrand, rows, k))
  {
    if rows != [] {
      var rest := rows[1..];
      UniqueIdsTail(rows);
      GroupUniqueIds(hasStrand, rest, k);
      var tail := Group(hasStrand, rest, k);
      GroupMembers(hasStrand, rest, k);
      if KeyOf(hasStrand, rows[0]) == k {
        var grp := [rows[0]] + tail;
        assert Group(hasStrand, rows, k) == grp;
        forall i, j | 0 <= i < j < |grp|
          ensures grp[i].id != grp[j].id
        {
          assert grp[j] == tail[j - 1] && grp[j] in tail;
          if i > 0 {
            assert grp[i] == tail[i - 1];
          }
        }
      }
    }
  }

  lemma {:induction false} FindOverlapNoDup(ts: seq<Triple>, qs: int, qe: int)
    requires forall i, j :: 0 <= i < j < |ts| ==> ts[i].id != ts[j].id
    ensures NoDup(FindOverlap(ts, qs, qe))
  {
    if ts != [] {
      var rest := ts[1..];
      assert forall i, j :: 0 <= i < j < |rest| ==> rest[i] == ts[i + 1] && rest[j] == ts[j + 1];
      FindOverlapNoDup(rest, qs, qe);
      if Overlaps(ts[0], qs, qe) {
        forall x | x in FindOverlap(rest, qs, qe)
          ensures x !in [ts[0].id]
        {
          var tr :| tr in rest && tr.id == x && Overlaps(tr, qs, qe);
          var p :| 0 <= p < |rest| && rest[p] == tr;
          assert ts[p + 1] == tr;
        }
        NoDupAppend([ts[0].id], FindOverlap(rest, qs, qe));
      }
    }
  }

  /** With unique labels an index reports each label at most once. */
  lemma IndexNoDup(t: Table, k: Key, qs: int, qe: int)
    requires UniqueIds(t.rows) && k in CreateNclsDict(t)
    ensures NoDup(FindOverlap(CreateNclsDict(t)[k], qs, qe))
  {
    var grp := Group(t.hasStrand, t.rows, k);
    GroupUniqueIds(t.hasStrand, t.rows, k);
    FindOverlapNoDup(CreateNcls(grp), qs, qe);
  }

  /** With unique labels two different indexes never report the same label. */
  lemma IndexesDisjoint(t: Table, k1: Key, k2: Key, qs: int, qe: int)
    requires UniqueIds(t.rows) && k1 in CreateNclsDict(t) && k2 in CreateNclsDict(t) && k1 != k2
    ensures forall x :: x in FindOverlap(CreateNclsDict(t)[k1], qs, qe) ==> x !in FindOverlap(CreateNclsDict(t)[k2], qs, qe)
  {
    forall x | x in FindOverlap(CreateNclsDict(t)[k1], qs, qe)
      ensures x !in FindOverlap(CreateNclsDict(t)[k2], qs, qe)
    {
      IndexMembership(t, k1, x, qs, qe);
      IndexMembership(t, k2, x, qs, qe);
      var r1 :| r1 in t.rows && KeyOf(t.hasStrand, r1) == k1 && r1.id == x && Overlaps(TripleOf(r1), qs, qe);
      forall r2 | r2 in t.rows && r2.id == x
        ensures KeyOf(t.hasStrand, r2) != k2
      {
        SameIdSameRow(t.rows, r1, r2);
      }
    }
  }

  /** Under unique labels a row is reported for a query exactly when some
      reported label is its own. */
  lemma LabelPicksRow(t: Table, y: Row, ids: seq<int>, P: Row -> bool)
    requires UniqueIds(t.rows) && y in t.rows
    requires forall x :: x in ids <==> exists r :: r in t.rows && r.id == x && P(r)
    ensures y.id in ids <==> P(y)
  {
    if y.id in ids {
      var r :| r in t.rows && r.id == y.id && P(r);
      SameIdSameRow(t.rows, r, y);
    }
  }

  // ---------------------------------------------------------------------------
  // The two gathering loops

  lemma {:induction false} GatherAllMembership(d: map<Key, seq<Triple>>, ks: seq<Key>, qs: int, qe: int, x: int)
    requires forall k :: k in ks ==> k in d
    ensures x in GatherAll(d, ks, qs, qe) <==> exists j :: 0 <= j < |ks| && x in FindOverlap(d[ks[j]], qs, qe)
  {
    if ks != [] {
      var init := ks[..|ks| - 1];
      GatherAllMembership(d, init, qs, qe, x);
      if x in GatherAll(d, init, qs, qe) {
        var j :| 0 <= j < |init| && x in FindOverlap(d[init[j]], qs, qe);
        assert ks[j] == init[j];
      }
      if exists j :: 0 <= j < |ks| && x in FindOverlap(d[ks[j]], qs, qe) {
        var j :| 0 <= j < |ks| && x in FindOverlap(d[ks[j]], qs, qe);
        if j < |init| {
          assert init[j] == ks[j];
        }
      }
    }
  }

  /** The keys the bare slice walks are exactly the keys of the indexes. */
  lemma OrderedKeysIndexed(t: Table)
    ensures forall k :: k in OrderedKeys(t) <==> k in CreateNclsDict(t)
    ensures forall r :: r in t.rows ==> KeyOf(t.hasStrand, r) in OrderedKeys(t)
  {
    var ks := OrderedKeys(t);
    assert forall k :: k in ks <==> k in Elems(ks);
    forall r | r in t.rows
      ensures KeyOf(t.hasStrand, r) in ks
    {
      assert KeyOf(t.hasStrand, r) in KeySet(t);
    }
  }

  lemma BareSliceLabelsSound(t: Table, qs: int, qe: int, x: int)
    requires forall k :: k in OrderedKeys(t) ==> k in CreateNclsDict(t)
    requires x in GatherAll(CreateNclsDict(t), OrderedKeys(t), qs, qe)
    ensures exists r :: r in t.rows && r.id == x && Overlaps(TripleOf(r), qs, qe)
  {
    var d, ks := CreateNclsDict(t), OrderedKeys(t);
    GatherAllMembership(d, ks, qs, qe, x);
    var j :| 0 <= j < |ks| && x in FindOverlap(d[ks[j]], qs, qe);
    IndexMembership(t, ks[j], x, qs, qe);
  }

  lemma BareSliceLabelsComplete(t: Table, qs: int, qe: int, r: Row)
    requires forall k :: k in OrderedKeys(t) ==> k in CreateNclsDict(t)
    requires KeyOf(t.hasStrand, r) in OrderedKeys(t)
    requires r in t.rows && Overlaps(TripleOf(r), qs, qe)
    ensures r.id in GatherAll(CreateNclsDict(t), OrderedKeys(t), qs, qe)
  {
    var d, ks := CreateNclsDict(t), OrderedKeys(t);
    var k := KeyOf(t.hasStrand, r);
    var j :| 0 <= j < |ks| && ks[j] == k;
    IndexMembership(t, k, r.id, qs, qe);
    GatherAllMembership(d, ks, qs, qe, r.id);
  }

  /** The bare slice gathers the labels of exactly the rows that overlap the
      query, whatever their key. */
  lemma BareSliceLabels(t: Table, qs: int, qe: int, x: int)
    ensures x in GatherAll(CreateNclsDict(t), OrderedKeys(t), qs, qe) <==>
            exists r :: r in t.rows && r.id == x && Overlaps(TripleOf(r), qs, qe)
  {
    OrderedKeysIndexed(t);
    if x in GatherAll(CreateNclsDict(t), OrderedKeys(t), qs, qe) {
      BareSliceLabelsSound(t, qs, qe, x);
    }
    if exists r :: r in t.rows && r.id == x && Overlaps(TripleOf(r), qs, qe) {
      var r :| r in t.rows && r.id == x && Overlaps(TripleOf(r), qs, qe);
      BareSliceLabelsComplete(t, qs, qe, r);
    }
  }

  /** Because the groups are disjoint, the bare slice never gathers a label
      twice when the frame's labels are unique. */
  lemma {:induction false} GatherAllNoDup(t: Table, ks: seq<Key>, qs: int, qe: int)
    requires UniqueIds(t.rows) && NoDup(ks)
    requires forall k :: k in ks ==> k in CreateNclsDict(t)
    ensures NoDup(GatherAll(CreateNclsDict(t), ks, qs, qe))
  {
    if ks != [] {
      var d := CreateNclsDict(t);
      var init, k := ks[..|ks| - 1], ks[|ks| - 1];
      assert NoDup(init) by {
        forall i, j | 0 <= i < j < |init|
          ensures init[i] != init[j]
        {
          assert init[i] == ks[i] && init[j] == ks[j];
        }
      }
      GatherAllNoDup(t, init, qs, qe);
      IndexNoDup(t, k, qs, qe);
      forall x | x in GatherAll(d, init, qs, qe)
        ensures x !in FindOverlap(d[k], qs, qe)
      {
        GatherAllMembership(d, init, qs, qe, x);
        var j :| 0 <= j < |init| && x in FindOverlap(d[init[j]], qs, qe);
        assert init[j] == ks[j];
        IndexesDisjoint(t, init[j], k, qs, qe);
      }
      NoDupAppend(GatherAll(d, init, qs, qe), FindOverlap(d[k], qs, qe));
    }
  }

  /** The strand loop gathers labels exactly when every chromosome it visits
      has an index for the strand. */
  lemma {:induction false} GatherStrandCompletes(d: map<Key, seq<Triple>>, cs: seq<string>, s: string, qs: int, qe: int)
    ensures GatherStrand(d, cs, s, qs, qe).Labels? <==> forall j :: 0 <= j < |cs| ==> ChromStrand(cs[j], s) in d
  {
    if cs != [] {
      var init := cs[..|cs| - 1];
      GatherStrandCompletes(d, init, s, qs, qe);
      assert forall j :: 0 <= j < |init| ==> init[j] == cs[j];
    }
  }

  /** When it stops, it names the key of the first chromosome without one. */
  lemma {:induction false} GatherStrandStopsAtFirst(d: map<Key, seq<Triple>>, cs: seq<string>, s: string, qs: int, qe: int) returns (j: nat)
    requires GatherStrand(d, cs, s, qs, qe).Missing?
    ensures j < |cs| && GatherStrand(d, cs, s, qs, qe).key == ChromStrand(cs[j], s) && ChromStrand(cs[j], s) !in d
    ensures forall i :: 0 <= i < j ==> ChromStrand(cs[i], s) in d
  {
    var init := cs[..|cs| - 1];
    assert forall i :: 0 <= i < |init| ==> init[i] == cs[i];
    if GatherStrand(d, init, s, qs, qe).Missing? {
      j := GatherStrandStopsAtFirst(d, init, s, qs, qe);
    } else {
      j := |cs| - 1;
      GatherStrandCompletes(d, init, s, qs, qe);
    }
  }

  /** Otherwise its labels are those some visited index reports. */
  lemma {:induction false} GatherStrandIds(d: map<Key, seq<Triple>>, cs: seq<string>, s: string, qs: int, qe: int, x: int)
    requires GatherStrand(d, cs, s, qs, qe).Labels?
    ensures x in GatherStrand(d, cs, s, qs, qe).ids <==>
      exists j :: 0 <= j < |cs| && ChromStrand(cs[j], s) in d && x in FindOverlap(d[ChromStrand(cs[j], s)], qs, qe)
  {
    if cs != [] {
      var init := cs[..|cs| - 1];
      GatherStrandIds(d, init, s, qs, qe, x);
      assert forall j :: 0 <= j < |init| ==> init[j] == cs[j];
      var ids := GatherStrand(d, init, s, qs, qe).ids;
      if x in ids {
        var j :| 0 <= j < |init| && ChromStrand(init[j], s) in d && x in FindOverlap(d[ChromStrand(init[j], s)], qs, qe);
        assert cs[j] == init[j];
      }
    }
  }

  lemma {:induction false} GatherStrandNoDup(t: Table, cs: seq<string>, s: string, qs: int, qe: int)
    requires UniqueIds(t.rows) && NoDup(cs)
    requires GatherStrand(CreateNclsDict(t), cs, s, qs, qe).Labels?
    ensures NoDup(GatherStrand(CreateNclsDict(t), cs, s, qs, qe).ids)
  {
    if cs != [] {
      var d := CreateNclsDict(t);
      var init, c := cs[..|cs| - 1], cs[|cs| - 1];
      assert forall j :: 0 <= j < |init| ==> init[j] == cs[j];
      assert NoDup(init);
      GatherStrandNoDup(t, init, s, qs, qe);
      var ids := GatherStrand(d, init, s, qs, qe).ids;
      var k := ChromStrand(c, s);
      IndexNoDup(t, k, qs, qe);
      forall x | x in ids
        ensures x !in FindOverlap(d[k], qs, qe)
      {
        GatherStrandIds(d, init, s, qs, qe, x);
        var j :| 0 <= j < |init| && ChromStrand(init[j], s) in d && x in FindOverlap(d[ChromStrand(init[j], s)], qs, qe);
        assert init[j] == cs[j] != c;
        IndexesDisjoint(t, ChromStrand(init[j], s), k, qs, qe);
      }
      NoDupAppend(ids, FindOverlap(d[k], qs, qe));
    }
  }

  /** `df.loc[ids]` for labels that are exactly those of the rows meeting `P`,
      each once: exactly the rows meeting `P`, each once. */
  lemma LocSelects(t: Table, ids: seq<int>, P: Row -> bool)
    requires UniqueIds(t.rows) && NoDup(ids)
    requires forall x :: x in ids <==> exists r :: r in t.rows && r.id == x && P(r)
    ensures NoDup(Loc(t.rows, ids))
    ensures forall y :: y in Loc(t.rows, ids) <==> y in t.rows && P(y)
  {
    LocMembership(t.rows, ids);
    forall y | y in t.rows
      ensures y.id in ids <==> P(y)
    {
      LabelPicksRow(t, y, ids, P);
    }
    LocNoDup(t.rows, ids);
  }

  /** A (chromosome, strand) index exists exactly when the frame has a Strand
      column and a row on that chromosome and strand. */
  lemma ChromStrandKeyPresent(t: Table, c: string, s: string)
    ensures ChromStrand(c, s) in CreateNclsDict(t) <==> HasRowOn(t, c, s)
  {
    DictKeyedByColumns(t);
    if HasRowOn(t, c, s) {
      var y :| y in t.rows && y.chrom == c && y.strand == s;
      assert KeyOf(t.hasStrand, y) == ChromStrand(c, s);
    }
  }

  /** The rows found by querying the "+" and then the "-" index of one
      chromosome. */
  lemma BothStrandsRows(t: Table, c: string, qs: int, qe: int)
    requires UniqueIds(t.rows)
    requires ChromStrand(c, "+") in CreateNclsDict(t) && ChromStrand(c, "-") in CreateNclsDict(t)
    ensures var d := CreateNclsDict(t);
      var sel := Loc(t.rows, FindOverlap(d[ChromStrand(c, "+")], qs, qe) + FindOverlap(d[ChromStrand(c, "-")], qs, qe));
      NoDup(sel) && forall y :: y in sel <==> y in t.rows && y.chrom == c && IsStrand(y.strand) && Overlaps(TripleOf(y), qs, qe)
  {
    var d := CreateNclsDict(t);
    var plus, minus := ChromStrand(c, "+"), ChromStrand(c, "-");
    var ids := FindOverlap(d[plus], qs, qe) + FindOverlap(d[minus], qs, qe);
    forall x
      ensures x in ids <==> exists r :: r in t.rows && r.id == x && r.chrom == c && IsStrand(r.strand) && Overlaps(TripleOf(r), qs, qe)
    {
      IndexMembership(t, plus, x, qs, qe);
      IndexMembership(t, minus, x, qs, qe);
    }
    IndexNoDup(t, plus, qs, qe);
    IndexNoDup(t, minus, qs, qe);
    IndexesDisjoint(t, plus, minus, qs, qe);
    NoDupAppend(FindOverlap(d[plus], qs, qe), FindOverlap(d[minus], qs, qe));
    LocSelects(t, ids, (r: Row) => r.chrom == c && IsStrand(r.strand) && Overlaps(TripleOf(r), qs, qe));
  }

  /** The rows found by querying one (chromosome, strand) index. */
  lemma OneKeyRows(t: Table, c: string, s: string, qs: int, qe: int)
    requires UniqueIds(t.rows) && ChromStrand(c, s) in CreateNclsDict(t)
    ensures var sel := Loc(t.rows, FindOverlap(CreateNclsDict(t)[ChromStrand(c, s)], qs, qe));
      NoDup(sel) && forall y :: y in sel <==> y in t.rows && y.chrom == c && y.strand == s && Overlaps(TripleOf(y), qs, qe)
  {
    var key := ChromStrand(c, s);
    var ids := FindOverlap(CreateNclsDict(t)[key], qs, qe);
    forall x
      ensures x in ids <==> exists r :: r in t.rows && r.id == x && r.chrom == c && r.strand == s && Overlaps(TripleOf(r), qs, qe)
    {
      IndexMembership(t, key, x, qs, qe);
    }
    IndexNoDup(t, key, qs, qe);
    LocSelects(t, ids, (r: Row) => r.chrom == c && r.strand == s && Overlaps(TripleOf(r), qs, qe));
  }

  /** Where the strand loop visits a chromosome of the frame. */
  lemma ChromVisited(rows: seq<Row>, y: Row) returns (j: nat)
    requires y in rows
    ensures j < |DistinctChroms(rows)| && DistinctChroms(rows)[j] == y.chrom
  {
    var cs := DistinctChroms(rows);
    assert y.chrom in Chromosomes(rows);
    assert y.chrom in Elems(cs);
    j :| 0 <= j < |cs| && cs[j] == y.chrom;
  }

  lemma StrandIndexesPresent(t: Table, s: string)
    requires forall y :: y in t.rows ==> ChromStrand(y.chrom, s) in CreateNclsDict(t)
    ensures forall j :: 0 <= j < |DistinctChroms(t.rows)| ==> ChromStrand(DistinctChroms(t.rows)[j], s) in CreateNclsDict(t)
  {
    var cs := DistinctChroms(t.rows);
    forall j | 0 <= j < |cs|
      ensures ChromStrand(cs[j], s) in CreateNclsDict(t)
    {
      assert cs[j] in Elems(cs);
      var y :| y in t.rows && y.chrom == cs[j];
    }
  }

  /** The labels gathered by the strand loop when every chromosome has an
      index for the strand. */
  lemma StrandLoopLabels(t: Table, s: string, qs: int, qe: int, x: int)
    requires forall j :: 0 <= j < |DistinctChroms(t.rows)| ==> ChromStrand(DistinctChroms(t.rows)[j], s) in CreateNclsDict(t)
    ensures GatherStrand(CreateNclsDict(t), DistinctChroms(t.rows), s, qs, qe).Labels?
    ensures x in GatherStrand(CreateNclsDict(t), DistinctChroms(t.rows), s, qs, qe).ids <==>
      exists r :: r in t.rows && r.id == x && r.strand == s && Overlaps(TripleOf(r), qs, qe)
  {
    var d := CreateNclsDict(t);
    var cs := DistinctChroms(t.rows);
    GatherStrandCompletes(d, cs, s, qs, qe);
    GatherStrandIds(d, cs, s, qs, qe, x);
    if x in GatherStrand(d, cs, s, qs, qe).ids {
      var j :| 0 <= j < |cs| && ChromStrand(cs[j], s) in d && x in FindOverlap(d[ChromStrand(cs[j], s)], qs, qe);
      IndexMembership(t, ChromStrand(cs[j], s), x, qs, qe);
    }
    if exists r :: r in t.rows && r.id == x && r.strand == s && Overlaps(TripleOf(r), qs, qe) {
      var r :| r in t.rows && r.id == x && r.strand == s && Overlaps(TripleOf(r), qs, qe);
      var j := ChromVisited(t.rows, r);
      DictKeyedByColumns(t);
      assert KeyOf(t.hasStrand, r) == ChromStrand(cs[j], s);
      IndexMembership(t, ChromStrand(cs[j], s), x, qs, qe);
    }
  }

  /** The rows found by the strand loop when every chromosome has an index
      for the strand. */
  lemma StrandLoopRows(t: Table, s: string, qs: int, qe: int)
    requires UniqueIds(t.rows)
    requires forall y :: y in t.rows ==> ChromStrand(y.chrom, s) in CreateNclsDict(t)
    ensures var gs := GatherStrand(CreateNclsDict(t), DistinctChroms(t.rows), s, qs, qe);
      gs.Labels? && NoDup(Loc(t.rows, gs.ids))
      && forall y :: y in Loc(t.rows, gs.ids) <==> y in t.rows && y.strand == s && Overlaps(TripleOf(y), qs, qe)
  {
    var cs := DistinctChroms(t.rows);
    StrandIndexesPresent(t, s);
    var d := CreateNclsDict(t);
    GatherStrandCompletes(d, cs, s, qs, qe);
    var ids := GatherStrand(d, cs, s, qs, qe).ids;
    forall x
      ensures x in ids <==> exists r :: r in t.rows && r.id == x && r.strand == s && Overlaps(TripleOf(r), qs, qe)
    {
      StrandLoopLabels(t, s, qs, qe, x);
    }
    GatherStrandNoDup(t, cs, s, qs, qe);
    LocSelects(t, ids, (r: Row) => r.strand == s && Overlaps(TripleOf(r), qs, qe));
  }

  /** The strand loop raises KeyError for the first chromosome, in order of
      first appearance, that has no row on the strand. */
  lemma StrandLoopMissing(t: Table, s: string, qs: int, qe: int, y: Row) returns (j: nat)
    requires y in t.rows && !HasRowOn(t, y.chrom, s)
    ensures j < |DistinctChroms(t.rows)| && !HasRowOn(t, DistinctChroms(t.rows)[j], s)
    ensures forall i :: 0 <= i < j ==> HasRowOn(t, DistinctChroms(t.rows)[i], s)
    ensures GatherStrand(CreateNclsDict(t), DistinctChroms(t.rows), s, qs, qe) == Missing(ChromStrand(DistinctChroms(t.rows)[j], s))
  {
    var d := CreateNclsDict(t);
    var cs := DistinctChroms(t.rows);
    var k := ChromVisited(t.rows, y);
    ChromStrandKeyPresent(t, y.chrom, s);
    GatherStrandCompletes(d, cs, s, qs, qe);
    j := GatherStrandStopsAtFirst(d, cs, s, qs, qe);
    ChromStrandKeyPresent(t, cs[j], s);
    forall i | 0 <= i < j
      ensures HasRowOn(t, cs[i], s)
    {
      assert ChromStrand(cs[i], s) in d;
      ChromStrandKeyPresent(t, cs[i], s);
    }
  }

  /** The rows a bare slice finds. */
  lemma BareSliceRows(t: Table, qs: int, qe: int)
    requires UniqueIds(t.rows)
    ensures var sel := Loc(t.rows, GatherAll(CreateNclsDict(t), OrderedKeys(t), qs, qe));
      NoDup(sel) && forall y :: y in sel <==> y in t.rows && Overlaps(TripleOf(y), qs, qe)
  {
    var ks := OrderedKeys(t);
    var ids := GatherAll(CreateNclsDict(t), ks, qs, qe);
    forall x
      ensures x in ids <==> exists r :: r in t.rows && r.id == x && Overlaps(TripleOf(r), qs, qe)
    {
      BareSliceLabels(t, qs, qe, x);
    }
    SortedHasNoDup(ks);
    OrderedKeysIndexed(t);
    GatherAllNoDup(t, ks, qs, qe);
    LocSelects(t, ids, (r: Row) => Overlaps(TripleOf(r), qs, qe));
  }

  // ---------------------------------------------------------------------------
  // __getitem__, selector form by selector form

  /** A string naming a chromosome of the frame selects exactly that
      chromosome's rows, in frame order. The chromosome test is made first, so
      this holds even for a chromosome named "+" or "-". */
  lemma StringSelectsChromosome(g: GRanges, s: string)
    requires g.Valid() && s in Chromosomes(g.df.rows)
    ensures Select(g, SStr(s)).Selected?
    ensures Select(g, SStr(s)).gr.df.hasStrand == g.df.hasStrand
    ensures IsSubsequence(Select(g, SStr(s)).gr.df.rows, g.df.rows)
    ensures forall x :: multiset(Select(g, SStr(s)).gr.df.rows)[x] == if x.chrom == s then multiset(g.df.rows)[x] else 0
  {
    WhereIsFilter(g.df.rows, OnChrom(s));
  }

  /** A string that is no chromosome of the frame: "+" or "-" selects exactly
      the rows on that strand (an AttributeError without a Strand column);
      anything else raises. */
  lemma StringNotChromosome(g: GRanges, s: string)
    requires g.Valid() && s !in Chromosomes(g.df.rows)
    ensures !IsStrand(s) ==> Select(g, SStr(s)) == Raised(InvalidString(s))
    ensures IsStrand(s) && !g.df.hasStrand ==> Select(g, SStr(s)) == Raised(NoStrandColumn)
    ensures IsStrand(s) && g.df.hasStrand ==>
      Select(g, SStr(s)).Selected?
      && IsSubsequence(Select(g, SStr(s)).gr.df.rows, g.df.rows)
      && forall x :: multiset(Select(g, SStr(s)).gr.df.rows)[x] == if x.strand == s then multiset(g.df.rows)[x] else 0
  {
    WhereIsFilter(g.df.rows, OnStrand(s));
  }

  /** `(chromosome, strand)` selects exactly the rows matching both fields;
      the chromosome need not occur in the frame. */
  lemma PairSelectsChromAndStrand(g: GRanges, c: string, s: string)
    requires g.Valid() && IsStrand(s)
    ensures !g.df.hasStrand ==> Select(g, STuple([IStr(c), IStr(s)])) == Raised(NoStrandColumn)
    ensures g.df.hasStrand ==>
      Select(g, STuple([IStr(c), IStr(s)])).Selected?
      && IsSubsequence(Select(g, STuple([IStr(c), IStr(s)])).gr.df.rows, g.df.rows)
      && forall x :: multiset(Select(g, STuple([IStr(c), IStr(s)])).gr.df.rows)[x]
                     == if x.chrom == c && x.strand == s then multiset(g.df.rows)[x] else 0
  {
    WhereIsFilter(g.df.rows, OnChromStrand(c, s));
  }

  /** A bare slice selects, once each, exactly the rows overlapping the
      half-open range between its bounds, `start or 0` and
      `stop or max(End.max(), start)`. */
  lemma BareSliceSelectsOverlaps(g: GRanges, start: Option<int>, stop: Option<int>)
    requires g.Valid() && UniqueIds(g.df.rows)
    ensures Select(g, SSlice(start, stop)).Selected?
    ensures NoDup(Select(g, SSlice(start, stop)).gr.df.rows)
    ensures forall y :: y in Select(g, SSlice(start, stop)).gr.df.rows <==>
      y in g.df.rows && Overlaps(TripleOf(y), OrZero(start), DefaultStop(stop, OrZero(start), g.df.rows))
  {
    BareSliceRows(g.df, OrZero(start), DefaultStop(stop, OrZero(start), g.df.rows));
  }

  /** `g[:]` on a frame of well-formed intervals (0 <= Start < End, as the
      property-test generator makes them) selects every row exactly once. */
  lemma FullSliceSelectsEveryRow(g: GRanges)
    requires g.Valid() && UniqueIds(g.df.rows)
    requires forall r :: r in g.df.rows ==> 0 <= r.start < r.end
    ensures Select(g, SSlice(None, None)).Selected?
    ensures NoDup(Select(g, SSlice(None, None)).gr.df.rows)
    ensures forall y :: y in Select(g, SSlice(None, None)).gr.df.rows <==> y in g.df.rows
  {
    BareSliceSelectsOverlaps(g, None, None);
  }

  /** The default stop of the chromosome-qualified forms is the largest End
      on that chromosome alone (or the start, if that is larger). */
  lemma ChromDefaultStop(g: GRanges, c: string, start: Option<int>)
    requires g.Valid() && c in Chromosomes(g.df.rows)
    ensures var qe := DefaultStop(None, OrZero(start), Where(g.df.rows, OnChrom(c)));
      qe >= OrZero(start)
      && (forall y :: y in g.df.rows && y.chrom == c ==> y.end <= qe)
      && (qe == OrZero(start) || exists y :: y in g.df.rows && y.chrom == c && y.end == qe)
  {
    WhereIsFilter(g.df.rows, OnChrom(c));
  }

  /** `(chromosome, slice)` queries the (chromosome, "+") index, then the
      (chromosome, "-") one: either missing raises KeyError, the "+" key first;
      otherwise it selects, once each, the rows of that chromosome on either
      strand that overlap the range. Rows of that chromosome on any other
      strand are never selected. */
  lemma ChromSliceQueriesBothStrands(g: GRanges, c: string, start: Option<int>, stop: Option<int>)
    requires g.Valid() && c in Chromosomes(g.df.rows)
    ensures !HasRowOn(g.df, c, "+") ==>
      Select(g, STuple([IStr(c), ISlice(start, stop)])) == Raised(MissingKey(ChromStrand(c, "+")))
    ensures HasRowOn(g.df, c, "+") && !HasRowOn(g.df, c, "-") ==>
      Select(g, STuple([IStr(c), ISlice(start, stop)])) == Raised(MissingKey(ChromStrand(c, "-")))
    ensures HasRowOn(g.df, c, "+") && HasRowOn(g.df, c, "-") && UniqueIds(g.df.rows) ==>
      var r := Select(g, STuple([IStr(c), ISlice(start, stop)]));
      var qe := DefaultStop(stop, OrZero(start), Where(g.df.rows, OnChrom(c)));
      r.Selected? && NoDup(r.gr.df.rows)
      && forall y :: y in r.gr.df.rows <==>
           y in g.df.rows && y.chrom == c && IsStrand(y.strand) && Overlaps(TripleOf(y), OrZero(start), qe)
  {
    ChromStrandKeyPresent(g.df, c, "+");
    ChromStrandKeyPresent(g.df, c, "-");
    if HasRowOn(g.df, c, "+") && HasRowOn(g.df, c, "-") && UniqueIds(g.df.rows) {
      BothStrandsRows(g.df, c, OrZero(start), DefaultStop(stop, OrZero(start), Where(g.df.rows, OnChrom(c))));
    }
  }

  /** `(strand, slice)` for a strand that is no chromosome name: without a
      stop it raises, because `chromosome` is read before it is bound;
      otherwise it visits the chromosomes in order of first appearance,
      raises KeyError at the first one with no row on that strand, and else
      selects, once each, the rows on that strand overlapping the range. */
  lemma StrandSliceSelectsStrand(g: GRanges, s: string, start: Option<int>, stop: Option<int>)
    requires g.Valid() && IsStrand(s) && s !in Chromosomes(g.df.rows)
    ensures !Truthy(stop) ==> Select(g, STuple([IStr(s), ISlice(start, stop)])) == Raised(UnboundChromosome)
    ensures Truthy(stop) && (exists y :: y in g.df.rows && !HasRowOn(g.df, y.chrom, s)) ==>
      exists j :: 0 <= j < |DistinctChroms(g.df.rows)| && !HasRowOn(g.df, DistinctChroms(g.df.rows)[j], s)
        && (forall i :: 0 <= i < j ==> HasRowOn(g.df, DistinctChroms(g.df.rows)[i], s))
        && Select(g, STuple([IStr(s), ISlice(start, stop)])) == Raised(MissingKey(ChromStrand(DistinctChroms(g.df.rows)[j], s)))
    ensures Truthy(stop) && UniqueIds(g.df.rows) && (forall y :: y in g.df.rows ==> HasRowOn(g.df, y.chrom, s)) ==>
      var r := Select(g, STuple([IStr(s), ISlice(start, stop)]));
      r.Selected? && NoDup(r.gr.df.rows)
      && forall y :: y in r.gr.df.rows <==> y in g.df.rows && y.strand == s && Overlaps(TripleOf(y), OrZero(start), stop.value)
  {
    var t := g.df;
    if Truthy(stop) {
      var qs, qe := OrZero(start), stop.value;
      if exists y :: y in t.rows && !HasRowOn(t, y.chrom, s) {
        var y :| y in t.rows && !HasRowOn(t, y.chrom, s);
        var j := StrandLoopMissing(t, s, qs, qe, y);
        var cs := DistinctChroms(t.rows);
        assert Select(g, STuple([IStr(s), ISlice(start, stop)])) == Raised(MissingKey(ChromStrand(cs[j], s)));
      }
      if UniqueIds(t.rows) && forall y :: y in t.rows ==> HasRowOn(t, y.chrom, s) {
        forall y | y in t.rows
          ensures ChromStrand(y.chrom, s) in g.ncls
        {
          ChromStrandKeyPresent(t, y.chrom, s);
        }
        StrandLoopRows(t, s, qs, qe);
      }
    }
  }

  /** `(chromosome, strand, slice)` for a chromosome of the frame queries
      that one index: a third element that is no slice raises, a missing key
      raises KeyError, and otherwise it selects, once each, the rows on that
      chromosome and strand overlapping the range. */
  lemma ChromStrandSliceQueriesOneKey(g: GRanges, c: string, s: string, item: Item)
    requires g.Valid() && c in Chromosomes(g.df.rows) && IsStrand(s)
    ensures !item.ISlice? ==> Select(g, STuple([IStr(c), IStr(s), item])) == Raised(NotASlice)
    ensures item.ISlice? && !HasRowOn(g.df, c, s) ==>
      Select(g, STuple([IStr(c), IStr(s), item])) == Raised(MissingKey(ChromStrand(c, s)))
    ensures item.ISlice? && HasRowOn(g.df, c, s) && UniqueIds(g.df.rows) ==>
      var r := Select(g, STuple([IStr(c), IStr(s), item]));
      var qs := OrZero(item.start);
      var qe := DefaultStop(item.stop, qs, Where(g.df.rows, OnChrom(c)));
      r.Selected? && NoDup(r.gr.df.rows)
      && forall y :: y in r.gr.df.rows <==> y in g.df.rows && y.chrom == c && y.strand == s && Overlaps(TripleOf(y), qs, qe)
  {
    ChromStrandKeyPresent(g.df, c, s);
    if item.ISlice? && HasRowOn(g.df, c, s) && UniqueIds(g.df.rows) {
      var qs := OrZero(item.start);
      OneKeyRows(g.df, c, s, qs, DefaultStop(item.stop, qs, Where(g.df.rows, OnChrom(c))));
    }
  }

  /** Selectors that match no branch return None rather than raising: any
      type other than str, tuple and slice, and exactly those tuples that fit
      none of the four tuple forms (a triple whose first element is no
      chromosome of the frame among them). */
  lemma UnmatchedSelectorsReturnNone(g: GRanges, items: seq<Item>)
    requires g.Valid()
    ensures Select(g, SOther) == ReturnsNone
    ensures Select(g, STuple(items)) == ReturnsNone <==>
      !ChromSlice(g, items) && !StrandSlice(items) && !ChromStrandPair(items) && !ChromStrandSlice(g, items)
    ensures |items| == 3 && !(items[0].IStr? && items[0].s in Chromosomes(g.df.rows)) ==>
      Select(g, STuple(items)) == ReturnsNone
  {
  }
}
