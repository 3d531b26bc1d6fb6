/** `create_ncls` and `create_ncls_dict`: the frame is split by `groupby` on
    the chromosome (or on chromosome and strand when there is a Strand
    column) and every group gets an interval index over its
    (Start, End, label) triples. */
module NclsDict {
  import opened Intervals

  /** The rows whose key is one of `ks`, in table order. */
  function GroupIn(hasStrand: bool, rows: seq<Row>, ks: set<Key>): seq<Row> {
    if rows == [] then []
    else (if KeyOf(hasStrand, rows[0]) in ks then [rows[0]] else []) + GroupIn(hasStrand, rows[1..], ks)
  }

  /** One group of the groupby: the rows filed under `k`, in table order. */
  function Group(hasStrand: bool, rows: seq<Row>, k: Key): seq<Row> {
    GroupIn(hasStrand, rows, {k})
  }

  /** A group holds exactly the rows filed under its key. */
  lemma {:induction false} GroupMembers(hasStrand: bool, rows: seq<Row>, k: Key)
    ensures forall r :: r in Group(hasStrand, rows, k) <==> r in rows && KeyOf(hasStrand, r) == k
  {
    if rows != [] {
      GroupMembers(hasStrand, rows[1..], k);
      assert rows == [rows[0]] + rows[1..];
    }
  }

  /** `create_ncls`: the triples the index of one group is built from. */
  function CreateNcls(cdf: seq<Row>): (ts: seq<Triple>)
    ensures |ts| == |cdf|
    ensures forall i :: 0 <= i < |cdf| ==> ts[i] == TripleOf(cdf[i])
  {
    if cdf == [] then [] else [TripleOf(cdf[0])] + CreateNcls(cdf[1..])
  }

  /** The keys `df.groupby` finds in the frame. */
  function KeySet(t: Table): set<Key> {
    set r | r in t.rows :: KeyOf(t.hasStrand, r)
  }

  /** `create_ncls_dict`: one index per key. */
  function CreateNclsDict(t: Table): map<Key, seq<Triple>> {
    map k | k in KeySet(t) :: CreateNcls(Group(t.hasStrand, t.rows, k))
  }

  predicate StrictlySorted(ks: seq<Key>) {
    forall i, j :: 0 <= i < j < |ks| ==> KeyLess(ks[i], ks[j])
  }

  function InsertKey(k: Key, ks: seq<Key>): seq<Key> {
    if ks == [] then [k]
    else if k == ks[0] then ks
    else if KeyLess(k, ks[0]) then [k] + ks
    else [ks[0]] + InsertKey(k, ks[1..])
  }

  lemma ConsSorted(x: Key, rest: seq<Key>)
    requires StrictlySorted(rest) && forall y :: y in rest ==> KeyLess(x, y)
    ensures StrictlySorted([x] + rest)
  {
    var r := [x] + rest;
    forall i, j | 0 <= i < j < |r|
      ensures KeyLess(r[i], r[j])
    {
      assert r[j] == rest[j - 1] && r[j] in rest;
      if i > 0 {
        assert r[i] == rest[i - 1];
      }
    }
  }

  lemma {:induction false} InsertKeySorted(k: Key, ks: seq<Key>)
    requires StrictlySorted(ks)
    ensures StrictlySorted(InsertKey(k, ks))
    ensures Elems(InsertKey(k, ks)) == Elems(ks) + {k}
  {
    if ks == [] {
    } else if k == ks[0] {
    } else if KeyLess(k, ks[0]) {
      forall j | 0 < j < |ks|
        ensures KeyLess(k, ks[j])
      {
        KeyLessTransitive(k, ks[0], ks[j]);
      }
    } else {
      KeyLessTotal(k, ks[0]);
      var tail := ks[1..];
      InsertKeySorted(k, tail);
      var rest := InsertKey(k, tail);
      assert ks == [ks[0]] + tail;
      ElemsCons(ks[0], tail);
      ElemsCons(ks[0], rest);
      forall x | x in rest
        ensures KeyLess(ks[0], x)
      {
        if x != k {
          assert x in Elems(rest);
          assert x in Elems(tail);
          var j :| 0 <= j < |tail| && tail[j] == x;
          assert ks[j + 1] == x;
        }
      }
      ConsSorted(ks[0], rest);
    }
  }

  /** The keys of the groupby in its iteration order: sorted, each once. */
  function SortedKeys(hasStrand: bool, rows: seq<Row>): (ks: seq<Key>)
    ensures StrictlySorted(ks)
    ensures Elems(ks) == set r | r in rows :: KeyOf(hasStrand, r)
  {
    if rows == [] then []
    else
      var rest := SortedKeys(hasStrand, rows[1..]);
      InsertKeySorted(KeyOf(hasStrand, rows[0]), rest);
      assert rows == [rows[0]] + rows[1..];
      InsertKey(KeyOf(hasStrand, rows[0]), rest)
  }

  /** The order in which `create_ncls_dict(...).values()` is iterated. */
  function OrderedKeys(t: Table): (ks: seq<Key>)
    ensures StrictlySorted(ks)
    ensures Elems(ks) == KeySet(t) == CreateNclsDict(t).Keys
  {
    SortedKeys(t.hasStrand, t.rows)
  }

  lemma SortedHasNoDup(ks: seq<Key>)
    requires StrictlySorted(ks)
    ensures NoDup(ks)
  {
    forall i, j | 0 <= i < j < |ks|
      ensures ks[i] != ks[j]
    {
      KeyLessIrreflexive(ks[i]);
    }
  }

  /** `[r[2] for r in ncls.find_overlap(qs, qe)]`. NCLS itself is not part of
      this model: it is taken to report exactly the triples that overlap the
      half-open query [qs, qe), in the order the index was built from. */
  function FindOverlap(ts: seq<Triple>, qs: int, qe: int): (ids: seq<int>)
    ensures forall x :: x in ids <==> exists t :: t in ts && t.id == x && Overlaps(t, qs, qe)
  {
    if ts == [] then []
    else
      assert ts == [ts[0]] + ts[1..];
      (if Overlaps(ts[0], qs, qe) then [ts[0].id] else []) + FindOverlap(ts[1..], qs, qe)
  }

  /** The indexes of `ks`, one after the other. */
  function FlatIndex(d: map<Key, seq<Triple>>, ks: seq<Key>): seq<Triple>
    requires forall k :: k in ks ==> k in d
  {
    if ks == [] then [] else FlatIndex(d, ks[..|ks| - 1]) + d[ks[|ks| - 1]]
  }

  lemma {:induction false} GroupInNone(hasStrand: bool, rows: seq<Row>)
    ensures GroupIn(hasStrand, rows, {}) == []
  {
    if rows != [] {
      GroupInNone(hasStrand, rows[1..]);
    }
  }

  lemma {:induction false} GroupInAll(hasStrand: bool, rows: seq<Row>, ks: set<Key>)
    requires forall r :: r in rows ==> KeyOf(hasStrand, r) in ks
    ensures GroupIn(hasStrand, rows, ks) == rows
  {
    if rows != [] {
      assert rows == [rows[0]] + rows[1..];
      GroupInAll(hasStrand, rows[1..], ks);
    }
  }

  lemma CreateNclsCons(x: Row, s: seq<Row>)
    ensures CreateNcls([x] + s) == [TripleOf(x)] + CreateNcls(s)
  {
    assert ([x] + s)[1..] == s;
  }

  /** One row of `rows` moves into the index of at most one group. */
  lemma GroupInStep(hasStrand: bool, rows: seq<Row>, ks: set<Key>)
    requires rows != []
    ensures multiset(CreateNcls(GroupIn(hasStrand, rows, ks)))
         == (if KeyOf(hasStrand, rows[0]) in ks then multiset{TripleOf(rows[0])} else multiset{})
            + multiset(CreateNcls(GroupIn(hasStrand, rows[1..], ks)))
  {
    var rest := GroupIn(hasStrand, rows[1..], ks);
    if KeyOf(hasStrand, rows[0]) in ks {
      assert GroupIn(hasStrand, rows, ks) == [rows[0]] + rest;
      CreateNclsCons(rows[0], rest);
    } else {
      assert GroupIn(hasStrand, rows, ks) == rest;
    }
  }

  /** Multiset bookkeeping for one row of `SplitGroupIn`. */
  lemma SplitStep<T>(m: multiset<T>, inAll: bool, inKs: bool, isK: bool, a: multiset<T>, b: multiset<T>, c: multiset<T>, whole: multiset<T>, part: multiset<T>, one: multiset<T>)
    requires inAll == (inKs || isK) && !(inKs && isK)
    requires a == b + c
    requires whole == (if inAll then m else multiset{}) + a
    requires part == (if inKs then m else multiset{}) + b
    requires one == (if isK then m else multiset{}) + c
    ensures whole == part + one
  {
  }

  lemma {:induction false} SplitGroupIn(hasStrand: bool, rows: seq<Row>, ks: set<Key>, k: Key)
    requires k !in ks
    ensures multiset(CreateNcls(GroupIn(hasStrand, rows, ks + {k})))
         == multiset(CreateNcls(GroupIn(hasStrand, rows, ks))) + multiset(CreateNcls(Group(hasStrand, rows, k)))
  {
    if rows != [] {
      var tail := rows[1..];
      SplitGroupIn(hasStrand, tail, ks, k);
      GroupInStep(hasStrand, rows, ks + {k});
      GroupInStep(hasStrand, rows, ks);
      GroupInStep(hasStrand, rows, {k});
      var x := KeyOf(hasStrand, rows[0]);
      SplitStep(multiset{TripleOf(rows[0])}, x in ks + {k}, x in ks, x in {k},
        multiset(CreateNcls(GroupIn(hasStrand, tail, ks + {k}))),
        multiset(CreateNcls(GroupIn(hasStrand, tail, ks))), multiset(CreateNcls(Group(hasStrand, tail, k))),
        multiset(CreateNcls(GroupIn(hasStrand, rows, ks + {k}))),
        multiset(CreateNcls(GroupIn(hasStrand, rows, ks))), multiset(CreateNcls(Group(hasStrand, rows, k))));
    }
  }

  lemma {:induction false} FlatIndexGroups(t: Table, ks: seq<Key>)
    requires NoDup(ks)
    requires forall k :: k in ks ==> k in CreateNclsDict(t)
    ensures multiset(FlatIndex(CreateNclsDict(t), ks))
         == multiset(CreateNcls(GroupIn(t.hasStrand, t.rows, Elems(ks))))
  {
    if ks == [] {
      assert Elems(ks) == {};
      GroupInNone(t.hasStrand, t.rows);
    } else {
      var init, k := ks[..|ks| - 1], ks[|ks| - 1];
      assert ks == init + [k];
      assert Elems(ks) == Elems(init) + {k};
      assert k !in Elems(init);
      FlatIndexGroups(t, init);
      SplitGroupIn(t.hasStrand, t.rows, Elems(init), k);
    }
  }

  /** The groups are exhaustive and disjoint: laid end to end in iteration
      order, the indexes hold every row's triple exactly as often as the frame
      does. */
  lemma GroupsPartitionRows(t: Table)
    ensures multiset(FlatIndex(CreateNclsDict(t), OrderedKeys(t))) == multiset(CreateNcls(t.rows))
  {
    var ks := OrderedKeys(t);
    SortedHasNoDup(ks);
    FlatIndexGroups(t, ks);
    GroupInAll(t.hasStrand, t.rows, Elems(ks));
  }

  /** The keys are the chromosomes when the frame has no Strand column and the
      (chromosome, strand) pairs when it has one; each names a non-empty group. */
  lemma DictKeyedByColumns(t: Table)
    ensures forall k :: k in CreateNclsDict(t) <==> exists r :: r in t.rows && KeyOf(t.hasStrand, r) == k
    ensures forall k :: k in CreateNclsDict(t) ==> k.ChromStrand? == t.hasStrand && |CreateNclsDict(t)[k]| > 0
  {
    forall k | k in CreateNclsDict(t)
      ensures |CreateNclsDict(t)[k]| > 0
    {
      var r :| r in t.rows && KeyOf(t.hasStrand, r) == k;
      GroupMembers(t.hasStrand, t.rows, k);
      assert r in Group(t.hasStrand, t.rows, k);
    }
  }

  /** Each row's triple is in the index of its own key. */
  lemma RowIndexedUnderItsKey(t: Table, i: nat)
    requires i < |t.rows|
    ensures KeyOf(t.hasStrand, t.rows[i]) in CreateNclsDict(t)
    ensures TripleOf(t.rows[i]) in CreateNclsDict(t)[KeyOf(t.hasStrand, t.rows[i])]
  {
    var r := t.rows[i];
    var key := KeyOf(t.hasStrand, r);
    assert key in KeySet(t);
    var grp := Group(t.hasStrand, t.rows, key);
    GroupMembers(t.hasStrand, t.rows, key);
    assert r in grp;
    var p :| 0 <= p < |grp| && grp[p] == r;
    assert CreateNcls(grp)[p] == TripleOf(r);
  }

  /** With unique labels, a row's triple is in no index but its own key's. */
  lemma RowInNoOtherIndex(t: Table, i: nat, k: Key)
    requires i < |t.rows| && UniqueIds(t.rows)
    requires k in CreateNclsDict(t) && k != KeyOf(t.hasStrand, t.rows[i])
    ensures TripleOf(t.rows[i]) !in CreateNclsDict(t)[k]
  {
    var grp := Group(t.hasStrand, t.rows, k);
    GroupMembers(t.hasStrand, t.rows, k);
    var ts := CreateNcls(grp);
    assert ts == CreateNclsDict(t)[k];
    forall p | 0 <= p < |ts|
      ensures ts[p] != TripleOf(t.rows[i])
    {
      assert grp[p] in grp;
      var j :| 0 <= j < |t.rows| && t.rows[j] == grp[p];
      assert j != i;
    }
  }
}
