/** The legacy `GRanges` class: a frame, the per-key indexes `__init__` builds
    from it once, and `__getitem__`, which dispatches on the selector it is
    given and returns a new GRanges, raises, or falls through to None. */
module GRangesModel {
  import opened Intervals
  import opened NclsDict

  datatype GRanges = GRanges(df: Table, ncls: map<Key, seq<Triple>>) {
    /** `__init__` sets `__ncls__` to `create_ncls_dict(df)`; nothing changes either field later. */
    predicate Valid() {
      ncls == CreateNclsDict(df)
    }
  }

  /** `GRanges(df)`. */
  function New(df: Table): (g: GRanges)
    ensures g.Valid() && g.df == df
  {
    GRanges(df, CreateNclsDict(df))
  }

  /** One element of a tuple selector. */
  datatype Item = IStr(s: string) | ISlice(start: Option<int>, stop: Option<int>) | IOther

  /** The argument of `__getitem__`: a str, a tuple, a slice, or anything else. */
  datatype Selector =
    | SStr(s: string)
    | STuple(items: seq<Item>)
    | SSlice(start: Option<int>, stop: Option<int>)
    | SOther

  /** The exceptions `__getitem__` can raise. */
  datatype Error =
    | InvalidString(s: string)  // the Exception for a str that is neither chromosome nor strand
    | NoStrandColumn            // AttributeError from `self.df.Strand`
    | MissingKey(key: Key)      // KeyError from `self.__ncls__[key]`
    | UnboundChromosome         // UnboundLocalError: `chromosome` read before assignment
    | NotASlice                 // AttributeError from `loc.start` on a third element that is no slice

  datatype Outcome = Selected(gr: GRanges) | Raised(error: Error) | ReturnsNone

  /** A boolean mask over the frame's Chromosome and Strand columns. */
  datatype Mask = OnChrom(c: string) | OnStrand(s: string) | OnChromStrand(c: string, s: string)

  predicate Matches(m: Mask, r: Row) {
    match m
    case OnChrom(c) => r.chrom == c
    case OnStrand(s) => r.strand == s
    case OnChromStrand(c, s) => r.chrom == c && r.strand == s
  }

  /** `df.loc[mask]`: the rows the mask holds for, in frame order. */
  function Where(rows: seq<Row>, m: Mask): seq<Row> {
    if rows == [] then []
    else (if Matches(m, rows[0]) then [rows[0]] else []) + Where(rows[1..], m)
  }

  /** The rows labelled `x`, in frame order. */
  function Labelled(rows: seq<Row>, x: int): (ls: seq<Row>)
    ensures forall r :: r in ls <==> r in rows && r.id == x
  {
    if rows == [] then []
    else
      assert rows == [rows[0]] + rows[1..];
      (if rows[0].id == x then [rows[0]] else []) + Labelled(rows[1..], x)
  }

  /** `df.loc[ids]`: for each label in turn, every row with that label. */
  function Loc(rows: seq<Row>, ids: seq<int>): seq<Row> {
    if ids == [] then [] else Loc(rows, ids[..|ids| - 1]) + Labelled(rows, ids[|ids| - 1])
  }

  /** The result of `GRanges(df.loc[...])`: same columns, the given rows. */
  function Wrap(g: GRanges, rows: seq<Row>): GRanges {
    New(g.df.(rows := rows))
  }

  function Chromosomes(rows: seq<Row>): set<string> {
    set r | r in rows :: r.chrom
  }

  /** `df.End.max()` on a frame with at least one row. */
  function MaxEnd(rows: seq<Row>): (m: int)
    requires rows != []
    ensures forall r :: r in rows ==> r.end <= m
    ensures exists r :: r in rows && r.end == m
  {
    assert rows == [rows[0]] + rows[1..];
    if |rows| == 1 then rows[0].end
    else
      var m := MaxEnd(rows[1..]);
      if rows[0].end > m then rows[0].end else m
  }

  /** A slice bound is used as given unless it is None or 0. */
  predicate Truthy(bound: Option<int>) {
    bound.Some? && bound.value != 0
  }

  /** `loc.start or 0`. */
  function OrZero(bound: Option<int>): int {
    if Truthy(bound) then bound.value else 0
  }

  /** `loc.stop or max(rows.End.max(), start)`. On a frame with no rows pandas
      gives NaN for the maximum; no index is ever queried with it, and the
      model uses `start`. */
  function DefaultStop(stop: Option<int>, start: int, rows: seq<Row>): (qe: int)
    ensures Truthy(stop) ==> qe == stop.value
    ensures !Truthy(stop) ==> qe >= start && forall r :: r in rows ==> r.end <= qe
    ensures !Truthy(stop) ==> qe == start || exists r :: r in rows && r.end == qe
  {
    if Truthy(stop) then stop.value
    else if rows == [] then start
    else
      var m := MaxEnd(rows);
      if m >= start then m else start
  }

  /** `df.Chromosome.drop_duplicates()`: each chromosome once, in order of
      first appearance. */
  function DistinctChroms(rows: seq<Row>): (cs: seq<string>)
    ensures NoDup(cs)
    ensures Elems(cs) == Chromosomes(rows)
  {
    if rows == [] then []
    else
      var init := rows[..|rows| - 1];
      var c := rows[|rows| - 1].chrom;
      var cs := DistinctChroms(init);
      assert rows == init + [rows[|rows| - 1]];
      assert Chromosomes(rows) == Chromosomes(init) + {c};
      if c in cs then cs
      else
        assert c !in Elems(cs);
        assert Elems(cs + [c]) == Elems(cs) + {c};
        cs + [c]
  }

  /** Some row before position `b` is on chromosome `c`. */
  predicate SeenBefore(rows: seq<Row>, c: string, b: int) {
    exists a :: 0 <= a < b && a < |rows| && rows[a].chrom == c
  }

  /** `drop_duplicates` keeps first appearances: wherever a later-listed
      chromosome occurs in the frame, every earlier-listed one has occurred
      before it. */
  lemma {:induction false} DistinctChromsFirstAppearance(rows: seq<Row>)
    ensures forall i, j, b ::
              0 <= i < j < |DistinctChroms(rows)| && 0 <= b < |rows| && rows[b].chrom == DistinctChroms(rows)[j]
              ==> SeenBefore(rows, DistinctChroms(rows)[i], b)
  {
    if rows != [] {
      var init, last := rows[..|rows| - 1], rows[|rows| - 1];
      assert rows == init + [last];
      var cs0, cs := DistinctChroms(init), DistinctChroms(rows);
      DistinctChromsFirstAppearance(init);
      forall i, j, b | 0 <= i < j < |cs| && 0 <= b < |rows| && rows[b].chrom == cs[j]
        ensures SeenBefore(rows, cs[i], b)
      {
        assert i < |cs0| && cs[i] == cs0[i];
        if b < |init| {
          assert rows[b] == init[b];
          assert init[b].chrom in Chromosomes(init);
          assert j < |cs0| && cs[j] == cs0[j];
          var a :| 0 <= a < b && a < |init| && init[a].chrom == cs0[i];
          assert rows[a] == init[a];
        } else {
          assert cs0[i] in Elems(cs0);
          var r :| r in init && r.chrom == cs0[i];
          var a :| 0 <= a < |init| && init[a] == r;
          assert rows[a] == init[a];
        }
      }
    }
  }

  /** The labels every index reports for [qs, qe), the indexes taken in `ks` order. */
  function GatherAll(d: map<Key, seq<Triple>>, ks: seq<Key>, qs: int, qe: int): seq<int>
    requires forall k :: k in ks ==> k in d
  {
    if ks == [] then [] else GatherAll(d, ks[..|ks| - 1], qs, qe) + FindOverlap(d[ks[|ks| - 1]], qs, qe)
  }

  datatype Gathered = Labels(ids: seq<int>) | Missing(key: Key)

  /** The labels the (c, strand) indexes report for [qs, qe), chromosome by
      chromosome; the first chromosome without such an index stops it. */
  function GatherStrand(d: map<Key, seq<Triple>>, cs: seq<string>, strand: string, qs: int, qe: int): Gathered {
    if cs == [] then Labels([])
    else
      match GatherStrand(d, cs[..|cs| - 1], strand, qs, qe)
      case Missing(k) => Missing(k)
      case Labels(ids) =>
        var key := ChromStrand(cs[|cs| - 1], strand);
        if key in d then Labels(ids + FindOverlap(d[key], qs, qe)) else Missing(key)
  }

  /** `("chr1", 5:10)`: a chromosome of the frame and a slice. */
  predicate ChromSlice(g: GRanges, items: seq<Item>) {
    |items| == 2 && items[0].IStr? && items[0].s in Chromosomes(g.df.rows) && items[1].ISlice?
  }

  /** `("+", 5:10)`: a strand and a slice. */
  predicate StrandSlice(items: seq<Item>) {
    |items| == 2 && items[0].IStr? && IsStrand(items[0].s) && items[1].ISlice?
  }

  /** `("chr1", "+")`: anything, then a strand. */
  predicate ChromStrandPair(items: seq<Item>) {
    |items| == 2 && items[1].IStr? && IsStrand(items[1].s)
  }

  /** `("chr1", "+", 5:10)`: a chromosome of the frame, a strand, then the bounds. */
  predicate ChromStrandSlice(g: GRanges, items: seq<Item>) {
    |items| == 3 && items[0].IStr? && items[0].s in Chromosomes(g.df.rows) && items[1].IStr? && IsStrand(items[1].s)
  }

  /** `__getitem__`: the branches in the order the source tries them. */
  function Select(g: GRanges, val: Selector): Outcome
    requires g.Valid()
  {
    var rows := g.df.rows;
    match val
    case SStr(s) =>
      if s in Chromosomes(rows) then Selected(Wrap(g, Where(rows, OnChrom(s))))
      else if IsStrand(s) then
        if g.df.hasStrand then Selected(Wrap(g, Where(rows, OnStrand(s)))) else Raised(NoStrandColumn)
      else Raised(InvalidString(s))
    case STuple(items) => SelectTuple(g, items)
    case SSlice(start, stop) =>
      var qs := OrZero(start);
      var qe := DefaultStop(stop, qs, rows);
      Selected(Wrap(g, Loc(rows, GatherAll(g.ncls, OrderedKeys(g.df), qs, qe))))
    case SOther => ReturnsNone
  }

  function SelectTuple(g: GRanges, items: seq<Item>): Outcome
    requires g.Valid()
  {
    var rows := g.df.rows;
    if ChromSlice(g, items) then
      var c := items[0].s;
      var qs := OrZero(items[1].start);
      var qe := DefaultStop(items[1].stop, qs, Where(rows, OnChrom(c)));
      var plus, minus := ChromStrand(c, "+"), ChromStrand(c, "-");
      if plus !in g.ncls then Raised(MissingKey(plus))
      else if minus !in g.ncls then Raised(MissingKey(minus))
      else Selected(Wrap(g, Loc(rows, FindOverlap(g.ncls[plus], qs, qe) + FindOverlap(g.ncls[minus], qs, qe))))
    else if StrandSlice(items) then
      if !Truthy(items[1].stop) then Raised(UnboundChromosome)
      else
        var qs := OrZero(items[1].start);
        match GatherStrand(g.ncls, DistinctChroms(rows), items[0].s, qs, items[1].stop.value)
        case Missing(k) => Raised(MissingKey(k))
        case Labels(ids) => Selected(Wrap(g, Loc(rows, ids)))
    else if ChromStrandPair(items) then
      if !g.df.hasStrand then Raised(NoStrandColumn)
      else if items[0].IStr? then Selected(Wrap(g, Where(rows, OnChromStrand(items[0].s, items[1].s))))
      else Selected(Wrap(g, []))
    else if ChromStrandSlice(g, items) then
      if !items[2].ISlice? then Raised(NotASlice)
      else
        var c, s := items[0].s, items[1].s;
        var qs := OrZero(items[2].start);
        var qe := DefaultStop(items[2].stop, qs, Where(rows, OnChrom(c)));
        if ChromStrand(c, s) !in g.ncls then Raised(MissingKey(ChromStrand(c, s)))
        else Selected(Wrap(g, Loc(rows, FindOverlap(g.ncls[ChromStrand(c, s)], qs, qe))))
    else ReturnsNone
  }

  lemma {:induction false} GatherStrandStaysMissing(d: map<Key, seq<Triple>>, cs: seq<string>, n: nat, strand: string, qs: int, qe: int)
    requires n <= |cs| && GatherStrand(d, cs[..n], strand, qs, qe).Missing?
    ensures GatherStrand(d, cs, strand, qs, qe) == GatherStrand(d, cs[..n], strand, qs, qe)
    decreases |cs|
  {
    if n < |cs| {
      var init := cs[..|cs| - 1];
      assert init[..n] == cs[..n];
      GatherStrandStaysMissing(d, init, n, strand, qs, qe);
    } else {
      assert cs[..n] == cs;
    }
  }

  /** The loop of the bare slice: `extend` with what each index reports, the
      indexes taken in `ks` order. */
  method GatherAllLoop(d: map<Key, seq<Triple>>, ks: seq<Key>, start: int, stop: int) returns (idxes: seq<int>)
    requires forall k :: k in ks ==> k in d
    ensures idxes == GatherAll(d, ks, start, stop)
  {
    idxes := [];
    for i := 0 to |ks|
      invariant idxes == GatherAll(d, ks[..i], start, stop)
    {
      assert ks[..i + 1][..i] == ks[..i];
      idxes := idxes + FindOverlap(d[ks[i]], start, stop);
    }
    assert ks[..|ks|] == ks;
  }

  /** The loop of the strand slice: chromosome by chromosome, `extend` with
      what the (chromosome, strand) index reports; a missing index raises. */
  method GatherStrandLoop(d: map<Key, seq<Triple>>, cs: seq<string>, strand: string, start: int, stop: int) returns (res: Gathered)
    ensures res == GatherStrand(d, cs, strand, start, stop)
  {
    var idxes := [];
    for i := 0 to |cs|
      invariant GatherStrand(d, cs[..i], strand, start, stop) == Labels(idxes)
    {
      assert cs[..i + 1][..i] == cs[..i];
      var key := ChromStrand(cs[i], strand);
      if key !in d {
        GatherStrandStaysMissing(d, cs, i + 1, strand, start, stop);
        return Missing(key);
      }
      idxes := idxes + FindOverlap(d[key], start, stop);
    }
    assert cs[..|cs|] == cs;
    res := Labels(idxes);
  }

  /** `__getitem__` as the source runs it: the two slice branches build
      `idxes` in a loop, the remaining branches are as specified. */
  method GetItem(g: GRanges, val: Selector) returns (r: Outcome)
    requires g.Valid()
    ensures r == Select(g, val)
  {
    var rows := g.df.rows;
    if val.SSlice? {
      var start := OrZero(val.start);
      var idxes := GatherAllLoop(g.ncls, OrderedKeys(g.df), start, DefaultStop(val.stop, start, rows));
      r := Selected(Wrap(g, Loc(rows, idxes)));
    } else if val.STuple? && !ChromSlice(g, val.items) && StrandSlice(val.items) && Truthy(val.items[1].stop) {
      var res := GatherStrandLoop(g.ncls, DistinctChroms(rows), val.items[0].s, OrZero(val.items[1].start), val.items[1].stop.value);
      match res
      case Missing(key) => r := Raised(MissingKey(key));
      case Labels(idxes) => r := Selected(Wrap(g, Loc(rows, idxes)));
    } else {
      r := Select(g, val);
    }
  }
}
