/** The in-memory table the pipeline works on, stored by column as pandas
    stores a `DataFrame`: an ordered list of named columns of equal length.
    Each column has a kind tag standing for its pandas dtype (`Text` for
    `object`, `Numeric` for `int64`/`float64`) and each cell is missing
    (`NaN`/`None`), a string or a number. */
module Tables {
  import Dedup

  datatype Kind = Text | Numeric

  datatype Cell = Missing | Txt(text: string) | Num(value: real)

  datatype Column = Column(name: string, kind: Kind, cells: seq<Cell>)

  /** `height` is the number of rows, which a table without columns still has. */
  datatype Table = Table(columns: seq<Column>, height: nat)

  type Record = seq<Cell>

  /** A cell may sit in a column of the given kind. */
  predicate Fits(kind: Kind, c: Cell) {
    match c
    case Missing => true
    case Txt(_) => kind == Text
    case Num(_) => kind == Numeric
  }

  /** A column of `height` cells, each of the column's kind. */
  predicate ColumnOk(c: Column, height: nat) {
    |c.cells| == height && forall i :: 0 <= i < height ==> Fits(c.kind, c.cells[i])
  }

  /** Every column is well formed and column names are distinct. */
  predicate WellFormed(t: Table) {
    (forall j :: 0 <= j < |t.columns| ==> ColumnOk(t.columns[j], t.height))
    && (forall j, k :: 0 <= j < k < |t.columns| ==> t.columns[j].name != t.columns[k].name)
  }

  /** `df.columns`: the column names, in order. */
  function Names(t: Table): (ns: seq<string>)
    ensures |ns| == |t.columns|
    ensures forall j :: 0 <= j < |t.columns| ==> ns[j] == t.columns[j].name
  {
    seq(|t.columns|, j requires 0 <= j < |t.columns| => t.columns[j].name)
  }

  /** `name in df.columns`. */
  predicate Has(t: Table, name: string) {
    name in Names(t)
  }

  /** Position of the column called `name`. */
  function IndexOf(t: Table, name: string): (j: nat)
    requires Has(t, name)
    ensures j < |t.columns| && t.columns[j].name == name
  {
    Find(Names(t), name)
  }

  /** Position of the first occurrence of `x` in `xs`. */
  function Find(xs: seq<string>, x: string): (j: nat)
    requires x in xs
    ensures j < |xs| && xs[j] == x
  {
    if xs[0] == x then 0 else 1 + Find(xs[1..], x)
  }

  /** In a well-formed table a name picks out exactly one column. */
  lemma IndexOfUnique(t: Table, name: string, k: nat)
    requires WellFormed(t) && k < |t.columns| && t.columns[k].name == name
    ensures Has(t, name) && IndexOf(t, name) == k
  {
    assert Names(t)[k] == name;
    var j := IndexOf(t, name);
    assert !(j < k) && !(k < j);
  }

  /** The non-missing numbers of a column, in row order: what pandas'
      reductions see after skipping `NaN`. */
  function Present(cells: seq<Cell>): (xs: seq<real>)
    ensures |xs| <= |cells|
    ensures forall i :: 0 <= i < |cells| && cells[i].Num? ==> cells[i].value in xs
    ensures forall x :: x in xs ==> Num(x) in cells
  {
    if cells == [] then []
    else
      var init := Present(cells[..|cells| - 1]);
      var last := cells[|cells| - 1];
      assert forall i :: 0 <= i < |cells| - 1 ==> cells[..|cells| - 1][i] == cells[i];
      init + (if last.Num? then [last.value] else [])
  }

  /** Each number is present as often as the cells holding it, which the
      median and the quartiles depend on. */
  lemma {:induction false} PresentCounts(cells: seq<Cell>)
    ensures forall x :: multiset(Present(cells))[x] == multiset(cells)[Num(x)]
  {
    if cells != [] {
      var init := cells[..|cells| - 1];
      PresentCounts(init);
      assert cells == init + [cells[|cells| - 1]];
    }
  }

  /** Row `i` of the table: the `i`-th cell of every column. */
  function Row(t: Table, i: nat): (r: Record)
    requires WellFormed(t) && i < t.height
    ensures |r| == |t.columns|
    ensures forall j :: 0 <= j < |t.columns| ==> r[j] == t.columns[j].cells[i]
  {
    seq(|t.columns|, j requires 0 <= j < |t.columns| => t.columns[j].cells[i])
  }

  /** All rows, in order. */
  function Rows(t: Table): (rs: seq<Record>)
    requires WellFormed(t)
    ensures |rs| == t.height
    ensures forall i :: 0 <= i < t.height ==> rs[i] == Row(t, i)
  {
    seq(t.height, i requires 0 <= i < t.height => Row(t, i))
  }

  /** `df[name] = cells`: the column is replaced where it stands when the
      name exists and appended at the end otherwise. */
  function SetColumn(t: Table, c: Column): (r: Table)
    requires WellFormed(t) && ColumnOk(c, t.height)
    ensures WellFormed(r) && r.height == t.height
    ensures Has(r, c.name)
    ensures Has(t, c.name) ==> Names(r) == Names(t)
    ensures !Has(t, c.name) ==> Names(r) == Names(t) + [c.name]
    ensures forall j :: 0 <= j < |r.columns| ==>
      r.columns[j] == (if r.columns[j].name == c.name then c else t.columns[j])
  {
    if Has(t, c.name) then
      var j := IndexOf(t, c.name);
      var r := Table(t.columns[j := c], t.height);
      assert Names(r) == Names(t);
      assert Names(r)[j] == c.name;
      r
    else
      var r := Table(t.columns + [c], t.height);
      assert Names(r) == Names(t) + [c.name];
      assert Names(r)[|t.columns|] == c.name;
      r
  }

  /** `df[name] = c` for an existing column `name` at position `j`: the
      column is replaced where it stands and nothing else changes. */
  function ReplaceColumn(t: Table, j: nat, c: Column): (r: Table)
    requires WellFormed(t) && j < |t.columns|
    requires c.name == t.columns[j].name && ColumnOk(c, t.height)
    ensures WellFormed(r) && r.height == t.height && Names(r) == Names(t)
    ensures r.columns == t.columns[j := c]
    ensures forall n :: Has(t, n) ==> IndexOf(r, n) == IndexOf(t, n)
  {
    var r := Table(t.columns[j := c], t.height);
    assert Names(r) == Names(t);
    r
  }

  /** `df.drop(name, axis=1)`: the table without the column `name`. */
  function DropColumn(t: Table, name: string): (r: Table)
    requires WellFormed(t) && Has(t, name)
    ensures WellFormed(r) && r.height == t.height
    ensures !Has(r, name)
    ensures forall n :: Has(r, n) <==> Has(t, n) && n != name
    ensures |r.columns| == |t.columns| - 1
  {
    var j := IndexOf(t, name);
    var r := Table(t.columns[..j] + t.columns[j + 1..], t.height);
    assert forall k :: 0 <= k < |r.columns| ==>
      r.columns[k] == t.columns[if k < j then k else k + 1];
    forall n ensures Has(r, n) <==> Has(t, n) && n != name {
      if Has(t, n) && n != name {
        var k := IndexOf(t, n);
        assert Names(r)[if k < j then k else k - 1] == n;
      }
    }
    r
  }

  /** The rows at the positions `idx`, in that order (`df[mask]` for the
      ascending positions where the mask holds). */
  function SelectRows(t: Table, idx: seq<nat>): (r: Table)
    requires WellFormed(t)
    requires forall k :: 0 <= k < |idx| ==> idx[k] < t.height
    ensures WellFormed(r) && r.height == |idx| && Names(r) == Names(t)
    ensures |r.columns| == |t.columns|
    ensures forall j :: 0 <= j < |t.columns| ==>
      r.columns[j].name == t.columns[j].name && r.columns[j].kind == t.columns[j].kind
    ensures forall k :: 0 <= k < |idx| ==> Row(r, k) == Row(t, idx[k])
  {
    var r := Table(seq(|t.columns|, j requires 0 <= j < |t.columns| =>
      t.columns[j].(cells := Dedup.Pick(t.columns[j].cells, idx))), |idx|);
    assert Names(r) == Names(t);
    r
  }

  /** `df.head(n)`: the first `min(n, height)` rows. */
  function Head(t: Table, n: nat): (r: Table)
    requires WellFormed(t)
    ensures WellFormed(r) && Names(r) == Names(t)
    ensures r.height == if n < t.height then n else t.height
    ensures forall i :: 0 <= i < r.height ==> Row(r, i) == Row(t, i)
  {
    var h := if n < t.height then n else t.height;
    var r := Table(seq(|t.columns|, j requires 0 <= j < |t.columns| =>
      t.columns[j].(cells := t.columns[j].cells[..h])), h);
    assert Names(r) == Names(t);
    r
  }
}
