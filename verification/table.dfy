/** The binary form of an assignment table (write_assignments.hpp:28-38, 72-160). */
module TableStream {
  import opened ByteStrings
  import opened Ssz

  const UINT32 := 0x1_0000_0000
  const HALF := 0x8000_0000
  const MIN_ROWS := 8
  const SIZE_WIDTH := 8

  function Max(a: nat, b: nat): nat { if a < b then b else a }

  // ---- the number of rows ---------------------------------------------------------------

  predicate IsPow2(n: nat)
  {
    n == 1 || (n > 0 && n % 2 == 0 && IsPow2(n / 2))
  }

  lemma Doubled(n: nat)
    requires IsPow2(n)
    ensures IsPow2(2 * n)
  {
    assert 2 * n / 2 == n;
  }

  /** `pow(2, ceil(log2(n)))` in exact arithmetic; the logarithm of zero is minus infinity. */
  function CeilPow2(n: nat): (r: nat)
    ensures n > 0 ==> IsPow2(r) && n <= r < 2 * n
    ensures n == 0 ==> r == 0
  {
    if n <= 1 then n
    else
      var m := CeilPow2((n + 1) / 2);
      Doubled(m);
      2 * m
  }

  lemma {:induction false} PowersApart(p: nat, q: nat)
    requires IsPow2(p) && IsPow2(q) && q < p
    ensures 2 * q <= p
  {
    if q > 1 && p > 1 { PowersApart(p / 2, q / 2); }
  }

  /** The least power of two that is at least 8 and above every column length. */
  ghost predicate IsHeight(p: nat, usable: nat)
  {
    && IsPow2(p) && MIN_ROWS <= p && usable < p
    && forall q :: IsPow2(q) && MIN_ROWS <= q && usable < q ==> p <= q
  }

  lemma Quadrupled(n: nat)
    requires IsPow2(n)
    ensures IsPow2(4 * n)
  {
    Doubled(n);
    Doubled(2 * n);
  }

  lemma Times16(n: nat)
    requires IsPow2(n)
    ensures IsPow2(16 * n)
  {
    Quadrupled(n);
    Quadrupled(4 * n);
  }

  lemma HalfIsPow2()
    ensures IsPow2(MIN_ROWS) && IsPow2(HALF)
  {
    assert IsPow2(1);
    Doubled(1);
    Doubled(2);
    Doubled(4);
    Times16(8);
    Times16(0x80);
    Times16(0x800);
    Times16(0x8000);
    Times16(0x8_0000);
    Times16(0x80_0000);
    Times16(0x800_0000);
  }

  lemma DoublesBelow(p: nat, usable: nat)
    requires IsPow2(p) && MIN_ROWS <= p && usable < p && (p <= 2 * usable || p == MIN_ROWS)
    ensures IsHeight(p, usable)
  {
    forall q: nat | IsPow2(q) && MIN_ROWS <= q && usable < q ensures p <= q {
      if q < p { PowersApart(p, q); }
    }
  }

  /** From 2^31 on no 32-bit number will do. */
  lemma NoHeight(p: nat, usable: nat)
    requires HALF <= usable && p < UINT32
    ensures !IsHeight(p, usable)
  {
    HalfIsPow2();
    if IsPow2(p) && HALF < p { PowersApart(p, HALF); }
  }

  lemma CeilLimit(usable: nat)
    ensures 0 < usable <= HALF ==> CeilPow2(usable) <= HALF
  {
    HalfIsPow2();
    if 0 < usable <= HALF && HALF < CeilPow2(usable) { PowersApart(CeilPow2(usable), HALF); }
  }

  /** The row count that the code computes. `cast` is whatever the conversion of a power too large for
      32 bits results in. */
  function PaddedRows(usable: nat, cast: nat): (padded: nat)
    requires usable < UINT32 && cast < UINT32
  {
    var ceiling := if CeilPow2(usable) < UINT32 then CeilPow2(usable) else cast;
    var above := if ceiling == usable then ceiling * 2 % UINT32 else ceiling;
    if above < MIN_ROWS then MIN_ROWS else above
  }

  lemma HeightFrom(ceiling: nat, usable: nat, p: nat)
    requires if usable == 0 then ceiling == 0 else IsPow2(ceiling) && usable <= ceiling < 2 * usable
    requires p == Max(MIN_ROWS, if ceiling == usable then 2 * ceiling else ceiling)
    ensures IsHeight(p, usable)
  {
    HalfIsPow2();
    if usable > 0 { Doubled(ceiling); }
    DoublesBelow(p, usable);
  }

  /** It is right if and only if the longest column is shorter than 2^31. */
  lemma HeightIffShort(usable: nat, cast: nat)
    requires usable < UINT32 && cast < UINT32
    ensures IsHeight(PaddedRows(usable, cast), usable) <==> usable < HALF
  {
    if usable < HALF {
      CeilLimit(usable);
      HeightFrom(CeilPow2(usable), usable, PaddedRows(usable, cast));
    } else {
      NoHeight(PaddedRows(usable, cast), usable);
    }
  }

  /** At 2^31 the doubling wraps around to zero, and the table is cut to eight rows. */
  lemma HalfIsCutToEight(usable: nat, cast: nat)
    requires 2 * usable == UINT32 && cast < UINT32
    ensures PaddedRows(usable, cast) == MIN_ROWS
  {
    CeilLimit(usable);
    var ceiling := CeilPow2(usable);
    assert ceiling == usable;
    assert UINT32 % UINT32 == 0;
    assert ceiling * 2 == UINT32;
  }

  /** Beyond 2^31 the height is what the conversion makes of 2^32. */
  lemma BeyondHalf(usable: nat, cast: nat)
    requires HALF < usable < UINT32 && cast < UINT32
    ensures PaddedRows(usable, cast)
         == Max(MIN_ROWS, if cast == usable then 2 * cast % 0x1_0000_0000 else cast)
  {
    HalfIsPow2();
    PowersApart(CeilPow2(usable), HALF);
  }

  method PaddedRowsAmount(usable: nat, cast: nat) returns (padded: nat)
    requires usable < UINT32 && cast < UINT32
    ensures padded == PaddedRows(usable, cast)
  {
    padded := CeilPow2(usable);
    if padded >= UINT32 {
      padded := cast;
    }
    if padded == usable {
      padded := padded * 2 % UINT32;
    }
    if padded < MIN_ROWS {
      padded := MIN_ROWS;
    }
  }

  // ---- the stream ---------------------------------------------------------------------------

  /** A field element as `write_field` marshals it: `width` bytes, all of them zero for zero. */
  type Cell = Bytes
  type Column = seq<Cell>

  datatype Table =
    Table(witnesses: seq<Column>, publicInputs: seq<Column>, constants: seq<Column>, selectors: seq<Column>)
  {
    /** Counts and column sizes are 32-bit numbers, and all cells have the field's width. */
    predicate Valid(width: nat)
    {
      && Columns(witnesses, width) && Columns(publicInputs, width)
      && Columns(constants, width) && Columns(selectors, width)
    }
  }

  predicate Cells(cells: seq<Cell>, width: nat) { forall i :: 0 <= i < |cells| ==> |cells[i]| == width }

  predicate Columns(cols: seq<Column>, width: nat)
  {
    |cols| < UINT32 && forall i :: 0 <= i < |cols| ==> |cols[i]| < UINT32 && Cells(cols[i], width)
  }

  /** What a reader finds in the stream: the longest column, the row count and the columns. */
  datatype Sheet = Sheet(usable: nat, rows: nat, table: Table)

  function Longest(cols: seq<Column>): (n: nat)
    ensures forall i :: 0 <= i < |cols| ==> |cols[i]| <= n
    ensures n > 0 ==> exists i :: 0 <= i < |cols| && |cols[i]| == n
  {
    if cols == [] then 0
    else
      var m, last := Longest(cols[..|cols| - 1]), |cols[|cols| - 1]|;
      if m < last then last else m
  }

  function Usable(t: Table): (n: nat)
  {
    Max(Max(Longest(t.witnesses), Longest(t.publicInputs)), Max(Longest(t.constants), Longest(t.selectors)))
  }

  function ZeroCell(width: nat): (c: Cell)
    ensures |c| == width
  {
    Repeat(0, width)
  }

  /** A column cut or filled up to `rows` cells. */
  function Padded(col: Column, rows: nat, width: nat): (r: Column)
    ensures |r| == rows
  {
    seq(rows, i requires 0 <= i < rows => if i < |col| then col[i] else ZeroCell(width))
  }

  lemma PaddedCells(col: Column, rows: nat, width: nat)
    requires Cells(col, width)
    ensures Cells(Padded(col, rows, width), width)
  {
    forall i | 0 <= i < rows ensures |Padded(col, rows, width)[i]| == width {
      assert Padded(col, rows, width)[i] == if i < |col| then col[i] else ZeroCell(width);
    }
  }

  function PaddedColumns(cols: seq<Column>, rows: nat, width: nat): (r: seq<Column>)
    ensures |r| == |cols| && forall i :: 0 <= i < |cols| ==> r[i] == Padded(cols[i], rows, width)
  {
    seq(|cols|, i requires 0 <= i < |cols| => Padded(cols[i], rows, width))
  }

  function PaddedTable(t: Table, rows: nat, width: nat): (r: Table)
  {
    Table(PaddedColumns(t.witnesses, rows, width), PaddedColumns(t.publicInputs, rows, width),
          PaddedColumns(t.constants, rows, width), PaddedColumns(t.selectors, rows, width))
  }

  function Reversed(s: Bytes): (r: Bytes)
    ensures |r| == |s| && forall i :: 0 <= i < |s| ==> r[i] == s[|s| - 1 - i]
  {
    seq(|s|, i requires 0 <= i < |s| => s[|s| - 1 - i])
  }

  /** `write_size_t` in either byte order. */
  function SizeBytes(n: nat, bigEndian: bool): (s: Bytes)
    ensures |s| == SIZE_WIDTH
  {
    if bigEndian then Reversed(LittleEndian(n, SIZE_WIDTH)) else LittleEndian(n, SIZE_WIDTH)
  }

  function ReadSize(s: Bytes, bigEndian: bool): (n: nat)
  {
    Number(if bigEndian then Reversed(s) else s)
  }

  lemma SizeRoundTrip(n: nat, bigEndian: bool)
    requires n < UINT32
    ensures ReadSize(SizeBytes(n, bigEndian), bigEndian) == n
  {
    assert Pow256(8) == 256 * Pow256(7) == 256 * 256 * Pow256(6) == 256 * 256 * 256 * Pow256(5)
        == 256 * 256 * 256 * 256 * Pow256(4);
    LittleEndianRoundTrip(n, SIZE_WIDTH);
    var little := LittleEndian(n, SIZE_WIDTH);
    assert Reversed(Reversed(little)) == little;
  }

  function ColumnList(cols: seq<Column>, rows: nat, width: nat): (list: seq<Bytes>)
    ensures |list| == |cols|
  {
    seq(|cols|, i requires 0 <= i < |cols| => Concat(Padded(cols[i], rows, width)))
  }

  /** One section: a 32-bit product of counts, then the padded columns. */
  function Section(cols: seq<Column>, rows: nat, width: nat, bigEndian: bool): (s: Bytes)
  {
    SizeBytes(|cols| * rows % UINT32, bigEndian) + Concat(ColumnList(cols, rows, width))
  }

  /** Numbers written one after the other. */
  function SizesBytes(ns: seq<nat>, bigEndian: bool): (s: Bytes)
    ensures |s| == SIZE_WIDTH * |ns|
  {
    if ns == [] then [] else SizeBytes(ns[0], bigEndian) + SizesBytes(ns[1..], bigEndian)
  }

  function Counts(t: Table, rows: nat): (ns: seq<nat>)
  {
    [|t.witnesses|, |t.publicInputs|, |t.constants|, |t.selectors|, Usable(t), rows]
  }

  function Parts(t: Table): (parts: seq<seq<Column>>)
  {
    [t.witnesses, t.publicInputs, t.constants, t.selectors]
  }

  function SectionList(parts: seq<seq<Column>>, rows: nat, width: nat, bigEndian: bool): (list: seq<Bytes>)
    ensures |list| == |parts|
  {
    seq(|parts|, i requires 0 <= i < |parts| => Section(parts[i], rows, width, bigEndian))
  }

  function Sections(parts: seq<seq<Column>>, rows: nat, width: nat, bigEndian: bool): (s: Bytes)
  {
    Concat(SectionList(parts, rows, width, bigEndian))
  }

  function Stream(t: Table, rows: nat, width: nat, bigEndian: bool): (s: Bytes)
  {
    SizesBytes(Counts(t, rows), bigEndian) + Sections(Parts(t), rows, width, bigEndian)
  }

  // ---- writing --------------------------------------------------------------------------------

  method MaxColumnSize(cols: seq<Column>) returns (n: nat)
    ensures n == Longest(cols)
  {
    n := 0;
    for i := 0 to |cols|
      invariant n == Longest(cols[..i])
    {
      assert cols[..i + 1][..i] == cols[..i];
      n := Max(n, |cols[i]|);
    }
    assert cols[..|cols|] == cols;
  }

  /** `write_vector_value` */
  method WriteVectorValue(rows: nat, col: Column, width: nat, out: Bytes) returns (after: Bytes)
    ensures after == out + Concat(Padded(col, rows, width))
  {
    ghost var cells := Padded(col, rows, width);
    after := out;
    AppendEnds(out, cells);
    for i := 0 to rows
      invariant after == out + Concat(cells[..i])
    {
      ghost var before := after;
      if i < |col| {
        after := after + col[i];
      } else {
        after := after + ZeroCell(width);
      }
      AppendOne(out, cells, i, before, after);
    }
  }

  method WriteSection(cols: seq<Column>, rows: nat, width: nat, bigEndian: bool, out: Bytes) returns (after: Bytes)
    ensures after == out + Section(cols, rows, width, bigEndian)
  {
    ghost var list := ColumnList(cols, rows, width);
    after := out + SizeBytes(|cols| * rows % UINT32, bigEndian);
    ghost var head := after;
    AppendEnds(head, list);
    for i := 0 to |cols|
      invariant after == head + Concat(list[..i])
    {
      ghost var before := after;
      after := WriteVectorValue(rows, cols[i], width, after);
      AppendOne(head, list, i, before, after);
    }
  }

  /** The four sections, one after the other. */
  method WriteSections(parts: seq<seq<Column>>, rows: nat, width: nat, bigEndian: bool, head: Bytes)
    returns (out: Bytes)
    ensures out == head + Sections(parts, rows, width, bigEndian)
  {
    ghost var list := SectionList(parts, rows, width, bigEndian);
    out := head;
    AppendEnds(head, list);
    for i := 0 to |parts|
      invariant out == head + Concat(list[..i])
    {
      ghost var before := out;
      out := WriteSection(parts[i], rows, width, bigEndian, out);
      AppendOne(head, list, i, before, out);
    }
  }

  lemma UsableFits(t: Table, width: nat)
    requires t.Valid(width)
    ensures Usable(t) < UINT32
  {
  }

  /** `write_binary_assignment` */
  method WriteBinaryAssignment(t: Table, width: nat, bigEndian: bool, cast: nat) returns (out: Bytes)
    requires t.Valid(width) && cast < UINT32
    ensures Usable(t) < UINT32
    ensures out == Stream(t, PaddedRows(Usable(t), cast), width, bigEndian)
  {
    UsableFits(t, width);
    var publicInputs := MaxColumnSize(t.publicInputs);
    var witnesses := MaxColumnSize(t.witnesses);
    var constants := MaxColumnSize(t.constants);
    var selectors := MaxColumnSize(t.selectors);
    var usable := Max(Max(witnesses, publicInputs), Max(constants, selectors));
    var rows := PaddedRowsAmount(usable, cast);
    out := SizesBytes([|t.witnesses|, |t.publicInputs|, |t.constants|, |t.selectors|, usable, rows], bigEndian);
    out := WriteSections(Parts(t), rows, width, bigEndian, out);
  }

  // ---- reading it back ----------------------------------------------------------------------

  /** `n` cells of `width` bytes each, and what follows. */
  function TakeCells(s: Bytes, n: nat, width: nat): (r: Option<(Column, Bytes)>)
  {
    if n == 0 then Some(([], s))
    else if |s| < width then None
    else
      match TakeCells(s[width..], n - 1, width)
      case Some((cells, rest)) => Some(([s[..width]] + cells, rest))
      case None => None
  }

  function TakeColumns(s: Bytes, n: nat, rows: nat, width: nat): (r: Option<(seq<Column>, Bytes)>)
    decreases n
  {
    if n == 0 then Some(([], s))
    else
      match TakeCells(s, rows, width)
      case None => None
      case Some((col, rest)) =>
        match TakeColumns(rest, n - 1, rows, width)
        case Some((cols, left)) => Some(([col] + cols, left))
        case None => None
  }

  function TakeSection(s: Bytes, n: nat, rows: nat, width: nat): (r: Option<(seq<Column>, Bytes)>)
  {
    if |s| < SIZE_WIDTH then None else TakeColumns(s[SIZE_WIDTH..], n, rows, width)
  }

  function SizeAt(s: Bytes, k: nat, bigEndian: bool): (n: nat)
    requires SIZE_WIDTH * (k + 1) <= |s|
  {
    ReadSize(s[SIZE_WIDTH * k..SIZE_WIDTH * (k + 1)], bigEndian)
  }

  function TakeSections(s: Bytes, counts: seq<nat>, rows: nat, width: nat): (r: Option<(seq<seq<Column>>, Bytes)>)
    ensures r.Some? ==> |r.value.0| == |counts|
    decreases |counts|
  {
    if counts == [] then Some(([], s))
    else
      match TakeSection(s, counts[0], rows, width)
      case None => None
      case Some((cols, rest)) =>
        match TakeSections(rest, counts[1..], rows, width)
        case Some((parts, left)) => Some(([cols] + parts, left))
        case None => None
  }

  /** A reader of the stream. */
  function ReadStream(s: Bytes, width: nat, bigEndian: bool): (r: Option<Sheet>)
  {
    if |s| < 48 then None
    else
      var counts :=
        [SizeAt(s, 0, bigEndian), SizeAt(s, 1, bigEndian), SizeAt(s, 2, bigEndian), SizeAt(s, 3, bigEndian)];
      var rows := SizeAt(s, 5, bigEndian);
      match TakeSections(s[48..], counts, rows, width)
      case None => None
      case Some((parts, rest)) =>
        if rest != [] then None
        else Some(Sheet(SizeAt(s, 4, bigEndian), rows, Table(parts[0], parts[1], parts[2], parts[3])))
  }

  lemma {:induction false} CellsRoundTrip(cells: Column, width: nat, rest: Bytes)
    requires Cells(cells, width)
    ensures TakeCells(Concat(cells) + rest, |cells|, width) == Some((cells, rest))
  {
    if cells == [] {
      assert [] + rest == rest;
    } else {
      var s := Concat(cells) + rest;
      CellsRoundTrip(cells[1..], width, rest);
      assert s == cells[0] + (Concat(cells[1..]) + rest);
      assert s[..width] == cells[0] && s[width..] == Concat(cells[1..]) + rest;
      assert cells == [cells[0]] + cells[1..];
    }
  }

  lemma ColumnListCons(cols: seq<Column>, rows: nat, width: nat, rest: Bytes)
    requires cols != []
    ensures Concat(ColumnList(cols, rows, width)) + rest
         == Concat(Padded(cols[0], rows, width)) + (Concat(ColumnList(cols[1..], rows, width)) + rest)
    ensures PaddedColumns(cols, rows, width) == [Padded(cols[0], rows, width)] + PaddedColumns(cols[1..], rows, width)
  {
    assert ColumnList(cols, rows, width)[1..] == ColumnList(cols[1..], rows, width);
  }

  lemma {:induction false} ColumnsRoundTrip(cols: seq<Column>, rows: nat, width: nat, rest: Bytes)
    requires forall i :: 0 <= i < |cols| ==> Cells(cols[i], width)
    ensures TakeColumns(Concat(ColumnList(cols, rows, width)) + rest, |cols|, rows, width)
         == Some((PaddedColumns(cols, rows, width), rest))
  {
    if cols == [] {
      assert Concat(ColumnList(cols, rows, width)) + rest == rest;
    } else {
      PaddedCells(cols[0], rows, width);
      CellsRoundTrip(Padded(cols[0], rows, width), width, Concat(ColumnList(cols[1..], rows, width)) + rest);
      ColumnsRoundTrip(cols[1..], rows, width, rest);
      ColumnListCons(cols, rows, width, rest);
    }
  }

  lemma SectionRoundTrip(cols: seq<Column>, rows: nat, width: nat, bigEndian: bool, rest: Bytes)
    requires Columns(cols, width)
    ensures TakeSection(Section(cols, rows, width, bigEndian) + rest, |cols|, rows, width)
         == Some((PaddedColumns(cols, rows, width), rest))
  {
    ColumnsRoundTrip(cols, rows, width, rest);
    var word, body := SizeBytes(|cols| * rows % UINT32, bigEndian), Concat(ColumnList(cols, rows, width)) + rest;
    assert Section(cols, rows, width, bigEndian) + rest == word + body;
    assert (word + body)[SIZE_WIDTH..] == body;
  }

  lemma WordAt(s: Bytes, k: nat, n: nat, bigEndian: bool)
    requires n < UINT32 && SIZE_WIDTH * (k + 1) <= |s|
    requires s[SIZE_WIDTH * k..SIZE_WIDTH * (k + 1)] == SizeBytes(n, bigEndian)
    ensures SizeAt(s, k, bigEndian) == n
  {
    SizeRoundTrip(n, bigEndian);
  }

  lemma {:induction false} SizesAt(ns: seq<nat>, k: nat, bigEndian: bool, rest: Bytes)
    requires k < |ns|
    ensures
      var s := SizesBytes(ns, bigEndian) + rest;
      s[SIZE_WIDTH * k..SIZE_WIDTH * (k + 1)] == SizeBytes(ns[k], bigEndian)
  {
    var word, more := SizeBytes(ns[0], bigEndian), SizesBytes(ns[1..], bigEndian);
    Regroup(word, more, rest);
    if k > 0 {
      SizesAt(ns[1..], k - 1, bigEndian, rest);
      SliceOfTail(word, more + rest, SIZE_WIDTH * (k - 1), SIZE_WIDTH * k);
    } else {
      SlicesOfSum(word, more + rest, 0, SIZE_WIDTH);
      assert word[0..SIZE_WIDTH] == word;
    }
  }

  lemma CountsRoundTrip(t: Table, rows: nat, width: nat, bigEndian: bool, rest: Bytes)
    requires t.Valid(width) && rows < UINT32
    ensures
      var s, ns := SizesBytes(Counts(t, rows), bigEndian) + rest, Counts(t, rows);
      |s| >= 48 && (forall k :: 0 <= k < 6 ==> SizeAt(s, k, bigEndian) == ns[k]) && s[48..] == rest
  {
    UsableFits(t, width);
    forall k | 0 <= k < 6
      ensures SizeAt(SizesBytes(Counts(t, rows), bigEndian) + rest, k, bigEndian) == Counts(t, rows)[k]
    {
      SizesAt(Counts(t, rows), k, bigEndian, rest);
      WordAt(SizesBytes(Counts(t, rows), bigEndian) + rest, k, Counts(t, rows)[k], bigEndian);
    }
  }

  lemma {:induction false} SectionsRoundTrip(parts: seq<seq<Column>>, counts: seq<nat>, rows: nat, width: nat,
                                             bigEndian: bool)
    requires forall i :: 0 <= i < |parts| ==> Columns(parts[i], width)
    requires |counts| == |parts| && forall i :: 0 <= i < |parts| ==> counts[i] == |parts[i]|
    ensures
      var r := TakeSections(Sections(parts, rows, width, bigEndian), counts, rows, width);
      && r.Some? && r.value.1 == []
      && forall i :: 0 <= i < |parts| ==> r.value.0[i] == PaddedColumns(parts[i], rows, width)
    decreases |parts|
  {
    if parts != [] {
      var list := SectionList(parts, rows, width, bigEndian);
      assert list[1..] == SectionList(parts[1..], rows, width, bigEndian);
      assert list[0] == Section(parts[0], rows, width, bigEndian);
      SectionRoundTrip(parts[0], rows, width, bigEndian, Sections(parts[1..], rows, width, bigEndian));
      SectionsRoundTrip(parts[1..], counts[1..], rows, width, bigEndian);
    }
  }

  /** The stream decodes to the table, every column filled up with zeros to the announced height. */
  lemma StreamRoundTrip(t: Table, rows: nat, width: nat, bigEndian: bool)
    requires t.Valid(width) && rows < UINT32
    ensures ReadStream(Stream(t, rows, width, bigEndian), width, bigEndian)
         == Some(Sheet(Usable(t), rows, PaddedTable(t, rows, width)))
  {
    var parts, s := Parts(t), Stream(t, rows, width, bigEndian);
    var counts := [|t.witnesses|, |t.publicInputs|, |t.constants|, |t.selectors|];
    CountsRoundTrip(t, rows, width, bigEndian, Sections(parts, rows, width, bigEndian));
    forall k | 0 <= k < 4 ensures SizeAt(s, k, bigEndian) == counts[k] && counts[k] == |parts[k]| {
      assert Counts(t, rows)[k] == counts[k];
    }
    SectionsRoundTrip(parts, counts, rows, width, bigEndian);
    var got := TakeSections(s[48..], counts, rows, width).value.0;
    ReadInParts(s, width, bigEndian, counts, got);
    PaddedParts(t, rows, width, got);
  }

  lemma PaddedParts(t: Table, rows: nat, width: nat, got: seq<seq<Column>>)
    requires |got| == 4 && forall i :: 0 <= i < 4 ==> got[i] == PaddedColumns(Parts(t)[i], rows, width)
    ensures Table(got[0], got[1], got[2], got[3]) == PaddedTable(t, rows, width)
  {
  }

  /** What the reader makes of the counts and the sections. */
  lemma ReadInParts(s: Bytes, width: nat, bigEndian: bool, counts: seq<nat>, parts: seq<seq<Column>>)
    requires |s| >= 48 && |counts| == 4 == |parts| && forall k :: 0 <= k < 4 ==> SizeAt(s, k, bigEndian) == counts[k]
    requires TakeSections(s[48..], counts, SizeAt(s, 5, bigEndian), width) == Some((parts, []))
    ensures ReadStream(s, width, bigEndian)
         == Some(Sheet(SizeAt(s, 4, bigEndian), SizeAt(s, 5, bigEndian),
                       Table(parts[0], parts[1], parts[2], parts[3])))
  {
    assert counts == [counts[0], counts[1], counts[2], counts[3]];
  }

  /** As long as the longest column is shorter than 2^31 the stream that is written holds the whole table:
      the height is above every column, so no cell is cut and only zeros are added. */
  lemma NothingIsCut(t: Table, width: nat, bigEndian: bool, cast: nat)
    requires t.Valid(width) && cast < UINT32 && Usable(t) < HALF
    ensures
      var rows := PaddedRows(Usable(t), cast);
      && IsHeight(rows, Usable(t))
      && ReadStream(Stream(t, rows, width, bigEndian), width, bigEndian)
         == Some(Sheet(Usable(t), rows, PaddedTable(t, rows, width)))
      && Extends(PaddedTable(t, rows, width).witnesses, t.witnesses, width)
      && Extends(PaddedTable(t, rows, width).publicInputs, t.publicInputs, width)
      && Extends(PaddedTable(t, rows, width).constants, t.constants, width)
      && Extends(PaddedTable(t, rows, width).selectors, t.selectors, width)
  {
    var rows := PaddedRows(Usable(t), cast);
    HeightIffShort(Usable(t), cast);
    assert PaddedRows(Usable(t), cast) < UINT32;
    StreamRoundTrip(t, rows, width, bigEndian);
    PaddingExtends(t.witnesses, rows, width);
    PaddingExtends(t.publicInputs, rows, width);
    PaddingExtends(t.constants, rows, width);
    PaddingExtends(t.selectors, rows, width);
  }

  /** The columns `cols`, each with zeros behind it. */
  predicate Extends(padded: seq<Column>, cols: seq<Column>, width: nat)
  {
    |padded| == |cols| && forall i :: 0 <= i < |cols| ==> ExtendsColumn(padded[i], cols[i], width)
  }

  predicate ExtendsColumn(padded: Column, col: Column, width: nat)
  {
    col <= padded && forall i :: |col| <= i < |padded| ==> padded[i] == ZeroCell(width)
  }

  lemma PaddingExtends(cols: seq<Column>, rows: nat, width: nat)
    requires Longest(cols) <= rows
    ensures Extends(PaddedColumns(cols, rows, width), cols, width)
  {
    forall i | 0 <= i < |cols| ensures ExtendsColumn(PaddedColumns(cols, rows, width)[i], cols[i], width) {
      assert Padded(cols[i], rows, width)[..|cols[i]|] == cols[i];
    }
  }
}
