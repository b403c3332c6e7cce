/** The binary assignment table byte by byte, without reference to a reader (write_assignments.hpp:28-160). */
module TableLayout {
  import opened ByteStrings
  import opened Ssz
  import opened TableStream

  // ---- numbers and cells --------------------------------------------------------------------

  lemma Div256(n: nat)
    ensures n / 256 / 256 == n / 0x1_0000 && n / 0x1_0000 / 256 == n / 0x100_0000
    ensures n < 0x1_0000_0000 ==> n / 0x100_0000 / 256 == 0
  {
  }

  lemma ZeroBytes(k: nat)
    ensures LittleEndian(0, k) == Repeat(0, k)
  {
    if k > 0 { ZeroBytes(k - 1); }
  }

  /** A 32-bit number in eight bytes, the least significant first. */
  lemma SizeLittle(n: nat)
    requires n < 0x1_0000_0000
    ensures SizeBytes(n, false)
         == [n % 256, n / 256 % 256, n / 0x1_0000 % 256, n / 0x100_0000, 0, 0, 0, 0]
  {
    Div256(n);
    ZeroBytes(4);
    assert LittleEndian(n / 0x100_0000, 5) == [n / 0x100_0000 % 256] + LittleEndian(n / 0x100_0000 / 256, 4);
    assert LittleEndian(n / 0x1_0000, 6) == [n / 0x1_0000 % 256] + LittleEndian(n / 0x100_0000, 5);
    assert LittleEndian(n / 256, 7) == [n / 256 % 256] + LittleEndian(n / 0x1_0000, 6);
  }

  /** The same with the most significant byte first. */
  lemma SizeBig(n: nat, i: nat)
    requires i < 8
    ensures SizeBytes(n, true)[i] == SizeBytes(n, false)[7 - i]
  {
  }

  // ---- items of one size ------------------------------------------------------------------------

  lemma OneTimesMore(n: nat, w: nat)
    ensures (n + 1) * w == w + n * w
  {
  }

  lemma {:induction false} UniformLength(xs: seq<Bytes>, w: nat)
    requires forall i :: 0 <= i < |xs| ==> |xs[i]| == w
    ensures |Concat(xs)| == |xs| * w
  {
    if xs != [] {
      UniformLength(xs[1..], w);
      OneTimesMore(|xs| - 1, w);
    }
  }

  /** Item `k` begins where the items before it end. */
  lemma ItemAt(list: seq<Bytes>, k: nat, at: nat)
    requires k < |list| && at == |Concat(list[..k])|
    ensures at + |list[k]| <= |Concat(list)| && Concat(list)[at..at + |list[k]|] == list[k]
  {
    var before, item, after := Concat(list[..k]), list[k], Concat(list[k + 1..]);
    assert list == list[..k + 1] + list[k + 1..];
    ConcatSplit(list[..k + 1], list[k + 1..]);
    ConcatSnoc(list[..k], item, list[..k + 1]);
    SliceOfTail(before, item, 0, |item|);
    assert item[0..|item|] == item;
    SlicesOfSum(before + item, after, at, at + |item|);
  }

  lemma SliceOfSlice(s: Bytes, a: nat, n: nat, b: nat, m: nat)
    requires a + n <= |s| && b + m <= n
    ensures s[a..a + n][b..b + m] == s[a + b..a + b + m]
  {
    var t := s[a..a + n];
    var u, v := t[b..b + m], s[a + b..a + b + m];
    forall k | 0 <= k < m ensures u[k] == v[k] {
      assert t[b + k] == s[a + b + k];
    }
  }

  lemma ColumnLength(col: Column, rows: nat, width: nat)
    requires Cells(col, width)
    ensures |Concat(Padded(col, rows, width))| == rows * width
  {
    var cells := Padded(col, rows, width);
    PaddedCells(col, rows, width);
    UniformLength(cells, width);
    assert |cells| == rows;
  }

  /** The columns of a section follow each other, `rows * width` bytes each. */
  lemma ColumnsLength(cols: seq<Column>, rows: nat, width: nat)
    requires forall i :: 0 <= i < |cols| ==> Cells(cols[i], width)
    ensures |Concat(ColumnList(cols, rows, width))| == |cols| * (rows * width)
    ensures forall i :: 0 <= i < |cols| ==> |ColumnList(cols, rows, width)[i]| == rows * width
  {
    forall i | 0 <= i < |cols| ensures |ColumnList(cols, rows, width)[i]| == rows * width {
      ColumnLength(cols[i], rows, width);
    }
    UniformLength(ColumnList(cols, rows, width), rows * width);
  }

  /** Where cell `j` of column `i` of a section is, counted from the end of its first word. */
  function CellOffset(i: nat, j: nat, rows: nat, width: nat): (o: nat) { i * (rows * width) + j * width }

  /** An item of one list in an item of another. */
  lemma ItemOfItem(list: seq<Bytes>, col: seq<Bytes>, i: nat, j: nat, column: nat, cell: nat, width: nat)
    requires i < |list| && column == |Concat(list[..i])| && list[i] == Concat(col)
    requires j < |col| && cell == |Concat(col[..j])| && width == |col[j]|
    ensures column + cell + width <= |Concat(list)|
    ensures Concat(list)[column + cell..column + cell + width] == col[j]
  {
    ItemAt(list, i, column);
    ItemAt(col, j, cell);
    SliceOfSlice(Concat(list), column, |list[i]|, cell, width);
  }

  lemma CellInColumns(cols: seq<Column>, rows: nat, width: nat, i: nat, j: nat, o: nat)
    requires (forall k :: 0 <= k < |cols| ==> Cells(cols[k], width)) && i < |cols| && j < rows
    requires o == CellOffset(i, j, rows, width)
    ensures
      var data := Concat(ColumnList(cols, rows, width));
      o + width <= |data| && data[o..o + width] == Padded(cols[i], rows, width)[j]
  {
    var list, col := ColumnList(cols, rows, width), Padded(cols[i], rows, width);
    ColumnsLength(cols, rows, width);
    PaddedCells(cols[i], rows, width);
    UniformLength(list[..i], rows * width);
    UniformLength(col[..j], width);
    ItemOfItem(list, col, i, j, |Concat(list[..i])|, |Concat(col[..j])|, width);
  }

  // ---- sections -----------------------------------------------------------------------------------

  /** The bytes of the first `k` sections. */
  function Before(parts: seq<seq<Column>>, k: nat, rows: nat, width: nat): (n: nat)
    requires k <= |parts|
  {
    if k == 0 then 0 else Before(parts, k - 1, rows, width) + 8 + |parts[k - 1]| * (rows * width)
  }

  lemma SectionLength(cols: seq<Column>, rows: nat, width: nat, bigEndian: bool)
    requires forall i :: 0 <= i < |cols| ==> Cells(cols[i], width)
    ensures |Section(cols, rows, width, bigEndian)| == 8 + |cols| * (rows * width)
  {
    ColumnsLength(cols, rows, width);
  }

  /** Where the sections begin. */
  lemma {:induction false} BeforeSections(parts: seq<seq<Column>>, k: nat, rows: nat, width: nat, bigEndian: bool)
    requires forall i, j :: 0 <= i < |parts| && 0 <= j < |parts[i]| ==> Cells(parts[i][j], width)
    requires k <= |parts|
    ensures |Concat(SectionList(parts, rows, width, bigEndian)[..k])| == Before(parts, k, rows, width)
  {
    if k > 0 {
      var list := SectionList(parts, rows, width, bigEndian);
      BeforeSections(parts, k - 1, rows, width, bigEndian);
      SectionLength(parts[k - 1], rows, width, bigEndian);
      ConcatSnoc(list[..k - 1], list[k - 1], list[..k]);
    }
  }

  lemma CountWords(t: Table, rows: nat, width: nat, bigEndian: bool, k: nat)
    requires k < 6
    ensures
      var s := Stream(t, rows, width, bigEndian);
      var n := [|t.witnesses|, |t.publicInputs|, |t.constants|, |t.selectors|, Usable(t), rows][k];
      |s| >= 48 && s[8 * k..8 * k + 8] == SizeBytes(n, bigEndian)
  {
    SizesAt(Counts(t, rows), k, bigEndian, Sections(Parts(t), rows, width, bigEndian));
  }

  /** `Usable` is the size of the longest column of the table. */
  lemma UsableIsLongest(t: Table)
    ensures forall c :: c in t.witnesses + t.publicInputs + t.constants + t.selectors ==> |c| <= Usable(t)
    ensures Usable(t) > 0 ==>
            exists c :: c in t.witnesses + t.publicInputs + t.constants + t.selectors && |c| == Usable(t)
  {
  }

  // ---- the whole stream ---------------------------------------------------------------------------

  /** The sections in order. */
  lemma PartsInOrder(t: Table, width: nat)
    requires t.Valid(width)
    ensures Parts(t) == [t.witnesses, t.publicInputs, t.constants, t.selectors]
    ensures forall i, j :: 0 <= i < |Parts(t)| && 0 <= j < |Parts(t)[i]| ==> Cells(Parts(t)[i][j], width)
  {
  }

  lemma SectionInStream(parts: seq<seq<Column>>, head: Bytes, rows: nat, width: nat, bigEndian: bool, k: nat, at: nat,
                        section: Bytes)
    requires forall i, j :: 0 <= i < |parts| && 0 <= j < |parts[i]| ==> Cells(parts[i][j], width)
    requires k < |parts| && at == |head| + Before(parts, k, rows, width)
    requires section == Section(parts[k], rows, width, bigEndian)
    ensures
      var s := head + Sections(parts, rows, width, bigEndian);
      at + |section| <= |s| && s[at..at + |section|] == section
  {
    BeforeSections(parts, k, rows, width, bigEndian);
    ItemAt(SectionList(parts, rows, width, bigEndian), k, at - |head|);
    SliceOfTail(head, Sections(parts, rows, width, bigEndian), at - |head|, at - |head| + |section|);
  }

  lemma InSection(s: Bytes, at: nat, word: Bytes, data: Bytes, o: nat, n: nat)
    requires at + |word + data| <= |s| && s[at..at + |word + data|] == word + data && o + n <= |data|
    ensures s[at..at + |word|] == word
    ensures s[at + |word| + o..at + |word| + o + n] == data[o..o + n]
  {
    SliceOfSlice(s, at, |word + data|, 0, |word|);
    SliceOfSlice(s, at, |word + data|, |word| + o, n);
    SliceOfTail(word, data, o, o + n);
    SlicesOfSum(word, data, 0, |word|);
    assert word[0..|word|] == word;
  }

  /** Each section begins with its number of cells modulo 2^32. */
  lemma SectionWord(t: Table, rows: nat, width: nat, bigEndian: bool, k: nat, at: nat)
    requires t.Valid(width) && k < 4 && at == 48 + Before(Parts(t), k, rows, width)
    ensures
      var s := Stream(t, rows, width, bigEndian);
      at + 8 <= |s| && s[at..at + 8] == SizeBytes(|Parts(t)[k]| * rows % 0x1_0000_0000, bigEndian)
  {
    PartsInOrder(t, width);
    var head, cols := SizesBytes(Counts(t, rows), bigEndian), Parts(t)[k];
    var word, data := SizeBytes(|cols| * rows % UINT32, bigEndian), Concat(ColumnList(cols, rows, width));
    SectionInStream(Parts(t), head, rows, width, bigEndian, k, at, word + data);
    InSection(Stream(t, rows, width, bigEndian), at, word, data, 0, 0);
  }

  lemma CellInSection(s: Bytes, at: nat, cols: seq<Column>, rows: nat, width: nat, bigEndian: bool, o: nat, data: Bytes)
    requires data == Concat(ColumnList(cols, rows, width)) && o + width <= |data|
    requires at + 8 + |data| <= |s| && s[at..at + 8 + |data|] == Section(cols, rows, width, bigEndian)
    ensures s[at + 8 + o..at + 8 + o + width] == data[o..o + width]
  {
    InSection(s, at, SizeBytes(|cols| * rows % UINT32, bigEndian), data, o, width);
  }

  /** Row `j` of a column: its cell, or all zeros where the column is too short. */
  predicate IsRow(cell: Bytes, col: Column, j: nat)
  {
    if j < |col| then cell == col[j] else forall b :: 0 <= b < |cell| ==> cell[b] == 0
  }

  lemma PaddedAt(col: Column, rows: nat, width: nat, j: nat)
    requires j < rows
    ensures IsRow(Padded(col, rows, width)[j], col, j)
  {
    assert Padded(col, rows, width)[j] == if j < |col| then col[j] else ZeroCell(width);
  }

  lemma CellInParts(parts: seq<seq<Column>>, head: Bytes, rows: nat, width: nat, bigEndian: bool, k: nat, i: nat,
                    j: nat, at: nat, o: nat)
    requires forall m, n :: 0 <= m < |parts| && 0 <= n < |parts[m]| ==> Cells(parts[m][n], width)
    requires k < |parts| && i < |parts[k]| && j < rows
    requires at == |head| + Before(parts, k, rows, width) && o == CellOffset(i, j, rows, width)
    ensures
      var s := head + Sections(parts, rows, width, bigEndian);
      at + 8 + o + width <= |s| && s[at + 8 + o..at + 8 + o + width] == Padded(parts[k][i], rows, width)[j]
  {
    var s, cols := head + Sections(parts, rows, width, bigEndian), parts[k];
    SectionInStream(parts, head, rows, width, bigEndian, k, at, Section(cols, rows, width, bigEndian));
    CellInColumns(cols, rows, width, i, j, o);
    CellInSection(s, at, cols, rows, width, bigEndian, o, Concat(ColumnList(cols, rows, width)));
  }

  /** Where every cell is: column `i` of section `k` at row `j`. */
  lemma CellInStream(t: Table, rows: nat, width: nat, bigEndian: bool, k: nat, i: nat, j: nat, at: nat, o: nat)
    requires t.Valid(width) && k < 4 && i < |Parts(t)[k]| && j < rows
    requires at == 48 + Before(Parts(t), k, rows, width) && o == CellOffset(i, j, rows, width)
    ensures
      var s := Stream(t, rows, width, bigEndian);
      at + 8 + o + width <= |s| && IsRow(s[at + 8 + o..at + 8 + o + width], Parts(t)[k][i], j)
  {
    PartsInOrder(t, width);
    CellInParts(Parts(t), SizesBytes(Counts(t, rows), bigEndian), rows, width, bigEndian, k, i, j, at, o);
    PaddedAt(Parts(t)[k][i], rows, width, j);
  }

  /** Nothing else is in the stream. */
  lemma StreamLength(t: Table, rows: nat, width: nat, bigEndian: bool)
    requires t.Valid(width)
    ensures |Stream(t, rows, width, bigEndian)| == 48 + Before(Parts(t), 4, rows, width)
  {
    PartsInOrder(t, width);
    BeforeSections(Parts(t), 4, rows, width, bigEndian);
    var list := SectionList(Parts(t), rows, width, bigEndian);
    assert list[..4] == list;
  }

  /** In numbers: four words and the cells of all columns. */
  lemma BeforeFour(a: seq<Column>, b: seq<Column>, c: seq<Column>, d: seq<Column>, rows: nat, width: nat)
    ensures Before([a, b, c, d], 4, rows, width) == 32 + (|a| + |b| + |c| + |d|) * (rows * width)
  {
    var parts, n := [a, b, c, d], rows * width;
    assert Before(parts, 1, rows, width) == 8 + |a| * n;
    assert Before(parts, 2, rows, width) == 16 + |a| * n + |b| * n;
    assert Before(parts, 3, rows, width) == 24 + |a| * n + |b| * n + |c| * n;
    Distribute(|a|, |b|, |c|, |d|, n);
  }

  lemma Distribute(a: nat, b: nat, c: nat, d: nat, n: nat)
    ensures (a + b + c + d) * n == a * n + b * n + c * n + d * n
  {
  }

  // ---- the height in numbers ---------------------------------------------------------------------

  function Pow2(k: nat): (n: nat) { if k == 0 then 1 else 2 * Pow2(k - 1) }

  lemma {:induction false} PowersOfTwo(k: nat)
    ensures IsPow2(Pow2(k))
  {
    if k > 0 {
      PowersOfTwo(k - 1);
      Doubled(Pow2(k - 1));
    }
  }

  /** The row count is eight, or the one power of two above the longest column and at most twice as large. */
  lemma RowsExactly(usable: nat, cast: nat, k: nat)
    requires usable < 0x8000_0000 && cast < 0x1_0000_0000
    requires 8 <= Pow2(k) && usable < Pow2(k) && (Pow2(k) == 8 || Pow2(k) <= 2 * usable)
    ensures PaddedRows(usable, cast) == Pow2(k)
  {
    PowersOfTwo(k);
    DoublesBelow(Pow2(k), usable);
    HeightIffShort(usable, cast);
  }

  /** Small tables have eight rows, and a table of eight has sixteen. */
  lemma SmallTables(usable: nat, cast: nat)
    requires usable <= 8 && cast < 0x1_0000_0000
    ensures PaddedRows(usable, cast) == if usable < 8 then 8 else 16
  {
    assert Pow2(3) == 8 && Pow2(4) == 16;
    RowsExactly(usable, cast, if usable < 8 then 3 else 4);
  }
}
