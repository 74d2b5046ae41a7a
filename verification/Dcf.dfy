/** read.dcf()'s result matrix while fields are still being discovered:
    reallocated for each new field, as it was, and with spare capacity, as
    patches/0059-dcf-repair-lines-by-utf8valid-rules-and-double-field-capacity.patch
    has it. */
module Dcf {

  datatype Cell = NA | Str(s: string)

  // ---------- the table both matrices stand for

  /** One cell per record and field; the last record is the one being read. */
  datatype Table = Table(fields: seq<string>, records: seq<seq<Cell>>)

  predicate WellFormed(t: Table) {
    |t.records| > 0 && forall c :: 0 <= c < |t.records| ==> |t.records[c]| == |t.fields|
  }

  function Blank(n: nat): (s: seq<Cell>)
    ensures |s| == n && forall i :: 0 <= i < n ==> s[i] == NA
  {
    seq(n, _ => NA)
  }

  datatype Op =
    | NewRecord                                // a blank line
    | NewField(name: string)                   // a field name not seen before
    | Store(m: nat, s: string)                 // field m has a value
    | Extend(m: nat, text: string, fold: bool) // a continuation line of field m

  /** The C string of a cell: NA_STRING's is "NA". */
  function Chars(c: Cell): string { if c.NA? then "NA" else c.s }

  function Continued(c: Cell, text: string, fold: bool): Cell {
    var buf := Chars(c);
    Str((if buf != "" || !fold then buf + "\n" else buf) + text)
  }

  function WithCell(t: Table, m: nat, v: Cell): Table
    requires WellFormed(t) && m < |t.fields|
  {
    var k := |t.records| - 1;
    t.(records := t.records[k := t.records[k][m := v]])
  }

  function WithField(t: Table, name: string): Table {
    Table(t.fields + [name], seq(|t.records|, c requires 0 <= c < |t.records| => t.records[c] + [NA]))
  }

  function WithRecord(t: Table): Table {
    t.(records := t.records + [Blank(|t.fields|)])
  }

  /** An operation on a field that does not exist is not one the reader
      performs; here it changes nothing. */
  function Do(t: Table, op: Op): (t': Table)
    requires WellFormed(t)
    ensures WellFormed(t')
  {
    match op
    case NewRecord => WithRecord(t)
    case NewField(name) => WithField(t, name)
    case Store(m, s) => if m < |t.fields| then WithCell(t, m, Str(s)) else t
    case Extend(m, text, fold) =>
      if m < |t.fields| then WithCell(t, m, Continued(t.records[|t.records| - 1][m], text, fold)) else t
  }

  function DoAll(fields: seq<string>, ops: seq<Op>): (t: Table)
    ensures WellFormed(t)
  {
    if ops == [] then Table(fields, [Blank(|fields|)])
    else Do(DoAll(fields, ops[..|ops| - 1]), ops[|ops| - 1])
  }

  // ---------- the table, read off the operations

  /** The new field names, in order. */
  function Names(ops: seq<Op>): seq<string> {
    if ops == [] then []
    else
      var last := ops[|ops| - 1];
      Names(ops[..|ops| - 1]) + (if last.NewField? then [last.name] else [])
  }

  /** How many blank lines there were. */
  function BlankLines(ops: seq<Op>): nat {
    if ops == [] then 0 else BlankLines(ops[..|ops| - 1]) + (if ops[|ops| - 1].NewRecord? then 1 else 0)
  }

  predicate IsWrite(op: Op, m: nat) { (op.Store? || op.Extend?) && op.m == m }

  /** The values and continuations given for field m of record c, in order. */
  function Writes(fields: seq<string>, ops: seq<Op>, c: nat, m: nat): (ws: seq<Op>)
    ensures forall i :: 0 <= i < |ws| ==> IsWrite(ws[i], m)
  {
    if ops == [] then []
    else
      var init, last := ops[..|ops| - 1], ops[|ops| - 1];
      Writes(fields, init, c, m)
      + (if IsWrite(last, m) && m < |fields| + |Names(init)| && BlankLines(init) == c then [last] else [])
  }

  /** Each continuation on a line of its own. */
  function OnNewLines(es: seq<Op>): string
    requires forall i :: 0 <= i < |es| ==> es[i].Extend?
  {
    if es == [] then "" else OnNewLines(es[..|es| - 1]) + "\n" + es[|es| - 1].text
  }

  /** A value and its continuations: a field that folds and is empty so far takes
      the next one in its place. */
  function Text(value: string, es: seq<Op>): string
    requires forall i :: 0 <= i < |es| ==> es[i].Extend?
    decreases |es|
  {
    if es != [] && value == "" && es[0].fold then Text(es[0].text, es[1..])
    else value + OnNewLines(es)
  }

  lemma NewLinesLonger(es: seq<Op>, e: Op)
    requires e.Extend? && forall i :: 0 <= i < |es| ==> es[i].Extend?
    ensures OnNewLines(es + [e]) == OnNewLines(es) + "\n" + e.text
    ensures es != [] ==> OnNewLines(es) != ""
  {
    assert (es + [e])[..|es|] == es;
  }

  lemma {:induction false} TextLonger(value: string, es: seq<Op>, e: Op)
    requires e.Extend? && forall i :: 0 <= i < |es| ==> es[i].Extend?
    ensures var before := Text(value, es);
      Text(value, es + [e]) == (if before == "" && e.fold then "" else before + "\n") + e.text
    decreases |es|
  {
    var longer := es + [e];
    NewLinesLonger(es, e);
    if es != [] && value == "" && es[0].fold {
      assert longer[1..] == es[1..] + [e];
      TextLonger(es[0].text, es[1..], e);
    } else if es == [] && value == "" && e.fold {
      assert longer[1..] == [];
      assert Text(e.text, []) == e.text + OnNewLines([]) == e.text;
    } else {
      hide OnNewLines;
      assert longer[0] == if es == [] then e else es[0];
      assert value + (OnNewLines(es) + "\n" + e.text) == (value + OnNewLines(es) + "\n") + e.text;
      assert Text(value, es) == value + OnNewLines(es);
    }
  }

  /** The last value given by these writes, and what continued it.  A
      continuation of no value at all finds the string of NA_STRING. */
  function LastValue(ws: seq<Op>): string {
    if ws == [] then "NA"
    else
      var last := ws[|ws| - 1];
      if last.Store? then last.s else LastValue(ws[..|ws| - 1])
  }

  function Since(ws: seq<Op>): (es: seq<Op>)
    ensures forall i :: 0 <= i < |es| ==> es[i].Extend?
  {
    if ws == [] then []
    else
      var last := ws[|ws| - 1];
      if last.Extend? then Since(ws[..|ws| - 1]) + [last] else []
  }

  /** What they leave in the cell. */
  function Contents(ws: seq<Op>): Cell {
    if ws == [] then NA else Str(Text(LastValue(ws), Since(ws)))
  }

  lemma ContentsOfStore(ws: seq<Op>, w: Op)
    requires w.Store?
    ensures Contents(ws + [w]) == Str(w.s)
  {
    assert w.s + OnNewLines([]) == w.s;
  }

  lemma ContentsOfExtend(ws: seq<Op>, w: Op)
    requires w.Extend?
    ensures Contents(ws + [w]) == Continued(Contents(ws), w.text, w.fold)
  {
    assert (ws + [w])[..|ws|] == ws;
    assert "NA" + OnNewLines([]) == "NA";
    assert Chars(Contents(ws)) == Text(LastValue(ws), Since(ws));
    hide Text;
    TextLonger(LastValue(ws), Since(ws), w);
  }

  /** The fields are those known at the start and the new names in order, the
      records one more than the blank lines. */
  lemma {:induction false} ShapeOfAll(fields: seq<string>, ops: seq<Op>)
    ensures DoAll(fields, ops).fields == fields + Names(ops)
    ensures |DoAll(fields, ops).records| == BlankLines(ops) + 1
  {
    if ops != [] {
      ShapeOfAll(fields, ops[..|ops| - 1]);
    }
  }

  lemma NothingBefore(fields: seq<string>, ops: seq<Op>, c: nat, m: nat)
    requires c > BlankLines(ops) || m >= |fields| + |Names(ops)|
    ensures Writes(fields, ops, c, m) == []
  {
    if ops != [] {
      NothingBefore(fields, ops[..|ops| - 1], c, m);
    }
  }

  lemma CellAfter(t: Table, op: Op, c: nat, m: nat)
    requires WellFormed(t) && c < |Do(t, op).records| && m < |Do(t, op).fields|
    ensures Do(t, op).records[c][m] ==
            if c >= |t.records| || m >= |t.fields| then NA
            else if c != |t.records| - 1 || !IsWrite(op, m) then t.records[c][m]
            else if op.Store? then Str(op.s)
            else Continued(t.records[c][m], op.text, op.fold)
  {
    hide Continued;
  }

  lemma ContentsOfNone()
    ensures Contents([]) == NA
  {
  }

  /** Each cell holds what the operations wrote to its field in its record. */
  lemma {:induction false} CellsOfAll(fields: seq<string>, ops: seq<Op>, c: nat, m: nat)
    requires c <= BlankLines(ops) && m < |fields| + |Names(ops)|
    ensures c < |DoAll(fields, ops).records| && m < |DoAll(fields, ops).fields|
    ensures DoAll(fields, ops).records[c][m] == Contents(Writes(fields, ops, c, m))
  {
    hide Do, Contents, Continued, LastValue, Text;
    ShapeOfAll(fields, ops);
    if ops == [] {
      ContentsOfNone();
    } else {
      var init, last := ops[..|ops| - 1], ops[|ops| - 1];
      ShapeOfAll(fields, init);
      CellAfter(DoAll(fields, init), last, c, m);
      var ws := Writes(fields, init, c, m);
      if c <= BlankLines(init) && m < |fields| + |Names(init)| {
        CellsOfAll(fields, init, c, m);
        assert Writes(fields, ops, c, m) == if IsWrite(last, m) && c == BlankLines(init) then ws + [last] else ws;
        if last.Store? {
          ContentsOfStore(ws, last);
        }
        if last.Extend? {
          ContentsOfExtend(ws, last);
        }
      } else {
        NothingBefore(fields, init, c, m);
        ContentsOfNone();
        assert Writes(fields, ops, c, m) == [];
      }
    }
  }

  // ---------- column-major storage

  /** Row r of column c, with `rows` rows allocated per column. */
  function Index(rows: nat, r: nat, c: nat): nat { r + c * rows }

  function Entry(data: seq<Cell>, rows: nat, r: nat, c: nat): Cell {
    var i := Index(rows, r, c);
    if i < |data| then data[i] else NA
  }

  lemma IndexInRange(rows: nat, cols: nat, r: nat, c: nat)
    requires r < rows && c < cols
    ensures Index(rows, r, c) < rows * cols
  {
    assert (c + 1) * rows <= cols * rows;
  }

  lemma IndexBeyond(rows: nat, cols: nat, r: nat, c: nat)
    requires cols <= c
    ensures rows * cols <= Index(rows, r, c)
  {
    assert cols * rows <= c * rows;
  }

  lemma IndexIsInjective(rows: nat, r: nat, c: nat, r': nat, c': nat)
    requires r < rows && r' < rows && Index(rows, r, c) == Index(rows, r', c')
    ensures r == r' && c == c'
  {
    assert c < c' ==> (c + 1) * rows <= c' * rows;
    assert c' < c ==> (c' + 1) * rows <= c * rows;
  }

  /** The matrix holds t in its used rows and columns and NA elsewhere. */
  ghost predicate Holds(data: seq<Cell>, rows: nat, cols: nat, t: Table) {
    && |data| == rows * cols
    && |t.fields| <= rows && |t.records| <= cols
    && WellFormed(t)
    && forall r: nat, c: nat :: r < rows && c < cols ==>
         Entry(data, rows, r, c) == if r < |t.fields| && c < |t.records| then t.records[c][r] else NA
  }

  lemma HoldsStore(data: seq<Cell>, rows: nat, cols: nat, t: Table, m: nat, v: Cell)
    requires Holds(data, rows, cols, t) && m < |t.fields|
    ensures var i := Index(rows, m, |t.records| - 1);
      i < |data| && Holds(data[i := v], rows, cols, WithCell(t, m, v))
  {
    var k := |t.records| - 1;
    IndexInRange(rows, cols, m, k);
    var i := Index(rows, m, k);
    var data' := data[i := v];
    var t' := WithCell(t, m, v);
    forall r: nat, c: nat | r < rows && c < cols
      ensures Entry(data', rows, r, c) == if r < |t'.fields| && c < |t'.records| then t'.records[c][r] else NA
    {
      IndexInRange(rows, cols, r, c);
      if Index(rows, r, c) == i {
        IndexIsInjective(rows, r, c, m, k);
      }
      assert Entry(data, rows, r, c) == if r < |t.fields| && c < |t.records| then t.records[c][r] else NA;
    }
  }

  /** A new record starts as a column that was blank all along. */
  lemma HoldsRecord(data: seq<Cell>, rows: nat, cols: nat, t: Table)
    requires Holds(data, rows, cols, t) && |t.records| < cols
    ensures Holds(data, rows, cols, WithRecord(t))
  {
  }

  /** A new field starts as a row that was blank all along. */
  lemma HoldsField(data: seq<Cell>, rows: nat, cols: nat, t: Table, name: string)
    requires Holds(data, rows, cols, t) && |t.fields| < rows
    ensures Holds(data, rows, cols, WithField(t, name))
  {
  }

  /** Adding columns keeps every cell where it was. */
  lemma HoldsMoreColumns(data: seq<Cell>, rows: nat, cols: nat, data': seq<Cell>, cols': nat, t: Table)
    requires Holds(data, rows, cols, t) && cols <= cols' && |data'| == rows * cols'
    requires |data| <= |data'| && data'[..|data|] == data
    requires forall i :: |data| <= i < |data'| ==> data'[i] == NA
    ensures Holds(data', rows, cols', t)
  {
    forall r: nat, c: nat | r < rows && c < cols'
      ensures Entry(data', rows, r, c) == if r < |t.fields| && c < |t.records| then t.records[c][r] else NA
    {
      IndexInRange(rows, cols', r, c);
      var i := Index(rows, r, c);
      if c < cols {
        IndexInRange(rows, cols, r, c);
        assert Entry(data, rows, r, c) == if r < |t.fields| && c < |t.records| then t.records[c][r] else NA;
      } else {
        IndexBeyond(rows, cols, r, c);
      }
    }
  }

  // ---------- copying

  /** The first rows, up to row nr and its first nc columns, have been copied. */
  ghost predicate CopiedUpTo(src: seq<Cell>, rows: nat, dst: seq<Cell>, rows': nat, cols: nat,
                             width: nat, nr: nat, nc: nat)
  {
    && |dst| == rows' * cols
    && forall r: nat, c: nat :: r < rows' && c < cols ==>
         Entry(dst, rows', r, c) ==
         if c < width && (r < nr || (r == nr && c < nc)) then Entry(src, rows, r, c) else NA
  }

  lemma CopyOne(src: seq<Cell>, rows: nat, dst: seq<Cell>, rows': nat, cols: nat, width: nat, nr: nat, nc: nat)
    requires CopiedUpTo(src, rows, dst, rows', cols, width, nr, nc)
    requires nr < rows <= rows' && nc < width <= cols && |src| == rows * cols
    ensures Index(rows, nr, nc) < |src| && Index(rows', nr, nc) < |dst|
    ensures CopiedUpTo(src, rows, dst[Index(rows', nr, nc) := src[Index(rows, nr, nc)]], rows', cols, width, nr, nc + 1)
  {
    IndexInRange(rows, cols, nr, nc);
    IndexInRange(rows', cols, nr, nc);
    var i := Index(rows', nr, nc);
    var dst' := dst[i := src[Index(rows, nr, nc)]];
    forall r: nat, c: nat | r < rows' && c < cols
      ensures Entry(dst', rows', r, c) ==
              if c < width && (r < nr || (r == nr && c < nc + 1)) then Entry(src, rows, r, c) else NA
    {
      IndexInRange(rows', cols, r, c);
      if Index(rows', r, c) == i {
        IndexIsInjective(rows', r, c, nr, nc);
      }
      assert Entry(dst, rows', r, c) ==
             if c < width && (r < nr || (r == nr && c < nc)) then Entry(src, rows, r, c) else NA;
    }
  }

  method AllocMatrixNA(rows: nat, cols: nat) returns (a: array<Cell>)
    ensures fresh(a) && a.Length == rows * cols
    ensures forall i :: 0 <= i < a.Length ==> a[i] == NA
  {
    assert rows * cols >= 0;
    a := new Cell[rows * cols](_ => NA);
  }

  lemma NextRow(src: seq<Cell>, rows: nat, dst: seq<Cell>, rows': nat, cols: nat, width: nat, nr: nat)
    requires CopiedUpTo(src, rows, dst, rows', cols, width, nr, width)
    ensures CopiedUpTo(src, rows, dst, rows', cols, width, nr + 1, 0)
  {
  }

  /** Copy `height` rows of `width` columns, cell by cell, into a matrix with
      more rows. */
  method CopyRows(src: array<Cell>, rows: nat, rows': nat, cols: nat, height: nat, width: nat)
    returns (dst: array<Cell>, copied: nat)
    requires height <= rows <= rows' && width <= cols && src.Length == rows * cols
    ensures fresh(dst) && CopiedUpTo(src[..], rows, dst[..], rows', cols, width, height, 0)
    ensures copied == height * width
  {
    dst := AllocMatrixNA(rows', cols);
    ghost var s := src[..];
    copied := 0;
    var nr := 0;
    while nr < height
      invariant nr <= height && s == src[..] && copied == nr * width
      invariant CopiedUpTo(s, rows, dst[..], rows', cols, width, nr, 0)
    {
      var nc := 0;
      while nc < width
        invariant nc <= width && s == src[..] && copied == nr * width + nc
        invariant CopiedUpTo(s, rows, dst[..], rows', cols, width, nr, nc)
      {
        CopyOne(s, rows, dst[..], rows', cols, width, nr, nc);
        ghost var before := dst[..];
        dst[Index(rows', nr, nc)] := src[Index(rows, nr, nc)];
        assert dst[..] == before[Index(rows', nr, nc) := s[Index(rows, nr, nc)]];
        copied := copied + 1;
        nc := nc + 1;
      }
      NextRow(s, rows, dst[..], rows', cols, width, nr);
      assert (nr + 1) * width == nr * width + width;
      nr := nr + 1;
    }
  }

  /** Copying the used part is enough: everything else was NA already. */
  lemma HoldsMoreRows(src: seq<Cell>, rows: nat, dst: seq<Cell>, rows': nat, cols: nat, t: Table,
                      width: nat, height: nat)
    requires Holds(src, rows, cols, t) && rows <= rows'
    requires |t.fields| <= height <= rows && |t.records| <= width <= cols
    requires CopiedUpTo(src, rows, dst, rows', cols, width, height, 0)
    ensures Holds(dst, rows', cols, t)
  {
    forall r: nat, c: nat | r < rows' && c < cols
      ensures Entry(dst, rows', r, c) == if r < |t.fields| && c < |t.records| then t.records[c][r] else NA
    {
      if r < rows {
        assert Entry(src, rows, r, c) == if r < |t.fields| && c < |t.records| then t.records[c][r] else NA;
      }
    }
  }

  // ---------- the final transpose

  /** The records as rows: cell (c, r) of the result is field r of record c. */
  ghost predicate IsTransposed(result: seq<Cell>, t: Table, count: nat)
    requires WellFormed(t) && count <= |t.records|
  {
    && |result| == count * |t.fields|
    && forall c: nat, r: nat :: c < count && r < |t.fields| ==> Entry(result, count, c, r) == t.records[c][r]
  }

  /** Two such results are the same vector. */
  lemma TransposedIsUnique(a: seq<Cell>, b: seq<Cell>, t: Table, count: nat)
    requires WellFormed(t) && count <= |t.records|
    requires IsTransposed(a, t, count) && IsTransposed(b, t, count)
    ensures a == b
  {
    forall i | 0 <= i < |a| ensures a[i] == b[i] {
      var c, r := i % count, i / count;
      assert i == Index(count, c, r);
      assert r < |t.fields| by {
        assert r >= |t.fields| ==> r * count >= |t.fields| * count;
      }
      assert Entry(a, count, c, r) == t.records[c][r] == Entry(b, count, c, r);
    }
  }

  ghost predicate TransposedUpTo(result: seq<Cell>, t: Table, count: nat, nr: nat, nc: nat)
    requires WellFormed(t) && count <= |t.records|
  {
    && |result| == count * |t.fields|
    && forall c: nat, r: nat :: c < count && r < |t.fields| && (r < nr || (r == nr && c < nc)) ==>
         Entry(result, count, c, r) == t.records[c][r]
  }

  lemma TransposeOne(result: seq<Cell>, t: Table, count: nat, nr: nat, nc: nat)
    requires WellFormed(t) && count <= |t.records| && nr < |t.fields| && nc < count
    requires TransposedUpTo(result, t, count, nr, nc)
    ensures Index(count, nc, nr) < |result|
    ensures TransposedUpTo(result[Index(count, nc, nr) := t.records[nc][nr]], t, count, nr, nc + 1)
  {
    IndexInRange(count, |t.fields|, nc, nr);
    var result' := result[Index(count, nc, nr) := t.records[nc][nr]];
    forall c: nat, r: nat | c < count && r < |t.fields| && (r < nr || (r == nr && c < nc + 1))
      ensures Entry(result', count, c, r) == t.records[c][r]
    {
      IndexInRange(count, |t.fields|, c, r);
      if Index(count, c, r) == Index(count, nc, nr) {
        IndexIsInjective(count, c, r, nc, nr);
      } else {
        assert Entry(result, count, c, r) == t.records[c][r];
      }
    }
  }

  /** The new code's last loop: unused rows are left behind. */
  method Transpose(data: array<Cell>, rows: nat, cols: nat, nwhat: nat, count: nat, ghost t: Table)
    returns (result: array<Cell>)
    requires Holds(data[..], rows, cols, t) && nwhat == |t.fields| && count <= |t.records|
    ensures fresh(result) && IsTransposed(result[..], t, count)
  {
    result := AllocMatrixNA(count, nwhat);
    ghost var s := data[..];
    var nr := 0;
    while nr < nwhat
      invariant nr <= nwhat && s == data[..]
      invariant TransposedUpTo(result[..], t, count, nr, 0)
    {
      var nc := 0;
      while nc < count
        invariant nc <= count && s == data[..]
        invariant TransposedUpTo(result[..], t, count, nr, nc)
      {
        IndexInRange(rows, cols, nr, nc);
        TransposeOne(result[..], t, count, nr, nc);
        assert Entry(s, rows, nr, nc) == t.records[nc][nr];
        ghost var before := result[..];
        result[Index(count, nc, nr)] := data[Index(rows, nr, nc)];
        assert result[..] == before[Index(count, nc, nr) := t.records[nc][nr]];
        nc := nc + 1;
      }
      nr := nr + 1;
    }
  }

  ghost predicate ByRowUpTo(result: seq<Cell>, t: Table, count: nat, i: nat, j: nat)
    requires WellFormed(t) && count <= |t.records|
  {
    && |result| == count * |t.fields|
    && forall c: nat, r: nat :: c < count && r < |t.fields| && (c < i || (c == i && r < j)) ==>
         Entry(result, count, c, r) == t.records[c][r]
  }

  lemma ByRowOne(result: seq<Cell>, t: Table, count: nat, i: nat, j: nat)
    requires WellFormed(t) && count <= |t.records| && i < count && j < |t.fields|
    requires ByRowUpTo(result, t, count, i, j)
    ensures Index(count, i, j) < |result|
    ensures ByRowUpTo(result[Index(count, i, j) := t.records[i][j]], t, count, i, j + 1)
  {
    IndexInRange(count, |t.fields|, i, j);
    var result' := result[Index(count, i, j) := t.records[i][j]];
    forall c: nat, r: nat | c < count && r < |t.fields| && (c < i || (c == i && r < j + 1))
      ensures Entry(result', count, c, r) == t.records[c][r]
    {
      IndexInRange(count, |t.fields|, c, r);
      if Index(count, c, r) == Index(count, i, j) {
        IndexIsInjective(count, c, r, i, j);
      } else {
        assert Entry(result, count, c, r) == t.records[c][r];
      }
    }
  }

  /** The old code's copyMatrix(..., byrow): record i takes the next nwhat
      entries of the matrix, whose rows are all in use. */
  method CopyMatrixByRow(data: array<Cell>, nwhat: nat, cols: nat, count: nat, ghost t: Table)
    returns (result: array<Cell>)
    requires Holds(data[..], nwhat, cols, t) && nwhat == |t.fields| && count <= |t.records|
    ensures fresh(result) && IsTransposed(result[..], t, count)
  {
    result := AllocMatrixNA(count, nwhat);
    ghost var s := data[..];
    var i := 0;
    while i < count
      invariant i <= count && s == data[..]
      invariant ByRowUpTo(result[..], t, count, i, 0)
    {
      var j := 0;
      while j < nwhat
        invariant j <= nwhat && s == data[..]
        invariant ByRowUpTo(result[..], t, count, i, j)
      {
        IndexInRange(nwhat, cols, j, i);
        ByRowOne(result[..], t, count, i, j);
        assert Entry(s, nwhat, j, i) == t.records[i][j];
        ghost var before := result[..];
        result[Index(count, i, j)] := data[i * nwhat + j];
        assert result[..] == before[Index(count, i, j) := t.records[i][j]];
        j := j + 1;
      }
      i := i + 1;
    }
  }

  method CopyNames(src: array<string>, n: nat, cap: nat) returns (dst: array<string>)
    requires n <= src.Length && n <= cap
    ensures fresh(dst) && dst.Length == cap && dst[..n] == src[..n]
  {
    dst := new string[cap](_ => "");
    var i := 0;
    while i < n
      invariant i <= n && dst[..i] == src[..i]
    {
      dst[i] := src[i];
      i := i + 1;
    }
  }

  method TransferVector(dst: array<Cell>, src: array<Cell>)
    requires src.Length <= dst.Length && src != dst
    modifies dst
    ensures dst[..src.Length] == src[..] && dst[src.Length..] == old(dst[src.Length..])
  {
    var i := 0;
    while i < src.Length
      invariant i <= src.Length && dst[..i] == src[..i]
      invariant dst[src.Length..] == old(dst[src.Length..])
    {
      dst[i] := src[i];
      i := i + 1;
    }
  }

  // ---------- what row growth costs

  const NRET_INIT := 20
  const CAP_INIT := 16

  /** The row capacity after an operation, and the cells growing it copies. */
  function CapAfter(cap: nat, t: Table, op: Op): nat {
    if op.NewField? && |t.fields| == cap then (if cap != 0 then 2 * cap else CAP_INIT) else cap
  }

  function CopiedBy(cap: nat, t: Table, op: Op): nat {
    if op.NewField? && |t.fields| == cap then |t.fields| * |t.records| else 0
  }

  /** The same over all operations. */
  function CapAll(fields: seq<string>, ops: seq<Op>): nat {
    if ops == [] then |fields|
    else
      var init := ops[..|ops| - 1];
      CapAfter(CapAll(fields, init), DoAll(fields, init), ops[|ops| - 1])
  }

  function CopiedAll(fields: seq<string>, ops: seq<Op>): nat {
    if ops == [] then 0
    else
      var init := ops[..|ops| - 1];
      CopiedAll(fields, init) + CopiedBy(CapAll(fields, init), DoAll(fields, init), ops[|ops| - 1])
  }

  lemma OneMoreOp(fields: seq<string>, ops: seq<Op>, i: nat)
    requires i < |ops|
    ensures var done, next := ops[..i], ops[..i + 1];
      && DoAll(fields, next) == Do(DoAll(fields, done), ops[i])
      && CapAll(fields, next) == CapAfter(CapAll(fields, done), DoAll(fields, done), ops[i])
      && CopiedAll(fields, next) ==
         CopiedAll(fields, done) + CopiedBy(CapAll(fields, done), DoAll(fields, done), ops[i])
  {
    assert ops[..i + 1][..i] == ops[..i];
  }

  /** All growth so far copied less than the capacity, per record. */
  predicate CopiesOk(nwhat: nat, cap: nat, records: nat, copied: nat) {
    || (cap == 0 && nwhat == 0 && copied == 0)
    || (cap >= CAP_INIT && nwhat <= cap && copied <= (cap - CAP_INIT) * records && (cap > CAP_INIT ==> cap < 2 * nwhat))
  }

  lemma CopiesLonger(nwhat: nat, cap: nat, records: nat, copied: nat)
    ensures CopiesOk(nwhat, cap, records, copied) ==> CopiesOk(nwhat, cap, records + 1, copied)
  {
    if cap >= CAP_INIT {
      assert (cap - CAP_INIT) * records <= (cap - CAP_INIT) * (records + 1);
    }
  }

  lemma CopiesDoubled(n: nat, records: nat, copied: nat)
    ensures CopiesOk(n, n, records, copied) ==>
              CopiesOk(n + 1, if n != 0 then 2 * n else CAP_INIT, records, copied + n * records)
  {
    if n >= CAP_INIT {
      assert (2 * n - CAP_INIT) * records == (n - CAP_INIT) * records + n * records;
    }
  }

  lemma CopiesKept(cap: nat, t: Table, op: Op, copied: nat)
    requires WellFormed(t) && CopiesOk(|t.fields|, cap, |t.records|, copied)
    ensures CopiesOk(|Do(t, op).fields|, CapAfter(cap, t, op), |Do(t, op).records|, copied + CopiedBy(cap, t, op))
  {
    CopiesLonger(|t.fields|, cap, |t.records|, copied);
    CopiesDoubled(|t.fields|, |t.records|, copied);
  }

  lemma {:induction false} CopiesBounded(ops: seq<Op>)
    ensures var t := DoAll([], ops); CopiesOk(|t.fields|, CapAll([], ops), |t.records|, CopiedAll([], ops))
  {
    if ops != [] {
      var n := |ops| - 1;
      CopiesBounded(ops[..n]);
      CopiesKept(CapAll([], ops[..n]), DoAll([], ops[..n]), ops[n], CopiedAll([], ops[..n]));
      assert ops[..n + 1] == ops;
    }
  }

  lemma BelowTwice(nwhat: nat, cap: nat, records: nat, copied: nat)
    requires nwhat > 0 && records > 0 && CopiesOk(nwhat, cap, records, copied)
    ensures copied < 2 * nwhat * records
  {
    if cap > CAP_INIT {
      assert (cap - CAP_INIT) * records < 2 * nwhat * records;
    }
  }

  /** Whatever is read, discovering fields from nothing copies fewer than two
      cells per field and record. */
  lemma GrowthIsLinear(ops: seq<Op>)
    requires DoAll([], ops).fields != []
    ensures var t := DoAll([], ops); CopiedAll([], ops) < 2 * |t.fields| * |t.records|
  {
    CopiesBounded(ops);
    var t := DoAll([], ops);
    BelowTwice(|t.fields|, CapAll([], ops), |t.records|, CopiedAll([], ops));
  }

  // ---------- the new code

  class DoublingMatrix {
    var what: array<string>
    var nwhat: nat
    var nwhatcap: nat
    var retval: array<Cell>
    var nret: nat
    var k: nat
    ghost var table: Table      // what the matrix stands for
    ghost var copied: nat       // cells copied by row growth

    ghost predicate Valid()
      reads this, what, retval
    {
      && Holds(retval[..], nwhatcap, nret, table)
      && nwhat == |table.fields| <= what.Length == nwhatcap && what[..nwhat] == table.fields
      && k + 1 == |table.records|
    }

    constructor (fields: seq<string>)
      ensures Valid() && fresh(what) && fresh(retval)
      ensures table == DoAll(fields, []) && nwhatcap == |fields| && copied == 0
    {
      var n := |fields|;
      var names := new string[n](i requires 0 <= i < n => fields[i]);
      var matrix := AllocMatrixNA(n, NRET_INIT);
      what, nwhat, nwhatcap := names, n, n;
      retval, nret, k := matrix, NRET_INIT, 0;
      table, copied := Table(fields, [Blank(n)]), 0;
    }

    method NewRecord()
      requires Valid()
      modifies this
      ensures Valid() && (retval == old(retval) || fresh(retval)) && what == old(what)
      ensures table == Do(old(table), Op.NewRecord) && nwhatcap == old(nwhatcap) && copied == old(copied)
    {
      ghost var s := retval[..];
      k := k + 1;
      if k > nret - 1 {
        var retval2 := AllocMatrixNA(nwhatcap, nret * 2);
        TransferVector(retval2, retval);
        HoldsMoreColumns(s, nwhatcap, nret, retval2[..], nret * 2, table);
        nret := nret * 2;
        retval := retval2;
      }
      HoldsRecord(retval[..], nwhatcap, nret, table);
      table := WithRecord(table);
    }

    /** Make room for more fields, so that most new fields copy nothing. */
    method Grow()
      requires Valid() && nwhat == nwhatcap
      modifies this
      ensures Valid() && fresh(retval) && fresh(what) && nwhat < nwhatcap
      ensures table == old(table) && nwhat == old(nwhat)
      ensures nwhatcap == (if old(nwhatcap) != 0 then 2 * old(nwhatcap) else 16)
      ensures copied == old(copied) + nwhat * |table.records|
    {
      var oldcap := nwhatcap;
      var newcap := if oldcap != 0 then 2 * oldcap else CAP_INIT;
      var what2 := CopyNames(what, nwhat, newcap);
      // later columns are still blank
      var retval2, n := CopyRows(retval, oldcap, newcap, nret, nwhat, k + 1);
      HoldsMoreRows(retval[..], oldcap, retval2[..], newcap, nret, table, k + 1, nwhat);
      copied := copied + n;
      nwhatcap, retval, what := newcap, retval2, what2;
    }

    method NewField(name: string)
      requires Valid()
      modifies this, what
      ensures Valid() && (retval == old(retval) || fresh(retval)) && (what == old(what) || fresh(what))
      ensures table == Do(old(table), Op.NewField(name))
      ensures nwhatcap == CapAfter(old(nwhatcap), old(table), Op.NewField(name))
      ensures copied == old(copied) + CopiedBy(old(nwhatcap), old(table), Op.NewField(name))
    {
      if nwhat == nwhatcap {
        Grow();
      }
      HoldsField(retval[..], nwhatcap, nret, table, name);
      ghost var names := what[..nwhat];
      what[nwhat] := name;
      nwhat := nwhat + 1;
      table := WithField(table, name);
      assert what[..nwhat] == names + [name];
    }

    method Get(m: nat) returns (v: Cell)
      requires Valid() && m < nwhat
      ensures v == table.records[k][m]
    {
      IndexInRange(nwhatcap, nret, m, k);
      assert Entry(retval[..], nwhatcap, m, k) == table.records[k][m];
      v := retval[m + nwhatcap * k];
    }

    method Set(m: nat, v: Cell)
      requires Valid() && m < nwhat
      modifies this, retval
      ensures Valid() && retval == old(retval) && what == old(what)
      ensures table == WithCell(old(table), m, v) && nwhat == old(nwhat)
      ensures nwhatcap == old(nwhatcap) && copied == old(copied)
    {
      HoldsStore(retval[..], nwhatcap, nret, table, m, v);
      ghost var s := retval[..];
      retval[m + nwhatcap * k] := v;
      assert retval[..] == s[Index(nwhatcap, m, k) := v];
      table := WithCell(table, m, v);
    }

    method Finish(count: nat) returns (result: array<Cell>, names: seq<string>)
      requires Valid() && count <= k + 1
      ensures names == table.fields && IsTransposed(result[..], table, count)
    {
      result := Transpose(retval, nwhatcap, nret, nwhat, count, table);
      names := what[..nwhat];
    }
  }

  // ---------- the old code

  class GrowByOneMatrix {
    var what: array<string>
    var retval: array<Cell>
    var nret: nat
    var k: nat
    ghost var table: Table

    ghost predicate Valid()
      reads this, what, retval
    {
      && what.Length == |table.fields| && what[..] == table.fields
      && Holds(retval[..], what.Length, nret, table)
      && k + 1 == |table.records|
    }

    constructor (fields: seq<string>)
      ensures Valid() && fresh(what) && fresh(retval)
      ensures table == DoAll(fields, [])
    {
      var n := |fields|;
      var names := new string[n](i requires 0 <= i < n => fields[i]);
      var matrix := AllocMatrixNA(n, NRET_INIT);
      what, retval, nret, k := names, matrix, NRET_INIT, 0;
      table := Table(fields, [Blank(n)]);
    }

    method NewRecord()
      requires Valid()
      modifies this
      ensures Valid() && (retval == old(retval) || fresh(retval)) && what == old(what)
      ensures table == Do(old(table), Op.NewRecord)
    {
      ghost var s := retval[..];
      k := k + 1;
      if k > nret - 1 {
        var retval2 := AllocMatrixNA(what.Length, nret * 2);
        TransferVector(retval2, retval);
        HoldsMoreColumns(s, what.Length, nret, retval2[..], nret * 2, table);
        nret := nret * 2;
        retval := retval2;
      }
      HoldsRecord(retval[..], what.Length, nret, table);
      table := WithRecord(table);
    }

    method NewField(name: string)
      requires Valid()
      modifies this
      ensures Valid() && (retval == old(retval) || fresh(retval)) && (what == old(what) || fresh(what))
      ensures table == Do(old(table), Op.NewField(name))
    {
      var nwhat := what.Length;
      var what2 := CopyNames(what, nwhat, nwhat + 1);
      var retval2, _ := CopyRows(retval, nwhat, nwhat + 1, nret, nwhat, nret);
      HoldsMoreRows(retval[..], nwhat, retval2[..], nwhat + 1, nret, table, nret, nwhat);
      retval, what := retval2, what2;
      HoldsField(retval[..], nwhat + 1, nret, table, name);
      what[nwhat] := name;
      table := WithField(table, name);
      assert what[..] == table.fields;
    }

    method Get(m: nat) returns (v: Cell)
      requires Valid() && m < what.Length
      ensures v == table.records[k][m]
    {
      IndexInRange(what.Length, nret, m, k);
      assert Entry(retval[..], what.Length, m, k) == table.records[k][m];
      v := retval[m + what.Length * k];
    }

    method Set(m: nat, v: Cell)
      requires Valid() && m < what.Length
      modifies this, retval
      ensures Valid() && retval == old(retval) && what == old(what)
      ensures table == WithCell(old(table), m, v)
    {
      HoldsStore(retval[..], what.Length, nret, table, m, v);
      ghost var s := retval[..];
      retval[m + what.Length * k] := v;
      assert retval[..] == s[Index(what.Length, m, k) := v];
      table := WithCell(table, m, v);
    }

    method Finish(count: nat) returns (result: array<Cell>, names: seq<string>)
      requires Valid() && count <= k + 1
      ensures names == table.fields && IsTransposed(result[..], table, count)
    {
      result := CopyMatrixByRow(retval, what.Length, nret, count, table);
      names := what[..];
    }
  }

  // ---------- they agree

  method DoNew(m: DoublingMatrix, op: Op)
    requires m.Valid()
    modifies m, m.what, m.retval
    ensures m.Valid() && m.table == Do(old(m.table), op)
    ensures m.nwhatcap == CapAfter(old(m.nwhatcap), old(m.table), op)
    ensures m.copied == old(m.copied) + CopiedBy(old(m.nwhatcap), old(m.table), op)
    ensures (m.retval == old(m.retval) || fresh(m.retval)) && (m.what == old(m.what) || fresh(m.what))
  {
    match op
    case NewRecord => m.NewRecord();
    case NewField(name) => m.NewField(name);
    case Store(i, s) =>
      if i < m.nwhat {
        m.Set(i, Str(s));
      }
    case Extend(i, text, fold) =>
      if i < m.nwhat {
        var v := m.Get(i);
        m.Set(i, Continued(v, text, fold));
      }
  }

  method DoOld(m: GrowByOneMatrix, op: Op)
    requires m.Valid()
    modifies m, m.what, m.retval
    ensures m.Valid() && m.table == Do(old(m.table), op)
    ensures (m.retval == old(m.retval) || fresh(m.retval)) && (m.what == old(m.what) || fresh(m.what))
  {
    match op
    case NewRecord => m.NewRecord();
    case NewField(name) => m.NewField(name);
    case Store(i, s) =>
      if i < m.what.Length {
        m.Set(i, Str(s));
      }
    case Extend(i, text, fold) =>
      if i < m.what.Length {
        var v := m.Get(i);
        m.Set(i, Continued(v, text, fold));
      }
  }

  predicate HoldsAt(result: seq<Cell>, i: nat, v: Cell) { i < |result| && result[i] == v }

  /** The vector has a row for each of `count` records and a column for each
      field, and each cell what was read for it. */
  ghost predicate HoldsWhatWasRead(result: seq<Cell>, fields: seq<string>, ops: seq<Op>, count: nat) {
    var n := |fields| + |Names(ops)|;
    && |result| == count * n
    && forall c: nat, m: nat :: c < count && m < n ==>
         HoldsAt(result, c + m * count, Contents(Writes(fields, ops, c, m)))
  }

  lemma TransposedCell(result: seq<Cell>, fields: seq<string>, ops: seq<Op>, count: nat, c: nat, m: nat)
    requires count <= |DoAll(fields, ops).records| && c < count && m < |fields| + |Names(ops)|
    requires IsTransposed(result, DoAll(fields, ops), count)
    ensures HoldsAt(result, c + m * count, Contents(Writes(fields, ops, c, m)))
  {
    hide DoAll, Contents, Writes;
    ShapeOfAll(fields, ops);
    CellsOfAll(fields, ops, c, m);
    IndexInRange(count, |fields| + |Names(ops)|, c, m);
    assert Entry(result, count, c, m) == DoAll(fields, ops).records[c][m];
  }

  lemma TransposedCells(result: seq<Cell>, fields: seq<string>, ops: seq<Op>, count: nat)
    requires count <= |DoAll(fields, ops).records| && IsTransposed(result, DoAll(fields, ops), count)
    ensures HoldsWhatWasRead(result, fields, ops, count)
  {
    hide DoAll, Contents, Writes, HoldsAt;
    ShapeOfAll(fields, ops);
    forall c: nat, m: nat | c < count && m < |fields| + |Names(ops)|
      ensures HoldsAt(result, c + m * count, Contents(Writes(fields, ops, c, m)))
    {
      TransposedCell(result, fields, ops, count, c, m);
    }
  }

  /** Whatever is read, in whatever order, doubling returns the matrix and the
      names that growing by one returned, which hold for each field and record
      what was read for it; and if no field was known at the start, growing has
      copied fewer than two cells per field and record. */
  method DoublingRefinesGrowByOne(fields: seq<string>, ops: seq<Op>, lastRecordOpen: bool)
    returns (a: array<Cell>, namesA: seq<string>, b: array<Cell>, namesB: seq<string>, ghost copied: nat)
    ensures a[..] == b[..] && namesA == namesB == DoAll(fields, ops).fields
    ensures var t := DoAll(fields, ops);
      IsTransposed(a[..], t, if lastRecordOpen then |t.records| else |t.records| - 1)
    ensures var count := BlankLines(ops) + (if lastRecordOpen then 1 else 0);
      namesA == fields + Names(ops) && HoldsWhatWasRead(a[..], fields, ops, count)
    ensures copied == CopiedAll(fields, ops)
    ensures var t := DoAll(fields, ops);
      fields == [] && t.fields != [] ==> copied < 2 * |t.fields| * |t.records|
  {
    hide DoAll, Do, IsTransposed, CapAfter, CopiedBy, HoldsWhatWasRead;
    var grown := new GrowByOneMatrix(fields);
    var doubled := new DoublingMatrix(fields);
    assert ops[..0] == [];
    var i := 0;
    while i < |ops|
      invariant i <= |ops| && grown.Valid() && doubled.Valid()
      invariant grown.table == doubled.table == DoAll(fields, ops[..i])
      invariant doubled.nwhatcap == CapAll(fields, ops[..i]) && doubled.copied == CopiedAll(fields, ops[..i])
      invariant fresh(grown) && fresh(doubled) && fresh(grown.what) && fresh(grown.retval)
      invariant fresh(doubled.what) && fresh(doubled.retval)
      invariant grown.what != doubled.what && grown.retval != doubled.retval
    {
      OneMoreOp(fields, ops, i);
      DoOld(grown, ops[i]);
      DoNew(doubled, ops[i]);
      i := i + 1;
    }
    assert ops[..i] == ops;
    copied := doubled.copied;
    if fields == [] && DoAll(fields, ops).fields != [] {
      GrowthIsLinear(ops);
    }
    var count := if lastRecordOpen then grown.k + 1 else grown.k;
    a, namesA := grown.Finish(count);
    b, namesB := doubled.Finish(count);
    TransposedIsUnique(a[..], b[..], grown.table, count);
    ShapeOfAll(fields, ops);
    TransposedCells(a[..], fields, ops, count);
  }
}
