/** `kelondroRow`: a record schema (an ordered list of fixed-width columns)
    and its `Entry` records, each a byte buffer of the schema's size. */
module KelondroRow {
  import opened JavaTypes
  import opened Options
  import opened JavaStrings
  import opened ColumnTypes
  import opened Layout
  import opened Structure
  import opened Cells
  import opened PropertyForm
  import opened ExternalForm

  /** `System.arraycopy(src, 0, dest, destPos, |src|)`. Java copies as if
      through a temporary array, so the source is taken as a snapshot. */
  method ArrayCopy(src: seq<int8>, dest: array<int8>, destPos: nat)
    requires destPos + |src| <= dest.Length
    modifies dest
    ensures dest[..] == Write(old(dest[..]), destPos, src)
  {
    var i := 0;
    while i < |src|
      invariant 0 <= i <= |src|
      invariant dest[..] == old(dest[..])[..destPos] + src[..i] + old(dest[..])[destPos + i..]
    {
      dest[destPos + i] := src[i];
      i := i + 1;
    }
  }

  /** Zeroes `a[from..to)`, counting down from `to` as `setCol` does. */
  method ZeroDown(a: array<int8>, from: nat, to: nat)
    requires from <= to <= a.Length
    modifies a
    ensures a[..] == old(a[..from]) + Zeros(to - from) + old(a[to..])
  {
    var k := to;
    while k > from
      invariant from <= k <= to
      invariant a[..] == old(a[..k]) + Zeros(to - k) + old(a[to..])
    {
      k := k - 1;
      a[k] := 0;
    }
  }

  /** Zeroes `a[from..to)`, counting up, as the entry constructors do. */
  method ZeroUp(a: array<int8>, from: nat, to: nat)
    requires from <= to <= a.Length
    modifies a
    ensures a[..] == old(a[..from]) + Zeros(to - from) + old(a[to..])
  {
    var k := from;
    while k < to
      invariant from <= k <= to
      invariant a[..] == old(a[..from]) + Zeros(k - from) + old(a[k..])
    {
      a[k] := 0;
      k := k + 1;
    }
  }

  /** The cell offsets and the record size every schema constructor computes
      in its loop: each column starts where the previous ones end. */
  method LayOut(columns: seq<Column>) returns (starts: seq<nat>, size: nat)
    ensures Laid(columns, starts, size)
  {
    starts, size := [], 0;
    var i := 0;
    while i < |columns|
      invariant 0 <= i <= |columns|
      invariant Laid(columns[..i], starts, size)
    {
      LaidAppend(columns[..i], starts, size, columns[i]);
      assert columns[..i + 1] == columns[..i] + [columns[i]];
      starts := starts + [size];
      size := size + columns[i].width;
      i := i + 1;
    }
    assert columns[..i] == columns;
  }

  /** The columns `kelondroRow(int[])` makes: column `i` is named `col_i`, of
      undefined type, without encoder and comment, `widths[i]` bytes wide. */
  function WidthColumns(widths: seq<nat>): (r: seq<Column>)
    ensures |r| == |widths|
    ensures forall i :: 0 <= i < |widths| ==>
      r[i] == Column("col_" + Decimal(i), TypeUndefined, EncNone, widths[i], "")
  {
    seq(|widths|, i requires 0 <= i < |widths| =>
      Column("col_" + Decimal(i), TypeUndefined, EncNone, widths[i], ""))
  }

  /** The `col_i` nicknames of a width-only schema are pairwise distinct, so
      its nickname table has one entry per column. */
  lemma WidthNicksDistinct(widths: seq<nat>)
    ensures forall i, j :: 0 <= i < j < |widths| ==>
      WidthColumns(widths)[i].nickname != WidthColumns(widths)[j].nickname
  {
    forall i, j | 0 <= i < j < |widths|
      ensures WidthColumns(widths)[i].nickname != WidthColumns(widths)[j].nickname
    {
      DecimalInjective(i, j);
    }
  }

  /** The columns `kelondroRow(String)` makes from the tokens of a structure
      string, each token parsed by `parse` (the `kelondroColumn(String)`
      constructor): the pivot column first, if there is one. */
  function StructureColumns(parts: Parts, parse: string -> Column): (r: seq<Column>)
    ensures var o := if parts.pivot.Some? then 1 else 0;
      && |r| == o + |parts.columns|
      && (parts.pivot.Some? ==> r[0] == parse(parts.pivot.value))
      && forall j :: 0 <= j < |parts.columns| ==> r[o + j] == parse(parts.columns[j])
  {
    (if parts.pivot.Some? then [parse(parts.pivot.value)] else [])
      + seq(|parts.columns|, j requires 0 <= j < |parts.columns| => parse(parts.columns[j]))
  }

  /** The record `new Entry(byte[] b, start, length)` builds AS WRITTEN: a
      buffer of `length` bytes (not `objectsize`) holding the slice, after a
      padding loop that starts at `b.length` and so throws (index out of
      bounds) as soon as it runs at all. `None` where the constructor throws. */
  function SliceRecordAsWritten(objectsize: nat, b: seq<int8>, start: int, length: int): (r: Option<seq<int8>>)
    ensures r.Some? <==> 0 <= start && 0 <= length && start + length <= |b| && objectsize <= |b|
    ensures r.Some? ==> r.value == b[start..start + length]
  {
    if length < 0 || start < 0 || start + length > |b| then None   // new byte[length] / arraycopy throw
    else if |b| < objectsize then None                              // rowinstance[b.length] is out of bounds
    else Some(b[start..start + length])
  }

  /** The discrepancy: a slice shorter than the schema gives a record of the
      wrong size, and a source array shorter than the schema throws even for
      a slice that fits. */
  lemma SliceAsWrittenCounterexample()
    ensures SliceRecordAsWritten(4, Zeros(8), 0, 2) == Some(Zeros(2))
    ensures |SliceRecordAsWritten(4, Zeros(8), 0, 2).value| != 4
    ensures SliceRecordAsWritten(4, [1, 2, 3], 0, 3).None?
  {
    assert Zeros(8)[0..2] == Zeros(2);
  }

  /** The record the slice constructor evidently intends: the slice truncated
      or zero-padded to the schema's size, as `Entry(byte[])` does for a whole
      array. */
  function SliceRecord(objectsize: nat, b: seq<int8>, start: nat, length: nat): (r: seq<int8>)
    requires start + length <= |b|
    ensures |r| == objectsize
    ensures forall k :: 0 <= k < objectsize ==> r[k] == (if k < length then b[start + k] else 0)
  {
    Fit(Some(b[start..start + length]), objectsize)
  }

  /** The corrected record: the copied prefix of the slice, then zeros. */
  lemma SliceRecordParts(objectsize: nat, b: seq<int8>, start: nat, length: nat)
    requires start + length <= |b|
    ensures var ll := if objectsize < length then objectsize else length;
      SliceRecord(objectsize, b, start, length) == b[start..start + ll] + Zeros(objectsize - ll)
  {
  }

  /** The buffer of the corrected `Entry(byte[], start, length)`: a new array
      of `objectsize` bytes holding the slice, cut or zero-padded. */
  method CopySlice(b: array<int8>, start: nat, length: nat, objectsize: nat) returns (a: array<int8>)
    requires start + length <= b.Length
    ensures fresh(a)
    ensures a[..] == SliceRecord(objectsize, b[..], start, length)
  {
    a := new int8[objectsize];
    var ll := if objectsize < length then objectsize else length;
    var copied := b[start..start + ll];
    ArrayCopy(copied, a, 0);
    assert a[..ll] == copied;
    ZeroUp(a, ll, objectsize);
    assert a[..] == copied + Zeros(objectsize - ll);
    SliceRecordParts(objectsize, b[..], start, length);
  }

  class Row {
    /** The columns, their cell offsets and the record size; fixed once the
        constructor has laid out the columns. */
    const cols: seq<Column>
    const colstart: seq<nat>
    const objectsize: nat
    /** The nickname table, built on first use by `GenNickRef`. */
    var nickref: Option<map<string, (Column, nat)>>

    ghost predicate Valid()
      reads this
    {
      && Laid(cols, colstart, objectsize)
      && (nickref.Some? ==> nickref.value == NickRefOf(cols, colstart))
    }

    /** `kelondroRow(kelondroColumn[])`. */
    constructor (columns: seq<Column>)
      ensures Valid() && cols == columns && nickref.None?
    {
      var starts, size := LayOut(columns);
      cols, colstart, objectsize := columns, starts, size;
      nickref := None;
    }

    /** `kelondroRow(int[])`: anonymous columns of the given widths. */
    constructor FromWidths(widths: seq<nat>)
      ensures Valid() && cols == WidthColumns(widths) && nickref.None?
    {
      var columns: seq<Column> := [];
      var i := 0;
      while i < |widths|
        invariant 0 <= i <= |widths|
        invariant columns == WidthColumns(widths)[..i]
      {
        columns := columns + [Column("col_" + Decimal(i), TypeUndefined, EncNone, widths[i], "")];
        i := i + 1;
      }
      var starts, size := LayOut(columns);
      cols, colstart, objectsize := columns, starts, size;
      nickref := None;
    }

    /** The column-building half of `kelondroRow(String)`, from the tokens
        `ParseRow` cut the structure string into. */
    constructor FromParts(parts: Parts, parse: string -> Column)
      ensures Valid() && nickref.None?
      ensures cols == StructureColumns(parts, parse)
    {
      var o := if parts.pivot.Some? then 1 else 0;
      var columns: seq<Column> := [];
      if parts.pivot.Some? {
        columns := [parse(parts.pivot.value)];
      }
      ghost var all := StructureColumns(parts, parse);
      var i := 0;
      while i < |parts.columns|
        invariant 0 <= i <= |parts.columns|
        invariant |columns| == o + i
        invariant forall k :: 0 <= k < o + i ==> columns[k] == all[k]
      {
        columns := columns + [parse(parts.columns[i])];
        i := i + 1;
      }
      var starts, size := LayOut(columns);
      cols, colstart, objectsize := columns, starts, size;
      nickref := None;
    }

    /** `genNickRef`: builds the nickname table unless it is there already. */
    method GenNickRef()
      requires Valid()
      modifies this`nickref
      ensures Valid() && nickref == Some(NickRefOf(cols, colstart))
    {
      if nickref.Some? {
        return;
      }
      var m: map<string, (Column, nat)> := map[];
      var i := 0;
      while i < |cols|
        invariant 0 <= i <= |cols|
        invariant m == NickRefOf(cols[..i], colstart[..i])
      {
        assert cols[..i + 1][..i] == cols[..i] && colstart[..i + 1][..i] == colstart[..i];
        m := m[cols[i].nickname := (cols[i], colstart[i])];
        i := i + 1;
      }
      assert cols[..i] == cols && colstart[..i] == colstart;
      nickref := Some(m);
    }

    /** `columns()`: one cell per column. */
    function ColumnCount(): (n: nat)
      reads this
      requires Valid()
      ensures n == |colstart|
    {
      |cols|
    }

    /** `objectsize()`: the record is exactly as wide as all its cells. */
    function ObjectSize(): (n: nat)
      reads this
      requires Valid()
      ensures n == SumWidths(cols)
    {
      objectsize
    }

    /** `width(c)`: column `c`'s cell width; the cell lies within the record. */
    function Width(c: nat): (w: nat)
      reads this
      requires Valid() && c < |cols|
      ensures w == cols[c].width && colstart[c] + w <= objectsize
    {
      CellWithin(cols, colstart, objectsize, c);
      cols[c].width
    }

    /** `widths()`: a new array of the cell widths. */
    method Widths() returns (w: array<int>)
      requires Valid()
      ensures fresh(w) && w.Length == |cols|
      ensures forall i :: 0 <= i < |cols| ==> w[i] == cols[i].width
    {
      w := new int[|cols|];
      var i := 0;
      while i < |cols|
        invariant 0 <= i <= |cols|
        invariant forall j :: 0 <= j < i ==> w[j] == cols[j].width
      {
        w[i] := cols[i].width;
        i := i + 1;
      }
    }

    /** `newEntry()`: a zeroed record. */
    method NewEntry() returns (e: Entry)
      requires Valid()
      ensures fresh(e) && fresh(e.buf) && e.row == this && e.Valid()
      ensures e.buf[..] == Zeros(objectsize)
    {
      e := new Entry(this);
    }

    /** `newEntry(byte[])`: `null` for `null`, else the record over `b`. */
    method NewEntryFromBytes(b: array?<int8>) returns (e: Entry?)
      requires Valid()
      ensures (e == null) == (b == null)
      ensures e != null ==> fresh(e) && e.row == this && e.Valid()
      ensures e != null ==> e.buf[..] == Fit(Some(old(b[..])), objectsize)
      ensures e != null ==> (if b.Length == objectsize then e.buf == b else fresh(e.buf))
    {
      if b == null {
        return null;
      }
      e := new Entry.FromBytes(this, b);
    }

    /** `newEntry(byte[], start, length)`, with the slice constructor corrected. */
    method NewEntryFromSlice(b: array?<int8>, start: nat, length: nat) returns (e: Entry?)
      requires Valid()
      requires b != null ==> start + length <= b.Length
      ensures (e == null) == (b == null)
      ensures e != null ==> fresh(e) && fresh(e.buf) && e.row == this && e.Valid()
      ensures e != null ==> e.buf[..] == SliceRecord(objectsize, b[..], start, length)
    {
      if b == null {
        return null;
      }
      e := new Entry.FromSlice(this, b, start, length);
    }

    /** `newEntry(byte[][])`: `null` for `null`, else the record of the cells. */
    method NewEntryFromCells(cells: Option<seq<Option<seq<int8>>>>) returns (e: Entry?)
      requires Valid()
      requires cells.Some? ==> forall i :: |cols| <= i < |cells.value| ==> cells.value[i].None?
      ensures (e == null) == cells.None?
      ensures e != null ==> fresh(e) && fresh(e.buf) && e.row == this && e.Valid()
      ensures e != null ==> e.buf[..] == CellsImage(cols, colstart, objectsize, cells.value)
    {
      if cells.None? {
        return null;
      }
      e := new Entry.FromCells(this, cells.value);
    }

    /** `newEntry(String)`: `null` for `null`, else the parsed record or the
        exception of the parse. The nickname table is built once the form has
        been split into elements. */
    method NewEntryFromExternal(external: Option<string>, encode: string -> seq<int8>)
      returns (r: Result<Entry?, RowError>)
      requires Valid()
      modifies this`nickref
      ensures Valid()
      ensures external.None? ==> r == Success(null) && nickref == old(nickref)
      ensures external.Some? ==>
        (nickref == if Elements(external.value).Success? then Some(NickRefOf(cols, colstart)) else old(nickref))
      ensures external.Some? ==> (r.Success? <==> Parse(cols, colstart, objectsize, external.value, encode).Success?)
      ensures external.Some? && r.Failure? ==> r.error == Parse(cols, colstart, objectsize, external.value, encode).error
      ensures external.Some? && r.Success? ==>
        var e := r.value;
        && e != null && fresh(e) && fresh(e.buf) && e.row == this && e.Valid()
        && e.buf[..] == Parse(cols, colstart, objectsize, external.value, encode).value
    {
      if external.None? {
        return Success(null);
      }
      var text := external.value;
      var parsed := Parse(cols, colstart, objectsize, text, encode);
      if parsed.Failure? {
        if Elements(text).Success? {
          GenNickRef();
        }
        r := Failure(parsed.error);
      } else {
        var e := new Entry.FromExternal(this, text, encode);
        r := Success(e);
      }
    }
  }

  class Entry {
    /** The schema of the record. */
    const row: Row
    /** `rowinstance`: the record's bytes. */
    var buf: array<int8>

    ghost predicate Valid()
      reads this, row
    {
      row.Valid() && buf.Length == row.objectsize
    }

    /** `Entry()`: a zeroed record. */
    constructor (r: Row)
      requires r.Valid()
      ensures row == r && Valid() && fresh(buf)
      ensures buf[..] == Zeros(r.objectsize)
    {
      var a := new int8[r.objectsize];
      ZeroUp(a, 0, r.objectsize);
      row, buf := r, a;
    }

    /** `Entry(byte[])`: the array itself when it has the record's size, else
        a copy truncated or zero-padded to it. */
    constructor FromBytes(r: Row, b: array<int8>)
      requires r.Valid()
      ensures row == r && Valid()
      ensures buf[..] == Fit(Some(old(b[..])), r.objectsize)
      ensures if b.Length == r.objectsize then buf == b else fresh(buf)
    {
      if b.Length == r.objectsize {
        assert b[..][..r.objectsize] == b[..];
        row, buf := r, b;
      } else {
        var a := new int8[r.objectsize];
        var ll := if r.objectsize < b.Length then r.objectsize else b.Length;
        ArrayCopy(b[..ll], a, 0);
        ZeroUp(a, ll, r.objectsize);
        row, buf := r, a;
      }
    }

    /** `Entry(byte[], start, length)`, corrected: the slice truncated or
        zero-padded to the record's size. */
    constructor FromSlice(r: Row, b: array<int8>, start: nat, length: nat)
      requires r.Valid() && start + length <= b.Length
      ensures row == r && Valid() && fresh(buf)
      ensures buf[..] == SliceRecord(r.objectsize, old(b[..]), start, length)
    {
      var a := CopySlice(b, start, length, r.objectsize);
      row, buf := r, a;
    }

    /** `Entry(byte[][])`: each non-null `cells[i]`, cut to its column's width,
        at the start of its column's cell, over zero bytes. */
    constructor FromCells(r: Row, cells: seq<Option<seq<int8>>>)
      requires r.Valid()
      requires forall i :: |r.cols| <= i < |cells| ==> cells[i].None?
      ensures row == r && Valid() && fresh(buf)
      ensures buf[..] == CellsImage(r.cols, r.colstart, r.objectsize, cells)
    {
      var a := new int8[r.objectsize];
      ZeroUp(a, 0, r.objectsize);
      assert a[..] == CellsImage(r.cols, r.colstart, r.objectsize, cells[..0]);
      var i := 0;
      while i < |cells|
        invariant 0 <= i <= |cells| && a.Length == r.objectsize
        invariant a[..] == CellsImage(r.cols, r.colstart, r.objectsize, cells[..i])
      {
        assert cells[..i + 1][..i] == cells[..i];
        if cells[i].Some? {
          var v := cells[i].value;
          CellWithin(r.cols, r.colstart, r.objectsize, i);
          var m := if |v| < r.cols[i].width then |v| else r.cols[i].width;
          ArrayCopy(v[..m], a, r.colstart[i]);
        }
        i := i + 1;
      }
      assert cells[..i] == cells;
      row, buf := r, a;
    }

    /** `Entry(String)`, for an external form that parses: the nickname table
        is built, then each `nick=value` element copies the first `width`
        bytes of its value into the named column's cell. */
    constructor FromExternal(r: Row, external: string, encode: string -> seq<int8>)
      requires r.Valid()
      requires Parse(r.cols, r.colstart, r.objectsize, external, encode).Success?
      modifies r`nickref
      ensures row == r && Valid() && fresh(buf)
      ensures r.nickref == Some(NickRefOf(r.cols, r.colstart))
      ensures buf[..] == Parse(r.cols, r.colstart, r.objectsize, external, encode).value
    {
      var elts := Elements(external).value;
      r.GenNickRef();
      var table := r.nickref.value;
      var a := new int8[r.objectsize](_ => 0);
      assert a[..] == Zeros(r.objectsize);
      ApplyElements(r.cols, r.colstart, table, elts, encode, a);
      row, buf := r, a;
    }

    /** `bytes()`: the record's own array, not a copy. */
    method Bytes() returns (a: array<int8>)
      ensures a == buf
    {
      a := buf;
    }

    /** `columns()` of the entry: that of its schema. */
    function ColumnCount(): (n: nat)
      reads this, row
      requires Valid()
      ensures n == |row.cols|
    {
      row.ColumnCount()
    }

    /** `objectsize()` of the entry: the schema's size, which is the buffer's. */
    function ObjectSize(): (n: nat)
      reads this, row
      requires Valid()
      ensures n == buf.Length
    {
      row.ObjectSize()
    }

    /** `empty(c)`: the cell's first byte is zero, so `getColString` reads it
        as `null`. */
    method IsEmpty(c: nat) returns (r: bool)
      requires Valid() && c < |row.cols| && row.colstart[c] < buf.Length
      ensures r <==> buf[row.colstart[c]] == 0
      ensures r ==> StringBytes(buf[..], row.colstart[c], row.cols[c].width).None?
    {
      r := buf[row.colstart[c]] == 0;
    }

    /** `setCol(c, cell)`: the cell becomes `cell` truncated or zero-padded
        to the column's width (all zero for `null`); no other byte changes. */
    method SetCol(c: nat, cell: array?<int8>)
      requires Valid() && c < |row.cols|
      modifies buf
      ensures Valid()
      ensures row.colstart[c] + row.cols[c].width <= buf.Length
      ensures buf[..] == Write(old(buf[..]), row.colstart[c],
                               Fit(if cell == null then None else Some(old(cell[..])), row.cols[c].width))
    {
      CellWithin(row.cols, row.colstart, row.objectsize, c);
      StoreCell(buf, row.colstart[c], row.cols[c].width, cell);
    }

    /** `setColByte(c, b)`: the cell's first byte becomes `b`. */
    method SetColByte(c: nat, b: int8)
      requires Valid() && c < |row.cols| && row.colstart[c] < buf.Length
      modifies buf
      ensures Valid()
      ensures buf[..] == old(buf[..])[row.colstart[c] := b]
    {
      buf[row.colstart[c]] := b;
    }

    /** `setColString(c, s, encoding)`: `setCol` with the string's bytes in the
        platform charset or the named one; an unsupported charset leaves the
        record unchanged. */
    method SetColString(c: nat, s: string, encoding: Option<string>, cs: Charsets)
      requires Valid() && c < |row.cols|
      modifies buf
      ensures Valid()
      ensures row.colstart[c] + row.cols[c].width <= buf.Length
      ensures buf[..] == (match EncodeText(s, encoding, cs)
                          case None => old(buf[..])
                          case Some(bytes) => Write(old(buf[..]), row.colstart[c], Fit(Some(bytes), row.cols[c].width)))
    {
      CellWithin(row.cols, row.colstart, row.objectsize, c);
      var bytes: seq<int8>;
      if encoding.None? {
        bytes := cs.platformEncode(s);
      } else {
        match cs.encode(s, encoding.value)
        case None =>
          return;
        case Some(bs) =>
          bytes := bs;
      }
      var a := new int8[|bytes|](k requires 0 <= k < |bytes| => bytes[k]);
      assert a[..] == bytes;
      SetCol(c, a);
    }

    /** `setColLong(c, v)`: through the coder of the column's encoder; throws
        for encoders none and bytes, does nothing for an unnamed encoder. */
    method SetColLong(c: nat, v: int, coders: Coders) returns (o: Outcome<RowError>)
      requires Valid() && c < |row.cols| && IsLong(v) && coders.FixedWidth()
      modifies buf
      ensures Valid()
      ensures row.colstart[c] + row.cols[c].width <= buf.Length
      ensures o.Fail? <==> StoreLong(row.cols[c], v, coders).Failure?
      ensures o.Fail? ==> o.error == StoreLong(row.cols[c], v, coders).error
      ensures buf[..] == (match StoreLong(row.cols[c], v, coders)
                          case Success(Some(bytes)) => Write(old(buf[..]), row.colstart[c], bytes)
                          case _ => old(buf[..]))
    {
      CellWithin(row.cols, row.colstart, row.objectsize, c);
      match row.cols[c].encoder
      case EncNone =>
        o := Fail(SetLongNoEncoder);
      case EncB64e =>
        SetColLongB64E(c, v, coders.enhanced);
        o := Pass;
      case EncB256 =>
        SetColLongB256(c, v, coders.natural);
        o := Pass;
      case EncBytes =>
        o := Fail(SetLongBytes);
      case EncOther(_) =>
        o := Pass;
    }

    /** `setColLongB256(c, v)`: the cell becomes the base-256 coder's bytes for `v`. */
    method SetColLongB256(c: nat, v: int, coder: IntCoder)
      requires Valid() && c < |row.cols| && IsLong(v) && coder.FixedWidth()
      modifies buf
      ensures Valid()
      ensures row.colstart[c] + row.cols[c].width <= buf.Length
      ensures buf[..] == Write(old(buf[..]), row.colstart[c], coder.encodeLong(v, row.cols[c].width))
    {
      CellWithin(row.cols, row.colstart, row.objectsize, c);
      ArrayCopy(coder.encodeLong(v, row.cols[c].width), buf, row.colstart[c]);
    }

    /** `setColLongB64E(c, v)`: the cell becomes the base-64 coder's bytes for `v`. */
    method SetColLongB64E(c: nat, v: int, coder: IntCoder)
      requires Valid() && c < |row.cols| && IsLong(v) && coder.FixedWidth()
      modifies buf
      ensures Valid()
      ensures row.colstart[c] + row.cols[c].width <= buf.Length
      ensures buf[..] == Write(old(buf[..]), row.colstart[c], coder.encodeLong(v, row.cols[c].width))
    {
      CellWithin(row.cols, row.colstart, row.objectsize, c);
      ArrayCopy(coder.encodeLong(v, row.cols[c].width), buf, row.colstart[c]);
    }

    /** `getColString(c, encoding)`: `null` when the cell's first byte is zero
        or only zero bytes remain once trailing ones are dropped, else the
        remaining bytes decoded. */
    method GetColString(c: nat, encoding: Option<string>, cs: Charsets) returns (r: Option<string>)
      requires Valid() && c < |row.cols| && row.colstart[c] < buf.Length
      ensures r == LoadText(buf[..], row.colstart[c], row.cols[c].width, encoding, cs)
    {
      var length := row.cols[c].width;
      var offset := row.colstart[c];
      if buf[offset] == 0 {
        return None;
      }
      if length > buf.Length - offset {
        length := buf.Length - offset;
      }
      ghost var len0 := length;
      while length > 0 && buf[offset + length - 1] == 0
        invariant 0 <= length <= len0
        invariant forall k :: offset + length <= k < offset + len0 ==> buf[k] == 0
      {
        length := length - 1;
      }
      ScanIsStringBytes(buf[..], offset, row.cols[c].width, len0, length);
      if length == 0 {
        return None;
      }
      r := Some(DecodeText(buf[offset..offset + length], encoding, cs));
    }

    /** `getColLong(c)`: through the coder of the column's encoder; throws for
        encoders none and bytes and for an unnamed encoder. */
    method GetColLong(c: nat, coders: Coders) returns (r: Result<int, RowError>)
      requires Valid() && c < |row.cols|
      ensures row.colstart[c] + row.cols[c].width <= buf.Length
      ensures r == LoadLong(row.cols[c], buf[row.colstart[c]..row.colstart[c] + row.cols[c].width], coders)
    {
      CellWithin(row.cols, row.colstart, row.objectsize, c);
      match row.cols[c].encoder
      case EncNone =>
        r := Failure(GetLongNoEncoder);
      case EncB64e =>
        var v := GetColLongB64E(c, coders.enhanced);
        r := Success(v);
      case EncB256 =>
        var v := GetColLongB256(c, coders.natural);
        r := Success(v);
      case EncBytes =>
        r := Failure(GetLongBytes);
      case EncOther(_) =>
        r := Failure(GetLongUnknownEncoder);
    }

    /** `getColLongB256(c)`: the base-256 coder's value for the cell. */
    method GetColLongB256(c: nat, coder: IntCoder) returns (v: int)
      requires Valid() && c < |row.cols|
      ensures row.colstart[c] + row.cols[c].width <= buf.Length
      ensures v == coder.decodeLong(buf[row.colstart[c]..row.colstart[c] + row.cols[c].width])
    {
      CellWithin(row.cols, row.colstart, row.objectsize, c);
      v := coder.decodeLong(buf[row.colstart[c]..row.colstart[c] + row.cols[c].width]);
    }

    /** `getColLongB64E(c)`: the base-64 coder's value for the cell. */
    method GetColLongB64E(c: nat, coder: IntCoder) returns (v: int)
      requires Valid() && c < |row.cols|
      ensures row.colstart[c] + row.cols[c].width <= buf.Length
      ensures v == coder.decodeLong(buf[row.colstart[c]..row.colstart[c] + row.cols[c].width])
    {
      CellWithin(row.cols, row.colstart, row.objectsize, c);
      v := coder.decodeLong(buf[row.colstart[c]..row.colstart[c] + row.cols[c].width]);
    }

    /** `getColByte(c)`: the cell's first byte; zero exactly for an empty cell. */
    method GetColByte(c: nat) returns (b: int8)
      requires Valid() && c < |row.cols| && row.colstart[c] < buf.Length
      ensures b == buf[row.colstart[c]]
      ensures b == 0 ==> StringBytes(buf[..], row.colstart[c], row.cols[c].width).None?
    {
      b := buf[row.colstart[c]];
    }

    /** `getColBytes(c)`: a new array holding a copy of the cell. */
    method GetColBytes(c: nat) returns (a: array<int8>)
      requires Valid() && c < |row.cols|
      ensures fresh(a)
      ensures row.colstart[c] + row.cols[c].width <= buf.Length
      ensures a[..] == buf[row.colstart[c]..row.colstart[c] + row.cols[c].width]
    {
      CellWithin(row.cols, row.colstart, row.objectsize, c);
      var w := row.cols[c].width;
      a := new int8[w](_ => 0);
      ArrayCopy(buf[row.colstart[c]..row.colstart[c] + w], a, 0);
    }

    /** `toPropertyForm(includeBraces)`: `nick=value` for each string, binary
        and b64e cardinal column, comma-separated, in braces if asked for.
        `arrayText(i)` is what `StringBuffer.append` gives the byte array the
        base-64 coder returns for cardinal column `i`. */
    method ToPropertyForm(includeBraces: bool, arrayText: nat -> string) returns (r: Result<string, RowError>)
      requires Valid()
      ensures r == Render(row.cols, row.colstart, buf[..], includeBraces, arrayText)
    {
      var fields := FieldLoop(row.cols, row.colstart, buf, includeBraces, arrayText);
      if fields.Failure? {
        return Failure(fields.error);
      }
      var sb := fields.value;
      if sb == [] {
        return Failure(FormEmpty);
      }
      if sb[|sb| - 1] == ',' {
        sb := sb[..|sb| - 1];
      }
      if includeBraces {
        sb := sb + "}";
      }
      r := Success(sb);
    }
  }

  /** The loop of `toPropertyForm` over the record `a`: the opening brace if
      asked for and each field followed by a comma, or the exception of the
      first column that throws. */
  method FieldLoop(cols: seq<Column>, colstart: seq<nat>, a: array<int8>,
                   includeBraces: bool, arrayText: nat -> string) returns (r: Result<string, RowError>)
    requires Laid(cols, colstart, a.Length)
    ensures r.Failure? ==> Render(cols, colstart, a[..], includeBraces, arrayText) == Failure(r.error)
    ensures r.Success? ==> Render(cols, colstart, a[..], includeBraces, arrayText) == Closed(r.value, includeBraces)
  {
    ghost var b := a[..];
    var sb: string := if includeBraces then "{" else "";
    ghost var prefix := sb;
    ghost var fs: seq<string> := [];
    var i := 0;
    while i < |cols|
      invariant 0 <= i <= |cols|
      invariant Fields(cols, colstart, b, arrayText, i) == Success(fs)
      invariant sb == prefix + Terminated(fs)
    {
      var t := Field(cols, colstart, a, i, arrayText);
      if t.Failure? {
        assert Render(cols, colstart, b, includeBraces, arrayText) == Failure(t.error) by {
          FieldsStep(cols, colstart, b, includeBraces, arrayText, i, fs, t);
        }
        return Failure(t.error);
      }
      assert Fields(cols, colstart, b, arrayText, i + 1) == Success(Extended(fs, t.value)) by {
        FieldsStep(cols, colstart, b, includeBraces, arrayText, i, fs, t);
      }
      ghost var next := Extended(fs, t.value);
      if t.value.Some? {
        sb := sb + t.value.value + ",";
        assert sb == prefix + Terminated(next) by {
          AppendField(prefix, fs, t.value.value);
        }
      } else {
        assert next == fs;
      }
      fs := next;
      i := i + 1;
    }
    RenderDone(cols, colstart, b, includeBraces, arrayText, fs);
    r := Success(sb);
  }

  /** One turn of the `toPropertyForm` loop: the field of column `i`, nothing
      for a cell type the switch does not name, or the exception. */
  method Field(cols: seq<Column>, colstart: seq<nat>, a: array<int8>, i: nat, arrayText: nat -> string)
    returns (t: Result<Option<string>, RowError>)
    requires Laid(cols, colstart, a.Length) && i < |cols|
    ensures colstart[i] + cols[i].width <= a.Length
    ensures t == FieldText(cols[i], a[..][colstart[i]..colstart[i] + cols[i].width], arrayText(i))
  {
    CellWithin(cols, colstart, a.Length, i);
    var col := cols[i];
    var start := colstart[i];
    match col.celltype {
    case TypeUndefined =>
      t := Failure(FormUndefinedCell);
    case TypeBoolean =>
      t := Failure(FormBooleanCell);
    case TypeBinary =>
      var f := AppendCell(col.nickname + "=", a, start, col.width);
      t := Success(Some(f));
    case TypeString =>
      var f := AppendCell(col.nickname + "=", a, start, col.width);
      t := Success(Some(f));
    case TypeCardinal =>
      if col.encoder == EncB64e {
        t := Success(Some(col.nickname + "=" + arrayText(i)));
      } else {
        t := Failure(FormCardinalEncoder(col.encoder));
      }
    case TypeOther(_) =>
      t := Success(None);
    }
  }

  /** Appends the bytes of `a` at `start`, each cast to a `char`. */
  method AppendCell(sb: string, a: array<int8>, start: nat, cellwidth: nat) returns (r: string)
    requires start + cellwidth <= a.Length
    ensures r == sb + Chars(a[start..start + cellwidth])
  {
    r := sb;
    var j := start;
    while j < start + cellwidth
      invariant start <= j <= start + cellwidth
      invariant r == sb + Chars(a[start..j])
    {
      assert Chars(a[start..j + 1]) == Chars(a[start..j]) + [ByteToChar(a[j])];
      r := r + [ByteToChar(a[j])];
      j := j + 1;
    }
  }

  /** The element loop of `Entry(String)`: each `nick=value` element copies
      the first `width` bytes of its value into the cell `table` names. */
  method ApplyElements(cols: seq<Column>, colstart: seq<nat>, table: map<string, (Column, nat)>,
                       elts: seq<string>, encode: string -> seq<int8>, a: array<int8>)
    requires Laid(cols, colstart, a.Length) && table == NickRefOf(cols, colstart)
    requires Assignments(cols, colstart, a[..], elts, encode, |elts|).Success?
    modifies a
    ensures a[..] == old(Assignments(cols, colstart, a[..], elts, encode, |elts|).value)
  {
    ghost var start := a[..];
    AssignmentsSucceed(cols, colstart, start, elts, encode, |elts|);
    var i := 0;
    while i < |elts|
      invariant 0 <= i <= |elts| && a.Length == |start|
      invariant Assignments(cols, colstart, start, elts, encode, i) == Success(a[..])
    {
      ghost var cur := a[..];
      AssignmentsNext(cols, colstart, start, elts, encode, i, cur);
      var p := IndexOf(elts[i], "=");
      if p > 0 {
        AcceptedWrites(cols, colstart, cur, elts[i], encode);
        var nick := Trim(elts[i][..p]);
        var (col, off) := table[nick];
        var value := encode(Trim(elts[i][p + 1..]));
        ArrayCopy(value[..col.width], a, off);
      }
      i := i + 1;
    }
  }

  /** The body of `setCol` on the record's array `a`: the cell of width
      `valuewidth` at `targetoffset` receives `cell`, truncated or
      zero-padded, or zeros for `null`. */
  method StoreCell(a: array<int8>, targetoffset: nat, valuewidth: nat, cell: array?<int8>)
    requires targetoffset + valuewidth <= a.Length
    modifies a
    ensures a[..] == Write(old(a[..]), targetoffset,
                           Fit(if cell == null then None else Some(old(cell[..])), valuewidth))
  {
    ghost var before := a[..];
    if cell == null {
      ZeroDown(a, targetoffset, targetoffset + valuewidth);
      ZeroedImage(before, targetoffset, valuewidth, a[..]);
    } else {
      CopyCell(a, targetoffset, valuewidth, cell[..]);
    }
  }

  /** The non-null case of `setCol`: `System.arraycopy` of the first bytes of
      `v` (read before any byte of `a` changes, as `arraycopy` does for
      overlapping arrays), then the zero padding. */
  method CopyCell(a: array<int8>, targetoffset: nat, valuewidth: nat, v: seq<int8>)
    requires targetoffset + valuewidth <= a.Length
    modifies a
    ensures a[..] == Write(old(a[..]), targetoffset, Fit(Some(v), valuewidth))
  {
    ghost var before := a[..];
    var m := if |v| < valuewidth then |v| else valuewidth;
    ArrayCopy(v[..m], a, targetoffset);
    if |v| < valuewidth {
      ZeroDown(a, targetoffset + m, targetoffset + valuewidth);
    }
    SetColImage(before, targetoffset, valuewidth, v, a[..]);
  }

  /** What `setCol` leaves in the buffer: the copied prefix of the value, then
      the zero padding. */
  lemma SetColImage(before: seq<int8>, off: nat, w: nat, v: seq<int8>, now: seq<int8>)
    requires off + w <= |before|
    requires var m := if |v| < w then |v| else w;
      now == (if |v| < w then (var mid := Write(before, off, v[..m]);
                               mid[..off + m] + Zeros(w - m) + mid[off + w..])
              else Write(before, off, v[..m]))
    ensures now == Write(before, off, Fit(Some(v), w))
  {
    if |v| < w {
      var mid := Write(before, off, v);
      var f := Fit(Some(v), w);
      assert v[..|v|] == v;
      assert f == v + Zeros(w - |v|);
      assert mid[..off + |v|] == before[..off] + v;
      assert mid[off + w..] == before[off + w..];
    } else {
      assert Fit(Some(v), w) == v[..w];
    }
  }

  /** What `setCol(c, null)` leaves in the buffer: the cell zeroed. */
  lemma ZeroedImage(before: seq<int8>, off: nat, w: nat, now: seq<int8>)
    requires off + w <= |before|
    requires now == before[..off] + Zeros(w) + before[off + w..]
    ensures now == Write(before, off, Fit(None, w))
  {
  }

  /** `kelondroRow(String)` with its exception: the schema of a structure
      string, or `StructureTruncated` when the string ends right after its
      first pivot marker. */
  method ParseRow(structure: string, parse: string -> Column) returns (r: Result<Row, RowError>)
    ensures r.Failure? <==> SplitStructure(structure).Failure?
    ensures r.Failure? ==> r.error == StructureTruncated
    ensures r.Success? ==> fresh(r.value) && r.value.Valid() && r.value.nickref.None?
    ensures r.Success? ==> r.value.cols == StructureColumns(SplitStructure(structure).value, parse)
  {
    if SplitStructure(structure).Failure? {
      return Failure(StructureTruncated);
    }
    var row := new Row.FromParts(SplitStructure(structure).value, parse);
    r := Success(row);
  }
}
