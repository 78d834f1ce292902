/** The byte layout of a record: where each column's cell lies, and what the
    cell-level writes and reads of an entry do to a buffer, as values. */
module Layout {
  import opened JavaTypes
  import opened Options
  import opened ColumnTypes

  /** The total width of `cols`. */
  function SumWidths(cols: seq<Column>): nat {
    if cols == [] then 0 else SumWidths(cols[..|cols| - 1]) + cols[|cols| - 1].width
  }

  /** `colstart` and `objectsize` are what every schema constructor computes:
      column `i` starts after the cells of columns `0..i-1`, and the record is
      as wide as all cells together. */
  ghost predicate Laid(cols: seq<Column>, colstart: seq<nat>, objectsize: int) {
    && |colstart| == |cols|
    && objectsize == SumWidths(cols)
    && forall i {:trigger colstart[i]} :: 0 <= i < |cols| ==> colstart[i] == SumWidths(cols[..i])
  }

  lemma {:induction false} SumMonotone(cols: seq<Column>, i: nat, j: nat)
    requires i <= j <= |cols|
    ensures SumWidths(cols[..i]) <= SumWidths(cols[..j])
    decreases j - i
  {
    if i < j {
      SumMonotone(cols, i, j - 1);
      assert cols[..j][..j - 1] == cols[..j - 1];
    }
  }

  /** Every cell lies inside the record. */
  lemma CellWithin(cols: seq<Column>, colstart: seq<nat>, objectsize: int, i: nat)
    requires Laid(cols, colstart, objectsize)
    requires i < |cols|
    ensures 0 <= colstart[i] && colstart[i] + cols[i].width <= objectsize
  {
    SumMonotone(cols, i + 1, |cols|);
    assert cols[..i + 1][..i] == cols[..i];
    assert cols[..|cols|] == cols;
  }

  /** The cells of two different columns do not overlap: an earlier column's
      cell ends at or before a later column's cell begins. */
  lemma CellsDisjoint(cols: seq<Column>, colstart: seq<nat>, objectsize: int, i: nat, j: nat)
    requires Laid(cols, colstart, objectsize)
    requires i < j < |cols|
    ensures colstart[i] + cols[i].width <= colstart[j]
  {
    SumMonotone(cols, i + 1, j);
    assert cols[..i + 1][..i] == cols[..i];
  }

  /** Laying out one more column: it starts where the record ended, and the
      record grows by its width. */
  lemma LaidAppend(cols: seq<Column>, colstart: seq<nat>, objectsize: int, c: Column)
    requires Laid(cols, colstart, objectsize) && objectsize >= 0
    ensures Laid(cols + [c], colstart + [objectsize as nat], objectsize + c.width)
  {
    var cs := cols + [c];
    assert cs[..|cols|] == cols;
    forall i | 0 <= i < |cols| ensures cs[..i] == cols[..i] {
    }
  }

  /** `n` zero bytes: a freshly allocated Java `byte[n]`. */
  function Zeros(n: nat): (r: seq<int8>)
    ensures |r| == n
    ensures forall k :: 0 <= k < n ==> r[k] == 0
  {
    seq(n, _ => 0)
  }

  /** The `w` bytes a cell of width `w` holds after `setCol` with value `v`
      (`None` for `null`): `v` truncated or zero-padded to `w` bytes. */
  function Fit(v: Option<seq<int8>>, w: nat): (r: seq<int8>)
    ensures |r| == w
    ensures forall k :: 0 <= k < w ==> r[k] == (if v.Some? && k < |v.value| then v.value[k] else 0)
  {
    match v
    case None => Zeros(w)
    case Some(b) => if |b| >= w then b[..w] else b + Zeros(w - |b|)
  }

  /** `buf` with the bytes of `cell` placed at `off`. */
  function Write(buf: seq<int8>, off: nat, cell: seq<int8>): (r: seq<int8>)
    requires off + |cell| <= |buf|
    ensures |r| == |buf|
    ensures r[off..off + |cell|] == cell
    ensures forall k :: 0 <= k < |buf| && !(off <= k < off + |cell|) ==> r[k] == buf[k]
  {
    buf[..off] + cell + buf[off + |cell|..]
  }

  /** Writing one column's cell leaves every other column's cell as it was. */
  lemma WriteFrame(cols: seq<Column>, colstart: seq<nat>, objectsize: int,
                   buf: seq<int8>, c: nat, d: nat, cell: seq<int8>)
    requires Laid(cols, colstart, objectsize) && |buf| == objectsize
    requires c < |cols| && d < |cols| && c != d
    requires |cell| == cols[c].width
    ensures && colstart[c] + |cell| <= |buf| && colstart[d] + cols[d].width <= |buf|
            && Write(buf, colstart[c], cell)[colstart[d]..colstart[d] + cols[d].width]
               == buf[colstart[d]..colstart[d] + cols[d].width]
  {
    CellWithin(cols, colstart, objectsize, c);
    CellWithin(cols, colstart, objectsize, d);
    if c < d {
      CellsDisjoint(cols, colstart, objectsize, c, d);
    } else {
      CellsDisjoint(cols, colstart, objectsize, d, c);
    }
    WriteOutside(buf, colstart[c], cell, colstart[d], colstart[d] + cols[d].width);
  }

  /** A write leaves every range it does not overlap as it was. */
  lemma WriteOutside(buf: seq<int8>, off: nat, cell: seq<int8>, lo: nat, hi: nat)
    requires off + |cell| <= |buf| && lo <= hi <= |buf|
    requires off + |cell| <= lo || hi <= off
    ensures Write(buf, off, cell)[lo..hi] == buf[lo..hi]
  {
    var r := Write(buf, off, cell);
    forall k | 0 <= k < hi - lo ensures r[lo..hi][k] == buf[lo..hi][k] {
      assert r[lo..hi][k] == r[lo + k];
    }
  }

  /** A write at the start of a range replaces the range's first bytes. */
  lemma WriteInside(buf: seq<int8>, lo: nat, hi: nat, v: seq<int8>)
    requires lo + |v| <= hi <= |buf|
    ensures Write(buf, lo, v)[lo..hi] == v + buf[lo + |v|..hi]
  {
    var r := Write(buf, lo, v);
    forall k | 0 <= k < hi - lo ensures r[lo..hi][k] == (v + buf[lo + |v|..hi])[k] {
      assert r[lo..hi][k] == r[lo + k];
    }
  }

  /** Writing back the bytes just read from a cell leaves the buffer unchanged. */
  lemma WriteBackUnchanged(buf: seq<int8>, off: nat, w: nat)
    requires off + w <= |buf|
    ensures Write(buf, off, Fit(Some(buf[off..off + w]), w)) == buf
  {
    var r := Write(buf, off, Fit(Some(buf[off..off + w]), w));
    forall k | 0 <= k < |buf| ensures r[k] == buf[k] {
      if off <= k < off + w {
        assert r[k] == r[off..off + w][k - off];
      }
    }
  }

  /** Fitting a value that already has the cell's width changes nothing, so
      reading a cell and writing it again is idempotent. */
  lemma FitIdempotent(v: Option<seq<int8>>, w: nat)
    ensures Fit(Some(Fit(v, w)), w) == Fit(v, w)
  {
    assert Fit(v, w)[..w] == Fit(v, w);
  }

  /** The length of `s` without its trailing zero bytes. */
  function TrimmedLength(s: seq<int8>): (n: nat)
    ensures n <= |s|
    ensures n == 0 || s[n - 1] != 0
    ensures forall k :: n <= k < |s| ==> s[k] == 0
  {
    if s == [] then 0
    else if s[|s| - 1] != 0 then |s|
    else TrimmedLength(s[..|s| - 1])
  }

  /** The trimmed length is the only length with no zero byte right before it
      and only zero bytes after it. */
  lemma TrimmedLengthUnique(s: seq<int8>, n: nat)
    requires n <= |s|
    requires n == 0 || s[n - 1] != 0
    requires forall k :: n <= k < |s| ==> s[k] == 0
    ensures n == TrimmedLength(s)
  {
    var t := TrimmedLength(s);
    if n < t {
      assert false;
    } else if t < n {
      assert false;
    }
  }

  /** The bytes `getColString` decodes from the cell of width `w` at `off`, or
      `None` where it returns `null`: the first byte is zero, or nothing is left
      once trailing zero bytes are dropped. The cell is cut at the buffer's end. */
  function StringBytes(buf: seq<int8>, off: nat, w: nat): (r: Option<seq<int8>>)
    requires off < |buf|
    ensures r.None? <==> (buf[off] == 0 || w == 0)
    ensures r.Some? ==> var n := |r.value|;
      && 0 < n <= w && off + n <= |buf|
      && r.value == buf[off..off + n]
      && r.value[n - 1] != 0
      && forall k :: off + n <= k < off + w && k < |buf| ==> buf[k] == 0
  {
    if buf[off] == 0 then None
    else
      var len := if w > |buf| - off then |buf| - off else w;
      var n := TrimmedLength(buf[off..off + len]);
      if n == 0 then None else Some(buf[off..off + n])
  }

  /** The scan `getColString` performs: clamp the width to the buffer, then
      drop trailing zero bytes; what remains is the cell's string bytes. */
  lemma ScanIsStringBytes(buf: seq<int8>, off: nat, w: nat, len0: nat, n: nat)
    requires off < |buf| && buf[off] != 0
    requires len0 == (if w > |buf| - off then |buf| - off else w)
    requires n <= len0
    requires n == 0 || buf[off + n - 1] != 0
    requires forall k :: off + n <= k < off + len0 ==> buf[k] == 0
    ensures StringBytes(buf, off, w) == if n == 0 then None else Some(buf[off..off + n])
  {
    var cell := buf[off..off + len0];
    assert forall k :: n <= k < len0 ==> cell[k] == buf[off + k];
    TrimmedLengthUnique(cell, n);
    assert cell[..n] == buf[off..off + n];
  }

  /** After `setCol` with bytes that begin and end with a non-zero byte and fit
      the cell, `getColString` decodes exactly those bytes; after `setCol` with
      `null` it returns `null`. */
  lemma StringBytesAfterWrite(buf: seq<int8>, off: nat, w: nat, v: Option<seq<int8>>)
    requires off + w <= |buf| && 0 < w
    requires v.Some? ==> 0 < |v.value| <= w && v.value[0] != 0 && v.value[|v.value| - 1] != 0
    ensures StringBytes(Write(buf, off, Fit(v, w)), off, w) == v
  {
    var r := Write(buf, off, Fit(v, w));
    assert r[off] == r[off..off + w][0] == Fit(v, w)[0];
    if v.Some? {
      var cell := r[off..off + w];
      assert cell == Fit(v, w);
      TrimmedLengthUnique(cell, |v.value|);
      assert cell[..|v.value|] == v.value;
      assert r[off..off + |v.value|] == cell[..|v.value|];
    }
  }

  /** The nickname table `genNickRef` builds: each nickname maps to its column
      and offset; `HashMap.put` lets a later column replace an earlier one with
      the same nickname. */
  function NickRefOf(cols: seq<Column>, colstart: seq<nat>): map<string, (Column, nat)>
    requires |colstart| == |cols|
  {
    if cols == [] then map[]
    else
      var n := |cols| - 1;
      NickRefOf(cols[..n], colstart[..n])[cols[n].nickname := (cols[n], colstart[n])]
  }

  /** A nickname is in the table exactly when some column carries it. */
  lemma {:induction false} NickRefKeys(cols: seq<Column>, colstart: seq<nat>, nick: string)
    requires |colstart| == |cols|
    ensures nick in NickRefOf(cols, colstart) <==>
            exists i :: 0 <= i < |cols| && cols[i].nickname == nick
  {
    if cols != [] {
      var n := |cols| - 1;
      NickRefKeys(cols[..n], colstart[..n], nick);
      if exists i :: 0 <= i < n && cols[..n][i].nickname == nick {
        var i :| 0 <= i < n && cols[..n][i].nickname == nick;
        assert cols[i].nickname == nick;
      }
      if exists i :: 0 <= i < |cols| && cols[i].nickname == nick {
        var i :| 0 <= i < |cols| && cols[i].nickname == nick;
        if i < n {
          assert cols[..n][i].nickname == nick;
        }
      }
    }
  }

  /** The table maps a nickname to the LAST column that carries it. */
  lemma {:induction false} NickRefLast(cols: seq<Column>, colstart: seq<nat>, j: nat)
    requires |colstart| == |cols| && j < |cols|
    requires forall i :: j < i < |cols| ==> cols[i].nickname != cols[j].nickname
    ensures cols[j].nickname in NickRefOf(cols, colstart)
    ensures NickRefOf(cols, colstart)[cols[j].nickname] == (cols[j], colstart[j])
  {
    var n := |cols| - 1;
    if j < n {
      NickRefLast(cols[..n], colstart[..n], j);
    }
  }

  /** Every entry of the table is the last column carrying its nickname. */
  lemma {:induction false} NickRefSource(cols: seq<Column>, colstart: seq<nat>, nick: string) returns (i: nat)
    requires |colstart| == |cols| && nick in NickRefOf(cols, colstart)
    ensures i < |cols| && cols[i].nickname == nick
    ensures NickRefOf(cols, colstart)[nick] == (cols[i], colstart[i])
    ensures forall j :: i < j < |cols| ==> cols[j].nickname != nick
  {
    var n := |cols| - 1;
    if cols[n].nickname == nick {
      i := n;
    } else {
      i := NickRefSource(cols[..n], colstart[..n], nick);
    }
  }

  /** The cell a table entry points to lies within the record. */
  lemma NickRefWithin(cols: seq<Column>, colstart: seq<nat>, objectsize: int, nick: string)
    requires Laid(cols, colstart, objectsize) && nick in NickRefOf(cols, colstart)
    ensures NickRefOf(cols, colstart)[nick].1 + NickRefOf(cols, colstart)[nick].0.width <= objectsize
  {
    var i := NickRefSource(cols, colstart, nick);
    CellWithin(cols, colstart, objectsize, i);
  }

  /** The buffer `new Entry(byte[][] cells)` builds: zero bytes, then for each
      non-null `cells[i]` its first `min(|cells[i]|, width(i))` bytes at the
      start of column `i`'s cell. */
  function CellsImage(cols: seq<Column>, colstart: seq<nat>, objectsize: int,
                      cells: seq<Option<seq<int8>>>): (r: seq<int8>)
    requires Laid(cols, colstart, objectsize)
    requires forall i :: |cols| <= i < |cells| ==> cells[i].None?
    ensures |r| == objectsize
  {
    if cells == [] then Zeros(objectsize)
    else
      var n := |cells| - 1;
      var prev := CellsImage(cols, colstart, objectsize, cells[..n]);
      match cells[n]
      case None => prev
      case Some(v) =>
        CellWithin(cols, colstart, objectsize, n);
        var m := if |v| < cols[n].width then |v| else cols[n].width;
        Write(prev, colstart[n], v[..m])
  }

  /** Each column's cell in a record built from per-column byte arrays is that
      column's array truncated or zero-padded to the cell's width; a column
      without an array (null, or beyond the array list) is all zero. */
  lemma {:induction false} CellsImageCell(cols: seq<Column>, colstart: seq<nat>, objectsize: int,
                                          cells: seq<Option<seq<int8>>>, c: nat)
    requires Laid(cols, colstart, objectsize)
    requires forall i :: |cols| <= i < |cells| ==> cells[i].None?
    requires c < |cols|
    ensures && colstart[c] + cols[c].width <= objectsize
            && CellsImage(cols, colstart, objectsize, cells)[colstart[c]..colstart[c] + cols[c].width]
               == Fit(if c < |cells| then cells[c] else None, cols[c].width)
  {
    CellWithin(cols, colstart, objectsize, c);
    var lo, hi := colstart[c], colstart[c] + cols[c].width;
    if cells != [] {
      var n := |cells| - 1;
      CellsImageCell(cols, colstart, objectsize, cells[..n], c);
      if cells[n].Some? {
        CellWithinOrDisjoint(cols, colstart, objectsize, cells, c);
      }
    }
  }

  /** The image with one more array: that array, cut to its column's width,
      written over the image of the arrays before it. */
  lemma CellsImageLast(cols: seq<Column>, colstart: seq<nat>, objectsize: int,
                       cells: seq<Option<seq<int8>>>)
    requires Laid(cols, colstart, objectsize)
    requires forall i :: |cols| <= i < |cells| ==> cells[i].None?
    requires cells != [] && cells[|cells| - 1].Some?
    ensures var n := |cells| - 1;
      var v := cells[n].value;
      var m := if |v| < cols[n].width then |v| else cols[n].width;
      && n < |cols| && colstart[n] + m <= objectsize
      && CellsImage(cols, colstart, objectsize, cells)
         == Write(CellsImage(cols, colstart, objectsize, cells[..n]), colstart[n], v[..m])
  {
    CellWithin(cols, colstart, objectsize, |cells| - 1);
  }

  /** Writing the first bytes of `v` over a zeroed cell fits `v` to the cell. */
  lemma FitOverZeros(buf: seq<int8>, lo: nat, w: nat, v: seq<int8>)
    requires lo + w <= |buf| && buf[lo..lo + w] == Fit(None, w)
    ensures var m := if |v| < w then |v| else w;
      Write(buf, lo, v[..m])[lo..lo + w] == Fit(Some(v), w)
  {
    var m := if |v| < w then |v| else w;
    WriteInside(buf, lo, lo + w, v[..m]);
    assert buf[lo + m..lo + w] == buf[lo..lo + w][m..];
  }

  /** The step of `CellsImageCell` that adds the last array of `cells`. */
  lemma CellWithinOrDisjoint(cols: seq<Column>, colstart: seq<nat>, objectsize: int,
                             cells: seq<Option<seq<int8>>>, c: nat)
    requires Laid(cols, colstart, objectsize)
    requires forall i :: |cols| <= i < |cells| ==> cells[i].None?
    requires c < |cols| && cells != [] && cells[|cells| - 1].Some?
    requires && colstart[c] + cols[c].width <= objectsize
             && CellsImage(cols, colstart, objectsize, cells[..|cells| - 1])[colstart[c]..colstart[c] + cols[c].width]
                == Fit(if c < |cells| - 1 then cells[c] else None, cols[c].width)
    ensures && colstart[c] + cols[c].width <= objectsize
            && CellsImage(cols, colstart, objectsize, cells)[colstart[c]..colstart[c] + cols[c].width]
               == Fit(if c < |cells| then cells[c] else None, cols[c].width)
  {
    var n := |cells| - 1;
    CellWithin(cols, colstart, objectsize, c);
    CellsImageLast(cols, colstart, objectsize, cells);
    if n < c {
      CellsDisjoint(cols, colstart, objectsize, n, c);
    } else if c < n {
      CellsDisjoint(cols, colstart, objectsize, c, n);
    }
    CellAfterWrite(CellsImage(cols, colstart, objectsize, cells[..n]), colstart[n], cells[n].value,
                   cols[n].width, colstart[c], cols[c].width, n == c);
  }

  /** A cell after one column's array is written: the array fitted to the
      cell when it is that column's own (zeroed) cell, unchanged otherwise. */
  lemma CellAfterWrite(prev: seq<int8>, off: nat, v: seq<int8>, wn: nat, lo: nat, w: nat, same: bool)
    requires off + (if |v| < wn then |v| else wn) <= |prev| && lo + w <= |prev|
    requires same ==> off == lo && wn == w && prev[lo..lo + w] == Fit(None, w)
    requires !same ==> off + wn <= lo || lo + w <= off
    ensures Write(prev, off, v[..if |v| < wn then |v| else wn])[lo..lo + w]
            == if same then Fit(Some(v), w) else prev[lo..lo + w]
  {
    var m := if |v| < wn then |v| else wn;
    if same {
      FitOverZeros(prev, lo, w, v);
    } else {
      WriteOutside(prev, off, v[..m], lo, lo + w);
    }
  }
}
