/** The property form of a record, `{nick=value,nick=value,...}`, as
    `Entry.toPropertyForm` renders it. */
module PropertyForm {
  import opened JavaTypes
  import opened Options
  import opened JavaStrings
  import opened ColumnTypes
  import opened Layout

  /** The cell's bytes, each cast to a `char`. */
  function Chars(cell: seq<int8>): (r: string)
    ensures |r| == |cell|
    ensures forall j :: 0 <= j < |cell| ==> r[j] == ByteToChar(cell[j])
  {
    seq(|cell|, j requires 0 <= j < |cell| => ByteToChar(cell[j]))
  }

  /** Columns `toPropertyForm` throws on: undefined and boolean cells, and
      cardinal cells whose encoder is not b64e. */
  predicate Rejects(col: Column) {
    col.celltype.TypeUndefined? || col.celltype.TypeBoolean?
    || (col.celltype.TypeCardinal? && col.encoder != EncB64e)
  }

  /** Columns `toPropertyForm` renders a field for; the remaining ones (a cell
      type outside the named constants) fall through the switch unrendered. */
  predicate Renders(col: Column) {
    col.celltype.TypeBinary? || col.celltype.TypeString? || col.celltype.TypeCardinal?
  }

  /** What column `col` contributes: its `nick=value` field, nothing, or the
      exception. A binary or string cell renders its bytes as characters; a
      b64e cardinal renders `arrayText`, the text Java's `StringBuffer.append`
      gives the byte array the base-64 coder returns (its identity, not its
      contents). */
  function FieldText(col: Column, cell: seq<int8>, arrayText: string): (r: Result<Option<string>, RowError>)
    ensures r.Failure? <==> Rejects(col)
    ensures r.Success? ==> (r.value.Some? <==> Renders(col))
    ensures r.Success? && r.value.Some? ==>
      && |r.value.value| > |col.nickname|
      && r.value.value[..|col.nickname| + 1] == col.nickname + "="
  {
    match col.celltype
    case TypeUndefined => Failure(FormUndefinedCell)
    case TypeBoolean => Failure(FormBooleanCell)
    case TypeBinary => Success(Some(col.nickname + "=" + Chars(cell)))
    case TypeString => Success(Some(col.nickname + "=" + Chars(cell)))
    case TypeCardinal =>
      if col.encoder == EncB64e then Success(Some(col.nickname + "=" + arrayText))
      else Failure(FormCardinalEncoder(col.encoder))
    case TypeOther(_) => Success(None)
  }

  /** The error `toPropertyForm` throws for a rejected column. */
  function RejectError(col: Column): RowError
    requires Rejects(col)
  {
    if col.celltype.TypeUndefined? then FormUndefinedCell
    else if col.celltype.TypeBoolean? then FormBooleanCell
    else FormCardinalEncoder(col.encoder)
  }

  /** The fields of columns `0..n-1`, or the exception of the first column
      that throws. `arrayText(i)` is the text appended for cardinal column `i`. */
  function Fields(cols: seq<Column>, colstart: seq<nat>, buf: seq<int8>,
                  arrayText: nat -> string, n: nat): (r: Result<seq<string>, RowError>)
    requires Laid(cols, colstart, |buf|) && n <= |cols|
  {
    if n == 0 then Success([])
    else
      match Fields(cols, colstart, buf, arrayText, n - 1)
      case Failure(e) => Failure(e)
      case Success(fs) =>
        CellWithin(cols, colstart, |buf|, n - 1);
        var cell := buf[colstart[n - 1]..colstart[n - 1] + cols[n - 1].width];
        match FieldText(cols[n - 1], cell, arrayText(n - 1))
        case Failure(e) => Failure(e)
        case Success(None) => Success(fs)
        case Success(Some(f)) => Success(fs + [f])
  }

  /** `toPropertyForm(includeBraces)`: the fields joined by commas, in braces
      if asked for; without braces and with no field, Java's
      `sb.charAt(sb.length() - 1)` throws on the empty buffer. */
  function Render(cols: seq<Column>, colstart: seq<nat>, buf: seq<int8>,
                  includeBraces: bool, arrayText: nat -> string): Result<string, RowError>
    requires Laid(cols, colstart, |buf|)
  {
    match Fields(cols, colstart, buf, arrayText, |cols|)
    case Failure(e) => Failure(e)
    case Success(fs) =>
      if includeBraces then Success("{" + Join(fs, ',') + "}")
      else if fs == [] then Failure(FormEmpty)
      else Success(Join(fs, ','))
  }

  /** Once a column has thrown, later columns do not matter. */
  lemma {:induction false} FieldsFailureSticks(cols: seq<Column>, colstart: seq<nat>, buf: seq<int8>,
                                               arrayText: nat -> string, n: nat, m: nat)
    requires Laid(cols, colstart, |buf|) && n <= m <= |cols|
    requires Fields(cols, colstart, buf, arrayText, n).Failure?
    ensures Fields(cols, colstart, buf, arrayText, m) == Fields(cols, colstart, buf, arrayText, n)
    decreases m - n
  {
    if n < m {
      FieldsFailureSticks(cols, colstart, buf, arrayText, n, m - 1);
    }
  }

  /** The exception is the one of the FIRST rejected column. */
  lemma {:induction false} FirstRejectDecides(cols: seq<Column>, colstart: seq<nat>, buf: seq<int8>,
                                              arrayText: nat -> string, i: nat, n: nat)
    requires Laid(cols, colstart, |buf|) && i < n <= |cols|
    requires Rejects(cols[i]) && forall j :: 0 <= j < i ==> !Rejects(cols[j])
    ensures Fields(cols, colstart, buf, arrayText, n) == Failure(RejectError(cols[i]))
  {
    NoRejectRendersAll(cols, colstart, buf, arrayText, i);
    assert Fields(cols, colstart, buf, arrayText, i + 1) == Failure(RejectError(cols[i]));
    FieldsFailureSticks(cols, colstart, buf, arrayText, i + 1, n);
  }

  /** The number of columns among `cols[..n]` that render a field. */
  function RenderedCount(cols: seq<Column>, n: nat): nat
    requires n <= |cols|
  {
    if n == 0 then 0 else RenderedCount(cols, n - 1) + (if Renders(cols[n - 1]) then 1 else 0)
  }

  /** Without a rejected column, rendering succeeds with one field per
      rendered column. */
  lemma {:induction false} NoRejectRendersAll(cols: seq<Column>, colstart: seq<nat>, buf: seq<int8>,
                                              arrayText: nat -> string, n: nat)
    requires Laid(cols, colstart, |buf|) && n <= |cols|
    requires forall j :: 0 <= j < n ==> !Rejects(cols[j])
    ensures Fields(cols, colstart, buf, arrayText, n).Success?
    ensures |Fields(cols, colstart, buf, arrayText, n).value| == RenderedCount(cols, n)
  {
    if n > 0 {
      NoRejectRendersAll(cols, colstart, buf, arrayText, n - 1);
    }
  }

  /** `toPropertyForm` throws exactly when some column is rejected, or when
      braces are off and no column renders a field. */
  lemma RenderFails(cols: seq<Column>, colstart: seq<nat>, buf: seq<int8>,
                    includeBraces: bool, arrayText: nat -> string)
    requires Laid(cols, colstart, |buf|)
    ensures Render(cols, colstart, buf, includeBraces, arrayText).Failure? <==>
      (exists i :: 0 <= i < |cols| && Rejects(cols[i]))
      || (!includeBraces && RenderedCount(cols, |cols|) == 0)
  {
    if exists i :: 0 <= i < |cols| && Rejects(cols[i]) {
      var i := FirstRejected(cols);
      FirstRejectDecides(cols, colstart, buf, arrayText, i, |cols|);
    } else {
      NoRejectRendersAll(cols, colstart, buf, arrayText, |cols|);
    }
  }

  /** The index of the first rejected column. */
  function FirstRejected(cols: seq<Column>): (i: nat)
    requires exists i :: 0 <= i < |cols| && Rejects(cols[i])
    ensures i < |cols| && Rejects(cols[i]) && forall j :: 0 <= j < i ==> !Rejects(cols[j])
  {
    if Rejects(cols[0]) then 0
    else
      var k := FirstRejected(cols[1..]);
      assert forall j :: 1 <= j <= k ==> cols[j] == cols[1..][j - 1];
      k + 1
  }

  /** One more column rendered. */
  lemma FieldsNext(cols: seq<Column>, colstart: seq<nat>, buf: seq<int8>,
                   arrayText: nat -> string, i: nat)
    requires Laid(cols, colstart, |buf|) && i < |cols|
    requires Fields(cols, colstart, buf, arrayText, i).Success?
    ensures colstart[i] + cols[i].width <= |buf|
    ensures var t := FieldText(cols[i], buf[colstart[i]..colstart[i] + cols[i].width], arrayText(i));
      && (t.Failure? ==> Fields(cols, colstart, buf, arrayText, i + 1) == Failure(t.error))
      && (t == Success(None) ==> Fields(cols, colstart, buf, arrayText, i + 1) == Fields(cols, colstart, buf, arrayText, i))
      && (t.Success? && t.value.Some? ==>
            Fields(cols, colstart, buf, arrayText, i + 1)
            == Success(Fields(cols, colstart, buf, arrayText, i).value + [t.value.value]))
  {
    CellWithin(cols, colstart, |buf|, i);
  }

  /** The fields so far with one more column's field, if it has one. */
  function Extended(fs: seq<string>, field: Option<string>): seq<string> {
    if field.Some? then fs + [field.value] else fs
  }

  /** One turn of the rendering loop: a rejected column decides the result,
      any other one adds its field, if it has one, to the terminated text. */
  lemma FieldsStep(cols: seq<Column>, colstart: seq<nat>, buf: seq<int8>, includeBraces: bool,
                   arrayText: nat -> string, i: nat, fs: seq<string>, t: Result<Option<string>, RowError>)
    requires Laid(cols, colstart, |buf|) && i < |cols|
    requires Fields(cols, colstart, buf, arrayText, i) == Success(fs)
    requires colstart[i] + cols[i].width <= |buf|
    requires t == FieldText(cols[i], buf[colstart[i]..colstart[i] + cols[i].width], arrayText(i))
    ensures t.Failure? ==> Render(cols, colstart, buf, includeBraces, arrayText) == Failure(t.error)
    ensures t.Success? ==> Fields(cols, colstart, buf, arrayText, i + 1) == Success(Extended(fs, t.value))
  {
    FieldsNext(cols, colstart, buf, arrayText, i);
    if t.Failure? {
      FieldsFailureSticks(cols, colstart, buf, arrayText, i + 1, |cols|);
    }
  }

  /** What the rendering loop's buffer `sb` becomes after the loop: the
      exception when it is empty, else the last comma dropped and, with
      braces, the closing brace added. */
  function Closed(sb: string, includeBraces: bool): Result<string, RowError> {
    if sb == [] then Failure(FormEmpty)
    else
      var s := if sb[|sb| - 1] == ',' then sb[..|sb| - 1] else sb;
      Success(if includeBraces then s + "}" else s)
  }

  /** After the loop: the terminated fields with the final comma dropped, in
      braces if asked for, are the rendered record; an empty buffer throws. */
  lemma RenderDone(cols: seq<Column>, colstart: seq<nat>, buf: seq<int8>, includeBraces: bool,
                   arrayText: nat -> string, fs: seq<string>)
    requires Laid(cols, colstart, |buf|)
    requires Fields(cols, colstart, buf, arrayText, |cols|) == Success(fs)
    ensures Render(cols, colstart, buf, includeBraces, arrayText)
            == Closed((if includeBraces then "{" else "") + Terminated(fs), includeBraces)
  {
    var p := if includeBraces then "{" else "";
    if fs != [] {
      TerminatedIsJoin(fs);
      var sb := p + Terminated(fs);
      assert sb == (p + Join(fs, ',')) + ",";
      assert sb[..|sb| - 1] == p + Join(fs, ',');
      assert sb != [] && sb[|sb| - 1] == ',';
      if includeBraces {
        assert Render(cols, colstart, buf, includeBraces, arrayText) == Success("{" + Join(fs, ',') + "}");
      } else {
        assert Render(cols, colstart, buf, includeBraces, arrayText) == Success(Join(fs, ','));
        assert p + Join(fs, ',') == Join(fs, ',');
      }
    }
  }

  /** Each field followed by a comma, as the rendering loop appends them. */
  function Terminated(fs: seq<string>): string {
    if fs == [] then "" else Terminated(fs[..|fs| - 1]) + fs[|fs| - 1] + ","
  }

  lemma TerminatedSnoc(fs: seq<string>, f: string)
    ensures Terminated(fs + [f]) == Terminated(fs) + f + ","
  {
    assert (fs + [f])[..|fs|] == fs;
  }

  /** The rendering buffer after one more field: its prefix, then the
      terminated fields, then the new field and its comma. */
  lemma AppendField(prefix: string, fs: seq<string>, f: string)
    ensures prefix + Terminated(fs + [f]) == prefix + Terminated(fs) + f + ","
  {
    TerminatedSnoc(fs, f);
  }

  /** Dropping the final comma of the terminated fields joins them. */
  lemma {:induction false} TerminatedIsJoin(fs: seq<string>)
    requires fs != []
    ensures Terminated(fs) == Join(fs, ',') + ","
  {
    if |fs| > 1 {
      var init := fs[..|fs| - 1];
      TerminatedIsJoin(init);
      JoinSnoc(init, fs[|fs| - 1], ',');
      assert init + [fs[|fs| - 1]] == fs;
    }
  }

  lemma {:induction false} JoinSnoc(fs: seq<string>, f: string, d: char)
    requires fs != []
    ensures Join(fs + [f], d) == Join(fs, d) + [d] + f
  {
    if |fs| > 1 {
      JoinSnoc(fs[1..], f, d);
      assert (fs + [f])[1..] == fs[1..] + [f];
    }
  }
}
