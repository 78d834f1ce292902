/** The external form a record can be parsed from, `{nick=value,...}` or the
    same without braces, as the `Entry(String)` constructor reads it, and its
    round trip with the property form. */
module ExternalForm {
  import opened JavaTypes
  import opened Options
  import opened JavaStrings
  import opened ColumnTypes
  import opened Layout
  import opened PropertyForm

  /** The elements of an external form: a leading `{` drops the first and the
      last character, the rest is split on commas. `charAt(0)` throws on the
      empty string and `substring(1, 0)` on a lone `{`. Java's `split` also
      drops trailing empty elements; an empty element has no `=` and is
      skipped anyway, so keeping them changes nothing. */
  function Elements(external: string): (r: Result<seq<string>, RowError>)
    ensures r.Failure? <==> external == [] || external == "{"
    ensures r.Failure? ==> r.error == (if external == [] then ExternalEmpty else ExternalLoneBrace)
    ensures r.Success? ==> |r.value| >= 1 && forall j :: 0 <= j < |r.value| ==> ',' !in r.value[j]
  {
    if external == [] then Failure(ExternalEmpty)
    else if external[0] == '{' then
      if |external| < 2 then Failure(ExternalLoneBrace)
      else Success(Split(external[1..|external| - 1], ','))
    else Success(Split(external, ','))
  }

  /** What one element assigns: nothing unless it has an `=` after its first
      character; otherwise the trimmed text before the first `=` names the
      column and the trimmed text after it, turned into bytes by `encode`
      (`String.getBytes()`), is the value. */
  function Assignment(elt: string, encode: string -> seq<int8>): (r: Option<(string, seq<int8>)>)
    ensures r.None? <==> IndexOf(elt, "=") <= 0
  {
    var p := IndexOf(elt, "=");
    if p <= 0 then None
    else Some((Trim(elt[..p]), encode(Trim(elt[p + 1..]))))
  }

  /** One element applied to the buffer: the first `width` bytes of the value
      are copied to the cell of the column the nickname table names. An
      unknown nickname leaves `nickref.get` null and throws; a value shorter
      than the cell makes `System.arraycopy` throw. */
  function Assign(cols: seq<Column>, colstart: seq<nat>, buf: seq<int8>,
                  elt: string, encode: string -> seq<int8>): (r: Result<seq<int8>, RowError>)
    requires Laid(cols, colstart, |buf|)
    ensures r.Success? ==> |r.value| == |buf|
    ensures r.Failure? <==> Assignment(elt, encode).Some? && !Accepted(cols, colstart, Assignment(elt, encode).value)
  {
    match Assignment(elt, encode)
    case None => Success(buf)
    case Some((nick, value)) =>
      var table := NickRefOf(cols, colstart);
      if nick !in table then Failure(ExternalUnknownNick(nick))
      else
        var (col, off) := table[nick];
        if |value| < col.width then Failure(ExternalValueShort(nick))
        else
          NickRefWithin(cols, colstart, |buf|, nick);
          Success(Write(buf, off, value[..col.width]))
  }

  /** An assignment the constructor carries out without throwing. */
  predicate Accepted(cols: seq<Column>, colstart: seq<nat>, a: (string, seq<int8>))
    requires |colstart| == |cols|
  {
    var table := NickRefOf(cols, colstart);
    a.0 in table && |a.1| >= table[a.0].0.width
  }

  /** The elements `elts[..n]` applied in order to `buf`. */
  function Assignments(cols: seq<Column>, colstart: seq<nat>, buf: seq<int8>,
                       elts: seq<string>, encode: string -> seq<int8>, n: nat): (r: Result<seq<int8>, RowError>)
    requires Laid(cols, colstart, |buf|) && n <= |elts|
    ensures r.Success? ==> |r.value| == |buf|
  {
    if n == 0 then Success(buf)
    else
      match Assignments(cols, colstart, buf, elts, encode, n - 1)
      case Failure(e) => Failure(e)
      case Success(b) => Assign(cols, colstart, b, elts[n - 1], encode)
  }

  /** The record `new Entry(external)` builds: the elements applied to a
      zeroed buffer, or the exception the constructor throws. */
  function Parse(cols: seq<Column>, colstart: seq<nat>, objectsize: nat,
                 external: string, encode: string -> seq<int8>): Result<seq<int8>, RowError>
    requires Laid(cols, colstart, objectsize)
  {
    match Elements(external)
    case Failure(e) => Failure(e)
    case Success(elts) => Assignments(cols, colstart, Zeros(objectsize), elts, encode, |elts|)
  }

  /** An element whose assignment throws. */
  predicate Rejected(cols: seq<Column>, colstart: seq<nat>, elt: string, encode: string -> seq<int8>)
    requires |colstart| == |cols|
  {
    Assignment(elt, encode).Some? && !Accepted(cols, colstart, Assignment(elt, encode).value)
  }

  /** Applying elements succeeds exactly when none of them is rejected. */
  lemma {:induction false} AssignmentsSucceed(cols: seq<Column>, colstart: seq<nat>, buf: seq<int8>,
                                              elts: seq<string>, encode: string -> seq<int8>, n: nat)
    requires Laid(cols, colstart, |buf|) && n <= |elts|
    ensures Assignments(cols, colstart, buf, elts, encode, n).Success? <==>
            forall j :: 0 <= j < n ==> !Rejected(cols, colstart, elts[j], encode)
  {
    if n > 0 {
      AssignmentsSucceed(cols, colstart, buf, elts, encode, n - 1);
      var prev := Assignments(cols, colstart, buf, elts, encode, n - 1);
      if prev.Failure? {
        var j :| 0 <= j < n - 1 && Rejected(cols, colstart, elts[j], encode);
        assert Assignments(cols, colstart, buf, elts, encode, n).Failure?;
      } else {
        var r := Assign(cols, colstart, prev.value, elts[n - 1], encode);
        assert Assignments(cols, colstart, buf, elts, encode, n) == r;
        if !Rejected(cols, colstart, elts[n - 1], encode) {
          assert forall j :: 0 <= j < n - 1 ==> !Rejected(cols, colstart, elts[j], encode);
          forall j | 0 <= j < n ensures !Rejected(cols, colstart, elts[j], encode) {
            if j == n - 1 {
            } else {
              assert 0 <= j < n - 1;
            }
          }
        }
      }
    }
  }

  /** One more element applied. */
  lemma AssignmentsNext(cols: seq<Column>, colstart: seq<nat>, buf: seq<int8>,
                        elts: seq<string>, encode: string -> seq<int8>, i: nat, cur: seq<int8>)
    requires Laid(cols, colstart, |buf|) && i < |elts| && |cur| == |buf|
    requires Assignments(cols, colstart, buf, elts, encode, i) == Success(cur)
    ensures Assignments(cols, colstart, buf, elts, encode, i + 1) == Assign(cols, colstart, cur, elts[i], encode)
  {
  }

  /** An accepted element with an `=` writes the first `width` bytes of its
      value into the cell the table names for its nickname. */
  lemma AcceptedWrites(cols: seq<Column>, colstart: seq<nat>, buf: seq<int8>,
                       elt: string, encode: string -> seq<int8>)
    requires Laid(cols, colstart, |buf|)
    requires !Rejected(cols, colstart, elt, encode) && IndexOf(elt, "=") > 0
    ensures var p := IndexOf(elt, "=");
      var nick := Trim(elt[..p]);
      var value := encode(Trim(elt[p + 1..]));
      var table := NickRefOf(cols, colstart);
      && nick in table && |value| >= table[nick].0.width
      && table[nick].1 + table[nick].0.width <= |buf|
      && Assign(cols, colstart, buf, elt, encode) == Success(Write(buf, table[nick].1, value[..table[nick].0.width]))
  {
    var p := IndexOf(elt, "=");
    NickRefWithin(cols, colstart, |buf|, Trim(elt[..p]));
  }

  // ----- the round trip with the property form -----

  /** A nickname the property form carries unchanged: non-empty, without
      leading or trailing blanks, without `,` and `=`. */
  predicate PlainNick(nick: string) {
    nick != [] && nick[0] > ' ' && nick[|nick| - 1] > ' ' && ',' !in nick && '=' !in nick
  }

  /** An ASCII byte above the blank other than the comma (0x21..0x7F
      without 0x2C): its `(char)` cast is neither trimmed nor a separator. */
  predicate PlainByte(b: int8) {
    0x20 < b && b != 0x2C
  }

  /** `String.getBytes()` gives back the bytes of a string made of plain bytes
      cast to characters, as any ASCII-compatible platform charset (UTF-8,
      ISO-8859-1, US-ASCII) does for ASCII text. */
  ghost predicate Transparent(encode: string -> seq<int8>) {
    forall cell: seq<int8> {:trigger Chars(cell)} ::
      (forall k :: 0 <= k < |cell| ==> PlainByte(cell[k])) ==> encode(Chars(cell)) == cell
  }

  /** Proof helper: trimming a string without blanks at either end changes
      nothing. */
  lemma TrimPlain(s: string)
    requires s == [] || (s[0] > ' ' && s[|s| - 1] > ' ')
    ensures Trim(s) == s
  {
  }

  /** The property form with braces, read back by `Entry(String)`, rebuilds
      the record: this holds for a schema of string and binary columns with
      distinct plain nicknames, a record of plain ASCII bytes, and a charset
      that maps those bytes' characters back to them. */
  lemma PropertyFormRoundTrip(cols: seq<Column>, colstart: seq<nat>, buf: seq<int8>,
                              arrayText: nat -> string, encode: string -> seq<int8>)
    requires Laid(cols, colstart, |buf|)
    requires forall i :: 0 <= i < |cols| ==>
      (cols[i].celltype.TypeString? || cols[i].celltype.TypeBinary?) && PlainNick(cols[i].nickname)
    requires forall i, j :: 0 <= i < j < |cols| ==> cols[i].nickname != cols[j].nickname
    requires forall k :: 0 <= k < |buf| ==> PlainByte(buf[k])
    requires Transparent(encode)
    ensures Render(cols, colstart, buf, true, arrayText).Success?
    ensures Parse(cols, colstart, |buf|, Render(cols, colstart, buf, true, arrayText).value, encode) == Success(buf)
  {
    var fs := TextFields(cols, colstart, buf, arrayText, |cols|);
    assert Render(cols, colstart, buf, true, arrayText) == Success("{" + Join(fs, ',') + "}");
    ReadBackAll(cols, colstart, buf, fs, encode);
  }

  /** Reading back the braced list of all fields rebuilds the record. */
  lemma ReadBackAll(cols: seq<Column>, colstart: seq<nat>, buf: seq<int8>,
                    fs: seq<string>, encode: string -> seq<int8>)
    requires Laid(cols, colstart, |buf|) && |fs| == |cols|
    requires forall i :: 0 <= i < |cols| ==> PlainNick(cols[i].nickname)
    requires forall i, j :: 0 <= i < j < |cols| ==> cols[i].nickname != cols[j].nickname
    requires forall k :: 0 <= k < |buf| ==> PlainByte(buf[k])
    requires Transparent(encode)
    requires forall i :: 0 <= i < |cols| ==> fs[i] == TextField(cols, colstart, buf, i)
    ensures Parse(cols, colstart, |buf|, "{" + Join(fs, ',') + "}", encode) == Success(buf)
  {
    var joined := Join(fs, ',');
    var text := "{" + joined + "}";
    assert text[1..|text| - 1] == joined;
    assert Elements(text) == Success(Split(joined, ','));
    if cols == [] {
      assert Split(joined, ',') == [""];
      ReadBackNothing(cols, colstart, buf, encode);
    } else {
      forall j | 0 <= j < |fs| ensures ',' !in fs[j] {
        FieldWithoutComma(cols, colstart, buf, j);
      }
      SplitJoin(fs, ',');
      ReadBackFields(cols, colstart, buf, fs, encode);
    }
  }

  /** With no column, the property form `{}` reads back as the empty record. */
  lemma ReadBackNothing(cols: seq<Column>, colstart: seq<nat>, buf: seq<int8>, encode: string -> seq<int8>)
    requires Laid(cols, colstart, |buf|) && cols == []
    ensures Assignments(cols, colstart, Zeros(|buf|), [""], encode, 1) == Success(buf)
  {
    assert Assignment("", encode).None?;
    assert Zeros(|buf|) == buf;
  }

  /** All fields read back, in order, rebuild the record. */
  lemma ReadBackFields(cols: seq<Column>, colstart: seq<nat>, buf: seq<int8>,
                       fs: seq<string>, encode: string -> seq<int8>)
    requires Laid(cols, colstart, |buf|) && |fs| == |cols|
    requires forall i :: 0 <= i < |cols| ==> PlainNick(cols[i].nickname)
    requires forall i, j :: 0 <= i < j < |cols| ==> cols[i].nickname != cols[j].nickname
    requires forall k :: 0 <= k < |buf| ==> PlainByte(buf[k])
    requires Transparent(encode)
    requires forall i :: 0 <= i < |cols| ==> fs[i] == TextField(cols, colstart, buf, i)
    ensures Assignments(cols, colstart, Zeros(|buf|), fs, encode, |fs|) == Success(buf)
  {
    ReadBackPrefix(cols, colstart, buf, fs, encode, |cols|);
    assert cols[..|cols|] == cols;
    assert ReadSoFar(buf, |buf|) == buf;
  }

  /** The field of a column with a plain nickname over plain bytes has no comma. */
  lemma FieldWithoutComma(cols: seq<Column>, colstart: seq<nat>, buf: seq<int8>, i: nat)
    requires Laid(cols, colstart, |buf|) && i < |cols|
    requires PlainNick(cols[i].nickname)
    requires forall k :: 0 <= k < |buf| ==> PlainByte(buf[k])
    ensures ',' !in TextField(cols, colstart, buf, i)
  {
    CellWithin(cols, colstart, |buf|, i);
    var cell := buf[colstart[i]..colstart[i] + cols[i].width];
    var f := TextField(cols, colstart, buf, i);
    var n := |cols[i].nickname|;
    forall k | 0 <= k < |f| ensures f[k] != ',' {
      if k > n {
        assert f[k] == Chars(cell)[k - n - 1];
        assert cell[k - n - 1] == buf[colstart[i] + k - n - 1];
      }
    }
  }

  /** The field column `i` renders in a text schema. */
  function TextField(cols: seq<Column>, colstart: seq<nat>, buf: seq<int8>, i: nat): string
    requires Laid(cols, colstart, |buf|) && i < |cols|
  {
    CellWithin(cols, colstart, |buf|, i);
    cols[i].nickname + "=" + Chars(buf[colstart[i]..colstart[i] + cols[i].width])
  }

  /** In a schema of string and binary columns the property form lists one
      field per column; returns that list. */
  lemma {:induction false} TextFields(cols: seq<Column>, colstart: seq<nat>, buf: seq<int8>,
                                      arrayText: nat -> string, n: nat) returns (fs: seq<string>)
    requires Laid(cols, colstart, |buf|) && n <= |cols|
    requires forall i :: 0 <= i < |cols| ==> cols[i].celltype.TypeString? || cols[i].celltype.TypeBinary?
    ensures Fields(cols, colstart, buf, arrayText, n) == Success(fs)
    ensures |fs| == n && forall i :: 0 <= i < n ==> fs[i] == TextField(cols, colstart, buf, i)
  {
    if n == 0 {
      fs := [];
    } else {
      var prev := TextFields(cols, colstart, buf, arrayText, n - 1);
      fs := prev + [TextField(cols, colstart, buf, n - 1)];
    }
  }

  /** The fields `fs` of a text schema with distinct plain nicknames over
      plain ASCII bytes, and a charset that encodes their characters back. */
  ghost predicate ReadsBack(cols: seq<Column>, colstart: seq<nat>, buf: seq<int8>,
                            fs: seq<string>, encode: string -> seq<int8>) {
    && Laid(cols, colstart, |buf|) && |fs| == |cols|
    && (forall i :: 0 <= i < |cols| ==> PlainNick(cols[i].nickname))
    && (forall i, j :: 0 <= i < j < |cols| ==> cols[i].nickname != cols[j].nickname)
    && (forall k :: 0 <= k < |buf| ==> PlainByte(buf[k]))
    && Transparent(encode)
    && (forall i :: 0 <= i < |cols| ==> fs[i] == TextField(cols, colstart, buf, i))
  }

  /** The first `s` bytes of the record over the zeroed buffer. */
  function ReadSoFar(buf: seq<int8>, s: nat): (r: seq<int8>)
    requires s <= |buf|
    ensures |r| == |buf|
  {
    buf[..s] + Zeros(|buf| - s)
  }

  /** Reading back the first `n` fields writes the first `n` cells of the
      record over the zeroed buffer. */
  lemma {:induction false} ReadBackPrefix(cols: seq<Column>, colstart: seq<nat>, buf: seq<int8>,
                                          fs: seq<string>, encode: string -> seq<int8>, n: nat)
    requires ReadsBack(cols, colstart, buf, fs, encode) && n <= |cols|
    ensures SumWidths(cols[..n]) <= |buf|
    ensures Assignments(cols, colstart, Zeros(|buf|), fs, encode, n)
            == Success(ReadSoFar(buf, SumWidths(cols[..n])))
  {
    if n == 0 {
      assert cols[..0] == [];
      assert ReadSoFar(buf, 0) == Zeros(|buf|);
    } else {
      var m := n - 1;
      var s := SumWidths(cols[..m]);
      ReadBackPrefix(cols, colstart, buf, fs, encode, m);
      assert Assignments(cols, colstart, Zeros(|buf|), fs, encode, m) == Success(ReadSoFar(buf, s));
      ReadBackStep(cols, colstart, buf, fs, encode, m);
    }
  }

  /** The step of `ReadBackPrefix` that reads back the field of column `i`. */
  lemma ReadBackStep(cols: seq<Column>, colstart: seq<nat>, buf: seq<int8>,
                     fs: seq<string>, encode: string -> seq<int8>, i: nat)
    requires ReadsBack(cols, colstart, buf, fs, encode) && i < |cols|
    requires SumWidths(cols[..i]) <= |buf|
    requires Assignments(cols, colstart, Zeros(|buf|), fs, encode, i)
             == Success(ReadSoFar(buf, SumWidths(cols[..i])))
    ensures SumWidths(cols[..i + 1]) <= |buf|
    ensures Assignments(cols, colstart, Zeros(|buf|), fs, encode, i + 1)
            == Success(ReadSoFar(buf, SumWidths(cols[..i + 1])))
  {
    var s := SumWidths(cols[..i]);
    var w := cols[i].width;
    assert s == colstart[i] && SumWidths(cols[..i + 1]) == s + w && s + w <= |buf| by {
      assert Laid(cols, colstart, |buf|);
      NextStart(cols, colstart, |buf|, i);
      CellWithin(cols, colstart, |buf|, i);
    }
    ReadBackCell(cols, colstart, buf, fs, encode, i, s, w);
  }

  /** Reading back field `i` over the record read so far up to its cell. */
  lemma ReadBackCell(cols: seq<Column>, colstart: seq<nat>, buf: seq<int8>,
                     fs: seq<string>, encode: string -> seq<int8>, i: nat, s: nat, w: nat)
    requires ReadsBack(cols, colstart, buf, fs, encode) && i < |cols|
    requires s == colstart[i] && w == cols[i].width && s + w <= |buf|
    requires Assignments(cols, colstart, Zeros(|buf|), fs, encode, i) == Success(ReadSoFar(buf, s))
    ensures Assignments(cols, colstart, Zeros(|buf|), fs, encode, i + 1) == Success(ReadSoFar(buf, s + w))
  {
    var prev := ReadSoFar(buf, s);
    ReadBackField(cols, colstart, buf, prev, encode, i);
    WritePrefix(buf, s, w);
    calc {
      Assignments(cols, colstart, Zeros(|buf|), fs, encode, i + 1);
      Assign(cols, colstart, prev, fs[i], encode);
      Success(Write(prev, s, buf[s..s + w]));
      Success(ReadSoFar(buf, s + w));
    }
  }

  /** Column `i` starts where the columns before it end, and the columns up to
      and including it end `width` bytes later. */
  lemma NextStart(cols: seq<Column>, colstart: seq<nat>, objectsize: int, i: nat)
    requires Laid(cols, colstart, objectsize) && i < |cols|
    ensures colstart[i] == SumWidths(cols[..i])
    ensures SumWidths(cols[..i + 1]) == SumWidths(cols[..i]) + cols[i].width
  {
    assert cols[..i + 1][..i] == cols[..i];
  }

  /** Reading back the field of column `i` writes its cell. */
  lemma ReadBackField(cols: seq<Column>, colstart: seq<nat>, buf: seq<int8>, prev: seq<int8>,
                      encode: string -> seq<int8>, i: nat)
    requires Laid(cols, colstart, |buf|) && |prev| == |buf| && i < |cols|
    requires PlainNick(cols[i].nickname)
    requires forall j :: i < j < |cols| ==> cols[j].nickname != cols[i].nickname
    requires forall k :: 0 <= k < |buf| ==> PlainByte(buf[k])
    requires Transparent(encode)
    ensures && colstart[i] + cols[i].width <= |buf|
            && Assign(cols, colstart, prev, TextField(cols, colstart, buf, i), encode)
               == Success(Write(prev, colstart[i], buf[colstart[i]..colstart[i] + cols[i].width]))
  {
    CellWithin(cols, colstart, |buf|, i);
    var cell := buf[colstart[i]..colstart[i] + cols[i].width];
    PlainSlice(buf, colstart[i], colstart[i] + cols[i].width);
    NickRefLast(cols, colstart, i);
    CellReadBack(cols, colstart, prev, encode, i, cell);
  }

  /** The field of column `i` over a plain cell writes that cell. */
  lemma CellReadBack(cols: seq<Column>, colstart: seq<nat>, prev: seq<int8>,
                     encode: string -> seq<int8>, i: nat, cell: seq<int8>)
    requires Laid(cols, colstart, |prev|) && i < |cols|
    requires PlainNick(cols[i].nickname)
    requires cols[i].nickname in NickRefOf(cols, colstart)
    requires NickRefOf(cols, colstart)[cols[i].nickname] == (cols[i], colstart[i])
    requires |cell| == cols[i].width && forall k :: 0 <= k < |cell| ==> PlainByte(cell[k])
    requires Transparent(encode)
    ensures colstart[i] + |cell| <= |prev|
    ensures Assign(cols, colstart, prev, cols[i].nickname + "=" + Chars(cell), encode)
         == Success(Write(prev, colstart[i], cell))
  {
    var nick := cols[i].nickname;
    assert Assignment(nick + "=" + Chars(cell), encode) == Some((nick, cell)) by {
      PlainCell(encode, cell);
      FieldAssignment(nick, Chars(cell), encode);
    }
    assert cell[..cols[i].width] == cell;
    AssignKnown(cols, colstart, prev, nick + "=" + Chars(cell), encode, nick, cell);
  }

  /** An element whose assignment names a known column with a long enough
      value writes that value's cell-width prefix. */
  lemma AssignKnown(cols: seq<Column>, colstart: seq<nat>, prev: seq<int8>, elt: string,
                    encode: string -> seq<int8>, nick: string, value: seq<int8>)
    requires Laid(cols, colstart, |prev|)
    requires Assignment(elt, encode) == Some((nick, value))
    requires nick in NickRefOf(cols, colstart)
    requires |value| >= NickRefOf(cols, colstart)[nick].0.width
    ensures NickRefOf(cols, colstart)[nick].1 + NickRefOf(cols, colstart)[nick].0.width <= |prev|
    ensures Assign(cols, colstart, prev, elt, encode)
         == Success(Write(prev, NickRefOf(cols, colstart)[nick].1, value[..NickRefOf(cols, colstart)[nick].0.width]))
  {
    NickRefWithin(cols, colstart, |prev|, nick);
  }

  /** Proof helper: a slice of plain bytes is plain. */
  lemma PlainSlice(buf: seq<int8>, from: nat, to: nat)
    requires from <= to <= |buf|
    requires forall k :: 0 <= k < |buf| ==> PlainByte(buf[k])
    ensures forall k :: 0 <= k < to - from ==> PlainByte(buf[from..to][k])
  {
    forall k | 0 <= k < to - from ensures PlainByte(buf[from..to][k]) {
      assert buf[from..to][k] == buf[from + k];
    }
  }

  /** Proof helper: the characters of plain bytes trim to themselves and
      encode back. */
  lemma PlainCell(encode: string -> seq<int8>, cell: seq<int8>)
    requires Transparent(encode)
    requires forall k :: 0 <= k < |cell| ==> PlainByte(cell[k])
    ensures Chars(cell) == [] || (Chars(cell)[0] > ' ' && Chars(cell)[|cell| - 1] > ' ')
    ensures encode(Chars(cell)) == cell
  {
  }

  /** A field `nick=value` with a plain nickname and a value without blanks
      at its ends assigns the value to the nickname. */
  lemma FieldAssignment(nick: string, value: string, encode: string -> seq<int8>)
    requires PlainNick(nick)
    requires value == [] || (value[0] > ' ' && value[|value| - 1] > ' ')
    ensures Assignment(nick + "=" + value, encode) == Some((nick, encode(value)))
  {
    var f := nick + "=" + value;
    FirstEquals(nick, value);
    assert f[..|nick|] == nick;
    assert f[|nick| + 1..] == value;
    TrimPlain(nick);
    TrimPlain(value);
  }

  /** The first `=` of `nick=value` is the one after the nickname. */
  lemma FirstEquals(nick: string, value: string)
    requires '=' !in nick
    ensures IndexOf(nick + "=" + value, "=") == |nick|
  {
    var f := nick + "=" + value;
    assert f[|nick|..|nick| + 1] == "=";
    assert OccursAt(f, "=", |nick|);
    forall k | 0 <= k < |nick| ensures !OccursAt(f, "=", k) {
      assert f[k..k + 1] == [nick[k]];
    }
  }

  /** Writing the next cell of the record over the prefix image extends it. */
  lemma WritePrefix(buf: seq<int8>, s: nat, w: nat)
    requires s + w <= |buf|
    ensures Write(ReadSoFar(buf, s), s, buf[s..s + w]) == ReadSoFar(buf, s + w)
  {
    var r := Write(ReadSoFar(buf, s), s, buf[s..s + w]);
    var t := ReadSoFar(buf, s + w);
    forall k | 0 <= k < |buf| ensures r[k] == t[k] {
      if s <= k < s + w {
        assert r[k] == r[s..s + w][k - s];
      }
    }
  }
}
