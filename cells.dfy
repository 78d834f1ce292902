/** What the typed cell accessors of an entry read from and write to a cell,
    as values: integers through the column's coder, text through a charset. */
module Cells {
  import opened JavaTypes
  import opened Options
  import opened ColumnTypes
  import opened Layout
  import opened JavaStrings

  /** The coder `setColLong`/`getColLong` select for an encoder, if any. */
  function CoderFor(enc: Encoder, coders: Coders): (r: Option<IntCoder>)
    ensures r.Some? <==> enc == EncB256 || enc == EncB64e
    ensures enc == EncB256 ==> r == Some(coders.natural)
    ensures enc == EncB64e ==> r == Some(coders.enhanced)
  {
    match enc
    case EncB256 => Some(coders.natural)
    case EncB64e => Some(coders.enhanced)
    case _ => None
  }

  /** What `setColLong` stores in a cell of column `col`: the exception for
      encoders none and bytes, nothing at all for an encoder no case of the
      switch names, else the coder's `width` bytes for `v`. */
  function StoreLong(col: Column, v: int, coders: Coders): (r: Result<Option<seq<int8>>, RowError>)
    ensures r.Failure? <==> col.encoder == EncNone || col.encoder == EncBytes
    ensures r.Failure? ==> r.error == (if col.encoder == EncNone then SetLongNoEncoder else SetLongBytes)
    ensures r.Success? ==> (r.value.Some? <==> CoderFor(col.encoder, coders).Some?)
    ensures r.Success? && r.value.Some? ==> r.value.value == CoderFor(col.encoder, coders).value.encodeLong(v, col.width)
  {
    match col.encoder
    case EncNone => Failure(SetLongNoEncoder)
    case EncBytes => Failure(SetLongBytes)
    case EncB64e => Success(Some(coders.enhanced.encodeLong(v, col.width)))
    case EncB256 => Success(Some(coders.natural.encodeLong(v, col.width)))
    case EncOther(_) => Success(None)
  }

  /** What `getColLong` returns for a cell of column `col`: the exception for
      encoders none and bytes and for an encoder no case names, else the
      coder's value for the cell's bytes. */
  function LoadLong(col: Column, cell: seq<int8>, coders: Coders): (r: Result<int, RowError>)
    ensures r.Success? <==> CoderFor(col.encoder, coders).Some?
    ensures r.Success? ==> r.value == CoderFor(col.encoder, coders).value.decodeLong(cell)
    ensures r.Failure? ==>
      r.error == (if col.encoder == EncNone then GetLongNoEncoder
                  else if col.encoder == EncBytes then GetLongBytes
                  else GetLongUnknownEncoder)
  {
    match col.encoder
    case EncNone => Failure(GetLongNoEncoder)
    case EncB64e => Success(coders.enhanced.decodeLong(cell))
    case EncB256 => Success(coders.natural.decodeLong(cell))
    case EncBytes => Failure(GetLongBytes)
    case EncOther(_) => Failure(GetLongUnknownEncoder)
  }

  /** `getColLong` after `setColLong`: whenever the store writes a cell, the
      load reads the value back, as long as the column's coder decodes what
      it encodes; whenever the store throws, so does the load. An encoder no
      case names is the one asymmetry: the store silently does nothing while
      the load throws. */
  lemma LongRoundTrip(col: Column, cell: seq<int8>, v: int, coders: Coders)
    requires coders.FixedWidth()
    requires CoderFor(col.encoder, coders).Some? ==>
      var coder := CoderFor(col.encoder, coders).value;
      coder.decodeLong(coder.encodeLong(v, col.width)) == v
    ensures StoreLong(col, v, coders).Failure? ==> LoadLong(col, cell, coders).Failure?
    ensures StoreLong(col, v, coders) == Success(None) ==> LoadLong(col, cell, coders) == Failure(GetLongUnknownEncoder)
    ensures StoreLong(col, v, coders).Success? && StoreLong(col, v, coders).value.Some? ==>
      var bytes := StoreLong(col, v, coders).value.value;
      |bytes| == col.width && LoadLong(col, bytes, coders) == Success(v)
  {
    var r := StoreLong(col, v, coders);
    if r.Success? && r.value.Some? {
      var coder := CoderFor(col.encoder, coders).value;
      assert |coder.encodeLong(v, col.width)| == col.width;
    }
  }

  /** The text `new String(bytes)` or `new String(bytes, encoding)` gives:
      the platform charset for a missing or empty charset name, and `""` for
      an unsupported one (the exception is caught). */
  function DecodeText(bytes: seq<int8>, encoding: Option<string>, cs: Charsets): (r: string)
    ensures encoding.None? || encoding == Some("") ==> r == cs.platformDecode(bytes)
    ensures encoding.Some? && encoding != Some("") && cs.decode(bytes, encoding.value).None? ==> r == ""
    ensures encoding.Some? && encoding != Some("") && cs.decode(bytes, encoding.value).Some? ==>
      r == cs.decode(bytes, encoding.value).value
  {
    if encoding.None? || encoding.value == "" then cs.platformDecode(bytes)
    else match cs.decode(bytes, encoding.value)
      case None => ""
      case Some(t) => t
  }

  /** What `getColString` returns for the cell of width `w` at `off`. */
  function LoadText(buf: seq<int8>, off: nat, w: nat, encoding: Option<string>, cs: Charsets): (r: Option<string>)
    requires off < |buf|
    ensures r.None? <==> StringBytes(buf, off, w).None?
  {
    match StringBytes(buf, off, w)
    case None => None
    case Some(bytes) => Some(DecodeText(bytes, encoding, cs))
  }

  /** The bytes `setColString` hands to `setCol`: `String.getBytes()` with no
      charset name, `getBytes(encoding)` otherwise, `None` when the charset is
      unsupported (the exception is printed and the cell left alone). */
  function EncodeText(s: string, encoding: Option<string>, cs: Charsets): Option<seq<int8>> {
    if encoding.None? then Some(cs.platformEncode(s)) else cs.encode(s, encoding.value)
  }

  /** `getColString` after `setColString` with the platform charset gives the
      string back when its bytes fit the cell, start and end with a non-zero
      byte, and decode back to it; after `setCol(null)` it gives `null`. */
  lemma TextRoundTrip(buf: seq<int8>, off: nat, w: nat, s: string, cs: Charsets)
    requires off + w <= |buf| && 0 < w
    requires var b := cs.platformEncode(s); 0 < |b| <= w && b[0] != 0 && b[|b| - 1] != 0
    requires cs.platformDecode(cs.platformEncode(s)) == s
    ensures LoadText(Write(buf, off, Fit(EncodeText(s, None, cs), w)), off, w, None, cs) == Some(s)
    ensures LoadText(Write(buf, off, Fit(None, w)), off, w, None, cs) == None
  {
    StringBytesAfterWrite(buf, off, w, Some(cs.platformEncode(s)));
    StringBytesAfterWrite(buf, off, w, None);
  }
}
