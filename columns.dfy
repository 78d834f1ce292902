/** One column of a record schema (`kelondroColumn`), the two integer coders a
    column can name, and the errors the codec raises. */
module ColumnTypes {
  import opened JavaTypes

  /** `kelondroColumn.celltype_*`. The field is a Java `int`, so a value outside
      the named constants is possible; `TypeOther` stands for it. */
  datatype CellType =
    | TypeUndefined
    | TypeBoolean
    | TypeBinary
    | TypeString
    | TypeCardinal
    | TypeOther(code: int)

  /** `kelondroColumn.encoder_*`, with `EncOther` for an unnamed code. */
  datatype Encoder =
    | EncNone
    | EncB64e
    | EncB256
    | EncBytes
    | EncOther(code: int)

  /** A column: nickname, cell type, integer encoder, fixed byte width, comment. */
  datatype Column = Column(
    nickname: string,
    celltype: CellType,
    encoder: Encoder,
    width: nat,
    comment: string)

  /** An integer coder the model does not interpret (`kelondroNaturalOrder` for
      base 256, `kelondroBase64Order.enhancedCoder` for base 64): `encodeLong(v, w)`
      yields the `w` bytes written into a cell, `decodeLong(cell)` reads the
      value back from the cell's bytes and from nothing else. */
  datatype IntCoder = IntCoder(
    encodeLong: (int, nat) -> seq<int8>,
    decodeLong: seq<int8> -> int)
  {
    /** The encoding of a value fills exactly the cell it is given. */
    ghost predicate FixedWidth() {
      forall v, w :: |encodeLong(v, w)| == w
    }
  }

  /** The two coders a column's encoder can select. */
  datatype Coders = Coders(natural: IntCoder, enhanced: IntCoder) {
    ghost predicate FixedWidth() {
      natural.FixedWidth() && enhanced.FixedWidth()
    }
  }

  /** The exceptions of the codec. */
  datatype RowError =
    | SetLongNoEncoder        // setColLong on encoder none
    | SetLongBytes            // setColLong on encoder bytes
    | GetLongNoEncoder        // getColLong on encoder none
    | GetLongBytes            // getColLong on encoder bytes
    | GetLongUnknownEncoder   // getColLong when no case matched
    | FormUndefinedCell       // toPropertyForm on celltype undefined
    | FormBooleanCell         // toPropertyForm on celltype boolean
    | FormCardinalEncoder(encoder: Encoder)  // toPropertyForm on a cardinal without b64e
    | FormEmpty               // toPropertyForm with nothing rendered: charAt(-1)
    | StructureTruncated      // substring(p + 5) past the end of the structure string
    | ExternalEmpty           // Entry(String) on "": charAt(0)
    | ExternalLoneBrace       // Entry(String) on "{": substring(1, 0)
    | ExternalUnknownNick(nick: string)  // Entry(String): no column has the nickname
    | ExternalValueShort(nick: string)   // Entry(String): value bytes shorter than the cell
    | IndexOutOfBounds        // long2bytes or bytes2long past either end of the array
}
