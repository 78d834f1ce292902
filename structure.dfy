/** The textual structure definition a schema can be built from:
    `[pivot ",'='" x] column "," column ... [",'|'" tail]`, where `x` is the one
    character after the pivot marker that the parser skips along with it. */
module Structure {
  import opened Options
  import opened JavaStrings
  import opened ColumnTypes

  const PivotMarker: string := ",'='"
  const PropertyMarker: string := ",'|'"

  /** The tokens of a structure string: the pivot column's, if there is one,
      and those of the column list, in order. */
  datatype Parts = Parts(pivot: Option<string>, columns: seq<string>)

  /** Cuts a structure string into its tokens the way the `kelondroRow(String)`
      constructor does: the text before the first pivot marker is the pivot and
      the marker and the character after it are dropped; the column list ends
      at the first property marker and is tokenized on commas, empty tokens
      skipped. A structure that ends right after its first pivot marker makes
      `substring(p + 5)` throw. */
  function SplitStructure(structure: string): (r: Result<Parts, RowError>)
    ensures r.Failure? <==>
      (OccursAt(structure, PivotMarker, |structure| - 4) &&
       forall k :: 0 <= k < |structure| - 4 ==> !OccursAt(structure, PivotMarker, k))
    ensures r.Failure? ==> r.error == StructureTruncated
    ensures r.Success? ==> forall j :: 0 <= j < |r.value.columns| ==>
      r.value.columns[j] != [] && ',' !in r.value.columns[j]
    ensures r.Success? && r.value.pivot.Some? ==>
      forall k :: 0 <= k ==> !OccursAt(r.value.pivot.value, PivotMarker, k)
  {
    var p := IndexOf(structure, PivotMarker);
    if p >= 0 && p + 5 > |structure| then
      Failure(StructureTruncated)
    else
      var rest := if p >= 0 then structure[p + 5..] else structure;
      var q := IndexOf(rest, PropertyMarker);
      var attr := if q < 0 then rest else rest[..q];
      var pivot := if p >= 0 then Some(structure[..p]) else None;
      assert pivot.Some? ==> forall k :: 0 <= k ==> !OccursAt(pivot.value, PivotMarker, k) by {
        if p >= 0 {
          forall k | 0 <= k ensures !OccursAt(structure[..p], PivotMarker, k) {
            if k + 4 <= p {
              assert structure[..p][k..k + 4] == structure[k..k + 4];
              assert !OccursAt(structure, PivotMarker, k);
            }
          }
        }
      }
      Success(Parts(pivot, Tokens(attr, ',')))
  }

  /** The structure string that lists `parts`: the pivot token, the pivot
      marker and a comma, then the column tokens separated by commas. */
  function StructureText(parts: Parts): string {
    (if parts.pivot.Some? then parts.pivot.value + PivotMarker + "," else "") + Join(parts.columns, ',')
  }

  /** Tokens the structure grammar can carry unchanged: no quote character
      (so no marker can start inside one) and, in the column list, no comma. */
  predicate Plain(parts: Parts) {
    && (parts.pivot.Some? ==> '\'' !in parts.pivot.value)
    && forall j :: 0 <= j < |parts.columns| ==>
         parts.columns[j] != [] && ',' !in parts.columns[j] && '\'' !in parts.columns[j]
  }

  lemma {:induction false} JoinWithout(ps: seq<string>, d: char, c: char)
    requires c != d && forall j :: 0 <= j < |ps| ==> c !in ps[j]
    ensures c !in Join(ps, d)
  {
    if |ps| > 1 {
      JoinWithout(ps[1..], d, c);
    }
  }

  /** A marker starts with a comma and a quote, so it cannot occur where the
      character after a position is not a quote. */
  lemma NoMarkerWithoutQuote(s: string, m: string, k: int)
    requires |m| == 4 && m[1] == '\''
    requires 0 <= k && k + 1 < |s| ==> s[k + 1] != '\''
    ensures !OccursAt(s, m, k)
  {
    if 0 <= k && k + 4 <= |s| {
      assert s[k..k + 4][1] == s[k + 1];
    }
  }

  /** The column list of plain tokens has no property marker and tokenizes
      back into the same tokens. */
  lemma ColumnListRoundTrip(columns: seq<string>)
    requires forall j :: 0 <= j < |columns| ==>
      columns[j] != [] && ',' !in columns[j] && '\'' !in columns[j]
    ensures IndexOf(Join(columns, ','), PropertyMarker) == -1
    ensures IndexOf(Join(columns, ','), PivotMarker) == -1
    ensures Tokens(Join(columns, ','), ',') == columns
  {
    JoinWithout(columns, ',', '\'');
    NoMarkers(Join(columns, ','));
    TokensOfJoin(columns, ',');
  }

  /** Text without a quote holds neither marker. */
  lemma NoMarkers(s: string)
    requires '\'' !in s
    ensures IndexOf(s, PropertyMarker) == -1 && IndexOf(s, PivotMarker) == -1
  {
    forall k | 0 <= k ensures !OccursAt(s, PropertyMarker, k) && !OccursAt(s, PivotMarker, k) {
      NoMarkerWithoutQuote(s, PropertyMarker, k);
      NoMarkerWithoutQuote(s, PivotMarker, k);
    }
  }

  /** The first pivot marker of a rendered structure is the one after the pivot. */
  lemma PivotFound(pv: string, joined: string)
    requires '\'' !in pv
    ensures IndexOf(pv + PivotMarker + "," + joined, PivotMarker) == |pv|
  {
    var s := pv + PivotMarker + "," + joined;
    assert s[|pv|..|pv| + 4] == PivotMarker;
    assert OccursAt(s, PivotMarker, |pv|);
    forall k | 0 <= k < |pv| ensures !OccursAt(s, PivotMarker, k) {
      if k + 1 < |pv| {
        assert s[k + 1] == pv[k + 1];
      } else {
        assert s[k + 1] == ',';
      }
      NoMarkerWithoutQuote(s, PivotMarker, k);
    }
  }

  /** Parsing the rendering of plain tokens gives the tokens back. */
  lemma StructureRoundTrip(parts: Parts)
    requires Plain(parts)
    ensures SplitStructure(StructureText(parts)) == Success(parts)
  {
    var joined := Join(parts.columns, ',');
    ColumnListRoundTrip(parts.columns);
    var s := StructureText(parts);
    if parts.pivot.Some? {
      var pv := parts.pivot.value;
      assert s == pv + PivotMarker + "," + joined;
      PivotFound(pv, joined);
      assert |pv| + 5 <= |s|;
      assert s[..|pv|] == pv;
      assert s[|pv| + 5..] == joined;
    } else {
      assert s == joined;
    }
  }
}
