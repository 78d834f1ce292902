/** The `java.lang.String` / `java.util.StringTokenizer` operations the codec relies on,
    stated over `seq<char>`, and the platform's character-set conversions. */
module JavaStrings {
  import opened Options
  import opened JavaTypes

  /** `pat` occurs in `s` starting at index `k`. */
  predicate OccursAt(s: string, pat: string, k: int) {
    0 <= k && k + |pat| <= |s| && s[k..k + |pat|] == pat
  }

  /** `s.indexOf(pat)`: the first index where `pat` occurs, or -1. */
  function IndexOf(s: string, pat: string): (r: int)
    ensures -1 <= r <= |s|
    ensures r >= 0 ==> OccursAt(s, pat, r)
    ensures forall k :: 0 <= k && (r < 0 || k < r) ==> !OccursAt(s, pat, k)
  {
    IndexFrom(s, pat, 0)
  }

  function IndexFrom(s: string, pat: string, from: nat): (r: int)
    requires from <= |s|
    ensures r == -1 || from <= r <= |s|
    ensures r >= 0 ==> OccursAt(s, pat, r)
    ensures forall k :: from <= k && (r < 0 || k < r) ==> !OccursAt(s, pat, k)
    decreases |s| - from
  {
    if from + |pat| > |s| then -1
    else if s[from..from + |pat|] == pat then from
    else IndexFrom(s, pat, from + 1)
  }

  /** Splits `s` at every occurrence of `d`, keeping empty pieces. */
  function Split(s: string, d: char): (r: seq<string>)
    ensures |r| >= 1
    ensures forall j :: 0 <= j < |r| ==> d !in r[j]
    decreases |s|
  {
    var i := IndexOf(s, [d]);
    if i < 0 then
      SeparatorFree(s, d, |s|);
      [s]
    else
      SeparatorFree(s, d, i);
      [s[..i]] + Split(s[i + 1..], d)
  }

  /** No separator comes before the first occurrence `indexOf` finds. */
  lemma SeparatorFree(s: string, d: char, n: nat)
    requires IndexOf(s, [d]) < 0 ==> n == |s|
    requires IndexOf(s, [d]) >= 0 ==> n == IndexOf(s, [d])
    ensures n <= |s| && d !in s[..n]
  {
    forall k | 0 <= k < n ensures s[k] != d {
      assert !OccursAt(s, [d], k);
      assert s[k..k + 1] == [s[k]];
    }
  }

  /** The pieces separated by single `d` characters. */
  function Join(ps: seq<string>, d: char): string {
    if |ps| == 0 then ""
    else if |ps| == 1 then ps[0]
    else ps[0] + [d] + Join(ps[1..], d)
  }

  lemma {:induction false} JoinSplit(s: string, d: char)
    ensures Join(Split(s, d), d) == s
    decreases |s|
  {
    var i := IndexOf(s, [d]);
    if i >= 0 {
      SplitFirst(s, d);
      JoinCons(s[..i], Split(s[i + 1..], d), d);
      JoinSplit(s[i + 1..], d);
    }
  }

  /** The first piece of a split, and the split of the rest. */
  lemma SplitFirst(s: string, d: char)
    requires IndexOf(s, [d]) >= 0
    ensures var i := IndexOf(s, [d]);
      && i < |s|
      && Split(s, d) == [s[..i]] + Split(s[i + 1..], d)
      && s == s[..i] + [d] + s[i + 1..]
  {
    var i := IndexOf(s, [d]);
    assert s[i..i + 1] == [d];
  }

  lemma JoinCons(p: string, rest: seq<string>, d: char)
    requires |rest| >= 1
    ensures Join([p] + rest, d) == p + [d] + Join(rest, d)
  {
    assert ([p] + rest)[1..] == rest;
  }

  /** Splitting undoes joining, for pieces that do not contain the separator. */
  lemma {:induction false} SplitJoin(ps: seq<string>, d: char)
    requires |ps| >= 1
    requires forall j :: 0 <= j < |ps| ==> d !in ps[j]
    ensures Split(Join(ps, d), d) == ps
  {
    if |ps| > 1 {
      var s := Join(ps, d);
      var first := ps[0];
      assert s == first + [d] + Join(ps[1..], d);
      assert OccursAt(s, [d], |first|) by {
        assert s[|first|..|first| + 1] == [d];
      }
      forall k | 0 <= k < |first| ensures !OccursAt(s, [d], k) {
        assert s[k] == first[k];
        assert s[k..k + 1] == [s[k]];
      }
      assert IndexOf(s, [d]) == |first|;
      assert s[..|first|] == first;
      assert s[|first| + 1..] == Join(ps[1..], d);
      SplitJoin(ps[1..], d);
      assert Split(s, d) == [first] + Split(Join(ps[1..], d), d);
      assert ps == [first] + ps[1..];
    } else {
      var s := ps[0];
      forall k | 0 <= k ensures !OccursAt(s, [d], k) {
        if k < |s| {
          assert s[k..k + 1] == [s[k]];
        }
      }
    }
  }

  /** The non-empty elements of `ps`, in order. */
  function NonEmpty(ps: seq<string>): (r: seq<string>)
    ensures forall j :: 0 <= j < |r| ==> r[j] != [] && r[j] in ps
    ensures (forall j :: 0 <= j < |ps| ==> ps[j] != []) ==> r == ps
  {
    if ps == [] then []
    else (if ps[0] == [] then [] else [ps[0]]) + NonEmpty(ps[1..])
  }

  /** The tokens a `java.util.StringTokenizer` over delimiter `d` yields:
      the maximal runs without `d`, empty runs skipped. */
  function Tokens(s: string, d: char): (r: seq<string>)
    ensures forall j :: 0 <= j < |r| ==> r[j] != [] && d !in r[j]
  {
    NonEmpty(Split(s, d))
  }

  /** Tokenizing a list joined with the delimiter gives the list back. */
  lemma TokensOfJoin(toks: seq<string>, d: char)
    requires forall j :: 0 <= j < |toks| ==> toks[j] != [] && d !in toks[j]
    ensures Tokens(Join(toks, d), d) == toks
  {
    if toks == [] {
      assert Split("", d) == [""];
    } else {
      SplitJoin(toks, d);
    }
  }

  /** `s.trim()`: drops every leading and trailing character at or below
      U+0020 and keeps the slice of `s` between them. */
  function Trim(s: string): (r: string)
    ensures |r| <= |s|
    ensures r != [] ==> r[0] > ' ' && r[|r| - 1] > ' '
    ensures var l := FirstNonBlank(s, 0);
      && l + |r| <= |s| && r == s[l..l + |r|]
      && (forall k :: 0 <= k < l ==> s[k] <= ' ')
      && (forall k :: l + |r| <= k < |s| ==> s[k] <= ' ')
  {
    var l := FirstNonBlank(s, 0);
    s[l..EndNonBlank(s, l, |s|)]
  }

  /** The index of the first character from `i` on above U+0020, or `|s|`. */
  function FirstNonBlank(s: string, i: nat): (n: nat)
    requires i <= |s|
    ensures i <= n <= |s|
    ensures forall k :: i <= k < n ==> s[k] <= ' '
    ensures n < |s| ==> s[n] > ' '
    decreases |s| - i
  {
    if i < |s| && s[i] <= ' ' then FirstNonBlank(s, i + 1) else i
  }

  /** The end of `s[lo..j]` once its trailing characters at or below U+0020
      are dropped. */
  function EndNonBlank(s: string, lo: nat, j: nat): (n: nat)
    requires lo <= j <= |s|
    ensures lo <= n <= j
    ensures forall k :: n <= k < j ==> s[k] <= ' '
    ensures n > lo ==> s[n - 1] > ' '
  {
    if j > lo && s[j - 1] <= ' ' then EndNonBlank(s, lo, j - 1) else j
  }

  /** The number a string of decimal digits denotes, most significant first. */
  function DigitsValue(r: string): int {
    if r == [] then 0 else DigitsValue(r[..|r| - 1]) * 10 + (r[|r| - 1] as int - '0' as int)
  }

  /** `Integer.toString(n)` for a non-negative `n`: the digits of `n` without
      leading zeros. */
  function Decimal(n: nat): (r: string)
    ensures |r| >= 1
    ensures forall j :: 0 <= j < |r| ==> '0' <= r[j] <= '9'
    ensures DigitsValue(r) == n
    ensures |r| > 1 ==> r[0] != '0'
  {
    if n < 10 then
      var r := [(n + '0' as int) as char];
      assert r[..0] == [];
      r
    else
      var p := Decimal(n / 10);
      var r := p + [(n % 10 + '0' as int) as char];
      assert r[..|r| - 1] == p;
      r
  }

  /** Distinct numbers have distinct decimal texts, so the columns
      `"col_" + i` of a width-only schema have distinct nicknames. */
  lemma DecimalInjective(m: nat, n: nat)
    requires m != n
    ensures "col_" + Decimal(m) != "col_" + Decimal(n)
  {
    assert ("col_" + Decimal(m))[4..] == Decimal(m);
    assert ("col_" + Decimal(n))[4..] == Decimal(n);
  }

  /** The platform's character-set conversions, which the model does not interpret:
      `String.getBytes()` and `new String(bytes)` with the default charset, and
      their named-charset forms, which fail (None) for an unsupported charset name. */
  datatype Charsets = Charsets(
    platformEncode: string -> seq<int8>,
    encode: (string, string) -> Option<seq<int8>>,
    platformDecode: seq<int8> -> string,
    decode: (seq<int8>, string) -> Option<string>)
}
