/**
 * String primitives of the two runtimes the application uses: JavaScript's
 * `trim`, `parseInt(_, 10)`, `split`, `replace` with a string pattern and
 * number-to-string conversion, and Python's `str.strip`.
 */
module Text {
  import opened Wrappers

  /** Whose definition of white space: JavaScript's (`trim`, `parseInt`) or Python's (`str.strip`). */
  datatype SpaceKind = Js | Py

  predicate IsSpace(kind: SpaceKind, c: char) {
    match kind
    case Js =>
      c == '\t' || c == '\n' || c == '\U{000B}' || c == '\U{000C}' || c == '\r' || c == ' '
      || c == '\U{00A0}' || c == '\U{1680}' || ('\U{2000}' <= c <= '\U{200A}')
      || c == '\U{2028}' || c == '\U{2029}' || c == '\U{202F}' || c == '\U{205F}'
      || c == '\U{3000}' || c == '\U{FEFF}'
    case Py =>
      ('\t' <= c <= '\r') || ('\U{001C}' <= c <= '\U{001F}') || c == ' '
      || c == '\U{0085}' || c == '\U{00A0}' || c == '\U{1680}' || ('\U{2000}' <= c <= '\U{200A}')
      || c == '\U{2028}' || c == '\U{2029}' || c == '\U{202F}' || c == '\U{205F}' || c == '\U{3000}'
  }

  /** Length of the run of white space at the start of `s`. */
  function LeadingSpaces(kind: SpaceKind, s: string): (n: nat)
    ensures n <= |s|
    ensures forall i :: 0 <= i < n ==> IsSpace(kind, s[i])
    ensures n < |s| ==> !IsSpace(kind, s[n])
  {
    if |s| > 0 && IsSpace(kind, s[0]) then 1 + LeadingSpaces(kind, s[1..]) else 0
  }

  /** Length of the run of white space at the end of `s`. */
  function TrailingSpaces(kind: SpaceKind, s: string): (n: nat)
    ensures n <= |s|
    ensures forall i :: |s| - n <= i < |s| ==> IsSpace(kind, s[i])
    ensures n < |s| ==> !IsSpace(kind, s[|s| - 1 - n])
  {
    if |s| > 0 && IsSpace(kind, s[|s| - 1]) then 1 + TrailingSpaces(kind, s[..|s| - 1]) else 0
  }

  /** `s.trim()` in JavaScript, `s.strip()` in Python. */
  function Trim(kind: SpaceKind, s: string): (r: string)
    ensures LeadingSpaces(kind, s) + |r| <= |s|
    ensures r == s[LeadingSpaces(kind, s)..LeadingSpaces(kind, s) + |r|]
    ensures forall i :: 0 <= i < LeadingSpaces(kind, s) ==> IsSpace(kind, s[i])
    ensures forall i :: LeadingSpaces(kind, s) + |r| <= i < |s| ==> IsSpace(kind, s[i])
    ensures r == [] || (!IsSpace(kind, r[0]) && !IsSpace(kind, r[|r| - 1]))
  {
    var a := LeadingSpaces(kind, s);
    var rest := s[a..];
    var b := TrailingSpaces(kind, rest);
    rest[..|rest| - b]
  }

  /** JavaScript `trim` of every string, in order. */
  function TrimAll(pieces: seq<string>): (r: seq<string>)
    ensures |r| == |pieces| && forall j :: 0 <= j < |pieces| ==> r[j] == Trim(Js, pieces[j])
  {
    seq(|pieces|, j requires 0 <= j < |pieces| => Trim(Js, pieces[j]))
  }

  predicate IsDigit(c: char) {
    '0' <= c <= '9'
  }

  predicate AllDigits(s: string) {
    forall i :: 0 <= i < |s| ==> IsDigit(s[i])
  }

  function DigitValue(c: char): (d: nat)
    requires IsDigit(c)
    ensures d < 10
  {
    (c as int) - ('0' as int)
  }

  function DigitChar(d: nat): (c: char)
    requires d < 10
    ensures IsDigit(c) && DigitValue(c) == d
  {
    (('0' as int) + d) as char
  }

  /** Length of the run of decimal digits at the start of `s`. */
  function LeadingDigits(s: string): (n: nat)
    ensures n <= |s|
    ensures AllDigits(s[..n])
    ensures n < |s| ==> !IsDigit(s[n])
  {
    if |s| > 0 && IsDigit(s[0]) then
      var m := LeadingDigits(s[1..]);
      assert s[..1 + m] == [s[0]] + s[1..][..m];
      1 + m
    else 0
  }

  /** The number a string of decimal digits denotes, read most significant digit first. */
  function DigitsValue(ds: string): nat
    requires AllDigits(ds)
  {
    if ds == [] then 0 else DigitsValue(ds[..|ds| - 1]) * 10 + DigitValue(ds[|ds| - 1])
  }

  /**
   * JavaScript's `parseInt(s, 10)` on integers: leading white space is skipped,
   * one optional sign is read, then the longest run of decimal digits; with no
   * digit the result is NaN, here `None`.
   */
  function ParseInt(s: string): Option<int> {
    var t := s[LeadingSpaces(Js, s)..];
    var negative := |t| > 0 && t[0] == '-';
    var u := if |t| > 0 && (t[0] == '-' || t[0] == '+') then t[1..] else t;
    var n := LeadingDigits(u);
    if n == 0 then None
    else Some(if negative then -(DigitsValue(u[..n]) as int) else DigitsValue(u[..n]))
  }

  /** Decimal text of a natural number, as JavaScript writes an integral Number. */
  function NatToString(n: nat): (s: string)
    ensures |s| > 0 && AllDigits(s)
  {
    if n < 10 then [DigitChar(n)] else NatToString(n / 10) + [DigitChar(n % 10)]
  }

  /** `String(n)` for an integral JavaScript number (a minus sign for negatives). */
  function IntToString(n: int): string {
    if n < 0 then "-" + NatToString(-n) else NatToString(n)
  }

  lemma {:induction false} NatToStringValue(n: nat)
    ensures DigitsValue(NatToString(n)) == n
  {
    if n >= 10 {
      NatToStringValue(n / 10);
      var s := NatToString(n);
      assert s[..|s| - 1] == NatToString(n / 10);
    }
  }

  lemma AllDigitsLeading(s: string)
    requires AllDigits(s)
    ensures LeadingDigits(s) == |s|
  {
  }

  /** A string that starts with a character other than white space has no leading white space. */
  lemma NoLeadingSpaces(s: string)
    requires |s| > 0 && !IsSpace(Js, s[0])
    ensures LeadingSpaces(Js, s) == 0 && s[LeadingSpaces(Js, s)..] == s
  {
  }

  /** A plain run of digits reads as the number it denotes. */
  lemma ParseIntDigits(d: string)
    requires |d| > 0 && AllDigits(d)
    ensures ParseInt(d) == Some(DigitsValue(d) as int)
  {
    assert !IsSpace(Js, d[0]);
    NoLeadingSpaces(d);
    AllDigitsLeading(d);
    assert d[..|d|] == d;
  }

  /** A minus sign followed by a run of digits reads as the negated number. */
  lemma ParseIntNegative(d: string)
    requires |d| > 0 && AllDigits(d)
    ensures ParseInt("-" + d) == Some(-(DigitsValue(d) as int))
  {
    var s := "-" + d;
    NoLeadingSpaces(s);
    assert s[1..] == d;
    AllDigitsLeading(d);
    assert d[..|d|] == d;
  }

  /** Reading back the text a count is written as gives the count again. */
  lemma ParseIntToString(n: int)
    ensures ParseInt(IntToString(n)) == Some(n)
  {
    if n < 0 {
      ParseIntNegative(NatToString(-n));
      NatToStringValue(-n);
    } else {
      ParseIntDigits(NatToString(n));
      NatToStringValue(n);
    }
  }

  /** `s` starts with `p`. */
  predicate IsPrefix(p: string, s: string) {
    |p| <= |s| && s[..|p|] == p
  }

  /** `pat` occurs in `s` starting at index `i`. */
  predicate OccursAt(s: string, pat: string, i: int) {
    0 <= i && i + |pat| <= |s| && s[i..i + |pat|] == pat
  }

  lemma OccursAtTail(s: string, pat: string, k: nat, j: int)
    requires k <= |s|
    requires 0 <= j
    ensures OccursAt(s[k..], pat, j) <==> OccursAt(s, pat, k + j)
  {
    if 0 <= j && j + |pat| <= |s| - k {
      assert s[k..][j..j + |pat|] == s[k + j..k + j + |pat|];
    }
  }

  lemma OccursAtPrefix(s: string, pat: string, k: nat, j: int)
    requires k <= |s|
    requires j + |pat| <= k
    ensures OccursAt(s[..k], pat, j) <==> OccursAt(s, pat, j)
  {
    if 0 <= j {
      assert s[..k][j..j + |pat|] == s[j..j + |pat|];
    }
  }

  /** `s.indexOf(pat)`: the first index at which `pat` occurs in `s`. */
  function Find(s: string, pat: string): (r: Option<nat>)
    ensures r.Some? ==> OccursAt(s, pat, r.value)
    ensures r.Some? ==> forall j :: 0 <= j < r.value ==> !OccursAt(s, pat, j)
    ensures r.None? ==> forall j :: !OccursAt(s, pat, j)
    decreases |s|
  {
    if |s| < |pat| then None
    else if s[..|pat|] == pat then Some(0)
    else
      var r := Find(s[1..], pat);
      assert s[0..|pat|] == s[..|pat|];
      assert forall j :: 1 <= j ==> (OccursAt(s[1..], pat, j - 1) <==> OccursAt(s, pat, j)) by {
        forall j | 1 <= j ensures OccursAt(s[1..], pat, j - 1) <==> OccursAt(s, pat, j) {
          OccursAtTail(s, pat, 1, j - 1);
        }
      }
      match r
      case None => None
      case Some(i) => Some(i + 1)
  }

  /** `s.split(sep)` in JavaScript, for a non-empty separator. */
  function Split(s: string, sep: string): (parts: seq<string>)
    requires |sep| > 0
    ensures |parts| >= 1
    decreases |s|
  {
    match Find(s, sep)
    case None => [s]
    case Some(i) => [s[..i]] + Split(s[i + |sep|..], sep)
  }

  /** `parts.join(sep)`: the inverse of `Split`. */
  function Join(parts: seq<string>, sep: string): string
    requires |parts| >= 1
  {
    if |parts| == 1 then parts[0] else parts[0] + sep + Join(parts[1..], sep)
  }

  /** Joining the pieces back with the separator gives the original string. */
  lemma {:induction false} JoinSplit(s: string, sep: string)
    requires |sep| > 0
    ensures Join(Split(s, sep), sep) == s
    decreases |s|
  {
    match Find(s, sep)
    case None =>
    case Some(i) =>
      var rest := s[i + |sep|..];
      var parts := Split(s, sep);
      assert parts == [s[..i]] + Split(rest, sep);
      assert parts[1..] == Split(rest, sep);
      calc {
        Join(parts, sep);
        s[..i] + sep + Join(Split(rest, sep), sep);
        { JoinSplit(rest, sep); }
        s[..i] + sep + rest;
        { assert s[i..i + |sep|] == sep; }
        s[..i] + s[i..i + |sep|] + s[i + |sep|..];
        { assert s[..i] + s[i..i + |sep|] == s[..i + |sep|]; }
        s;
      }
  }

  /** No piece of a split still holds the separator. */
  lemma {:induction false} SplitPiecesFree(s: string, sep: string)
    requires |sep| > 0
    ensures forall k :: 0 <= k < |Split(s, sep)| ==> Find(Split(s, sep)[k], sep).None?
    decreases |s|
  {
    match Find(s, sep)
    case None =>
    case Some(i) =>
      var rest := s[i + |sep|..];
      SplitPiecesFree(rest, sep);
      assert Split(s, sep)[1..] == Split(rest, sep);
      if Find(s[..i], sep).Some? {
        OccursAtPrefix(s, sep, i, Find(s[..i], sep).value);
        assert false;
      }
  }

  /** Splitting loses nothing, and no piece still holds the separator. */
  lemma SplitJoin(s: string, sep: string)
    requires |sep| > 0
    ensures Join(Split(s, sep), sep) == s
    ensures forall k :: 0 <= k < |Split(s, sep)| ==> Find(Split(s, sep)[k], sep).None?
  {
    JoinSplit(s, sep);
    SplitPiecesFree(s, sep);
  }

  /** `s.replace(pat, rep)` with a string pattern: only the first occurrence is replaced. */
  function ReplaceFirst(s: string, pat: string, rep: string): string {
    match Find(s, pat)
    case None => s
    case Some(i) => s[..i] + rep + s[i + |pat|..]
  }
}
