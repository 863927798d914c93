/**
 * The two ways the browser code reads one cookie out of `document.cookie`,
 * the `"; "`-separated list of `name=value` pairs of section 5.4 of RFC 6265.
 *
 * The split-based reader is the same function in static/js/answer_survey_ajax.js,
 * static/js/survey_detail_ajax.js and static/js/answer_form_ajax.js and is
 * defined once here; the loop-based reader is the one of static/js/survey_detail.js.
 */
module Cookies {
  import opened Wrappers
  import opened Text

  /** What the split-based reader splits on: `"; "`, the name and `=`. */
  function Marker(name: string): string {
    "; " + name + "="
  }

  /**
   * The split-based `getCookie`: `"; " + cookie` is split on the marker; with
   * exactly two pieces the value is the second piece up to its first `;`,
   * otherwise there is no value.
   */
  function GetCookie(cookie: string, name: string): (r: Option<string>)
    ensures r.Some? ==> ';' !in r.value
  {
    var parts := Split("; " + cookie, Marker(name));
    if |parts| == 2 then
      var v := Split(parts[1], ";")[0];
      SemicolonFree(parts[1]);
      Some(v)
    else None
  }

  /** `pat` occurs in `s` at exactly one index. */
  ghost predicate OccursOnce(s: string, pat: string) {
    exists i :: OccursAt(s, pat, i) && forall j :: OccursAt(s, pat, j) ==> j == i
  }

  /** `v` is the text at the start of `t` up to, and not including, its first `;`. */
  predicate UpToSemicolon(v: string, t: string) {
    ';' !in v && IsPrefix(v, t) && (|v| < |t| ==> t[|v|] == ';')
  }

  /** The first piece of splitting on `;` is the text up to the first `;`. */
  lemma SemicolonFree(t: string)
    ensures UpToSemicolon(Split(t, ";")[0], t)
  {
    match Find(t, ";")
    case None =>
      forall j | 0 <= j < |t| ensures t[j] != ';' {
        assert !OccursAt(t, ";", j);
        assert t[j..j + 1] == [t[j]];
      }
    case Some(k) =>
      assert t[k..k + 1] == [t[k]];
      forall j | 0 <= j < k ensures t[j] != ';' {
        assert !OccursAt(t, ";", j);
        assert t[j..j + 1] == [t[j]];
      }
  }

  /** A marker's first character, `;`, appears nowhere else in it when the name has no `;`. */
  predicate HeadUnique(pat: string) {
    |pat| > 0 && forall k :: 0 < k < |pat| ==> pat[k] != pat[0]
  }

  lemma MarkerHeadUnique(name: string)
    requires ';' !in name
    ensures HeadUnique(Marker(name))
  {
    var m := Marker(name);
    forall k | 0 < k < |m| ensures m[k] != m[0] {
      if 2 <= k < 2 + |name| {
        assert m[k] == name[k - 2];
      }
    }
  }

  /** Two occurrences of a pattern whose head is unique never overlap. */
  lemma NoOverlap(s: string, pat: string, i: nat, j: nat)
    requires HeadUnique(pat)
    requires OccursAt(s, pat, i) && OccursAt(s, pat, j) && i < j
    ensures i + |pat| <= j
  {
    if j < i + |pat| {
      OccursAtChar(s, pat, i, j - i);
    }
  }

  lemma OccursAtChar(s: string, pat: string, i: nat, k: nat)
    requires OccursAt(s, pat, i) && k < |pat|
    ensures s[i + k] == pat[k]
  {
    assert s[i + k] == s[i..i + |pat|][k];
  }

  /** After the first occurrence, the pieces are the text before it and the pieces of the rest. */
  lemma SplitAfterFirst(s: string, pat: string, i: nat)
    requires |pat| > 0
    requires Find(s, pat) == Some(i)
    ensures |Split(s, pat)| == 2 <==> Find(s[i + |pat|..], pat).None?
  {
    SplitUnfold(s, pat, i);
    SplitOne(s[i + |pat|..], pat);
  }

  /** With nothing after the first occurrence, the second piece is everything after it. */
  lemma SecondPiece(s: string, pat: string, i: nat)
    requires |pat| > 0
    requires Find(s, pat) == Some(i) && Find(s[i + |pat|..], pat).None?
    ensures Split(s, pat) == [s[..i], s[i + |pat|..]]
  {
    SplitUnfold(s, pat, i);
    SplitOne(s[i + |pat|..], pat);
  }

  lemma SplitOne(s: string, pat: string)
    requires |pat| > 0
    ensures |Split(s, pat)| == 1 <==> Find(s, pat).None?
    ensures Find(s, pat).None? ==> Split(s, pat) == [s]
  {
  }

  lemma SplitUnfold(s: string, pat: string, i: nat)
    requires |pat| > 0
    requires Find(s, pat) == Some(i)
    ensures Split(s, pat) == [s[..i]] + Split(s[i + |pat|..], pat)
  {
  }

  /** A pattern whose head is unique occurs once exactly when nothing follows its first occurrence. */
  lemma OnceAfterFirst(s: string, pat: string, i: nat)
    requires HeadUnique(pat)
    requires Find(s, pat) == Some(i)
    ensures OccursOnce(s, pat) <==> Find(s[i + |pat|..], pat).None?
  {
    match Find(s[i + |pat|..], pat)
    case None => NothingAfterFirst(s, pat, i);
    case Some(k) => SomethingAfterFirst(s, pat, i, k);
  }

  lemma SomethingAfterFirst(s: string, pat: string, i: nat, k: nat)
    requires |pat| > 0
    requires Find(s, pat) == Some(i) && Find(s[i + |pat|..], pat) == Some(k)
    ensures !OccursOnce(s, pat)
  {
    assert OccursAt(s[i + |pat|..], pat, k);
    OccursAtTail(s, pat, i + |pat|, k);
    TwoOccurrences(s, pat, i, i + |pat| + k);
  }

  lemma NothingAfterFirst(s: string, pat: string, i: nat)
    requires HeadUnique(pat)
    requires Find(s, pat) == Some(i) && Find(s[i + |pat|..], pat).None?
    ensures OccursOnce(s, pat)
  {
    forall j | OccursAt(s, pat, j) ensures j == i {
      if j > i {
        NoOverlap(s, pat, i, j);
        OccursAtTail(s, pat, i + |pat|, j - i - |pat|);
      }
    }
  }

  lemma TwoOccurrences(s: string, pat: string, i: nat, j: nat)
    requires OccursAt(s, pat, i) && OccursAt(s, pat, j) && i != j
    ensures !OccursOnce(s, pat)
  {
    forall w | OccursAt(s, pat, w) ensures exists v :: OccursAt(s, pat, v) && v != w {
      if w == i {
        assert OccursAt(s, pat, j);
      } else {
        assert OccursAt(s, pat, i);
      }
    }
  }

  /** Splitting gives exactly two pieces precisely when the pattern occurs exactly once. */
  lemma SplitTwoIffOnce(s: string, pat: string)
    requires HeadUnique(pat)
    ensures |Split(s, pat)| == 2 <==> OccursOnce(s, pat)
    ensures forall i :: OccursAt(s, pat, i) && |Split(s, pat)| == 2 ==> Split(s, pat)[1] == s[i + |pat|..]
  {
    match Find(s, pat)
    case None =>
      SplitOne(s, pat);
    case Some(i) =>
      SplitAfterFirst(s, pat, i);
      OnceAfterFirst(s, pat, i);
      if Find(s[i + |pat|..], pat).None? {
        SecondPiece(s, pat, i);
      }
  }

  /**
   * The split-based reader returns a value exactly when the marker occurs once
   * in `"; " + cookie`, and that value is what follows the marker up to the next `;`.
   */
  lemma GetCookieSpec(cookie: string, name: string)
    requires ';' !in name
    ensures GetCookie(cookie, name).Some? <==> OccursOnce("; " + cookie, Marker(name))
    ensures forall i :: OccursAt("; " + cookie, Marker(name), i) && GetCookie(cookie, name).Some? ==>
      UpToSemicolon(GetCookie(cookie, name).value, ("; " + cookie)[i + |Marker(name)|..])
  {
    var s := "; " + cookie;
    MarkerHeadUnique(name);
    SplitTwoIffOnce(s, Marker(name));
    if GetCookie(cookie, name).Some? {
      SemicolonFree(Split(s, Marker(name))[1]);
    }
  }

  /** A cookie that appears twice, as after a duplicate `Set-Cookie` at two paths, is not read at all. */
  lemma DuplicateCookieUnread(cookie: string, name: string, i: nat, j: nat)
    requires ';' !in name
    requires i != j && OccursAt("; " + cookie, Marker(name), i) && OccursAt("; " + cookie, Marker(name), j)
    ensures GetCookie(cookie, name).None?
  {
    GetCookieSpec(cookie, name);
  }

  /** The trimmed piece `piece` is the cookie `name`: it starts with `name=`. */
  predicate NamesCookie(piece: string, name: string) {
    IsPrefix(name + "=", piece)
  }

  /** Index of the first of the (trimmed) pieces that is the cookie `name`. */
  function FirstNamed(pieces: seq<string>, name: string): (r: Option<nat>)
    ensures r.Some? ==> r.value < |pieces| && NamesCookie(pieces[r.value], name)
    ensures r.Some? ==> forall j :: 0 <= j < r.value ==> !NamesCookie(pieces[j], name)
    ensures r.None? ==> forall j :: 0 <= j < |pieces| ==> !NamesCookie(pieces[j], name)
  {
    if pieces == [] then None
    else if NamesCookie(pieces[0], name) then Some(0)
    else
      match FirstNamed(pieces[1..], name)
      case None => None
      case Some(k) => Some(k + 1)
  }

  lemma FirstNamedAt(pieces: seq<string>, name: string, i: nat)
    requires i < |pieces| && NamesCookie(pieces[i], name)
    requires forall j :: 0 <= j < i ==> !NamesCookie(pieces[j], name)
    ensures FirstNamed(pieces, name) == Some(i)
  {
  }

  lemma FirstNamedNone(pieces: seq<string>, name: string)
    requires forall j :: 0 <= j < |pieces| ==> !NamesCookie(pieces[j], name)
    ensures FirstNamed(pieces, name).None?
  {
  }

  /**
   * What the loop-based reader returns: nothing for an empty cookie string,
   * otherwise the decoded remainder of the first `;`-separated, trimmed piece
   * that starts with `name=`.
   */
  function CookieLookup(cookie: string, name: string, decode: string -> string): Option<string> {
    if cookie == "" then None
    else
      var pieces := TrimAll(Split(cookie, ";"));
      match FirstNamed(pieces, name)
      case None => None
      case Some(k) => Some(decode(pieces[k][|name| + 1..]))
  }

  /** The loop-based `getCookie` of static/js/survey_detail.js, with `decodeURIComponent` as `decode`. */
  method GetCookieLoop(cookie: string, name: string, decode: string -> string) returns (cookieValue: Option<string>)
    ensures cookieValue == CookieLookup(cookie, name, decode)
  {
    if cookie == "" {
      return None;
    }
    var cookies := Split(cookie, ";");
    ghost var trimmed := TrimAll(cookies);
    var i := 0;
    while i < |cookies|
      invariant 0 <= i <= |cookies|
      invariant forall j :: 0 <= j < i ==> !NamesCookie(trimmed[j], name)
    {
      var piece := Trim(Js, cookies[i]);
      assert piece == trimmed[i];
      if NamesCookie(piece, name) {
        FirstNamedAt(trimmed, name, i);
        return Some(decode(piece[|name| + 1..]));
      }
      i := i + 1;
    }
    FirstNamedNone(trimmed, name);
    return None;
  }

  /** A cookie whose name only starts with `name`, such as `csrftoken2`, is not the cookie `name`. */
  lemma LongerNameNoMatch(name: string, c: char, rest: string)
    requires c != '='
    ensures !NamesCookie(name + [c] + rest, name)
  {
    assert (name + [c] + rest)[|name|] == c;
    assert (name + "=")[|name|] == '=';
  }

  /** A piece that is exactly `name=` followed by a value is read as that value, whatever it holds. */
  lemma NamedPieceValue(name: string, value: string)
    ensures NamesCookie(name + "=" + value, name)
    ensures (name + "=" + value)[|name| + 1..] == value
  {
    assert (name + "=" + value)[..|name| + 1] == name + "=";
  }
}
