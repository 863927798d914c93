/**
 * static/js/langswitch.js: when the language selector changes, the current
 * path gets the chosen language as its first segment, replacing a language
 * prefix that is already there.
 */
module LangSwitch {
  import opened Wrappers
  import opened Text

  /** The codes the pattern `^\/(fi|sv|en)(\/|$)` recognises. */
  predicate IsLangCode(c: string) {
    c == "fi" || c == "sv" || c == "en"
  }

  /** `path` is a language prefix followed by a slash: `/fi/…`, `/sv/…` or `/en/…`. */
  predicate PrefixedPath(path: string) {
    |path| >= 4 && path[0] == '/' && IsLangCode(path[1..3]) && path[3] == '/'
  }

  /** `path` is a language prefix and nothing else: `/fi`, `/sv` or `/en`. */
  predicate BarePrefix(path: string) {
    |path| == 3 && path[0] == '/' && IsLangCode(path[1..3])
  }

  /** Length of the text the pattern matches at the start of `path`; `None` when it does not match. */
  function MatchLength(path: string): (r: Option<nat>)
    ensures r == Some(4) <==> PrefixedPath(path)
    ensures r == Some(3) <==> BarePrefix(path)
    ensures r.None? <==> !PrefixedPath(path) && !BarePrefix(path)
  {
    if |path| >= 3 && path[0] == '/' && IsLangCode(path[1..3]) then
      if |path| == 3 then Some(3)
      else if path[3] == '/' then Some(4)
      else None
    else None
  }

  /**
   * The change handler's new path, as written: after a match the path keeps
   * everything from one character before the end of the match.
   */
  function Rewrite(path: string, lang: string): (r: string)
    ensures IsPrefix("/" + lang, r)
  {
    match MatchLength(path)
    case Some(n) => "/" + lang + path[n - 1..]
    case None => "/" + lang + path
  }

  /** A recognised prefix followed by a slash is replaced by the chosen language. */
  lemma RewritePrefixed(c: string, rest: string, lang: string)
    requires IsLangCode(c)
    ensures Rewrite("/" + c + "/" + rest, lang) == "/" + lang + "/" + rest
  {
    var path := "/" + c + "/" + rest;
    assert path[1..3] == c;
    assert path[3..] == "/" + rest;
  }

  /** A path without a recognised prefix gets the language prepended. */
  lemma RewriteUnprefixed(path: string, lang: string)
    requires !PrefixedPath(path) && !BarePrefix(path)
    ensures Rewrite(path, lang) == "/" + lang + path
  {
  }

  /** Unknown codes and codes without a following slash are not prefixes. */
  lemma OnlyKnownPrefixesRecognised()
    ensures Rewrite("/de/x", "fi") == "/fi/de/x"
    ensures Rewrite("/fix", "sv") == "/sv/fix"
  {
    assert "/de/x"[1..3] == "de";
    RewriteUnprefixed("/de/x", "fi");
    assert "/fix"[1..3] == "fi";
    RewriteUnprefixed("/fix", "sv");
  }

  /**
   * A bare prefix keeps its last letter: `/fi` becomes `/` + lang + `i`, and
   * rewriting the result again prepends the language a second time.
   */
  lemma BarePrefixQuirk(c: string, lang: string)
    requires IsLangCode(c)
    ensures Rewrite("/" + c, lang) == "/" + lang + [c[1]]
  {
    var path := "/" + c;
    assert path[1..3] == c;
    assert path[2..] == [c[1]];
  }

  lemma BarePrefixNotIdempotent()
    ensures Rewrite("/fi", "sv") == "/svi"
    ensures Rewrite(Rewrite("/fi", "sv"), "sv") == "/sv/svi"
  {
    BarePrefixQuirk("fi", "sv");
    assert "/svi"[1..3] == "sv";
    RewriteUnprefixed("/svi", "sv");
  }

  /** Rewriting a path that starts with a slash and is not a bare prefix a second time changes nothing. */
  lemma RewriteIdempotent(path: string, lang: string)
    requires |path| > 0 && path[0] == '/' && !BarePrefix(path)
    requires IsLangCode(lang)
    ensures Rewrite(Rewrite(path, lang), lang) == Rewrite(path, lang)
  {
    var r := Rewrite(path, lang);
    var tail := if PrefixedPath(path) then path[3..] else path;
    assert r == "/" + lang + tail;
    assert tail[0] == '/';
    assert r[1..3] == lang;
    assert PrefixedPath(r);
    assert r[3..] == tail;
  }

  /** The evident intent: a bare prefix is replaced like any other, leaving just `/` + lang. */
  function RewriteIntended(path: string, lang: string): (r: string)
    ensures IsPrefix("/" + lang, r)
    ensures PrefixedPath(path) || BarePrefix(path) ==> r == "/" + lang + path[3..]
    ensures !PrefixedPath(path) && !BarePrefix(path) ==> r == "/" + lang + path
  {
    match MatchLength(path)
    case Some(_) => "/" + lang + path[3..]
    case None => "/" + lang + path
  }

  /** The corrected rewrite is idempotent on every path that starts with a slash. */
  lemma RewriteIntendedIdempotent(path: string, lang: string)
    requires |path| > 0 && path[0] == '/'
    requires IsLangCode(lang)
    ensures RewriteIntended(RewriteIntended(path, lang), lang) == RewriteIntended(path, lang)
  {
    var r := RewriteIntended(path, lang);
    var tail := if PrefixedPath(path) || BarePrefix(path) then path[3..] else path;
    assert r == "/" + lang + tail;
    assert r[1..3] == lang;
    if tail == [] {
      assert BarePrefix(r);
    } else {
      assert tail[0] == '/';
      assert PrefixedPath(r);
    }
    assert r[3..] == tail;
  }

  /** The two rewrites differ only on bare prefixes. */
  lemma RewriteIntendedAgrees(path: string, lang: string)
    requires !BarePrefix(path)
    ensures RewriteIntended(path, lang) == Rewrite(path, lang)
  {
  }
}
