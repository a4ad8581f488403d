/**
 * Pure helpers of the storefront script (both generations share them):
 * `slug` for section anchors, the effective `getSafeImageUrl` that resolves
 * an image reference against the API origin, and the price-range filter of
 * a category section.
 */
module Storefront {
  import opened Wrappers
  import opened Text

  // ---------------------------------------------------------------------------
  // slug
  // ---------------------------------------------------------------------------

  /** The characters `/[^a-z0-9]+/` does not replace. */
  predicate IsSlugChar(c: char) {
    'a' <= c <= 'z' || '0' <= c <= '9'
  }

  /** The combining diacritical marks `/[\u0300-\u036f]/` removes. */
  predicate IsCombiningMark(c: char) {
    '\U{0300}' <= c <= '\U{036F}'
  }

  function StripMarks(s: string): (r: string)
    ensures forall i | 0 <= i < |r| :: !IsCombiningMark(r[i])
  {
    if s == [] then []
    else if IsCombiningMark(s[0]) then StripMarks(s[1..])
    else [s[0]] + StripMarks(s[1..])
  }

  /** The letters and digits of `s`, in order. */
  function Alnum(s: string): string {
    if s == [] then [] else (if IsSlugChar(s[0]) then [s[0]] else []) + Alnum(s[1..])
  }

  /** `Alnum` works character by character. */
  lemma {:induction false} AlnumCons(h: char, s: string)
    ensures Alnum([h] + s) == (if IsSlugChar(h) then [h] else []) + Alnum(s)
  {
    assert ([h] + s)[0] == h && ([h] + s)[1..] == s;
  }

  lemma {:induction false} AlnumAppend(a: string, b: string)
    ensures Alnum(a + b) == Alnum(a) + Alnum(b)
  {
    if a == [] {
      assert a + b == b;
    } else {
      var t := a[1..];
      assert a == [a[0]] + t;
      assert a + b == [a[0]] + (t + b);
      AlnumCons(a[0], t + b);
      AlnumCons(a[0], t);
      AlnumAppend(t, b);
    }
  }

  /** A string of slug characters and single dashes. */
  predicate DashSeparated(r: string) {
    && (forall i | 0 <= i < |r| :: IsSlugChar(r[i]) || r[i] == '-')
    && (forall i | 0 <= i < |r| - 1 :: r[i] == '-' ==> r[i + 1] != '-')
  }

  /** `.replace(/[^a-z0-9]+/g, '-')`; `inRun` says the previous character
      already belonged to a replaced run. */
  function DashRuns(s: string, inRun: bool): (r: string)
    ensures DashSeparated(r)
    ensures inRun && r != [] ==> r[0] != '-'
    ensures Alnum(r) == Alnum(s)
  {
    if s == [] then []
    else
      var rest := DashRuns(s[1..], !IsSlugChar(s[0]));
      if IsSlugChar(s[0]) then
        AlnumAppend([s[0]], rest);
        [s[0]] + rest
      else if inRun then rest
      else
        AlnumAppend(['-'], rest);
        ['-'] + rest
  }

  /** `.replace(/(^-|-$)/g, '')` */
  function TrimDashes(t: string): (u: string)
    // One dash comes off the front when there is one, then one off the end of what is left.
    ensures var lead := if StartsWith(t, "-") then 1 else 0;
            var trail := |t| - lead - |u|;
            && 0 <= trail <= 1 && u == t[lead..|t| - trail]
            && (trail == 1 <==> |t| > lead && t[|t| - 1] == '-')
    ensures Alnum(u) == Alnum(t)
    ensures DashSeparated(t) ==> DashSeparated(u)
    ensures DashSeparated(t) ==> u == [] || (u[0] != '-' && u[|u| - 1] != '-')
  {
    DropTrailingDash(DropLeadingDash(t))
  }

  /** Whether the replacement is inside a run after reading `a`, having started in state `inRun`. */
  function EndsInRun(a: string, inRun: bool): bool {
    if a == [] then inRun else !IsSlugChar(a[|a| - 1])
  }

  /** The replacement works left to right: a string is replaced piece by
      piece, each piece starting in the state the previous one left. */
  lemma {:induction false} DashRunsAppend(a: string, b: string, inRun: bool)
    ensures DashRuns(a + b, inRun) == DashRuns(a, inRun) + DashRuns(b, EndsInRun(a, inRun))
    decreases |a|
  {
    if a == [] {
      assert a + b == b;
    } else {
      var ab, x := a + b, !IsSlugChar(a[0]);
      assert ab[0] == a[0] && ab[1..] == a[1..] + b;
      DashRunsHead(ab, inRun);
      DashRunsHead(a, inRun);
      DashRunsAppend(a[1..], b, x);
      EndsInRunTail(a, inRun);
      var h := if IsSlugChar(a[0]) then [a[0]] else if inRun then [] else ['-'];
      Reassociate(DashRuns(ab, inRun), DashRuns(a, inRun), h, DashRuns(a[1..] + b, x),
                  DashRuns(a[1..], x), DashRuns(b, EndsInRun(a, inRun)));
    }
  }

  /** `d == h + (p + q)` and `e == h + p` give `d == e + q`. */
  lemma {:induction false} Reassociate(d: string, e: string, h: string, t: string, p: string, q: string)
    requires d == h + t && t == p + q && e == h + p
    ensures d == e + q
  {
  }

  /** What the first character contributes: itself, a dash opening a run, or nothing inside one. */
  lemma {:induction false} DashRunsHead(s: string, inRun: bool)
    requires s != []
    ensures DashRuns(s, inRun)
            == (if IsSlugChar(s[0]) then [s[0]] else if inRun then [] else ['-']) + DashRuns(s[1..], !IsSlugChar(s[0]))
  {
  }

  /** The state after a non-empty string is the state after its tail. */
  lemma {:induction false} EndsInRunTail(a: string, inRun: bool)
    requires a != []
    ensures EndsInRun(a, inRun) == EndsInRun(a[1..], !IsSlugChar(a[0]))
  {
    if |a| > 1 {
      assert a[1..][|a| - 2] == a[|a| - 1];
    }
  }

  /** The state after `a + run` is the state after `run`'s last character. */
  lemma {:induction false} EndsInRunAppend(a: string, run: string, inRun: bool)
    requires run != []
    ensures EndsInRun(a + run, inRun) == !IsSlugChar(run[|run| - 1])
  {
    assert (a + run)[|a + run| - 1] == run[|run| - 1];
  }

  /** A whole run of characters other than `a-z0-9` becomes a single dash,
      or nothing when a run is already under way. */
  lemma {:induction false} DashRunsOfRun(run: string, inRun: bool)
    requires run != [] && forall i | 0 <= i < |run| :: !IsSlugChar(run[i])
    ensures DashRuns(run, inRun) == (if inRun then "" else "-")
    ensures EndsInRun(run, inRun)
    decreases |run|
  {
    if |run| > 1 {
      DashRunsOfRun(run[1..], true);
    }
  }

  /** Letters and digits go through unchanged. */
  lemma {:induction false} DashRunsOfWord(w: string, inRun: bool)
    requires forall i | 0 <= i < |w| :: IsSlugChar(w[i])
    ensures DashRuns(w, inRun) == w
    ensures w != [] ==> !EndsInRun(w, inRun)
    decreases |w|
  {
    if w != [] {
      DashRunsOfWord(w[1..], false);
      assert w == [w[0]] + w[1..];
    }
  }

  /** Two words around a run of other characters: the run becomes exactly one dash. */
  lemma {:induction false} RunBecomesOneDash(a: string, run: string, b: string)
    requires a != [] && forall i | 0 <= i < |a| :: IsSlugChar(a[i])
    requires run != [] && forall i | 0 <= i < |run| :: !IsSlugChar(run[i])
    requires forall i | 0 <= i < |b| :: IsSlugChar(b[i])
    ensures DashRuns(a + run + b, false) == a + "-" + b
  {
    DashRunsAppend(a + run, b, false);
    DashRunsAppend(a, run, false);
    DashRunsOfWord(a, false);
    DashRunsOfRun(run, false);
    EndsInRunAppend(a, run, false);
    DashRunsOfWord(b, true);
  }

  /** The `^-` alternative: one dash at the front removed. */
  function DropLeadingDash(t: string): (a: string)
    ensures Alnum(a) == Alnum(t)
    ensures DashSeparated(t) ==> DashSeparated(a)
    ensures DashSeparated(t) && a != [] ==> a[0] != '-'
  {
    if t != [] && t[0] == '-' then
      AlnumAppend(['-'], t[1..]);
      assert t == ['-'] + t[1..];
      assert forall i | 0 <= i < |t| - 1 :: t[1..][i] == t[i + 1];
      t[1..]
    else t
  }

  /** The `-$` alternative: one dash at the end removed. */
  function DropTrailingDash(a: string): (u: string)
    ensures Alnum(u) == Alnum(a)
    ensures DashSeparated(a) ==> DashSeparated(u)
    ensures DashSeparated(a) && (a == [] || a[0] != '-') ==> u == [] || (u[0] != '-' && u[|u| - 1] != '-')
  {
    if a != [] && a[|a| - 1] == '-' then
      AlnumAppend(a[..|a| - 1], ['-']);
      assert a == a[..|a| - 1] + ['-'];
      a[..|a| - 1]
    else a
  }

  /** `slug(s)`: lower-cased, decomposed by `nfd` (`normalize('NFD')`),
      accents dropped, every other run of non-alphanumerics a single dash,
      no dash at either end, `general` when nothing is left. */
  function Slug(s: Option<string>, nfd: string -> string): (r: string)
    ensures r != []
    ensures DashSeparated(r)
    ensures r[0] != '-' && r[|r| - 1] != '-'
  {
    var folded := StripMarks(nfd(Lower(s.GetOr(""))));
    var u := TrimDashes(DashRuns(folded, false));
    if u == [] then "general" else u
  }

  /** A slug keeps every letter and digit of the folded name, in order, and
      falls back to `general` exactly when there are none. */
  lemma {:induction false} SlugKeepsLettersAndDigits(s: Option<string>, nfd: string -> string)
    ensures var folded := StripMarks(nfd(Lower(s.GetOr(""))));
            && (Alnum(folded) == [] ==> Slug(s, nfd) == "general")
            && (Alnum(folded) != [] ==> Alnum(Slug(s, nfd)) == Alnum(folded))
  {
    var folded := StripMarks(nfd(Lower(s.GetOr(""))));
    var u := TrimDashes(DashRuns(folded, false));
    if u == [] {
      assert Alnum(u) == [];
    }
    if Alnum(folded) == [] {
      NoAlnumLeavesNothing(u);
    }
  }

  /** `Ángel` lower-cases to `ángel`, which decomposes to `a` and a combining
      acute accent; the accent is dropped and the slug is `angel`. */
  lemma {:induction false} AccentedCapitalSlug(nfd: string -> string)
    requires nfd("\U{00E1}ngel") == "a\U{0301}ngel"
    ensures Slug(Some("\U{00C1}ngel"), nfd) == "angel"
  {
    LowerAccented();
    StripAccent();
    AngelSlugged();
  }

  /** `toLowerCase` maps the Latin-1 capital to its small letter. */
  lemma LowerAccented()
    ensures Lower("\U{00C1}ngel") == "\U{00E1}ngel"
  {
  }

  /** The combining acute accent is dropped. */
  lemma StripAccent()
    ensures StripMarks("a\U{0301}ngel") == "angel"
  {
  }

  /** A plain lower-case word is its own slug body. */
  lemma AngelSlugged()
    ensures TrimDashes(DashRuns("angel", false)) == "angel"
  {
    var w := "angel";
    assert forall i | 0 <= i < |w| :: IsSlugChar(w[i]);
    DashRunsOfWord(w, false);
    assert !StartsWith(w, "-") && w[|w| - 1] != '-';
    assert w[0..|w|] == w;
  }

  /** A dash-separated string without letters or digits trims to nothing. */
  lemma {:induction false} NoAlnumLeavesNothing(u: string)
    requires DashSeparated(u) && (u == [] || (u[0] != '-' && u[|u| - 1] != '-'))
    requires Alnum(u) == []
    ensures u == []
  {
  }

  // ---------------------------------------------------------------------------
  // getSafeImageUrl (the second, effective declaration)
  // ---------------------------------------------------------------------------

  /** `/^https?:\/\//i.test(s)` */
  predicate HttpUrl(s: string) {
    StartsWith(Lower(s), "http://") || StartsWith(Lower(s), "https://")
  }

  /** `API_ORIGIN.replace(/\/$/, '')` */
  function OriginBase(origin: string): (b: string)
    ensures EndsWith(origin, "/") ==> b + "/" == origin
    ensures !EndsWith(origin, "/") ==> b == origin
  {
    if EndsWith(origin, "/") then
      assert origin == origin[..|origin| - 1] + "/";
      origin[..|origin| - 1]
    else origin
  }

  /** Number of `/` at the front of `s`. */
  function LeadingSlashes(s: string): (k: nat)
    ensures k <= |s|
    ensures forall i | 0 <= i < k :: s[i] == '/'
    ensures k < |s| ==> s[k] != '/'
  {
    if s == [] || s[0] != '/' then 0 else 1 + LeadingSlashes(s[1..])
  }

  /** `s.replace(/^(https?:)\/+/, '$1//')`: exactly two slashes after a
      lower-case `http:` or `https:` followed by at least one. */
  function TwoSlashes(s: string): (r: string)
  {
    if StartsWith(s, "https:") && LeadingSlashes(s[6..]) > 0 then
      "https://" + s[6..][LeadingSlashes(s[6..])..]
    else if StartsWith(s, "http:") && LeadingSlashes(s[5..]) > 0 then
      "http://" + s[5..][LeadingSlashes(s[5..])..]
    else s
  }

  /** The reference after the clean-up steps that precede the decision. */
  function Cleaned(t: string): string {
    var s1 := ReplaceFirst(t, "://&/", "://");
    var s2 := if StartsWith(s1, "&//") then s1[1..] else s1;
    var s3 := if StartsWith(s2, "//") then "https:" + s2 else s2;
    TwoSlashes(s3)
  }

  /** `getSafeImageUrl(input, fallback)`; `decode` is `decodeEntities` and
      `origin` is `API_ORIGIN`. */
  function SafeImageUrl(input: Option<string>, fallback: string, origin: string, decode: string -> string): (r: string)
    ensures Trim(decode(input.GetOr(""))) == "" ==> r == fallback
    ensures || r == fallback
            || (HttpUrl(r) && !HasSpace(r))
            || StartsWith(r, OriginBase(origin))
            || (Contains(r, "://") && !HasSpace(r))
  {
    var t := Trim(decode(input.GetOr("")));
    if t == "" then fallback else Resolve(Cleaned(t), fallback, origin)
  }

  /** What `getSafeImageUrl` does with the cleaned reference `s`: an http(s)
      URL is kept unless it holds whitespace, a root-relative path is put
      under the origin, a reference without `://` becomes an origin path, and
      any other URL is kept unless it holds whitespace. */
  function Resolve(s: string, fallback: string, origin: string): (r: string)
    ensures || r == fallback
            || (HttpUrl(r) && !HasSpace(r))
            || StartsWith(r, OriginBase(origin))
            || (Contains(r, "://") && !HasSpace(r))
  {
    if HttpUrl(s) then
      if HasSpace(s) then fallback else s
    else if StartsWith(s, "/") then
      OriginBase(origin) + s
    else
      var s5 := if StartsWith(s, "./") then s[2..] else s;
      if !Contains(s5, "://") then
        OriginBase(origin) + "/" + s5[LeadingSlashes(s5)..]
      else if HasSpace(s5) then fallback
      else s5
  }

  /** An http(s) URL is kept exactly when it holds no whitespace, and a
      root-relative path is appended to the origin as it is. */
  lemma {:induction false} ResolveUrlOrRoot(s: string, fallback: string, origin: string)
    ensures HttpUrl(s) && !HasSpace(s) ==> Resolve(s, fallback, origin) == s
    ensures HttpUrl(s) && HasSpace(s) ==> Resolve(s, fallback, origin) == fallback
    ensures !HttpUrl(s) && StartsWith(s, "/") ==> Resolve(s, fallback, origin) == OriginBase(origin) + s
  {
  }

  /** A reference without `://` (and not root-relative) becomes a path under the origin. */
  lemma {:induction false} ResolveRelative(s: string, fallback: string, origin: string)
    requires !HttpUrl(s) && !StartsWith(s, "/") && !Contains(s, "://")
    ensures OriginPath(s, Resolve(s, fallback, origin), origin)
  {
    var s5 := if StartsWith(s, "./") then s[2..] else s;
    ContainsAfterDotSlash(s);
    assert !Contains(s5, "://");
    OriginPathOf(s, origin);
  }

  /** Any other URL, after an optional leading `./`, is kept exactly when it holds no whitespace. */
  lemma {:induction false} ResolveOtherUrl(s: string, fallback: string, origin: string)
    requires !HttpUrl(s) && !StartsWith(s, "/")
    ensures !StartsWith(s, "./") && Contains(s, "://") ==>
              Resolve(s, fallback, origin) == (if HasSpace(s) then fallback else s)
    ensures StartsWith(s, "./") && Contains(s[2..], "://") ==>
              Resolve(s, fallback, origin) == (if HasSpace(s[2..]) then fallback else s[2..])
  {
  }

  /** Dropping a leading `./` does not create a `://`. */
  lemma {:induction false} ContainsAfterDotSlash(s: string)
    ensures StartsWith(s, "./") && Contains(s[2..], "://") ==> Contains(s, "://")
  {
    if StartsWith(s, "./") && Contains(s[2..], "://") {
      assert s[1..][1..] == s[2..];
      assert Contains(s[1..], "://");
    }
  }

  /** `r` serves the relative reference `s` from the origin: the origin,
      one slash, then `s` without its leading `./` and the slashes after it. */
  predicate OriginPath(s: string, r: string, origin: string) {
    var b := OriginBase(origin) + "/";
    && StartsWith(r, b)
    && var p := r[|b|..];
       && (p == [] || p[0] != '/')
       && EndsWith(s, p)
       && (|p| == |s| || (StartsWith(s, "./") && forall i | 2 <= i < |s| - |p| :: s[i] == '/'))
  }

  lemma {:induction false} OriginPathOf(s: string, origin: string)
    requires !StartsWith(s, "/")
    ensures var s5 := if StartsWith(s, "./") then s[2..] else s;
            OriginPath(s, OriginBase(origin) + "/" + s5[LeadingSlashes(s5)..], origin)
  {
    var s5 := if StartsWith(s, "./") then s[2..] else s;
    var k := LeadingSlashes(s5);
    var b := OriginBase(origin) + "/";
    var r := b + s5[k..];
    assert r[..|b|] == b && r[|b|..] == s5[k..];
    if StartsWith(s, "./") {
      assert s[|s| - |s5[k..]|..] == s5[k..];
      forall i | 2 <= i < |s| - |s5[k..]|
        ensures s[i] == '/'
      {
        assert s[i] == s5[i - 2];
      }
    } else {
      assert k == 0 by {
        if s != [] {
          assert s[0] != '/' by { assert s[..1] != "/"; }
        }
      }
      assert s5[k..] == s;
    }
  }

  /** Exactly two slashes at position `k`. */
  lemma {:induction false} TwoSlashesAt(t: string, k: nat)
    requires k + 2 < |t| && t[k] == '/' && t[k + 1] == '/' && t[k + 2] != '/'
    ensures LeadingSlashes(t[k..]) == 2 && t[k..][2..] == t[k + 2..]
  {
    var u := t[k..];
    assert u[0] == '/' && u[1] == '/' && u[2] != '/';
    assert LeadingSlashes(u[1..][1..]) == 0;
  }

  /** Without `://&/` and without a leading `/` or `&`, the first two
      clean-up steps change nothing. */
  lemma {:induction false} FirstStepsKeep(t: string)
    requires !Contains(t, "://&/")
    requires |t| > 0 && t[0] != '/' && t[0] != '&'
    ensures ReplaceFirst(t, "://&/", "://") == t
    ensures !StartsWith(t, "&//") && !StartsWith(t, "//")
  {
    assert t[..1] == [t[0]];
  }

  /** Cleaning is the slash normalisation of `t` when the first steps keep it. */
  lemma {:induction false} CleanedIsTwoSlashes(t: string)
    requires !Contains(t, "://&/")
    requires |t| > 0 && t[0] != '/' && t[0] != '&'
    ensures Cleaned(t) == TwoSlashes(t)
  {
    FirstStepsKeep(t);
  }

  /** The clean-up steps leave a well-formed https URL alone. */
  lemma {:induction false} CleanedKeepsHttps(t: string)
    requires !Contains(t, "://&/")
    requires StartsWith(t, "https://") && |t| > 8 && t[8] != '/'
    ensures Cleaned(t) == t
  {
    assert t[0] == 'h';
    CleanedIsTwoSlashes(t);
    assert t[..6] == "https:";
    TwoSlashesAt(t, 6);
    assert "https://" + t[8..] == t;
  }

  /** The clean-up steps leave a well-formed http URL alone. */
  lemma {:induction false} CleanedKeepsHttp(t: string)
    requires !Contains(t, "://&/")
    requires StartsWith(t, "http://") && |t| > 7 && t[7] != '/'
    ensures Cleaned(t) == t
  {
    assert t[0] == 'h';
    CleanedIsTwoSlashes(t);
    assert t[4] == ':';
    assert !StartsWith(t, "https:");
    assert t[..5] == "http:";
    TwoSlashesAt(t, 5);
    assert "http://" + t[7..] == t;
  }

  /** A lower-case `https://` or `http://` prefix passes the scheme test. */
  lemma {:induction false} SchemeIsHttp(t: string)
    requires StartsWith(t, "https://") || StartsWith(t, "http://")
    ensures HttpUrl(t)
  {
    if StartsWith(t, "https://") {
      LowerPrefix(t, "https://");
    } else {
      LowerPrefix(t, "http://");
    }
  }

  /** A reference that cleans up to an http(s) URL without whitespace is that URL. */
  lemma {:induction false} HttpBranch(t: string, fallback: string, origin: string, decode: string -> string)
    requires decode(t) == t && Trim(t) == t && t != ""
    requires HttpUrl(Cleaned(t)) && !HasSpace(Cleaned(t))
    ensures SafeImageUrl(Some(t), fallback, origin, decode) == Cleaned(t)
  {
  }

  /** A trimmed lower-case http(s) URL without whitespace, with one slash
      pair after the scheme and no `://&/`, comes back unchanged. */
  lemma {:induction false} HttpUrlKept(t: string, fallback: string, origin: string, decode: string -> string)
    requires decode(t) == t && Trim(t) == t && !HasSpace(t)
    requires !Contains(t, "://&/")
    requires (StartsWith(t, "https://") && |t| > 8 && t[8] != '/') || (StartsWith(t, "http://") && |t| > 7 && t[7] != '/')
    ensures SafeImageUrl(Some(t), fallback, origin, decode) == t
  {
    if StartsWith(t, "https://") {
      CleanedKeepsHttps(t);
    } else {
      CleanedKeepsHttp(t);
    }
    SchemeIsHttp(t);
    HttpBranch(t, fallback, origin, decode);
  }

  /** The clean-up steps turn `//host` into `https://host`. */
  lemma {:induction false} CleanedProtocolRelative(x: string)
    requires |x| > 0 && x[0] != '/' && !Contains("//" + x, "://&/")
    ensures Cleaned("//" + x) == "https://" + x
  {
    var t := "//" + x;
    assert ReplaceFirst(t, "://&/", "://") == t;
    assert !StartsWith(t, "&//") by { assert t[0] == '/'; }
    assert StartsWith(t, "//") by { assert t[..2] == "//"; }
    var s3 := "https:" + t;
    assert s3 == "https://" + x;
    assert s3[..6] == "https:";
    TwoSlashesAt(s3, 6);
    assert s3[8..] == x;
  }

  lemma {:induction false} HttpsPrefixKeepsNoSpace(x: string)
    requires !HasSpace("//" + x)
    ensures !HasSpace("https://" + x)
  {
    var t := "//" + x;
    var u := "https://" + x;
    forall i | 0 <= i < |u|
      ensures !IsSpace(u[i])
    {
      if i >= 8 {
        assert u[i] == t[i - 6];
      }
    }
  }

  /** A protocol-relative `//host/path` is read as https. */
  lemma {:induction false} ProtocolRelativeIsHttps(x: string, fallback: string, origin: string, decode: string -> string)
    requires var t := "//" + x; decode(t) == t && !HasSpace(t)
    requires |x| > 0 && x[0] != '/' && !Contains("//" + x, "://&/")
    ensures SafeImageUrl(Some("//" + x), fallback, origin, decode) == "https://" + x
  {
    var t := "//" + x;
    var u := "https://" + x;
    assert Trim(t) == t;
    CleanedProtocolRelative(x);
    assert StartsWith(u, "https://");
    SchemeIsHttp(u);
    HttpsPrefixKeepsNoSpace(x);
    HttpBranch(t, fallback, origin, decode);
  }

  /** A reference that does not start with `h` or `H` is not an http(s) URL. */
  lemma {:induction false} NotHttpUrl(t: string)
    requires |t| > 0 && LowerChar(t[0]) != 'h'
    ensures !HttpUrl(t)
  {
    assert Lower(t)[0] != 'h';
  }

  lemma {:induction false} CleanedKeepsOther(t: string)
    requires !Contains(t, "://&/")
    requires |t| > 0 && 'a' <= t[0] <= 'z' && t[0] != 'h'
    ensures Cleaned(t) == t && !HttpUrl(t)
    ensures !StartsWith(t, "/") && !StartsWith(t, "./")
  {
    CleanedIsTwoSlashes(t);
    assert !StartsWith(t, "https:") && !StartsWith(t, "http:") by {
      assert t[0] != 'h';
    }
    NotHttpUrl(t);
    assert !StartsWith(t, "./") && !StartsWith(t, "/") by {
      assert t[0] != '.' && t[0] != '/';
    }
  }

  /** A reference that cleans up to a non-http URL with `://` and no whitespace is kept. */
  lemma {:induction false} OtherBranch(t: string, fallback: string, origin: string, decode: string -> string)
    requires decode(t) == t && Trim(t) == t && t != ""
    requires var s := Cleaned(t);
             !HttpUrl(s) && !StartsWith(s, "/") && !StartsWith(s, "./") && Contains(s, "://") && !HasSpace(s)
    ensures SafeImageUrl(Some(t), fallback, origin, decode) == Cleaned(t)
  {
  }

  /** A reference with another scheme (`ftp://…`, `data://…`) and no
      whitespace is returned unchanged: only http(s) gets the scheme checks. */
  lemma {:induction false} OtherSchemeKept(t: string, fallback: string, origin: string, decode: string -> string)
    requires decode(t) == t && Trim(t) == t && !HasSpace(t)
    requires Contains(t, "://") && !Contains(t, "://&/")
    requires |t| > 0 && 'a' <= t[0] <= 'z' && t[0] != 'h'
    ensures SafeImageUrl(Some(t), fallback, origin, decode) == t
  {
    CleanedKeepsOther(t);
    OtherBranch(t, fallback, origin, decode);
  }

  /** A path starting with one `/` survives the clean-up steps. */
  lemma {:induction false} CleanedKeepsRootPath(t: string)
    requires StartsWith(t, "/") && !StartsWith(t, "//") && !Contains(t, "://&/")
    ensures Cleaned(t) == t && !HttpUrl(t)
  {
    assert ReplaceFirst(t, "://&/", "://") == t;
    assert !StartsWith(t, "&//") by { assert t[0] == '/'; }
    assert !StartsWith(t, "https:") && !StartsWith(t, "http:") by { assert t[0] == '/'; }
    NotHttpUrl(t);
  }

  /** A root-relative path is served from the API origin. */
  lemma {:induction false} RootPathUsesOrigin(t: string, fallback: string, origin: string, decode: string -> string)
    requires decode(t) == t && Trim(t) == t
    requires StartsWith(t, "/") && !StartsWith(t, "//") && !Contains(t, "://&/")
    ensures SafeImageUrl(Some(t), fallback, origin, decode) == OriginBase(origin) + t
  {
    CleanedKeepsRootPath(t);
    assert t != "";
  }

  /** A relative reference (a lower-case first letter other than `h`, no
      `://`) is served from the API origin after one slash. */
  lemma {:induction false} RelativePathUsesOrigin(t: string, fallback: string, origin: string, decode: string -> string)
    requires decode(t) == t && Trim(t) == t
    requires !Contains(t, "://")
    requires |t| > 0 && 'a' <= t[0] <= 'z' && t[0] != 'h'
    ensures SafeImageUrl(Some(t), fallback, origin, decode) == OriginBase(origin) + "/" + t
  {
    if Contains(t, "://&/") {
      assert "://&/" == "://" + "&/";
      ContainsExtended(t, "://", "&/");
    }
    CleanedKeepsOther(t);
    assert LeadingSlashes(t) == 0;
  }

  // ---------------------------------------------------------------------------
  // Price filter of a category section
  // ---------------------------------------------------------------------------

  /** A JavaScript number as the filter sees it. */
  datatype Num = Finite(v: real) | NaN | PosInf | NegInf

  /** `price >= min` */
  predicate AtLeast(price: Num, min: real) {
    match price
    case Finite(v) => v >= min
    case PosInf => true
    case _ => false
  }

  /** `price <= max` */
  predicate AtMost(price: Num, max: real) {
    match price
    case Finite(v) => v <= max
    case NegInf => true
    case _ => false
  }

  /** A bound the filter applies: `Number.isFinite(x) ? x : null`. */
  function AsBound(x: Option<Num>): (b: Option<real>)
    ensures b.Some? <==> x.Some? && x.value.Finite?
  {
    if x.Some? && x.value.Finite? then Some(x.value.v) else None
  }

  datatype Range = Range(min: Option<real>, max: Option<real>)

  /** The `apply` handler: the entered bounds, swapped when the minimum exceeds the maximum. */
  function ApplyBounds(minField: Option<Num>, maxField: Option<Num>): (r: Range)
    ensures r.min.Some? && r.max.Some? ==> r.min.value <= r.max.value
    ensures {AsBound(minField), AsBound(maxField)} == {r.min, r.max}
  {
    var a := AsBound(minField);
    var b := AsBound(maxField);
    if a.Some? && b.Some? && a.value > b.value then Range(b, a) else Range(a, b)
  }

  /** `filterCurrentCategoryByPrice`: a card is shown when every present bound holds. */
  predicate Visible(price: Num, r: Range) {
    (r.min.None? || AtLeast(price, r.min.value)) && (r.max.None? || AtMost(price, r.max.value))
  }

  /** With both bounds entered, a card is shown iff its price lies between
      them, whichever field holds the smaller one. */
  lemma {:induction false} ApplyBoundsOrderFree(lo: real, hi: real, price: Num)
    ensures Visible(price, ApplyBounds(Some(Finite(lo)), Some(Finite(hi))))
            <==> Visible(price, ApplyBounds(Some(Finite(hi)), Some(Finite(lo))))
    ensures lo <= hi ==> (Visible(price, ApplyBounds(Some(Finite(lo)), Some(Finite(hi))))
                          <==> price.Finite? && lo <= price.v <= hi)
  {
  }

  /** The query-string parameters the filter reads at load time. */
  datatype Query = Query(min: Option<string>, precioMin: Option<string>, minimo: Option<string>,
                         max: Option<string>, precioMax: Option<string>, maximo: Option<string>)

  /** `a || b || c` over query values. */
  function FirstOf(a: Option<string>, b: Option<string>, c: Option<string>): (r: Option<string>)
    ensures Truthy(a) ==> r == a
    ensures !Truthy(a) && Truthy(b) ==> r == b
    ensures !Truthy(a) && !Truthy(b) ==> r == c
  {
    if Truthy(a) then a else if Truthy(b) then b else c
  }

  /** A query value present whose `Number` is finite. */
  predicate FiniteParam(raw: Option<string>, number: string -> Num) {
    raw.Some? && number(raw.value).Finite?
  }

  /** `b` is the bound a query value gives: present exactly when the value's
      `Number` is finite, and then that number. */
  predicate BoundFrom(raw: Option<string>, number: string -> Num, b: Option<real>) {
    && (b.Some? <==> FiniteParam(raw, number))
    && (b.Some? ==> b.value == number(raw.value).v)
  }

  /** `readPriceFilterFromURL` followed by the load-time filter call:
      `number` is `Number` on a query value. */
  function LoadRange(q: Query, number: string -> Num): (r: Option<Range>)
    ensures r.Some? ==> r.value.min.Some? || r.value.max.Some?
    // No range at all iff neither the first given minimum nor the first given maximum is a finite number.
    ensures r.None? <==> !FiniteParam(FirstOf(q.min, q.precioMin, q.minimo), number)
                         && !FiniteParam(FirstOf(q.max, q.precioMax, q.maximo), number)
    ensures r.Some? ==> && BoundFrom(FirstOf(q.min, q.precioMin, q.minimo), number, r.value.min)
                        && BoundFrom(FirstOf(q.max, q.precioMax, q.maximo), number, r.value.max)
  {
    var rawMin := FirstOf(q.min, q.precioMin, q.minimo);
    var rawMax := FirstOf(q.max, q.precioMax, q.maximo);
    var min := AsBound(if rawMin.Some? then Some(number(rawMin.value)) else None);
    var max := AsBound(if rawMax.Some? then Some(number(rawMax.value)) else None);
    if min.None? && max.None? then None else Some(Range(min, max))
  }

  /** Loaded from the address bar, inverted bounds are not swapped: every
      card is hidden. */
  lemma {:induction false} LoadedInvertedRangeHidesAll(q: Query, number: string -> Num, price: Num)
    requires var r := LoadRange(q, number);
             r.Some? && r.value.min.Some? && r.value.max.Some? && r.value.min.value > r.value.max.value
    ensures !Visible(price, LoadRange(q, number).value)
  {
  }

  /** `?min=500&max=100`: both bounds are read as given and no card is shown. */
  lemma {:induction false} InvertedQueryHidesAll(number: string -> Num, price: Num)
    requires number("500") == Finite(500.0) && number("100") == Finite(100.0)
    ensures LoadRange(Query(Some("500"), None, None, Some("100"), None, None), number)
            == Some(Range(Some(500.0), Some(100.0)))
    ensures !Visible(price, Range(Some(500.0), Some(100.0)))
  {
    var q := Query(Some("500"), None, None, Some("100"), None, None);
    assert FirstOf(q.min, q.precioMin, q.minimo) == Some("500");
    assert FirstOf(q.max, q.precioMax, q.maximo) == Some("100");
    LoadedInvertedRangeHidesAll(q, number, price);
  }

  /** The load-time range put through the same ordering as the `apply` handler. */
  function LoadRangeOrdered(q: Query, number: string -> Num): (r: Option<Range>)
    ensures r.Some? ==> r.value.min.Some? || r.value.max.Some?
    ensures r.Some? && r.value.min.Some? && r.value.max.Some? ==> r.value.min.value <= r.value.max.value
    ensures r.None? <==> LoadRange(q, number).None?
  {
    match LoadRange(q, number)
    case None => None
    case Some(loaded) =>
      var a, b := loaded.min, loaded.max;
      Some(if a.Some? && b.Some? && a.value > b.value then Range(b, a) else Range(a, b))
  }

  /** Ordered, a loaded range with both bounds shows exactly the cards priced between them. */
  lemma {:induction false} LoadRangeOrderedShowsBetween(q: Query, number: string -> Num, price: Num)
    requires var r := LoadRange(q, number);
             r.Some? && r.value.min.Some? && r.value.max.Some?
    ensures var loaded := LoadRange(q, number).value;
            var lo := if loaded.min.value <= loaded.max.value then loaded.min.value else loaded.max.value;
            var hi := if loaded.min.value <= loaded.max.value then loaded.max.value else loaded.min.value;
            Visible(price, LoadRangeOrdered(q, number).value) <==> price.Finite? && lo <= price.v <= hi
  {
  }
}
