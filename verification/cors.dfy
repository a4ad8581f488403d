/**
 * The CORS origin policy of the API server: the allowed-origins list read
 * from the environment, the translation of `*` wildcard entries into
 * anchored case-insensitive patterns, the per-request origin decision and
 * the status the central error handler gives a rejected origin.
 */
module Cors {
  import opened Wrappers
  import opened Text

  // ---------------------------------------------------------------------------
  // Wildcard patterns (`toRegex`)
  // ---------------------------------------------------------------------------

  /** One element of a compiled pattern: a literal character (`.` and `/`
      are escaped, so they are literals too) or `.*` for a `*`. */
  datatype Token = Lit(c: char) | AnyRun

  /** The characters `.` does not match in a JavaScript regular expression. */
  predicate IsLineTerminator(c: char) {
    c == '\n' || c == '\r' || c == '\U{2028}' || c == '\U{2029}'
  }

  predicate NoLineTerminator(s: string) {
    forall i | 0 <= i < |s| :: !IsLineTerminator(s[i])
  }

  /** The pattern with every `*` turned into `.*` and every other character kept literal. */
  function Compile(p: string): (t: seq<Token>)
    ensures |t| == |p|
    ensures forall i | 0 <= i < |p| :: t[i] == (if p[i] == '*' then AnyRun else Lit(p[i]))
  {
    seq(|p|, i requires 0 <= i < |p| => if p[i] == '*' then AnyRun else Lit(p[i]))
  }

  /** `toRegex(pattern)`: no pattern for an entry without `*`, which then
      belongs to the exact-match set. */
  function ToRegex(p: string): (rx: Option<seq<Token>>)
    ensures rx.None? <==> '*' !in p
    ensures rx.Some? ==> |rx.value| == |p|
    ensures rx.Some? ==> forall i | 0 <= i < |p| :: (rx.value[i] == AnyRun <==> p[i] == '*')
  {
    if '*' in p then Some(Compile(p)) else None
  }

  /** `rx.test(s)` for `new RegExp('^' + escaped + '$', 'i')`: the whole of
      `s` matches, letters compared without regard to case. */
  predicate Test(t: seq<Token>, s: string)
    // A lone `*` matches exactly the strings without line terminators.
    ensures t == [AnyRun] ==> (Test(t, s) <==> forall i | 0 <= i < |s| :: !IsLineTerminator(s[i]))
    decreases |t| + |s|
  {
    if t == [] then s == []
    else match t[0]
      case AnyRun => Test(t[1..], s) || (|s| > 0 && !IsLineTerminator(s[0]) && Test(t, s[1..]))
      case Lit(c) => |s| > 0 && SameIgnoringCase(c, s[0]) && Test(t[1..], s[1..])
  }

  /** A pattern without wildcards matches exactly the strings equal to it up to case. */
  lemma {:induction false} LiteralTokensMatchEqual(t: seq<Token>, s: string)
    requires forall i | 0 <= i < |t| :: t[i].Lit?
    ensures Test(t, s) <==> |t| == |s| && forall i | 0 <= i < |t| :: SameIgnoringCase(t[i].c, s[i])
    decreases |t|
  {
    if t != [] && s != [] {
      LiteralTokensMatchEqual(t[1..], s[1..]);
      if |t| == |s| && forall i | 0 <= i < |t| :: SameIgnoringCase(t[i].c, s[i]) {
        assert forall i | 0 <= i < |t| - 1 :: SameIgnoringCase(t[1..][i].c, s[1..][i]) by {
          forall i | 0 <= i < |t| - 1
            ensures SameIgnoringCase(t[1..][i].c, s[1..][i])
          {
            assert t[1..][i] == t[i + 1] && s[1..][i] == s[i + 1];
          }
        }
      }
      if Test(t, s) {
        forall i | 0 <= i < |t|
          ensures SameIgnoringCase(t[i].c, s[i])
        {
          if i > 0 {
            assert t[1..][i - 1] == t[i] && s[1..][i - 1] == s[i];
          }
        }
      }
    }
  }

  /** One step of a leading `.*`: stop here, or swallow one character that is not a line terminator. */
  lemma {:induction false} StarStep(t: seq<Token>, s: string)
    ensures Test([AnyRun] + t, s) <==>
              Test(t, s) || (|s| > 0 && !IsLineTerminator(s[0]) && Test([AnyRun] + t, s[1..]))
  {
    var st := [AnyRun] + t;
    assert st[0] == AnyRun && st[1..] == t;
  }

  /** A match of `.*` followed by `t` splits into a run and a match of `t`. */
  lemma {:induction false} StarMatchSplits(t: seq<Token>, s: string)
    requires Test([AnyRun] + t, s)
    ensures exists k | 0 <= k <= |s| :: NoLineTerminator(s[..k]) && Test(t, s[k..])
    decreases |s|
  {
    StarStep(t, s);
    if Test(t, s) {
      assert s[..0] == [] && s[0..] == s;
    } else {
      StarMatchSplits(t, s[1..]);
      var k :| 0 <= k <= |s| - 1 && NoLineTerminator(s[1..][..k]) && Test(t, s[1..][k..]);
      assert s[1..][k..] == s[k + 1..];
      var run, tail := s[..k + 1], s[1..][..k];
      forall i | 0 <= i < k + 1
        ensures !IsLineTerminator(run[i])
      {
        if i > 0 {
          assert run[i] == tail[i - 1];
        }
      }
      assert NoLineTerminator(s[..k + 1]) && Test(t, s[k + 1..]);
    }
  }

  /** A run without line terminators followed by a match of `t` matches `.*` then `t`. */
  lemma {:induction false} RunThenMatch(t: seq<Token>, s: string, k: nat)
    requires k <= |s| && NoLineTerminator(s[..k]) && Test(t, s[k..])
    ensures Test([AnyRun] + t, s)
    decreases k
  {
    StarStep(t, s);
    if k == 0 {
      assert s[0..] == s;
    } else {
      assert s[..k][0] == s[0];
      assert s[1..][..k - 1] == s[1..k];
      var run, tail := s[..k], s[1..][..k - 1];
      forall i | 0 <= i < k - 1
        ensures !IsLineTerminator(tail[i])
      {
        assert tail[i] == run[i + 1];
      }
      assert s[1..][k - 1..] == s[k..];
      RunThenMatch(t, s[1..], k - 1);
    }
  }

  /** A leading `.*` absorbs any run of characters other than line terminators. */
  lemma {:induction false} StarAbsorbsPrefix(t: seq<Token>, s: string)
    ensures Test([AnyRun] + t, s) <==> exists k | 0 <= k <= |s| :: NoLineTerminator(s[..k]) && Test(t, s[k..])
  {
    if Test([AnyRun] + t, s) {
      StarMatchSplits(t, s);
    }
    if exists k | 0 <= k <= |s| :: NoLineTerminator(s[..k]) && Test(t, s[k..]) {
      var k :| 0 <= k <= |s| && NoLineTerminator(s[..k]) && Test(t, s[k..]);
      RunThenMatch(t, s, k);
    }
  }

  /** `*.a` matches `x.A` (any prefix, case ignored) but not `xba`: the dot is literal. */
  lemma {:induction false} WildcardExample()
    ensures Test(Compile("*.a"), "x.A")
    ensures !Test(Compile("*.a"), "xba")
  {
    WildcardAdmits();
    WildcardRejects();
  }

  lemma {:induction false} WildcardAdmits()
    ensures Test([AnyRun, Lit('.'), Lit('a')], "x.A")
  {
    StarAbsorbsPrefix([Lit('.'), Lit('a')], "x.A");
    assert "x.A"[..1] == "x" && "x.A"[1..] == ".A";
    assert Test([Lit('a')], "A");
  }

  lemma {:induction false} WildcardRejects()
    ensures !Test([AnyRun, Lit('.'), Lit('a')], "xba")
  {
    StarAbsorbsPrefix([Lit('.'), Lit('a')], "xba");
    forall k | 0 <= k <= 3
      ensures !Test([Lit('.'), Lit('a')], "xba"[k..])
    {
      LiteralTokensMatchEqual([Lit('.'), Lit('a')], "xba"[k..]);
    }
  }

  // ---------------------------------------------------------------------------
  // The allowed-origins list
  // ---------------------------------------------------------------------------

  /** The origins allowed when `CORS_ALLOWED_ORIGINS` is unset or empty. */
  const DefaultOrigins: seq<string> := [
    "http://localhost:8080",
    "http://127.0.0.1:5500",
    "http://127.0.0.1:5501",
    "http://localhost:3000",
    "http://127.0.0.1:3000"
  ]

  /** `.map(o => o.trim()).filter(Boolean)` */
  function TrimmedEntries(parts: seq<string>): (r: seq<string>)
    ensures forall i | 0 <= i < |r| :: r[i] != "" && Trim(r[i]) == r[i]
    ensures |r| <= |parts|
  {
    if parts == [] then []
    else
      var rest := TrimmedEntries(parts[1..]);
      var head := Trim(parts[0]);
      if head == "" then rest
      else
        TrimIdempotent(parts[0]);
        [head] + rest
  }

  /** The entries are exactly the non-empty trimmed parts. */
  lemma {:induction false} TrimmedEntryMember(parts: seq<string>, o: string)
    ensures o in TrimmedEntries(parts) <==> o != "" && exists i | 0 <= i < |parts| :: Trim(parts[i]) == o
  {
    if parts != [] {
      var tail := parts[1..];
      TrimmedEntryMember(tail, o);
      assert forall i | 0 <= i < |tail| :: tail[i] == parts[i + 1];
      if o != "" && exists i | 0 <= i < |parts| :: Trim(parts[i]) == o {
        var i :| 0 <= i < |parts| && Trim(parts[i]) == o;
        if i > 0 {
          assert Trim(tail[i - 1]) == o;
        }
      }
    }
  }

  lemma {:induction false} TrimmedEntryMembers(parts: seq<string>)
    ensures forall o :: o in TrimmedEntries(parts) <==> o != "" && exists i | 0 <= i < |parts| :: Trim(parts[i]) == o
  {
    forall o ensures o in TrimmedEntries(parts) <==> o != "" && exists i | 0 <= i < |parts| :: Trim(parts[i]) == o {
      TrimmedEntryMember(parts, o);
    }
  }

  /** `allowedOrigins`: the comma-separated environment list, or the default list. */
  function AllowedOrigins(env: Option<string>): (r: seq<string>)
    ensures !Truthy(env) ==> r == DefaultOrigins
    ensures Truthy(env) ==> forall o :: o in r <==> o != "" && exists p | p in Split(env.value, ',') :: Trim(p) == o
  {
    if Truthy(env) then
      TrimmedEntryMembers(Split(env.value, ','));
      TrimmedEntries(Split(env.value, ','))
    else DefaultOrigins
  }

  /** Every configured entry is a non-empty, trimmed string without a comma. */
  lemma {:induction false} ConfiguredEntries(env: Option<string>)
    requires Truthy(env)
    ensures var r := AllowedOrigins(env);
            forall i | 0 <= i < |r| :: r[i] != "" && ',' !in r[i] && Trim(r[i]) == r[i]
  {
    var parts := Split(env.value, ',');
    var r := TrimmedEntries(parts);
    TrimmedEntryMembers(parts);
    forall i | 0 <= i < |r|
      ensures ',' !in r[i]
    {
      assert r[i] in r;
      var j :| 0 <= j < |parts| && Trim(parts[j]) == r[i];
      TrimIsInfix(parts[j]);
      assert ',' !in parts[j];
    }
  }

  lemma {:induction false} TrimIsInfix(s: string)
    ensures forall c | c in Trim(s) :: c in s
  {
    var a := LeadingSpaces(s);
    var r := Trim(s);
    forall c | c in r
      ensures c in s
    {
      var i :| 0 <= i < |r| && r[i] == c;
      assert s[a + i] == c;
    }
  }

  // ---------------------------------------------------------------------------
  // The configured policy and the per-request decision
  // ---------------------------------------------------------------------------

  /** The two environment variables the policy reads. */
  datatype Env = Env(allowAll: Option<string>, allowedOrigins: Option<string>)

  /** `corsAllowAll`, `allowedOriginsSet` and `allowedOriginRegexps`. */
  datatype Policy = Policy(allowAll: bool, exact: set<string>, patterns: seq<seq<Token>>)

  /** The compiled patterns of the wildcard entries, in list order. */
  function Patterns(origins: seq<string>): (ps: seq<seq<Token>>)
    ensures |ps| <= |origins|
  {
    if origins == [] then []
    else
      match ToRegex(origins[0])
      case Some(rx) => [rx] + Patterns(origins[1..])
      case None => Patterns(origins[1..])
  }

  /** The policy the server builds at start-up. */
  function Configure(env: Env): (p: Policy)
    ensures p.allowAll <==> env.allowAll == Some("true") || env.allowedOrigins == Some("*")
    ensures forall o :: o in p.exact <==> o in AllowedOrigins(env.allowedOrigins) && '*' !in o
  {
    var origins := AllowedOrigins(env.allowedOrigins);
    Policy(env.allowAll == Some("true") || env.allowedOrigins == Some("*"), ExactSet(origins), Patterns(origins))
  }

  /** The entries without a wildcard. */
  function ExactSet(origins: seq<string>): (e: set<string>)
    ensures forall o :: o in e <==> o in origins && '*' !in o
  {
    set o | o in origins && '*' !in o
  }

  /** `allowedOriginRegexps.some(rx => rx.test(origin))` */
  predicate AnyTest(ps: seq<seq<Token>>, s: string) {
    exists i | 0 <= i < |ps| :: Test(ps[i], s)
  }

  /** The message the origin callback rejects with. */
  const CorsRejection := "No permitido por CORS"

  datatype Verdict = Allowed | Rejected(message: string)

  /** The `origin` option: `true` in allow-all mode, otherwise the callback. */
  function Decide(p: Policy, origin: Option<string>): (v: Verdict)
    ensures v.Rejected? ==> v.message == CorsRejection
    ensures !Truthy(origin) ==> v == Allowed
    ensures p.allowAll ==> v == Allowed
  {
    if p.allowAll then Allowed
    else if !Truthy(origin) then Allowed
    else if origin.value in p.exact then Allowed
    else if AnyTest(p.patterns, origin.value) then Allowed
    else Rejected(CorsRejection)
  }

  /** An entry of the list admits an origin: literally when it has no `*`,
      by its wildcard pattern otherwise. */
  predicate Admits(entry: string, origin: string) {
    if '*' in entry then Test(Compile(entry), origin) else entry == origin
  }

  /** Some wildcard entry's pattern matches `s`. */
  predicate SomeWildcardMatches(origins: seq<string>, s: string) {
    exists j | 0 <= j < |origins| :: '*' in origins[j] && Test(Compile(origins[j]), s)
  }

  /** The compiled patterns match exactly what the wildcard entries match. */
  lemma {:induction false} PatternsMatchWildcards(origins: seq<string>, s: string)
    ensures AnyTest(Patterns(origins), s) <==> SomeWildcardMatches(origins, s)
  {
    if origins != [] {
      var tail := origins[1..];
      PatternsMatchWildcards(tail, s);
      var ps, rest := Patterns(origins), Patterns(tail);
      if SomeWildcardMatches(tail, s) {
        var j :| 0 <= j < |tail| && '*' in tail[j] && Test(Compile(tail[j]), s);
        assert origins[j + 1] == tail[j];
      }
      if SomeWildcardMatches(origins, s) && !SomeWildcardMatches(tail, s) {
        var j :| 0 <= j < |origins| && '*' in origins[j] && Test(Compile(origins[j]), s);
        assert ps[0] == Compile(origins[0]);
      }
      if '*' in origins[0] {
        assert ps == [Compile(origins[0])] + rest;
        if AnyTest(rest, s) {
          var i :| 0 <= i < |rest| && Test(rest[i], s);
          assert ps[i + 1] == rest[i];
        }
        if AnyTest(ps, s) && !Test(ps[0], s) {
          var i :| 0 <= i < |ps| && Test(ps[i], s);
          assert rest[i - 1] == ps[i];
        }
      }
    }
  }

  /** The decision in terms of the configured list: a non-empty origin is
      allowed iff allow-all mode is on or some entry of the list admits it. */
  lemma {:induction false} OriginDecision(env: Env, origin: string)
    requires origin != ""
    ensures var origins := AllowedOrigins(env.allowedOrigins);
            Decide(Configure(env), Some(origin)) == Allowed
            <==> (env.allowAll == Some("true") || env.allowedOrigins == Some("*")
                  || exists j | 0 <= j < |origins| :: Admits(origins[j], origin))
  {
    var origins := AllowedOrigins(env.allowedOrigins);
    PatternsMatchWildcards(origins, origin);
    ListedDecision(Configure(env).allowAll, origins, origin);
  }

  lemma {:induction false} ListedDecision(allowAll: bool, origins: seq<string>, origin: string)
    requires origin != ""
    requires AnyTest(Patterns(origins), origin) <==> SomeWildcardMatches(origins, origin)
    ensures Decide(Policy(allowAll, ExactSet(origins), Patterns(origins)), Some(origin)) == Allowed
            <==> allowAll || exists j | 0 <= j < |origins| :: Admits(origins[j], origin)
  {
    if exists j | 0 <= j < |origins| :: Admits(origins[j], origin) {
      var j :| 0 <= j < |origins| && Admits(origins[j], origin);
      if '*' !in origins[j] {
        assert origin in ExactSet(origins);
      }
    }
    if origin in ExactSet(origins) {
      var j :| 0 <= j < |origins| && origins[j] == origin;
      assert Admits(origins[j], origin);
    }
    if SomeWildcardMatches(origins, origin) {
      var j :| 0 <= j < |origins| && '*' in origins[j] && Test(Compile(origins[j]), origin);
      assert Admits(origins[j], origin);
    }
  }

  // ---------------------------------------------------------------------------
  // The central error handler
  // ---------------------------------------------------------------------------

  datatype ErrorReply = ErrorReply(status: int, error: string)

  /** The status and message the error-handling middleware answers an error with. */
  function HandleError(message: string): (r: ErrorReply)
    ensures r.status == 403 <==> message == CorsRejection
    ensures r.status == 403 || r.status == 500
    ensures r.status == 500 ==> r.error == "Algo salió mal en el servidor. Por favor, inténtalo de nuevo más tarde."
  {
    if message == CorsRejection then ErrorReply(403, "Acceso denegado: Origen no permitido.")
    else ErrorReply(500, "Algo salió mal en el servidor. Por favor, inténtalo de nuevo más tarde.")
  }

  /** Every rejected origin is answered with 403. */
  lemma {:induction false} RejectedOriginIsForbidden(p: Policy, origin: Option<string>)
    requires Decide(p, origin).Rejected?
    ensures HandleError(Decide(p, origin).message).status == 403
    ensures Truthy(origin) && !p.allowAll && origin.value !in p.exact
  {
  }
}
