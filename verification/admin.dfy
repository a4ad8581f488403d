/**
 * The admin panel's client helpers, in both generations of the panel
 * script: the HTML escaper, the message an API error is shown with, the
 * request wrapper with its one token refresh and its base-URL failover, and
 * the product form's checks and payload.
 */
module AdminClient {
  import opened Wrappers
  import opened Text
  import Store
  import Products

  // ---------------------------------------------------------------------------
  // escapeHtml
  // ---------------------------------------------------------------------------

  /** `s.replace(/c/g, rep)` for one character. */
  function ReplaceChar(s: string, c: char, rep: string): (r: string)
    ensures forall x | x in r :: (x in s && x != c) || x in rep
  {
    if s == [] then []
    else (if s[0] == c then rep else [s[0]]) + ReplaceChar(s[1..], c, rep)
  }

  lemma {:induction false} ReplaceCharAppend(a: string, b: string, c: char, rep: string)
    ensures ReplaceChar(a + b, c, rep) == ReplaceChar(a, c, rep) + ReplaceChar(b, c, rep)
  {
    if a == [] {
      assert a + b == b;
    } else {
      assert (a + b)[0] == a[0] && (a + b)[1..] == a[1..] + b;
      ReplaceCharAppend(a[1..], b, c, rep);
    }
  }

  lemma {:induction false} ReplaceCharAbsent(s: string, c: char, rep: string)
    requires c !in s
    ensures ReplaceChar(s, c, rep) == s
  {
    if s != [] {
      assert s == [s[0]] + s[1..];
      ReplaceCharAbsent(s[1..], c, rep);
    }
  }

  /** `escapeHtml(str)`: five global replacements, `&` first. */
  function EscapeHtml(s: string): (r: string)
    ensures forall x | x in r :: !Markup(x)
  {
    var s1 := ReplaceChar(s, '&', "&amp;");
    var s2 := ReplaceChar(s1, '<', "&lt;");
    var s3 := ReplaceChar(s2, '>', "&gt;");
    var s4 := ReplaceChar(s3, '"', "&quot;");
    ReplaceChar(s4, '\'', "&#039;")
  }

  /** The characters markup must not contain unescaped. */
  predicate Markup(c: char) {
    c == '<' || c == '>' || c == '"' || c == '\''
  }

  /** The entity for one character, the character itself when it needs none. */
  function Entity(c: char): (e: string)
    ensures forall i | 0 <= i < |e| :: !Markup(e[i])
    ensures |e| >= 1 && (e[0] == '&' <==> c == '&' || Markup(c))
  {
    if c == '&' then "&amp;"
    else if c == '<' then "&lt;"
    else if c == '>' then "&gt;"
    else if c == '"' then "&quot;"
    else if c == '\'' then "&#039;"
    else [c]
  }

  /** The reference encoding: each character replaced by its entity. */
  function EntityEncode(s: string): (r: string)
    ensures forall i | 0 <= i < |r| :: !Markup(r[i])
  {
    if s == [] then [] else Entity(s[0]) + EntityEncode(s[1..])
  }

  lemma {:induction false} ReplaceOne(d: char, c: char, rep: string)
    ensures ReplaceChar([d], c, rep) == if d == c then rep else [d]
  {
    assert [d][1..] == [];
  }

  /** One character through the five replacements. */
  lemma {:induction false} EscapeOneChar(c: char)
    ensures EscapeHtml([c]) == Entity(c)
  {
    if c == '&' { EscapeAmp(); }
    else if c == '<' { EscapeLt(); }
    else if c == '>' { EscapeGt(); }
    else if c == '"' { EscapeQuot(); }
    else if c == '\'' { EscapeApos(); }
    else { EscapePlain(c); }
  }

  lemma {:induction false} EscapeAmp()
    ensures EscapeHtml("&") == "&amp;"
  {
    var e := "&amp;";
    ReplaceOne('&', '&', e);
    assert '<' !in e && '>' !in e && '"' !in e && '\'' !in e;
    ReplaceCharAbsent(e, '<', "&lt;");
    ReplaceCharAbsent(e, '>', "&gt;");
    ReplaceCharAbsent(e, '"', "&quot;");
    ReplaceCharAbsent(e, '\'', "&#039;");
    assert EscapeHtml("&") == ReplaceChar(ReplaceChar(ReplaceChar(ReplaceChar(e, '<', "&lt;"), '>', "&gt;"), '"', "&quot;"), '\'', "&#039;");
  }

  lemma {:induction false} EscapeLt()
    ensures EscapeHtml("<") == "&lt;"
  {
    var e := "&lt;";
    ReplaceOne('<', '&', "&amp;");
    ReplaceOne('<', '<', e);
    assert '>' !in e && '"' !in e && '\'' !in e;
    ReplaceCharAbsent(e, '>', "&gt;");
    ReplaceCharAbsent(e, '"', "&quot;");
    ReplaceCharAbsent(e, '\'', "&#039;");
    assert EscapeHtml("<") == ReplaceChar(ReplaceChar(ReplaceChar(e, '>', "&gt;"), '"', "&quot;"), '\'', "&#039;");
  }

  lemma {:induction false} EscapeGt()
    ensures EscapeHtml(">") == "&gt;"
  {
    var e := "&gt;";
    ReplaceOne('>', '&', "&amp;");
    ReplaceOne('>', '<', "&lt;");
    ReplaceOne('>', '>', e);
    assert '"' !in e && '\'' !in e;
    ReplaceCharAbsent(e, '"', "&quot;");
    ReplaceCharAbsent(e, '\'', "&#039;");
    assert EscapeHtml(">") == ReplaceChar(ReplaceChar(e, '"', "&quot;"), '\'', "&#039;");
  }

  lemma {:induction false} EscapeQuot()
    ensures EscapeHtml("\"") == "&quot;"
  {
    var e := "&quot;";
    ReplaceOne('"', '&', "&amp;");
    ReplaceOne('"', '<', "&lt;");
    ReplaceOne('"', '>', "&gt;");
    ReplaceOne('"', '"', e);
    assert '\'' !in e;
    ReplaceCharAbsent(e, '\'', "&#039;");
    assert EscapeHtml("\"") == ReplaceChar(e, '\'', "&#039;");
  }

  lemma {:induction false} EscapeApos()
    ensures EscapeHtml("'") == "&#039;"
  {
    ReplaceOne('\'', '&', "&amp;");
    ReplaceOne('\'', '<', "&lt;");
    ReplaceOne('\'', '>', "&gt;");
    ReplaceOne('\'', '"', "&quot;");
    ReplaceOne('\'', '\'', "&#039;");
  }

  lemma {:induction false} EscapePlain(c: char)
    requires c != '&' && !Markup(c)
    ensures EscapeHtml([c]) == [c]
  {
    ReplaceOne(c, '&', "&amp;");
    ReplaceOne(c, '<', "&lt;");
    ReplaceOne(c, '>', "&gt;");
    ReplaceOne(c, '"', "&quot;");
    ReplaceOne(c, '\'', "&#039;");
  }

  lemma {:induction false} EscapeHtmlAppend(a: string, b: string)
    ensures EscapeHtml(a + b) == EscapeHtml(a) + EscapeHtml(b)
  {
    var a1, b1 := ReplaceChar(a, '&', "&amp;"), ReplaceChar(b, '&', "&amp;");
    ReplaceCharAppend(a, b, '&', "&amp;");
    var a2, b2 := ReplaceChar(a1, '<', "&lt;"), ReplaceChar(b1, '<', "&lt;");
    ReplaceCharAppend(a1, b1, '<', "&lt;");
    var a3, b3 := ReplaceChar(a2, '>', "&gt;"), ReplaceChar(b2, '>', "&gt;");
    ReplaceCharAppend(a2, b2, '>', "&gt;");
    var a4, b4 := ReplaceChar(a3, '"', "&quot;"), ReplaceChar(b3, '"', "&quot;");
    ReplaceCharAppend(a3, b3, '"', "&quot;");
    ReplaceCharAppend(a4, b4, '\'', "&#039;");
  }

  /** Because `&` is replaced first, no entity is escaped twice: the chain
      of replacements is the per-character entity encoding. */
  lemma {:induction false} EscapeHtmlIsEntityEncode(s: string)
    ensures EscapeHtml(s) == EntityEncode(s)
  {
    if s != [] {
      assert s == [s[0]] + s[1..];
      EscapeHtmlAppend([s[0]], s[1..]);
      EscapeOneChar(s[0]);
      EscapeHtmlIsEntityEncode(s[1..]);
    } else {
      assert EscapeHtml(s) == [];
    }
  }

  /** Escaped text holds no `<`, `>`, `"` or `'`. */
  lemma {:induction false} NoMarkupAfterEscape(s: string)
    ensures forall i | 0 <= i < |EscapeHtml(s)| :: !Markup(EscapeHtml(s)[i])
  {
    EscapeHtmlIsEntityEncode(s);
  }

  /** How a browser reads the five entities back (anything else is literal). */
  function Unescape(s: string): string
    decreases |s|
  {
    if s == [] then []
    else if s[0] != '&' then [s[0]] + Unescape(s[1..])
    else if StartsWith(s, "&amp;") then ['&'] + Unescape(s[5..])
    else if StartsWith(s, "&lt;") then ['<'] + Unescape(s[4..])
    else if StartsWith(s, "&gt;") then ['>'] + Unescape(s[4..])
    else if StartsWith(s, "&quot;") then ['"'] + Unescape(s[6..])
    else if StartsWith(s, "&#039;") then ['\''] + Unescape(s[6..])
    else ['&'] + Unescape(s[1..])
  }

  lemma {:induction false} UnescapeEntity(c: char, rest: string)
    ensures Unescape(Entity(c) + rest) == [c] + Unescape(rest)
  {
    var e := Entity(c);
    if c == '&' {
      UnescapeNamed(e, rest, 5);
    } else if c == '<' {
      Differs(e + rest, "&amp;", 1);
      UnescapeNamed(e, rest, 4);
    } else if c == '>' {
      Differs(e + rest, "&amp;", 1);
      Differs(e + rest, "&lt;", 1);
      UnescapeNamed(e, rest, 4);
    } else if c == '"' {
      Differs(e + rest, "&amp;", 1);
      Differs(e + rest, "&lt;", 1);
      Differs(e + rest, "&gt;", 1);
      UnescapeNamed(e, rest, 6);
    } else if c == '\'' {
      Differs(e + rest, "&amp;", 1);
      Differs(e + rest, "&lt;", 1);
      Differs(e + rest, "&gt;", 1);
      Differs(e + rest, "&quot;", 1);
      UnescapeNamed(e, rest, 6);
    } else {
      assert ([c] + rest)[1..] == rest;
    }
  }

  /** `s` does not start with `p` when they differ at position `k`. */
  lemma Differs(s: string, p: string, k: nat)
    requires k < |p| && k < |s| && s[k] != p[k]
    ensures !StartsWith(s, p)
  {
    if |p| <= |s| {
      assert s[..|p|][k] == s[k];
    }
  }

  /** An entity of length `n` at the front is read as its prefix and skipped. */
  lemma UnescapeNamed(e: string, rest: string, n: nat)
    requires |e| == n && n >= 1
    ensures StartsWith(e + rest, e) && (e + rest)[n..] == rest && (e + rest)[0] == e[0]
  {
    assert (e + rest)[..n] == e;
  }

  /** Unescaping the escaped text gives the text back. */
  lemma {:induction false} EscapeRoundTrip(s: string)
    ensures Unescape(EscapeHtml(s)) == s
  {
    EscapeHtmlIsEntityEncode(s);
    EncodeRoundTrip(s);
  }

  lemma {:induction false} EncodeRoundTrip(s: string)
    ensures Unescape(EntityEncode(s)) == s
  {
    if s != [] {
      UnescapeEntity(s[0], EntityEncode(s[1..]));
      EncodeRoundTrip(s[1..]);
      assert s == [s[0]] + s[1..];
    }
  }

  // ---------------------------------------------------------------------------
  // The message of a failed request
  // ---------------------------------------------------------------------------

  /** The parsed JSON body of an error response: `error`, `message`, and
      `errors` when it is an array (each entry's `msg`, if any). */
  datatype Payload = Payload(error: Option<string>, message: Option<string>, errors: Option<seq<Option<string>>>)

  /** `errors[0].msg` when `error` is falsy and `errors` is a non-empty array. */
  predicate FirstEntryWins(data: Option<Payload>) {
    && data.Some? && !Truthy(data.value.error)
    && data.value.errors.Some? && |data.value.errors.value| > 0 && Truthy(data.value.errors.value[0])
  }

  /** The text `apiFetch` throws for a non-2xx response; `data` is absent when
      the body is not JSON. */
  function ErrorMessage(data: Option<Payload>, status: int): (msg: string)
    ensures msg != ""
    ensures data.Some? && Truthy(data.value.error) ==> msg == data.value.error.value
    ensures FirstEntryWins(data) ==> msg == data.value.errors.value[0].value
    ensures !FirstEntryWins(data) && !(data.Some? && Truthy(data.value.error)) ==>
              msg == (if data.Some? && Truthy(data.value.message) then data.value.message.value
                      else "Error " + IntToString(status))
  {
    var base := if data.Some? && Truthy(data.value.error) then data.value.error.value
                else if data.Some? && Truthy(data.value.message) then data.value.message.value
                else "Error " + IntToString(status);
    if FirstEntryWins(data) then data.value.errors.value[0].value else base
  }

  /** The JSON body the product handlers send. */
  function ProductJson(r: Products.Reply): Payload {
    match r
    case CreatedId(_) => Payload(None, None, None)
    case Message(text) => Payload(None, Some(text), None)
    case ErrorMessage(error) => Payload(Some(error), None, None)
    case Invalid(errors) => Payload(None, None, Some(seq(|errors|, i requires 0 <= i < |errors| => Some(errors[i].msg))))
  }

  /** A rejected product body is shown with the first failing check's
      message; an empty name, for one, reads "Name is required". */
  lemma {:induction false} ShowsFirstValidationMessage(db: Store.Db, p: Products.ProductInput, isURL: string -> bool)
    requires !Products.ValidProduct(p, isURL)
    ensures var reply := Products.CreateProduct(db, p, isURL).1;
            var errs := Products.ProductErrors(p, isURL);
            && reply.status == 400 && |errs| > 0
            && ErrorMessage(Some(ProductJson(reply.reply)), reply.status) == errs[0].msg
            && (Store.Trimmed(p.name) == "" ==> errs[0].msg == "Name is required")
  {
    var errs := Products.ProductErrors(p, isURL);
    var json := ProductJson(Products.Invalid(errs));
    Products.ProductErrorsExplained(p, isURL);
    if Store.Trimmed(p.name) == "" {
      Products.EmptyNameFirst(p, isURL);
    }
    assert json.errors.value[0] == Some(errs[0].msg);
  }

  // ---------------------------------------------------------------------------
  // apiFetch: base failover and the one refresh-and-retry
  // ---------------------------------------------------------------------------

  /** frontend/admin.js clears the session on a final 401/403; backend/admin.js does not. */
  datatype Panel = CurrentPanel | LegacyPanel

  /** What one `fetch` yields: a network failure, or a status and a body that may not be JSON. */
  datatype Outcome = Unreachable | Reply(status: int, body: Option<Payload>)

  /** The observable steps of a request. */
  datatype Event = Fetch(base: nat) | RefreshToken | ClearTokens | ToLogin

  /** Why a request fails: the error `fetch` itself rejects with, or an `Error(message)`. */
  datatype Failure = FetchRejected | Thrown(message: string)

  datatype Call = Call(events: seq<Event>, baseIdx: nat, result: Result<Option<Payload>, Failure>)

  const Offline := "No se pudo conectar con el servidor."

  /** The candidate list of frontend/admin.js: the configured base, the
      page's own http(s) origin unless it is a static dev server, then the
      two local API addresses. */
  function CurrentCandidates(apiBase: Option<string>, origin: Option<string>, devStatic: bool): (c: seq<string>)
    ensures 2 <= |c| <= 4
    ensures c[|c| - 2..] == LocalBases
    ensures Truthy(apiBase) ==> c[0] == apiBase.value
  {
    var first := if Truthy(apiBase) then [apiBase.value] else [];
    var own := if origin.Some? && StartsWith(origin.value, "http") && !devStatic then [origin.value] else [];
    SuffixAfter(first + own, LocalBases);
    first + own + LocalBases
  }

  /** The two local API addresses every current candidate list ends with. */
  const LocalBases: seq<string> := ["http://127.0.0.1:3000", "http://localhost:3000"]

  lemma {:induction false} SuffixAfter<T>(a: seq<T>, b: seq<T>)
    ensures (a + b)[|a|..] == b
  {
  }

  /** The candidate list of backend/admin.js: one address. */
  function LegacyCandidates(isLocal: bool, origin: string): (c: seq<string>)
    ensures |c| == 1
  {
    [if isLocal then "http://localhost:3000" else origin]
  }

  datatype Sent = Sent(events: seq<Event>, baseIdx: nat, next: nat, outcome: Result<(int, Option<Payload>), Failure>)

  /** The `try`/`catch` around `fetch`: on a network failure, one more try
      at the next candidate if there is one. `net(k)` is the `k`-th fetch's outcome. */
  function Send(n: nat, base: nat, net: nat -> Outcome, k: nat): (s: Sent)
    ensures s.baseIdx == base || (s.baseIdx == base + 1 && base + 1 < n)
    ensures 1 <= |s.events| <= 2 && s.events[0] == Fetch(base)
    ensures forall i | 0 <= i < |s.events| :: s.events[i].Fetch?
  {
    var first := net(k);
    if first.Reply? then Sent([Fetch(base)], base, k + 1, Success((first.status, first.body)))
    else if base + 1 < n then
      var second := net(k + 1);
      Sent([Fetch(base), Fetch(base + 1)], base + 1, k + 2,
           if second.Reply? then Success((second.status, second.body)) else Failure(FetchRejected))
    else Sent([Fetch(base)], base, k + 1, Failure(Thrown(Offline)))
  }

  predicate AuthRejected(status: int) {
    status == 401 || status == 403
  }

  /** `res.ok` */
  predicate Ok(status: int) {
    200 <= status <= 299
  }

  function CountOf(events: seq<Event>, e: Event): nat {
    if events == [] then 0 else (if events[0] == e then 1 else 0) + CountOf(events[1..], e)
  }

  lemma {:induction false} CountOfAppend(a: seq<Event>, b: seq<Event>, e: Event)
    ensures CountOf(a + b, e) == CountOf(a, e) + CountOf(b, e)
  {
    if a == [] {
      assert a + b == b;
    } else {
      assert (a + b)[0] == a[0] && (a + b)[1..] == a[1..] + b;
      CountOfAppend(a[1..], b, e);
    }
  }

  /** Number of `fetch` calls among the events. */
  function Fetches(events: seq<Event>): nat {
    if events == [] then 0 else (if events[0].Fetch? then 1 else 0) + Fetches(events[1..])
  }

  lemma {:induction false} FetchesAppend(a: seq<Event>, b: seq<Event>)
    ensures Fetches(a + b) == Fetches(a) + Fetches(b)
  {
    if a == [] {
      assert a + b == b;
    } else {
      assert (a + b)[0] == a[0] && (a + b)[1..] == a[1..] + b;
      FetchesAppend(a[1..], b);
    }
  }

  /** `apiFetch(path, opts, retry)` against candidate list of length `n`,
      starting at candidate `base`; `refreshed` is what `refreshAccessToken` yields. */
  function ApiFetch(panel: Panel, n: nat, base: nat, net: nat -> Outcome, k: nat, refreshed: bool, retry: bool): (c: Call)
    // The call answers for its final reply: a network failure is rethrown, a
    // 2xx returns the body, any other status throws the server's message.
    ensures var f := FinalReply(n, base, net, k, refreshed, retry);
            && (f.Failure? ==> c.result == Failure(f.error))
            && (f.Success? && Ok(f.value.0) ==> c.result == Success(f.value.1))
            && (f.Success? && !Ok(f.value.0) ==> c.result == Failure(Thrown(ErrorMessage(f.value.1, f.value.0))))
    decreases if retry then 1 else 0
  {
    var s := Send(n, base, net, k);
    match s.outcome
    case Failure(f) => Call(s.events, s.baseIdx, Failure(f))
    case Success((status, body)) =>
      if AuthRejected(status) && retry && refreshed then
        var inner := ApiFetch(panel, n, s.baseIdx, net, s.next, refreshed, false);
        Call(s.events + [RefreshToken] + inner.events, inner.baseIdx, inner.result)
      else Settle(panel, s, status, body, AuthRejected(status) && retry)
  }

  /** The end of a request that is not retried: the body on a 2xx, otherwise
      the error message, after clearing the session on the current panel's
      401/403. `tried` says a refresh was attempted and failed. */
  function Settle(panel: Panel, s: Sent, status: int, body: Option<Payload>, tried: bool): Call {
    var refresh := if tried then [RefreshToken] else [];
    if Ok(status) then Call(s.events + refresh, s.baseIdx, Success(body))
    else
      var leave := if panel == CurrentPanel && AuthRejected(status) then [ClearTokens, ToLogin] else [];
      Call(s.events + refresh + leave, s.baseIdx, Failure(Thrown(ErrorMessage(body, status))))
  }

  lemma {:induction false} SettleBounds(panel: Panel, s: Sent, status: int, body: Option<Payload>, tried: bool)
    requires forall i | 0 <= i < |s.events| :: s.events[i].Fetch?
    ensures var c := Settle(panel, s, status, body, tried);
            && CountOf(c.events, RefreshToken) == (if tried then 1 else 0)
            && Fetches(c.events) == |s.events|
            && c.baseIdx == s.baseIdx
  {
    SentEvents(s.events);
    var refresh: seq<Event> := if tried then [RefreshToken] else [];
    var leave: seq<Event> := if panel == CurrentPanel && AuthRejected(status) then [ClearTokens, ToLogin] else [];
    assert CountOf(refresh, RefreshToken) == (if tried then 1 else 0) && Fetches(refresh) == 0;
    assert CountOf(leave, RefreshToken) == 0 && Fetches(leave) == 0 by {
      if leave != [] {
        assert leave[1..][1..] == [];
      }
    }
    CountOfAppend(s.events, refresh, RefreshToken);
    FetchesAppend(s.events, refresh);
    if !Ok(status) {
      CountOfAppend(s.events + refresh, leave, RefreshToken);
      FetchesAppend(s.events + refresh, leave);
    }
  }

  /** The bounds of one request: at most one refresh, none on the retry
      itself, at most four fetches, and at most one candidate step per attempt. */
  lemma {:induction false} ApiFetchBounds(panel: Panel, n: nat, base: nat, net: nat -> Outcome, k: nat, refreshed: bool, retry: bool)
    ensures var c := ApiFetch(panel, n, base, net, k, refreshed, retry);
            && CountOf(c.events, RefreshToken) <= (if retry then 1 else 0)
            && Fetches(c.events) <= (if retry then 4 else 2)
            && c.baseIdx <= base + (if retry then 2 else 1)
            && (base < n ==> c.baseIdx < n)
    decreases if retry then 1 else 0
  {
    var s := Send(n, base, net, k);
    SentEvents(s.events);
    if s.outcome.Success? {
      var (status, body) := s.outcome.value;
      if AuthRejected(status) && retry && refreshed {
        ApiFetchBounds(panel, n, s.baseIdx, net, s.next, refreshed, false);
        var inner := ApiFetch(panel, n, s.baseIdx, net, s.next, refreshed, false);
        CountOfAppend(s.events, [RefreshToken], RefreshToken);
        CountOfAppend(s.events + [RefreshToken], inner.events, RefreshToken);
        FetchesAppend(s.events, [RefreshToken]);
        FetchesAppend(s.events + [RefreshToken], inner.events);
      } else {
        SettleBounds(panel, s, status, body, AuthRejected(status) && retry);
      }
    }
  }

  lemma {:induction false} SentEvents(events: seq<Event>)
    requires forall i | 0 <= i < |events| :: events[i].Fetch?
    ensures CountOf(events, RefreshToken) == 0 && Fetches(events) == |events|
  {
    if events != [] {
      assert forall i | 0 <= i < |events[1..]| :: events[1..][i] == events[i + 1];
      SentEvents(events[1..]);
    }
  }

  /** Only the current panel ever clears the session, and only on a failing request. */
  lemma {:induction false} SessionClearedOnlyOnFailure(panel: Panel, n: nat, base: nat, net: nat -> Outcome, k: nat, refreshed: bool, retry: bool)
    ensures var c := ApiFetch(panel, n, base, net, k, refreshed, retry);
            (ClearTokens in c.events || ToLogin in c.events) ==> panel == CurrentPanel && c.result.Failure?
    decreases if retry then 1 else 0
  {
    var s := Send(n, base, net, k);
    if s.outcome.Success? {
      var (status, body) := s.outcome.value;
      if AuthRejected(status) && retry && refreshed {
        SessionClearedOnlyOnFailure(panel, n, s.baseIdx, net, s.next, refreshed, false);
      }
    }
  }

  /** The reply a request ends on: the first one, or, when it was a 401/403
      that the refreshed token retries, the retry's. */
  function FinalReply(n: nat, base: nat, net: nat -> Outcome, k: nat, refreshed: bool, retry: bool)
    : Result<(int, Option<Payload>), Failure>
  {
    var s := Send(n, base, net, k);
    if s.outcome.Success? && AuthRejected(s.outcome.value.0) && retry && refreshed
    then Send(n, s.baseIdx, net, s.next).outcome
    else s.outcome
  }

  /** The end of a settled request: the body on a 2xx, the error message
      otherwise, and the session cleared (tokens, then the login page)
      exactly on the current panel's 401/403. A refresh is recorded exactly
      when one was tried. */
  lemma {:induction false} SettleOutcome(panel: Panel, s: Sent, status: int, body: Option<Payload>, tried: bool)
    requires forall i | 0 <= i < |s.events| :: s.events[i].Fetch?
    ensures var c := Settle(panel, s, status, body, tried);
            && (Ok(status) ==> c.result == Success(body))
            && (!Ok(status) ==> c.result == Failure(Thrown(ErrorMessage(body, status))))
            && (ClearTokens in c.events <==> panel == CurrentPanel && AuthRejected(status))
            && (ToLogin in c.events <==> panel == CurrentPanel && AuthRejected(status))
            && (RefreshToken in c.events <==> tried)
  {
    assert ClearTokens !in s.events && ToLogin !in s.events && RefreshToken !in s.events;
  }

  /**
   * How `apiFetch` answers, in terms of the reply it ends on: a 2xx gives
   * its body, any other status throws the server's message, and on the
   * current panel a final 401/403 clears the tokens and goes to the login
   * page; a network failure is rethrown and leaves the session alone. The
   * session is cleared in no other case, and a refresh happens exactly
   * when the first reply was a 401/403 on a retryable call.
   */
  lemma {:induction false} ApiFetchAnswersFinalReply(panel: Panel, n: nat, base: nat, net: nat -> Outcome, k: nat,
                                                     refreshed: bool, retry: bool)
    ensures var c := ApiFetch(panel, n, base, net, k, refreshed, retry);
            var f := FinalReply(n, base, net, k, refreshed, retry);
            && (f.Failure? ==> c.result == Failure(f.error))
            && (f.Success? && Ok(f.value.0) ==> c.result == Success(f.value.1))
            && (f.Success? && !Ok(f.value.0) ==> c.result == Failure(Thrown(ErrorMessage(f.value.1, f.value.0))))
            && (ClearTokens in c.events <==> panel == CurrentPanel && f.Success? && AuthRejected(f.value.0))
            && (ToLogin in c.events <==> panel == CurrentPanel && f.Success? && AuthRejected(f.value.0))
    ensures var c := ApiFetch(panel, n, base, net, k, refreshed, retry);
            var s := Send(n, base, net, k);
            RefreshToken in c.events <==> retry && s.outcome.Success? && AuthRejected(s.outcome.value.0)
    decreases if retry then 1 else 0
  {
    var s := Send(n, base, net, k);
    assert ClearTokens !in s.events && ToLogin !in s.events && RefreshToken !in s.events;
    if s.outcome.Success? {
      var (status, body) := s.outcome.value;
      if AuthRejected(status) && retry && refreshed {
        ApiFetchAnswersFinalReply(panel, n, s.baseIdx, net, s.next, refreshed, false);
      } else {
        SettleOutcome(panel, s, status, body, AuthRejected(status) && retry);
      }
    }
  }

  /** With no candidate left, a network failure throws the offline message. */
  lemma {:induction false} NoCandidateLeft(panel: Panel, n: nat, base: nat, net: nat -> Outcome, k: nat, refreshed: bool, retry: bool)
    requires base + 1 >= n && net(k).Unreachable?
    ensures var c := ApiFetch(panel, n, base, net, k, refreshed, retry);
            c.result == Failure(Thrown(Offline)) && c.events == [Fetch(base)] && c.baseIdx == base
  {
  }

  /** backend/admin.js has a single candidate: a network failure always ends the call offline. */
  lemma {:induction false} LegacyPanelOffline(isLocal: bool, origin: string, net: nat -> Outcome, k: nat, refreshed: bool, retry: bool)
    requires net(k).Unreachable?
    ensures var c := ApiFetch(LegacyPanel, |LegacyCandidates(isLocal, origin)|, 0, net, k, refreshed, retry);
            c.result == Failure(Thrown(Offline))
  {
    NoCandidateLeft(LegacyPanel, |LegacyCandidates(isLocal, origin)|, 0, net, k, refreshed, retry);
  }

  /** An expired session on the current panel: refresh once, retry once,
      then clear the tokens and go to the login page. */
  lemma {:induction false} ExpiredSessionExample(n: nat, body: Option<Payload>)
    requires n >= 1
    ensures var net := (k: nat) => Reply(401, body);
            var c := ApiFetch(CurrentPanel, n, 0, net, 0, true, true);
            && c.events == [Fetch(0), RefreshToken, Fetch(0), ClearTokens, ToLogin]
            && c.result.Failure? && c.baseIdx == 0
  {
    var net := (k: nat) => Reply(401, body);
    var inner := ApiFetch(CurrentPanel, n, 0, net, 1, true, false);
    assert inner.events == [Fetch(0), ClearTokens, ToLogin];
  }

  // ---------------------------------------------------------------------------
  // Product form
  // ---------------------------------------------------------------------------

  /** `Number(str)`: a finite value or NaN/±Infinity. */
  datatype Num = Finite(v: real) | NotFinite

  /** The raw values of the product form's inputs. */
  datatype ProductForm = ProductForm(name: string, category: string, price: string, stock: string,
                                     image: string, description: string, specs: string)

  /** The JSON body the form sends. */
  datatype ProductBody = ProductBody(name: string, description: string, price: real, imageUrl: string,
                                     categoryId: Num, stock: real, specifications: Store.BodyField)

  datatype Submission = Alert(message: string) | Submit(body: ProductBody)

  const MissingFields := "Completa nombre, categoria, precio e imagen."
  const BadPrice := "Precio invalido."

  /** The product form's submit handler up to the request; `number` is `Number`. */
  function SubmitProduct(f: ProductForm, number: string -> Num): (r: Submission)
    ensures r.Alert? ==> r.message == MissingFields || r.message == BadPrice
    ensures r.Submit? <==> && Trim(f.name) != "" && Trim(f.category) != "" && Trim(f.image) != ""
                           && Trim(f.price) != "" && number(Trim(f.price)).Finite? && number(Trim(f.price)).v > 0.0
    ensures r.Submit? ==> r.body.price > 0.0 && r.body.name == Trim(f.name) && r.body.imageUrl == Trim(f.image)
  {
    var name, category, price, stock := Trim(f.name), Trim(f.category), Trim(f.price), Trim(f.stock);
    var image, description, specs := Trim(f.image), Trim(f.description), Trim(f.specs);
    if name == "" || category == "" || price == "" || image == "" then Alert(MissingFields)
    else
      var p := number(price);
      var s := if number(stock).Finite? then number(stock).v else 0.0;
      if !p.Finite? || p.v <= 0.0 then Alert(BadPrice)
      else
        var t := Trim(specs);
        Submit(ProductBody(name, description, p.v, image, number(category), s, if t == "" then Store.Null else Store.Given(t)))
  }

  /** A missing required field is reported before the price is looked at. */
  lemma {:induction false} MissingFieldsFirst(f: ProductForm, number: string -> Num)
    requires Trim(f.name) == "" || Trim(f.category) == "" || Trim(f.image) == "" || Trim(f.price) == ""
    ensures SubmitProduct(f, number) == Alert(MissingFields)
  {
  }

  /** The stock sent is the entered number when finite and 0 otherwise, and
      the specifications are sent trimmed, or null when blank. */
  lemma {:induction false} SubmittedDefaults(f: ProductForm, number: string -> Num)
    requires SubmitProduct(f, number).Submit?
    ensures var b := SubmitProduct(f, number).body;
            && b.stock == (if number(Trim(f.stock)).Finite? then number(Trim(f.stock)).v else 0.0)
            && !b.specifications.Absent?
            && (b.specifications.Null? <==> Trim(f.specs) == "")
            && (b.specifications.Given? ==> b.specifications.s == Trim(f.specs))
            && b.categoryId == number(Trim(f.category))
  {
    var b := SubmitProduct(f, number).body;
    TrimIdempotent(f.specs);
  }

  /** The product the server reads from a submitted body: the texts as sent,
      and the price, the category id and the stock as the server reads the
      numbers (integer cents, `Number(category_id)`, the stock field). */
  function Received(b: ProductBody, price: Option<int>, categoryId: Option<int>, stock: Products.StockField)
    : Products.ProductInput
  {
    Products.ProductInput(Some(b.name), Some(b.description), price, Some(b.imageUrl), categoryId, stock, b.specifications)
  }

  /** As written, a blank specifications field is sent as `null`, which the
      product chain rejects: the server accepts a submitted form iff it
      accepts the rest of it and the field is not blank, and a blank one is
      answered 400 with nothing written, on creation and on update alike. */
  lemma {:induction false} BlankSpecsRejected(f: ProductForm, number: string -> Num, price: Option<int>,
                                              categoryId: Option<int>, stock: Products.StockField,
                                              isURL: string -> bool, db: Store.Db, id: int)
    requires SubmitProduct(f, number).Submit?
    ensures var p := Received(SubmitProduct(f, number).body, price, categoryId, stock);
            Products.ValidProduct(p, isURL)
            <==> Products.ValidProduct(p.(specifications := Store.Absent), isURL) && Trim(f.specs) != ""
    ensures var p := Received(SubmitProduct(f, number).body, price, categoryId, stock);
            Trim(f.specs) == "" ==>
              && Products.CreateProduct(db, p, isURL) == (db, Products.Response(400, Products.Invalid(Products.ProductErrors(p, isURL))))
              && Products.UpdateProduct(db, id, p, isURL) == (db, Products.Response(400, Products.Invalid(Products.ProductErrors(p, isURL))))
              && Products.SpecsNotString in Products.ProductErrors(p, isURL)
  {
    SubmittedDefaults(f, number);
    var p := Received(SubmitProduct(f, number).body, price, categoryId, stock);
    Products.SpecsOnlyNullMatters(p, isURL);
    if Trim(f.specs) == "" {
      Products.NullSpecsRejected(p, isURL);
    }
  }

  /** The body with a blank specifications field left out instead of `null`. */
  function OmitBlankSpecs(b: ProductBody): ProductBody {
    if b.specifications.Null? then b.(specifications := Store.Absent) else b
  }

  /** Left out when blank, the specifications field never decides the
      server's verdict, and the column still holds the trimmed text or NULL. */
  lemma {:induction false} OmittedBlankSpecsAccepted(f: ProductForm, number: string -> Num, price: Option<int>,
                                                     categoryId: Option<int>, stock: Products.StockField,
                                                     isURL: string -> bool)
    requires SubmitProduct(f, number).Submit?
    ensures var b := OmitBlankSpecs(SubmitProduct(f, number).body);
            var p := Received(b, price, categoryId, stock);
            && (Products.ValidProduct(p, isURL) <==> Products.ValidProduct(p.(specifications := Store.Absent), isURL))
            && Products.SpecsColumn(b.specifications) == (if Trim(f.specs) == "" then None else Some(Trim(f.specs)))
  {
    SubmittedDefaults(f, number);
    var b := OmitBlankSpecs(SubmitProduct(f, number).body);
    Products.SpecsOnlyNullMatters(Received(b, price, categoryId, stock), isURL);
  }
}
