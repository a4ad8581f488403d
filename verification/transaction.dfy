/**
 * The database helper of the backend: the unit-of-work combinator
 * `withTransaction` and the start-up decision whether to connect over TLS.
 *
 * A pooled client is modelled by the sequence of events it sees. The
 * database state is a value: the callback maps the snapshot taken at BEGIN to
 * a new state, and ROLLBACK restores that snapshot.
 */
module Transaction {
  import opened Wrappers
  import opened Text

  /** What happens on the pooled client, in order. */
  datatype ClientEvent = Begin | Callback | Commit | Rollback | Release

  /** The outcome of one unit of work: the client's event log, the state
      visible after the transaction ends, and the callback's value or error. */
  datatype Tx<S, T, E> = Tx(log: seq<ClientEvent>, state: S, result: Result<T, E>)

  function Count(log: seq<ClientEvent>, e: ClientEvent): nat {
    if log == [] then 0 else (if log[0] == e then 1 else 0) + Count(log[1..], e)
  }

  /**
   * `withTransaction(fn)`: BEGIN, run the callback on the snapshot, then
   * COMMIT its state and return its value, or ROLLBACK to the snapshot and
   * rethrow its error; the client is released on both paths.
   */
  function WithTransaction<S, T, E>(snapshot: S, body: S -> Result<(S, T), E>): (tx: Tx<S, T, E>)
    ensures |tx.log| == 4 && tx.log[0] == Begin && tx.log[1] == Callback && tx.log[3] == Release
    ensures Count(tx.log, Release) == 1
    ensures Count(tx.log, Commit) + Count(tx.log, Rollback) == 1
    ensures tx.result.Success? <==> tx.log[2] == Commit
    ensures tx.result.Success? <==> body(snapshot).Success?
    ensures tx.result.Success? ==>
              tx.state == body(snapshot).value.0 && tx.result.value == body(snapshot).value.1
    ensures tx.result.Failure? ==>
              tx.state == snapshot && tx.result.error == body(snapshot).error
  {
    match body(snapshot)
    case Success((s', v)) => Tx([Begin, Callback, Commit, Release], s', Success(v))
    case Failure(e) => Tx([Begin, Callback, Rollback, Release], snapshot, Failure(e))
  }

  /** All-or-nothing: the state after a transaction is either the untouched
      snapshot (and the callback failed) or exactly what the callback built. */
  lemma {:induction false} AllOrNothing<S, T, E>(snapshot: S, body: S -> Result<(S, T), E>)
    ensures var tx := WithTransaction(snapshot, body);
            (tx.result.Failure? && tx.state == snapshot)
            || (body(snapshot).Success? && tx.state == body(snapshot).value.0)
  {
  }

  // ---------------------------------------------------------------------------
  // TLS decision
  // ---------------------------------------------------------------------------

  /** What `new URL(connectionString)` yields: it throws, or it parses and
      `searchParams.get('sslmode')` is absent or a (decoded) value. */
  datatype UrlParse = Unparseable | Parsed(sslmode: Option<string>)

  /**
   * `shouldUseSSL`: forced by `PGSSL === 'true'`; off without a
   * `DATABASE_URL`; otherwise on exactly when the parsed `sslmode` is
   * `require` in any case, or, when the string is not a URL, when it contains
   * `sslmode=require` in any case.
   */
  function ShouldUseSsl(pgssl: Option<string>, databaseUrl: Option<string>, parsed: UrlParse): (use: bool)
    ensures pgssl == Some("true") ==> use
    ensures pgssl != Some("true") && !Truthy(databaseUrl) ==> !use
    ensures pgssl != Some("true") && Truthy(databaseUrl) && parsed.Parsed? ==>
              (use <==> parsed.sslmode.Some? && |parsed.sslmode.value| == 7 &&
                        forall i | 0 <= i < 7 :: SameIgnoringCase(parsed.sslmode.value[i], "require"[i]))
    ensures pgssl != Some("true") && Truthy(databaseUrl) && parsed.Unparseable? ==>
              (use <==> ContainsIgnoringCase(databaseUrl.value, "sslmode=require"))
  {
    if pgssl == Some("true") then true
    else if !Truthy(databaseUrl) then false
    else match parsed
      case Parsed(mode) =>
        if mode.Some? then LowerIsRequire(mode.value); Truthy(mode) && Lower(mode.value) == "require"
        else false
      case Unparseable => ContainsIgnoringCase(databaseUrl.value, "sslmode=require")
  }

  /** `m.toLowerCase() === 'require'` compares position by position ignoring case. */
  lemma {:induction false} LowerIsRequire(m: string)
    ensures Lower(m) == "require" <==>
              |m| == 7 && forall i | 0 <= i < 7 :: SameIgnoringCase(m[i], "require"[i])
  {
    var t := "require";
    assert t == ['r', 'e', 'q', 'u', 'i', 'r', 'e'];
    assert forall i | 0 <= i < |t| :: LowerChar(t[i]) == t[i];
    LowerEquals(m, t);
  }
}
