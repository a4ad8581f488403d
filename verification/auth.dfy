/**
 * The administrator login of the auth controller: the one-step `login`, the
 * two-step `loginStep1`/`loginStep2` with an e-mailed one-time code, and the
 * per-IP counter of failed attempts both credential checks share.
 *
 * The in-memory OTP store is a map from transaction id to record. The clock,
 * the random code, the random transaction id, bcrypt's verdict and the
 * presence of the JWT secrets are parameters; a signed token pair is
 * represented by the e-mail it is issued for.
 */
module Auth {
  import opened Wrappers
  import opened Text

  /** Five minutes, in milliseconds. */
  const OtpTtlMs := 5 * 60 * 1000
  const OtpMaxAttempts := 5

  // ---------------------------------------------------------------------------
  // Codes and transactions
  // ---------------------------------------------------------------------------

  /** `num.toString().padStart(6, '0')` for the random `num` in `[0, 1000000)`. */
  function GenerateOtpCode(n: nat): (code: string)
    requires n < 1000000
    ensures |code| == 6 && AllDigits(code)
    ensures DecimalValue(code) == n
  {
    assert Pow10(6) == 1000000 by {
      assert Pow10(1) == 10 && Pow10(2) == 100 && Pow10(3) == 1000;
    }
    NatToDecimalLength(n, 6);
    var digits := NatToDecimal(n);
    if |digits| < 6 then LeadingZerosValue(6 - |digits|, digits); PadStart(digits, 6, '0')
    else PadStart(digits, 6, '0')
  }

  /** Different random numbers give different codes. */
  lemma {:induction false} OtpCodeInjective(a: nat, b: nat)
    requires a < 1000000 && b < 1000000
    ensures GenerateOtpCode(a) == GenerateOtpCode(b) ==> a == b
  {
  }

  /** One pending second step: whose it is, the code, its deadline and the tries used. */
  datatype OtpRecord = OtpRecord(email: string, code: string, expiresAt: int, attempts: int)

  type OtpStore = map<string, OtpRecord>

  /** What `newTransaction` hands back to its caller. */
  datatype Issued = Issued(txId: string, code: string, expiresAt: int)

  /**
   * `newTransaction(email)`: stores a fresh record under the random id
   * `txId` with the code drawn from `n`, due `OtpTtlMs` after `now`, with no
   * attempt used; every other transaction is left as it was.
   */
  function NewTransaction(store: OtpStore, email: string, txId: string, n: nat, now: int): (r: (OtpStore, Issued))
    requires n < 1000000
    ensures r.1.txId == txId && r.1.expiresAt == now + OtpTtlMs
    ensures |r.1.code| == 6 && AllDigits(r.1.code) && DecimalValue(r.1.code) == n
    ensures r.0.Keys == store.Keys + {txId}
    ensures r.0[txId] == OtpRecord(email, r.1.code, r.1.expiresAt, 0)
    ensures forall t | t in store && t != txId :: r.0[t] == store[t]
  {
    var code := GenerateOtpCode(n);
    (store[txId := OtpRecord(email, code, now + OtpTtlMs, 0)], Issued(txId, code, now + OtpTtlMs))
  }

  // ---------------------------------------------------------------------------
  // Second step (`loginStep2`)
  // ---------------------------------------------------------------------------

  /** The `code` of the request body: JSON lets it be a string or a number. */
  datatype CodeValue = CodeString(s: string) | CodeNumber(n: nat)

  /** JavaScript truthiness of the code: not `""` and not `0`. */
  predicate CodeTruthy(c: Option<CodeValue>) {
    match c
    case None => false
    case Some(CodeString(s)) => s != ""
    case Some(CodeNumber(n)) => n != 0
  }

  /** `String(code).trim()`. */
  function CodeText(c: CodeValue): string {
    match c
    case CodeString(s) => Trim(s)
    case CodeNumber(n) => NatToDecimal(n)
  }

  /** A response body: a signed token pair for an e-mail, an error message,
      or the validator's error list (not modelled further). */
  datatype Reply = Tokens(email: string) | Err(message: string) | ValidationErrors

  datatype Answer = Answer(status: int, reply: Reply)

  const Incomplete := "Configuración del servidor incompleta."

  /** The second step: looks up the transaction, checks its deadline and tries,
      spends one try, compares the code, and on a match consumes the
      transaction and issues tokens for the e-mail it was opened for. */
  function LoginStep2(store: OtpStore, txId: Option<string>, code: Option<CodeValue>, now: int, secretsSet: bool)
    : (r: (OtpStore, Answer))
    // Missing fields or an unknown transaction: 400, nothing changes.
    ensures !Truthy(txId) || !CodeTruthy(code) ==>
              r == (store, Answer(400, Err("txId y código requeridos")))
    ensures Truthy(txId) && CodeTruthy(code) && txId.value !in store ==>
              r == (store, Answer(400, Err("Transacción no encontrada o expirada")))
    // Past the deadline (strictly): the transaction is dropped.
    ensures Truthy(txId) && CodeTruthy(code) && txId.value in store && now > store[txId.value].expiresAt ==>
              r == (store - {txId.value}, Answer(400, Err("Código expirado")))
    // Out of tries: the transaction is dropped.
    ensures Truthy(txId) && CodeTruthy(code) && txId.value in store && now <= store[txId.value].expiresAt
              && store[txId.value].attempts >= OtpMaxAttempts ==>
              r == (store - {txId.value}, Answer(429, Err("Demasiados intentos")))
    // A wrong code costs one try and keeps the transaction.
    ensures Compares(store, txId, code, now) && CodeText(code.value) != store[txId.value].code ==>
              && r.1 == Answer(401, Err("Código incorrecto"))
              && r.0 == store[txId.value := store[txId.value].(attempts := store[txId.value].attempts + 1)]
    // The right code consumes the transaction and yields tokens for its e-mail.
    ensures Compares(store, txId, code, now) && CodeText(code.value) == store[txId.value].code ==>
              && r.0 == store - {txId.value}
              && r.1 == (if secretsSet then Answer(200, Tokens(store[txId.value].email)) else Answer(500, Err(Incomplete)))
    // Tokens are only ever issued for the e-mail of a live transaction whose code matched.
    ensures r.1.reply.Tokens? ==>
              && Compares(store, txId, code, now)
              && CodeText(code.value) == store[txId.value].code
              && r.1.reply.email == store[txId.value].email
  {
    if !Truthy(txId) || !CodeTruthy(code) then (store, Answer(400, Err("txId y código requeridos")))
    else if txId.value !in store then (store, Answer(400, Err("Transacción no encontrada o expirada")))
    else
      var t := txId.value;
      var rec := store[t];
      if now > rec.expiresAt then (store - {t}, Answer(400, Err("Código expirado")))
      else if rec.attempts >= OtpMaxAttempts then (store - {t}, Answer(429, Err("Demasiados intentos")))
      else
        var spent := rec.(attempts := rec.attempts + 1);
        if CodeText(code.value) != rec.code then (store[t := spent], Answer(401, Err("Código incorrecto")))
        else if !secretsSet then (store - {t}, Answer(500, Err(Incomplete)))
        else (store - {t}, Answer(200, Tokens(rec.email)))
  }

  /** The request reaches the code comparison: both fields given, the
      transaction known, not expired, and a try left. */
  predicate Compares(store: OtpStore, txId: Option<string>, code: Option<CodeValue>, now: int) {
    && Truthy(txId) && CodeTruthy(code) && txId.value in store
    && now <= store[txId.value].expiresAt
    && store[txId.value].attempts < OtpMaxAttempts
  }

  /** A second-step request: transaction id, code and arrival time. */
  datatype Step2Request = Step2Request(txId: Option<string>, code: Option<CodeValue>, now: int)

  /** Tries left on transaction `t`. */
  function Budget(store: OtpStore, t: string): int {
    if t in store && store[t].attempts < OtpMaxAttempts then OtpMaxAttempts - store[t].attempts else 0
  }

  /** Code comparisons made against transaction `t` over a run of second-step requests. */
  function ComparisonsFor(store: OtpStore, reqs: seq<Step2Request>, t: string, secretsSet: bool): nat
    decreases |reqs|
  {
    if reqs == [] then 0
    else
      var q := reqs[0];
      var next := LoginStep2(store, q.txId, q.code, q.now, secretsSet).0;
      (if Compares(store, q.txId, q.code, q.now) && q.txId.value == t then 1 else 0)
      + ComparisonsFor(next, reqs[1..], t, secretsSet)
  }

  /** One request never raises a transaction's budget, and a comparison against it spends one. */
  lemma {:induction false} Step2SpendsBudget(store: OtpStore, q: Step2Request, t: string, secretsSet: bool)
    ensures var next := LoginStep2(store, q.txId, q.code, q.now, secretsSet).0;
            Budget(next, t) + (if Compares(store, q.txId, q.code, q.now) && q.txId.value == t then 1 else 0)
              <= Budget(store, t)
  {
  }

  /** Whatever second-step requests arrive, in any order and for any
      transactions, a transaction's code is compared at most as many times as
      it has tries left: at most five for a fresh one. */
  lemma {:induction false} ComparisonsWithinBudget(store: OtpStore, reqs: seq<Step2Request>, t: string, secretsSet: bool)
    ensures ComparisonsFor(store, reqs, t, secretsSet) <= Budget(store, t)
    decreases |reqs|
  {
    if reqs != [] {
      var q := reqs[0];
      Step2SpendsBudget(store, q, t, secretsSet);
      ComparisonsWithinBudget(LoginStep2(store, q.txId, q.code, q.now, secretsSet).0, reqs[1..], t, secretsSet);
    }
  }

  /** A freshly issued transaction allows at most `OtpMaxAttempts` comparisons. */
  lemma {:induction false} FreshTransactionBudget(store: OtpStore, email: string, txId: string, n: nat, now: int,
                               reqs: seq<Step2Request>, secretsSet: bool)
    requires n < 1000000
    ensures ComparisonsFor(NewTransaction(store, email, txId, n, now).0, reqs, txId, secretsSet) <= OtpMaxAttempts
  {
    ComparisonsWithinBudget(NewTransaction(store, email, txId, n, now).0, reqs, txId, secretsSet);
  }

  /** Digits are not whitespace, so trimming a code leaves it as it is. */
  lemma {:induction false} DigitsUntrimmed(code: string)
    requires AllDigits(code)
    ensures Trim(code) == code
  {
    assert !HasSpace(code) by {
      forall i | 0 <= i < |code| ensures !IsSpace(code[i]) {
        assert IsDigit(code[i]);
      }
    }
  }

  /** The round trip of the two steps: the code mailed for a new transaction,
      sent back before the deadline, signs in as the e-mail it was issued for
      and consumes the transaction. */
  lemma {:induction false} IssuedCodeSignsIn(store: OtpStore, email: string, txId: string, n: nat, issuedAt: int, now: int)
    requires n < 1000000 && txId != ""
    requires now <= issuedAt + OtpTtlMs
    ensures var (pending, issued) := NewTransaction(store, email, txId, n, issuedAt);
            var r := LoginStep2(pending, Some(txId), Some(CodeString(issued.code)), now, true);
            r.1 == Answer(200, Tokens(email)) && txId !in r.0
  {
    var (pending, issued) := NewTransaction(store, email, txId, n, issuedAt);
    DigitsUntrimmed(issued.code);
    assert CodeText(CodeString(issued.code)) == issued.code;
  }

  // ---------------------------------------------------------------------------
  // Credential check and the failed-login counter (`login`, `loginStep1`)
  // ---------------------------------------------------------------------------

  /** The administrator as configured by the environment. */
  datatype Admin = Admin(email: Option<string>, passwordHash: Option<string>)

  /** The per-IP counters of failed attempts; an absent IP counts as 0. */
  type Counters = map<string, int>

  function Failures(counters: Counters, ip: string): int {
    if ip in counters then counters[ip] else 0
  }

  /** E-mail comparison of the controller: trimmed and lower-cased, an absent value as `""`. */
  function NormEmail(e: Option<string>): string {
    Lower(Trim(e.GetOr("")))
  }

  datatype Verdict = Accepted | Misconfigured | UnknownUser | WrongPassword

  /** What the credential check did: the counters afterwards, its verdict, and whether it raised an alert. */
  datatype CredentialCheck = CredentialCheck(counters: Counters, verdict: Verdict, alert: bool)

  /**
   * The credential check shared by `login` and `loginStep1`: the IP's
   * counter is created at 0 if absent; a misconfigured administrator stops
   * there; a foreign e-mail or a wrong password (bcrypt's verdict
   * `passwordMatches`) adds one to it and alerts once it reaches `threshold`;
   * success forgets the IP.
   */
  function CheckCredentials(counters: Counters, ip: string, admin: Admin, email: Option<string>,
                            passwordMatches: bool, threshold: int): (c: CredentialCheck)
    ensures c.verdict == Accepted <==>
              Truthy(admin.email) && Truthy(admin.passwordHash) && NormEmail(email) == NormEmail(admin.email) && passwordMatches
    ensures c.verdict == Misconfigured <==> !Truthy(admin.email) || !Truthy(admin.passwordHash)
    ensures c.verdict == UnknownUser ==> NormEmail(email) != NormEmail(admin.email)
    // Other IPs' counters are never touched.
    ensures SameElsewhere(counters, c.counters, ip)
    ensures c.verdict == Accepted ==> ip !in c.counters
    ensures c.verdict == Misconfigured ==> ip in c.counters && c.counters[ip] == Failures(counters, ip)
    ensures c.verdict in {UnknownUser, WrongPassword} ==>
              ip in c.counters && c.counters[ip] == Failures(counters, ip) + 1
    // The alert fires exactly on a failure that brings the counter to the threshold or past it.
    ensures c.alert <==> c.verdict in {UnknownUser, WrongPassword} && c.counters[ip] >= threshold
  {
    var started := Started(counters, ip);
    if !Truthy(admin.email) || !Truthy(admin.passwordHash) then CredentialCheck(started, Misconfigured, false)
    else if NormEmail(email) != NormEmail(admin.email) then
      SameElsewhereTrans(counters, started, Bumped(started, ip), ip);
      Failed(started, ip, UnknownUser, threshold)
    else if !passwordMatches then
      SameElsewhereTrans(counters, started, Bumped(started, ip), ip);
      Failed(started, ip, WrongPassword, threshold)
    else
      SameElsewhereTrans(counters, started, started - {ip}, ip);
      CredentialCheck(started - {ip}, Accepted, false)
  }

  /** The counters of every IP other than `ip` are the same in `before` and `after`. */
  ghost predicate SameElsewhere(before: Counters, after: Counters, ip: string) {
    && (forall other | other != ip :: (other in after <==> other in before))
    && (forall other | other != ip && other in before :: after[other] == before[other])
  }

  lemma {:induction false} SameElsewhereTrans(a: Counters, b: Counters, c: Counters, ip: string)
    requires SameElsewhere(a, b, ip) && SameElsewhere(b, c, ip)
    ensures SameElsewhere(a, c, ip)
  {
  }

  /** `if (!attempts[ip]) attempts[ip] = 0`: the IP's counter, created at 0 when absent. */
  function Started(counters: Counters, ip: string): (s: Counters)
    ensures ip in s && s[ip] == Failures(counters, ip)
    ensures SameElsewhere(counters, s, ip)
  {
    if ip in counters then counters else counters[ip := 0]
  }

  /** `attempts[ip]++` */
  function Bumped(started: Counters, ip: string): (b: Counters)
    requires ip in started
    ensures ip in b && b[ip] == started[ip] + 1
    ensures SameElsewhere(started, b, ip)
  {
    started[ip := started[ip] + 1]
  }

  /** A failed attempt: one more failure, and the alert once the counter reaches `threshold`. */
  function Failed(started: Counters, ip: string, v: Verdict, threshold: int): (c: CredentialCheck)
    requires ip in started
    ensures c.counters == Bumped(started, ip) && c.verdict == v
    ensures c.alert <==> c.counters[ip] >= threshold
  {
    var bumped := Bumped(started, ip);
    CredentialCheck(bumped, v, bumped[ip] >= threshold)
  }

  function VerdictAnswer(v: Verdict): Answer
    requires v != Accepted
  {
    match v
    case Misconfigured => Answer(500, Err(Incomplete))
    case UnknownUser => Answer(401, Err("Usuario no autorizado"))
    case WrongPassword => Answer(401, Err("Contraseña incorrecta"))
  }

  /** The effect of a sign-in request on the counters, and its answer. */
  datatype SignIn<R> = SignIn(counters: Counters, alert: bool, reply: R)

  /** The body of `login` and `loginStep1`; a field left out reads as `""`. */
  datatype LoginBody = LoginBody(email: string, password: string)

  /** The library calls of the sign-in chain: express-validator's `isEmail`
      and `normalizeEmail`, and `bcrypt.compare(password, hash)`. */
  datatype LoginLib = LoginLib(isEmail: string -> bool, normalizeEmail: string -> string,
                               compare: (string, string) -> bool)

  /** `validateLogin`: a valid e-mail and a password of at least six
      characters, both checked before the chain sanitises them. */
  predicate LoginValid(b: LoginBody, lib: LoginLib) {
    lib.isEmail(b.email) && IsLengthCount(b.password) >= 6
  }

  /** The e-mail the handler reads: the chain's `normalizeEmail()` output. */
  function HandlerEmail(b: LoginBody, lib: LoginLib): string {
    lib.normalizeEmail(b.email)
  }

  /** The password the handler gives bcrypt: trimmed, then `escape()`d by the chain. */
  function HandlerPassword(b: LoginBody): string {
    ValidatorEscape(Trim(b.password))
  }

  /** bcrypt's verdict on the sanitised password against the configured hash. */
  predicate PasswordMatches(b: LoginBody, admin: Admin, lib: LoginLib) {
    lib.compare(HandlerPassword(b), admin.passwordHash.GetOr(""))
  }

  /** The credential check of a sanitised body. */
  function CheckBody(counters: Counters, ip: string, admin: Admin, b: LoginBody, lib: LoginLib, threshold: int)
    : CredentialCheck
  {
    CheckCredentials(counters, ip, admin, Some(HandlerEmail(b, lib)), PasswordMatches(b, admin, lib), threshold)
  }

  /** `login`: one-step sign-in. Validation errors answer 400 before the counter is touched. */
  function Login(counters: Counters, ip: string, admin: Admin, body: LoginBody, lib: LoginLib,
                 threshold: int, secretsSet: bool): (r: SignIn<Answer>)
    ensures !LoginValid(body, lib) ==> r == SignIn(counters, false, Answer(400, ValidationErrors))
    ensures LoginValid(body, lib) ==>
              var c := CheckBody(counters, ip, admin, body, lib, threshold);
              r.counters == c.counters && r.alert == c.alert
    ensures r.reply.status == 200 <==>
              LoginValid(body, lib) && CheckBody(counters, ip, admin, body, lib, threshold).verdict == Accepted && secretsSet
    // Tokens name the normalised e-mail, and bcrypt accepted the trimmed, escaped password.
    ensures r.reply.reply.Tokens? ==>
              && r.reply.status == 200 && r.reply.reply.email == HandlerEmail(body, lib)
              && NormEmail(Some(HandlerEmail(body, lib))) == NormEmail(admin.email)
              && admin.passwordHash.Some? && lib.compare(ValidatorEscape(Trim(body.password)), admin.passwordHash.value)
  {
    if !LoginValid(body, lib) then SignIn(counters, false, Answer(400, ValidationErrors))
    else
      var c := CheckBody(counters, ip, admin, body, lib, threshold);
      if c.verdict != Accepted then SignIn(c.counters, c.alert, VerdictAnswer(c.verdict))
      else if !secretsSet then SignIn(c.counters, c.alert, Answer(500, Err(Incomplete)))
      else SignIn(c.counters, c.alert, Answer(200, Tokens(HandlerEmail(body, lib))))
  }

  /** What `loginStep1` answers: the id of the mailed transaction, or an error. */
  datatype Step1Reply = OtpSent(txId: string) | Step1Err(answer: Answer)

  /**
   * `loginStep1`: the same credential check; on success a new transaction
   * is opened for the normalised e-mail and its code mailed (`mailed` is the
   * mailer's verdict). A failed mail answers 500 but leaves the transaction
   * stored.
   */
  function LoginStep1(counters: Counters, store: OtpStore, ip: string, admin: Admin, body: LoginBody, lib: LoginLib,
                      threshold: int, txId: string, n: nat, now: int, mailed: bool): (r: (SignIn<Step1Reply>, OtpStore))
    requires n < 1000000
    ensures !LoginValid(body, lib) ==> r == (SignIn(counters, false, Step1Err(Answer(400, ValidationErrors))), store)
    ensures LoginValid(body, lib) ==>
              var c := CheckBody(counters, ip, admin, body, lib, threshold);
              r.0.counters == c.counters && r.0.alert == c.alert
    // A transaction is opened exactly when the credentials are accepted.
    ensures !(LoginValid(body, lib) && CheckBody(counters, ip, admin, body, lib, threshold).verdict == Accepted) ==>
              r.1 == store
    ensures LoginValid(body, lib) && CheckBody(counters, ip, admin, body, lib, threshold).verdict == Accepted ==>
              && txId in r.1 && r.1[txId].email == HandlerEmail(body, lib) && r.1[txId].attempts == 0
              && r.1[txId].expiresAt == now + OtpTtlMs
              && (forall t | t in store && t != txId :: t in r.1 && r.1[t] == store[t])
    ensures r.0.reply.OtpSent? <==>
              LoginValid(body, lib) && CheckBody(counters, ip, admin, body, lib, threshold).verdict == Accepted && mailed
    ensures r.0.reply.OtpSent? ==> r.0.reply.txId == txId
  {
    if !LoginValid(body, lib) then (SignIn(counters, false, Step1Err(Answer(400, ValidationErrors))), store)
    else
      var c := CheckBody(counters, ip, admin, body, lib, threshold);
      if c.verdict != Accepted then (SignIn(c.counters, c.alert, Step1Err(VerdictAnswer(c.verdict))), store)
      else
        var (store', issued) := NewTransaction(store, HandlerEmail(body, lib), txId, n, now);
        if !mailed then (SignIn(c.counters, c.alert, Step1Err(Answer(500, Err("No se pudo enviar el código de verificación.")))), store')
        else (SignIn(c.counters, c.alert, OtpSent(issued.txId)), store')
  }

  /** No e-mail normalises, up to trimming and case, to the administrator's. */
  ghost predicate NeverNormalizesTo(lib: LoginLib, admin: Admin) {
    forall e :: NormEmail(Some(lib.normalizeEmail(e))) != NormEmail(admin.email)
  }

  /** An administrator address that `normalizeEmail` never yields cannot sign
      in, in one step or two, and every attempt counts as a failure: with the
      library's default gmail rules, which drop the dots of the local part,
      `first.last@gmail.com` is such an address. */
  lemma {:induction false} UnreachableAdminLockedOut(counters: Counters, store: OtpStore, ip: string, admin: Admin,
                                                     body: LoginBody, lib: LoginLib, threshold: int, secretsSet: bool,
                                                     txId: string, n: nat, now: int, mailed: bool)
    requires n < 1000000
    requires NeverNormalizesTo(lib, admin)
    ensures Login(counters, ip, admin, body, lib, threshold, secretsSet).reply.status != 200
    ensures var r := LoginStep1(counters, store, ip, admin, body, lib, threshold, txId, n, now, mailed);
            r.1 == store && !r.0.reply.OtpSent?
    ensures LoginValid(body, lib) && Truthy(admin.email) && Truthy(admin.passwordHash) ==>
              CheckBody(counters, ip, admin, body, lib, threshold).verdict == UnknownUser
  {
    assert NormEmail(Some(lib.normalizeEmail(body.email))) != NormEmail(admin.email);
  }

  /** One credential attempt: from where, with which e-mail, and bcrypt's verdict. */
  datatype Attempt = Attempt(ip: string, email: Option<string>, passwordMatches: bool)

  /** The counters after a run of validated credential checks. */
  function RunChecks(counters: Counters, admin: Admin, attempts: seq<Attempt>, threshold: int): Counters
    decreases |attempts|
  {
    if attempts == [] then counters
    else
      var a := attempts[0];
      RunChecks(CheckCredentials(counters, a.ip, admin, a.email, a.passwordMatches, threshold).counters,
                admin, attempts[1..], threshold)
  }

  /** The attempt is rejected for its credentials (not for the configuration). */
  predicate Fails(admin: Admin, a: Attempt) {
    && Truthy(admin.email) && Truthy(admin.passwordHash)
    && (NormEmail(a.email) != NormEmail(admin.email) || !a.passwordMatches)
  }

  /** Number of failing attempts from `ip`. */
  function FailuresFrom(admin: Admin, attempts: seq<Attempt>, ip: string): nat {
    if attempts == [] then 0
    else (if attempts[0].ip == ip && Fails(admin, attempts[0]) then 1 else 0) + FailuresFrom(admin, attempts[1..], ip)
  }

  /** An IP's counter is the number of its failures since its last success:
      with no success from it in the run, the counter grows by exactly its
      failures, whatever other IPs do in between. */
  lemma {:induction false} CounterCountsFailures(counters: Counters, admin: Admin, attempts: seq<Attempt>, ip: string, threshold: int)
    requires forall i | 0 <= i < |attempts| ::
               attempts[i].ip == ip ==> !(Truthy(admin.email) && Truthy(admin.passwordHash)) || Fails(admin, attempts[i])
    ensures Failures(RunChecks(counters, admin, attempts, threshold), ip) == Failures(counters, ip) + FailuresFrom(admin, attempts, ip)
    decreases |attempts|
  {
    if attempts != [] {
      var a := attempts[0];
      var c := CheckCredentials(counters, a.ip, admin, a.email, a.passwordMatches, threshold);
      assert Failures(c.counters, ip) == Failures(counters, ip) + (if a.ip == ip && Fails(admin, a) then 1 else 0);
      CounterCountsFailures(c.counters, admin, attempts[1..], ip, threshold);
    }
  }

  /** A success from the IP resets its count: afterwards only later failures count. */
  lemma {:induction false} SuccessResetsCounter(counters: Counters, admin: Admin, a: Attempt, threshold: int)
    requires Truthy(admin.email) && Truthy(admin.passwordHash) && !Fails(admin, a)
    ensures Failures(CheckCredentials(counters, a.ip, admin, a.email, a.passwordMatches, threshold).counters, a.ip) == 0
  {
  }
}
