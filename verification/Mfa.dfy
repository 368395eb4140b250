/**
 Second factors of an account: one credential per user, either a TOTP secret or an emailed code, and
 a set of recovery codes. The functions are the SQL statements; the class runs whole requests.
 */
module Mfa {
  import opened Options

  datatype Factor = Totp | Email

  datatype EmailCode = EmailCode(hash: string, expiresAt: int)

  datatype Credential = Credential(
    secret: string,
    factor: Factor,
    emailCode: Option<EmailCode>,
    enabledAt: Option<int>,
    lastUsedAt: Option<int>)

  datatype RecoveryCode = RecoveryCode(hash: string, usedAt: Option<int>)

  datatype Tables = Tables(credentials: map<string, Credential>, codes: map<string, seq<RecoveryCode>>) {
    function CodesOf(user: string): seq<RecoveryCode> {
      if user in codes then codes[user] else []
    }
  }

  // ----- statements -----

  function LastUsed(t: Tables, user: string): Option<int> {
    if user in t.credentials then t.credentials[user].lastUsedAt else None
  }

  /** Starts or restarts TOTP enrolment; an enabled credential is overwritten and becomes pending. */
  function UpsertTotp(t: Tables, user: string, secret: string): Tables {
    t.(credentials := t.credentials[user := Credential(secret, Totp, None, None, LastUsed(t, user))])
  }

  function UpsertEmail(t: Tables, user: string, hash: string, expiresAt: int): Tables {
    var code := EmailCode(hash, expiresAt);
    t.(credentials := t.credentials[user := Credential("", Email, Some(code), None, LastUsed(t, user))])
  }

  predicate HasEmailMethod(t: Tables, user: string) {
    user in t.credentials && t.credentials[user].factor == Email
  }

  function UpdateEmailCode(t: Tables, user: string, hash: string, expiresAt: int): Tables {
    if HasEmailMethod(t, user) then
      t.(credentials := t.credentials[user := t.credentials[user].(emailCode := Some(EmailCode(hash, expiresAt)))])
    else t
  }

  /** The guard shared by enabling with and consuming an emailed code. */
  predicate EmailCodeMatches(t: Tables, user: string, hash: string, now: int) {
    HasEmailMethod(t, user) && t.credentials[user].emailCode.Some?
    && t.credentials[user].emailCode.value.hash == hash && t.credentials[user].emailCode.value.expiresAt > now
  }

  function EnableEmail(t: Tables, user: string, hash: string, now: int): Tables {
    if EmailCodeMatches(t, user, hash, now) then
      t.(credentials := t.credentials[user := t.credentials[user].(enabledAt := Some(now), emailCode := None)])
    else t
  }

  function ConsumeEmail(t: Tables, user: string, hash: string, now: int): Tables {
    if EmailCodeMatches(t, user, hash, now) then
      t.(credentials := t.credentials[user := t.credentials[user].(emailCode := None, lastUsedAt := Some(now))])
    else t
  }

  predicate SecretMatches(t: Tables, user: string, secret: string) {
    user in t.credentials && t.credentials[user].secret == secret
  }

  function EnableTotp(t: Tables, user: string, secret: string, now: int): Tables {
    if SecretMatches(t, user, secret) then
      t.(credentials := t.credentials[user := t.credentials[user].(enabledAt := Some(now))])
    else t
  }

  function Touch(t: Tables, user: string, now: int): Tables {
    if user in t.credentials then
      t.(credentials := t.credentials[user := t.credentials[user].(lastUsedAt := Some(now))])
    else t
  }

  function DeleteCredential(t: Tables, user: string): Tables {
    t.(credentials := t.credentials - {user})
  }

  function DeleteCodes(t: Tables, user: string): Tables {
    t.(codes := t.codes[user := []])
  }

  function InsertCode(t: Tables, user: string, hash: string): Tables {
    t.(codes := t.codes[user := t.CodesOf(user) + [RecoveryCode(hash, None)]])
  }

  predicate UnusedCode(c: RecoveryCode, hash: string) {
    c.hash == hash && c.usedAt.None?
  }

  predicate HasUnusedCode(t: Tables, user: string, hash: string) {
    exists c :: c in t.CodesOf(user) && UnusedCode(c, hash)
  }

  function MarkUsed(cs: seq<RecoveryCode>, hash: string, now: int): (r: seq<RecoveryCode>)
    ensures |r| == |cs|
    ensures forall i :: 0 <= i < |cs| ==> r[i] == if UnusedCode(cs[i], hash) then cs[i].(usedAt := Some(now)) else cs[i]
  {
    seq(|cs|, i requires 0 <= i < |cs| => if UnusedCode(cs[i], hash) then cs[i].(usedAt := Some(now)) else cs[i])
  }

  function ConsumeRecovery(t: Tables, user: string, hash: string, now: int): Tables {
    t.(codes := t.codes[user := MarkUsed(t.CodesOf(user), hash, now)])
  }

  // ----- requests -----

  /** The TOTP library: None when the stored secret cannot be decoded. */
  type TotpCheck = (string, string, int) -> Option<bool>

  datatype ConfirmOutcome =
    | Enabled(recoveryCodes: seq<string>)
    | AlreadyEnabled | EnrolmentNotStarted | InvalidCode | BrokenSecret

  datatype VerifyOutcome = Primary | Recovery | Failed | NotEnabled

  datatype LoginOutcome = NotRequired | ChallengeRequired(factor: Factor) | EnrolmentRequired

  function LoginMfaOutcome(t: Tables, user: string, roleRequiresMfa: bool): LoginOutcome {
    if user in t.credentials && t.credentials[user].enabledAt.Some? then ChallengeRequired(t.credentials[user].factor)
    else if roleRequiresMfa then EnrolmentRequired
    else NotRequired
  }

  /** A fresh set of unused recovery codes. */
  function Unused(hashes: seq<string>): (r: seq<RecoveryCode>)
    ensures |r| == |hashes| && forall i :: 0 <= i < |hashes| ==> r[i] == RecoveryCode(hashes[i], None)
  {
    seq(|hashes|, i requires 0 <= i < |hashes| => RecoveryCode(hashes[i], None))
  }

  function HashAll(hash: string -> string, texts: seq<string>): (r: seq<string>)
    ensures |r| == |texts| && forall i :: 0 <= i < |texts| ==> r[i] == hash(texts[i])
  {
    seq(|texts|, i requires 0 <= i < |texts| => hash(texts[i]))
  }

  class MfaStore {
    /** SHA-256 of the trimmed code, in hex. */
    const hash: string -> string
    const checkTotp: TotpCheck
    var credentials: map<string, Credential>
    var codes: map<string, seq<RecoveryCode>>

    function Contents(): Tables
      reads this
    {
      Tables(credentials, codes)
    }

    constructor (hash: string -> string, checkTotp: TotpCheck)
      ensures this.hash == hash && this.checkTotp == checkTotp && Contents() == Tables(map[], map[])
    {
      this.hash := hash;
      this.checkTotp := checkTotp;
      credentials, codes := map[], map[];
    }

    /** Deletes every code of the user, then inserts the new ones one statement at a time. */
    method ReplaceRecoveryCodes(user: string, hashes: seq<string>)
      modifies this`codes
      ensures codes == old(codes)[user := Unused(hashes)]
    {
      codes := codes[user := []];
      for i := 0 to |hashes|
        invariant codes == old(codes)[user := Unused(hashes[..i])]
      {
        assert Unused(hashes[..i + 1]) == Unused(hashes[..i]) + [RecoveryCode(hashes[i], None)];
        codes := codes[user := codes[user] + [RecoveryCode(hashes[i], None)]];
      }
      assert hashes[..|hashes|] == hashes;
    }

    /**
     Starts enrolment over with a fresh TOTP secret or emailed code, pending until it is confirmed. The
     email method is refused without an address on file; nobody else's credential changes.
     */
    method BeginEnrollment(
      user: string, factor: Factor, hasEmail: bool, secret: string, code: string, expiresAt: int)
      returns (started: bool)
      modifies this`credentials
      ensures started <==> factor == Totp || hasEmail
      ensures
        var last := if user in old(credentials) then old(credentials)[user].lastUsedAt else None;
        credentials ==
          if !started then old(credentials)
          else if factor == Totp then old(credentials)[user := Credential(secret, Totp, None, None, last)]
          else old(credentials)[user := Credential("", Email, Some(EmailCode(hash(code), expiresAt)), None, last)]
    {
      if factor == Email && !hasEmail {
        return false;
      }
      if factor == Email {
        credentials := UpsertEmail(Contents(), user, hash(code), expiresAt).credentials;
      } else {
        credentials := UpsertTotp(Contents(), user, secret).credentials;
      }
      started := true;
    }

    /** Removes the second factor of one user, recovery codes included. */
    method Disable(user: string)
      modifies this
      ensures user !in credentials && Contents().CodesOf(user) == []
      ensures forall u :: u != user ==>
        && (u in credentials <==> u in old(credentials))
        && (u in credentials ==> credentials[u] == old(credentials)[u])
        && Contents().CodesOf(u) == old(Contents()).CodesOf(u)
    {
      credentials := DeleteCredential(Contents(), user).credentials;
      codes := DeleteCodes(Contents(), user).codes;
    }

    /**
     Confirms a pending enrolment. A TOTP code is checked against the secret that was read; an
     emailed code is matched and cleared by the statement that enables the credential.
     */
    method ConfirmEnrollment(
      user: string, code: string, now: int, newCodes: seq<string>) returns (outcome: ConfirmOutcome)
      modifies this
      ensures
        var t := old(Contents());
        if user !in t.credentials then outcome.EnrolmentNotStarted? && Contents() == t
        else
          var row := t.credentials[user];
          if row.enabledAt.Some? then outcome.AlreadyEnabled? && Contents() == t
          else if row.factor == Totp && checkTotp(row.secret, code, now).None? then
            outcome.BrokenSecret? && Contents() == t
          else if
            (row.factor == Email && !(row.emailCode.Some?
               && row.emailCode.value.hash == hash(code) && row.emailCode.value.expiresAt > now))
            || (row.factor == Totp && checkTotp(row.secret, code, now) != Some(true)) then
            outcome.InvalidCode? && Contents() == t
          else
            && outcome == Enabled(newCodes)
            && credentials == t.credentials[user := row.(
                 enabledAt := Some(now),
                 emailCode := if row.factor == Email then None else row.emailCode)]
            && codes == t.codes[user := Unused(HashAll(hash, newCodes))]
            && forall r :: LoginMfaOutcome(Contents(), user, r) == ChallengeRequired(row.factor)
    {
      if user !in credentials {
        return EnrolmentNotStarted;
      }
      var pending := credentials[user];
      if pending.enabledAt.Some? {
        return AlreadyEnabled;
      }
      var enabled;
      if pending.factor == Email {
        enabled := EmailCodeMatches(Contents(), user, hash(code), now);
        credentials := EnableEmail(Contents(), user, hash(code), now).credentials;
      } else {
        var matches := checkTotp(pending.secret, code, now);
        if matches.None? {
          return BrokenSecret;
        }
        if !matches.value {
          return InvalidCode;
        }
        enabled := SecretMatches(Contents(), user, pending.secret);
        credentials := EnableTotp(Contents(), user, pending.secret, now).credentials;
      }
      if !enabled {
        return InvalidCode;
      }
      ReplaceRecoveryCodes(user, HashAll(hash, newCodes));
      outcome := Enabled(newCodes);
    }

    /**
     Checks a code for an enabled credential: the primary method first, then the recovery codes. What is
     accepted is used up and noted; the credential stays enabled, and a refused code changes nothing.
     */
    method VerifyCode(user: string, code: string, now: int) returns (outcome: VerifyOutcome)
      modifies this
      ensures
        var t := old(Contents());
        if user !in t.credentials || t.credentials[user].enabledAt.None? then outcome.NotEnabled? && Contents() == t
        else
          var row := t.credentials[user];
          var emailed := row.factor == Email && row.emailCode.Some?
            && row.emailCode.value.hash == hash(code) && row.emailCode.value.expiresAt > now;
          var totp := row.factor == Totp && checkTotp(row.secret, code, now) == Some(true);
          var recovery := !emailed && !totp
            && exists c :: c in t.CodesOf(user) && c.hash == hash(code) && c.usedAt.None?;
          && outcome == (if emailed || totp then Primary else if recovery then Recovery else Failed)
          && credentials ==
               (if outcome.Failed? then t.credentials
                else t.credentials[user := row.(
                       lastUsedAt := Some(now),
                       emailCode := if emailed then None else row.emailCode)])
          && (forall u :: u != user ==> Contents().CodesOf(u) == t.CodesOf(u))
          && |Contents().CodesOf(user)| == |t.CodesOf(user)|
          && forall i :: 0 <= i < |t.CodesOf(user)| ==>
               var c := t.CodesOf(user)[i];
               Contents().CodesOf(user)[i] ==
                 if recovery && c.hash == hash(code) && c.usedAt.None? then c.(usedAt := Some(now)) else c
    {
      if user !in credentials || credentials[user].enabledAt.None? {
        return NotEnabled;
      }
      var credential := credentials[user];
      if credential.factor == Email {
        if EmailCodeMatches(Contents(), user, hash(code), now) {
          credentials := ConsumeEmail(Contents(), user, hash(code), now).credentials;
          return Primary;
        }
      } else if checkTotp(credential.secret, code, now) == Some(true) {
        credentials := Touch(Contents(), user, now).credentials;
        return Primary;
      }
      var found := HasUnusedCode(Contents(), user, hash(code));
      codes := ConsumeRecovery(Contents(), user, hash(code), now).codes;
      if found {
        credentials := Touch(Contents(), user, now).credentials;
        return Recovery;
      }
      outcome := Failed;
    }

    /**
     Afterwards the new code, until it expires, is the only emailed code that matches for an email
     credential; any other credential and every other user are left alone.
     */
    method ResendEmailCode(user: string, code: string, expiresAt: int) returns (sent: bool)
      modifies this`credentials
      ensures sent <==> user in old(credentials) && old(credentials)[user].factor == Email
      ensures sent ==> forall h, now ::
        EmailCodeMatches(Contents(), user, h, now) <==> h == hash(code) && now < expiresAt
      ensures credentials.Keys == old(credentials).Keys
      ensures forall u :: u in credentials ==>
        credentials[u] == old(credentials)[u].(
          emailCode := if sent && u == user then credentials[u].emailCode else old(credentials)[u].emailCode)
    {
      sent := HasEmailMethod(Contents(), user);
      credentials := UpdateEmailCode(Contents(), user, hash(code), expiresAt).credentials;
    }
  }

  /**
   Starting an enrolment over leaves the login outcome alone exactly when no credential was enabled.
   An enabled one is overwritten and becomes pending, so the next login is not challenged.
   */
  lemma RestartKeepsLoginOutcomeIff(
    t: Tables, user: string, secret: string, hash: string, expiresAt: int, roleRequiresMfa: bool)
    ensures
      var after := UpsertTotp(t, user, secret);
      LoginMfaOutcome(after, user, roleRequiresMfa) == LoginMfaOutcome(t, user, roleRequiresMfa) <==>
        user !in t.credentials || t.credentials[user].enabledAt.None?
    ensures
      var after := UpsertEmail(t, user, hash, expiresAt);
      LoginMfaOutcome(after, user, roleRequiresMfa) == LoginMfaOutcome(t, user, roleRequiresMfa) <==>
        user !in t.credentials || t.credentials[user].enabledAt.None?
    ensures !LoginMfaOutcome(UpsertTotp(t, user, secret), user, roleRequiresMfa).ChallengeRequired?
    ensures !LoginMfaOutcome(UpsertEmail(t, user, hash, expiresAt), user, roleRequiresMfa).ChallengeRequired?
  {
  }
}

/** Any interleaving of the statements of enrolment, resend, confirmation, verification and removal. */
module MfaRuns {
  import opened Options
  import opened Mfa

  type Worker = nat

  /** A confirmation in flight: the row it read, then the secret its TOTP code was checked against. */
  datatype Stage = Idle | Looked(user: string, row: Credential) | Checked(user: string, secret: string)

  /** Pairs of a user and a code hash. */
  type Uses = multiset<(string, string)>

  /** The tables, the confirmations in flight, and what has been issued, spent and checked so far. */
  datatype State = State(
    tables: Tables,
    stages: map<Worker, Stage>,
    checked: set<(string, string)>,
    emailed: Uses,
    emailSpent: Uses,
    recoveryIssued: Uses,
    recoverySpent: Uses)
  {
    function StageOf(w: Worker): Stage {
      if w in stages then stages[w] else Idle
    }
  }

  datatype Action =
    | BeginTotp(user: string, secret: string)
    | BeginEmail(user: string, hash: string, expiresAt: int)
    | Resend(user: string, hash: string, expiresAt: int)
    | Look(w: Worker, user: string)
    | CheckTotp(w: Worker, code: string, now: int)
    | EnableByTotp(w: Worker, now: int)
    | EnableByEmail(w: Worker, hash: string, now: int)
    | ConsumeEmailed(user: string, hash: string, now: int)
    | ConsumeRecoveryCode(user: string, hash: string, now: int)
    | TouchLastUsed(user: string, now: int)
    | RemoveCredential(user: string)
    | RemoveCodes(user: string)
    | AddCode(user: string, hash: string)

  /** One statement; a confirmation step out of turn and an empty TOTP secret change nothing. */
  function Step(check: TotpCheck, s: State, action: Action): State {
    match action
    case BeginTotp(user, secret) => if secret == "" then s else s.(tables := UpsertTotp(s.tables, user, secret))
    case BeginEmail(user, hash, expiresAt) =>
      s.(tables := UpsertEmail(s.tables, user, hash, expiresAt), emailed := s.emailed + multiset{(user, hash)})
    case Resend(user, hash, expiresAt) =>
      s.(tables := UpdateEmailCode(s.tables, user, hash, expiresAt),
         emailed := if HasEmailMethod(s.tables, user) then s.emailed + multiset{(user, hash)} else s.emailed)
    case Look(w, user) =>
      if s.StageOf(w) == Idle && user in s.tables.credentials && s.tables.credentials[user].enabledAt.None? then
        s.(stages := s.stages[w := Looked(user, s.tables.credentials[user])])
      else s
    case CheckTotp(w, code, now) =>
      (match s.StageOf(w)
       case Looked(user, row) =>
         if row.factor == Totp && check(row.secret, code, now) == Some(true) then
           s.(stages := s.stages[w := Checked(user, row.secret)], checked := s.checked + {(user, row.secret)})
         else if row.factor == Totp then s.(stages := s.stages[w := Idle])
         else s
       case _ => s)
    case EnableByTotp(w, now) =>
      (match s.StageOf(w)
       case Checked(user, secret) =>
         s.(tables := EnableTotp(s.tables, user, secret, now), stages := s.stages[w := Idle])
       case _ => s)
    case EnableByEmail(w, hash, now) =>
      (match s.StageOf(w)
       case Looked(user, row) =>
         if row.factor == Email then
           s.(tables := EnableEmail(s.tables, user, hash, now),
              stages := s.stages[w := Idle],
              emailSpent := Spent(s.emailSpent, (user, hash), EmailCodeMatches(s.tables, user, hash, now)))
         else s
       case _ => s)
    case ConsumeEmailed(user, hash, now) =>
      s.(tables := ConsumeEmail(s.tables, user, hash, now),
         emailSpent := Spent(s.emailSpent, (user, hash), EmailCodeMatches(s.tables, user, hash, now)))
    case ConsumeRecoveryCode(user, hash, now) =>
      s.(tables := ConsumeRecovery(s.tables, user, hash, now),
         recoverySpent := Spent(s.recoverySpent, (user, hash), HasUnusedCode(s.tables, user, hash)))
    case TouchLastUsed(user, now) => s.(tables := Touch(s.tables, user, now))
    case RemoveCredential(user) => s.(tables := DeleteCredential(s.tables, user))
    case RemoveCodes(user) => s.(tables := DeleteCodes(s.tables, user))
    case AddCode(user, hash) =>
      s.(tables := InsertCode(s.tables, user, hash), recoveryIssued := s.recoveryIssued + multiset{(user, hash)})
  }

  function Spent(uses: Uses, use: (string, string), success: bool): Uses {
    if success then uses + multiset{use} else uses
  }

  function Run(check: TotpCheck, s: State, actions: seq<Action>): State
    decreases actions
  {
    if actions == [] then s else Run(check, Step(check, s, actions[0]), actions[1..])
  }

  const Empty: State := State(Tables(map[], map[]), map[], {}, multiset{}, multiset{}, multiset{}, multiset{})

  /** The steps of a confirmation that nobody disturbs enable the credential for a right code. */
  lemma UndisturbedConfirmation(
      check: TotpCheck, s: State, w: Worker, user: string, code: string, hash: string, now: int)
    requires s.StageOf(w) == Idle && user in s.tables.credentials && s.tables.credentials[user].enabledAt.None?
    ensures
      var row := s.tables.credentials[user];
      var looked := Step(check, s, Look(w, user));
      var byTotp := Step(check, Step(check, looked, CheckTotp(w, code, now)), EnableByTotp(w, now));
      var byEmail := Step(check, looked, EnableByEmail(w, hash, now));
      var matches := row.emailCode.Some? && row.emailCode.value.hash == hash && row.emailCode.value.expiresAt > now;
      && (row.factor == Totp ==> byTotp.StageOf(w) == Idle)
      && (row.factor == Email ==> byEmail.StageOf(w) == Idle && Step(check, looked, CheckTotp(w, code, now)) == looked)
      && (row.factor == Totp && check(row.secret, code, now) == Some(true) ==>
            byTotp.tables.credentials == s.tables.credentials[user := row.(enabledAt := Some(now))])
      && (row.factor == Totp && check(row.secret, code, now) != Some(true) ==>
            byTotp.tables == s.tables && byTotp.checked == s.checked)
      && (row.factor == Email && matches ==>
            && byEmail.tables.credentials ==
                 s.tables.credentials[user := row.(enabledAt := Some(now), emailCode := None)]
            && byEmail.emailSpent == s.emailSpent + multiset{(user, hash)})
      && (row.factor == Email && !matches ==> byEmail.tables == s.tables && byEmail.emailSpent == s.emailSpent)
  {
  }

  /** A stored, unexpired code is accepted and counted as spent, any other is not. */
  lemma SpendingIsCounted(check: TotpCheck, s: State, user: string, hash: string, now: int)
    ensures
      var emailed := user in s.tables.credentials && s.tables.credentials[user].factor == Email
        && s.tables.credentials[user].emailCode.Some?
        && s.tables.credentials[user].emailCode.value.hash == hash
        && s.tables.credentials[user].emailCode.value.expiresAt > now;
      Step(check, s, ConsumeEmailed(user, hash, now)).emailSpent
        == if emailed then s.emailSpent + multiset{(user, hash)} else s.emailSpent
    ensures
      var unused := exists c :: c in s.tables.CodesOf(user) && c.hash == hash && c.usedAt.None?;
      Step(check, s, ConsumeRecoveryCode(user, hash, now)).recoverySpent
        == if unused then s.recoverySpent + multiset{(user, hash)} else s.recoverySpent
  {
  }

  // ----- what every state keeps -----

  /**
   A TOTP row never carries an emailed code and an email row never a secret. A TOTP row is enabled
   only with a secret against which a code was checked, an email row only after a code was spent.
   */
  ghost predicate RowSound(s: State, user: string)
    requires user in s.tables.credentials
  {
    var row := s.tables.credentials[user];
    match row.factor
    case Totp => row.secret != "" && row.emailCode.None? && (row.enabledAt.Some? ==> (user, row.secret) in s.checked)
    case Email => row.secret == "" && (row.enabledAt.Some? ==> HasSpent(s.emailSpent, user))
  }

  ghost predicate HasSpent(spent: Uses, user: string) {
    exists h :: spent[(user, h)] > 0
  }

  ghost predicate StageSound(s: State, w: Worker) {
    match s.StageOf(w)
    case Idle => true
    case Looked(user, row) => row.factor == Totp ==> row.secret != ""
    case Checked(user, secret) => secret != "" && (user, secret) in s.checked
  }

  function StoredEmailed(t: Tables, use: (string, string)): nat {
    if use.0 in t.credentials && t.credentials[use.0].emailCode.Some?
      && t.credentials[use.0].emailCode.value.hash == use.1 then 1 else 0
  }

  function CountUnused(cs: seq<RecoveryCode>, hash: string): nat {
    if cs == [] then 0 else CountUnused(cs[..|cs| - 1], hash) + if UnusedCode(cs[|cs| - 1], hash) then 1 else 0
  }

  /** Codes are conserved: what was spent and what is still stored never exceeds what was issued. */
  ghost predicate EmailConserved(s: State, use: (string, string)) {
    s.emailSpent[use] + StoredEmailed(s.tables, use) <= s.emailed[use]
  }

  ghost predicate RecoveryConserved(s: State, use: (string, string)) {
    s.recoverySpent[use] + CountUnused(s.tables.CodesOf(use.0), use.1) <= s.recoveryIssued[use]
  }

  ghost predicate Sound(s: State) {
    && (forall user :: user in s.tables.credentials ==> RowSound(s, user))
    && (forall w: Worker :: StageSound(s, w))
    && (forall use :: EmailConserved(s, use))
    && (forall use :: RecoveryConserved(s, use))
  }

  lemma StepKeepsRow(check: TotpCheck, s: State, action: Action, user: string)
    requires Sound(s) && user in Step(check, s, action).tables.credentials
    ensures RowSound(Step(check, s, action), user)
  {
    hide Sound;
    RowsAreSound(s, user);
    SpentOnlyGrows(check, s, action, user);
    if action.EnableByTotp? || action.EnableByEmail? {
      StagesAreSound(s, action.w);
      EnablingKeepsRow(check, s, action, user);
    } else if Writes(action) {
      WritingStepKeepsRow(check, s, action, user);
    } else {
      QuietStepKeepsRow(check, s, action, user);
    }
  }

  lemma RowsAreSound(s: State, user: string)
    requires Sound(s)
    ensures user in s.tables.credentials ==> RowSound(s, user)
  {
  }

  lemma StagesAreSound(s: State, w: Worker)
    requires Sound(s)
    ensures StageSound(s, w)
  {
  }

  lemma EnablingKeepsRow(check: TotpCheck, s: State, action: Action, user: string)
    requires action.EnableByTotp? || action.EnableByEmail?
    requires StageSound(s, action.w) && user in s.tables.credentials && RowSound(s, user)
    requires HasSpent(s.emailSpent, user) ==> HasSpent(Step(check, s, action).emailSpent, user)
    ensures user in Step(check, s, action).tables.credentials && RowSound(Step(check, s, action), user)
  {
    var after := Step(check, s, action);
    if action.EnableByEmail? && s.StageOf(action.w).Looked? && s.StageOf(action.w).user == user
      && after.tables != s.tables {
      assert after.emailSpent[(user, action.hash)] > 0;
    }
  }

  predicate Writes(action: Action) {
    action.BeginTotp? || action.BeginEmail? || action.Resend? || action.ConsumeEmailed? || action.TouchLastUsed?
  }

  lemma WritingStepKeepsRow(check: TotpCheck, s: State, action: Action, user: string)
    requires Writes(action)
    requires user in s.tables.credentials ==> RowSound(s, user)
    requires user in Step(check, s, action).tables.credentials
    requires HasSpent(s.emailSpent, user) ==> HasSpent(Step(check, s, action).emailSpent, user)
    ensures RowSound(Step(check, s, action), user)
  {
    hide HasSpent;
  }

  /** The remaining steps write no credential; at most they delete one or add a checked secret. */
  lemma QuietStepKeepsRow(check: TotpCheck, s: State, action: Action, user: string)
    requires !Writes(action) && !action.EnableByTotp? && !action.EnableByEmail?
    requires user in s.tables.credentials ==> RowSound(s, user)
    requires user in Step(check, s, action).tables.credentials
    requires HasSpent(s.emailSpent, user) ==> HasSpent(Step(check, s, action).emailSpent, user)
    ensures RowSound(Step(check, s, action), user)
  {
    hide HasSpent;
    var after := Step(check, s, action);
    assert user in s.tables.credentials && after.tables.credentials[user] == s.tables.credentials[user];
    assert s.checked <= after.checked;
  }

  lemma SpentOnlyGrows(check: TotpCheck, s: State, action: Action, user: string)
    ensures HasSpent(s.emailSpent, user) ==> HasSpent(Step(check, s, action).emailSpent, user)
    ensures s.checked <= Step(check, s, action).checked
  {
    if h :| s.emailSpent[(user, h)] > 0 {
      assert Step(check, s, action).emailSpent[(user, h)] > 0;
    }
  }

  lemma StepKeepsStage(check: TotpCheck, s: State, action: Action, w: Worker)
    requires Sound(s)
    ensures StageSound(Step(check, s, action), w)
  {
    hide Sound, HasSpent;
    StagesAreSound(s, w);
    if action.Look? {
      RowsAreSound(s, action.user);
    }
  }

  lemma StepConservesEmailed(check: TotpCheck, s: State, action: Action, use: (string, string))
    requires EmailConserved(s, use)
    ensures EmailConserved(Step(check, s, action), use)
  {
    hide CountUnused;
  }

  /** Marking a code used takes all its copies away and leaves the count of every other code alone. */
  lemma {:induction false} MarkingUsesUp(cs: seq<RecoveryCode>, spent: string, now: int, hash: string)
    ensures CountUnused(MarkUsed(cs, spent, now), hash) == if hash == spent then 0 else CountUnused(cs, hash)
  {
    if cs != [] {
      var n := |cs| - 1;
      MarkingUsesUp(cs[..n], spent, now, hash);
      assert MarkUsed(cs, spent, now)[..n] == MarkUsed(cs[..n], spent, now);
    }
  }

  lemma {:induction false} UnusedIffCounted(cs: seq<RecoveryCode>, hash: string)
    ensures CountUnused(cs, hash) > 0 <==> exists c :: c in cs && UnusedCode(c, hash)
  {
    if cs != [] {
      var n := |cs| - 1;
      UnusedIffCounted(cs[..n], hash);
      if c :| c in cs && UnusedCode(c, hash) {
        assert c == cs[n] || c in cs[..n];
      }
    }
  }

  lemma StepConservesRecovery(check: TotpCheck, s: State, action: Action, use: (string, string))
    requires RecoveryConserved(s, use)
    ensures RecoveryConserved(Step(check, s, action), use)
  {
    match action {
      case ConsumeRecoveryCode(user, hash, now) =>
        MarkingUsesUp(s.tables.CodesOf(user), hash, now, use.1);
        UnusedIffCounted(s.tables.CodesOf(user), use.1);
      case AddCode(user, hash) =>
        var more := s.tables.CodesOf(user) + [RecoveryCode(hash, None)];
        assert more[..|more| - 1] == s.tables.CodesOf(user);
      case RemoveCodes(user) =>
      case _ =>
        OtherStepsLeaveCodes(check, s, action);
    }
  }

  lemma OtherStepsLeaveCodes(check: TotpCheck, s: State, action: Action)
    requires !action.ConsumeRecoveryCode? && !action.AddCode? && !action.RemoveCodes?
    ensures
      var after := Step(check, s, action);
      && after.tables.codes == s.tables.codes
      && after.recoverySpent == s.recoverySpent && after.recoveryIssued == s.recoveryIssued
  {
  }

  lemma StepKeepsSound(check: TotpCheck, s: State, action: Action)
    requires Sound(s)
    ensures Sound(Step(check, s, action))
  {
    hide Step, EmailConserved, RecoveryConserved, RowSound, StageSound;
    var after := Step(check, s, action);
    forall user | user in after.tables.credentials ensures RowSound(after, user) {
      StepKeepsRow(check, s, action, user);
    }
    forall w: Worker ensures StageSound(after, w) {
      StepKeepsStage(check, s, action, w);
    }
    forall use ensures EmailConserved(after, use) {
      StepConservesEmailed(check, s, action, use);
    }
    forall use ensures RecoveryConserved(after, use) {
      StepConservesRecovery(check, s, action, use);
    }
  }

  /** Every interleaving keeps the rows consistent with what was checked and the codes conserved. */
  lemma {:induction false} RunKeepsSound(check: TotpCheck, s: State, actions: seq<Action>)
    requires Sound(s)
    ensures Sound(Run(check, s, actions))
    decreases actions
  {
    if actions != [] {
      StepKeepsSound(check, s, actions[0]);
      RunKeepsSound(check, Step(check, s, actions[0]), actions[1..]);
    }
  }

  /** What holds after any run from empty tables, for every user and every code. */
  lemma AnyRun(check: TotpCheck, actions: seq<Action>, user: string, hash: string)
    ensures
      var s := Run(check, Empty, actions);
      && (user in s.tables.credentials ==>
           var row := s.tables.credentials[user];
           && (row.factor == Totp ==> row.emailCode.None?)
           && (row.factor == Email ==> row.secret == "")
           && (row.factor == Totp && row.enabledAt.Some? ==> (user, row.secret) in s.checked))
      && s.emailSpent[(user, hash)] <= s.emailed[(user, hash)]
      && s.recoverySpent[(user, hash)] <= s.recoveryIssued[(user, hash)]
  {
    RunKeepsSound(check, Empty, actions);
    var s := Run(check, Empty, actions);
    assert EmailConserved(s, (user, hash)) && RecoveryConserved(s, (user, hash));
    if user in s.tables.credentials {
      assert RowSound(s, user);
    }
  }

  /** A secret is among the checked ones only if some step of the run matched a code against that very secret. */
  lemma {:induction false} CheckedMeansMatched(
    check: TotpCheck, s: State, actions: seq<Action>, user: string, secret: string)
    requires (user, secret) in Run(check, s, actions).checked && (user, secret) !in s.checked
    ensures exists a :: a in actions && a.CheckTotp? && check(secret, a.code, a.now) == Some(true)
    decreases actions
  {
    var next := Step(check, s, actions[0]);
    assert actions[0] in actions;
    if (user, secret) !in next.checked {
      CheckedMeansMatched(check, next, actions[1..], user, secret);
      var a :| a in actions[1..] && a.CheckTotp? && check(secret, a.code, a.now) == Some(true);
      assert a in actions;
    }
  }

  /** In every run an enabled TOTP credential holds a secret that some code in the run was matched against. */
  lemma EnabledMeansMatched(check: TotpCheck, actions: seq<Action>, user: string)
    ensures
      var t := Run(check, Empty, actions).tables;
      user in t.credentials && t.credentials[user].factor == Totp && t.credentials[user].enabledAt.Some? ==>
        exists a :: a in actions && a.CheckTotp? && check(t.credentials[user].secret, a.code, a.now) == Some(true)
  {
    hide Run;
    var s := Run(check, Empty, actions);
    AnyRun(check, actions, user, "");
    if user in s.tables.credentials {
      var row := s.tables.credentials[user];
      if row.factor == Totp && row.enabledAt.Some? {
        CheckedMeansMatched(check, Empty, actions, user, row.secret);
      }
    }
  }

  predicate Enabled(t: Tables, user: string) {
    user in t.credentials && t.credentials[user].enabledAt.Some?
  }

  lemma StepStaysDisabled(check: TotpCheck, s: State, action: Action, user: string)
    requires !Enabled(s.tables, user) && !action.EnableByTotp? && !action.EnableByEmail?
    ensures !Enabled(Step(check, s, action).tables, user)
  {
  }

  lemma {:induction false} StaysDisabled(check: TotpCheck, s: State, actions: seq<Action>, user: string)
    requires !Enabled(s.tables, user)
    requires forall a :: a in actions ==> !a.EnableByTotp? && !a.EnableByEmail?
    ensures !Enabled(Run(check, s, actions).tables, user)
    decreases actions
  {
    if actions != [] {
      assert actions[0] in actions;
      StepStaysDisabled(check, s, actions[0], user);
      hide Step, Enabled;
      StaysDisabled(check, Step(check, s, actions[0]), actions[1..], user);
    }
  }

  /** From a restart until some confirmation, whatever else happens, the account's logins are not challenged. */
  lemma RestartSuspendsUntilConfirmed(
    check: TotpCheck, s: State, begin: Action, actions: seq<Action>, roleRequiresMfa: bool)
    requires (begin.BeginTotp? && begin.secret != "") || begin.BeginEmail?
    requires forall a :: a in actions ==> !a.EnableByTotp? && !a.EnableByEmail?
    ensures
      var after := Run(check, Step(check, s, begin), actions).tables;
      LoginMfaOutcome(after, begin.user, roleRequiresMfa) == if roleRequiresMfa then EnrolmentRequired else NotRequired
  {
    StaysDisabled(check, Step(check, s, begin), actions, begin.user);
  }
}
