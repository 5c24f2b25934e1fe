/**
 `generateCode`: resolve the account, look up its secret, and ask the
 one-time-password library for the current code. The library is not part of
 this model; it is the parameter `derive`, which for a secret either yields
 a code and the seconds it remains valid, or the message of the exception
 it threw.
 */
module Codes {
  import opened Wrappers
  import opened Text
  import opened Accounts

  /** The outcome of `authenticator.generate(secret)` followed by `authenticator.timeRemaining()`. */
  datatype Derivation =
    | Derived(code: string, remaining: int)
    | Threw(message: string)

  /** The object `generateCode` returns: an error message, or the code for the account as it was asked for. */
  datatype CodeResult =
    | Failed(error: string)
    | Code(code: string, remaining: int, account: string)

  function UnknownAccountMessage(account: string): string {
    "Unknown account: " + account + ". Available: " + AvailableNames()
  }

  function NoSecretMessage(keyName: string): string {
    "No secret found for " + keyName + " in secrets file"
  }

  function DerivationFailedMessage(message: string): string {
    "Failed to generate code: " + message
  }

  /**
   A code is produced exactly when the account resolves, its secret is
   present and non-empty, and the library derives a code from that secret;
   the result then carries the library's code and remaining time and the
   account name exactly as the caller spelled it.
   */
  function GenerateCode(account: string, secrets: map<string, string>, derive: string -> Derivation): (r: CodeResult)
    ensures r.Code? <==>
              && Resolve(account).Some?
              && HasSecret(secrets, Resolve(account).value)
              && derive(secrets[Resolve(account).value]).Derived?
    ensures r.Code? ==>
              && r.account == account
              && derive(secrets[Resolve(account).value]) == Derived(r.code, r.remaining)
  {
    match Resolve(account)
    case None => Failed(UnknownAccountMessage(account))
    case Some(keyName) =>
      if !HasSecret(secrets, keyName) then Failed(NoSecretMessage(keyName))
      else
        match derive(secrets[keyName])
        case Threw(message) => Failed(DerivationFailedMessage(message))
        case Derived(code, remaining) => Code(code, remaining, account)
  }

  /** The three reasons a code request fails, in the order they are checked. */
  datatype Cause = UnknownAccount | MissingSecret | DerivationFailed

  /** Reads the cause of a failure back from the text of its message. */
  function CauseOf(error: string): Option<Cause> {
    if StartsWith(error, "Unknown account: ") then Some(UnknownAccount)
    else if StartsWith(error, "No secret found for ") then Some(MissingSecret)
    else if StartsWith(error, "Failed to generate code: ") then Some(DerivationFailed)
    else None
  }

  /** The cause that applies to a request, checking the account before the secret before the library. */
  function ExpectedCause(account: string, secrets: map<string, string>, derive: string -> Derivation): Option<Cause> {
    if Resolve(account).None? then Some(UnknownAccount)
    else if !HasSecret(secrets, Resolve(account).value) then Some(MissingSecret)
    else if derive(secrets[Resolve(account).value]).Threw? then Some(DerivationFailed)
    else None
  }

  /** Each of the three failure messages is read back as its own cause. */
  lemma UnknownAccountNamesCause(account: string)
    ensures CauseOf(UnknownAccountMessage(account)) == Some(UnknownAccount)
  {
    var u := UnknownAccountMessage(account);
    assert u == "Unknown account: " + (account + ". Available: " + AvailableNames());
    assert u[..17] == "Unknown account: ";
  }

  lemma NoSecretNamesCause(keyName: string)
    ensures CauseOf(NoSecretMessage(keyName)) == Some(MissingSecret)
  {
    var n := NoSecretMessage(keyName);
    assert n == "No secret found for " + (keyName + " in secrets file");
    assert n[..20] == "No secret found for " && n[0] == 'N';
  }

  lemma DerivationFailedNamesCause(message: string)
    ensures CauseOf(DerivationFailedMessage(message)) == Some(DerivationFailed)
  {
    var d := DerivationFailedMessage(message);
    assert d[..25] == "Failed to generate code: " && d[0] == 'F';
  }

  /**
   Every failure message names its cause, and the cause is the first one that
   applies: an unknown account before a missing secret before a library error.
   */
  lemma FailureCause(account: string, secrets: map<string, string>, derive: string -> Derivation)
    ensures GenerateCode(account, secrets, derive).Failed? <==> ExpectedCause(account, secrets, derive).Some?
    ensures GenerateCode(account, secrets, derive).Failed? ==>
              CauseOf(GenerateCode(account, secrets, derive).error) == ExpectedCause(account, secrets, derive)
  {
    match Resolve(account)
    case None =>
      UnknownAccountNamesCause(account);
    case Some(keyName) =>
      if !HasSecret(secrets, keyName) {
        NoSecretNamesCause(keyName);
      } else if derive(secrets[keyName]).Threw? {
        DerivationFailedNamesCause(derive(secrets[keyName]).message);
      }
  }

  /**
   An unknown account is reported whatever the secrets and the library, and
   the message echoes the name as given and lists every registered account.
   */
  lemma UnknownAccountFirst(account: string, secrets: map<string, string>, derive: string -> Derivation)
    requires Resolve(account).None?
    ensures GenerateCode(account, secrets, derive) ==
              Failed("Unknown account: " + account + ". Available: google, codiedev42")
  {
  }

  /**
   When the library throws for a present secret, the failure carries the
   library's own message after the `Failed to generate code: ` prefix.
   */
  lemma LibraryFailureMessage(account: string, secrets: map<string, string>, derive: string -> Derivation, m: string)
    requires Resolve(account).Some? && HasSecret(secrets, Resolve(account).value)
    requires derive(secrets[Resolve(account).value]) == Threw(m)
    ensures GenerateCode(account, secrets, derive) == Failed("Failed to generate code: " + m)
  {
  }

  /** When the account is unknown or its secret missing, the library is never consulted. */
  lemma LibraryNotConsultedOnError(account: string, secrets: map<string, string>,
                                   derive1: string -> Derivation, derive2: string -> Derivation)
    requires Resolve(account).None? || !HasSecret(secrets, Resolve(account).value)
    ensures GenerateCode(account, secrets, derive1) == GenerateCode(account, secrets, derive2)
  {
  }

  /** A registered account without a secret reports the key it shares with its alias. */
  lemma MissingSecretMessage(account: string, secrets: map<string, string>, derive: string -> Derivation)
    requires Resolve(account).Some? && !HasSecret(secrets, Resolve(account).value)
    ensures GenerateCode(account, secrets, derive) == Failed("No secret found for " + "GOOGLE_TOTP_SECRET" + " in secrets file")
  {
    ResolveRegistry(account);
  }

  /**
   Accounts that differ only in the case of their letters get the same code
   from the same library state (one instant of the clock), each result
   echoing its own spelling.
   */
  lemma CaseInsensitiveCodes(a: string, b: string, secrets: map<string, string>, derive: string -> Derivation)
    requires EqualIgnoringAsciiCase(a, b)
    ensures GenerateCode(a, secrets, derive).Code? <==> GenerateCode(b, secrets, derive).Code?
    ensures GenerateCode(a, secrets, derive).Code? ==>
              GenerateCode(b, secrets, derive) == GenerateCode(a, secrets, derive).(account := b)
  {
    AsciiLowerEqualIff(a, b);
  }

  /**
   The listing and the code request agree: a registered account is reported
   configured exactly when asking for its code does not fail for a missing secret.
   */
  lemma ListingAgreesWithCodes(secrets: map<string, string>, derive: string -> Derivation, i: int)
    requires 0 <= i < |Registry|
    ensures ListAccounts(secrets)[i].Configured? <==>
              GenerateCode(Registry[i].name, secrets, derive) != Failed(NoSecretMessage(Registry[i].keyName))
  {
    var a := Registry[i];
    assert AsciiLower(a.name) == a.name by {
      if i == 0 { assert AsciiLower("google") == "google"; }
      else { assert AsciiLower("codiedev42") == "codiedev42"; }
    }
    ResolveRegistry(a.name);
    assert Resolve(a.name) == Some(a.keyName);
    var r := GenerateCode(a.name, secrets, derive);
    if HasSecret(secrets, a.keyName) && r.Failed? {
      var m := derive(secrets[a.keyName]).message;
      assert r.error == "Failed to generate code: " + m;
      assert r.error[0] == 'F';
      assert NoSecretMessage(a.keyName)[0] == 'N';
    }
  }
}
