/**
 The handler of tool calls: it runs the requested operation against a
 freshly loaded secrets file and renders the outcome as the one text block
 of the response. Every outcome, an unknown tool included, is a text
 response; none is a protocol error.
 */
module Dispatcher {
  import opened Wrappers
  import opened Text
  import opened Secrets
  import opened Accounts
  import opened Codes

  const ErrorPrefix := "Error: "
  const ListingHeader := "Available TOTP accounts:"

  /**
   The response to a code request: a failure becomes "Error: " and its
   message, which is the only way a response can start with "Error: ".
   */
  function FormatCodeResult(r: CodeResult): (text: string)
    ensures r.Failed? <==> StartsWith(text, ErrorPrefix)
    ensures r.Failed? ==> text[|ErrorPrefix|..] == r.error
  {
    match r
    case Failed(error) => ErrorPrefix + error
    case Code(code, remaining, account) =>
      var text := "TOTP code for " + account + ": " + code + "\nValid for " + DecimalString(remaining) + " more seconds";
      assert text[0] == 'T';
      text
  }

  /** One line of the listing. */
  function FormatStatus(s: AccountStatus): string {
    match s
    case Configured(account) => "- " + account + ": configured"
    case NotConfigured(account, missing) => "- " + account + ": NOT configured (missing " + missing + ")"
  }

  /** The listing lines, one per status, in order. */
  function StatusLines(statuses: seq<AccountStatus>): (lines: seq<string>)
    ensures |lines| == |statuses|
    ensures forall i :: 0 <= i < |statuses| ==> lines[i] == FormatStatus(statuses[i])
  {
    seq(|statuses|, i requires 0 <= i < |statuses| => FormatStatus(statuses[i]))
  }

  /** The response to a listing request: the header, a newline, and the lines joined by newlines. */
  function FormatListing(statuses: seq<AccountStatus>): string {
    ListingHeader + "\n" + Join(StatusLines(statuses), "\n")
  }

  /** The text of a status line holds no newline when the names in it hold none. */
  lemma StatusLineSingle(s: AccountStatus)
    requires '\n' !in s.account
    requires s.NotConfigured? ==> '\n' !in s.missing
    ensures '\n' !in FormatStatus(s)
  {
    assert '\n' !in "- " && '\n' !in ": configured";
    assert '\n' !in ": NOT configured (missing " && '\n' !in ")";
  }

  /**
   Cutting a listing at its newlines gives back the header followed by one
   line per status; an empty listing leaves a dangling empty line, because
   joining no lines gives the empty text.
   */
  lemma ListingLines(statuses: seq<AccountStatus>)
    requires forall i :: 0 <= i < |statuses| ==> '\n' !in statuses[i].account
    requires forall i :: 0 <= i < |statuses| && statuses[i].NotConfigured? ==> '\n' !in statuses[i].missing
    ensures |statuses| > 0 ==> Split(FormatListing(statuses), '\n') == [ListingHeader] + StatusLines(statuses)
    ensures |statuses| == 0 ==> Split(FormatListing(statuses), '\n') == [ListingHeader, ""]
  {
    var lines := StatusLines(statuses);
    var all := [ListingHeader] + lines;
    forall i | 0 <= i < |all| ensures '\n' !in all[i] {
      if i > 0 {
        StatusLineSingle(statuses[i - 1]);
      }
    }
    if |lines| > 0 {
      JoinCons(ListingHeader, lines, "\n");
      SplitJoin(all, '\n');
    } else {
      var two := [ListingHeader, ""];
      assert Join(two, "\n") == ListingHeader + "\n" + "";
      assert ListingHeader + "\n" + "" == FormatListing(statuses);
      SplitJoin(two, '\n');
    }
  }

  /** A rendered integer holds no newline. */
  lemma DecimalSingleLine(n: int)
    ensures '\n' !in DecimalString(n)
  {
    var digits := DecimalString(n);
    forall i | 0 <= i < |digits| ensures digits[i] != '\n' {
      if n >= 0 || i > 0 {
        assert IsDigit(digits[i]);
      }
    }
  }

  /** Proof step: the success text regrouped as its two lines around the newline. */
  lemma SuccessTextRegrouped(code: string, remaining: int, account: string)
    ensures FormatCodeResult(Code(code, remaining, account)) ==
              ("TOTP code for " + account + ": " + code) + "\n" + ("Valid for " + DecimalString(remaining) + " more seconds")
  {
    assert "\n" + "Valid for " == "\nValid for ";
  }

  /**
   A successful code response is two lines: the account as asked for with
   its code, then the seconds the code stays valid.
   */
  lemma CodeResponseLines(code: string, remaining: int, account: string)
    requires '\n' !in code && '\n' !in account
    ensures Split(FormatCodeResult(Code(code, remaining, account)), '\n') ==
              ["TOTP code for " + account + ": " + code, "Valid for " + DecimalString(remaining) + " more seconds"]
  {
    var first := "TOTP code for " + account + ": " + code;
    var second := "Valid for " + DecimalString(remaining) + " more seconds";
    DecimalSingleLine(remaining);
    assert '\n' !in second;
    assert '\n' !in first;
    var pieces := [first, second];
    assert pieces[1..] == [second];
    assert Join(pieces, "\n") == first + "\n" + second;
    SuccessTextRegrouped(code, remaining, account);
    SplitJoin(pieces, '\n');
  }

  /**
   The tool-call handler. `file` is the text of the secrets file, or None
   when it could not be read; `account` is the `account` argument of the call.
   */
  function CallTool(name: string, account: string, file: Option<string>, derive: string -> Derivation): (text: string)
    ensures name == "get_totp_code" ==>
              (StartsWith(text, ErrorPrefix) <==> GenerateCode(account, LoadSecrets(file), derive).Failed?)
    ensures name != "get_totp_code" && name != "list_totp_accounts" ==> text == "Unknown tool: " + name
  {
    if name == "get_totp_code" then
      FormatCodeResult(GenerateCode(account, LoadSecrets(file), derive))
    else if name == "list_totp_accounts" then
      FormatListing(ListAccounts(LoadSecrets(file)))
    else
      "Unknown tool: " + name
  }

  /** An unknown tool is answered with a text naming it, never with an error. */
  lemma UnknownToolIsText(name: string, account: string, file: Option<string>, derive: string -> Derivation)
    requires name != "get_totp_code" && name != "list_totp_accounts"
    ensures CallTool(name, account, file, derive) == "Unknown tool: " + name
    ensures !StartsWith(CallTool(name, account, file, derive), ErrorPrefix)
  {
    assert CallTool(name, account, file, derive)[0] == 'U';
  }

  /** The listing of the registry has the header and then one line per registered account, in definition order. */
  lemma RegistryListingLines(secrets: map<string, string>)
    ensures Split(FormatListing(ListAccounts(secrets)), '\n') == [ListingHeader] + StatusLines(ListAccounts(secrets))
  {
    var statuses := ListAccounts(secrets);
    assert '\n' !in "google" && '\n' !in "codiedev42" && '\n' !in "GOOGLE_TOTP_SECRET";
    assert forall i :: 0 <= i < |statuses| ==> statuses[i].account == Registry[i].name;
    ListingLines(statuses);
  }

  /** The listing response has the header and then one line per registered account, in definition order. */
  lemma ListToolLines(account: string, file: Option<string>, derive: string -> Derivation)
    ensures Split(CallTool("list_totp_accounts", account, file, derive), '\n') ==
              [ListingHeader] + StatusLines(ListAccounts(LoadSecrets(file)))
    ensures |Split(CallTool("list_totp_accounts", account, file, derive), '\n')| == 1 + |Registry|
  {
    RegistryListingLines(LoadSecrets(file));
  }

  /** An unknown account is answered with an error listing the registered accounts. */
  lemma UnknownAccountResponse(account: string, file: Option<string>, derive: string -> Derivation)
    requires Resolve(account).None?
    ensures CallTool("get_totp_code", account, file, derive) ==
              ErrorPrefix + "Unknown account: " + account + ". Available: google, codiedev42"
  {
    var secrets := LoadSecrets(file);
    var message := "Unknown account: " + account + ". Available: google, codiedev42";
    UnknownAccountFirst(account, secrets, derive);
    assert GenerateCode(account, secrets, derive) == Failed(message);
    assert CallTool("get_totp_code", account, file, derive) == ErrorPrefix + message;
    assert ErrorPrefix + message == ErrorPrefix + "Unknown account: " + account + ". Available: google, codiedev42";
  }

  /** A library failure is answered with an error carrying the library's own message. */
  lemma LibraryFailureResponse(account: string, file: Option<string>, derive: string -> Derivation, m: string)
    requires Resolve(account).Some?
    ensures HasSecret(LoadSecrets(file), Resolve(account).value) && derive(LoadSecrets(file)[Resolve(account).value]) == Threw(m) ==>
              CallTool("get_totp_code", account, file, derive) == ErrorPrefix + "Failed to generate code: " + m
  {
    var secrets := LoadSecrets(file);
    if HasSecret(secrets, Resolve(account).value) && derive(secrets[Resolve(account).value]) == Threw(m) {
      LibraryFailureMessage(account, secrets, derive, m);
    }
  }

  /** With no secrets, the listing names the missing key of every account. */
  lemma EmptyStoreListing()
    ensures FormatListing(ListAccounts(map[])) ==
              ListingHeader + "\n"
              + "- " + "google" + ": NOT configured (missing " + "GOOGLE_TOTP_SECRET" + ")" + "\n"
              + "- " + "codiedev42" + ": NOT configured (missing " + "GOOGLE_TOTP_SECRET" + ")"
  {
    NothingConfiguredWithoutSecrets();
    var line0 := FormatStatus(NotConfigured("google", "GOOGLE_TOTP_SECRET"));
    var line1 := FormatStatus(NotConfigured("codiedev42", "GOOGLE_TOTP_SECRET"));
    var lines := StatusLines(ListAccounts(map[]));
    assert lines == [line0, line1];
    assert lines[1..] == [line1];
    assert Join(lines, "\n") == line0 + "\n" + line1;
  }

  /** When the secrets file cannot be read, every account is listed as NOT configured. */
  lemma UnreadableFileListing(account: string, derive: string -> Derivation)
    ensures CallTool("list_totp_accounts", account, None, derive) ==
              ListingHeader + "\n"
              + "- " + "google" + ": NOT configured (missing " + "GOOGLE_TOTP_SECRET" + ")" + "\n"
              + "- " + "codiedev42" + ": NOT configured (missing " + "GOOGLE_TOTP_SECRET" + ")"
  {
    assert LoadSecrets(None) == map[];
    EmptyStoreListing();
  }

  /**
   When the secrets file cannot be read, a code request for a registered
   account fails for the missing secret rather than with a file error.
   */
  lemma UnreadableFileCode(account: string, derive: string -> Derivation)
    requires Resolve(account).Some?
    ensures CallTool("get_totp_code", account, None, derive) ==
              ErrorPrefix + "No secret found for " + "GOOGLE_TOTP_SECRET" + " in secrets file"
  {
    var secrets := LoadSecrets(None);
    assert secrets == map[];
    ResolveRegistry(account);
    assert GenerateCode(account, secrets, derive) == Failed(NoSecretMessage("GOOGLE_TOTP_SECRET"));
  }
}
