/**
 The account registry: a fixed, ordered table from account names to the
 name of the secret that holds their shared key, with case-insensitive
 lookup, and the per-account configuration report.
 */
module Accounts {
  import opened Wrappers
  import opened Text

  /** One row of the registry: an account name and the secret key it uses. */
  datatype Account = Account(name: string, keyName: string)

  /** The registry, in definition order; `codiedev42` is an alias of `google`. */
  const Registry: seq<Account> := [
    Account("google", "GOOGLE_TOTP_SECRET"),
    Account("codiedev42", "GOOGLE_TOTP_SECRET")
  ]

  /** The key name of the first row of `table` named `name`, if there is one. */
  function Lookup(table: seq<Account>, name: string): (r: Option<string>)
    ensures r.None? <==> forall i :: 0 <= i < |table| ==> table[i].name != name
    ensures r.Some? ==> exists i :: FirstNamed(table, i, name) && table[i].keyName == r.value
  {
    if |table| == 0 then None
    else if table[0].name == name then
      assert FirstNamed(table, 0, name);
      Some(table[0].keyName)
    else
      var r := Lookup(table[1..], name);
      assert forall i :: 1 <= i < |table| ==> table[i] == table[1..][i - 1];
      assert r.Some? ==> exists i :: FirstNamed(table, i, name) && table[i].keyName == r.value by {
        if r.Some? {
          var i :| FirstNamed(table[1..], i, name) && table[1..][i].keyName == r.value;
          assert FirstNamed(table, i + 1, name);
        }
      }
      r
  }

  /** Row `i` of `table` is the first one named `name`. */
  predicate FirstNamed(table: seq<Account>, i: int, name: string) {
    && 0 <= i < |table|
    && table[i].name == name
    && forall j :: 0 <= j < i ==> table[j].name != name
  }

  /** The account names of `table`, in order. */
  function Names(table: seq<Account>): (names: seq<string>)
    ensures |names| == |table|
    ensures forall i :: 0 <= i < |table| ==> names[i] == table[i].name
  {
    seq(|table|, i requires 0 <= i < |table| => table[i].name)
  }

  /** `ACCOUNTS[account.toLowerCase()]`: the key name an account resolves to. */
  function Resolve(account: string): Option<string>
  {
    Lookup(Registry, AsciiLower(account))
  }

  /**
   Resolution is case-insensitive, and exactly the two registered names
   resolve, both of them (the alias included) to the same key.
   */
  lemma ResolveRegistry(account: string)
    ensures Resolve(account).Some? <==> AsciiLower(account) == "google" || AsciiLower(account) == "codiedev42"
    ensures Resolve(account).Some? ==> Resolve(account).value == "GOOGLE_TOTP_SECRET"
    ensures Resolve(account) == Resolve(AsciiLower(account))
  {
    AsciiLowerProperties(account);
    var r := Lookup(Registry, AsciiLower(account));
    if r.Some? {
      var i :| FirstNamed(Registry, i, AsciiLower(account)) && Registry[i].keyName == r.value;
    } else {
      assert Registry[0].name != AsciiLower(account) && Registry[1].name != AsciiLower(account);
    }
  }

  /** The examples of case-insensitive resolution: upper-case, lower-case and mixed-case names agree. */
  lemma ResolveExamples()
    ensures Resolve("GOOGLE") == Resolve("google") == Some("GOOGLE_TOTP_SECRET")
    ensures Resolve("CodieDev42") == Resolve("codiedev42") == Some("GOOGLE_TOTP_SECRET")
    ensures Resolve("unknown") == None
  {
    assert AsciiLower("GOOGLE") == "google";
    assert AsciiLower("CodieDev42") == "codiedev42";
    assert AsciiLower("google") == "google";
    assert AsciiLower("codiedev42") == "codiedev42";
    assert AsciiLower("unknown") == "unknown";
  }

  /** The names listed in the unknown-account message: every registered name, in definition order. */
  function AvailableNames(): (s: string)
    ensures s == "google, codiedev42"
  {
    var names := Names(Registry);
    assert names == ["google", "codiedev42"];
    assert names[1..] == ["codiedev42"];
    assert Join(names, ", ") == "google" + ", " + "codiedev42";
    assert "google" + ", " + "codiedev42" == "google, codiedev42";
    Join(names, ", ")
  }

  /** The secret map has a non-empty value under `keyName` (`secrets[keyName]` is truthy). */
  predicate HasSecret(secrets: map<string, string>, keyName: string) {
    keyName in secrets && secrets[keyName] != ""
  }

  /** One entry of the account listing. */
  datatype AccountStatus =
    | Configured(account: string)
    | NotConfigured(account: string, missing: string)

  /**
   One status per row of `table`, in order: configured exactly when its key
   has a non-empty secret, otherwise naming the missing key.
   */
  function Statuses(table: seq<Account>, secrets: map<string, string>): (r: seq<AccountStatus>)
    ensures |r| == |table|
    ensures forall i :: 0 <= i < |table| ==>
              && r[i].account == table[i].name
              && (r[i].Configured? <==> HasSecret(secrets, table[i].keyName))
              && (r[i].NotConfigured? ==> r[i].missing == table[i].keyName)
  {
    if |table| == 0 then []
    else
      var a := table[0];
      var s := if HasSecret(secrets, a.keyName) then Configured(a.name) else NotConfigured(a.name, a.keyName);
      var rest := Statuses(table[1..], secrets);
      assert forall i :: 1 <= i < |table| ==> table[i] == table[1..][i - 1] && ([s] + rest)[i] == rest[i - 1];
      [s] + rest
  }

  /** `listAccounts`: the status of every registered account, in definition order. */
  function ListAccounts(secrets: map<string, string>): seq<AccountStatus>
  {
    Statuses(Registry, secrets)
  }

  /**
   With no secrets at all (as after a failed read) every account is reported
   NOT configured, each naming its key.
   */
  lemma NothingConfiguredWithoutSecrets()
    ensures ListAccounts(map[]) == [
      NotConfigured("google", "GOOGLE_TOTP_SECRET"),
      NotConfigured("codiedev42", "GOOGLE_TOTP_SECRET")
    ]
  {
    var r := ListAccounts(map[]);
    assert r[0] == NotConfigured("google", "GOOGLE_TOTP_SECRET");
    assert r[1] == NotConfigured("codiedev42", "GOOGLE_TOTP_SECRET");
  }

  /** An alias and the account it aliases are always reported alike. */
  lemma AliasesReportedAlike(secrets: map<string, string>)
    ensures ListAccounts(secrets)[0].Configured? <==> ListAccounts(secrets)[1].Configured?
  {
    var r := ListAccounts(secrets);
    assert r[0].Configured? <==> HasSecret(secrets, Registry[0].keyName);
    assert r[1].Configured? <==> HasSecret(secrets, Registry[1].keyName);
  }
}
