/** The member-import wizard (communities/views/wizard.py): reading the CSV file, sorting
    the submitted emails into existing members, existing accounts and unknown emails, the
    step that splits the reviewed list, and the final save.

    `secure_filename`, `validate_email` and the CSV tokenizer are parameters (the tokenizer
    as the rows it produced); the user table is a sequence of records in query order, and
    the JSON round trips between steps are the identity. Role names are matched exactly, as
    roles are identified by their name. */
module CommunityWizard {
  import opened Wrappers
  import opened Text
  import opened Communities

  /** One account: a CSV row once read, or the fields of an entry of the accounts list. */
  datatype Account = Account(email: string, firstName: string, lastName: string, role: string)

  /** A registered user. */
  datatype UserRec = UserRec(email: string, firstName: string, lastName: string)

  /** An entry of the reviewed accounts list: an account and its status. */
  datatype Status = Existing | New | OtherStatus
  datatype Entry = Entry(account: Account, status: Status)

  // ---------------------------------------------------------------------------
  // wizard_read_csv
  // ---------------------------------------------------------------------------

  /** The text after the last "." of a file name (the whole name when there is none). */
  function FileExtension(name: string): (r: string)
    ensures '.' !in r
  {
    var parts := Split(name, '.');
    parts[|parts| - 1]
  }

  /** The role column is accepted when it is "manager" or "member" in any letter case. */
  predicate RoleAccepted(role: string) {
    Lower(role) == "manager" || Lower(role) == "member"
  }

  /** One CSV row: kept when it has exactly four fields, a valid email and an accepted role,
      with every field stripped; the role keeps its letter case. */
  function ReadRow(row: seq<string>, validEmail: string -> bool): (r: Option<Account>)
    ensures r.Some? ==> |row| == 4 && validEmail(r.value.email) && RoleAccepted(r.value.role)
    ensures r.Some? ==> r.value == Account(Strip(row[0]), Strip(row[1]), Strip(row[2]), Strip(row[3]))
    ensures r.None? ==> |row| != 4 || !validEmail(Strip(row[0])) || !RoleAccepted(Strip(row[3]))
  {
    if |row| != 4 then None
    else
      var email := Strip(row[0]);
      var role := Strip(row[3]);
      if !validEmail(email) || !RoleAccepted(role) then None
      else Some(Account(email, Strip(row[1]), Strip(row[2]), role))
  }

  /** The present values, in order. */
  function Somes(s: seq<Option<Account>>): (r: seq<Account>)
    ensures |r| <= |s|
  {
    if |s| == 0 then [] else (if s[0].Some? then [s[0].value] else []) + Somes(s[1..])
  }

  lemma {:induction false} SomesExactly(s: seq<Option<Account>>, a: Account)
    ensures a in Somes(s) <==> Some(a) in s
  {
    if |s| > 0 {
      SomesExactly(s[1..], a);
      assert s == [s[0]] + s[1..];
    }
  }

  /** The kept rows, in file order. */
  function ReadRows(rows: seq<seq<string>>, validEmail: string -> bool): (r: seq<Account>)
    ensures |r| <= |rows|
  {
    Somes(seq(|rows|, i requires 0 <= i < |rows| => ReadRow(rows[i], validEmail)))
  }

  /** Every row `wizard_read_csv` keeps comes from a row it accepts, and every accepted row is
      kept. */
  lemma ReadRowsExactly(rows: seq<seq<string>>, validEmail: string -> bool, a: Account)
    ensures a in ReadRows(rows, validEmail) <==> exists i :: 0 <= i < |rows| && ReadRow(rows[i], validEmail) == Some(a)
  {
    var read := seq(|rows|, i requires 0 <= i < |rows| => ReadRow(rows[i], validEmail));
    SomesExactly(read, a);
    if Some(a) in read {
      var i :| 0 <= i < |read| && read[i] == Some(a);
      assert ReadRow(rows[i], validEmail) == Some(a);
    }
    if exists i :: 0 <= i < |rows| && ReadRow(rows[i], validEmail) == Some(a) {
      var i :| 0 <= i < |rows| && ReadRow(rows[i], validEmail) == Some(a);
      assert read[i] == Some(a);
    }
  }

  /** `wizard_read_csv`: nothing unless the secured file name ends in ".csv"; otherwise the
      kept rows. */
  function WizardReadCsv(filename: string, rows: seq<seq<string>>, secure: string -> string,
                         validEmail: string -> bool): (r: seq<Account>)
    ensures FileExtension(secure(filename)) != "csv" ==> r == []
    ensures FileExtension(secure(filename)) == "csv" ==> r == ReadRows(rows, validEmail)
  {
    if FileExtension(secure(filename)) != "csv" then [] else ReadRows(rows, validEmail)
  }

  /** The accounts read from a CSV file have valid, stripped emails and accepted roles. */
  lemma ReadCsvStripped(filename: string, rows: seq<seq<string>>, secure: string -> string,
                        validEmail: string -> bool, a: Account)
    requires a in WizardReadCsv(filename, rows, secure, validEmail)
    ensures Strip(a.email) == a.email && validEmail(a.email) && RoleAccepted(a.role)
  {
    ReadRowsExactly(rows, validEmail, a);
    var i :| 0 <= i < |rows| && ReadRow(rows[i], validEmail) == Some(a);
    StripIdempotent(rows[i][0]);
  }

  // ---------------------------------------------------------------------------
  // wizard_extract_data
  // ---------------------------------------------------------------------------

  /** What the wizard is given: a comma-separated email list, or the rows of a CSV file. */
  datatype Input = Emails(emails: seq<string>) | Csv(rows: seq<Account>)

  function CsvEmails(rows: seq<Account>): (r: seq<string>)
    ensures |r| == |rows| && forall i :: 0 <= i < |rows| ==> r[i] == rows[i].email
  {
    if |rows| == 0 then [] else [rows[0].email] + CsvEmails(rows[1..])
  }

  function StripAll(s: seq<string>): (r: seq<string>)
    ensures |r| == |s| && forall i :: 0 <= i < |s| ==> r[i] == Strip(s[i])
  {
    if |s| == 0 then [] else [Strip(s[0])] + StripAll(s[1..])
  }

  /** The stripped emails of the input. */
  function InputEmails(input: Input): seq<string> {
    match input
    case Emails(es) => StripAll(es)
    case Csv(rows) => StripAll(CsvEmails(rows))
  }

  function Elems(s: seq<string>): set<string> {
    set x | x in s
  }

  /** The entries of `s` that lie in `keep`, in order. */
  function FilterIn(s: seq<string>, keep: set<string>): (r: seq<string>)
    ensures forall x :: x in r <==> x in s && x in keep
    ensures |r| <= |s|
  {
    if |s| == 0 then []
    else (if s[0] in keep then [s[0]] else []) + FilterIn(s[1..], keep)
  }

  /** The users whose email lies in `keep`, in query order. */
  function UsersIn(users: seq<UserRec>, keep: set<string>): (r: seq<UserRec>)
    ensures forall u :: u in r <==> u in users && u.email in keep
  {
    if |users| == 0 then []
    else (if users[0].email in keep then [users[0]] else []) + UsersIn(users[1..], keep)
  }

  function UserEmails(users: seq<UserRec>): (r: set<string>)
    ensures forall e :: e in r <==> exists u :: u in users && u.email == e
  {
    set u | u in users :: u.email
  }

  /** `{user["email"]: user["role"] for user in csv_data}`: a later row wins. */
  function CsvRoles(rows: seq<Account>): (m: map<string, string>)
    ensures forall e :: e in m <==> e in Elems(CsvEmails(rows))
    decreases |rows|
  {
    if |rows| == 0 then map[]
    else
      var init := CsvRoles(rows[..|rows| - 1]);
      var last := rows[|rows| - 1];
      assert CsvEmails(rows) == CsvEmails(rows[..|rows| - 1]) + [last.email];
      init[last.email := last.role]
  }

  /** Dropping repeated emails, keeping first occurrences: the iteration order of the set
      of unknown emails, which Python leaves unspecified, is taken to be input order. */
  function Dedup(s: seq<string>): (r: seq<string>)
    ensures forall x :: x in r <==> x in s
    decreases |s|
  {
    if |s| == 0 then []
    else
      var init := Dedup(s[..|s| - 1]);
      assert s == s[..|s| - 1] + [s[|s| - 1]];
      if s[|s| - 1] in init then init else init + [s[|s| - 1]]
  }

  datatype WizardError = KeyError | AssertionError | MembershipError(e: CommunityError)

  /** Every user's email has a CSV role (always so for an email list, which has no roles). */
  predicate RolesCover(us: seq<UserRec>, roles: Option<map<string, string>>) {
    roles.None? || forall i :: 0 <= i < |us| ==> us[i].email in roles.value
  }

  /** The "existing" entries of the registered non-members: with the CSV role, or "member"
      for an email list. The CSV role is looked up by the user's email, a KeyError when the
      CSV spelled it differently. */
  function ExistingEntries(us: seq<UserRec>, roles: Option<map<string, string>>): (r: Result<seq<Entry>, WizardError>)
    ensures r.Success? <==> RolesCover(us, roles)
    ensures r.Failure? ==> r.error == WizardError.KeyError
    ensures r.Success? ==> |r.value| == |us| && forall i :: 0 <= i < |us| ==>
              r.value[i].status == Existing && r.value[i].account.email == us[i].email
              && r.value[i].account.firstName == us[i].firstName && r.value[i].account.lastName == us[i].lastName
              && r.value[i].account.role == (if roles.Some? then roles.value[us[i].email] else "member")
    ensures r.Success? ==> forall x :: x in r.value ==> x.status == Existing
  {
    if |us| == 0 then Success([])
    else
      var u := us[0];
      if roles.Some? && u.email !in roles.value then Failure(WizardError.KeyError)
      else
        var role := if roles.Some? then roles.value[u.email] else "member";
        assert forall i :: 0 < i < |us| ==> us[i] == us[1..][i - 1];
        match ExistingEntries(us[1..], roles)
        case Failure(e) => Failure(e)
        case Success(rest) =>
          Success([Entry(Account(u.email, u.firstName, u.lastName, role), Existing)] + rest)
  }

  /** The emails of the "existing" entries. */
  function ExistingEmails(entries: seq<Entry>): set<string> {
    set x | x in entries && x.status == Existing :: x.account.email
  }

  /** The "existing" entries are one per user, so their emails are the users' emails. */
  lemma ExistingEntriesEmails(us: seq<UserRec>, roles: Option<map<string, string>>)
    requires RolesCover(us, roles)
    ensures ExistingEmails(ExistingEntries(us, roles).value) == UserEmails(us)
  {
    var es := ExistingEntries(us, roles).value;
    forall e | e in ExistingEmails(es) ensures e in UserEmails(us) {
      var x :| x in es && x.status == Existing && x.account.email == e;
      var i :| 0 <= i < |es| && es[i] == x;
      assert us[i] in us;
    }
    forall e | e in UserEmails(us) ensures e in ExistingEmails(es) {
      var u :| u in us && u.email == e;
      var i :| 0 <= i < |us| && us[i] == u;
      assert es[i] in es;
    }
  }

  /** The "new" entries: the CSV rows of unknown emails with their names and role, or each
      unknown email with empty names and the "member" role. */
  function NewEntries(input: Input, unknown: set<string>): (r: seq<Entry>)
    ensures forall e :: e in r ==> e.status == New && e.account.email in unknown
    ensures input.Emails? ==> forall e :: e in r ==> e.account.firstName == "" && e.account.lastName == "" && e.account.role == "member"
    ensures input.Csv? ==> forall e :: e in r ==> e.account in input.rows
  {
    match input
    case Emails(_) => NewEmailEntries(Dedup(FilterIn(InputEmails(input), unknown)))
    case Csv(rows) => NewCsvEntries(rows, unknown)
  }

  function NewEmailEntries(emails: seq<string>): (r: seq<Entry>)
    ensures |r| == |emails|
    ensures forall i :: 0 <= i < |emails| ==> r[i] == Entry(Account(emails[i], "", "", "member"), New)
  {
    if |emails| == 0 then [] else [Entry(Account(emails[0], "", "", "member"), New)] + NewEmailEntries(emails[1..])
  }

  function NewCsvEntries(rows: seq<Account>, unknown: set<string>): (r: seq<Entry>)
    ensures forall e :: e in r <==> e.status == New && e.account in rows && e.account.email in unknown
  {
    if |rows| == 0 then []
    else (if rows[0].email in unknown then [Entry(rows[0], New)] else []) + NewCsvEntries(rows[1..], unknown)
  }

  /** What `wizard_extract_data` returns: the registered non-members, the members already
      in the community (as their emails), and the reviewed accounts list. */
  datatype Extracted = Extracted(existingAccounts: seq<UserRec>, existingMembers: seq<string>, accounts: seq<Entry>)

  /** The three disjoint groups of the submitted emails. */
  function MemberGroup(input: Input, memberEmails: seq<string>): set<string> {
    Elems(InputEmails(input)) * Elems(memberEmails)
  }

  function AccountGroup(input: Input, memberEmails: seq<string>, users: seq<UserRec>): set<string> {
    (Elems(InputEmails(input)) - MemberGroup(input, memberEmails)) * UserEmails(users)
  }

  function UnknownGroup(input: Input, memberEmails: seq<string>, users: seq<UserRec>): set<string> {
    Elems(InputEmails(input)) - MemberGroup(input, memberEmails) - AccountGroup(input, memberEmails, users)
  }

  /** `wizard_extract_data`: the stripped emails are split into members of the community,
      registered users who are not members ("existing" entries), and emails without an
      account ("new" entries). */
  function WizardExtractData(input: Input, memberEmails: seq<string>, users: seq<UserRec>)
    : (r: Result<Extracted, WizardError>)
    ensures r.Success? ==>
              Elems(r.value.existingMembers) == MemberGroup(input, memberEmails)
              && UserEmails(r.value.existingAccounts) == AccountGroup(input, memberEmails, users)
              && (forall e :: e in r.value.accounts && e.status == New ==>
                    e.account.email in UnknownGroup(input, memberEmails, users))
    ensures input.Emails? ==> r.Success?
  {
    var emails := InputEmails(input);
    var already := FilterIn(memberEmails, Elems(emails));
    var notMember := Elems(emails) - Elems(already);
    var accountUsers := UsersIn(users, notMember);
    var unknown := notMember - UserEmails(accountUsers);
    var roles := if input.Csv? then Some(CsvRoles(input.rows)) else None;
    ExtractGroups(input, memberEmails, users);
    match ExistingEntries(accountUsers, roles)
    case Failure(e) => Failure(e)
    case Success(existing) =>
      Success(Extracted(accountUsers, already, existing + NewEntries(input, unknown)))
  }

  lemma ElemsFilterIn(s: seq<string>, keep: set<string>)
    ensures Elems(FilterIn(s, keep)) == Elems(s) * keep
  {
  }

  lemma UserEmailsIn(users: seq<UserRec>, keep: set<string>)
    ensures UserEmails(UsersIn(users, keep)) == UserEmails(users) * keep
  {
    var a := UserEmails(UsersIn(users, keep));
    forall e | e in UserEmails(users) * keep ensures e in a {
      var u :| u in users && u.email == e;
      assert u in UsersIn(users, keep);
    }
  }

  /** The sets `wizard_extract_data` computes step by step are the three groups. */
  lemma ExtractGroups(input: Input, memberEmails: seq<string>, users: seq<UserRec>)
    ensures var emails := InputEmails(input);
            var already := FilterIn(memberEmails, Elems(emails));
            var accountUsers := UsersIn(users, Elems(emails) - Elems(already));
            Elems(already) == MemberGroup(input, memberEmails)
            && UserEmails(accountUsers) == AccountGroup(input, memberEmails, users)
            && Elems(emails) - Elems(already) - UserEmails(accountUsers) == UnknownGroup(input, memberEmails, users)
  {
    var emails := InputEmails(input);
    var already := FilterIn(memberEmails, Elems(emails));
    ElemsFilterIn(memberEmails, Elems(emails));
    UserEmailsIn(users, Elems(emails) - Elems(already));
  }

  /** The three groups are pairwise disjoint and together are exactly the submitted
      (stripped) emails. */
  lemma GroupsPartition(input: Input, memberEmails: seq<string>, users: seq<UserRec>)
    ensures var m := MemberGroup(input, memberEmails);
            var a := AccountGroup(input, memberEmails, users);
            var u := UnknownGroup(input, memberEmails, users);
            m * a == {} && m * u == {} && a * u == {} && m + a + u == Elems(InputEmails(input))
  {
  }

  /** With an email list, every unknown email gets exactly one "new" entry with empty names
      and the "member" role. */
  lemma EmailListNewEntries(es: seq<string>, memberEmails: seq<string>, users: seq<UserRec>, e: string)
    requires e in UnknownGroup(Emails(es), memberEmails, users)
    ensures var r := WizardExtractData(Emails(es), memberEmails, users);
            r.Success? && Entry(Account(e, "", "", "member"), New) in r.value.accounts
  {
    var input := Emails(es);
    var emails := InputEmails(input);
    var already := FilterIn(memberEmails, Elems(emails));
    var notMember := Elems(emails) - Elems(already);
    var accountUsers := UsersIn(users, notMember);
    var unknown := notMember - UserEmails(accountUsers);
    assert e in unknown;
    var d := Dedup(FilterIn(emails, unknown));
    var i :| 0 <= i < |d| && d[i] == e;
    assert NewEmailEntries(d)[i] == Entry(Account(e, "", "", "member"), New);
  }

  // ---------------------------------------------------------------------------
  // wizard_check_data, wizard_new_accounts, wizard_saving
  // ---------------------------------------------------------------------------

  datatype CheckReply = BackToStep1 | Review(extracted: Extracted)

  /** `wizard_check_data`: a non-empty email field is split on ","; otherwise the CSV file
      is read, and an empty reading sends the user back with a warning. The review page is
      shown only when the accounts list is not empty. */
  function WizardCheckData(emailField: Option<string>, csvAccounts: seq<Account>, memberEmails: seq<string>,
                           users: seq<UserRec>): (r: Result<CheckReply, WizardError>)
    ensures emailField.Some? && emailField.value != "" ==>
              r == (match WizardExtractData(Emails(Split(emailField.value, ',')), memberEmails, users)
                    case Failure(e) => Failure(e)
                    case Success(x) => Success(if |x.accounts| == 0 then BackToStep1 else Review(x)))
    ensures (emailField.None? || emailField.value == "") && |csvAccounts| == 0 ==> r == Success(BackToStep1)
    ensures r.Success? && r.value.Review? ==> |r.value.extracted.accounts| > 0
  {
    var input := if emailField.Some? && emailField.value != "" then Emails(Split(emailField.value, ',')) else Csv(csvAccounts);
    if input.Csv? && |csvAccounts| == 0 then Success(BackToStep1)
    else
      match WizardExtractData(input, memberEmails, users)
      case Failure(e) => Failure(e)
      case Success(x) => Success(if |x.accounts| == 0 then BackToStep1 else Review(x))
  }

  /** `wizard_new_accounts`: "existing" entries become an email→role map (a later entry
      wins), "new" entries are collected in order, and any other status is ignored. */
  function WizardNewAccounts(entries: seq<Entry>): (r: (map<string, string>, seq<Entry>))
    ensures r.0.Keys == ExistingEmails(entries)
    ensures forall x :: x in r.1 <==> x in entries && x.status == New
    decreases |entries|
  {
    if |entries| == 0 then (map[], [])
    else
      var init := WizardNewAccounts(entries[..|entries| - 1]);
      var last := entries[|entries| - 1];
      assert entries == entries[..|entries| - 1] + [last];
      ExistingEmailsAppend(entries[..|entries| - 1], [last]);
      if last.status == Existing then (init.0[last.account.email := last.account.role], init.1)
      else if last.status == New then (init.0, init.1 + [last])
      else init
  }

  lemma ExistingEmailsAppend(a: seq<Entry>, b: seq<Entry>)
    ensures ExistingEmails(a + b) == ExistingEmails(a) + ExistingEmails(b)
  {
    assert forall x :: x in a + b <==> x in a || x in b;
  }

  /** Splitting the reviewed list of `wizard_extract_data` gives back the registered
      non-members as the existing accounts, and only unknown emails as new ones. */
  lemma NewAccountsOfExtracted(input: Input, memberEmails: seq<string>, users: seq<UserRec>)
    ensures var r := WizardExtractData(input, memberEmails, users);
            r.Success? ==>
              var na := WizardNewAccounts(r.value.accounts);
              na.0.Keys == AccountGroup(input, memberEmails, users)
              && forall x :: x in na.1 ==> x.account.email in UnknownGroup(input, memberEmails, users)
  {
    var r := WizardExtractData(input, memberEmails, users);
    if r.Success? {
      var emails := InputEmails(input);
      var already := FilterIn(memberEmails, Elems(emails));
      var notMember := Elems(emails) - Elems(already);
      var accountUsers := UsersIn(users, notMember);
      var unknown := notMember - UserEmails(accountUsers);
      var roles := if input.Csv? then Some(CsvRoles(input.rows)) else None;
      var existing := ExistingEntries(accountUsers, roles).value;
      var created := NewEntries(input, unknown);
      ExistingEntriesEmails(accountUsers, roles);
      ExtractGroups(input, memberEmails, users);
      assert r.value.accounts == existing + created;
      SplitReviewed(existing, created, AccountGroup(input, memberEmails, users), UnknownGroup(input, memberEmails, users));
    }
  }

  /** Splitting "existing" entries followed by "new" ones gives back the emails of the
      former and only emails of the latter. */
  lemma SplitReviewed(existing: seq<Entry>, created: seq<Entry>, accountEmails: set<string>, unknown: set<string>)
    requires ExistingEmails(existing) == accountEmails
    requires forall x :: x in existing ==> x.status == Existing
    requires forall x :: x in created ==> x.status == New && x.account.email in unknown
    ensures WizardNewAccounts(existing + created).0.Keys == accountEmails
    ensures forall x :: x in WizardNewAccounts(existing + created).1 ==> x.account.email in unknown
  {
    ExistingEmailsAppend(existing, created);
    assert ExistingEmails(created) == {};
    forall x | x in existing + created && x.status == New ensures x in created {
      assert x in existing || x in created;
    }
  }

  /** Adding memberships one after the other, stopping at the first failure. */
  function AddAll(c: Community, items: seq<(UserId, Role)>): (r: Result<Community, CommunityError>)
    ensures r.Failure? ==> exists i :: 0 <= i < |items| && items[i].1 !in ValidRoles
    ensures (forall i :: 0 <= i < |items| ==> items[i].1 in ValidRoles) ==> r.Success?
    decreases |items|
  {
    if |items| == 0 then Success(c)
    else
      match SetMembership(c, items[0].0, items[0].1)
      case Failure(e) => Failure(e)
      case Success((c2, _)) =>
        var r := AddAll(c2, items[1..]);
        if r.Failure? then
          var i :| 0 <= i < |items[1..]| && items[1..][i].1 !in ValidRoles;
          assert items[i + 1].1 !in ValidRoles;
          r
        else r
  }

  /** After adding memberships every listed user is a member, every earlier member still is,
      and the counter and the folder roles stay consistent. */
  lemma {:induction false} AddAllEffect(c: Community, items: seq<(UserId, Role)>)
    requires CountConsistent(c) && FolderInSync(c)
    ensures var r := AddAll(c, items);
            r.Success? ==>
              CountConsistent(r.value) && FolderInSync(r.value)
              && c.memberships.Keys <= r.value.memberships.Keys
              && forall i :: 0 <= i < |items| ==> items[i].0 in r.value.memberships
    decreases |items|
  {
    if |items| > 0 {
      var s := SetMembership(c, items[0].0, items[0].1);
      if s.Success? {
        var c2 := s.value.0;
        SetMembershipInvariant(c, items[0].0, items[0].1);
        AddAllEffect(c2, items[1..]);
        var r := AddAll(c, items);
        if r.Success? {
          assert r == AddAll(c2, items[1..]);
          forall i | 0 <= i < |items| ensures items[i].0 in r.value.memberships {
            if i > 0 {
              assert items[i] == items[1..][i - 1];
            }
          }
        }
      }
    }
  }

  /** The user of each existing account, looked up by email; a missing one makes
      `set_membership` fail its `isinstance` assertion. */
  function ExistingItems(existing: seq<(string, string)>, usersByEmail: map<string, UserId>)
    : (r: Result<seq<(UserId, Role)>, WizardError>)
    ensures r.Success? <==> forall i :: 0 <= i < |existing| ==> existing[i].0 in usersByEmail
    ensures r.Failure? ==> r.error == AssertionError
    ensures r.Success? ==> |r.value| == |existing|
    ensures r.Success? ==> forall i :: 0 <= i < |existing| ==>
              r.value[i] == (usersByEmail[existing[i].0], RoleNamed(existing[i].1))
  {
    if |existing| == 0 then Success([])
    else if existing[0].0 !in usersByEmail then Failure(AssertionError)
    else
      match ExistingItems(existing[1..], usersByEmail)
      case Failure(e) =>
        Failure(e)
      case Success(rest) =>
        assert forall i :: 0 < i < |existing| ==> existing[i] == existing[1..][i - 1];
        Success([(usersByEmail[existing[0].0], RoleNamed(existing[0].1))] + rest)
  }

  /** The users created for new accounts get consecutive fresh ids from `nextId`. */
  function NewItems(accounts: seq<Entry>, nextId: UserId): (r: seq<(UserId, Role)>)
    ensures |r| == |accounts|
    ensures forall i :: 0 <= i < |accounts| ==> r[i] == (nextId + i, RoleNamed(accounts[i].account.role))
  {
    if |accounts| == 0 then []
    else [(nextId, RoleNamed(accounts[0].account.role))] + NewItems(accounts[1..], nextId + 1)
  }

  /** `wizard_saving`: with neither existing nor new accounts nothing changes (a warning is
      flashed). Otherwise the existing accounts join with their roles, then a user is created
      for each new account and joins too. The password-reset mails are left out. */
  function WizardSaving(c: Community, existing: seq<(string, string)>, newAccounts: seq<Entry>,
                        usersByEmail: map<string, UserId>, nextId: UserId): (r: Result<Community, WizardError>)
    ensures |existing| == 0 && |newAccounts| == 0 ==> r == Success(c)
    ensures (exists i :: 0 <= i < |existing| && existing[i].0 !in usersByEmail) ==> r == Failure(AssertionError)
    ensures r.Success? && (|existing| > 0 || |newAccounts| > 0) ==>
              ExistingItems(existing, usersByEmail).Success?
              && AddAll(c, ExistingItems(existing, usersByEmail).value + NewItems(newAccounts, nextId)) == Success(r.value)
  {
    if |existing| == 0 && |newAccounts| == 0 then Success(c)
    else
      match ExistingItems(existing, usersByEmail)
      case Failure(e) => Failure(e)
      case Success(items) =>
        match AddAll(c, items + NewItems(newAccounts, nextId))
        case Failure(e) => Failure(MembershipError(e))
        case Success(c2) => Success(c2)
  }

  /** A successful save leaves every existing account's user and every created user a
      member, keeps the earlier members, and keeps the community consistent. */
  lemma WizardSavingEffect(c: Community, existing: seq<(string, string)>, newAccounts: seq<Entry>,
                           usersByEmail: map<string, UserId>, nextId: UserId)
    requires CountConsistent(c) && FolderInSync(c)
    ensures var r := WizardSaving(c, existing, newAccounts, usersByEmail, nextId);
            r.Success? ==>
              CountConsistent(r.value) && FolderInSync(r.value)
              && c.memberships.Keys <= r.value.memberships.Keys
              && (forall i :: 0 <= i < |existing| ==> usersByEmail[existing[i].0] in r.value.memberships)
              && (forall u :: nextId <= u < nextId + |newAccounts| ==> u in r.value.memberships)
  {
    var r := WizardSaving(c, existing, newAccounts, usersByEmail, nextId);
    if r.Success? && (|existing| > 0 || |newAccounts| > 0) {
      var items := ExistingItems(existing, usersByEmail).value;
      var all := items + NewItems(newAccounts, nextId);
      AddAllEffect(c, all);
      SavedMembers(existing, newAccounts, usersByEmail, nextId, items, all, r.value.memberships.Keys);
    }
  }

  lemma SavedMembers(existing: seq<(string, string)>, newAccounts: seq<Entry>, usersByEmail: map<string, UserId>,
                     nextId: UserId, items: seq<(UserId, Role)>, all: seq<(UserId, Role)>, m: set<UserId>)
    requires ExistingItems(existing, usersByEmail) == Success(items)
    requires all == items + NewItems(newAccounts, nextId)
    requires forall i :: 0 <= i < |all| ==> all[i].0 in m
    ensures forall i :: 0 <= i < |existing| ==> usersByEmail[existing[i].0] in m
    ensures forall u :: nextId <= u < nextId + |newAccounts| ==> u in m
  {
    var added := NewItems(newAccounts, nextId);
    SplitMembers(items, added, all, m);
    forall u | nextId <= u < nextId + |newAccounts| ensures u in m {
      assert added[u - nextId].0 == u;
    }
  }

  /** The users of both halves of a joined list of memberships are in a set holding the
      users of the whole. */
  lemma SplitMembers(items: seq<(UserId, Role)>, added: seq<(UserId, Role)>, all: seq<(UserId, Role)>, m: set<UserId>)
    requires all == items + added
    requires forall i :: 0 <= i < |all| ==> all[i].0 in m
    ensures forall i :: 0 <= i < |items| ==> items[i].0 in m
    ensures forall j :: 0 <= j < |added| ==> added[j].0 in m
  {
    forall i | 0 <= i < |items| ensures items[i].0 in m {
      assert all[i] == items[i];
    }
    forall j | 0 <= j < |added| ensures added[j].0 in m {
      assert all[|items| + j] == added[j];
    }
  }


}
