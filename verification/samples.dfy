/** A concrete three-row upload: one good row, one with a blank name and an
    unknown role, one with a malformed address. The rows are literal values
    and every error list below is derived, not assumed. */
module Samples {
  import opened Wrappers
  import opened Text
  import opened Email
  import opened Users
  import opened Import

  const Alice: Row := map["name" := "Alice", "email" := "alice@example.com", "role" := "Admin", "status" := "active"]
  const Bob: Row := map["name" := "", "email" := " bob@example.com ", "role" := "Manager", "status" := "Active"]
  const Carol: Row := map["name" := "Carol", "email" := "not-an-email", "role" := "Viewer", "status" := "inactive"]

  // ---------------------------------------------------------------------------
  // Facts about text without padding

  /** Text that neither starts nor ends with whitespace is its own trim. */
  lemma Unpadded(s: string)
    requires |s| > 0 && !IsWhitespace(s[0]) && !IsWhitespace(s[|s| - 1])
    ensures Trim(s) == s && s != ""
  {
    assert TrimStart(s) == s;
  }

  /** `user@domain.tld` with plain, non-empty parts passes the address check. */
  lemma AddressValid(u: string, d: string, t: string)
    requires |u| > 0 && |d| > 0 && |t| > 0
    requires AllPlain(u) && AllPlain(d) && AllPlain(t)
    ensures IsValidEmail(u + "@" + d + "." + t)
  {
    var s := u + "@" + d + "." + t;
    var at, dot := |u|, |u| + 1 + |d|;
    assert s[at] == '@' && s[dot] == '.';
    assert s[..at] == u && s[at + 1..dot] == d && s[dot + 1..] == t;
    assert MatchesPattern(s);
    MatchesValidEmail(s);
  }

  /** Text without an '@' is never an address. */
  lemma NoAtInvalid(s: string)
    requires forall i :: 0 <= i < |s| ==> s[i] != '@'
    ensures !IsValidEmail(s)
  {
  }

  /** One space on each side of unpadded text is trimmed away. */
  lemma SpaceAround(s: string)
    requires |s| > 0 && !IsWhitespace(s[0]) && !IsWhitespace(s[|s| - 1])
    ensures Trim(" " + s + " ") == s
  {
    var p := " " + s + " ";
    assert p[1..] == s + " ";
    assert TrimStart(p) == TrimStart(s + " ") == s + " ";
    assert (s + " ")[..|s|] == s;
    assert TrimEnd(s + " ") == TrimEnd(s) == s;
  }

  /** A row's error list is assembled from the outcomes of its four checks. */
  lemma ErrorsFromChecks(row: Row, n: Option<RowError>, e: Option<RowError>, r: Option<RowError>, st: Option<RowError>)
    requires NameError(Field(row, "name")) == n && EmailError(Field(row, "email")) == e
    requires RoleError(row) == r && StatusError(row) == st
    ensures RowErrors(row) == AsList(n) + AsList(e) + AsList(r) + AsList(st)
  {
  }

  /** A row that passes all four checks has no errors. */
  lemma NoErrors(row: Row)
    requires NameError(Field(row, "name")).None? && EmailError(Field(row, "email")).None?
    requires RoleError(row).None? && StatusError(row).None?
    ensures RowErrors(row) == []
  {
    ErrorsFromChecks(row, None, None, None, None);
  }

  /** A row failing only the name and role checks reports those two, name first. */
  lemma NameAndRoleErrors(row: Row)
    requires NameError(Field(row, "name")) == Some(NameRequired) && EmailError(Field(row, "email")).None?
    requires RoleError(row) == Some(InvalidRole) && StatusError(row).None?
    ensures RowErrors(row) == [NameRequired, InvalidRole]
  {
    ErrorsFromChecks(row, Some(NameRequired), None, Some(InvalidRole), None);
    assert [NameRequired] + [] + [InvalidRole] + [] == [NameRequired, InvalidRole];
  }

  /** A row failing only the address format reports that alone. */
  lemma FormatErrorOnly(row: Row)
    requires NameError(Field(row, "name")).None? && EmailError(Field(row, "email")) == Some(InvalidEmailFormat)
    requires RoleError(row).None? && StatusError(row).None?
    ensures RowErrors(row) == [InvalidEmailFormat]
  {
    ErrorsFromChecks(row, None, Some(InvalidEmailFormat), None, None);
    assert [] + [InvalidEmailFormat] + [] + [] == [InvalidEmailFormat];
  }

  // ---------------------------------------------------------------------------
  // The good row

  lemma AliceFields()
    ensures Field(Alice, "name") == Some("Alice")
    ensures Field(Alice, "email") == Some("alice@example.com")
    ensures Field(Alice, "role") == Some("Admin")
    ensures Field(Alice, "status") == Some("active")
  {
  }

  lemma AliceAddress()
    ensures Trim("alice@example.com") == "alice@example.com"
    ensures IsValidEmail("alice@example.com")
  {
    Unpadded("alice@example.com");
    assert "alice@example.com" == "alice" + "@" + "example" + "." + "com";
    AddressValid("alice", "example", "com");
  }

  lemma AliceChecks()
    ensures NameError(Field(Alice, "name")).None?
    ensures EmailError(Field(Alice, "email")).None?
    ensures RoleError(Alice).None?
    ensures StatusError(Alice).None?
  {
    AliceFields();
    Unpadded("Alice");
    AliceAddress();
    Unpadded("Admin");
    Unpadded("active");
    assert Lower("active") == "active";
  }

  /** The good row has nothing wrong with it. */
  lemma AliceValid()
    ensures RowErrors(Alice) == []
  {
    AliceChecks();
    NoErrors(Alice);
  }

  // ---------------------------------------------------------------------------
  // The row with a blank name and an unknown role

  lemma BobFields()
    ensures Field(Bob, "name") == Some("")
    ensures Field(Bob, "email") == Some(" bob@example.com ")
    ensures Field(Bob, "role") == Some("Manager")
    ensures Field(Bob, "status") == Some("Active")
  {
  }

  /** The padded address is read trimmed, and then it is well-formed. */
  lemma BobAddress()
    ensures Trim(" bob@example.com ") == "bob@example.com"
    ensures IsValidEmail("bob@example.com")
  {
    SpaceAround("bob@example.com");
    assert " bob@example.com " == " " + "bob@example.com" + " ";
    assert "bob@example.com" == "bob" + "@" + "example" + "." + "com";
    AddressValid("bob", "example", "com");
  }

  lemma BobChecks()
    ensures NameError(Field(Bob, "name")) == Some(NameRequired)
    ensures EmailError(Field(Bob, "email")).None?
    ensures RoleError(Bob) == Some(InvalidRole)
    ensures StatusError(Bob).None?
  {
    BobFields();
    BobAddress();
    Unpadded("Manager");
    assert RoleText(Bob) == "Manager";
    Unpadded("Active");
    assert Lower("Active") == "active";
  }

  /** A blank name and the role "Manager" are both reported, the name first;
      "Active" is accepted as a status because it is lower-cased. */
  lemma BobErrors()
    ensures RowErrors(Bob) == [NameRequired, InvalidRole]
  {
    BobChecks();
    NameAndRoleErrors(Bob);
  }

  /** Validating Bob's row as the second row reports the name message, then
      the role message. */
  lemma BobReport(clock: Clock)
    ensures ValidateUserData(Bob, 1, clock) == Invalid([Message(1, NameRequired), Message(1, InvalidRole)])
  {
    BobErrors();
    InvalidReports(Bob, 1, clock);
    MessagesOfTwo(1, NameRequired, InvalidRole);
  }

  // ---------------------------------------------------------------------------
  // The row with a malformed address

  lemma CarolFields()
    ensures Field(Carol, "name") == Some("Carol")
    ensures Field(Carol, "email") == Some("not-an-email")
    ensures Field(Carol, "role") == Some("Viewer")
    ensures Field(Carol, "status") == Some("inactive")
  {
  }

  lemma CarolAddress()
    ensures Trim("not-an-email") == "not-an-email"
    ensures !IsValidEmail("not-an-email")
  {
    Unpadded("not-an-email");
    NoAtInvalid("not-an-email");
  }

  lemma CarolChecks()
    ensures NameError(Field(Carol, "name")).None?
    ensures EmailError(Field(Carol, "email")) == Some(InvalidEmailFormat)
    ensures RoleError(Carol).None?
    ensures StatusError(Carol).None?
  {
    CarolFields();
    Unpadded("Carol");
    CarolAddress();
    Unpadded("Viewer");
    Unpadded("inactive");
    assert Lower("inactive") == "inactive";
  }

  /** An address without '@' is reported as malformed, and nothing else is. */
  lemma CarolErrors()
    ensures RowErrors(Carol) == [InvalidEmailFormat]
  {
    CarolChecks();
    FormatErrorOnly(Carol);
  }

  // ---------------------------------------------------------------------------
  // The upload

  /** The good row's fields as the validator reads them. */
  lemma AliceTexts()
    ensures Trim(Field(Alice, "name").value) == "Alice"
    ensures Trim(Field(Alice, "email").value) == "alice@example.com"
    ensures RoleText(Alice) == "Admin"
    ensures StatusText(Alice) == "active"
  {
    AliceFields();
    Unpadded("Alice");
    AliceAddress();
    Unpadded("Admin");
    Unpadded("active");
    assert Lower("active") == "active";
  }

  /** The user built from the good row: trimmed name and address, the parsed
      role and status, and the id and date of its own clock reading. */
  lemma AliceUser(clock: Clock)
    ensures var v := ValidateUserData(Alice, 0, clock);
            && v.Valid?
            && v.user == User(ImportedId(clock.now, 0), "Alice", "alice@example.com", Admin, Active, clock.today)
  {
    AliceValid();
    AliceTexts();
    var u := ValidateUserData(Alice, 0, clock).user;
    assert RoleName(u.role) == "Admin";
    assert StatusName(u.status) == "active";
  }

  /** Uploading the three rows imports Alice alone and reports Bob's two
      errors and Carol's one, in row order. */
  lemma SampleUpload(clocks: Clocks)
    ensures var r := ImportRows([Alice, Bob, Carol], clocks);
            && r.success && r.totalRows == 3 && r.validRows == 1 && r.invalidRows == 2
            && r.data == [User(ImportedId(clocks(0).now, 0), "Alice", "alice@example.com", Admin, Active, clocks(0).today)]
            && r.errors == ["Row 2: Name is required",
                            "Row 2: " + "Invalid role. Must be one of: Admin, Editor, Viewer",
                            "Row 3: Invalid email format"]
  {
    AliceValid();
    BobErrors();
    CarolErrors();
    MixedUpload(Alice, Bob, Carol, clocks);
    MixedUploadMessages(Alice, Bob, Carol, clocks);
    AliceUser(clocks(0));
  }
}
