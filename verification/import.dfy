/** The bulk-import pipeline: per-row validation of header-keyed CSV rows and
    the aggregation of a parsed file into an `ImportResult`. */
module Import {
  import opened Wrappers
  import opened Text
  import opened Email
  import opened Users

  /** One CSV data line keyed by header name; a missing key reads as `undefined`.
      Extra columns are simply further keys. */
  type Row = map<string, string>

  /** The two clock readings the importer takes while it builds one user:
      `Date.now()` (milliseconds) and `new Date().toLocaleDateString()`. */
  datatype Clock = Clock(now: nat, today: string)

  /** The readings of a whole import: row `k` is validated at `clocks(k)`.
      Every row reads the clock afresh, so two rows may see different times. */
  type Clocks = nat -> Clock

  function Field(row: Row, key: string): Option<string> {
    if key in row then Some(row[key]) else None
  }

  /** `!v || v.trim() === ""`: absent, empty or whitespace only. */
  predicate IsBlank(v: Option<string>) {
    v.None? || Trim(v.value) == ""
  }

  /** `row.role?.trim() || "Viewer"`. */
  function RoleText(row: Row): string {
    var v := Field(row, "role");
    if IsBlank(v) then "Viewer" else Trim(v.value)
  }

  /** `row.status?.trim()?.toLowerCase() || "active"`; lower-casing keeps the
      length, so the lower-cased text is empty exactly when the value is blank. */
  function StatusText(row: Row): string {
    var v := Field(row, "status");
    if IsBlank(v) then "active" else Lower(Trim(v.value))
  }

  /** The five things that can be wrong with a row, in the order they are checked. */
  datatype RowError = NameRequired | EmailRequired | InvalidEmailFormat | InvalidRole | InvalidStatus

  function Describe(e: RowError): string {
    match e
    case NameRequired => "Name is required"
    case EmailRequired => "Email is required"
    case InvalidEmailFormat => "Invalid email format"
    case InvalidRole => "Invalid role. Must be one of: Admin, Editor, Viewer"
    case InvalidStatus => "Invalid status. Must be one of: active, inactive"
  }

  /** The message for error `e` on the row at 0-based `index`, numbered from 1. */
  function Message(index: nat, e: RowError): string {
    "Row " + Decimal(index + 1) + ": " + Describe(e)
  }

  function Messages(index: nat, es: seq<RowError>): (ms: seq<string>)
    ensures |ms| == |es|
    ensures forall i :: 0 <= i < |es| ==> ms[i] == Message(index, es[i])
  {
    seq(|es|, i requires 0 <= i < |es| => Message(index, es[i]))
  }

  /** `!v || v.trim() === ""` holds of exactly the absent and the all-whitespace values. */
  lemma BlankIff(v: Option<string>)
    ensures IsBlank(v) <==> v.None? || AllWhitespace(v.value)
  {
    if v.Some? {
      TrimEmptyIff(v.value);
    }
  }

  /** The format check fires on exactly the present, non-blank addresses whose
      trimmed text does not match the regular expression. */
  lemma FormatIff(v: Option<string>)
    ensures IsBlank(v) <==> v.None? || AllWhitespace(v.value)
    ensures (!IsBlank(v) && !IsValidEmail(Trim(v.value))) <==>
              (v.Some? && !AllWhitespace(v.value) && !MatchesPattern(Trim(v.value)))
  {
    BlankIff(v);
    if v.Some? {
      ValidEmailIffPattern(Trim(v.value));
    }
  }

  /** `Some(e)` when the email column is wrong: "required" for an absent or
      whitespace-only address, "invalid" for one whose trimmed text does not
      match the regular expression, never both. */
  function EmailError(email: Option<string>): (r: Option<RowError>)
    ensures r == Some(EmailRequired) <==> email.None? || AllWhitespace(email.value)
    ensures r == Some(InvalidEmailFormat) <==>
              email.Some? && !AllWhitespace(email.value) && !MatchesPattern(Trim(email.value))
    ensures r.None? || r == Some(EmailRequired) || r == Some(InvalidEmailFormat)
  {
    FormatIff(email);
    if IsBlank(email) then Some(EmailRequired)
    else if !IsValidEmail(Trim(email.value)) then Some(InvalidEmailFormat)
    else None
  }

  /** `Some(NameRequired)` exactly when the name is absent or whitespace only. */
  function NameError(name: Option<string>): (r: Option<RowError>)
    ensures r.Some? <==> name.None? || AllWhitespace(name.value)
    ensures r.None? || r == Some(NameRequired)
  {
    BlankIff(name);
    if IsBlank(name) then Some(NameRequired) else None
  }

  /** `Some(InvalidRole)` exactly when the resolved role is not one of the three names. */
  function RoleError(row: Row): (r: Option<RowError>)
    ensures r.Some? <==> RoleText(row) !in ["Admin", "Editor", "Viewer"]
    ensures r.None? || r == Some(InvalidRole)
  {
    RoleAccepted(RoleText(row));
    if ParseRole(RoleText(row)).None? then Some(InvalidRole) else None
  }

  /** `Some(InvalidStatus)` exactly when the resolved status is not one of the two names. */
  function StatusError(row: Row): (r: Option<RowError>)
    ensures r.Some? <==> StatusText(row) !in ["active", "inactive"]
    ensures r.None? || r == Some(InvalidStatus)
  {
    StatusAccepted(StatusText(row));
    if ParseStatus(StatusText(row)).None? then Some(InvalidStatus) else None
  }

  function AsList(e: Option<RowError>): (es: seq<RowError>)
    ensures forall x :: x in es <==> e == Some(x)
    ensures |es| <= 1
  {
    if e.Some? then [e.value] else []
  }

  /** Everything wrong with `row`, in check order: name, email, role, status. */
  function RowErrors(row: Row): (es: seq<RowError>)
    ensures NameRequired in es <==> IsBlank(Field(row, "name"))
    ensures EmailRequired in es <==> IsBlank(Field(row, "email"))
    ensures InvalidEmailFormat in es <==>
              !IsBlank(Field(row, "email")) && !IsValidEmail(Trim(Field(row, "email").value))
    ensures InvalidRole in es <==> ParseRole(RoleText(row)).None?
    ensures InvalidStatus in es <==> ParseStatus(StatusText(row)).None?
    ensures |es| <= 4
  {
    BlankIff(Field(row, "name"));
    FormatIff(Field(row, "email"));
    RoleAccepted(RoleText(row));
    StatusAccepted(StatusText(row));
    AsList(NameError(Field(row, "name")))
    + AsList(EmailError(Field(row, "email")))
    + AsList(RoleError(row))
    + AsList(StatusError(row))
  }

  /** The outcome of validating one row: a user, or every message for the row. */
  datatype Validation = Valid(user: User) | Invalid(errors: seq<string>)

  function ErrorsOf(v: Validation): seq<string> {
    match v
    case Valid(_) => []
    case Invalid(errors) => errors
  }

  /** `imported-${Date.now()}-${index}`. */
  function ImportedId(now: nat, index: nat): string {
    "imported-" + Decimal(now) + "-" + Decimal(index)
  }

  /** The user built from a row with nothing wrong: trimmed name and address,
      the parsed role and status, a generated id and today's date. */
  function NormalisedUser(row: Row, index: nat, clock: Clock): (u: User)
    requires RowErrors(row) == []
    ensures u.id == ImportedId(clock.now, index)
    ensures u.name == Trim(Field(row, "name").value) && u.name != ""
    ensures u.email == Trim(Field(row, "email").value) && IsValidEmail(u.email)
    ensures RoleName(u.role) == RoleText(row)
    ensures StatusName(u.status) == StatusText(row)
    ensures u.createdAt == clock.today
  {
    var es := RowErrors(row);
    assert NameRequired !in es && EmailRequired !in es && InvalidEmailFormat !in es;
    assert InvalidRole !in es && InvalidStatus !in es;
    User(
      ImportedId(clock.now, index),
      Trim(Field(row, "name").value),
      Trim(Field(row, "email").value),
      ParseRole(RoleText(row)).value,
      ParseStatus(StatusText(row)).value,
      clock.today)
  }

  /** `validateUserData`: the row at 0-based `index` either yields a normalised
      user or all of its error messages. */
  function ValidateUserData(row: Row, index: nat, clock: Clock): (v: Validation)
    ensures v.Valid? <==>
              && !IsBlank(Field(row, "name"))
              && !IsBlank(Field(row, "email"))
              && IsValidEmail(Trim(Field(row, "email").value))
              && ParseRole(RoleText(row)).Some?
              && ParseStatus(StatusText(row)).Some?
    ensures v.Valid? ==>
              && v.user.id == ImportedId(clock.now, index)
              && v.user.name == Trim(Field(row, "name").value) && v.user.name != ""
              && v.user.email == Trim(Field(row, "email").value) && IsValidEmail(v.user.email)
              && RoleName(v.user.role) == RoleText(row)
              && StatusName(v.user.status) == StatusText(row)
              && v.user.createdAt == clock.today
  {
    var es := RowErrors(row);
    if es != [] then Invalid(Messages(index, es)) else Valid(NormalisedUser(row, index, clock))
  }

  /** An invalid row carries between one and four messages, each naming the
      row and one of the five errors. */
  lemma InvalidShape(row: Row, index: nat, clock: Clock)
    requires ValidateUserData(row, index, clock).Invalid?
    ensures var v := ValidateUserData(row, index, clock);
            && 1 <= |v.errors| <= 4
            && forall m :: m in v.errors ==> exists e :: m == Message(index, e)
  {
    var v := ValidateUserData(row, index, clock);
    forall m | m in v.errors ensures exists e :: m == Message(index, e) {
      var k :| 0 <= k < |v.errors| && v.errors[k] == m;
      assert m == Message(index, RowErrors(row)[k]);
    }
  }

  // ---------------------------------------------------------------------------
  // Messages identify their row and their error

  /** Error descriptions are pairwise distinct. */
  lemma DescribeInjective(e: RowError, f: RowError)
    requires Describe(e) == Describe(f)
    ensures e == f
  {
    assert |Describe(e)| == |Describe(f)|;
  }

  /** The length of the longest all-digit prefix of `s`. */
  function DigitPrefixLength(s: string): (n: nat)
    ensures n <= |s|
  {
    if |s| == 0 || !IsDigit(s[0]) then 0 else 1 + DigitPrefixLength(s[1..])
  }

  lemma {:induction false} DigitPrefixOf(a: string, x: string)
    requires forall i :: 0 <= i < |a| ==> IsDigit(a[i])
    requires |x| > 0 && !IsDigit(x[0])
    ensures DigitPrefixLength(a + x) == |a|
  {
    if |a| > 0 {
      assert (a + x)[1..] == a[1..] + x;
      DigitPrefixOf(a[1..], x);
    } else {
      assert a + x == x;
    }
  }

  /** A run of digits followed by a non-digit splits uniquely. */
  lemma DigitsThenSeparator(a: string, x: string, b: string, y: string)
    requires forall i :: 0 <= i < |a| ==> IsDigit(a[i])
    requires forall i :: 0 <= i < |b| ==> IsDigit(b[i])
    requires |x| > 0 && !IsDigit(x[0]) && |y| > 0 && !IsDigit(y[0])
    requires a + x == b + y
    ensures a == b && x == y
  {
    DigitPrefixOf(a, x);
    DigitPrefixOf(b, y);
    assert a == (a + x)[..|a|] == (b + y)[..|b|] == b;
    assert x == (a + x)[|a|..] == (b + y)[|b|..] == y;
  }

  lemma MessageShape(i: nat, e: RowError)
    ensures Message(i, e) == "Row " + (Decimal(i + 1) + (": " + Describe(e)))
  {
  }

  lemma PrefixCancel(p: string, u: string, v: string)
    requires p + u == p + v
    ensures u == v
  {
    assert u == (p + u)[|p|..];
    assert v == (p + v)[|p|..];
  }

  /** Two messages are equal only when they name the same row and the same error,
      so every message can be traced back to the row that produced it. */
  lemma MessageInjective(i: nat, e: RowError, j: nat, f: RowError)
    requires Message(i, e) == Message(j, f)
    ensures i == j && e == f
  {
    var di, dj := Decimal(i + 1), Decimal(j + 1);
    var x, y := ": " + Describe(e), ": " + Describe(f);
    MessageShape(i, e);
    MessageShape(j, f);
    PrefixCancel("Row ", di + x, dj + y);
    DigitsThenSeparator(di, x, dj, y);
    DecimalInjective(i + 1, j + 1);
    assert Describe(e) == x[2..] == y[2..] == Describe(f);
    DescribeInjective(e, f);
  }

  /** A row's message list mentions error `e` exactly when `e` was found. */
  lemma MessageIn(index: nat, es: seq<RowError>, e: RowError)
    ensures Message(index, e) in Messages(index, es) <==> e in es
  {
    var ms := Messages(index, es);
    if Message(index, e) in ms {
      var k :| 0 <= k < |ms| && ms[k] == Message(index, e);
      MessageInjective(index, e, index, es[k]);
    }
    if e in es {
      var k :| 0 <= k < |es| && es[k] == e;
      assert ms[k] == Message(index, e);
    }
  }

  /** Row validation reports error `e` exactly when `RowErrors` finds it. */
  lemma ReportsIff(row: Row, index: nat, clock: Clock, e: RowError)
    ensures Message(index, e) in ErrorsOf(ValidateUserData(row, index, clock)) <==> e in RowErrors(row)
  {
    MessageIn(index, RowErrors(row), e);
  }

  /** Where each check stands in `validateUserData`: name, then address (one of
      its two messages), then role, then status. */
  function CheckOrder(e: RowError): nat {
    match e
    case NameRequired => 0
    case EmailRequired => 1
    case InvalidEmailFormat => 1
    case InvalidRole => 2
    case InvalidStatus => 3
  }

  predicate Increasing(es: seq<RowError>) {
    forall i, j :: 0 <= i < j < |es| ==> CheckOrder(es[i]) < CheckOrder(es[j])
  }

  /** Every error of `es` is of a check in `lo` up to (excluding) `hi`. */
  predicate Within(es: seq<RowError>, lo: nat, hi: nat) {
    forall x :: x in es ==> lo <= CheckOrder(x) < hi
  }

  /** Errors of earlier checks followed by errors of later checks stay in check order. */
  lemma ConcatIncreasing(a: seq<RowError>, b: seq<RowError>, lo: nat, mid: nat, hi: nat)
    requires lo <= mid <= hi
    requires Increasing(a) && Within(a, lo, mid)
    requires Increasing(b) && Within(b, mid, hi)
    ensures Increasing(a + b) && Within(a + b, lo, hi)
  {
    var c := a + b;
    forall i, j | 0 <= i < j < |c| ensures CheckOrder(c[i]) < CheckOrder(c[j]) {
      if j < |a| {
        assert c[i] == a[i] && c[j] == a[j];
      } else if i >= |a| {
        assert c[i] == b[i - |a|] && c[j] == b[j - |a|];
      } else {
        assert c[i] in a && c[j] in b;
      }
    }
    forall x | x in c ensures lo <= CheckOrder(x) < hi {
      var k :| 0 <= k < |c| && c[k] == x;
      if k < |a| {
        assert c[k] == a[k] && a[k] in a;
      } else {
        assert c[k] == b[k - |a|] && b[k - |a|] in b;
      }
    }
  }

  /** At most one error, of a check in `lo` up to `hi`. */
  lemma PieceIncreasing(e: Option<RowError>, lo: nat, hi: nat)
    requires e.None? || lo <= CheckOrder(e.value) < hi
    ensures Increasing(AsList(e)) && Within(AsList(e), lo, hi)
  {
  }

  /** One optional error per check, each of its own check, list in check order. */
  lemma PiecesIncreasing(n: Option<RowError>, e: Option<RowError>, r: Option<RowError>, st: Option<RowError>)
    requires n.None? || n == Some(NameRequired)
    requires e.None? || e == Some(EmailRequired) || e == Some(InvalidEmailFormat)
    requires r.None? || r == Some(InvalidRole)
    requires st.None? || st == Some(InvalidStatus)
    ensures Increasing(AsList(n) + AsList(e) + AsList(r) + AsList(st))
  {
    var a, b, c, d := AsList(n), AsList(e), AsList(r), AsList(st);
    PieceIncreasing(n, 0, 1);
    PieceIncreasing(e, 1, 2);
    PieceIncreasing(r, 2, 3);
    PieceIncreasing(st, 3, 4);
    ConcatIncreasing(a, b, 0, 1, 2);
    ConcatIncreasing(a + b, c, 0, 2, 3);
    ConcatIncreasing(a + b + c, d, 0, 3, 4);
  }

  /** `RowErrors` lists the errors in check order, at most one per check. */
  lemma RowErrorsOrdered(row: Row)
    ensures Increasing(RowErrors(row))
  {
    PiecesIncreasing(NameError(Field(row, "name")), EmailError(Field(row, "email")), RoleError(row), StatusError(row));
  }

  /** Messages for errors in check order are listed in check order. */
  lemma MessagesOrder(index: nat, es: seq<RowError>, i: nat, e: RowError, j: nat, f: RowError)
    requires Increasing(es)
    requires var ms := Messages(index, es);
             i < |ms| && j < |ms| && ms[i] == Message(index, e) && ms[j] == Message(index, f)
    ensures i < j <==> CheckOrder(e) < CheckOrder(f)
  {
    MessageInjective(index, e, index, es[i]);
    MessageInjective(index, f, index, es[j]);
  }

  /** The messages of an invalid row come in check order: of two reported
      messages, the one whose check comes first in `validateUserData` is
      listed first. */
  lemma ReportOrder(row: Row, index: nat, clock: Clock, i: nat, e: RowError, j: nat, f: RowError)
    requires var errs := ErrorsOf(ValidateUserData(row, index, clock));
             i < |errs| && j < |errs| && errs[i] == Message(index, e) && errs[j] == Message(index, f)
    ensures i < j <==> CheckOrder(e) < CheckOrder(f)
  {
    ValidationErrors(row, index, clock);
    RowErrorsOrdered(row);
    MessagesOrder(index, RowErrors(row), i, e, j, f);
  }

  // ---------------------------------------------------------------------------
  // Row-level rules

  /** A blank name is reported, as the row's first message, and only then. */
  lemma NameRule(row: Row, index: nat, clock: Clock)
    ensures var v := ValidateUserData(row, index, clock);
            Message(index, NameRequired) in ErrorsOf(v) <==> IsBlank(Field(row, "name"))
    ensures var v := ValidateUserData(row, index, clock);
            IsBlank(Field(row, "name")) ==> v.Invalid? && v.errors[0] == Message(index, NameRequired)
  {
    ReportsIff(row, index, clock, NameRequired);
  }

  /** A blank address is "required" and never also "invalid"; a non-blank one is
      "invalid" exactly when its trimmed text fails the regular expression. */
  lemma EmailRules(row: Row, index: nat, clock: Clock)
    ensures var errs := ErrorsOf(ValidateUserData(row, index, clock));
            Message(index, EmailRequired) in errs <==> IsBlank(Field(row, "email"))
    ensures var errs := ErrorsOf(ValidateUserData(row, index, clock));
            Message(index, InvalidEmailFormat) in errs <==>
              !IsBlank(Field(row, "email")) && !MatchesPattern(Trim(Field(row, "email").value))
    ensures var errs := ErrorsOf(ValidateUserData(row, index, clock));
            !(Message(index, EmailRequired) in errs && Message(index, InvalidEmailFormat) in errs)
  {
    ReportsIff(row, index, clock, EmailRequired);
    ReportsIff(row, index, clock, InvalidEmailFormat);
    var email := Field(row, "email");
    if !IsBlank(email) {
      ValidEmailIffPattern(Trim(email.value));
    }
  }

  /** Errors accumulate: a row with neither name nor address gets both messages,
      the name first. */
  lemma MissingNameAndEmail(row: Row, index: nat, clock: Clock)
    requires IsBlank(Field(row, "name")) && IsBlank(Field(row, "email"))
    ensures var v := ValidateUserData(row, index, clock);
            v.Invalid? && |v.errors| >= 2
            && v.errors[0] == Message(index, NameRequired) && v.errors[1] == Message(index, EmailRequired)
  {
    var es := RowErrors(row);
    assert NameError(Field(row, "name")) == Some(NameRequired);
    assert EmailError(Field(row, "email")) == Some(EmailRequired);
    assert es[0] == NameRequired && es[1] == EmailRequired;
  }

  /** The role defaults to "Viewer" and must then be one of the three names,
      matched case-sensitively. */
  lemma RoleRule(row: Row, index: nat, clock: Clock)
    ensures RoleText(row) == if IsBlank(Field(row, "role")) then "Viewer" else Trim(Field(row, "role").value)
    ensures (Message(index, InvalidRole) in ErrorsOf(ValidateUserData(row, index, clock)))
            <==> RoleText(row) !in ["Admin", "Editor", "Viewer"]
  {
    ReportsIff(row, index, clock, InvalidRole);
    RoleAccepted(RoleText(row));
  }

  /** A lower-case role name is rejected. */
  lemma LowerCaseRoleRejected(row: Row, index: nat, clock: Clock)
    requires Field(row, "role") == Some("admin")
    ensures Message(index, InvalidRole) in ErrorsOf(ValidateUserData(row, index, clock))
  {
    AdminRoleText(row);
    RoleRule(row, index, clock);
  }

  lemma AdminRoleText(row: Row)
    requires Field(row, "role") == Some("admin")
    ensures RoleText(row) == "admin" && RoleText(row) !in ["Admin", "Editor", "Viewer"]
  {
    assert Trim("admin") == "admin";
  }

  /** The status is trimmed and lower-cased, defaults to "active", and must then
      be "active" or "inactive". */
  lemma StatusRule(row: Row, index: nat, clock: Clock)
    ensures StatusText(row) ==
              if IsBlank(Field(row, "status")) then "active" else Lower(Trim(Field(row, "status").value))
    ensures (Message(index, InvalidStatus) in ErrorsOf(ValidateUserData(row, index, clock)))
            <==> StatusText(row) !in ["active", "inactive"]
  {
    ReportsIff(row, index, clock, InvalidStatus);
    StatusAccepted(StatusText(row));
  }

  /** Status matching ignores case: "ACTIVE" is accepted and stored as active. */
  lemma UpperCaseStatusAccepted(row: Row, index: nat, clock: Clock)
    requires Field(row, "status") == Some("ACTIVE")
    ensures Message(index, InvalidStatus) !in ErrorsOf(ValidateUserData(row, index, clock))
    ensures ValidateUserData(row, index, clock).Valid? ==>
              ValidateUserData(row, index, clock).user.status == Active
  {
    UpperActiveStatusText(row);
    StatusRule(row, index, clock);
  }

  lemma UpperActiveStatusText(row: Row)
    requires Field(row, "status") == Some("ACTIVE")
    ensures StatusText(row) == "active" && ParseStatus(StatusText(row)) == Some(Active)
  {
    assert Trim("ACTIVE") == "ACTIVE";
    assert Lower("ACTIVE") == "active";
  }

  // ---------------------------------------------------------------------------
  // Batch aggregation

  /** `ImportResult`: the outcome of one upload attempt. */
  datatype ImportResult = ImportResult(
    success: bool,
    data: seq<User>,
    errors: seq<string>,
    totalRows: nat,
    validRows: nat,
    invalidRows: nat)

  const NoValidUsers: string := "No valid users found in the file"

  /** A value thrown by the tokenizer: an `Error` with its message, or anything else. */
  datatype Thrown = ErrorObject(message: string) | NonError

  /** What the CSV tokenizer (header mode, empty lines skipped) hands back:
      the rows together with its structural error messages, or a thrown value. */
  datatype Tokenized = Completed(rows: seq<Row>, errorMessages: seq<string>) | Errored(thrown: Thrown)

  /** `parseCSV`: any structural error rejects the whole file with the joined
      messages; otherwise the rows are the result. */
  function ParseCSV(t: Tokenized): (r: Result<seq<Row>, Thrown>)
    ensures r.Success? <==> t.Completed? && t.errorMessages == []
    ensures r.Success? ==> r.value == t.rows
  {
    match t
    case Completed(rows, msgs) =>
      if |msgs| > 0 then Failure(ErrorObject(Join(msgs, ", "))) else Success(rows)
    case Errored(thrown) => Failure(thrown)
  }

  /** `error instanceof Error ? error.message : "Unknown error"`. */
  function ThrownMessage(e: Thrown): string {
    match e
    case ErrorObject(m) => m
    case NonError => "Unknown error"
  }

  /** The users a validation contributes: its user, or nothing. */
  function UsersOf(v: Validation): seq<User> {
    if v.Valid? then [v.user] else []
  }

  /** The validation of each row, the row at position k having index `from + k`
      and the reading `clocks(from + k)`; `ValidationAt` states one entry. */
  function Validations(rows: seq<Row>, from: nat, clocks: Clocks): (vs: seq<Validation>)
    ensures |vs| == |rows|
  {
    seq(|rows|, k requires 0 <= k < |rows| => ValidateUserData(rows[k], from + k, clocks(from + k)))
  }

  // The three reference definitions below read the validations front to back.

  /** The users of the valid rows, in row order. */
  function ValidUsers(vs: seq<Validation>): seq<User> {
    if vs == [] then [] else UsersOf(vs[0]) + ValidUsers(vs[1..])
  }

  /** Every message of every invalid row, in row order. */
  function ReportedErrors(vs: seq<Validation>): seq<string> {
    if vs == [] then [] else ErrorsOf(vs[0]) + ReportedErrors(vs[1..])
  }

  /** The number of invalid rows. */
  function InvalidCount(vs: seq<Validation>): nat {
    if vs == [] then 0 else (if vs[0].Valid? then 0 else 1) + InvalidCount(vs[1..])
  }

  /** The reference definitions distribute over a split of the rows. */
  lemma {:induction false} ValidUsersSplit(a: seq<Validation>, b: seq<Validation>)
    ensures ValidUsers(a + b) == ValidUsers(a) + ValidUsers(b)
  {
    if a == [] {
      assert a + b == b;
    } else {
      assert (a + b)[0] == a[0];
      assert (a + b)[1..] == a[1..] + b;
      ValidUsersSplit(a[1..], b);
    }
  }

  lemma {:induction false} ReportedErrorsSplit(a: seq<Validation>, b: seq<Validation>)
    ensures ReportedErrors(a + b) == ReportedErrors(a) + ReportedErrors(b)
  {
    if a == [] {
      assert a + b == b;
    } else {
      assert (a + b)[0] == a[0];
      assert (a + b)[1..] == a[1..] + b;
      ReportedErrorsSplit(a[1..], b);
    }
  }

  lemma {:induction false} InvalidCountSplit(a: seq<Validation>, b: seq<Validation>)
    ensures InvalidCount(a + b) == InvalidCount(a) + InvalidCount(b)
  {
    if a == [] {
      assert a + b == b;
    } else {
      assert (a + b)[0] == a[0];
      assert (a + b)[1..] == a[1..] + b;
      InvalidCountSplit(a[1..], b);
    }
  }

  lemma ReferenceSplit(a: seq<Validation>, b: seq<Validation>)
    ensures ValidUsers(a + b) == ValidUsers(a) + ValidUsers(b)
    ensures ReportedErrors(a + b) == ReportedErrors(a) + ReportedErrors(b)
    ensures InvalidCount(a + b) == InvalidCount(a) + InvalidCount(b)
  {
    ValidUsersSplit(a, b);
    ReportedErrorsSplit(a, b);
    InvalidCountSplit(a, b);
  }

  /** Every row lands in exactly one bucket. */
  lemma {:induction false} Partition(vs: seq<Validation>)
    ensures |ValidUsers(vs)| + InvalidCount(vs) == |vs|
  {
    if vs != [] {
      Partition(vs[1..]);
    }
  }

  /** The body of the `forEach`: a valid row appends its user and bumps
      `validRows`; an invalid one appends all its messages and bumps `invalidRows`. */
  function Step(acc: ImportResult, v: Validation): ImportResult {
    match v
    case Valid(user) => acc.(data := acc.data + [user], validRows := acc.validRows + 1)
    case Invalid(errors) => acc.(errors := acc.errors + errors, invalidRows := acc.invalidRows + 1)
  }

  /** The `forEach` over the rows' validations, in order, starting from the
      initial result with `totalRows` set to `total`. */
  function Tally(vs: seq<Validation>, total: nat): (r: ImportResult)
    ensures r.success && r.totalRows == total
    ensures r.data == ValidUsers(vs) && r.validRows == |r.data|
    ensures r.errors == ReportedErrors(vs)
    ensures r.invalidRows == InvalidCount(vs)
  {
    if vs == [] then ImportResult(true, [], [], total, 0, 0)
    else
      var prefix, last := vs[..|vs| - 1], vs[|vs| - 1];
      assert prefix + [last] == vs;
      ReferenceSplit(prefix, [last]);
      Step(Tally(prefix, total), last)
  }

  /** The check after the loop: no valid row makes the import a failure led by
      an explanatory message. */
  function Finish(acc: ImportResult): ImportResult {
    if acc.validRows == 0 then acc.(success := false, errors := [NoValidUsers] + acc.errors)
    else acc
  }

  /** `importUsersFromCSV` once the file has been tokenized. */
  function ImportRows(rows: seq<Row>, clocks: Clocks): (r: ImportResult)
    ensures r.totalRows == |rows| && r.validRows + r.invalidRows == r.totalRows
    ensures r.data == ValidUsers(Validations(rows, 0, clocks)) && |r.data| == r.validRows
    ensures r.invalidRows == InvalidCount(Validations(rows, 0, clocks))
    ensures r.success <==> r.validRows > 0
    ensures r.errors == (if r.validRows == 0 then [NoValidUsers] else []) + ReportedErrors(Validations(rows, 0, clocks))
  {
    var vs := Validations(rows, 0, clocks);
    Partition(vs);
    Finish(Tally(vs, |rows|))
  }

  /** `importUsersFromCSV`: a failed parse yields an empty failure carrying the
      one message; otherwise the rows are validated and aggregated. */
  function ImportUsersFromCSV(t: Tokenized, clocks: Clocks): (r: ImportResult)
    ensures ParseCSV(t).Failure? ==>
              r == ImportResult(false, [], [ThrownMessage(ParseCSV(t).error)], 0, 0, 0)
    ensures t.Completed? && t.errorMessages != [] ==>
              r.errors == [Join(t.errorMessages, ", ")] && !r.success && r.totalRows == 0
    ensures ParseCSV(t).Success? ==>
              && r.totalRows == |t.rows|
              && r.validRows + r.invalidRows == r.totalRows
              && r.data == ValidUsers(Validations(t.rows, 0, clocks)) && |r.data| == r.validRows
              && (r.success <==> r.validRows > 0)
              && r.errors == (if r.validRows == 0 then [NoValidUsers] else []) + ReportedErrors(Validations(t.rows, 0, clocks))
  {
    match ParseCSV(t)
    case Failure(e) => ImportResult(false, [], [ThrownMessage(e)], 0, 0, 0)
    case Success(rows) => ImportRows(rows, clocks)
  }

  // ---------------------------------------------------------------------------
  // Properties of an import

  /** Validation i contributes its own user or its own messages, placed after
      those of the validations before it and before those after it. */
  lemma Contribution(vs: seq<Validation>, i: nat)
    requires i < |vs|
    ensures ValidUsers(vs) == ValidUsers(vs[..i]) + UsersOf(vs[i]) + ValidUsers(vs[i + 1..])
    ensures ReportedErrors(vs) == ReportedErrors(vs[..i]) + ErrorsOf(vs[i]) + ReportedErrors(vs[i + 1..])
  {
    var rest := vs[i..];
    assert vs == vs[..i] + rest;
    ReferenceSplit(vs[..i], rest);
    assert rest[0] == vs[i] && rest[1..] == vs[i + 1..];
  }

  /** Entry i of an import's validations is row i validated at index i with
      reading `clocks(i)`. */
  lemma ValidationAt(rows: seq<Row>, i: nat, clocks: Clocks)
    requires i < |rows|
    ensures Validations(rows, 0, clocks)[i] == ValidateUserData(rows[i], i, clocks(i))
  {
  }

  /** In an import, row i contributes its own user (to `data`) or its own
      messages (to the per-row part of `errors`), in row order. */
  lemma RowContribution(rows: seq<Row>, i: nat, clocks: Clocks)
    requires i < |rows|
    ensures var vs, r := Validations(rows, 0, clocks), ImportRows(rows, clocks);
            && vs[i] == ValidateUserData(rows[i], i, clocks(i))
            && r.data == ValidUsers(vs[..i]) + UsersOf(vs[i]) + ValidUsers(vs[i + 1..])
            && ReportedErrors(vs) == ReportedErrors(vs[..i]) + ErrorsOf(vs[i]) + ReportedErrors(vs[i + 1..])
  {
    var vs := Validations(rows, 0, clocks);
    ValidationAt(rows, i, clocks);
    Contribution(vs, i);
  }

  /** A file whose rows are all valid imports every row and reports nothing. */
  lemma AllRowsValid(rows: seq<Row>, clocks: Clocks)
    requires |rows| > 0
    requires forall i :: 0 <= i < |rows| ==> ValidateUserData(rows[i], i, clocks(i)).Valid?
    ensures var r := ImportRows(rows, clocks);
            r.success && r.validRows == |rows| && r.invalidRows == 0 && |r.data| == |rows| && r.errors == []
  {
    var vs := Validations(rows, 0, clocks);
    AllValidReference(vs);
  }

  lemma {:induction false} AllValidReference(vs: seq<Validation>)
    requires forall i :: 0 <= i < |vs| ==> vs[i].Valid?
    ensures InvalidCount(vs) == 0 && ReportedErrors(vs) == []
  {
    if vs != [] {
      AllValidReference(vs[1..]);
    }
  }

  /** A file without data rows fails with the one explanatory message. */
  lemma EmptyFile(clocks: Clocks)
    ensures ImportRows([], clocks) == ImportResult(false, [], [NoValidUsers], 0, 0, 0)
  {
  }

  /** `imported-${now}-${index}` determines both the reading and the index:
      the digits of `now` end at the first '-' after the prefix. */
  lemma ImportedIdInjective(a: nat, i: nat, b: nat, j: nat)
    requires ImportedId(a, i) == ImportedId(b, j)
    ensures a == b && i == j
  {
    var p := "imported-";
    var x, y := "-" + Decimal(i), "-" + Decimal(j);
    assert ImportedId(a, i) == p + (Decimal(a) + x);
    assert ImportedId(b, j) == p + (Decimal(b) + y);
    PrefixCancel(p, Decimal(a) + x, Decimal(b) + y);
    DigitsThenSeparator(Decimal(a), x, Decimal(b), y);
    DecimalInjective(a, b);
    PrefixCancel("-", Decimal(i), Decimal(j));
    DecimalInjective(i, j);
  }

  /** Validation k (counting from `from`) that succeeds names its user after
      its own index and its own clock reading. */
  ghost predicate IdsByIndex(vs: seq<Validation>, clocks: Clocks, from: nat) {
    forall k :: 0 <= k < |vs| && vs[k].Valid? ==> vs[k].user.id == ImportedId(clocks(from + k).now, from + k)
  }

  lemma IdsByIndexTail(vs: seq<Validation>, clocks: Clocks, from: nat)
    requires IdsByIndex(vs, clocks, from) && vs != []
    ensures IdsByIndex(vs[1..], clocks, from + 1)
  {
    forall k' | 0 <= k' < |vs| - 1 && vs[1..][k'].Valid?
      ensures vs[1..][k'].user.id == ImportedId(clocks(from + 1 + k').now, from + 1 + k')
    {
      assert vs[1..][k'] == vs[k' + 1];
    }
  }

  /** The users collected from such validations carry ids of indices `from`.. onwards. */
  lemma {:induction false} CollectedIds(vs: seq<Validation>, clocks: Clocks, from: nat, k: nat)
    requires IdsByIndex(vs, clocks, from)
    requires k < |ValidUsers(vs)|
    ensures exists j :: from <= j < from + |vs| && ValidUsers(vs)[k].id == ImportedId(clocks(j).now, j)
  {
    var h := |UsersOf(vs[0])|;
    if h == 1 && k == 0 {
      assert ValidUsers(vs)[0].id == ImportedId(clocks(from + 0).now, from + 0);
    } else {
      assert ValidUsers(vs)[k] == ValidUsers(vs[1..])[k - h];
      IdsByIndexTail(vs, clocks, from);
      CollectedIds(vs[1..], clocks, from + 1, k - h);
    }
  }

  /** No two users of `us` share an id. */
  ghost predicate DistinctIds(us: seq<User>) {
    forall k, l :: 0 <= k < l < |us| ==> us[k].id != us[l].id
  }

  /** Users collected from such validations have pairwise distinct ids. */
  lemma {:induction false} CollectedIdsDistinct(vs: seq<Validation>, clocks: Clocks, from: nat)
    requires IdsByIndex(vs, clocks, from)
    ensures DistinctIds(ValidUsers(vs))
  {
    if vs != [] {
      var tail := ValidUsers(vs[1..]);
      IdsByIndexTail(vs, clocks, from);
      CollectedIdsDistinct(vs[1..], clocks, from + 1);
      if vs[0].Valid? {
        var us := ValidUsers(vs);
        assert us == [vs[0].user] + tail;
        forall l | 0 < l < |us| ensures us[0].id != us[l].id {
          CollectedIds(vs[1..], clocks, from + 1, l - 1);
          var j :| from + 1 <= j < from + |vs| && tail[l - 1].id == ImportedId(clocks(j).now, j);
          if us[0].id == us[l].id {
            ImportedIdInjective(clocks(from).now, from, clocks(j).now, j);
          }
        }
        assert forall k :: 0 < k < |us| ==> us[k] == tail[k - 1];
      } else {
        var us := ValidUsers(vs);
        assert us == tail;
        forall k, l | 0 <= k < l < |us| ensures us[k].id != us[l].id {
          assert us[k] == tail[k] && us[l] == tail[l];
        }
      }
    }
  }

  lemma ImportIdsByIndex(rows: seq<Row>, clocks: Clocks)
    ensures IdsByIndex(Validations(rows, 0, clocks), clocks, 0)
  {
    var vs := Validations(rows, 0, clocks);
    forall k | 0 <= k < |vs| && vs[k].Valid? ensures vs[k].user.id == ImportedId(clocks(0 + k).now, 0 + k) {
      assert vs[k] == ValidateUserData(rows[k], k, clocks(k));
    }
  }

  /** Within one import no two imported users share an id, even though every
      row reads the clock for itself. */
  lemma ImportedIdsDistinct(rows: seq<Row>, clocks: Clocks)
    ensures DistinctIds(ImportRows(rows, clocks).data)
  {
    var vs := Validations(rows, 0, clocks);
    ImportIdsByIndex(rows, clocks);
    CollectedIdsDistinct(vs, clocks, 0);
    assert ImportRows(rows, clocks).data == ValidUsers(vs);
  }

  /** The prefix of every message about the second row. */
  lemma RowTwoPrefix(e: RowError)
    ensures Message(1, e) == "Row 2: " + Describe(e)
  {
    assert Decimal(2) == "2";
    assert "Row " + "2" + ": " == "Row 2: ";
  }

  lemma RowThreePrefix(e: RowError)
    ensures Message(2, e) == "Row 3: " + Describe(e)
  {
    assert Decimal(3) == "3";
    assert "Row " + "3" + ": " == "Row 3: ";
  }

  lemma NameMessageRow2()
    ensures Message(1, NameRequired) == "Row 2: Name is required"
  {
    RowTwoPrefix(NameRequired);
  }

  lemma RoleMessageRow2()
    ensures Message(1, InvalidRole) == "Row 2: " + "Invalid role. Must be one of: Admin, Editor, Viewer"
  {
    RowTwoPrefix(InvalidRole);
  }

  lemma EmailMessageRow3()
    ensures Message(2, InvalidEmailFormat) == "Row 3: Invalid email format"
  {
    RowThreePrefix(InvalidEmailFormat);
  }

  /** The messages a validation reports are its row's errors, as messages. */
  lemma ValidationErrors(row: Row, index: nat, clock: Clock)
    ensures ErrorsOf(ValidateUserData(row, index, clock)) == Messages(index, RowErrors(row))
  {
  }

  /** An invalid row is reported as the messages of its errors. */
  lemma InvalidReports(row: Row, index: nat, clock: Clock)
    requires RowErrors(row) != []
    ensures ValidateUserData(row, index, clock) == Invalid(Messages(index, RowErrors(row)))
  {
  }

  /** One validation contributes exactly its own user, messages and count. */
  lemma Singleton(v: Validation)
    ensures ValidUsers([v]) == UsersOf(v)
    ensures ReportedErrors([v]) == ErrorsOf(v)
    ensures InvalidCount([v]) == (if v.Invalid? then 1 else 0)
  {
    assert [v][1..] == [];
  }

  lemma ThreeValidations(x: Validation, y: Validation, z: Validation)
    ensures ValidUsers([x, y, z]) == UsersOf(x) + UsersOf(y) + UsersOf(z)
    ensures ReportedErrors([x, y, z]) == ErrorsOf(x) + ErrorsOf(y) + ErrorsOf(z)
    ensures InvalidCount([x, y, z]) == (if x.Invalid? then 1 else 0) + (if y.Invalid? then 1 else 0) + (if z.Invalid? then 1 else 0)
  {
    Singleton(x);
    Singleton(y);
    Singleton(z);
    assert [x, y, z] == [x] + ([y] + [z]);
    ReferenceSplit([y], [z]);
    ReferenceSplit([x], [y] + [z]);
  }

  lemma MessagesOfTwo(index: nat, e: RowError, f: RowError)
    ensures Messages(index, [e, f]) == [Message(index, e), Message(index, f)]
  {
  }

  lemma MessagesOfOne(index: nat, e: RowError)
    ensures Messages(index, [e]) == [Message(index, e)]
  {
  }

  lemma ConcatThree(x: string, y: string, z: string)
    ensures [] + ([x, y] + [z]) == [x, y, z]
  {
  }

  /** Three validations, the first valid and the other two invalid. */
  lemma OneValidTwoInvalid(vs: seq<Validation>)
    requires |vs| == 3 && vs[0].Valid? && vs[1].Invalid? && vs[2].Invalid?
    ensures ValidUsers(vs) == [vs[0].user]
    ensures ReportedErrors(vs) == vs[1].errors + vs[2].errors
    ensures InvalidCount(vs) == 2
  {
    assert vs == [vs[0], vs[1], vs[2]];
    ThreeValidations(vs[0], vs[1], vs[2]);
  }

  /** A three-row upload whose first row is good, whose second lacks a name and
      has an unknown role, and whose third has a malformed address: one user is
      imported and the three errors are reported in row order. */
  lemma MixedUpload(a: Row, b: Row, c: Row, clocks: Clocks)
    requires RowErrors(a) == []
    requires RowErrors(b) == [NameRequired, InvalidRole]
    requires RowErrors(c) == [InvalidEmailFormat]
    ensures var r := ImportRows([a, b, c], clocks);
            && r.success && r.totalRows == 3 && r.validRows == 1 && r.invalidRows == 2
            && r.data == [ValidateUserData(a, 0, clocks(0)).user]
            && r.errors == [Message(1, NameRequired), Message(1, InvalidRole), Message(2, InvalidEmailFormat)]
  {
    var va, vb, vc := ValidateUserData(a, 0, clocks(0)), ValidateUserData(b, 1, clocks(1)), ValidateUserData(c, 2, clocks(2));
    assert va.Valid?;
    InvalidReports(b, 1, clocks(1));
    InvalidReports(c, 2, clocks(2));
    MessagesOfTwo(1, NameRequired, InvalidRole);
    MessagesOfOne(2, InvalidEmailFormat);
    var vs := Validations([a, b, c], 0, clocks);
    ValidationAt([a, b, c], 0, clocks);
    ValidationAt([a, b, c], 1, clocks);
    ValidationAt([a, b, c], 2, clocks);
    OneValidTwoInvalid(vs);
    ConcatThree(Message(1, NameRequired), Message(1, InvalidRole), Message(2, InvalidEmailFormat));
  }

  /** The same upload, with the reported messages spelled out. */
  lemma MixedUploadMessages(a: Row, b: Row, c: Row, clocks: Clocks)
    requires RowErrors(a) == []
    requires RowErrors(b) == [NameRequired, InvalidRole]
    requires RowErrors(c) == [InvalidEmailFormat]
    ensures ImportRows([a, b, c], clocks).errors
            == ["Row 2: Name is required",
                "Row 2: " + "Invalid role. Must be one of: Admin, Editor, Viewer",
                "Row 3: Invalid email format"]
  {
    MixedUpload(a, b, c, clocks);
    NameMessageRow2();
    RoleMessageRow2();
    EmailMessageRow3();
  }
}
