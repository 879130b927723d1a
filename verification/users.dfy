/** The user record the dashboard manages, with its two enumerated fields. */
module Users {
  import opened Wrappers

  datatype Role = Admin | Editor | Viewer

  datatype Status = Active | Inactive

  /** A user; `role` and `status` are kept as their enumerations and rendered
      with `RoleName` and `StatusName` where the source uses the string. */
  datatype User = User(
    id: string,
    name: string,
    email: string,
    role: Role,
    status: Status,
    createdAt: string)

  function RoleName(r: Role): string {
    match r
    case Admin => "Admin"
    case Editor => "Editor"
    case Viewer => "Viewer"
  }

  function StatusName(s: Status): string {
    match s
    case Active => "active"
    case Inactive => "inactive"
  }

  /** `["Admin", "Editor", "Viewer"].includes(s)`, returning the role matched. */
  function ParseRole(s: string): (r: Option<Role>)
    ensures r.Some? ==> RoleName(r.value) == s
  {
    if s == "Admin" then Some(Admin)
    else if s == "Editor" then Some(Editor)
    else if s == "Viewer" then Some(Viewer)
    else None
  }

  /** `["active", "inactive"].includes(s)`, returning the status matched. */
  function ParseStatus(s: string): (r: Option<Status>)
    ensures r.Some? ==> StatusName(r.value) == s
  {
    if s == "active" then Some(Active)
    else if s == "inactive" then Some(Inactive)
    else None
  }

  /** Every role name is accepted, as that role; nothing else is. */
  lemma RoleNameRoundTrip(s: string, r: Role)
    ensures ParseRole(RoleName(r)) == Some(r)
    ensures ParseRole(s) == Some(r) <==> s == RoleName(r)
  {
  }

  /** Every status name is accepted, as that status; nothing else is. */
  lemma StatusNameRoundTrip(s: string, st: Status)
    ensures ParseStatus(StatusName(st)) == Some(st)
    ensures ParseStatus(s) == Some(st) <==> s == StatusName(st)
  {
  }

  /** Exactly the three names are accepted. */
  lemma RoleAccepted(s: string)
    ensures ParseRole(s).Some? <==> s in ["Admin", "Editor", "Viewer"]
  {
  }

  /** Exactly the two names are accepted. */
  lemma StatusAccepted(s: string)
    ensures ParseStatus(s).Some? <==> s in ["active", "inactive"]
  {
  }
}
