/** The three roles of `Domain/Entities/User.cs` and their names as stored and as carried in tokens. */
module Roles {
  import opened Wrappers

  datatype Role = Admin | User | Viewer

  /** The role a user gets when nothing else is said. */
  const Default: Role := Viewer

  function Name(r: Role): string {
    match r
    case Admin => "Admin"
    case User => "User"
    case Viewer => "Viewer"
  }

  /** Membership of a request's role text in `{ Roles.Admin, Roles.User, Roles.Viewer }` (ordinal, case-sensitive). */
  function Parse(s: string): (r: Option<Role>)
    ensures r.Some? ==> Name(r.value) == s
    ensures r.None? ==> forall x: Role :: Name(x) != s
  {
    if s == "Admin" then Some(Admin)
    else if s == "User" then Some(User)
    else if s == "Viewer" then Some(Viewer)
    else None
  }

  lemma ParseName(r: Role)
    ensures Parse(Name(r)) == Some(r)
  {
  }
}
