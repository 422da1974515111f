/**
 * The browser side of a login (`lib/auth.ts`): the session kept in the
 * tab's `sessionStorage`, the headers every API call sends, and the
 * client's own create-patient check.
 *
 * `sessionStorage` is a string-to-string map; `typeof window` is the flag
 * `inBrowser`, fixed for a page's lifetime (false while rendering on the
 * server).
 */
module Session {
  import opened Wrappers
  import Roles
  import Policies

  /** `AuthSession` of `lib/types.ts`. */
  datatype AuthSession = AuthSession(
    token: string, username: string, role: string,
    tenantId: string, tenantCode: string, tenantName: string)

  type Storage = map<string, string>

  /** `sessionStorage.getItem(key) || ""`: a missing item reads as the empty string. */
  function ItemOrEmpty(items: Storage, key: string): string {
    if key in items then items[key] else ""
  }

  /** `getSession`: nothing outside a browser or without a non-empty stored token. */
  function ReadSession(inBrowser: bool, items: Storage): (r: Option<AuthSession>)
    ensures r.None? <==> !inBrowser || "token" !in items || items["token"] == ""
    ensures r.Some? ==> r.value.token == items["token"] != ""
  {
    if !inBrowser then None
    else if ItemOrEmpty(items, "token") == "" then None
    else Some(AuthSession(
      items["token"],
      ItemOrEmpty(items, "username"), ItemOrEmpty(items, "role"), ItemOrEmpty(items, "tenantId"),
      ItemOrEmpty(items, "tenantCode"), ItemOrEmpty(items, "tenantName")))
  }

  /** The storage after `setSession(d)`: the six items are overwritten, any other item is kept. */
  function Written(items: Storage, d: AuthSession): Storage {
    items["token" := d.token]["username" := d.username]["role" := d.role]
         ["tenantId" := d.tenantId]["tenantCode" := d.tenantCode]["tenantName" := d.tenantName]
  }

  /** `getAuthHeaders`, for the session `getSession` read: a bearer header when that session has a token. */
  function Headers(session: Option<AuthSession>): (h: map<string, string>)
    ensures "Content-Type" in h && h["Content-Type"] == "application/json"
    ensures "Authorization" in h <==> session.Some? && session.value.token != ""
    ensures "Authorization" in h ==> h["Authorization"] == "Bearer " + session.value.token
  {
    var json := map["Content-Type" := "application/json"];
    if session.Some? && session.value.token != "" then json["Authorization" := "Bearer " + session.value.token]
    else json
  }

  /** `canCreatePatient`: the client shows the create form to these role names only. */
  predicate CanCreatePatient(role: string) {
    role == "Admin" || role == "User"
  }

  /** A session written with a non-empty token reads back field for field; with an empty one, not at all. */
  lemma SetThenGet(items: Storage, d: AuthSession)
    ensures ReadSession(true, Written(items, d)) == (if d.token == "" then None else Some(d))
  {
  }

  /** A cleared storage holds no session. */
  lemma ClearThenGet(inBrowser: bool)
    ensures ReadSession(inBrowser, map[]) == None
  {
  }

  /** A stored token without its companion items gives a session whose other fields are empty. */
  lemma MissingFieldsEmpty(token: string)
    requires token != ""
    ensures ReadSession(true, map["token" := token]) == Some(AuthSession(token, "", "", "", "", ""))
  {
  }

  /** The client-side check agrees with the server's create-patient policy on every role name. */
  lemma ClientCheckMatchesPolicy(role: string)
    ensures CanCreatePatient(role)
        <==> exists r | r in Policies.PolicyRoles(Policies.CanCreatePatient) :: Roles.Name(r) == role
  {
    if role == "Admin" {
      assert Roles.Name(Roles.Admin) == role;
    } else if role == "User" {
      assert Roles.Name(Roles.User) == role;
    }
  }

  /** The browser tab's session storage. */
  class SessionStore {
    const inBrowser: bool
    var items: Storage

    constructor(inBrowser: bool)
      ensures this.inBrowser == inBrowser && items == map[]
    {
      this.inBrowser := inBrowser;
      items := map[];
    }

    /** `getSession()`. */
    function Get(): Option<AuthSession>
      reads this
    {
      ReadSession(inBrowser, items)
    }

    /** `getAuthHeaders()`: a bearer header exactly when a session exists. */
    function AuthHeaders(): (h: map<string, string>)
      reads this
      ensures "Authorization" in h <==> Get().Some?
      ensures "Authorization" in h ==> h["Authorization"] == "Bearer " + items["token"]
    {
      Headers(Get())
    }

    /** `setSession(d)`; `sessionStorage` exists only in a browser. */
    method SetSession(d: AuthSession)
      requires inBrowser
      modifies this
      ensures items == Written(old(items), d)
      ensures Get() == (if d.token == "" then None else Some(d))
    {
      items := items["token" := d.token];
      items := items["username" := d.username];
      items := items["role" := d.role];
      items := items["tenantId" := d.tenantId];
      items := items["tenantCode" := d.tenantCode];
      items := items["tenantName" := d.tenantName];
      SetThenGet(old(items), d);
    }

    /** `clearSession()`: every item goes, so no session remains. */
    method ClearSession()
      requires inBrowser
      modifies this
      ensures items == map[]
      ensures Get().None?
    {
      items := map[];
    }
  }
}
