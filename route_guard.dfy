/** The request guard (`proxy`): which pages need a signed-in user, where an
    anonymous visitor is sent and which roles may open each page family. */
module RouteGuard {
  import opened Common

  datatype Family = Admin | Professor | Student

  datatype Decision = PassThrough | Redirect(to: string)

  /** A row of `users` as the guard selects it. */
  datatype UserRole = UserRole(authId: string, role: Option<string>)

  function Prefix(f: Family): string
  {
    match f
    case Admin => "/admin"
    case Professor => "/professor"
    case Student => "/student"
  }

  function LoginPage(f: Family): (p: string)
    ensures StartsWith(p, Prefix(f))
  {
    Prefix(f) + "/login"
  }

  /** `pathname.startsWith(prefix) && !pathname.startsWith(prefix + '/login')` */
  predicate IsRoute(path: string, f: Family)
  {
    StartsWith(path, Prefix(f)) && !StartsWith(path, LoginPage(f))
  }

  /** The first family whose page the path is, if any. */
  function FamilyOf(path: string): (f: Option<Family>)
    ensures f.Some? ==> IsRoute(path, f.value)
    ensures f.None? ==> !IsRoute(path, Admin) && !IsRoute(path, Professor) && !IsRoute(path, Student)
  {
    if IsRoute(path, Admin) then Some(Admin)
    else if IsRoute(path, Professor) then Some(Professor)
    else if IsRoute(path, Student) then Some(Student)
    else None
  }

  /** The roles a family admits. */
  predicate Admits(f: Family, role: string)
  {
    match f
    case Admin => role == "admin"
    case Professor => role == "professor" || role == "adviser"
    case Student => role == "student"
  }

  /** `.single()` on the signed-in user's row; no row, several rows or an
      empty role give no role. */
  function RoleOf(users: seq<UserRole>, authId: string): (r: Option<string>)
    ensures r.Some? ==> r.value != "" && exists u :: u in users && u.authId == authId && u.role == r
    ensures forall i :: 0 <= i < |users| && users[i].authId == authId &&
                        (forall j :: 0 <= j < |users| && j != i ==> users[j].authId != authId) ==>
              r == (if Truthy(users[i].role) then users[i].role else None)
  {
    var keep := (u: UserRole) => u.authId == authId;
    SingleFilter(users, keep);
    match Single(Filter(users, keep))
    case Some(u) => if Truthy(u.role) then u.role else None
    case None => None
  }

  /** `proxy`: `user` is the signed-in user's auth id, if any. */
  function Guard(path: string, user: Option<string>, users: seq<UserRole>): (d: Decision)
    ensures FamilyOf(path).None? ==> d == PassThrough
    ensures FamilyOf(path).Some? && user.None? ==> d == Redirect(LoginPage(FamilyOf(path).value))
    ensures FamilyOf(path).Some? && user.Some? && RoleOf(users, user.value).None? ==> d == PassThrough
    ensures FamilyOf(path).Some? && user.Some? && RoleOf(users, user.value).Some? ==>
              (d == PassThrough <==> Admits(FamilyOf(path).value, RoleOf(users, user.value).value)) &&
              (d != PassThrough ==> d == Redirect("/"))
  {
    match FamilyOf(path)
    case None => PassThrough
    case Some(f) =>
      match user
      case None => Redirect(LoginPage(f))
      case Some(id) =>
        match RoleOf(users, id)
        case None => PassThrough
        case Some(role) => if Admits(f, role) then PassThrough else Redirect("/")
  }

  /** The three prefixes differ in their second character, so a path belongs
      to at most one family. */
  lemma AtMostOneFamily(path: string, f: Family, g: Family)
    requires IsRoute(path, f) && IsRoute(path, g)
    ensures f == g
  {
    assert Prefix(f)[1] == path[1] == Prefix(g)[1];
  }

  /** Each family's login page is open to everybody, and so is anything
      beginning with it. */
  lemma LoginPagesOpen(f: Family, rest: string, user: Option<string>, users: seq<UserRole>)
    ensures Guard(LoginPage(f) + rest, user, users) == PassThrough
  {
    var p := LoginPage(f) + rest;
    assert StartsWith(p, LoginPage(f));
    assert StartsWith(p, Prefix(f)) by { assert Prefix(f) <= LoginPage(f); }
    forall g | g != f
      ensures !IsRoute(p, g)
    {
      assert p[1] == Prefix(f)[1];
    }
  }

  /** A prefix test, not a path-segment test: `/administrator` is an admin page. */
  lemma PrefixNotSegment()
    ensures FamilyOf("/administrator") == Some(Admin)
    ensures Guard("/administrator", None, []) == Redirect("/admin/login")
  {
    assert StartsWith("/administrator", "/admin");
    assert !StartsWith("/administrator", "/admin/login") by {
      assert "/administrator"[6] != "/admin/login"[6];
    }
  }

  /** Whatever the session, a signed-in user whose role the family does not
      admit never gets through, and an admitted one always does. */
  lemma RolesEnforced(path: string, id: string, users: seq<UserRole>, f: Family)
    requires IsRoute(path, f)
    requires RoleOf(users, id).Some?
    ensures Guard(path, Some(id), users) == PassThrough <==> Admits(f, RoleOf(users, id).value)
  {
    if FamilyOf(path).value != f {
      AtMostOneFamily(path, f, FamilyOf(path).value);
    }
  }
}
