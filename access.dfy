/**
 * The request-level access rules: who may view a lesson (`can_view_lesson`),
 * the role gate built by `require_roles`, and the header rule of
 * `get_current_user`. The profile lookup `get_user_profile` is not part of
 * this model; it is the parameter `profileOf`.
 */
module Access {
  import opened Wrappers
  import opened UsersRepo

  /** What the profile lookup reports: the codes of the user's roles and the ids of the user's groups. */
  datatype Profile = Profile(roleCodes: seq<string>, groupIds: seq<int>)

  /** An HTTP error raised by a dependency. */
  datatype HttpError = HttpError(status: int, detail: string)

  /** What the role gate hands to the route: the profile, or the bare user when there is none (`prof or me`). */
  datatype Caller = ProfileCaller(profile: Profile) | UserCaller(user: User)

  /** Python truthiness of an optional integer: None and 0 are falsy. */
  predicate Truthy(x: Option<int>) {
    x.Some? && x.value != 0
  }

  /** `any(g in my_groups for g in lesson_group_ids)`. */
  function AnyShared(lessonGroups: seq<int>, myGroups: set<int>): (r: bool)
    ensures r <==> exists g :: g in lessonGroups && g in myGroups
  {
    if lessonGroups == [] then false
    else
      assert forall g :: g in lessonGroups <==> g == lessonGroups[0] || g in lessonGroups[1..];
      lessonGroups[0] in myGroups || AnyShared(lessonGroups[1..], myGroups)
  }

  predicate IsStaff(codes: set<string>) {
    "admin" in codes || "teacher" in codes
  }

  /** `can_view_lesson`. */
  function CanViewLesson(tgId: Option<int>, lessonGroups: seq<int>, profileOf: int -> Option<Profile>): (ok: bool)
    ensures lessonGroups == [] ==> ok
    ensures lessonGroups != [] && !Truthy(tgId) ==> !ok
    ensures lessonGroups != [] && Truthy(tgId) && profileOf(tgId.value).None? ==> !ok
  {
    if lessonGroups == [] then true
    else if !Truthy(tgId) then false
    else match profileOf(tgId.value)
      case None => false
      case Some(prof) =>
        var codes := set c | c in prof.roleCodes;
        if IsStaff(codes) then true
        else
          var myGroups := set g | g in prof.groupIds;
          AnyShared(lessonGroups, myGroups)
  }

  /** The rule as a single statement: public lessons, staff, or a shared group. */
  lemma CanViewLessonIff(tgId: Option<int>, lessonGroups: seq<int>, profileOf: int -> Option<Profile>)
    ensures CanViewLesson(tgId, lessonGroups, profileOf) <==>
      lessonGroups == [] ||
      (Truthy(tgId) && profileOf(tgId.value).Some? &&
        var prof := profileOf(tgId.value).value;
        ("admin" in prof.roleCodes || "teacher" in prof.roleCodes ||
         exists g :: g in lessonGroups && g in prof.groupIds))
  {
  }

  /** Adding groups (or roles) to a user's profile never revokes a view. */
  lemma MoreGroupsNeverRevoke(tgId: Option<int>, lessonGroups: seq<int>, profileOf: int -> Option<Profile>,
                              profileOf': int -> Option<Profile>)
    requires Truthy(tgId) ==> profileOf(tgId.value).Some? ==>
      profileOf'(tgId.value).Some? &&
      (forall c :: c in profileOf(tgId.value).value.roleCodes ==> c in profileOf'(tgId.value).value.roleCodes) &&
      (forall g :: g in profileOf(tgId.value).value.groupIds ==> g in profileOf'(tgId.value).value.groupIds)
    ensures CanViewLesson(tgId, lessonGroups, profileOf) ==> CanViewLesson(tgId, lessonGroups, profileOf')
  {
    CanViewLessonIff(tgId, lessonGroups, profileOf);
    CanViewLessonIff(tgId, lessonGroups, profileOf');
  }

  /** The checker `require_roles(*allowed)` returns: 403 unless a role code is allowed. */
  function RequireRoles(allowed: seq<string>, me: User, prof: Option<Profile>): (r: Result<Caller, HttpError>)
    ensures r.Err? ==> r.error == HttpError(403, "Forbidden")
  {
    var codes := set c | prof.Some? && c in prof.value.roleCodes;
    if (set a | a in allowed) * codes == {} then Err(HttpError(403, "Forbidden"))
    else Ok(if prof.Some? then ProfileCaller(prof.value) else UserCaller(me))
  }

  /** The gate passes exactly when an allowed code is among the profile's codes; without a profile it never passes,
      so the `or me` fallback is never what the route receives. */
  lemma RequireRolesIff(allowed: seq<string>, me: User, prof: Option<Profile>)
    ensures RequireRoles(allowed, me, prof).Ok? <==>
      prof.Some? && exists a :: a in allowed && a in prof.value.roleCodes
    ensures RequireRoles(allowed, me, prof).Ok? ==> RequireRoles(allowed, me, prof).value == ProfileCaller(prof.value)
  {
    var codes := set c | prof.Some? && c in prof.value.roleCodes;
    var allowedSet := set a | a in allowed;
    if prof.Some? && exists a :: a in allowed && a in prof.value.roleCodes {
      var a :| a in allowed && a in prof.value.roleCodes;
      assert a in allowedSet * codes;
    }
  }

  /** `get_current_user`: 401 without a truthy header; otherwise the user with that Telegram id, created if missing. */
  method GetCurrentUser(store: UserStore, header: Option<int>) returns (r: Result<User, HttpError>)
    requires store.Valid()
    modifies store
    ensures store.Valid()
    ensures !Truthy(header) ==> r == Err(HttpError(401, "Missing X-Debug-Tg-Id")) && store.users == old(store.users)
    ensures !Truthy(header) ==> store.nextId == old(store.nextId)
    ensures Truthy(header) ==> r.Ok? && HasTg(r.value, header.value) && r.value in store.users
    ensures Truthy(header) ==> store.users == EnsuredTable(old(store.users), old(store.nextId), header.value,
                                                           ProfileFields(None, None, None, None))
    ensures Truthy(header) ==> store.nextId == EnsuredNextId(old(store.users), old(store.nextId), header.value)
  {
    if !Truthy(header) {
      return Err(HttpError(401, "Missing X-Debug-Tg-Id"));
    }
    var tg := header.value;
    var found := store.GetUserByTg(tg);
    if found.Some? {
      NoFieldsNoChange(store.users, store.nextId, tg, found.value);
      ghost var i :| 0 <= i < |store.users| && store.users[i] == found.value;
      ExistingUserUpdated(store.users, store.nextId, tg, ProfileFields(None, None, None, None), i);
      return Ok(found.value);
    }
    var u := store.EnsureUser(tg, ProfileFields(None, None, None, None));
    NewUserAppended(old(store.users), old(store.nextId), tg, ProfileFields(None, None, None, None));
    assert store.users[|old(store.users)|] == u;
    return Ok(u);
  }

  /** `ensure_user` with no fields passed leaves an existing user's row as it is. */
  lemma NoFieldsNoChange(users: seq<User>, nextId: int, tg: int, u: User)
    requires UniqueKeys(users) && u in users && HasTg(u, tg)
    ensures EnsuredTable(users, nextId, tg, ProfileFields(None, None, None, None)) == users
  {
    var i :| 0 <= i < |users| && users[i] == u;
    ExistingUserUpdated(users, nextId, tg, ProfileFields(None, None, None, None), i);
    assert users[i := Updated(users[i], ProfileFields(None, None, None, None))] == users;
  }
}
