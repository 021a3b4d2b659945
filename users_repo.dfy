/**
 * The users table and the two repository operations on it: `get_user_by_tg`
 * (look a user up by Telegram id) and `ensure_user` (find or create, then
 * overwrite the profile fields that were passed).
 */
module UsersRepo {
  import opened Wrappers

  /** A row of `users`; `id` is the autonumbered primary key. */
  datatype User = User(id: int, telegramId: Option<int>, username: Option<string>, firstName: Option<string>,
                       lastName: Option<string>, avatarUrl: Option<string>, isActive: bool)

  /** The optional keyword arguments of `ensure_user`; None means "not passed". */
  datatype ProfileFields = ProfileFields(username: Option<string>, firstName: Option<string>,
                                         lastName: Option<string>, avatarUrl: Option<string>)

  predicate HasTg(u: User, tg: int) {
    u.telegramId == Some(tg)
  }

  /** The table's keys: `id` is the primary key and `telegram_id` is unique. */
  ghost predicate UniqueKeys(users: seq<User>) {
    forall i, j :: 0 <= i < j < |users| ==>
      users[i].id != users[j].id && (users[i].telegramId.Some? ==> users[i].telegramId != users[j].telegramId)
  }

  /** Where the user with this Telegram id sits in the table, if anywhere. */
  function IndexOfTg(users: seq<User>, tg: int): (r: Option<nat>)
    ensures r.Some? ==> r.value < |users| && HasTg(users[r.value], tg)
    ensures r.None? ==> forall k :: 0 <= k < |users| ==> !HasTg(users[k], tg)
  {
    if users == [] then None
    else if HasTg(users[0], tg) then Some(0)
    else match IndexOfTg(users[1..], tg)
      case None => None
      case Some(i) => Some(i + 1)
  }

  /** One profile field after `if value is not None and field != value: field = value`. */
  function Overwrite(current: Option<string>, given: Option<string>): Option<string> {
    if given.Some? && current != given then given else current
  }

  /** A found user after the four conditional overwrites. */
  function Updated(u: User, f: ProfileFields): User {
    u.(username := Overwrite(u.username, f.username),
       firstName := Overwrite(u.firstName, f.firstName),
       lastName := Overwrite(u.lastName, f.lastName),
       avatarUrl := Overwrite(u.avatarUrl, f.avatarUrl))
  }

  /** The user `ensure_user` creates when none has this Telegram id. */
  function Created(id: int, tg: int, f: ProfileFields): User {
    User(id, Some(tg), f.username, f.firstName, f.lastName, f.avatarUrl, true)
  }

  /** The table after `ensure_user`, as a reference definition. */
  function EnsuredTable(users: seq<User>, nextId: int, tg: int, f: ProfileFields): seq<User> {
    match IndexOfTg(users, tg)
    case Some(i) => users[i := Updated(users[i], f)]
    case None => users + [Created(nextId, tg, f)]
  }

  /** The user `ensure_user` returns, as a reference definition. */
  function EnsuredUser(users: seq<User>, nextId: int, tg: int, f: ProfileFields): User {
    match IndexOfTg(users, tg)
    case Some(i) => Updated(users[i], f)
    case None => Created(nextId, tg, f)
  }

  /** The autonumber after `ensure_user`: it moves only when a row is added. */
  function EnsuredNextId(users: seq<User>, nextId: int, tg: int): int {
    if IndexOfTg(users, tg).Some? then nextId else nextId + 1
  }

  /** The `users` table with its autonumber. */
  class UserStore {
    var users: seq<User>
    var nextId: int

    ghost predicate Valid()
      reads this
    {
      UniqueKeys(users) && forall u :: u in users ==> u.id < nextId
    }

    constructor ()
      ensures Valid() && users == [] && nextId == 1
    {
      users := [];
      nextId := 1;
    }

    /** The `select ... where telegram_id == tg` scan. */
    method FindTg(tg: int) returns (r: Option<nat>)
      ensures r.Some? ==> r.value < |users| && HasTg(users[r.value], tg)
      ensures r.None? ==> forall u :: u in users ==> !HasTg(u, tg)
      ensures r == IndexOfTg(users, tg)
    {
      var k := 0;
      while k < |users|
        invariant 0 <= k <= |users|
        invariant forall j :: 0 <= j < k ==> !HasTg(users[j], tg)
      {
        if HasTg(users[k], tg) {
          FirstTgIndex(users, tg, k);
          return Some(k);
        }
        k := k + 1;
      }
      NoTgIndex(users, tg);
      return None;
    }

    /** `get_user_by_tg`: the user with this Telegram id, or None. */
    method GetUserByTg(tg: int) returns (u: Option<User>)
      ensures u.Some? ==> u.value in users && HasTg(u.value, tg)
      ensures u.None? ==> forall v :: v in users ==> !HasTg(v, tg)
    {
      var i := FindTg(tg);
      if i.None? {
        return None;
      }
      return Some(users[i.value]);
    }

    /** `ensure_user`: find the user by Telegram id and overwrite the fields passed, or add a new active user. */
    method EnsureUser(tg: int, f: ProfileFields) returns (u: User)
      requires Valid()
      modifies this
      ensures Valid()
      ensures users == EnsuredTable(old(users), old(nextId), tg, f)
      ensures u == EnsuredUser(old(users), old(nextId), tg, f)
      ensures nextId == EnsuredNextId(old(users), old(nextId), tg)
    {
      var found := FindTg(tg);
      if found.Some? {
        var i := found.value;
        u := users[i];
        if f.username.Some? && u.username != f.username {
          u := u.(username := f.username);
        }
        if f.firstName.Some? && u.firstName != f.firstName {
          u := u.(firstName := f.firstName);
        }
        if f.lastName.Some? && u.lastName != f.lastName {
          u := u.(lastName := f.lastName);
        }
        if f.avatarUrl.Some? && u.avatarUrl != f.avatarUrl {
          u := u.(avatarUrl := f.avatarUrl);
        }
        assert u == Updated(users[i], f);
        UpdateKeepsKeys(users, i, f);
        users := users[i := u];
      } else {
        u := Created(nextId, tg, f);
        CreateKeepsKeys(users, nextId, tg, f);
        users := users + [u];
        nextId := nextId + 1;
      }
    }
  }

  lemma FirstTgIndex(users: seq<User>, tg: int, k: nat)
    requires k < |users| && HasTg(users[k], tg)
    requires forall j :: 0 <= j < k ==> !HasTg(users[j], tg)
    ensures IndexOfTg(users, tg) == Some(k)
    decreases k
  {
    if k > 0 {
      FirstTgIndex(users[1..], tg, k - 1);
    }
  }

  lemma NoTgIndex(users: seq<User>, tg: int)
    requires forall j :: 0 <= j < |users| ==> !HasTg(users[j], tg)
    ensures IndexOfTg(users, tg).None?
    decreases |users|
  {
    if users != [] {
      NoTgIndex(users[1..], tg);
    }
  }

  lemma UpdateKeepsKeys(users: seq<User>, i: nat, f: ProfileFields)
    requires i < |users| && UniqueKeys(users)
    ensures UniqueKeys(users[i := Updated(users[i], f)])
    ensures forall u :: u in users[i := Updated(users[i], f)] ==> exists v :: v in users && u.id == v.id
  {
    var users' := users[i := Updated(users[i], f)];
    forall u | u in users'
      ensures exists v :: v in users && u.id == v.id
    {
      var k :| 0 <= k < |users'| && users'[k] == u;
      assert users[k] in users;
    }
  }

  lemma CreateKeepsKeys(users: seq<User>, nextId: int, tg: int, f: ProfileFields)
    requires UniqueKeys(users) && forall u :: u in users ==> u.id < nextId
    requires IndexOfTg(users, tg).None?
    ensures UniqueKeys(users + [Created(nextId, tg, f)])
  {
    var users' := users + [Created(nextId, tg, f)];
    forall i, j | 0 <= i < j < |users'|
      ensures users'[i].id != users'[j].id
      ensures users'[i].telegramId.Some? ==> users'[i].telegramId != users'[j].telegramId
    {
      if j == |users| {
        assert users'[i] == users[i] && users[i] in users;
      }
    }
  }

  /** With unique Telegram ids, the scan finds the one row that has it. */
  lemma {:induction false} UniqueTgFound(users: seq<User>, tg: int, i: nat)
    requires UniqueKeys(users) && i < |users| && HasTg(users[i], tg)
    ensures IndexOfTg(users, tg) == Some(i)
  {
    forall j | 0 <= j < i
      ensures !HasTg(users[j], tg)
    {
      assert users[j].telegramId.Some? ==> users[j].telegramId != users[i].telegramId;
    }
    FirstTgIndex(users, tg, i);
  }

  /** A field passed as None keeps its value; a passed field takes the new value. */
  lemma UpdatedFields(u: User, f: ProfileFields)
    ensures var v := Updated(u, f);
      v.id == u.id && v.telegramId == u.telegramId && v.isActive == u.isActive &&
      v.username == (if f.username.Some? then f.username else u.username) &&
      v.firstName == (if f.firstName.Some? then f.firstName else u.firstName) &&
      v.lastName == (if f.lastName.Some? then f.lastName else u.lastName) &&
      v.avatarUrl == (if f.avatarUrl.Some? then f.avatarUrl else u.avatarUrl)
  {
  }

  /** An existing user is updated in place and returned; no row is added. */
  lemma ExistingUserUpdated(users: seq<User>, nextId: int, tg: int, f: ProfileFields, i: nat)
    requires UniqueKeys(users) && i < |users| && HasTg(users[i], tg)
    ensures |EnsuredTable(users, nextId, tg, f)| == |users|
    ensures EnsuredTable(users, nextId, tg, f) == users[i := Updated(users[i], f)]
    ensures EnsuredUser(users, nextId, tg, f) == Updated(users[i], f)
    ensures EnsuredUser(users, nextId, tg, f).id == users[i].id
    ensures EnsuredNextId(users, nextId, tg) == nextId
  {
    UniqueTgFound(users, tg, i);
  }

  /** With no such user, one new active user is appended and returned. */
  lemma NewUserAppended(users: seq<User>, nextId: int, tg: int, f: ProfileFields)
    requires forall u :: u in users ==> !HasTg(u, tg)
    ensures EnsuredTable(users, nextId, tg, f) == users + [EnsuredUser(users, nextId, tg, f)]
    ensures var u := EnsuredUser(users, nextId, tg, f);
      u.isActive && HasTg(u, tg) && u.username == f.username && u.firstName == f.firstName &&
      u.lastName == f.lastName && u.avatarUrl == f.avatarUrl && u.id == nextId
  {
    NoTgIndex(users, tg);
  }

  /** Afterwards exactly one row has the Telegram id, it is the returned user, and every other row is unchanged. */
  lemma ExactlyOneWithTg(users: seq<User>, nextId: int, tg: int, f: ProfileFields)
    requires UniqueKeys(users)
    ensures var t := EnsuredTable(users, nextId, tg, f);
      exists k :: 0 <= k < |t| && t[k] == EnsuredUser(users, nextId, tg, f) && HasTg(t[k], tg) &&
        (forall j :: 0 <= j < |t| && j != k ==> !HasTg(t[j], tg)) &&
        (forall j :: 0 <= j < |users| && j != k ==> t[j] == users[j])
  {
    var t := EnsuredTable(users, nextId, tg, f);
    match IndexOfTg(users, tg)
    case Some(i) =>
      forall j | 0 <= j < |t| && j != i
        ensures !HasTg(t[j], tg)
      {
        if j < i {
          assert users[j].telegramId.Some? ==> users[j].telegramId != users[i].telegramId;
        } else {
          assert users[i].telegramId.Some? ==> users[i].telegramId != users[j].telegramId;
        }
      }
      assert t[i] == EnsuredUser(users, nextId, tg, f);
    case None =>
      var k := |users|;
      assert t[k] == EnsuredUser(users, nextId, tg, f);
  }

  /** Calling `ensure_user` twice with the same arguments leaves the table as one call does. */
  lemma EnsureUserIdempotent(users: seq<User>, nextId: int, tg: int, f: ProfileFields)
    requires UniqueKeys(users) && forall u :: u in users ==> u.id < nextId
    ensures var t := EnsuredTable(users, nextId, tg, f);
      var n := EnsuredNextId(users, nextId, tg);
      EnsuredTable(t, n, tg, f) == t && EnsuredUser(t, n, tg, f) == EnsuredUser(users, nextId, tg, f) &&
      EnsuredNextId(t, n, tg) == n
  {
    var t := EnsuredTable(users, nextId, tg, f);
    var n := EnsuredNextId(users, nextId, tg);
    match IndexOfTg(users, tg)
    case Some(i) =>
      UpdateKeepsKeys(users, i, f);
      UniqueTgFound(t, tg, i);
      assert Updated(Updated(users[i], f), f) == Updated(users[i], f);
    case None =>
      CreateKeepsKeys(users, nextId, tg, f);
      UniqueTgFound(t, tg, |users|);
      assert Updated(t[|users|], f) == t[|users|];
      assert t[|users| := t[|users|]] == t;
  }
}
