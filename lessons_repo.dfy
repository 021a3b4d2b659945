/**
 * The lesson repository over in-memory tables: `create_lesson`,
 * `grant_access_to_users`, `grant_access_to_groups`, and the filter and
 * order of `get_accessible_lessons_for_user`. Timestamps are integers and
 * the database clock `func.now()` is the parameter `now`.
 */
module LessonsRepo {
  import opened Wrappers

  datatype Status = Draft | Published

  /** One element of the `blocks` argument: `b["type"]` and the optional `b.get(...)` fields. */
  datatype BlockInput = BlockInput(kind: string, text: Option<string>, imageUrl: Option<string>, caption: Option<string>)

  /** A row of `lessons`. */
  datatype Lesson = Lesson(id: int, subjectId: int, title: string, status: Status, publishedAt: Option<int>,
                           createdBy: Option<int>, updatedBy: Option<int>, createdAt: int)

  /** A row of `lesson_blocks`. */
  datatype LessonBlock = LessonBlock(lessonId: int, kind: string, position: int,
                                     text: Option<string>, imageUrl: Option<string>, caption: Option<string>)

  /** A grant table keyed by its primary key (lesson id, user or group id), holding `expires_at`. */
  type Grants = map<(int, int), Option<int>>

  // -------------------------------------------------------- create_lesson

  /** The lesson row `create_lesson` adds. */
  function NewLesson(id: int, subjectId: int, title: string, publish: bool, createdBy: Option<int>, now: int): (l: Lesson)
    ensures l.status == Published <==> publish
    ensures l.publishedAt.Some? <==> publish
    ensures publish ==> l.publishedAt == Some(now)
  {
    Lesson(id, subjectId, title, if publish then Published else Draft, if publish then Some(now) else None,
           createdBy, createdBy, now)
  }

  function BlockRow(lessonId: int, b: BlockInput, position: int): LessonBlock {
    LessonBlock(lessonId, b.kind, position, b.text, b.imageUrl, b.caption)
  }

  /** The block rows for `enumerate(blocks, start=1)`. */
  function NumberedBlocks(lessonId: int, inputs: seq<BlockInput>): (r: seq<LessonBlock>)
    ensures |r| == |inputs|
    ensures forall i :: 0 <= i < |r| ==>
      r[i].lessonId == lessonId && r[i].position == i + 1 && r[i].kind == inputs[i].kind &&
      r[i].text == inputs[i].text && r[i].imageUrl == inputs[i].imageUrl && r[i].caption == inputs[i].caption
    decreases |inputs|
  {
    if inputs == [] then []
    else NumberedBlocks(lessonId, inputs[..|inputs| - 1]) + [BlockRow(lessonId, inputs[|inputs| - 1], |inputs|)]
  }

  /** The `for i, b in enumerate(blocks, start=1)` loop: the block rows, numbered from 1 in input order. */
  method NumberBlocks(lessonId: int, inputs: seq<BlockInput>) returns (added: seq<LessonBlock>)
    ensures added == NumberedBlocks(lessonId, inputs)
  {
    added := [];
    var i := 0;
    while i < |inputs|
      invariant 0 <= i <= |inputs|
      invariant added == NumberedBlocks(lessonId, inputs[..i])
    {
      NumberedStep(lessonId, inputs, i);
      added := added + [BlockRow(lessonId, inputs[i], i + 1)];
      i := i + 1;
    }
    assert inputs[..|inputs|] == inputs;
  }

  lemma NumberedStep(lessonId: int, inputs: seq<BlockInput>, i: nat)
    requires i < |inputs|
    ensures NumberedBlocks(lessonId, inputs[..i + 1])
            == NumberedBlocks(lessonId, inputs[..i]) + [BlockRow(lessonId, inputs[i], i + 1)]
  {
    assert inputs[..i + 1][..i] == inputs[..i];
  }

  /** The constraint `uq_lesson_block_position`: no two blocks of a lesson share a position. */
  ghost predicate PositionsUnique(blocks: seq<LessonBlock>) {
    forall i, j :: 0 <= i < j < |blocks| && blocks[i].lessonId == blocks[j].lessonId ==>
      blocks[i].position != blocks[j].position
  }

  /** Numbering a fresh lesson's blocks keeps the constraint. */
  lemma NumberedKeepsPositionsUnique(blocks: seq<LessonBlock>, lessonId: int, inputs: seq<BlockInput>)
    requires PositionsUnique(blocks) && forall b :: b in blocks ==> b.lessonId != lessonId
    ensures PositionsUnique(blocks + NumberedBlocks(lessonId, inputs))
  {
  }

  // ------------------------------------------------------------- grants

  /** The grant table after `session.merge` of a row for each id: a new key gets no expiry, an existing row is kept. */
  function WithGrants(m: Grants, lessonId: int, ids: set<int>): (r: Grants)
    ensures r.Keys == m.Keys + set x | x in ids :: (lessonId, x)
    ensures forall k :: k in m ==> r[k] == m[k]
  {
    map k | k in m.Keys + (set x | x in ids :: (lessonId, x)) :: if k in m then m[k] else None
  }

  /** The distinct ids of `group_ids` that are rows of `groups`: what `select(Group.id).where(Group.id.in_(...))` returns. */
  function ExistingIds(ids: seq<int>, table: set<int>): set<int> {
    set g | g in ids && g in table
  }

  // ------------------------------------------------------------- queries

  /** `expires_at IS NULL OR expires_at > now()`. */
  predicate Live(expires: Option<int>, now: int) {
    expires.None? || expires.value > now
  }

  /** The two EXISTS subqueries of `get_accessible_lessons_for_user`. */
  predicate HasAccess(l: Lesson, userId: int, userGrants: Grants, groupGrants: Grants,
                      members: set<(int, int)>, now: int)
  {
    ((l.id, userId) in userGrants && Live(userGrants[(l.id, userId)], now)) ||
    exists k :: k in groupGrants && k.0 == l.id && (k.1, userId) in members && Live(groupGrants[k], now)
  }

  predicate Accessible(l: Lesson, userId: int, userGrants: Grants, groupGrants: Grants,
                       members: set<(int, int)>, now: int)
  {
    l.status == Published && HasAccess(l, userId, userGrants, groupGrants, members, now)
  }

  /** The WHERE clause, keeping table order. */
  function Visible(lessons: seq<Lesson>, userId: int, userGrants: Grants, groupGrants: Grants,
                   members: set<(int, int)>, now: int): (r: seq<Lesson>)
    ensures forall l :: l in r <==> l in lessons && Accessible(l, userId, userGrants, groupGrants, members, now)
    ensures multiset(r) <= multiset(lessons)
    decreases |lessons|
  {
    if lessons == [] then []
    else
      var front := lessons[..|lessons| - 1];
      var l := lessons[|lessons| - 1];
      assert lessons == front + [l];
      Visible(front, userId, userGrants, groupGrants, members, now)
        + (if Accessible(l, userId, userGrants, groupGrants, members, now) then [l] else [])
  }

  /** The WHERE clause drops no copy of a row it keeps: an accessible lesson occurs as often as in the table. */
  lemma {:induction false} VisibleCounts(lessons: seq<Lesson>, userId: int, userGrants: Grants, groupGrants: Grants,
                                         members: set<(int, int)>, now: int, x: Lesson)
    ensures multiset(Visible(lessons, userId, userGrants, groupGrants, members, now))[x] ==
      (if Accessible(x, userId, userGrants, groupGrants, members, now) then multiset(lessons)[x] else 0)
    decreases |lessons|
  {
    if lessons != [] {
      var front := lessons[..|lessons| - 1];
      var l := lessons[|lessons| - 1];
      assert lessons == front + [l];
      VisibleCounts(front, userId, userGrants, groupGrants, members, now, x);
    }
  }

  /** `coalesce(published_at, created_at)`. */
  function SortKey(l: Lesson): int {
    if l.publishedAt.Some? then l.publishedAt.value else l.createdAt
  }

  ghost predicate Descending(r: seq<Lesson>) {
    forall i, j :: 0 <= i < j < |r| ==> SortKey(r[i]) >= SortKey(r[j])
  }

  /** Inserts a lesson into a list already in descending key order. */
  function Insert(l: Lesson, r: seq<Lesson>): (s: seq<Lesson>)
    requires Descending(r)
    ensures Descending(s)
    ensures forall x :: x in s <==> x == l || x in r
    ensures multiset(s) == multiset(r) + multiset{l}
    decreases |r|
  {
    if r == [] then [l]
    else if SortKey(l) >= SortKey(r[0]) then
      ConsDescending(l, r);
      [l] + r
    else
      DescendingTail(r);
      var rest := Insert(l, r[1..]);
      ConsDescending(r[0], rest);
      assert r == [r[0]] + r[1..];
      [r[0]] + rest
  }

  lemma DescendingTail(r: seq<Lesson>)
    requires Descending(r) && r != []
    ensures Descending(r[1..])
    ensures forall x :: x in r[1..] ==> SortKey(x) <= SortKey(r[0])
  {
    forall x | x in r[1..]
      ensures SortKey(x) <= SortKey(r[0])
    {
      var k :| 0 <= k < |r[1..]| && r[1..][k] == x;
      assert r[k + 1] == x;
    }
  }

  lemma ConsDescending(h: Lesson, rest: seq<Lesson>)
    requires Descending(rest) && forall x :: x in rest ==> SortKey(x) <= SortKey(h)
    ensures Descending([h] + rest)
  {
    var s := [h] + rest;
    forall i, j | 0 <= i < j < |s|
      ensures SortKey(s[i]) >= SortKey(s[j])
    {
      if i == 0 {
        assert s[j] == rest[j - 1] && rest[j - 1] in rest;
      } else {
        assert s[i] == rest[i - 1] && s[j] == rest[j - 1];
      }
    }
  }

  /** `ORDER BY coalesce(published_at, created_at) DESC`. */
  function SortDesc(xs: seq<Lesson>): (r: seq<Lesson>)
    ensures Descending(r)
    ensures multiset(r) == multiset(xs)
    decreases |xs|
  {
    if xs == [] then []
    else
      assert xs == xs[..|xs| - 1] + [xs[|xs| - 1]];
      Insert(xs[|xs| - 1], SortDesc(xs[..|xs| - 1]))
  }

  /** `get_accessible_lessons_for_user`. */
  function AccessibleLessons(lessons: seq<Lesson>, userId: int, userGrants: Grants, groupGrants: Grants,
                             members: set<(int, int)>, now: int): seq<Lesson>
  {
    SortDesc(Visible(lessons, userId, userGrants, groupGrants, members, now))
  }

  /** The result holds exactly the accessible lessons, each as often as in the table, newest first. */
  lemma AccessibleLessonsSpec(lessons: seq<Lesson>, userId: int, userGrants: Grants, groupGrants: Grants,
                              members: set<(int, int)>, now: int)
    ensures var r := AccessibleLessons(lessons, userId, userGrants, groupGrants, members, now);
      (forall l :: l in r <==>
        (l in lessons && l.status == Published && HasAccess(l, userId, userGrants, groupGrants, members, now))) &&
      Descending(r) &&
      (forall l :: multiset(r)[l] ==
                   (if l.status == Published && HasAccess(l, userId, userGrants, groupGrants, members, now)
                    then multiset(lessons)[l] else 0)) &&
      multiset(r) <= multiset(lessons)
  {
    var v := Visible(lessons, userId, userGrants, groupGrants, members, now);
    var r := SortDesc(v);
    forall l
      ensures multiset(r)[l] ==
              (if Accessible(l, userId, userGrants, groupGrants, members, now) then multiset(lessons)[l] else 0)
    {
      VisibleCounts(lessons, userId, userGrants, groupGrants, members, now, l);
    }
    forall l
      ensures l in r <==> l in v
    {
      assert l in r <==> l in multiset(r);
      assert l in v <==> l in multiset(v);
    }
  }

  /** A grant that has expired no longer gives access: only the live grants count. */
  lemma ExpiredGrantIgnored(l: Lesson, userId: int, userGrants: Grants, groupGrants: Grants,
                            members: set<(int, int)>, now: int, expires: int)
    requires expires <= now
    requires forall k :: k in groupGrants && k.0 == l.id ==> (k.1, userId) !in members
    ensures !HasAccess(l, userId, userGrants[(l.id, userId) := Some(expires)], groupGrants, members, now)
  {
  }

  // ------------------------------------------------------------- the store

  /** The tables the repository touches, with the lesson autonumber. */
  class LessonStore {
    var subjects: set<int>
    var groups: set<int>
    var members: set<(int, int)>
    var lessons: seq<Lesson>
    var blocks: seq<LessonBlock>
    var userGrants: Grants
    var groupGrants: Grants
    var nextLessonId: int

    ghost predicate Valid()
      reads this
    {
      (forall l :: l in lessons ==> l.id < nextLessonId) &&
      (forall b :: b in blocks ==> b.lessonId < nextLessonId) &&
      PositionsUnique(blocks)
    }

    constructor (subjects: set<int>, groups: set<int>, members: set<(int, int)>)
      ensures Valid()
      ensures this.subjects == subjects && this.groups == groups && this.members == members
      ensures lessons == [] && blocks == [] && userGrants == map[] && groupGrants == map[]
    {
      this.subjects := subjects;
      this.groups := groups;
      this.members := members;
      lessons := [];
      blocks := [];
      userGrants := map[];
      groupGrants := map[];
      nextLessonId := 1;
    }

    /** `create_lesson`: an unknown subject is an error raised before any row is added. */
    method CreateLesson(subjectId: int, title: string, inputs: seq<BlockInput>, publish: bool,
                        createdBy: Option<int>, now: int) returns (r: Result<Lesson, string>)
      requires Valid()
      modifies this
      ensures Valid()
      ensures subjectId !in subjects ==>
        r == Err("Subject not found") && lessons == old(lessons) && blocks == old(blocks) &&
        nextLessonId == old(nextLessonId)
      ensures subjectId in subjects ==>
        r == Ok(NewLesson(old(nextLessonId), subjectId, title, publish, createdBy, now)) &&
        lessons == old(lessons) + [r.value] &&
        blocks == old(blocks) + NumberedBlocks(r.value.id, inputs) &&
        nextLessonId == old(nextLessonId) + 1
      ensures subjects == old(subjects) && groups == old(groups) && members == old(members)
      ensures userGrants == old(userGrants) && groupGrants == old(groupGrants)
    {
      if subjectId !in subjects {
        return Err("Subject not found");
      }
      var lesson := NewLesson(nextLessonId, subjectId, title, publish, createdBy, now);
      var added := NumberBlocks(lesson.id, inputs);
      NumberedKeepsPositionsUnique(blocks, lesson.id, inputs);
      lessons := lessons + [lesson];
      blocks := blocks + added;
      nextLessonId := nextLessonId + 1;
      r := Ok(lesson);
    }

    /** `grant_access_to_users` with each merge carried out. */
    method GrantAccessToUsers(lessonId: int, userIds: seq<int>) returns (n: int)
      requires Valid()
      modifies this
      ensures Valid()
      ensures n == |userIds|
      ensures userGrants == WithGrants(old(userGrants), lessonId, set u | u in userIds)
      ensures lessons == old(lessons) && blocks == old(blocks) && groupGrants == old(groupGrants)
      ensures subjects == old(subjects) && groups == old(groups) && members == old(members)
      ensures nextLessonId == old(nextLessonId)
    {
      if userIds == [] {
        assert WithGrants(userGrants, lessonId, {}) == userGrants;
        return 0;
      }
      var i := 0;
      while i < |userIds|
        invariant 0 <= i <= |userIds|
        invariant userGrants == WithGrants(old(userGrants), lessonId, set u | u in userIds[..i])
        invariant lessons == old(lessons) && blocks == old(blocks) && groupGrants == old(groupGrants)
        invariant subjects == old(subjects) && groups == old(groups) && members == old(members)
        invariant nextLessonId == old(nextLessonId)
      {
        MergeStep(old(userGrants), userGrants, lessonId, userIds[..i], userIds[i]);
        assert userIds[..i + 1] == userIds[..i] + [userIds[i]];
        userGrants := Merge(userGrants, (lessonId, userIds[i]));
        i := i + 1;
      }
      assert userIds[..|userIds|] == userIds;
      n := |userIds|;
    }

    /** `grant_access_to_groups` with each merge carried out: only ids present in `groups`, each once. */
    method GrantAccessToGroups(lessonId: int, groupIds: seq<int>) returns (n: int)
      requires Valid()
      modifies this
      ensures Valid()
      ensures n == |ExistingIds(groupIds, groups)|
      ensures groupGrants == WithGrants(old(groupGrants), lessonId, ExistingIds(groupIds, groups))
      ensures lessons == old(lessons) && blocks == old(blocks) && userGrants == old(userGrants)
      ensures subjects == old(subjects) && groups == old(groups) && members == old(members)
      ensures nextLessonId == old(nextLessonId)
    {
      if groupIds == [] {
        assert ExistingIds(groupIds, groups) == {};
        assert WithGrants(groupGrants, lessonId, {}) == groupGrants;
        return 0;
      }
      var validIds := SelectExisting(groupIds, groups);
      var i := 0;
      while i < |validIds|
        invariant 0 <= i <= |validIds|
        invariant groupGrants == WithGrants(old(groupGrants), lessonId, set g | g in validIds[..i])
        invariant lessons == old(lessons) && blocks == old(blocks) && userGrants == old(userGrants)
        invariant subjects == old(subjects) && groups == old(groups) && members == old(members)
        invariant nextLessonId == old(nextLessonId)
      {
        MergeStep(old(groupGrants), groupGrants, lessonId, validIds[..i], validIds[i]);
        assert validIds[..i + 1] == validIds[..i] + [validIds[i]];
        groupGrants := Merge(groupGrants, (lessonId, validIds[i]));
        i := i + 1;
      }
      assert validIds[..|validIds|] == validIds;
      DistinctCard(validIds);
      assert (set g | g in validIds) == ExistingIds(groupIds, groups);
      n := |validIds|;
    }

    /** `grant_access_to_users` as written: on an async session `merge` is a coroutine, and the
        unawaited call merges nothing, so the count is reported but no grant row is written. */
    method GrantAccessToUsersAsWritten(lessonId: int, userIds: seq<int>) returns (n: int)
      ensures n == |userIds|
      ensures userGrants == old(userGrants)
    {
      if userIds == [] {
        return 0;
      }
      n := |userIds|;
    }

    /** `grant_access_to_groups` as written: the id query runs, the unawaited merges do not. */
    method GrantAccessToGroupsAsWritten(lessonId: int, groupIds: seq<int>) returns (n: int)
      ensures n == |ExistingIds(groupIds, groups)|
      ensures groupGrants == old(groupGrants)
    {
      if groupIds == [] {
        assert ExistingIds(groupIds, groups) == {};
        return 0;
      }
      var validIds := SelectExisting(groupIds, groups);
      DistinctCard(validIds);
      n := |validIds|;
    }
  }

  /** `session.merge` of a grant row with no expiry: an existing row is kept as it is. */
  function Merge(m: Grants, key: (int, int)): Grants {
    if key in m then m else m[key := None]
  }

  lemma MergeStep(m0: Grants, m: Grants, lessonId: int, done: seq<int>, x: int)
    requires m == WithGrants(m0, lessonId, set u | u in done)
    ensures Merge(m, (lessonId, x)) == WithGrants(m0, lessonId, set u | u in done + [x])
  {
    var ids := set u | u in done + [x];
    assert ids == (set u | u in done) + {x};
    var r := WithGrants(m0, lessonId, ids);
    assert Merge(m, (lessonId, x)).Keys == r.Keys;
  }

  /** The ids query: the distinct ids of `ids` present in `table`, in first-occurrence order. */
  method SelectExisting(ids: seq<int>, table: set<int>) returns (valid: seq<int>)
    ensures (set g | g in valid) == ExistingIds(ids, table)
    ensures forall i, j :: 0 <= i < j < |valid| ==> valid[i] != valid[j]
  {
    valid := [];
    var i := 0;
    while i < |ids|
      invariant 0 <= i <= |ids|
      invariant (set g | g in valid) == ExistingIds(ids[..i], table)
      invariant forall a, b :: 0 <= a < b < |valid| ==> valid[a] != valid[b]
    {
      ExistingStep(ids, i, table);
      if ids[i] in table && ids[i] !in valid {
        valid := valid + [ids[i]];
      }
      i := i + 1;
    }
    assert ids[..|ids|] == ids;
  }

  lemma ExistingStep(ids: seq<int>, i: nat, table: set<int>)
    requires i < |ids|
    ensures ExistingIds(ids[..i + 1], table)
            == ExistingIds(ids[..i], table) + (if ids[i] in table then {ids[i]} else {})
  {
    assert ids[..i + 1] == ids[..i] + [ids[i]];
  }

  /** A list without repeats has as many elements as its set. */
  lemma {:induction false} DistinctCard(xs: seq<int>)
    requires forall i, j :: 0 <= i < j < |xs| ==> xs[i] != xs[j]
    ensures |set g | g in xs| == |xs|
    decreases |xs|
  {
    if xs != [] {
      var front := xs[..|xs| - 1];
      DistinctCard(front);
      assert (set g | g in xs) == (set g | g in front) + {xs[|xs| - 1]};
      assert xs[|xs| - 1] !in (set g | g in front);
    }
  }

  /** The as-written grant methods leave out a row that the merges promise: a user listed for a lesson they had no
      grant for still has none, while the count reports one. */
  lemma UnawaitedMergeLosesGrant(m: Grants, lessonId: int, ids: seq<int>)
    requires ids != [] && (lessonId, ids[0]) !in m
    ensures (lessonId, ids[0]) in WithGrants(m, lessonId, set x | x in ids)
  {
    var u := ids[0];
    var ids' := set x | x in ids;
    assert u in ids';
    assert (lessonId, u) in set x | x in ids' :: (lessonId, x);
  }

  /** Every listed user ends up with a grant row for the lesson, and no other row changes. */
  lemma EveryListedUserGranted(m: Grants, lessonId: int, ids: seq<int>)
    ensures forall u :: u in ids ==> (lessonId, u) in WithGrants(m, lessonId, set x | x in ids)
    ensures forall k :: k in WithGrants(m, lessonId, set x | x in ids) && k !in m ==>
      k.0 == lessonId && k.1 in ids && WithGrants(m, lessonId, set x | x in ids)[k].None?
  {
    forall u | u in ids
      ensures (lessonId, u) in WithGrants(m, lessonId, set x | x in ids)
    {
      var ids' := set x | x in ids;
      assert u in ids';
      assert (lessonId, u) in set x | x in ids' :: (lessonId, x);
    }
  }
}
