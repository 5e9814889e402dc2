/**
 * The data-access object of the catalogue: one in-memory table per relation and the
 * AUTO_INCREMENT counter of each table whose rows it inserts. Every
 * operation is the SQL statement sequence of the original method, run against the
 * tables in order: a SELECT is a query function, an UPDATE is `UpdateWhere`, a
 * DELETE is `Filter` with the negated condition, an INSERT appends a row.
 */
module Store {
  import opened Rows
  import opened Query
  import opened Ordering

  /** A progress record names an existing user and project, and its bookmark a video of that project. */
  ghost predicate RecordResolves(up: UserProject, userIds: set<int>, projectIds: set<int>, videoKeys: set<(int, int)>)
  {
    && up.userId in userIds && up.projectId in projectIds
    && (up.bookmark.Some? ==> (up.bookmark.value, up.projectId) in videoKeys)
  }

  // The four foreign-key relations between the tables, each over the key sets it refers to.

  ghost predicate ProjectsCategorised(ps: seq<Project>, categoryIds: set<int>) {
    forall p :: p in ps ==> p.categoryId in categoryIds
  }

  ghost predicate VideosOwned(vs: seq<Video>, projectIds: set<int>) {
    forall v :: v in vs ==> v.projectId in projectIds
  }

  ghost predicate MembershipsResolve(ms: seq<UserSession>, userIds: set<int>, sessionIds: set<int>) {
    forall m :: m in ms ==> m.userId in userIds && m.sessionId in sessionIds
  }

  ghost predicate ProgressResolves(ups: seq<UserProject>, userIds: set<int>, projectIds: set<int>,
                                   videoKeys: set<(int, int)>) {
    forall up :: up in ups ==> RecordResolves(up, userIds, projectIds, videoKeys)
  }

  // Each relation survives the table changes the cascades make.

  lemma ProjectsUpdated(ps: seq<Project>, cond: Project -> bool, assign: Project -> Project, ck: set<int>)
    requires ProjectsCategorised(ps, ck)
    requires forall p :: p in ps && cond(p) ==> assign(p).categoryId in ck
    ensures ProjectsCategorised(UpdateWhere(ps, cond, assign), ck)
  {
    UpdateKeepsAll(ps, cond, assign, (p: Project) => p.categoryId in ck);
  }

  lemma ProjectsWithoutCategory(ps: seq<Project>, ck: set<int>, cid: int)
    requires ProjectsCategorised(ps, ck)
    requires forall p :: p in ps ==> p.categoryId != cid
    ensures ProjectsCategorised(ps, ck - {cid})
  {
  }

  lemma VideosUpdated(vs: seq<Video>, cond: Video -> bool, assign: Video -> Video, pk: set<int>)
    requires VideosOwned(vs, pk)
    requires forall v :: cond(v) ==> assign(v).projectId == v.projectId
    ensures VideosOwned(UpdateWhere(vs, cond, assign), pk)
  {
    UpdateKeepsAll(vs, cond, assign, (v: Video) => v.projectId in pk);
  }

  lemma VideosWithoutProject(vs: seq<Video>, pk: set<int>, pid: int)
    requires VideosOwned(vs, pk)
    ensures VideosOwned(Filter(vs, (v: Video) => v.projectId != pid), pk - {pid})
  {
  }

  lemma MembershipsWithoutUser(ms: seq<UserSession>, uk: set<int>, sk: set<int>, uid: int)
    requires MembershipsResolve(ms, uk, sk)
    ensures MembershipsResolve(Filter(ms, (m: UserSession) => m.userId != uid), uk - {uid}, sk)
  {
  }

  lemma MembershipsWithoutSession(ms: seq<UserSession>, uk: set<int>, sk: set<int>, sid: int)
    requires MembershipsResolve(ms, uk, sk)
    ensures MembershipsResolve(Filter(ms, (m: UserSession) => m.sessionId != sid), uk, sk - {sid})
  {
  }

  /** No membership names a user id that is not held. */
  lemma NoMembershipOf(ms: seq<UserSession>, uk: set<int>, sk: set<int>, uid: int)
    requires MembershipsResolve(ms, uk, sk) && uid !in uk
    ensures forall k :: 0 <= k < |ms| ==> ms[k].userId != uid
  {
    forall k | 0 <= k < |ms| ensures ms[k].userId != uid {
      assert ms[k] in ms;
    }
  }

  lemma MembershipsAppended(ms: seq<UserSession>, m: UserSession, uk: set<int>, sk: set<int>, uk2: set<int>)
    requires MembershipsResolve(ms, uk, sk) && uk <= uk2
    requires m.userId in uk2 && m.sessionId in sk
    ensures MembershipsResolve(ms + [m], uk2, sk)
  {
  }

  lemma ProgressWithoutUser(ups: seq<UserProject>, uk: set<int>, pk: set<int>, vk: set<(int, int)>, uid: int)
    requires ProgressResolves(ups, uk, pk, vk)
    ensures ProgressResolves(Filter(ups, (up: UserProject) => up.userId != uid), uk - {uid}, pk, vk)
  {
  }

  lemma ProgressWithoutProject(ups: seq<UserProject>, uk: set<int>, pk: set<int>, vk: set<(int, int)>, pid: int)
    requires ProgressResolves(ups, uk, pk, vk)
    ensures ProgressResolves(Filter(ups, (up: UserProject) => up.projectId != pid), uk, pk - {pid},
                             set k | k in vk && k.1 != pid)
  {
    var kept := Filter(ups, (up: UserProject) => up.projectId != pid);
    forall up | up in kept ensures RecordResolves(up, uk, pk - {pid}, set k | k in vk && k.1 != pid) {
      assert RecordResolves(up, uk, pk, vk);
    }
  }

  lemma ProjectKeysWithout(ps: seq<Project>, gone: set<int>)
    ensures Keys(Filter(ps, (p: Project) => p.id !in gone), ProjectKey) == set k | k in Keys(ps, ProjectKey) && k !in gone
  {
    FilterKeys(ps, (p: Project) => p.id !in gone, ProjectKey, (k: int) => k !in gone);
  }

  lemma VideoKeysWithout(vs: seq<Video>, gone: set<int>)
    ensures Keys(Filter(vs, (v: Video) => v.projectId !in gone), VideoKey)
            == set k | k in Keys(vs, VideoKey) && k.1 !in gone
  {
    FilterKeys(vs, (v: Video) => v.projectId !in gone, VideoKey, (k: (int, int)) => k.1 !in gone);
  }

  lemma VideosWithoutProjects(vs: seq<Video>, pk: set<int>, gone: set<int>)
    requires VideosOwned(vs, pk)
    ensures VideosOwned(Filter(vs, (v: Video) => v.projectId !in gone), set k | k in pk && k !in gone)
  {
  }

  lemma ProgressWithoutProjects(ups: seq<UserProject>, uk: set<int>, pk: set<int>, vk: set<(int, int)>, gone: set<int>)
    requires ProgressResolves(ups, uk, pk, vk)
    ensures ProgressResolves(Filter(ups, (up: UserProject) => up.projectId !in gone), uk, set k | k in pk && k !in gone,
                             set k | k in vk && k.1 !in gone)
  {
    var kept := Filter(ups, (up: UserProject) => up.projectId !in gone);
    forall up | up in kept ensures RecordResolves(up, uk, set k | k in pk && k !in gone, set k | k in vk && k.1 !in gone) {
      assert RecordResolves(up, uk, pk, vk);
    }
  }

  /** Clearing every bookmark that names the video leaves no bookmark to it. */
  lemma ProgressWithoutVideo(ups: seq<UserProject>, uk: set<int>, pk: set<int>, vk: set<(int, int)>, vid: int)
    requires ProgressResolves(ups, uk, pk, vk)
    ensures ProgressResolves(UpdateWhere(ups, (up: UserProject) => up.bookmark == Some(vid),
                                         (up: UserProject) => up.(bookmark := None)),
                             uk, pk, set k | k in vk && k.0 != vid)
  {
    UpdateKeepsAll(ups, (up: UserProject) => up.bookmark == Some(vid), (up: UserProject) => up.(bookmark := None),
                   (up: UserProject) => RecordResolves(up, uk, pk, set k | k in vk && k.0 != vid));
  }

  /** An update of the completion time keeps every record resolving. */
  lemma ProgressRedated(ups: seq<UserProject>, cond: UserProject -> bool, assign: UserProject -> UserProject,
                        uk: set<int>, pk: set<int>, vk: set<(int, int)>)
    requires ProgressResolves(ups, uk, pk, vk)
    requires forall up :: cond(up) ==> assign(up) == up.(dateComplete := assign(up).dateComplete)
    ensures ProgressResolves(UpdateWhere(ups, cond, assign), uk, pk, vk)
  {
    UpdateKeepsAll(ups, cond, assign, (up: UserProject) => RecordResolves(up, uk, pk, vk));
  }

  lemma ProgressAppended(ups: seq<UserProject>, up: UserProject, uk: set<int>, pk: set<int>, vk: set<(int, int)>)
    requires ProgressResolves(ups, uk, pk, vk) && RecordResolves(up, uk, pk, vk)
    ensures ProgressResolves(ups + [up], uk, pk, vk)
  {
  }

  lemma ProgressWidened(ups: seq<UserProject>, uk: set<int>, pk: set<int>, vk: set<(int, int)>,
                        uk2: set<int>, pk2: set<int>, vk2: set<(int, int)>)
    requires ProgressResolves(ups, uk, pk, vk)
    requires uk <= uk2 && pk <= pk2 && vk <= vk2
    ensures ProgressResolves(ups, uk2, pk2, vk2)
  {
    forall up | up in ups ensures RecordResolves(up, uk2, pk2, vk2) {
      assert RecordResolves(up, uk, pk, vk);
    }
  }

  /** The progress table after marking the pair complete: every record of it stamped, one more appended. */
  function Completed(ups: seq<UserProject>, userId: int, projectId: int, now: Timestamp): seq<UserProject>
  {
    UpdateWhere(ups, (up: UserProject) => up.userId == userId && up.projectId == projectId,
                (up: UserProject) => up.(dateComplete := Some(now)))
    + [UserProject(userId, projectId, None, Some(now))]
  }

  /**
   * Marking a pair complete stamps every record of the pair and appends one more: the
   * pair gains a record, all of its records carry the stamp, and so does the first.
   */
  lemma CompletedPair(ups: seq<UserProject>, userId: int, projectId: int, now: Timestamp)
    ensures var r := Completed(ups, userId, projectId, now);
      && |Filter(r, (up: UserProject) => up.userId == userId && up.projectId == projectId)|
         == |Filter(ups, (up: UserProject) => up.userId == userId && up.projectId == projectId)| + 1
      && (forall up :: up in r && up.userId == userId && up.projectId == projectId ==> up.dateComplete == Some(now))
      && FetchFirst(r, (up: UserProject) => up.userId == userId && up.projectId == projectId)
         .Some?
      && FetchFirst(r, (up: UserProject) => up.userId == userId && up.projectId == projectId)
         .value.dateComplete == Some(now)
  {
    var pair := (up: UserProject) => up.userId == userId && up.projectId == projectId;
    var stamp := (up: UserProject) => up.(dateComplete := Some(now));
    var row := UserProject(userId, projectId, None, Some(now));
    var stamped := UpdateWhere(ups, pair, stamp);
    var r := stamped + [row];
    FilterUpdateCommute(ups, pair, pair, stamp);
    FilterAppend(stamped, row, pair);
    UpdateKeepsAll(ups, pair, stamp, (up: UserProject) => pair(up) ==> up.dateComplete == Some(now));
    assert r[|r| - 1] == row;
  }

  /** The session roster: `(id, nickname)` of every user joined to a membership of session `sid`. */
  function Roster(us: seq<User>, ms: seq<UserSession>, sid: int): (r: seq<UserNick>)
    ensures forall x :: x in r <==>
      exists u, m :: u in us && m in ms && m.sessionId == sid && m.userId == u.id && x == UserNick(u.id, u.nickname)
  {
    if ms == [] then []
    else
      assert ms == [ms[0]] + ms[1..];
      var joined := if ms[0].sessionId == sid then Filter(us, (u: User) => u.id == ms[0].userId) else [];
      var nicks := seq(|joined|, i requires 0 <= i < |joined| => UserNick(joined[i].id, joined[i].nickname));
      assert forall x :: x in nicks <==> exists u :: u in joined && x == UserNick(u.id, u.nickname) by {
        forall x | x in nicks ensures exists u :: u in joined && x == UserNick(u.id, u.nickname) {
          var i :| 0 <= i < |nicks| && nicks[i] == x;
          assert joined[i] in joined;
        }
        forall u | u in joined ensures UserNick(u.id, u.nickname) in nicks {
          var i :| 0 <= i < |joined| && joined[i] == u;
          assert nicks[i] == UserNick(u.id, u.nickname);
        }
      }
      nicks + Roster(us, ms[1..], sid)
  }

  /** A move rewrites order columns only, so the ids stay pairwise distinct. */
  lemma MovedKeepsIds(vs: seq<Video>, videoId: int, up: bool, pid: int)
    requires Pairwise(vs, DistinctVideoIds)
    ensures Pairwise(Moved(vs, videoId, up, pid), DistinctVideoIds)
  {
    var ws := Moved(vs, videoId, up, pid);
    MovedOnlyReorders(vs, videoId, up, pid);
    forall i, j | 0 <= i < j < |ws| ensures DistinctVideoIds(ws[i], ws[j]) {
      assert DistinctVideoIds(vs[i], vs[j]);
    }
  }

  /** A move keeps the set of ids and of (id, project) keys. */
  lemma MovedKeepsKeySets(vs: seq<Video>, videoId: int, up: bool, pid: int)
    ensures Keys(Moved(vs, videoId, up, pid), VideoKey) == Keys(vs, VideoKey)
    ensures Keys(Moved(vs, videoId, up, pid), VideoId) == Keys(vs, VideoId)
  {
    var ws := Moved(vs, videoId, up, pid);
    MovedOnlyReorders(vs, videoId, up, pid);
    SameKeysAt(vs, ws, VideoKey);
    SameKeysAt(vs, ws, VideoId);
  }

  /** A move keeps every video in its project. */
  lemma MovedKeepsOwners(vs: seq<Video>, videoId: int, up: bool, pid: int, projectIds: set<int>)
    requires forall v :: v in vs ==> v.projectId in projectIds
    ensures forall w :: w in Moved(vs, videoId, up, pid) ==> w.projectId in projectIds
  {
    var ws := Moved(vs, videoId, up, pid);
    MovedOnlyReorders(vs, videoId, up, pid);
    forall w | w in ws ensures w.projectId in projectIds {
      var i :| 0 <= i < |ws| && ws[i] == w;
      assert vs[i] in vs;
    }
  }

  /** A move rewrites order columns only: the primary key and every video's project survive it. */
  lemma MovedKeepsKeys(vs: seq<Video>, videoId: int, up: bool, pid: int, projectIds: set<int>)
    ensures Pairwise(vs, DistinctVideoIds) ==> Pairwise(Moved(vs, videoId, up, pid), DistinctVideoIds)
    ensures Keys(Moved(vs, videoId, up, pid), VideoKey) == Keys(vs, VideoKey)
    ensures Keys(Moved(vs, videoId, up, pid), VideoId) == Keys(vs, VideoId)
    ensures (forall v :: v in vs ==> v.projectId in projectIds) ==>
              forall w :: w in Moved(vs, videoId, up, pid) ==> w.projectId in projectIds
  {
    MovedKeepsKeySets(vs, videoId, up, pid);
    if Pairwise(vs, DistinctVideoIds) {
      MovedKeepsIds(vs, videoId, up, pid);
    }
    if forall v :: v in vs ==> v.projectId in projectIds {
      MovedKeepsOwners(vs, videoId, up, pid, projectIds);
    }
  }


  /** What a move keeps: the primary key, each video's project, and the order column's invariant. */
  lemma MovedStore(vs: seq<Video>, ws: seq<Video>, videoId: int, up: bool, pid: int, projectIds: set<int>, bound: int)
    requires ws == Moved(vs, videoId, up, pid)
    requires KeyedBelow(vs, DistinctVideoIds, VideoId, bound)
    ensures KeyedBelow(ws, DistinctVideoIds, VideoId, bound)
    ensures Keys(ws, VideoKey) == Keys(vs, VideoKey)
    ensures VideosOwned(vs, projectIds) ==> VideosOwned(ws, projectIds)
    ensures UniqueOrders(vs) && (forall v :: v in vs && v.id == videoId ==> v.projectId == pid) ==>
              UniqueOrders(ws) && multiset(ProjectOrders(ws, pid)) == multiset(ProjectOrders(vs, pid))
  {
    MovedKeepsKeys(vs, videoId, up, pid, projectIds);
    if UniqueOrders(vs) && (forall v :: v in vs && v.id == videoId ==> v.projectId == pid) {
      MovedKeepsUniqueOrders(vs, videoId, up, pid);
      MovedKeepsOrders(vs, videoId, up, pid);
    }
  }

  /** A snapshot of the catalogue: its seven tables and the four id counters. */
  datatype Tables = Tables(projects: seq<Project>, videos: seq<Video>, sessions: seq<Session>, users: seq<User>,
                           userSessions: seq<UserSession>, userProjects: seq<UserProject>, categories: seq<Category>,
                           nextProjectId: int, nextVideoId: int, nextUserId: int, nextCategoryId: int)

  /** The primary-key invariant: unique ids per table, each counted table's ids below its counter. */
  ghost predicate Keyed(t: Tables)
  {
    && KeyedBelow(t.projects, DistinctProjectIds, ProjectKey, t.nextProjectId)
    && KeyedBelow(t.videos, DistinctVideoIds, VideoId, t.nextVideoId)
    && Pairwise(t.sessions, DistinctSessionIds)
    && KeyedBelow(t.users, DistinctUserIds, UserKey, t.nextUserId)
    && KeyedBelow(t.categories, DistinctCategoryIds, CategoryKey, t.nextCategoryId)
  }

  /** The foreign-key invariant over the seven tables. */
  ghost predicate Linked(t: Tables)
  {
    && ProjectsCategorised(t.projects, Keys(t.categories, CategoryKey))
    && VideosOwned(t.videos, Keys(t.projects, ProjectKey))
    && MembershipsResolve(t.userSessions, Keys(t.users, UserKey), Keys(t.sessions, SessionKey))
    && ProgressResolves(t.userProjects, Keys(t.users, UserKey), Keys(t.projects, ProjectKey), Keys(t.videos, VideoKey))
  }

  /**
   * An insert into the video table at its counter and at the project's next order keeps
   * the ids unique, keeps the project's orders unique, makes the new order the largest,
   * and, for a held project, keeps every reference resolving.
   */
  lemma VideoInserted(t: Tables, v: Video)
    requires v.id == t.nextVideoId && v.order == NextOrder(ProjectOrders(t.videos, v.projectId))
    ensures var t' := t.(videos := t.videos + [v], nextVideoId := t.nextVideoId + 1);
      && (Keyed(t) ==> Keyed(t'))
      && (Linked(t) && v.projectId in Keys(t.projects, ProjectKey) ==> Linked(t'))
      && (UniqueOrders(t.videos) ==> UniqueOrders(t'.videos))
      && MaxOf(ProjectOrders(t'.videos, v.projectId)) == Some(v.order)
  {
    if Keyed(t) {
      KeyedBelowAppend(t.videos, v, DistinctVideoIds, VideoId, t.nextVideoId);
    }
    AppendKeys(t.videos, v, VideoKey);
    if Linked(t) && v.projectId in Keys(t.projects, ProjectKey) {
      ProgressWidened(t.userProjects, Keys(t.users, UserKey), Keys(t.projects, ProjectKey), Keys(t.videos, VideoKey),
                      Keys(t.users, UserKey), Keys(t.projects, ProjectKey), Keys(t.videos, VideoKey) + {VideoKey(v)});
    }
    if UniqueOrders(t.videos) {
      AppendAtNextOrder(t.videos, v);
    }
    AppendedIsMax(t.videos, v);
  }

  /**
   * An insert into the category table at its counter and at the next category order
   * keeps the ids unique, the category orders unique and every reference resolving,
   * and adds exactly the new key.
   */
  lemma CategoryInserted(t: Tables, c: Category)
    requires c.id == t.nextCategoryId && c.order == NextOrder(CategoryOrders(t.categories))
    ensures var t' := t.(categories := t.categories + [c], nextCategoryId := t.nextCategoryId + 1);
      && Keys(t'.categories, CategoryKey) == Keys(t.categories, CategoryKey) + {c.id}
      && (Keyed(t) ==> Keyed(t'))
      && (Linked(t) ==> Linked(t'))
      && (UniqueCategoryOrders(t.categories) ==> UniqueCategoryOrders(t'.categories))
  {
    AppendKeys(t.categories, c, CategoryKey);
    if Keyed(t) {
      KeyedBelowAppend(t.categories, c, DistinctCategoryIds, CategoryKey, t.nextCategoryId);
    }
    if UniqueCategoryOrders(t.categories) {
      AppendAtNextCategoryOrder(t.categories, c);
    }
  }

  /**
   * Inserting a user at its counter, with a membership of that user, keeps the ids unique
   * and adds exactly the new key; when every reference resolved and the session exists,
   * every reference still resolves, and no earlier membership names the new user.
   */
  lemma UserCreated(t: Tables, u: User, m: UserSession)
    requires Keyed(t) && u.id == t.nextUserId && m.userId == u.id
    ensures var t' := t.(users := t.users + [u], userSessions := t.userSessions + [m], nextUserId := t.nextUserId + 1);
      && u.id !in Keys(t.users, UserKey)
      && Keys(t'.users, UserKey) == Keys(t.users, UserKey) + {u.id}
      && Keyed(t')
      && (Linked(t) && m.sessionId in Keys(t.sessions, SessionKey) ==> Linked(t'))
      && (Linked(t) ==> forall k :: 0 <= k < |t.userSessions| ==> t.userSessions[k].userId != u.id)
  {
    var uk, sk := Keys(t.users, UserKey), Keys(t.sessions, SessionKey);
    KeyedBelowAppend(t.users, u, DistinctUserIds, UserKey, t.nextUserId);
    AppendKeys(t.users, u, UserKey);
    if Linked(t) {
      NoMembershipOf(t.userSessions, uk, sk, u.id);
      if m.sessionId in sk {
        MembershipsAppended(t.userSessions, m, uk, sk, uk + {u.id});
      }
      ProgressWidened(t.userProjects, uk, Keys(t.projects, ProjectKey), Keys(t.videos, VideoKey),
                      uk + {u.id}, Keys(t.projects, ProjectKey), Keys(t.videos, VideoKey));
    }
  }

  /** Replacing the video table by one with the same keys, each video owned by a held project, keeps every reference. */
  lemma LinkedWithVideos(t: Tables, ws: seq<Video>)
    requires Linked(t)
    requires Keys(ws, VideoKey) == Keys(t.videos, VideoKey) && VideosOwned(ws, Keys(t.projects, ProjectKey))
    ensures Linked(t.(videos := ws))
  {
  }

  /** A move keeps the primary keys and, since it keeps the video keys, every reference. */
  lemma MovedTables(t: Tables, ws: seq<Video>, videoId: int, up: bool, pid: int)
    requires ws == Moved(t.videos, videoId, up, pid)
    ensures Keys(ws, VideoKey) == Keys(t.videos, VideoKey)
    ensures Keyed(t) ==> Keyed(t.(videos := ws))
    ensures Linked(t) ==> Linked(t.(videos := ws))
    ensures Keyed(t) && UniqueOrders(t.videos) && (forall v :: v in t.videos && v.id == videoId ==> v.projectId == pid) ==>
              UniqueOrders(ws) && multiset(ProjectOrders(ws, pid)) == multiset(ProjectOrders(t.videos, pid))
  {
    MovedKeepsKeys(t.videos, videoId, up, pid, Keys(t.projects, ProjectKey));
    if Keyed(t) {
      MovedStore(t.videos, ws, videoId, up, pid, Keys(t.projects, ProjectKey), t.nextVideoId);
    }
    if Linked(t) {
      LinkedWithVideos(t, ws);
    }
  }

  /** The tables after deleting one video and clearing every bookmark that names it. */
  function WithoutVideo(t: Tables, videoId: int): Tables
  {
    t.(userProjects := UpdateWhere(t.userProjects, (up: UserProject) => up.bookmark == Some(videoId),
                                   (up: UserProject) => up.(bookmark := None)),
       videos := Filter(t.videos, (v: Video) => v.id != videoId))
  }

  /**
   * Deleting a video leaves neither the video nor a bookmark to it, and keeps the ids
   * unique, the orders unique and every reference resolving.
   */
  lemma WithoutVideoKeeps(t: Tables, videoId: int)
    ensures forall up :: up in WithoutVideo(t, videoId).userProjects ==> up.bookmark != Some(videoId)
    ensures forall v :: v in WithoutVideo(t, videoId).videos ==> v.id != videoId
    ensures Keyed(t) ==> Keyed(WithoutVideo(t, videoId))
    ensures Linked(t) ==> Linked(WithoutVideo(t, videoId))
    ensures UniqueOrders(t.videos) ==> UniqueOrders(WithoutVideo(t, videoId).videos)
  {
    var marks := (up: UserProject) => up.bookmark == Some(videoId);
    var unmark := (up: UserProject) => up.(bookmark := None);
    var others := (v: Video) => v.id != videoId;
    UpdateKeepsAll(t.userProjects, marks, unmark, (up: UserProject) => up.bookmark != Some(videoId));
    if Keyed(t) {
      KeyedBelowFilter(t.videos, others, DistinctVideoIds, VideoId, t.nextVideoId);
    }
    if UniqueOrders(t.videos) {
      FilterPairwise(t.videos, others, DistinctOrdersInProject);
    }
    if Linked(t) {
      FilterKeys(t.videos, others, VideoKey, (k: (int, int)) => k.0 != videoId);
      ProgressWithoutVideo(t.userProjects, Keys(t.users, UserKey), Keys(t.projects, ProjectKey),
                           Keys(t.videos, VideoKey), videoId);
    }
  }

  /** The tables after deleting a user with their memberships and progress records. */
  function WithoutUser(t: Tables, id: int): Tables
  {
    t.(userSessions := Filter(t.userSessions, (m: UserSession) => m.userId != id),
       userProjects := Filter(t.userProjects, (up: UserProject) => up.userId != id),
       users := Filter(t.users, (u: User) => u.id != id))
  }

  /**
   * Deleting a user removes exactly their key and leaves nothing that names them, and
   * keeps the ids unique and every reference resolving.
   */
  lemma WithoutUserKeeps(t: Tables, id: int)
    ensures Keys(WithoutUser(t, id).users, UserKey) == Keys(t.users, UserKey) - {id}
    ensures forall m :: m in WithoutUser(t, id).userSessions ==> m.userId != id
    ensures forall up :: up in WithoutUser(t, id).userProjects ==> up.userId != id
    ensures Keyed(t) ==> Keyed(WithoutUser(t, id))
    ensures Linked(t) ==> Linked(WithoutUser(t, id))
  {
    FilterKeysWithout(t.users, (u: User) => u.id != id, UserKey, id);
    if Keyed(t) {
      KeyedBelowFilter(t.users, (u: User) => u.id != id, DistinctUserIds, UserKey, t.nextUserId);
    }
    if Linked(t) {
      MembershipsWithoutUser(t.userSessions, Keys(t.users, UserKey), Keys(t.sessions, SessionKey), id);
      ProgressWithoutUser(t.userProjects, Keys(t.users, UserKey), Keys(t.projects, ProjectKey), Keys(t.videos, VideoKey), id);
    }
  }

  /** Marking a pair of a held user and a held project complete keeps every reference resolving. */
  lemma CompletedLinked(t: Tables, userId: int, projectId: int, now: Timestamp)
    requires Linked(t) && userId in Keys(t.users, UserKey) && projectId in Keys(t.projects, ProjectKey)
    ensures Linked(t.(userProjects := Completed(t.userProjects, userId, projectId, now)))
  {
    var uk, pk, vk := Keys(t.users, UserKey), Keys(t.projects, ProjectKey), Keys(t.videos, VideoKey);
    var pair := (up: UserProject) => up.userId == userId && up.projectId == projectId;
    var stamp := (up: UserProject) => up.(dateComplete := Some(now));
    ProgressRedated(t.userProjects, pair, stamp, uk, pk, vk);
    ProgressAppended(UpdateWhere(t.userProjects, pair, stamp), UserProject(userId, projectId, None, Some(now)), uk, pk, vk);
  }

  /** The tables after deleting the projects whose ids are in `gone`, with their videos and progress records. */
  function WithoutProjects(t: Tables, gone: set<int>): Tables
  {
    t.(userProjects := Filter(t.userProjects, (up: UserProject) => up.projectId !in gone),
       videos := Filter(t.videos, (v: Video) => v.projectId !in gone),
       projects := Filter(t.projects, (p: Project) => p.id !in gone))
  }

  /**
   * Deleting projects together with their videos and progress records keeps the ids
   * unique, the orders of the remaining projects unique, and every reference resolving.
   */
  lemma WithoutProjectsKeeps(t: Tables, gone: set<int>)
    ensures Keyed(t) ==> Keyed(WithoutProjects(t, gone))
    ensures Linked(t) ==> Linked(WithoutProjects(t, gone))
    ensures UniqueOrders(t.videos) ==> UniqueOrders(WithoutProjects(t, gone).videos)
  {
    var keepV := (v: Video) => v.projectId !in gone;
    var keepP := (p: Project) => p.id !in gone;
    if Keyed(t) {
      KeyedBelowFilter(t.videos, keepV, DistinctVideoIds, VideoId, t.nextVideoId);
      KeyedBelowFilter(t.projects, keepP, DistinctProjectIds, ProjectKey, t.nextProjectId);
    }
    if UniqueOrders(t.videos) {
      FilterPairwise(t.videos, keepV, DistinctOrdersInProject);
    }
    if Linked(t) {
      WithoutProjectsLinked(t, gone);
    }
  }

  lemma WithoutProjectsLinked(t: Tables, gone: set<int>)
    requires Linked(t)
    ensures Linked(WithoutProjects(t, gone))
  {
    var uk, pk, vk := Keys(t.users, UserKey), Keys(t.projects, ProjectKey), Keys(t.videos, VideoKey);
    ProjectKeysWithout(t.projects, gone);
    VideoKeysWithout(t.videos, gone);
    VideosWithoutProjects(t.videos, pk, gone);
    ProgressWithoutProjects(t.userProjects, uk, pk, vk, gone);
  }


  /** Deleting no project changes nothing. */
  lemma WithoutNoProjects(t: Tables)
    ensures WithoutProjects(t, {}) == t
  {
    var gone: set<int> := {};
    FilterKeepsAll(t.userProjects, (up: UserProject) => up.projectId !in gone);
    FilterKeepsAll(t.videos, (v: Video) => v.projectId !in gone);
    FilterKeepsAll(t.projects, (p: Project) => p.id !in gone);
  }

  /** The tables after deleting one project with its progress records and videos. */
  function WithoutProject(t: Tables, id: int): Tables
  {
    t.(userProjects := Filter(t.userProjects, (up: UserProject) => up.projectId != id),
       videos := Filter(t.videos, (v: Video) => v.projectId != id),
       projects := Filter(t.projects, (p: Project) => p.id != id))
  }

  /** Deleting one more project, with its cascade, extends the set of deleted projects by its id. */
  lemma WithoutOneMore(t: Tables, gone: set<int>, id: int)
    ensures WithoutProjects(t, gone + {id}) == WithoutProject(WithoutProjects(t, gone), id)
  {
    var more := gone + {id};
    FilterFilter(t.userProjects, (up: UserProject) => up.projectId !in gone, (up: UserProject) => up.projectId != id,
                 (up: UserProject) => up.projectId !in more);
    FilterFilter(t.videos, (v: Video) => v.projectId !in gone, (v: Video) => v.projectId != id,
                 (v: Video) => v.projectId !in more);
    FilterFilter(t.projects, (p: Project) => p.id !in gone, (p: Project) => p.id != id, (p: Project) => p.id !in more);
  }

  /**
   * Deleting the projects of `held` one at a time, in order: after the first `i` the
   * tables are `WithoutProjects` of their ids, and deleting the next one extends that.
   */
  lemma DeletedPrefix(t: Tables, held: seq<Project>, i: int)
    requires 0 <= i < |held|
    ensures WithoutProjects(t, Keys(held[..i + 1], ProjectKey))
            == WithoutProject(WithoutProjects(t, Keys(held[..i], ProjectKey)), held[i].id)
    ensures Keyed(t) ==> Keyed(WithoutProjects(t, Keys(held[..i], ProjectKey)))
  {
    assert held[..i + 1] == held[..i] + [held[i]];
    AppendKeys(held[..i], held[i], ProjectKey);
    WithoutOneMore(t, Keys(held[..i], ProjectKey), held[i].id);
    WithoutProjectsKeeps(t, Keys(held[..i], ProjectKey));
  }

  /** The ids of a category's projects, as selected, are the ids of its projects in the table. */
  lemma HeldKeys(ps: seq<Project>, categoryId: int)
    ensures Keys(Filter(ps, (p: Project) => p.categoryId == categoryId), ProjectKey)
            == set p | p in ps && p.categoryId == categoryId :: p.id
  {
  }

  /**
   * The tables after deleting a category: first every project the category holds, with
   * its cascade, then the category row.
   */
  function WithoutCategory(t: Tables, categoryId: int): Tables
  {
    var gone := set p | p in t.projects && p.categoryId == categoryId :: p.id;
    var u := WithoutProjects(t, gone);
    u.(categories := Filter(u.categories, (c: Category) => c.id != categoryId))
  }

  /**
   * Deleting a category leaves no project in it, removes exactly its key, and keeps the
   * ids unique, the video and category orders unique and every reference resolving.
   */
  lemma WithoutCategoryKeeps(t: Tables, categoryId: int)
    ensures forall p :: p in WithoutCategory(t, categoryId).projects ==> p.categoryId != categoryId
    ensures Keys(WithoutCategory(t, categoryId).categories, CategoryKey) == Keys(t.categories, CategoryKey) - {categoryId}
    ensures Keyed(t) ==> Keyed(WithoutCategory(t, categoryId))
    ensures Linked(t) ==> Linked(WithoutCategory(t, categoryId))
    ensures UniqueOrders(t.videos) ==> UniqueOrders(WithoutCategory(t, categoryId).videos)
    ensures UniqueCategoryOrders(t.categories) ==> UniqueCategoryOrders(WithoutCategory(t, categoryId).categories)
  {
    var gone := set p | p in t.projects && p.categoryId == categoryId :: p.id;
    var u := WithoutProjects(t, gone);
    var w := WithoutCategory(t, categoryId);
    var others := (c: Category) => c.id != categoryId;
    WithoutProjectsKeeps(t, gone);
    forall p | p in w.projects ensures p.categoryId != categoryId {
      assert p in t.projects && p.id !in gone;
    }
    FilterKeysWithout(t.categories, others, CategoryKey, categoryId);
    if UniqueCategoryOrders(t.categories) {
      FilterPairwise(t.categories, others, DistinctCategoryOrders);
    }
    if Keyed(t) {
      KeyedBelowFilter(t.categories, others, DistinctCategoryIds, CategoryKey, t.nextCategoryId);
    }
    if Linked(t) {
      ProjectsWithoutCategory(u.projects, Keys(t.categories, CategoryKey), categoryId);
    }
  }

  class Database {
    var projects: seq<Project>
    var videos: seq<Video>
    var sessions: seq<Session>
    var users: seq<User>
    var userSessions: seq<UserSession>
    var userProjects: seq<UserProject>
    var categories: seq<Category>
    // The AUTO_INCREMENT counters of the tables whose rows the catalogue inserts:
    // the next id each hands out; every id in use in that table is below it.
    var nextProjectId: int
    var nextVideoId: int
    var nextUserId: int
    var nextCategoryId: int

    /** The current contents of the tables and counters. */
    ghost function State(): Tables
      reads this
    {
      Tables(projects, videos, sessions, users, userSessions, userProjects, categories,
             nextProjectId, nextVideoId, nextUserId, nextCategoryId)
    }

    /** Primary keys: ids are unique within each table, and those of a counted table were handed out by its counter. */
    ghost predicate Valid()
      reads this
    {
      Keyed(State())
    }

    /**
     * Foreign keys: every reference names an existing row, and a bookmark names a
     * video of the bookmarked project. The model does not assume that the database
     * enforces this; the cascades of the delete operations are what keep it.
     */
    ghost predicate Integrity()
      reads this
    {
      Linked(State())
    }

    /** An empty catalogue. */
    constructor ()
      ensures Valid() && Integrity()
      ensures projects == [] && videos == [] && sessions == [] && users == []
      ensures userSessions == [] && userProjects == [] && categories == []
    {
      projects, videos, sessions, users := [], [], [], [];
      userSessions, userProjects, categories := [], [], [];
      nextProjectId, nextVideoId, nextUserId, nextCategoryId := 1, 1, 1, 1;
    }

    /** Every project, in table order. */
    function GetProjects(): (r: seq<Project>)
      reads this
      ensures multiset(r) == multiset(projects)
    {
      projects
    }

    /** The videos of a project, in ascending order. */
    function GetVideos(projectId: int): (r: seq<Video>)
      reads this
      ensures SortedBy(r, VideoOrder)
      ensures multiset(r) == multiset(Filter(videos, (v: Video) => v.projectId == projectId))
      ensures forall v :: v in r <==> v in videos && v.projectId == projectId
    {
      var mine := Filter(videos, (v: Video) => v.projectId == projectId);
      SortedMembers(mine, VideoOrder);
      SortBy(mine, VideoOrder)
    }

    /**
     * The sessions of a user: the user's memberships by ascending last login (never
     * logged in first), then one lookup per membership; a membership whose session row
     * is missing contributes `None`.
     */
    method GetSession(userId: int) returns (r: seq<Option<Session>>)
      ensures var ms := SortBy(Filter(userSessions, (m: UserSession) => m.userId == userId), LastLoginKey);
        |r| == |ms| && forall i :: 0 <= i < |r| ==> r[i] == GetSessionById(ms[i].sessionId)
    {
      var result := SortBy(Filter(userSessions, (m: UserSession) => m.userId == userId), LastLoginKey);
      r := [];
      for i := 0 to |result|
        invariant |r| == i
        invariant forall k :: 0 <= k < i ==> r[k] == GetSessionById(result[k].sessionId)
      {
        r := r + [GetSessionById(result[i].sessionId)];
      }
    }

    function GetSessionById(id: int): (r: Option<Session>)
      reads this
      ensures r.None? <==> id !in Keys(sessions, SessionKey)
      ensures r.Some? ==> r.value in sessions && r.value.id == id
    {
      var byId := (s: Session) => s.id == id;
      FetchByKey(sessions, byId, SessionKey, id);
      FetchFirst(sessions, byId)
    }

    /** The first user whose name and password both match. */
    function GetUserByLogin(userName: string, password: string): (r: Option<User>)
      reads this
      ensures r.None? <==> forall u :: u in users ==> !(u.name == userName && u.password == password)
      ensures r.Some? ==> r.value in users && r.value.name == userName && r.value.password == password
    {
      FetchFirst(users, (u: User) => u.name == userName && u.password == password)
    }

    method UpdateSession(id: int, title: string, description: string)
      requires Valid()
      modifies this`sessions
      ensures sessions == UpdateWhere(old(sessions), (s: Session) => s.id == id,
                                      (s: Session) => s.(title := title, description := description))
      ensures forall s :: s in sessions && s.id == id ==> s.title == title && s.description == description
      ensures Keys(sessions, SessionKey) == old(Keys(sessions, SessionKey))
      ensures Valid()
      ensures old(Integrity()) ==> Integrity()
    {
      var cond := (s: Session) => s.id == id;
      var assign := (s: Session) => s.(title := title, description := description);
      UpdateKeepsKeys(sessions, cond, assign, SessionKey);
      UpdatePairwise(sessions, cond, assign, DistinctSessionIds);
      UpdateKeepsAll(sessions, cond, assign, (s: Session) => s.id == id ==> s.title == title && s.description == description);
      sessions := UpdateWhere(sessions, cond, assign);
    }

    /** The roster of a session, as the inner join of users with the session's memberships. */
    function GetUsersBySession(sessionId: int): (r: seq<UserNick>)
      reads this
      ensures forall x :: x in r <==>
        exists u, m :: u in users && m in userSessions && m.sessionId == sessionId && m.userId == u.id
                       && x == UserNick(u.id, u.nickname)
    {
      Roster(users, userSessions, sessionId)
    }

    function GetUserById(id: int): (r: Option<User>)
      reads this
      ensures r.None? <==> id !in Keys(users, UserKey)
      ensures r.Some? ==> r.value in users && r.value.id == id
    {
      var byId := (u: User) => u.id == id;
      FetchByKey(users, byId, UserKey, id);
      FetchFirst(users, byId)
    }

    method UpdateUser(id: int, name: string, nickName: string, password: string)
      requires Valid()
      modifies this`users
      ensures users == UpdateWhere(old(users), (u: User) => u.id == id,
                                   (u: User) => u.(name := name, nickname := nickName, password := password))
      ensures forall u :: u in users && u.id == id ==> u.name == name && u.nickname == nickName && u.password == password
      ensures Keys(users, UserKey) == old(Keys(users, UserKey))
      ensures Valid()
      ensures old(Integrity()) ==> Integrity()
    {
      var cond := (u: User) => u.id == id;
      var assign := (u: User) => u.(name := name, nickname := nickName, password := password);
      UpdateKeepsKeys(users, cond, assign, UserKey);
      KeyedBelowUpdate(users, cond, assign, DistinctUserIds, UserKey, nextUserId);
      UpdateKeepsAll(users, cond, assign,
                     (u: User) => u.id == id ==> u.name == name && u.nickname == nickName && u.password == password);
      users := UpdateWhere(users, cond, assign);
    }

    /** Deletes the session's memberships, then the session. */
    method DeleteSession(id: int)
      requires Valid()
      modifies this`userSessions, this`sessions
      ensures userSessions == Filter(old(userSessions), (m: UserSession) => m.sessionId != id)
      ensures sessions == Filter(old(sessions), (s: Session) => s.id != id)
      ensures Keys(sessions, SessionKey) == old(Keys(sessions, SessionKey)) - {id}
      ensures forall m :: m in userSessions ==> m.sessionId != id
      ensures Valid()
      ensures old(Integrity()) ==> Integrity()
    {
      if Integrity() {
        MembershipsWithoutSession(userSessions, Keys(users, UserKey), Keys(sessions, SessionKey), id);
      }
      userSessions := Filter(userSessions, (m: UserSession) => m.sessionId != id);
      FilterPairwise(sessions, (s: Session) => s.id != id, DistinctSessionIds);
      FilterKeysWithout(sessions, (s: Session) => s.id != id, SessionKey, id);
      sessions := Filter(sessions, (s: Session) => s.id != id);
    }

    /** Deletes the user's memberships and progress records, then the user. */
    method DeleteUser(id: int)
      requires Valid()
      modifies this`userSessions, this`userProjects, this`users
      ensures State() == WithoutUser(old(State()), id)
      ensures Keys(users, UserKey) == old(Keys(users, UserKey)) - {id}
      ensures forall m :: m in userSessions ==> m.userId != id
      ensures forall up :: up in userProjects ==> up.userId != id
      ensures Valid()
      ensures old(Integrity()) ==> Integrity()
    {
      WithoutUserKeeps(State(), id);
      userSessions := Filter(userSessions, (m: UserSession) => m.userId != id);
      userProjects := Filter(userProjects, (up: UserProject) => up.userId != id);
      users := Filter(users, (u: User) => u.id != id);
    }

    /**
     * Inserts a user with a fresh id, no extra data and no admin flag, and makes them
     * a plain member of the session, joined `now`; returns the new id.
     */
    method CreateUser(sessionId: int, name: string, nickName: string, password: string, now: Timestamp)
      returns (id: int)
      requires Valid()
      modifies this`users, this`userSessions, this`nextUserId
      ensures id == old(nextUserId) && nextUserId == id + 1
      ensures id !in old(Keys(users, UserKey))
      ensures users == old(users) + [User(id, name, nickName, password, None, false)]
      ensures userSessions == old(userSessions) + [UserSession(id, sessionId, now, None, "user")]
      ensures old(Integrity()) ==> GetUserSessionPermission(id, sessionId) == Some("user")
      ensures Valid()
      ensures old(Integrity()) && sessionId in Keys(sessions, SessionKey) ==> Integrity()
    {
      var u := User(nextUserId, name, nickName, password, None, false);
      var m := UserSession(nextUserId, sessionId, now, None, "user");
      ghost var linked := Integrity();
      UserCreated(State(), u, m);
      users := users + [u];
      id := nextUserId;
      nextUserId := nextUserId + 1;
      userSessions := userSessions + [m];
      if linked {
        LastMembershipPermission(id, sessionId);
      }
    }

    /** When the last membership is the user's only one, its permission is the user's in that session. */
    lemma LastMembershipPermission(userId: int, sessionId: int)
      requires userSessions != []
      requires userSessions[|userSessions| - 1].userId == userId
      requires userSessions[|userSessions| - 1].sessionId == sessionId
      requires forall k :: 0 <= k < |userSessions| - 1 ==> userSessions[k].userId != userId
      ensures GetUserSessionPermission(userId, sessionId) == Some(userSessions[|userSessions| - 1].permission)
    {
    }

    /** The permission of the first membership of the user in the session; `None` without one. */
    function GetUserSessionPermission(userId: int, sessionId: int): (r: Option<string>)
      reads this
      ensures r.None? <==> forall m :: m in userSessions ==> !(m.userId == userId && m.sessionId == sessionId)
      ensures r.Some? ==> exists m :: m in userSessions && m.userId == userId && m.sessionId == sessionId
                                      && m.permission == r.value
    {
      match FetchFirst(userSessions, (m: UserSession) => m.userId == userId && m.sessionId == sessionId)
      case None => None
      case Some(m) => Some(m.permission)
    }

    /**
     * The completion time of the first progress record of the user for the project;
     * `None` when there is no record or its time is NULL.
     */
    function GetUserProjectDate(userId: int, projectId: int): (r: Option<Timestamp>)
      reads this
      ensures (forall up :: up in userProjects ==> !(up.userId == userId && up.projectId == projectId)) ==> r.None?
      ensures (exists up :: up in userProjects && up.userId == userId && up.projectId == projectId) ==>
                exists up :: up in userProjects && up.userId == userId && up.projectId == projectId
                             && up.dateComplete == r
    {
      match FetchFirst(userProjects, (up: UserProject) => up.userId == userId && up.projectId == projectId)
      case None => None
      case Some(up) => up.dateComplete
    }

    /**
     * Marks the project complete for the user: stamps every existing record of the
     * pair with `now`, then inserts one more record of the pair, so each call adds a row.
     */
    method GiveUserProject(userId: int, projectId: int, now: Timestamp)
      modifies this`userProjects
      ensures userProjects == Completed(old(userProjects), userId, projectId, now)
      ensures |Filter(userProjects, (up: UserProject) => up.userId == userId && up.projectId == projectId)|
           == |Filter(old(userProjects), (up: UserProject) => up.userId == userId && up.projectId == projectId)| + 1
      ensures forall up :: up in userProjects && up.userId == userId && up.projectId == projectId ==>
                up.dateComplete == Some(now)
      ensures GetUserProjectDate(userId, projectId) == Some(now)
      ensures old(Valid()) ==> Valid()
      ensures old(Integrity()) && userId in Keys(users, UserKey) && projectId in Keys(projects, ProjectKey)
              ==> Integrity()
    {
      CompletedPair(userProjects, userId, projectId, now);
      ghost var t := State();
      if Linked(t) && userId in Keys(t.users, UserKey) && projectId in Keys(t.projects, ProjectKey) {
        CompletedLinked(t, userId, projectId, now);
      }
      userProjects := Completed(userProjects, userId, projectId, now);
      assert State() == t.(userProjects := Completed(t.userProjects, userId, projectId, now));
    }

    /** Clears the completion time of every record of the pair; no row is added or removed. */
    method RemoveUserProject(userId: int, projectId: int)
      modifies this`userProjects
      ensures userProjects ==
        UpdateWhere(old(userProjects), (up: UserProject) => up.userId == userId && up.projectId == projectId,
                    (up: UserProject) => up.(dateComplete := None))
      ensures |userProjects| == |old(userProjects)|
      ensures |Filter(userProjects, (up: UserProject) => up.userId == userId && up.projectId == projectId)|
           == |Filter(old(userProjects), (up: UserProject) => up.userId == userId && up.projectId == projectId)|
      ensures GetUserProjectDate(userId, projectId) == None
      ensures old(Valid()) ==> Valid()
      ensures old(Integrity()) ==> Integrity()
    {
      var pair := (up: UserProject) => up.userId == userId && up.projectId == projectId;
      var clear := (up: UserProject) => up.(dateComplete := None);
      ghost var uk, pk, vk := Keys(users, UserKey), Keys(projects, ProjectKey), Keys(videos, VideoKey);
      FilterUpdateCommute(userProjects, pair, pair, clear);
      UpdateKeepsAll(userProjects, pair, clear, (up: UserProject) => pair(up) ==> up.dateComplete == None);
      if Integrity() {
        ProgressRedated(userProjects, pair, clear, uk, pk, vk);
      }
      ghost var t := State();
      userProjects := UpdateWhere(userProjects, pair, clear);
      assert State() == t.(userProjects := UpdateWhere(t.userProjects, pair, clear));
    }

    function GetProjectById(id: int): (r: Option<Project>)
      reads this
      ensures r.None? <==> id !in Keys(projects, ProjectKey)
      ensures r.Some? ==> r.value in projects && r.value.id == id
    {
      var byId := (p: Project) => p.id == id;
      FetchByKey(projects, byId, ProjectKey, id);
      FetchFirst(projects, byId)
    }

    method UpdateProject(id: int, title: string, description: string, categoryId: int)
      requires Valid()
      modifies this`projects
      ensures projects == UpdateWhere(old(projects), (p: Project) => p.id == id,
                                      (p: Project) => p.(title := title, description := description, categoryId := categoryId))
      ensures forall p :: p in projects && p.id == id ==>
                p.title == title && p.description == description && p.categoryId == categoryId
      ensures Keys(projects, ProjectKey) == old(Keys(projects, ProjectKey))
      ensures Valid()
      ensures old(Integrity()) && categoryId in Keys(categories, CategoryKey) ==> Integrity()
    {
      var cond := (p: Project) => p.id == id;
      var assign := (p: Project) => p.(title := title, description := description, categoryId := categoryId);
      ghost var ck := Keys(categories, CategoryKey);
      UpdateKeepsKeys(projects, cond, assign, ProjectKey);
      KeyedBelowUpdate(projects, cond, assign, DistinctProjectIds, ProjectKey, nextProjectId);
      UpdateKeepsAll(projects, cond, assign,
                     (p: Project) => p.id == id ==> p.title == title && p.description == description && p.categoryId == categoryId);
      if Integrity() && categoryId in ck {
        ProjectsUpdated(projects, cond, assign, ck);
      }
      projects := UpdateWhere(projects, cond, assign);
    }

    /** Inserts a project with a fresh id and the placeholder image; returns the new id. */
    method CreateProject(title: string, description: string, categoryId: int) returns (id: int)
      requires Valid()
      modifies this`projects, this`nextProjectId
      ensures id == old(nextProjectId) && nextProjectId == id + 1
      ensures id !in old(Keys(projects, ProjectKey))
      ensures projects == old(projects) + [Project(id, title, "test.png", description, categoryId)]
      ensures Keys(projects, ProjectKey) == old(Keys(projects, ProjectKey)) + {id}
      ensures Valid()
      ensures old(Integrity()) && categoryId in Keys(categories, CategoryKey) ==> Integrity()
    {
      var p := Project(nextProjectId, title, "test.png", description, categoryId);
      KeyedBelowAppend(projects, p, DistinctProjectIds, ProjectKey, nextProjectId);
      AppendKeys(projects, p, ProjectKey);
      if Integrity() {
        ProgressWidened(userProjects, Keys(users, UserKey), Keys(projects, ProjectKey), Keys(videos, VideoKey),
                        Keys(users, UserKey), Keys(projects, ProjectKey) + {nextProjectId}, Keys(videos, VideoKey));
      }
      projects := projects + [p];
      id := nextProjectId;
      nextProjectId := nextProjectId + 1;
    }

    method UpdateVideoById(videoId: int, title: string, url: string)
      requires Valid()
      modifies this`videos
      ensures videos == UpdateWhere(old(videos), (v: Video) => v.id == videoId,
                                    (v: Video) => v.(title := title, url := url))
      ensures forall v :: v in videos && v.id == videoId ==> v.title == title && v.url == url
      ensures Keys(videos, VideoKey) == old(Keys(videos, VideoKey))
      ensures old(UniqueOrders(videos)) ==> UniqueOrders(videos)
      ensures Valid()
      ensures old(Integrity()) ==> Integrity()
    {
      var cond := (v: Video) => v.id == videoId;
      var assign := (v: Video) => v.(title := title, url := url);
      ghost var pk := Keys(projects, ProjectKey);
      UpdateKeepsKeys(videos, cond, assign, VideoKey);
      KeyedBelowUpdate(videos, cond, assign, DistinctVideoIds, VideoId, nextVideoId);
      if UniqueOrders(videos) {
        UpdatePairwise(videos, cond, assign, DistinctOrdersInProject);
      }
      UpdateKeepsAll(videos, cond, assign, (v: Video) => v.id == videoId ==> v.title == title && v.url == url);
      if Integrity() {
        VideosUpdated(videos, cond, assign, pk);
      }
      videos := UpdateWhere(videos, cond, assign);
    }

    /** Clears every bookmark naming the video, then deletes the video. */
    method RemoveVideo(videoId: int)
      requires Valid()
      modifies this`userProjects, this`videos
      ensures State() == WithoutVideo(old(State()), videoId)
      ensures forall up :: up in userProjects ==> up.bookmark != Some(videoId)
      ensures forall v :: v in videos ==> v.id != videoId
      ensures old(UniqueOrders(videos)) ==> UniqueOrders(videos)
      ensures Valid()
      ensures old(Integrity()) ==> Integrity()
    {
      WithoutVideoKeeps(State(), videoId);
      userProjects := UpdateWhere(userProjects, (up: UserProject) => up.bookmark == Some(videoId),
                                  (up: UserProject) => up.(bookmark := None));
      videos := Filter(videos, (v: Video) => v.id != videoId);
    }

    /**
     * Appends a video to the project with a fresh id and the order one past the
     * project's largest (1 for a project without videos); returns that order.
     */
    method AddVideo(projectId: int, title: string, url: string) returns (order: int)
      requires Valid()
      modifies this`videos, this`nextVideoId
      ensures order == NextOrder(ProjectOrders(old(videos), projectId))
      ensures videos == old(videos) + [Video(old(nextVideoId), projectId, title, url, order)]
      ensures nextVideoId == old(nextVideoId) + 1
      ensures GetMaxOrder(projectId) == Some(order)
      ensures old(UniqueOrders(videos)) ==> UniqueOrders(videos)
      ensures Valid()
      ensures old(Integrity()) && projectId in Keys(projects, ProjectKey) ==> Integrity()
    {
      var max := GetMaxOrder(projectId);
      // MAX over no rows is NULL, which the addition reads as 0.
      order := (match max case None => 0 case Some(m) => m) + 1;
      var v := Video(nextVideoId, projectId, title, url, order);
      ghost var t := State();
      VideoInserted(t, v);
      videos := videos + [v];
      nextVideoId := nextVideoId + 1;
      assert State() == t.(videos := t.videos + [v], nextVideoId := t.nextVideoId + 1);
    }

    /** Deletes the project's progress records, then its videos, then the project. */
    method RemoveProject(projectId: int)
      requires Valid()
      modifies this`userProjects, this`videos, this`projects
      ensures State() == WithoutProject(old(State()), projectId)
      ensures Keys(projects, ProjectKey) == old(Keys(projects, ProjectKey)) - {projectId}
      ensures forall v :: v in videos ==> v.projectId != projectId
      ensures forall up :: up in userProjects ==> up.projectId != projectId
      ensures old(UniqueOrders(videos)) ==> UniqueOrders(videos)
      ensures Valid()
      ensures old(Integrity()) ==> Integrity()
    {
      var others := (v: Video) => v.projectId != projectId;
      if Integrity() {
        ProgressWithoutProject(userProjects, Keys(users, UserKey), Keys(projects, ProjectKey), Keys(videos, VideoKey),
                               projectId);
        VideosWithoutProject(videos, Keys(projects, ProjectKey), projectId);
      }
      userProjects := Filter(userProjects, (up: UserProject) => up.projectId != projectId);
      KeyedBelowFilter(videos, others, DistinctVideoIds, VideoId, nextVideoId);
      if UniqueOrders(videos) {
        FilterPairwise(videos, others, DistinctOrdersInProject);
      }
      FilterKeys(videos, others, VideoKey, (k: (int, int)) => k.1 != projectId);
      videos := Filter(videos, others);
      KeyedBelowFilter(projects, (p: Project) => p.id != projectId, DistinctProjectIds, ProjectKey, nextProjectId);
      FilterKeysWithout(projects, (p: Project) => p.id != projectId, ProjectKey, projectId);
      projects := Filter(projects, (p: Project) => p.id != projectId);
    }

    /** Every category, in table order. */
    function GetCategory(): (r: seq<Category>)
      reads this
      ensures multiset(r) == multiset(categories)
    {
      categories
    }

    function GetCategoryById(id: int): (r: Option<Category>)
      reads this
      ensures r.None? <==> id !in Keys(categories, CategoryKey)
      ensures r.Some? ==> r.value in categories && r.value.id == id
    {
      var byId := (c: Category) => c.id == id;
      FetchByKey(categories, byId, CategoryKey, id);
      FetchFirst(categories, byId)
    }

    method UpdateCategory(id: int, title: string, description: string)
      requires Valid()
      modifies this`categories
      ensures categories == UpdateWhere(old(categories), (c: Category) => c.id == id,
                                        (c: Category) => c.(title := title, description := description))
      ensures forall c :: c in categories && c.id == id ==> c.title == title && c.description == description
      ensures Keys(categories, CategoryKey) == old(Keys(categories, CategoryKey))
      ensures old(UniqueCategoryOrders(categories)) ==> UniqueCategoryOrders(categories)
      ensures Valid()
      ensures old(Integrity()) ==> Integrity()
    {
      var cond := (c: Category) => c.id == id;
      var assign := (c: Category) => c.(title := title, description := description);
      UpdateKeepsKeys(categories, cond, assign, CategoryKey);
      KeyedBelowUpdate(categories, cond, assign, DistinctCategoryIds, CategoryKey, nextCategoryId);
      if UniqueCategoryOrders(categories) {
        UpdatePairwise(categories, cond, assign, DistinctCategoryOrders);
      }
      UpdateKeepsAll(categories, cond, assign,
                     (c: Category) => c.id == id ==> c.title == title && c.description == description);
      categories := UpdateWhere(categories, cond, assign);
    }

    /**
     * Removes, one by one and with their cascades, the projects the category held
     * when the call began, then deletes the category.
     */
    method RemoveCategory(categoryId: int)
      requires Valid()
      modifies this`userProjects, this`videos, this`projects, this`categories
      ensures State() == WithoutCategory(old(State()), categoryId)
      ensures forall p :: p in projects ==> p.categoryId != categoryId
      ensures Keys(categories, CategoryKey) == old(Keys(categories, CategoryKey)) - {categoryId}
      ensures old(UniqueOrders(videos)) ==> UniqueOrders(videos)
      ensures old(UniqueCategoryOrders(categories)) ==> UniqueCategoryOrders(categories)
      ensures Valid()
      ensures old(Integrity()) ==> Integrity()
    {
      var held := GetProjectByCategoryId(categoryId);
      ghost var t := State();
      WithoutNoProjects(t);
      assert Keys(held[..0], ProjectKey) == {};
      for i := 0 to |held|
        invariant State() == WithoutProjects(t, Keys(held[..i], ProjectKey))
      {
        DeletedPrefix(t, held, i);
        RemoveProject(held[i].id);
      }
      assert held[..|held|] == held;
      HeldKeys(t.projects, categoryId);
      WithoutCategoryKeeps(t, categoryId);
      categories := Filter(categories, (c: Category) => c.id != categoryId);
    }

    function GetProjectByCategoryId(categoryId: int): (r: seq<Project>)
      reads this
      ensures forall p :: p in r <==> p in projects && p.categoryId == categoryId
    {
      Filter(projects, (p: Project) => p.categoryId == categoryId)
    }

    /**
     * Appends a category with a fresh id and the order one past the largest category
     * order (1 for the first); returns the new id.
     */
    method AddCategory(title: string, description: string) returns (id: int)
      requires Valid()
      modifies this`categories, this`nextCategoryId
      ensures id == old(nextCategoryId) && nextCategoryId == id + 1
      ensures categories == old(categories) + [Category(id, title, description, NextOrder(CategoryOrders(old(categories))))]
      ensures forall c :: c in old(categories) ==> c.order < NextOrder(CategoryOrders(old(categories)))
      ensures Keys(categories, CategoryKey) == old(Keys(categories, CategoryKey)) + {id}
      ensures old(UniqueCategoryOrders(categories)) ==> UniqueCategoryOrders(categories)
      ensures Valid()
      ensures old(Integrity()) ==> Integrity()
    {
      var max := MaxOf(CategoryOrders(categories));
      // MAX over no rows is NULL, which the addition reads as 0.
      var order := (match max case None => 0 case Some(m) => m) + 1;
      var c := Category(nextCategoryId, title, description, order);
      assert forall x :: x in categories ==> x.order in CategoryOrders(categories);
      CategoryInserted(State(), c);
      categories := categories + [c];
      id := nextCategoryId;
      nextCategoryId := nextCategoryId + 1;
    }

    /** Records the stored image path of the project; storing the file itself is not modelled. */
    method UploadProjectImage(filePath: string, projectId: int)
      requires Valid()
      modifies this`projects
      ensures projects == UpdateWhere(old(projects), (p: Project) => p.id == projectId,
                                      (p: Project) => p.(image := filePath))
      ensures forall p :: p in projects && p.id == projectId ==> p.image == filePath
      ensures Keys(projects, ProjectKey) == old(Keys(projects, ProjectKey))
      ensures Valid()
      ensures old(Integrity()) ==> Integrity()
    {
      var cond := (p: Project) => p.id == projectId;
      var assign := (p: Project) => p.(image := filePath);
      ghost var ck := Keys(categories, CategoryKey);
      UpdateKeepsKeys(projects, cond, assign, ProjectKey);
      KeyedBelowUpdate(projects, cond, assign, DistinctProjectIds, ProjectKey, nextProjectId);
      UpdateKeepsAll(projects, cond, assign, (p: Project) => p.id == projectId ==> p.image == filePath);
      if Integrity() {
        ProjectsUpdated(projects, cond, assign, ck);
      }
      projects := UpdateWhere(projects, cond, assign);
    }

    /**
     * Swaps the order of the video with that of its nearest neighbour above (`"up"`)
     * or below (any other `change`) in the project. Without such a video or without a
     * neighbour nothing is written (see `Ordering.OrderColumnAsWritten` for what the
     * unguarded statements would store).
     */
    method MoveVideoUpOrDown(videoId: int, change: string, projectId: int)
      requires Valid()
      modifies this`videos
      ensures videos == Moved(old(videos), videoId, change == "up", projectId)
      ensures Keys(videos, VideoKey) == old(Keys(videos, VideoKey))
      ensures Valid()
      ensures old(Integrity()) ==> Integrity()
      ensures old(UniqueOrders(videos)) && (forall v :: v in old(videos) && v.id == videoId ==> v.projectId == projectId)
              ==> UniqueOrders(videos)
                  && multiset(ProjectOrders(videos, projectId)) == multiset(ProjectOrders(old(videos), projectId))
    {
      ghost var t := State();
      var ws := RunMove(videos, videoId, change == "up", projectId);
      MovedTables(t, ws, videoId, change == "up", projectId);
      videos := ws;
      assert State() == t.(videos := ws);
    }

    /** The largest order in the project; `None` (NULL) for a project without videos. */
    function GetMaxOrder(projectId: int): (r: Option<int>)
      reads this
      ensures r.None? <==> forall v :: v in videos ==> v.projectId != projectId
      ensures r.Some? ==> (exists v :: v in videos && v.projectId == projectId && v.order == r.value)
                          && forall v :: v in videos && v.projectId == projectId ==> v.order <= r.value
    {
      var os := ProjectOrders(videos, projectId);
      assert forall v :: v in videos && v.projectId == projectId ==> v.order in os;
      MaxOf(os)
    }

    /** The smallest order in the project; `None` (NULL) for a project without videos. */
    function GetMinOrder(projectId: int): (r: Option<int>)
      reads this
      ensures r.None? <==> forall v :: v in videos ==> v.projectId != projectId
      ensures r.Some? ==> (exists v :: v in videos && v.projectId == projectId && v.order == r.value)
                          && forall v :: v in videos && v.projectId == projectId ==> r.value <= v.order
    {
      var os := ProjectOrders(videos, projectId);
      assert forall v :: v in videos && v.projectId == projectId ==> v.order in os;
      MinOf(os)
    }
  }
}
