/**
 * The rows of the seven tables of the project catalogue, one datatype per table,
 * with the columns in the order of the table definition. Nullable columns that the
 * data-access layer writes NULL into are `Option`s.
 */
module Rows {

  datatype Option<T> = None | Some(value: T)

  /** A point in time, in seconds since an epoch; the database's NOW() is passed in by the caller. */
  type Timestamp = nat

  datatype Project = Project(id: int, title: string, image: string, description: string, categoryId: int)

  datatype Video = Video(id: int, projectId: int, title: string, url: string, order: int)

  datatype Session = Session(id: int, title: string, description: string)

  datatype User = User(id: int, name: string, nickname: string, password: string,
                       extra: Option<string>, isAdmin: bool)

  /** Membership of a user in a session, with its permission level ("user", "admin", ...). */
  datatype UserSession = UserSession(userId: int, sessionId: int, joined: Timestamp,
                                     lastLogin: Option<Timestamp>, permission: string)

  /** Progress record: a bookmarked video and the completion time, both nullable. */
  datatype UserProject = UserProject(userId: int, projectId: int, bookmark: Option<int>,
                                     dateComplete: Option<Timestamp>)

  datatype Category = Category(id: int, title: string, description: string, order: int)

  /** The two columns `user_id, user_nickname` that the session roster selects. */
  datatype UserNick = UserNick(id: int, nickname: string)

  function VideoOrder(v: Video): int { v.order }

  /** The sort key of `ORDER BY user_session_last_login ASC`: MySQL sorts NULL before every time. */
  function LastLoginKey(m: UserSession): int {
    match m.lastLogin
    case None => -1
    case Some(t) => t
  }

  // Primary-key columns, and for a video the pair (id, project) a bookmark refers to.
  function ProjectKey(p: Project): int { p.id }
  function VideoId(v: Video): int { v.id }
  function VideoKey(v: Video): (int, int) { (v.id, v.projectId) }
  function SessionKey(s: Session): int { s.id }
  function UserKey(u: User): int { u.id }
  function CategoryKey(c: Category): int { c.id }

  // Primary keys: two distinct rows of a table never share their id.
  predicate DistinctProjectIds(a: Project, b: Project) { a.id != b.id }
  predicate DistinctVideoIds(a: Video, b: Video) { a.id != b.id }
  predicate DistinctSessionIds(a: Session, b: Session) { a.id != b.id }
  predicate DistinctUserIds(a: User, b: User) { a.id != b.id }
  predicate DistinctCategoryIds(a: Category, b: Category) { a.id != b.id }

  /** Two videos of the same project never hold the same order. */
  predicate DistinctOrdersInProject(a: Video, b: Video) { a.projectId == b.projectId ==> a.order != b.order }

  /** Two categories never hold the same order. */
  predicate DistinctCategoryOrders(a: Category, b: Category) { a.order != b.order }
}
