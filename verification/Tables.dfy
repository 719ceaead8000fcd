/**
 The post and thread tables, and what the queries and updates over them denote
 (pkg/gcsql/posts.go, pkg/gcsql/threads.go, pkg/gcsql/boards.go, cmd/gochan/deleteposts.go and the
 views of sql/reset_views.sql). Columns that no query here looks at are left out.
 */
module Tables {

  datatype Post = Post(threadID: int, isTopPost: bool, isDeleted: bool)

  datatype Thread = Thread(boardID: int, locked: bool, stickied: bool, anchored: bool, cyclic: bool,
                           lastBump: int, isDeleted: bool)

  type PostTable = map<int, Post>
  type ThreadTable = map<int, Thread>

  /** Both tables, and the counters behind their auto-incremented ids. */
  datatype Db = Db(posts: PostTable, threads: ThreadTable, nextPost: int, nextThread: int)

  // ---------------------------------------------------------------- queries

  predicate IsLive(db: Db, id: int) {
    id in db.posts && !db.posts[id].isDeleted
  }

  function PostsOf(db: Db, threadIDs: set<int>): set<int> {
    set id | id in db.posts && db.posts[id].threadID in threadIDs
  }

  /** `op_id` in the view of posts to delete: the top post of the thread. */
  predicate IsOpOf(db: Db, op: int, threadID: int) {
    op in db.posts && db.posts[op].isTopPost && db.posts[op].threadID == threadID
  }

  /** The non-deleted, unstickied threads of a board, whose number `DeleteOldThreads` limits. */
  function Prunable(db: Db, boardID: int): set<int> {
    set t | t in db.threads && db.threads[t].boardID == boardID && !db.threads[t].isDeleted && !db.threads[t].stickied
  }

  /** The rows of the cyclic-check view for a thread: its non-deleted replies, if it is cyclic. */
  function LiveReplies(db: Db, threadID: int): set<int> {
    set id | id in db.posts && db.posts[id].threadID == threadID && !db.posts[id].isTopPost && !db.posts[id].isDeleted
  }

  // ---------------------------------------------------------------- updates

  /** `UPDATE posts SET is_deleted = TRUE WHERE id IN ids` */
  function MarkPosts(posts: PostTable, ids: set<int>): PostTable {
    map id | id in posts :: if id in ids then posts[id].(isDeleted := true) else posts[id]
  }

  /** `UPDATE threads SET is_deleted = TRUE WHERE id IN ids` */
  function MarkThreads(threads: ThreadTable, ids: set<int>): ThreadTable {
    map t | t in threads :: if t in ids then threads[t].(isDeleted := true) else threads[t]
  }

  function Mark(db: Db, posts: set<int>, threads: set<int>): Db {
    db.(posts := MarkPosts(db.posts, posts), threads := MarkThreads(db.threads, threads))
  }

  /** `DELETE FROM posts WHERE is_deleted` and then `DELETE FROM threads WHERE is_deleted`; where
      the driver enforces foreign keys, the second deletes the posts of the deleted threads too. */
  function Purge(db: Db, enforced: bool): Db {
    db.(posts := map id | id in db.posts && !db.posts[id].isDeleted && !(enforced && IsStray(db, id)) :: db.posts[id],
        threads := map t | t in db.threads && !db.threads[t].isDeleted :: db.threads[t])
  }

  // ---------------------------------------------------------------- the invariant

  /** What foreign keys, ids and `Insert` keep: every post has a thread, every thread one top post. */
  ghost predicate WellFormed(db: Db) {
    && (forall id :: id in db.posts ==> db.posts[id].threadID in db.threads)
    && (forall t :: t in db.threads ==> exists op :: IsOpOf(db, op, t))
    && (forall p, q, t :: IsOpOf(db, p, t) && IsOpOf(db, q, t) ==> p == q)
    && (forall id :: id in db.posts ==> 0 < id < db.nextPost)
    && (forall t :: t in db.threads ==> 0 < t < db.nextThread)
    && 0 < db.nextPost && 0 < db.nextThread
  }

  /** A live post whose thread is deleted. */
  predicate IsStray(db: Db, id: int) {
    IsLive(db, id) && db.posts[id].threadID in db.threads && db.threads[db.posts[id].threadID].isDeleted
  }

  /** A deleted thread has no live post. */
  ghost predicate NoLivePostInDeletedThread(db: Db) {
    forall id :: !IsStray(db, id)
  }

  /** A live thread has a live top post. */
  ghost predicate LiveThreadHasLiveOp(db: Db) {
    forall t, op :: t in db.threads && !db.threads[t].isDeleted && IsOpOf(db, op, t) ==> IsLive(db, op)
  }

  /** What holds even where there are stray posts. */
  ghost predicate Sound(db: Db) {
    WellFormed(db) && LiveThreadHasLiveOp(db)
  }

  /** The invariant of the post and thread tables. */
  ghost predicate Consistent(db: Db) {
    Sound(db) && NoLivePostInDeletedThread(db)
  }
}
