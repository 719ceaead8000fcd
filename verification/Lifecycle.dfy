/** What the operations on posts and threads keep, over whole runs. */
module Lifecycle {
  import opened Wrappers
  import opened Sets
  import opened Tables

  // ---------------------------------------------------------------- the operations as steps

  /** `Insert` of a post that opens a thread. */
  function AddThread(db: Db, thread: Thread): Db {
    Db(db.posts[db.nextPost := Post(db.nextThread, true, false)], db.threads[db.nextThread := thread],
       db.nextPost + 1, db.nextThread + 1)
  }

  /** `Insert` of a post in an existing thread. */
  function AddPost(db: Db, threadID: int, isTopPost: bool): Db {
    db.(posts := db.posts[db.nextPost := Post(threadID, isTopPost, false)], nextPost := db.nextPost + 1)
  }

  function AddReply(db: Db, threadID: int): Db {
    AddPost(db, threadID, false)
  }

  /** The bump in `Insert`. */
  function Bump(db: Db, threadID: int, now: int): Db {
    if threadID in db.threads then SetRow(db, threadID, db.threads[threadID].(lastBump := now)) else db
  }

  /** The update of `Thread.UpdateAttribute`, on the row; for any other name there is no update. */
  function WithAttribute(thread: Thread, attribute: string, value: bool): Thread {
    match attribute
    case "locked" => thread.(locked := value)
    case "stickied" => thread.(stickied := value)
    case "anchored" => thread.(anchored := value)
    case "cyclic" => thread.(cyclic := value)
    case _ => thread
  }

  function SetRow(db: Db, threadID: int, thread: Thread): Db {
    db.(threads := db.threads[threadID := thread])
  }

  function SetAttribute(db: Db, threadID: int, attribute: string, value: bool): Db {
    if threadID in db.threads then SetRow(db, threadID, WithAttribute(db.threads[threadID], attribute, value)) else db
  }

  /** The update of `ChangeThreadBoardID`. */
  function MoveTo(db: Db, threadID: int, boardID: int): Db {
    if threadID in db.threads then SetRow(db, threadID, db.threads[threadID].(boardID := boardID)) else db
  }

  /** `Insert` of a reply, with its bump. */
  function Replied(db: Db, threadID: int, bumpThread: bool, now: int): Db {
    if bumpThread then Bump(AddReply(db, threadID), threadID, now) else AddReply(db, threadID)
  }

  /** `deleteThread` and, for many threads at once, the two updates of `DeleteOldThreads`. */
  function DeleteThreads(db: Db, threadIDs: set<int>): Db {
    Mark(db, PostsOf(db, threadIDs), threadIDs)
  }

  /** The threads whose top post is among `ids`: the subquery of `markPostsAsDeleted`. */
  function ThreadsOfTopPosts(db: Db, ids: set<int>): set<int> {
    set id | id in ids && id in db.posts && db.posts[id].isTopPost :: db.posts[id].threadID
  }

  /**
   The WHERE clause of `getAllPostsToDelete`. In its subquery `op_id` is no column of the post
   table, so it is the column of the row being tested: a row passes if it is selected, or if the
   top post of its thread is selected and its thread has some top post.
   */
  predicate IsAffected(db: Db, selected: set<int>, id: int) {
    && id in db.posts && db.posts[id].threadID in db.threads
    && (|| id in selected
        || exists op :: op in selected && IsOpOf(db, op, db.posts[id].threadID))
  }

  function Affected(db: Db, selected: set<int>): set<int> {
    set id | id in db.posts && IsAffected(db, selected, id)
  }

  /** `markPostsAsDeleted` */
  function MarkIds(db: Db, ids: set<int>): Db {
    Mark(db, ids, ThreadsOfTopPosts(db, ids))
  }

  /** `getAllPostsToDelete` followed at once by `markPostsAsDeleted`. */
  function DeleteSelected(db: Db, selected: set<int>): Db {
    MarkIds(db, Affected(db, selected))
  }

  /** `pruned` is a possible choice of the threads beyond the first `max` by last bump. */
  ghost predicate IsExcess(db: Db, boardID: int, max: nat, pruned: set<int>) {
    var live := Prunable(db, boardID);
    && pruned <= live
    && |live - pruned| == (if |live| < max then |live| else max)
    && forall p, k :: p in pruned && k in live - pruned ==> db.threads[k].lastBump >= db.threads[p].lastBump
  }

  /** `pruned` are all but the `max` highest-numbered of `ids`. */
  ghost predicate IsLowest(ids: set<int>, max: nat, pruned: set<int>) {
    && pruned <= ids
    && |ids - pruned| == (if |ids| < max then |ids| else max)
    && forall p, k :: p in pruned && k in ids - pruned ==> p < k
  }

  // ---------------------------------------------------------------- what each query selects

  /** The columns that the queries look at. */
  lemma SelectedExactly(db: Db, boardID: int, threadID: int)
    ensures forall t :: t in Prunable(db, boardID) <==>
              t in db.threads && db.threads[t].boardID == boardID && !db.threads[t].isDeleted && !db.threads[t].stickied
    ensures forall id :: id in LiveReplies(db, threadID) <==>
              id in db.posts && db.posts[id].threadID == threadID && !db.posts[id].isTopPost && !db.posts[id].isDeleted
  {
  }

  // ---------------------------------------------------------------- what each update changes

  /** A new thread: one live top post and the thread's row, both with new ids. */
  lemma AddThreadExactly(db: Db, thread: Thread)
    requires WellFormed(db)
    ensures var db', p, t := AddThread(db, thread), db.nextPost, db.nextThread;
            && p !in db.posts && t !in db.threads && db'.nextPost == p + 1 && db'.nextThread == t + 1
            && db'.posts.Keys == db.posts.Keys + {p} && db'.threads.Keys == db.threads.Keys + {t}
            && db'.posts[p] == Post(t, true, false) && db'.threads[t] == thread
            && (forall id :: id in db.posts ==> db'.posts[id] == db.posts[id])
            && (forall u :: u in db.threads ==> db'.threads[u] == db.threads[u])
  {
  }

  /** A post in a thread: one live post with a new id; with a bump the thread's last bump is now, and nothing else. */
  lemma RepliedExactly(db: Db, threadID: int, bumpThread: bool, now: int)
    requires WellFormed(db)
    ensures var db', p := Replied(db, threadID, bumpThread, now), db.nextPost;
            && p !in db.posts && db'.nextPost == p + 1 && db'.nextThread == db.nextThread
            && db'.posts.Keys == db.posts.Keys + {p} && db'.posts[p] == Post(threadID, false, false)
            && (forall id :: id in db.posts ==> db'.posts[id] == db.posts[id])
            && db'.threads.Keys == db.threads.Keys
            && (forall u :: u in db.threads && (u != threadID || !bumpThread) ==> db'.threads[u] == db.threads[u])
            && (threadID in db.threads && bumpThread ==>
                  db'.threads[threadID] == db.threads[threadID].(lastBump := now))
  {
  }

  /** The named attribute of the one thread is set, and no other column of any thread changes. */
  lemma AttributeExactly(db: Db, threadID: int, attribute: string, value: bool)
    requires threadID in db.threads
    ensures var db' := SetAttribute(db, threadID, attribute, value);
            var row, row' := db.threads[threadID], db'.threads[threadID];
            && db'.posts == db.posts && db'.nextPost == db.nextPost && db'.nextThread == db.nextThread
            && db'.threads.Keys == db.threads.Keys
            && (forall u :: u in db.threads && u != threadID ==> db'.threads[u] == db.threads[u])
            && row' == Thread(row.boardID,
                              if attribute == "locked" then value else row.locked,
                              if attribute == "stickied" then value else row.stickied,
                              if attribute == "anchored" then value else row.anchored,
                              if attribute == "cyclic" then value else row.cyclic,
                              row.lastBump, row.isDeleted)
  {
  }

  /** The thread is on the other board, and no other column of any thread changes. */
  lemma MoveExactly(db: Db, threadID: int, boardID: int)
    requires threadID in db.threads
    ensures var db', row := MoveTo(db, threadID, boardID), db.threads[threadID];
            && db'.posts == db.posts && db'.nextPost == db.nextPost && db'.nextThread == db.nextThread
            && db'.threads.Keys == db.threads.Keys
            && (forall u :: u in db.threads && u != threadID ==> db'.threads[u] == db.threads[u])
            && db'.threads[threadID] == Thread(boardID, row.locked, row.stickied, row.anchored, row.cyclic,
                                               row.lastBump, row.isDeleted)
  {
  }

  /** The marked posts and threads are deleted, and no other column or row changes. */
  lemma MarkExactly(db: Db, posts: set<int>, threads: set<int>)
    ensures var db' := Mark(db, posts, threads);
            && db'.posts.Keys == db.posts.Keys && db'.threads.Keys == db.threads.Keys
            && db'.nextPost == db.nextPost && db'.nextThread == db.nextThread
            && (forall id :: id in db.posts ==>
                  db'.posts[id] == Post(db.posts[id].threadID, db.posts[id].isTopPost,
                                        db.posts[id].isDeleted || id in posts))
            && (forall t :: t in db.threads ==>
                  db'.threads[t] == if t in threads then db.threads[t].(isDeleted := true) else db.threads[t])
  {
  }

  /** Deleted are the threads and exactly the posts whose thread is among them. */
  lemma DeleteThreadsExactly(db: Db, threadIDs: set<int>)
    ensures var db' := DeleteThreads(db, threadIDs);
            && db'.posts.Keys == db.posts.Keys && db'.threads.Keys == db.threads.Keys
            && db'.nextPost == db.nextPost && db'.nextThread == db.nextThread
            && (forall id :: id in db.posts ==>
                  db'.posts[id] == Post(db.posts[id].threadID, db.posts[id].isTopPost,
                                        db.posts[id].isDeleted || db.posts[id].threadID in threadIDs))
            && (forall t :: t in db.threads ==>
                  db'.threads[t] == if t in threadIDs then db.threads[t].(isDeleted := true) else db.threads[t])
  {
    MarkExactly(db, PostsOf(db, threadIDs), threadIDs);
  }

  /** A purge leaves the live threads, and the live posts without those of deleted threads if keys are enforced. */
  lemma PurgeExactly(db: Db, enforced: bool)
    ensures var db' := Purge(db, enforced);
            && db'.nextPost == db.nextPost && db'.nextThread == db.nextThread
            && (forall t :: t in db'.threads <==> t in db.threads && !db.threads[t].isDeleted)
            && (forall t :: t in db'.threads ==> db'.threads[t] == db.threads[t])
            && (forall id :: id in db'.posts <==>
                  id in db.posts && !db.posts[id].isDeleted
                  && !(enforced && db.posts[id].threadID in db.threads && db.threads[db.posts[id].threadID].isDeleted))
            && (forall id :: id in db'.posts ==> db'.posts[id] == db.posts[id])
  {
  }

  // ---------------------------------------------------------------- each step keeps the invariant

  /** A step adds no stray post to sound tables; from consistent ones it leads to consistent ones. */
  ghost predicate Keeps(db: Db, db': Db) {
    Sound(db') && forall id :: IsStray(db', id) ==> IsStray(db, id)
  }

  lemma AddThreadKeeps(db: Db, thread: Thread)
    requires Sound(db) && !thread.isDeleted
    ensures Keeps(db, AddThread(db, thread))
  {
    var db' := AddThread(db, thread);
    forall t | t in db'.threads ensures exists op :: IsOpOf(db', op, t) {
      if t == db.nextThread {
        assert IsOpOf(db', db.nextPost, t);
      } else {
        var op :| IsOpOf(db, op, t);
        assert IsOpOf(db', op, t);
      }
    }
    forall p, q, t | IsOpOf(db', p, t) && IsOpOf(db', q, t) ensures p == q {
      assert t != db.nextThread ==> IsOpOf(db, p, t) && IsOpOf(db, q, t);
    }
    forall t, op | t in db'.threads && !db'.threads[t].isDeleted && IsOpOf(db', op, t) ensures IsLive(db', op) {
      assert t != db.nextThread ==> IsOpOf(db, op, t);
    }
  }

  /** A change to any columns of a thread's row but its deletion. */
  lemma RowChangeKeeps(db: Db, threadID: int, thread: Thread)
    requires Sound(db) && threadID in db.threads && thread.isDeleted == db.threads[threadID].isDeleted
    ensures Keeps(db, SetRow(db, threadID, thread))
    ensures forall id :: IsStray(db, id) ==> IsStray(SetRow(db, threadID, thread), id)
  {
    var db' := SetRow(db, threadID, thread);
    forall t | t in db'.threads ensures exists op :: IsOpOf(db', op, t) {
      var op :| IsOpOf(db, op, t);
      assert IsOpOf(db', op, t);
    }
    assert forall op, t :: IsOpOf(db', op, t) ==> IsOpOf(db, op, t);
    assert forall id :: IsLive(db', id) <==> IsLive(db, id);
  }

  lemma BumpKeeps(db: Db, threadID: int, now: int)
    requires Sound(db)
    ensures Keeps(db, Bump(db, threadID, now))
    ensures forall id :: IsStray(db, id) ==> IsStray(Bump(db, threadID, now), id)
  {
    if threadID in db.threads {
      RowChangeKeeps(db, threadID, db.threads[threadID].(lastBump := now));
    }
  }

  lemma AddReplyWellFormed(db: Db, threadID: int)
    requires WellFormed(db) && threadID in db.threads
    ensures WellFormed(AddReply(db, threadID))
    ensures forall op, t :: IsOpOf(AddReply(db, threadID), op, t) <==> IsOpOf(db, op, t)
  {
    var db' := AddReply(db, threadID);
    assert forall op, t :: IsOpOf(db', op, t) <==> IsOpOf(db, op, t);
    forall t | t in db'.threads ensures exists op :: IsOpOf(db', op, t) {
      var op :| IsOpOf(db, op, t);
      assert IsOpOf(db', op, t);
    }
  }

  /** The one stray post a reply can add is itself, and it does in a deleted thread. */
  lemma ReplyStrays(db: Db, threadID: int)
    requires Sound(db) && threadID in db.threads
    ensures Sound(AddReply(db, threadID))
    ensures forall id :: IsStray(AddReply(db, threadID), id) <==>
                           IsStray(db, id) || (id == db.nextPost && db.threads[threadID].isDeleted)
  {
    AddReplyWellFormed(db, threadID);
    var db' := AddReply(db, threadID);
    assert forall id :: IsLive(db', id) <==> IsLive(db, id) || id == db.nextPost;
  }

  /**
   `Insert` tests whether the thread is locked, not whether it is deleted. A reply keeps the
   invariant exactly when its thread is not deleted.
   */
  lemma ReplyKeepsIff(db: Db, threadID: int)
    requires Consistent(db) && threadID in db.threads
    ensures Consistent(AddReply(db, threadID)) <==> !db.threads[threadID].isDeleted
  {
    ReplyStrays(db, threadID);
    if db.threads[threadID].isDeleted {
      assert IsStray(AddReply(db, threadID), db.nextPost);
    }
  }

  lemma MarkFrame(db: Db, posts: set<int>, threads: set<int>)
    requires WellFormed(db)
    ensures WellFormed(Mark(db, posts, threads))
    ensures forall op, t :: IsOpOf(Mark(db, posts, threads), op, t) <==> IsOpOf(db, op, t)
    ensures forall id :: IsLive(Mark(db, posts, threads), id) <==> IsLive(db, id) && id !in posts
  {
    var db' := Mark(db, posts, threads);
    assert forall op, t :: IsOpOf(db', op, t) <==> IsOpOf(db, op, t);
    forall t | t in db'.threads ensures exists op :: IsOpOf(db', op, t) {
      var op :| IsOpOf(db, op, t);
      assert IsOpOf(db', op, t);
    }
  }

  /** No thread that stays live loses its top post. */
  ghost predicate SparesTops(db: Db, posts: set<int>, threads: set<int>) {
    forall op, t :: t in db.threads && t !in threads && !db.threads[t].isDeleted && IsOpOf(db, op, t) ==> op !in posts
  }

  /** Marking posts and threads leaves sound tables exactly when top posts are spared, and exactly these strays. */
  lemma MarkStrays(db: Db, posts: set<int>, threads: set<int>)
    requires Sound(db)
    ensures Sound(Mark(db, posts, threads)) <==> SparesTops(db, posts, threads)
    ensures forall id :: IsStray(Mark(db, posts, threads), id) <==>
                           && IsLive(db, id) && id !in posts
                           && (IsStray(db, id) || db.posts[id].threadID in threads)
  {
    var db' := Mark(db, posts, threads);
    MarkFrame(db, posts, threads);
    if Sound(db') {
      forall op, t | t in db.threads && t !in threads && !db.threads[t].isDeleted && IsOpOf(db, op, t)
          ensures op !in posts {
        assert IsOpOf(db', op, t);
      }
    }
    if SparesTops(db, posts, threads) {
      forall t, op | t in db'.threads && !db'.threads[t].isDeleted && IsOpOf(db', op, t) ensures IsLive(db', op) {
        assert IsOpOf(db, op, t) && t !in threads;
      }
    }
  }

  /**
   Marking posts and threads keeps the invariant exactly when the marked threads lose all their
   live posts and the other live ones keep their top posts.
   */
  lemma MarkKeepsIff(db: Db, posts: set<int>, threads: set<int>)
    requires Consistent(db)
    ensures Consistent(Mark(db, posts, threads)) <==>
              && (forall id :: IsLive(db, id) && db.posts[id].threadID in threads ==> id in posts)
              && SparesTops(db, posts, threads)
  {
    MarkStrays(db, posts, threads);
    var db' := Mark(db, posts, threads);
    if NoLivePostInDeletedThread(db') {
      forall id | IsLive(db, id) && db.posts[id].threadID in threads ensures id in posts {
        assert !IsStray(db', id);
      }
    }
  }

  lemma DeleteThreadsKeeps(db: Db, threadIDs: set<int>)
    requires Sound(db)
    ensures Keeps(db, DeleteThreads(db, threadIDs))
  {
    MarkStrays(db, PostsOf(db, threadIDs), threadIDs);
  }

  /** Deleting posts one by one, as `Delete` does for replies. */
  lemma DeleteRepliesKeeps(db: Db, ids: set<int>)
    requires Sound(db) && forall id :: id in ids && id in db.posts ==> !db.posts[id].isTopPost
    ensures Keeps(db, Mark(db, ids, {}))
  {
    MarkStrays(db, ids, {});
  }

  // ---------------------------------------------------------------- deleting a selection

  /** Closed under taking, with a top post, every post of its thread. */
  ghost predicate WholeThreads(db: Db, ids: set<int>) {
    forall id, op :: id in db.posts && op in ids && IsOpOf(db, op, db.posts[id].threadID) ==> id in ids
  }

  lemma TopPostSelected(db: Db, selected: set<int>, op: int)
    requires WellFormed(db) && op in Affected(db, selected) && db.posts[op].isTopPost
    ensures op in selected
  {
    assert IsOpOf(db, op, db.posts[op].threadID);
    var q :| q in selected && (q == op || IsOpOf(db, q, db.posts[op].threadID));
    assert q == op;
  }

  /**
   The posts affected by a full delete are the least set that contains the selection and, with any
   top post, all posts of its thread.
   */
  lemma AffectedIsLeast(db: Db, selected: set<int>)
    requires WellFormed(db)
    ensures var ids := Affected(db, selected);
            && (forall id :: id in selected && id in db.posts ==> id in ids)
            && WholeThreads(db, ids)
            && forall s :: WholeThreads(db, s) && (forall id :: id in selected && id in db.posts ==> id in s) ==>
                ids <= s
  {
    var ids := Affected(db, selected);
    forall id, op | id in db.posts && op in ids && IsOpOf(db, op, db.posts[id].threadID) ensures id in ids {
      TopPostSelected(db, selected, op);
    }
    forall s | WholeThreads(db, s) && (forall id :: id in selected && id in db.posts ==> id in s) ensures ids <= s {
      forall id | id in ids ensures id in s {
        if id !in selected {
          var op :| op in selected && IsOpOf(db, op, db.posts[id].threadID);
        }
      }
    }
  }

  /** Marking them deletes exactly those posts, and exactly the threads whose top post is selected. */
  lemma DeleteSelectedExactly(db: Db, selected: set<int>)
    requires WellFormed(db)
    ensures var db' := DeleteSelected(db, selected);
            && db'.posts.Keys == db.posts.Keys && db'.threads.Keys == db.threads.Keys
            && (forall id :: id in db.posts ==>
                  db'.posts[id] == if id in Affected(db, selected)
                      then db.posts[id].(isDeleted := true) else db.posts[id])
            && (forall t, op :: t in db.threads && IsOpOf(db, op, t) ==>
                  db'.threads[t] == if op in selected then db.threads[t].(isDeleted := true) else db.threads[t])
  {
    var ids := Affected(db, selected);
    forall t, op | t in db.threads && IsOpOf(db, op, t)
      ensures t in ThreadsOfTopPosts(db, ids) <==> op in selected
    {
      if op in ids {
        TopPostSelected(db, selected, op);
      }
      if t in ThreadsOfTopPosts(db, ids) {
        var id :| id in ids && id in db.posts && db.posts[id].isTopPost && db.posts[id].threadID == t;
        assert IsOpOf(db, id, t);
        assert id == op;
      }
    }
  }

  lemma DeleteSelectedKeeps(db: Db, selected: set<int>)
    requires Sound(db)
    ensures Keeps(db, DeleteSelected(db, selected))
  {
    var ids := Affected(db, selected);
    var threads := ThreadsOfTopPosts(db, ids);
    AffectedIsLeast(db, selected);
    MarkStrays(db, ids, threads);
    forall id | IsLive(db, id) && db.posts[id].threadID in threads ensures id in ids {
      var op :| op in ids && op in db.posts && db.posts[op].isTopPost && db.posts[op].threadID == db.posts[id].threadID;
      assert IsOpOf(db, op, db.posts[id].threadID);
    }
  }

  /**
   The ids are selected before the transaction that marks them, so other requests may come in
   between. Marking them then keeps the invariant exactly when no thread of a top post among them
   has a live post that is not.
   */
  lemma MarkIdsKeepsIff(db: Db, ids: set<int>)
    requires Consistent(db)
    ensures Consistent(MarkIds(db, ids)) <==>
              forall id :: IsLive(db, id) && db.posts[id].threadID in ThreadsOfTopPosts(db, ids) ==> id in ids
  {
    var threads := ThreadsOfTopPosts(db, ids);
    MarkKeepsIff(db, ids, threads);
    assert forall op, t :: op in ids && IsOpOf(db, op, t) ==> t in threads;
  }

  /** With one reply in between, exactly when the reply is not to a thread whose top post is selected. */
  lemma ReplyDuringDelete(db: Db, selected: set<int>, threadID: int)
    requires Consistent(db) && threadID in db.threads && !db.threads[threadID].isDeleted
    ensures Consistent(MarkIds(AddReply(db, threadID), Affected(db, selected))) <==>
              !exists op :: op in selected && IsOpOf(db, op, threadID)
  {
    var db1, ids := AddReply(db, threadID), Affected(db, selected);
    var threads := ThreadsOfTopPosts(db1, ids);
    ReplyKeepsIff(db, threadID);
    MarkIdsKeepsIff(db1, ids);
    if op :| op in selected && IsOpOf(db, op, threadID) {
      assert op in ids && db1.posts[op].threadID in threads;
      assert IsLive(db1, db.nextPost);
    } else {
      forall id | IsLive(db1, id) && db1.posts[id].threadID in threads ensures id in ids {
        var op :| op in ids && op in db1.posts && db1.posts[op].isTopPost
            && db1.posts[op].threadID == db1.posts[id].threadID;
        TopPostSelected(db, selected, op);
        assert IsOpOf(db, op, db1.posts[id].threadID);
      }
    }
  }

  // ---------------------------------------------------------------- purging

  /**
   Purging removes exactly the posts marked as deleted, and leaves no post without a thread row,
   with or without foreign keys, exactly when no deleted thread has a live post.
   */
  lemma PurgeIsCleanIff(db: Db)
    requires WellFormed(db)
    ensures (forall id :: id in db.posts ==> (id in Purge(db, true).posts <==> !db.posts[id].isDeleted)) <==>
            NoLivePostInDeletedThread(db)
    ensures (forall id :: id in Purge(db, false).posts ==> db.posts[id].threadID in Purge(db, false).threads) <==>
            NoLivePostInDeletedThread(db)
  {
    if forall id :: id in db.posts ==> (id in Purge(db, true).posts <==> !db.posts[id].isDeleted) {
      forall id | IsLive(db, id) ensures !db.threads[db.posts[id].threadID].isDeleted {
        assert id in Purge(db, true).posts;
      }
    }
    if forall id :: id in Purge(db, false).posts ==> db.posts[id].threadID in Purge(db, false).threads {
      forall id | IsLive(db, id) ensures !db.threads[db.posts[id].threadID].isDeleted {
        assert id in Purge(db, false).posts;
      }
    }
  }

  /** Where foreign keys are enforced a purge restores the invariant; without stray posts they make no difference. */
  lemma PurgeKeeps(db: Db, enforced: bool)
    requires Sound(db) && (enforced || NoLivePostInDeletedThread(db))
    ensures Consistent(Purge(db, enforced))
    ensures NoLivePostInDeletedThread(db) ==> Purge(db, true) == Purge(db, false)
  {
    var db' := Purge(db, enforced);
    forall id | id in db'.posts ensures db'.posts[id].threadID in db'.threads {
      assert IsLive(db, id) && !IsStray(db, id);
    }
    forall t | t in db'.threads ensures exists op :: IsOpOf(db', op, t) {
      var op :| IsOpOf(db, op, t);
      assert IsLive(db, op) && !IsStray(db, op);
      assert IsOpOf(db', op, t);
    }
    assert forall op, t :: IsOpOf(db', op, t) ==> IsOpOf(db, op, t);
  }

  // ---------------------------------------------------------------- pruning

  /**
   After pruning to `max` threads, the unstickied live threads of the board are the ones not
   pruned, `min(max, previous)` of them, each bumped no earlier than any pruned one; exactly the
   posts of the pruned threads become deleted, and nothing else changes.
   */
  lemma OldThreadsPruned(db: Db, boardID: int, max: nat, pruned: set<int>)
    requires WellFormed(db) && IsExcess(db, boardID, max, pruned)
    ensures var db' := DeleteThreads(db, pruned);
            var before, after := Prunable(db, boardID), Prunable(db', boardID);
            && pruned <= before && after == before - pruned
            && |after| == (if |before| < max then |before| else max)
            && (forall k, p :: k in after && p in pruned ==> db'.threads[k].lastBump >= db.threads[p].lastBump)
            && (forall t :: t in db.threads ==>
                  db'.threads[t] == if t in pruned then db.threads[t].(isDeleted := true) else db.threads[t])
            && (forall id :: id in db.posts ==>
                  db'.posts[id] == if db.posts[id].threadID in pruned then db.posts[id].(isDeleted := true)
                                   else db.posts[id])
            && db'.posts.Keys == db.posts.Keys && db'.threads.Keys == db.threads.Keys
  {
    DeleteThreadsExactly(db, pruned);
    assert Prunable(DeleteThreads(db, pruned), boardID) == Prunable(db, boardID) - pruned;
  }

  /** A thread bumped later than all others of its board is not among those pruned. */
  lemma BumpedIsKept(db: Db, threadID: int, now: int, boardID: int, max: nat, pruned: set<int>)
    requires WellFormed(db) && max >= 1
    requires forall t :: t in Prunable(db, boardID) && t != threadID ==> db.threads[t].lastBump < now
    requires IsExcess(Replied(db, threadID, true, now), boardID, max, pruned)
    ensures threadID !in pruned
  {
    var db' := Replied(db, threadID, true, now);
    RepliedExactly(db, threadID, true, now);
    var live := Prunable(db', boardID);
    if threadID in live {
      assert live != {};
      var k := Element(live - pruned);
      assert k != threadID ==> k in Prunable(db, boardID) && db'.threads[k].lastBump < now;
    }
  }

  lemma HighestIsKept(ids: set<int>, max: nat, pruned: set<int>, x: int)
    requires IsLowest(ids, max, pruned) && max >= 1
    requires x in ids && forall id :: id in ids ==> id <= x
    ensures x !in pruned
  {
    assert ids != {};
    var k := Element(ids - pruned);
    assert k <= x;
  }

  /**
   After a reply to a cyclic thread and the pruning to `max` that follows it, `min(count, max)`
   live replies remain, the highest-numbered ones, and the new reply is among them; no other
   post, in particular no top post, changes. The invariant is kept unless the thread was deleted.
   */
  lemma CyclicReply(db: Db, threadID: int, bumpThread: bool, now: int, max: nat, pruned: set<int>)
    requires Consistent(db) && threadID in db.threads && max >= 1
    requires IsLowest(LiveReplies(Replied(db, threadID, bumpThread, now), threadID), max, pruned)
    ensures var db1 := Replied(db, threadID, bumpThread, now);
            var db' := Mark(db1, pruned, {});
            var before, after := LiveReplies(db1, threadID), LiveReplies(db', threadID);
            && before == LiveReplies(db, threadID) + {db.nextPost}
            && after == before - pruned && |after| == (if |before| < max then |before| else max)
            && db.nextPost in after
            && (forall k, p :: k in after && p in before - after ==> p < k)
            && (forall id :: id in db.posts && id !in before ==> db'.posts[id] == db.posts[id])
            && db'.threads == db1.threads
            && (Consistent(db') <==> !db.threads[threadID].isDeleted)
  {
    var db1 := Replied(db, threadID, bumpThread, now);
    ReplyAdds(db, threadID, bumpThread, now);
    LiveRepliesMarked(db1, threadID, pruned);
    HighestIsKept(LiveReplies(db1, threadID), max, pruned, db.nextPost);
    DeleteRepliesKeeps(db1, pruned);
    MarkStrays(db1, pruned, {});
    if db.threads[threadID].isDeleted {
      assert IsStray(Mark(db1, pruned, {}), db.nextPost);
    }
  }

  lemma ReplyAdds(db: Db, threadID: int, bumpThread: bool, now: int)
    requires Consistent(db) && threadID in db.threads
    ensures var db1 := Replied(db, threadID, bumpThread, now);
            && Sound(db1) && LiveReplies(db1, threadID) == LiveReplies(db, threadID) + {db.nextPost}
            && db1.posts == db.posts[db.nextPost := Post(threadID, false, false)]
            && (forall id :: IsStray(db1, id) <==> id == db.nextPost && db.threads[threadID].isDeleted)
  {
    ReplyStrays(db, threadID);
    BumpKeeps(AddReply(db, threadID), threadID, now);
    var db1 := Replied(db, threadID, bumpThread, now);
    assert LiveReplies(db1, threadID) == LiveReplies(db, threadID) + {db.nextPost};
  }

  lemma LiveRepliesMarked(db: Db, threadID: int, ids: set<int>)
    ensures LiveReplies(Mark(db, ids, {}), threadID) == LiveReplies(db, threadID) - ids
    ensures Mark(db, ids, {}).threads == db.threads
  {
  }

  // ---------------------------------------------------------------- runs

  datatype Action =
    | NewThread(thread: Thread)
    | Reply(threadID: int)
    | BumpThread(threadID: int, now: int)
    | ChangeAttribute(threadID: int, attribute: string, value: bool)
    | MoveThread(threadID: int, boardID: int)
    | DeletePosts(selected: set<int>)
    | DeleteThread(threadID: int)
    | DeleteReply(id: int)
    | PruneOld(boardID: int, max: nat, pruned: set<int>)
    | PruneCyclic(threadID: int, max: nat, pruned: set<int>)
    | Cleanup(enforced: bool)

  /** Replies go to threads there are; prunings prune what the queries select. */
  ghost predicate Possible(db: Db, action: Action) {
    match action
    case NewThread(thread) => !thread.isDeleted
    case Reply(threadID) => threadID in db.threads
    case DeleteReply(id) => id in db.posts ==> !db.posts[id].isTopPost
    case PruneOld(boardID, max, pruned) => IsExcess(db, boardID, max, pruned)
    case PruneCyclic(threadID, max, pruned) => IsLowest(LiveReplies(db, threadID), max, pruned)
    case _ => true
  }

  function Do(db: Db, action: Action): Db {
    match action
    case NewThread(thread) => AddThread(db, thread)
    case Reply(threadID) => AddReply(db, threadID)
    case BumpThread(threadID, now) => Bump(db, threadID, now)
    case ChangeAttribute(threadID, attribute, value) => SetAttribute(db, threadID, attribute, value)
    case MoveThread(threadID, boardID) => MoveTo(db, threadID, boardID)
    case DeletePosts(selected) => DeleteSelected(db, selected)
    case DeleteThread(threadID) => DeleteThreads(db, {threadID})
    case DeleteReply(id) => Mark(db, {id}, {})
    case PruneOld(_, _, pruned) => DeleteThreads(db, pruned)
    case PruneCyclic(_, _, pruned) => Mark(db, pruned, {})
    case Cleanup(enforced) => Purge(db, enforced)
  }

  const EMPTY: Db := Db(map[], map[], 1, 1)

  /** The tables after a sequence of actions, each possible when its turn came. */
  ghost function AfterRun(actions: seq<Action>): Option<Db> {
    if |actions| == 0 then Some(EMPTY)
    else
      var last := |actions| - 1;
      var db := AfterRun(actions[..last]);
      if db.Some? && Possible(db.value, actions[last]) then Some(Do(db.value, actions[last])) else None
  }

  /** A reply to a thread that is deleted already. */
  predicate IsLate(db: Db, action: Action) {
    action.Reply? && action.threadID in db.threads && db.threads[action.threadID].isDeleted
  }

  /** Only a late reply adds a stray post, namely itself. */
  lemma ActionKeeps(db: Db, action: Action)
    requires Sound(db) && Possible(db, action)
    requires action == Cleanup(false) ==> NoLivePostInDeletedThread(db)
    ensures Sound(Do(db, action))
    ensures forall id :: IsStray(Do(db, action), id) ==> IsStray(db, id) || (IsLate(db, action) && id == db.nextPost)
  {
    match action
    case NewThread(thread) => AddThreadKeeps(db, thread);
    case Reply(threadID) => ReplyStrays(db, threadID);
    case BumpThread(threadID, now) => BumpKeeps(db, threadID, now);
    case ChangeAttribute(threadID, attribute, value) => AttributeKeeps(db, threadID, attribute, value);
    case MoveThread(threadID, boardID) => MoveKeeps(db, threadID, boardID);
    case DeletePosts(selected) => DeleteSelectedKeeps(db, selected);
    case DeleteThread(threadID) => DeleteThreadsKeeps(db, {threadID});
    case DeleteReply(id) => DeleteRepliesKeeps(db, {id});
    case PruneOld(_, _, pruned) => DeleteThreadsKeeps(db, pruned);
    case PruneCyclic(_, _, pruned) => DeleteRepliesKeeps(db, pruned);
    case Cleanup(enforced) => PurgeKeeps(db, enforced);
  }

  lemma AttributeKeeps(db: Db, threadID: int, attribute: string, value: bool)
    requires Sound(db)
    ensures Keeps(db, SetAttribute(db, threadID, attribute, value))
  {
    if threadID in db.threads {
      RowChangeKeeps(db, threadID, WithAttribute(db.threads[threadID], attribute, value));
    }
  }

  lemma MoveKeeps(db: Db, threadID: int, boardID: int)
    requires Sound(db)
    ensures Keeps(db, MoveTo(db, threadID, boardID))
  {
    if threadID in db.threads {
      RowChangeKeeps(db, threadID, db.threads[threadID].(boardID := boardID));
    }
  }

  /** The action at `i` is a reply to a thread that was deleted by then. */
  ghost predicate LateAt(actions: seq<Action>, i: nat)
    requires i < |actions|
  {
    AfterRun(actions[..i]).Some? && IsLate(AfterRun(actions[..i]).value, actions[i])
  }

  /** `id` is the post of a late reply in the run. */
  ghost predicate PostedLate(actions: seq<Action>, id: int) {
    exists i :: 0 <= i < |actions| && LateAt(actions, i) && id == AfterRun(actions[..i]).value.nextPost
  }

  lemma EmptyConsistent()
    ensures Consistent(EMPTY)
  {
    assert forall op, t :: !IsOpOf(EMPTY, op, t);
  }

  /**
   In every state any run without late replies reaches, a deleted thread has no live post and a
   live thread has a live top post; so a cleanup at any time removes no live post and leaves no
   post without its thread.
   */
  lemma {:induction false} RunsStayConsistent(actions: seq<Action>)
    requires AfterRun(actions).Some? && forall i :: 0 <= i < |actions| ==> !LateAt(actions, i)
    ensures var db := AfterRun(actions).value;
            && Consistent(db)
            && forall enforced, id :: IsLive(db, id) ==>
                 id in Purge(db, enforced).posts && db.posts[id].threadID in Purge(db, enforced).threads
  {
    if |actions| == 0 {
      EmptyConsistent();
    } else {
      var last := |actions| - 1;
      var before := actions[..last];
      forall i | 0 <= i < last ensures !LateAt(before, i) {
        assert before[..i] == actions[..i];
        assert !LateAt(actions, i);
      }
      RunsStayConsistent(before);
      assert !LateAt(actions, last);
      ActionKeeps(AfterRun(before).value, actions[last]);
    }
    var db := AfterRun(actions).value;
    forall enforced, id | IsLive(db, id)
      ensures id in Purge(db, enforced).posts && db.posts[id].threadID in Purge(db, enforced).threads
    {
      assert !IsStray(db, id);
    }
  }

  /**
   With late replies, where foreign keys are enforced, live threads still have live top posts, and
   every live post of a deleted thread, which a cleanup would remove, is a late reply.
   */
  lemma {:induction false} OnlyLateRepliesStray(actions: seq<Action>)
    requires AfterRun(actions).Some? && Cleanup(false) !in actions
    ensures var db := AfterRun(actions).value;
            && Sound(db)
            && (forall id :: IsStray(db, id) ==> PostedLate(actions, id))
            && (forall id :: IsLive(db, id) && !PostedLate(actions, id) ==> id in Purge(db, true).posts)
  {
    if |actions| == 0 {
      EmptyConsistent();
    } else {
      var last := |actions| - 1;
      var before := actions[..last];
      OnlyLateRepliesStray(before);
      var db, db' := AfterRun(before).value, AfterRun(actions).value;
      ActionKeeps(db, actions[last]);
      forall id | IsStray(db', id) ensures PostedLate(actions, id) {
        if IsStray(db, id) {
          var i :| 0 <= i < last && LateAt(before, i) && id == AfterRun(before[..i]).value.nextPost;
          assert before[..i] == actions[..i];
          assert LateAt(actions, i);
        } else {
          assert LateAt(actions, last);
        }
      }
    }
  }

  /** A reply to a thread deleted but not yet purged is itself lost by the next cleanup. */
  lemma ReplyToDeletedThread(thread: Thread)
    requires !thread.isDeleted
    ensures var db := AddReply(DeleteThreads(AddThread(EMPTY, thread), {1}), 1);
            && AfterRun([NewThread(thread), DeleteThread(1)]) == Some(DeleteThreads(AddThread(EMPTY, thread), {1}))
            && IsLive(db, 2) && !NoLivePostInDeletedThread(db)
            && 2 !in Purge(db, true).posts
            && 2 in Purge(db, false).posts && 1 !in Purge(db, false).threads
  {
    var actions := [NewThread(thread), DeleteThread(1)];
    assert actions[..1] == [NewThread(thread)] && actions[..1][..0] == [];
    assert AfterRun([]) == Some(EMPTY);
    assert AfterRun(actions[..1]) == Some(AddThread(EMPTY, thread));
    var db := AddReply(DeleteThreads(AddThread(EMPTY, thread), {1}), 1);
    assert db.threads[1].isDeleted && db.posts[2] == Post(1, false, false);
    assert IsStray(db, 2);
  }
}
