/**
 The database operations step by step, as methods over the tables: pkg/gcsql/posts.go,
 pkg/gcsql/threads.go, pkg/gcsql/boards.go, cmd/gochan/deleteposts.go and the posting part of
 pkg/posting/post.go.
 */
module Database {
  import opened Wrappers
  import opened Sets
  import opened Tables
  import opened Lifecycle

  /**
   How a call is made: without options, so that it runs and commits its own transaction; within a
   transaction of the caller; or with options that hold no transaction, in which case it begins
   one, never commits it, and the deferred rollback undoes it.
   */
  datatype TxMode = Own | Given | OptionsOnly

  datatype Error =
    | PostAlreadySent
    | BoardIsLocked
    | ThreadLocked
    | ThreadDoesNotExist
    | NoSuchThreadRow    // the query for the thread's row finds nothing, or its foreign key fails
    | InvalidAttribute
    | NoRowsPanic        // the first row of an empty result is indexed
    | NotAttached        // the upload of a new post cannot be attached
    | BoardDoesNotExist

  /** The rows of a query without an order: each id once. */
  ghost predicate Lists(rows: seq<int>, ids: set<int>) {
    && (forall i :: 0 <= i < |rows| ==> rows[i] in ids)
    && (forall id :: id in ids ==> id in rows)
    && (forall i, j :: 0 <= i < j < |rows| ==> rows[i] != rows[j])
  }

  method Select(ids: set<int>) returns (rows: seq<int>)
    ensures Lists(rows, ids)
  {
    rows := [];
    var rest := ids;
    while rest != {}
      invariant rest <= ids && Lists(rows, ids - rest)
      decreases rest
    {
      ghost var some := Element(rest);
      var id :| id in rest;
      rows, rest := rows + [id], rest - {id};
    }
    assert ids - rest == ids;
  }

  /** `ORDER BY key`, ascending; ties come in any order. */
  method SelectOrdered(ids: set<int>, key: map<int, int>) returns (rows: seq<int>)
    requires ids <= key.Keys
    ensures Lists(rows, ids)
    ensures forall i, j :: 0 <= i < j < |rows| ==> key[rows[i]] <= key[rows[j]]
  {
    rows := [];
    var rest := ids;
    while rest != {}
      invariant rest <= ids && Lists(rows, ids - rest)
      invariant forall i, j :: 0 <= i < j < |rows| ==> key[rows[i]] <= key[rows[j]]
      invariant forall i, id :: 0 <= i < |rows| && id in rest ==> key[rows[i]] <= key[id]
      decreases rest
    {
      LeastExists(rest, key);
      var id :| id in rest && forall other :: other in rest ==> key[id] <= key[other];
      rows, rest := rows + [id], rest - {id};
    }
    assert ids - rest == ids;
  }

  lemma {:induction false} LeastExists(ids: set<int>, key: map<int, int>)
    requires ids != {} && ids <= key.Keys
    ensures exists id :: id in ids && forall other :: other in ids ==> key[id] <= key[other]
  {
    var x := Element(ids);
    if ids != {x} {
      assert ids - {x} != {};
      LeastExists(ids - {x}, key);
      var y :| y in ids - {x} && forall other :: other in ids - {x} ==> key[y] <= key[other];
      var least := if key[x] <= key[y] then x else y;
      assert least in ids && forall other :: other in ids ==> key[least] <= key[other];
    }
  }

  lemma {:induction false} ListsSize(rows: seq<int>, ids: set<int>)
    requires Lists(rows, ids)
    ensures |rows| == |ids|
  {
    if |rows| == 0 {
      assert forall id :: id !in ids;
      assert ids == {};
    } else {
      var last := rows[|rows| - 1];
      forall id | id in ids - {last} ensures id in rows[..|rows| - 1] {
        var i :| 0 <= i < |rows| && rows[i] == id;
        assert rows[..|rows| - 1][i] == id;
      }
      ListsSize(rows[..|rows| - 1], ids - {last});
      assert last in ids;
    }
  }

  /** `SELECT MAX(id)` */
  method MaxId(ids: set<int>, ghost top: int) returns (id: int)
    requires top in ids && forall other :: other in ids ==> other <= top
    ensures id == top
  {
    assert exists x :: x in ids && forall other :: other in ids ==> other <= x;
    id :| id in ids && forall other :: other in ids ==> other <= id;
  }

  function Elements(rows: seq<int>): set<int> {
    set i | 0 <= i < |rows| :: rows[i]
  }

  lemma ListsElements(rows: seq<int>, ids: set<int>)
    requires Lists(rows, ids)
    ensures Elements(rows) == ids
  {
    forall id | id in ids ensures id in Elements(rows) {
      var i :| 0 <= i < |rows| && rows[i] == id;
    }
  }

  /** The rows from position `n` on are those that remain when the first `n` are kept. */
  lemma ListsSplit(rows: seq<int>, ids: set<int>, n: nat)
    requires Lists(rows, ids) && n <= |rows|
    ensures var rest := Elements(rows[n..]);
            && Lists(rows[n..], rest) && Lists(rows[..n], ids - rest)
            && rest <= ids && |ids - rest| == n && |ids| == |rows|
  {
    var rest := Elements(rows[n..]);
    forall j | n <= j < |rows| ensures rows[j] in rest {
      assert rows[j] == rows[n..][j - n];
    }
    forall id | id in ids - rest ensures id in rows[..n] {
      var i :| 0 <= i < |rows| && rows[i] == id;
      assert i < n ==> rows[..n][i] == id;
    }
    forall i | 0 <= i < n ensures rows[..n][i] in ids - rest {
      assert forall j :: n <= j < |rows| ==> rows[j] != rows[i];
    }
    ListsSize(rows[..n], ids - rest);
    ListsSize(rows, ids);
  }

  /** Where two rows stand when a list is cut at `n`. */
  lemma CutPositions(rows: seq<int>, n: nat, first: int, second: int) returns (i: nat, j: nat)
    requires n <= |rows| && first in Elements(rows[..n]) && second in Elements(rows[n..])
    ensures i < n <= j < |rows| && rows[i] == first && rows[j] == second
  {
    i :| 0 <= i < n && rows[..n][i] == first;
    var k :| 0 <= k < |rows| - n && rows[n..][k] == second;
    j := n + k;
  }

  /** In an order by last bump, what comes after the first `max` threads is a choice of the excess. */
  lemma ExcessOfRows(db: Db, boardID: int, rows: seq<int>, max: nat, beyond: seq<int>)
    requires Lists(rows, Prunable(db, boardID))
    requires forall i, j :: 0 <= i < j < |rows| ==> db.threads[rows[i]].lastBump >= db.threads[rows[j]].lastBump
    requires beyond == if |rows| <= max then [] else rows[max..]
    ensures IsExcess(db, boardID, max, Elements(beyond))
  {
    var live := Prunable(db, boardID);
    var n := if |rows| <= max then |rows| else max;
    assert beyond == rows[n..];
    ListsSplit(rows, live, n);
    ListsElements(rows[..n], live - Elements(beyond));
    forall p, k | p in Elements(beyond) && k in live - Elements(beyond)
      ensures db.threads[k].lastBump >= db.threads[p].lastBump
    {
      var i, j := CutPositions(rows, n, k, p);
    }
  }

  /** In ascending order, what comes before the last `max` ids are the lowest ones. */
  lemma LowestOfRows(rows: seq<int>, ids: set<int>, max: nat)
    requires Lists(rows, ids) && max <= |rows|
    requires forall i, j :: 0 <= i < j < |rows| ==> rows[i] <= rows[j]
    ensures Lists(rows[..|rows| - max], Elements(rows[..|rows| - max]))
    ensures IsLowest(ids, max, Elements(rows[..|rows| - max]))
  {
    var n := |rows| - max;
    ListsSplit(rows, ids, n);
    var low, high := Elements(rows[..n]), Elements(rows[n..]);
    ListsElements(rows[..n], ids - high);
    assert ids - low == high;
    ListsSize(rows[n..], high);
    forall p, k | p in low && k in high ensures p < k {
      var i, j := CutPositions(rows, n, p, k);
    }
  }

  class Database {
    var posts: PostTable
    var threads: ThreadTable
    var nextPost: int
    var nextThread: int

    ghost function Value(): Db
      reads this
    {
      Db(posts, threads, nextPost, nextThread)
    }

    constructor ()
      ensures Value() == EMPTY
    {
      posts, threads := map[], map[];
      nextPost, nextThread := 1, 1;
    }

    /** `INSERT INTO threads`; the last bump is the time by default, and the id is read back as the greatest one. */
    method CreateThread(thread: Thread, lockdown: bool, now: int) returns (r: Result<int, Error>)
      requires WellFormed(Value())
      modifies `threads, `nextThread
      ensures lockdown ==> r == Failure(BoardIsLocked) && Value() == old(Value())
      ensures !lockdown ==>
                && r == Success(old(nextThread)) && nextThread == old(nextThread) + 1
                && threads == old(threads)[old(nextThread) := thread.(lastBump := now, isDeleted := false)]
    {
      if lockdown {
        return Failure(BoardIsLocked);
      }
      threads := threads[nextThread := thread.(lastBump := now, isDeleted := false)];
      nextThread := nextThread + 1;
      var id := MaxId(threads.Keys, nextThread - 1);
      return Success(id);
    }

    /**
     `Post.Insert`, for a post with the given `id`, `threadID` and `isTopPost` fields, at time
     `now`. It returns the ids the post and its thread have afterwards. For a thread that does not
     exist a forced call gets as far as the foreign key, where the driver enforces it.
     */
    method Insert(id: int, threadID: int, isTopPost: bool, bumpThread: bool, thread: Thread, force: bool,
                  lockdown: bool, enforced: bool, mode: TxMode, now: int) returns (r: Result<(int, int), Error>)
      requires WellFormed(Value())
      modifies this
      ensures r.Failure? ==> Value() == old(Value())
      ensures id > 0 ==> r == Failure(PostAlreadySent)
      ensures id <= 0 && threadID == 0 ==>
                var withThread := AddThread(old(Value()), thread.(lastBump := now, isDeleted := false));
                if lockdown then r == Failure(BoardIsLocked)
                else
                  && r == Success((old(nextPost), old(nextThread)))
                  && Value() == (if mode.OptionsOnly? then old(Value())
                                 else if bumpThread then Bump(withThread, old(nextThread), now) else withThread)
      ensures id <= 0 && threadID != 0 ==>
                var replied := AddPost(old(Value()), threadID, isTopPost);
                if threadID !in old(threads) && (!force || enforced) then r == Failure(NoSuchThreadRow)
                else if !force && old(threads)[threadID].locked then r == Failure(ThreadLocked)
                else
                  && r == Success((old(nextPost), threadID))
                  && Value() == (if mode.OptionsOnly? then old(Value())
                                 else if bumpThread then Bump(replied, threadID, now) else replied)
      ensures r.Success? && !mode.OptionsOnly? ==>
                var (p, t) := r.value;
                && p !in old(posts) && posts == old(posts)[p := Post(t, threadID == 0 || isTopPost, false)]
                && t == (if threadID == 0 then old(nextThread) else threadID)
                && threads.Keys == old(threads).Keys + (if threadID == 0 then {t} else {})
                && (forall u :: u in old(threads) && u != t ==> threads[u] == old(threads)[u])
                && (threadID == 0 ==> threads[t] == thread.(lastBump := now, isDeleted := false))
                && (threadID != 0 && t in threads ==>
                      threads[t] == if bumpThread then old(threads)[t].(lastBump := now) else old(threads)[t])
    {
      var before := (posts, threads, nextPost, nextThread);
      if id > 0 {
        return Failure(PostAlreadySent);
      }
      var threadID, isTopPost := threadID, isTopPost;
      if threadID == 0 {
        isTopPost := true;
        var created := CreateThread(thread, lockdown, now);
        if created.Failure? {
          return Failure(created.error);
        }
        threadID := created.value;
      } else {
        if !force {
          if threadID !in threads {
            return Failure(NoSuchThreadRow);
          }
          if threads[threadID].locked {
            return Failure(ThreadLocked);
          }
        }
      }
      if threadID !in threads && enforced {
        return Failure(NoSuchThreadRow);
      }
      var postID := InsertRow(threadID, isTopPost, bumpThread, now);
      if mode.OptionsOnly? {
        posts, threads, nextPost, nextThread := before.0, before.1, before.2, before.3;
      }
      return Success((postID, threadID));
    }

    /** The statements of `Insert` once the thread is known: the row, its id, the bump. */
    method InsertRow(threadID: int, isTopPost: bool, bumpThread: bool, now: int) returns (id: int)
      requires forall p :: p in posts ==> p < nextPost
      modifies `posts, `nextPost, `threads
      ensures id == old(nextPost)
      ensures var added := AddPost(old(Value()), threadID, isTopPost);
              Value() == if bumpThread then Bump(added, threadID, now) else added
      ensures posts == old(posts)[id := Post(threadID, isTopPost, false)]
      ensures threads == if bumpThread && threadID in old(threads)
                         then old(threads)[threadID := old(threads)[threadID].(lastBump := now)] else old(threads)
    {
      posts := posts[nextPost := Post(threadID, isTopPost, false)];
      nextPost := nextPost + 1;
      id := MaxId(posts.Keys, nextPost - 1);
      if bumpThread && threadID in threads {
        threads := threads[threadID := threads[threadID].(lastBump := now)];
      }
    }

    /** `deleteThread` */
    method DeleteThread(threadID: int) returns (r: Result<(), Error>)
      modifies `posts, `threads
      ensures PostsOf(old(Value()), {threadID}) == {} ==> r == Failure(ThreadDoesNotExist) && Value() == old(Value())
      ensures PostsOf(old(Value()), {threadID}) != {} ==>
                r == Success(()) && Value() == DeleteThreads(old(Value()), {threadID})
    {
      var inThread := set id | id in posts && posts[id].threadID == threadID;
      assert inThread == PostsOf(Value(), {threadID});
      if |inThread| == 0 {
        return Failure(ThreadDoesNotExist);
      }
      posts := MarkPosts(posts, inThread);
      threads := MarkThreads(threads, {threadID});
      return Success(());
    }

    /**
     `Post.Delete`. For a top post it returns before its own commit, so unless the caller holds
     the transaction the deletion is rolled back although no error is returned.
     */
    method Delete(id: int, threadID: int, isTopPost: bool, mode: TxMode) returns (r: Result<(), Error>)
      modifies `posts, `threads
      ensures isTopPost && PostsOf(old(Value()), {threadID}) == {} ==>
          r == Failure(ThreadDoesNotExist) && Value() == old(Value())
      ensures isTopPost && PostsOf(old(Value()), {threadID}) != {} ==>
                && r == Success(())
                && Value() == (if mode.Given? then DeleteThreads(old(Value()), {threadID}) else old(Value()))
      ensures !isTopPost ==>
                r == Success(()) && Value() == (if mode.OptionsOnly? then old(Value())
                                                   else Mark(old(Value()), {id}, {}))
    {
      var before := (posts, threads);
      if isTopPost {
        r := DeleteThread(threadID);
        if !mode.Given? {
          posts, threads := before.0, before.1;
        }
        return;
      }
      posts := MarkPosts(posts, {id});
      if mode.OptionsOnly? {
        posts := before.0;
      }
      assert threads == MarkThreads(old(threads), {});
      return Success(());
    }

    /**
     `getAllPostsToDelete`. The view for `fileOnly` tests for a missing file name that it has replaced
     by the empty one, so it selects every post.
     */
    method GetAllPostsToDelete(postIDs: seq<int>, fileOnly: bool) returns (rows: seq<int>)
      ensures Lists(rows, if fileOnly then Elements(postIDs) * RowsOfView() else Affected(Value(), Elements(postIDs)))
    {
      assert forall p :: p in postIDs <==> p in Elements(postIDs);
      var view := set id | id in posts && posts[id].threadID in threads;
      if fileOnly {
        var selected := set id | id in view && id in postIDs;
        assert selected == Elements(postIDs) * RowsOfView();
        rows := Select(selected);
        return;
      }
      var matching := set id | id in view && (id in postIDs || HasTopPostIn(postIDs, posts[id].threadID));
      assert forall id :: id in view ==>
        (IsAffected(Value(), Elements(postIDs), id) <==> id in postIDs || HasTopPostIn(postIDs, posts[id].threadID));
      assert matching == Affected(Value(), Elements(postIDs));
      rows := Select(matching);
    }

    /** The posts in the view of posts to delete, which joins them with their threads. */
    ghost function RowsOfView(): set<int>
      reads this
    {
      set id | id in posts && posts[id].threadID in threads
    }

    predicate HasTopPostIn(postIDs: seq<int>, threadID: int)
      reads `posts
    {
      exists op :: op in postIDs && op in posts && posts[op].isTopPost && posts[op].threadID == threadID
    }

    /** `markPostsAsDeleted` */
    method MarkPostsAsDeleted(ids: seq<int>)
      modifies `posts, `threads
      ensures Value() == MarkIds(old(Value()), Elements(ids))
    {
      posts := MarkPosts(posts, Elements(ids));
      var tops := set id | id in Elements(ids) && id in posts && posts[id].isTopPost :: posts[id].threadID;
      assert tops == ThreadsOfTopPosts(old(Value()), Elements(ids));
      threads := MarkThreads(threads, tops);
    }

    /**
     What `deletePosts` does to the tables; `filesDeleted` says whether `deletePostFiles` succeeded. If
     not, or if only files are to be deleted, no post is marked.
     */
    method DeletePosts(checkedPosts: seq<int>, fileOnly: bool, filesDeleted: bool) returns (ok: bool)
      modifies `posts, `threads
      ensures ok == (checkedPosts != [] && filesDeleted)
      ensures Value() == if ok && !fileOnly then DeleteSelected(old(Value()), Elements(checkedPosts)) else old(Value())
    {
      if |checkedPosts| < 1 {
        return false;
      }
      var affected := GetAllPostsToDelete(checkedPosts, fileOnly);
      if !filesDeleted {
        return false;
      }
      if !fileOnly {
        ListsElements(affected, Affected(Value(), Elements(checkedPosts)));
        MarkPostsAsDeleted(affected);
      }
      return true;
    }

    /** `PermanentlyRemoveDeletedPosts` */
    method PermanentlyRemoveDeletedPosts(enforced: bool)
      modifies `posts, `threads
      ensures Value() == Purge(old(Value()), enforced)
    {
      posts := map id | id in posts && !posts[id].isDeleted :: posts[id];
      var deleted := set t | t in threads && threads[t].isDeleted;
      threads := map t | t in threads && !threads[t].isDeleted :: threads[t];
      if enforced {
        posts := map id | id in posts && posts[id].threadID !in deleted :: posts[id];
      }
    }

    /** `Board.DeleteOldThreads`; the ids returned are those of the posts in the pruned threads. */
    method DeleteOldThreads(boardID: int, maxThreads: int) returns (ids: seq<int>)
      modifies `posts, `threads
      ensures maxThreads < 1 ==> ids == [] && Value() == old(Value())
      ensures maxThreads >= 1 ==>
                exists pruned ::
                  && IsExcess(old(Value()), boardID, maxThreads, pruned)
                  && Value() == DeleteThreads(old(Value()), pruned)
                  && Lists(ids, PostsOf(old(Value()), pruned))
    {
      if maxThreads < 1 {
        return [];
      }
      var rows := SelectByBump(boardID);
      var threadIDs: seq<int> := [];
      var threadsProcessed := 0;
      for i := 0 to |rows|
        invariant threadsProcessed == i
        invariant threadIDs == if i <= maxThreads then [] else rows[maxThreads..i]
      {
        threadsProcessed := threadsProcessed + 1;
        if threadsProcessed <= maxThreads {
          continue;
        }
        threadIDs := threadIDs + [rows[i]];
      }
      ghost var pruned := Elements(threadIDs);
      ExcessOfRows(Value(), boardID, rows, maxThreads, threadIDs);
      if |threadIDs| == 0 {
        assert Value() == DeleteThreads(Value(), pruned);
        assert PostsOf(Value(), pruned) == {};
        return [];
      }
      threads := MarkThreads(threads, Elements(threadIDs));
      var inThreads := set id | id in posts && posts[id].threadID in Elements(threadIDs);
      ids := Select(inThreads);
      assert inThreads == PostsOf(old(Value()), pruned);
      posts := MarkPosts(posts, inThreads);
      assert Value() == DeleteThreads(old(Value()), pruned);
    }

    /** The query of `DeleteOldThreads`, `ORDER BY last_bump DESC`. */
    method SelectByBump(boardID: int) returns (rows: seq<int>)
      ensures Lists(rows, Prunable(Value(), boardID))
      ensures forall i, j :: 0 <= i < j < |rows| ==> threads[rows[i]].lastBump >= threads[rows[j]].lastBump
    {
      var live := set t | t in threads && threads[t].boardID == boardID && !threads[t].isDeleted
          && !threads[t].stickied;
      var key := map t | t in threads :: -threads[t].lastBump;
      assert live == Prunable(Value(), boardID);
      rows := SelectOrdered(live, key);
      forall i, j | 0 <= i < j < |rows| ensures threads[rows[i]].lastBump >= threads[rows[j]].lastBump {
        assert key[rows[i]] <= key[rows[j]];
      }
    }

    /** `CyclicPostsToBePruned`, for a post with the given fields; two board settings are parameters. */
    method CyclicPostsToBePruned(threadID: int, isTopPost: bool, enableCyclicThreads: bool, maxPosts: int)
      returns (r: Result<seq<int>, Error>)
      ensures isTopPost ==> r == Success([])
      ensures !isTopPost && threadID !in threads ==> r == Failure(ThreadDoesNotExist)
      ensures !isTopPost && threadID in threads && !threads[threadID].cyclic ==> r == Success([])
      ensures !isTopPost && threadID in threads && threads[threadID].cyclic ==>
                if LiveReplies(Value(), threadID) == {} then r == Failure(NoRowsPanic)
                else if !enableCyclicThreads || maxPosts < 1 then r == Success([])
                else
                  && r.Success? && Lists(r.value, Elements(r.value))
                  && IsLowest(LiveReplies(Value(), threadID), maxPosts, Elements(r.value))
    {
      if isTopPost {
        return Success([]);
      }
      if threadID !in threads {
        return Failure(ThreadDoesNotExist);
      }
      if !threads[threadID].cyclic {
        return Success([]);
      }
      var live := set id | id in posts && posts[id].threadID == threadID && !posts[id].isTopPost
          && !posts[id].isDeleted;
      assert live == LiveReplies(Value(), threadID);
      var rows := SelectOrdered(live, map id | id in posts :: id);
      if |rows| == 0 {
        assert forall id :: id !in live;
        return Failure(NoRowsPanic);
      }
      assert rows[0] in live;
      if !enableCyclicThreads || maxPosts < 1 {
        return Success([]);
      }
      if |rows| < maxPosts {
        ListsSize(rows, live);
        assert live - Elements([]) == live;
        return Success([]);
      }
      LowestOfRows(rows, live, maxPosts);
      return Success(rows[..|rows| - maxPosts]);
    }

    /** The pruning loop of `MakePost`: each post is deleted by a call of its own. */
    method PrunePosts(toBePruned: seq<int>, threadID: int)
      modifies `posts, `threads
      ensures Value() == Mark(old(Value()), Elements(toBePruned), {})
    {
      assert Value() == Mark(Value(), {}, {});
      for i := 0 to |toBePruned|
        invariant Value() == Mark(old(Value()), Elements(toBePruned[..i]), {})
      {
        var r := Delete(toBePruned[i], threadID, false, Own);
        assert Elements(toBePruned[..i + 1]) == Elements(toBePruned[..i]) + {toBePruned[i]};
      }
      assert toBePruned[..|toBePruned|] == toBePruned;
    }

    /**
     Of `MakePost`: inserting a reply to a thread, attaching its upload, and pruning the thread if it
     is cyclic. When the upload's files cannot be taken over (`owned` is false) the post is deleted
     and an error is served, but the function goes on to the pruning.
     */
    method PostReply(threadID: int, thread: Thread, bumpThread: bool, now: int, enforced: bool, attached: bool,
                     owned: bool, enableCyclicThreads: bool, maxPosts: int)
      returns (r: Result<int, Error>)
      requires WellFormed(Value()) && threadID != 0
      modifies this
      ensures threadID !in old(threads) || old(threads)[threadID].locked ==> r.Failure? && Value() == old(Value())
      ensures threadID in old(threads) && !old(threads)[threadID].locked ==>
                var inserted := Replied(old(Value()), threadID, bumpThread, now);
                var replied := if attached && owned then inserted else Mark(inserted, {old(nextPost)}, {});
                var cyclic := old(threads)[threadID].cyclic;
                var panics := attached && cyclic && LiveReplies(replied, threadID) == {};
                && r == (if !attached then Failure(NotAttached)
                         else if panics then Failure(NoRowsPanic) else Success(old(nextPost)))
                && if attached && !panics && cyclic && enableCyclicThreads && maxPosts >= 1
                   then exists pruned :: IsLowest(LiveReplies(replied, threadID), maxPosts, pruned)
                                         && Value() == Mark(replied, pruned, {})
                   else Value() == replied
    {
      var inserted := Insert(0, threadID, false, bumpThread, thread, false, false, enforced, Own, now);
      if inserted.Failure? {
        return Failure(inserted.error);
      }
      var id := inserted.value.0;
      assert Value() == Replied(old(Value()), threadID, bumpThread, now);
      if !attached || !owned {
        var deleted := Delete(id, threadID, false, Own);
        if !attached {
          return Failure(NotAttached);
        }
      }
      r := PruneCyclic(id, threadID, enableCyclicThreads, maxPosts);
    }

    /** The end of `MakePost` for a reply. */
    method PruneCyclic(id: int, threadID: int, enableCyclicThreads: bool, maxPosts: int) returns (r: Result<int, Error>)
      requires threadID in threads
      modifies `posts, `threads
      ensures var replied, cyclic := old(Value()), old(threads)[threadID].cyclic;
              var panics := cyclic && LiveReplies(replied, threadID) == {};
              && r == (if panics then Failure(NoRowsPanic) else Success(id))
              && if !panics && cyclic && enableCyclicThreads && maxPosts >= 1
                 then exists pruned :: IsLowest(LiveReplies(replied, threadID), maxPosts, pruned)
                                       && Value() == Mark(replied, pruned, {})
                 else Value() == replied
    {
      var toBePruned := CyclicPostsToBePruned(threadID, false, enableCyclicThreads, maxPosts);
      if toBePruned.Failure? {
        return Failure(toBePruned.error);
      }
      PrunePosts(toBePruned.value, threadID);
      assert Elements([]) == {} && Mark(old(Value()), {}, {}) == old(Value());
      return Success(id);
    }

    /** `ChangeThreadBoardID` */
    method ChangeThreadBoardID(threadID: int, newBoardID: int, boardExists: bool) returns (r: Result<(), Error>)
      modifies `threads
      ensures !boardExists ==> r == Failure(BoardDoesNotExist) && Value() == old(Value())
      ensures boardExists ==> r == Success(()) && Value() == MoveTo(old(Value()), threadID, newBoardID)
    {
      if !boardExists {
        return Failure(BoardDoesNotExist);
      }
      if threadID in threads {
        threads := threads[threadID := threads[threadID].(boardID := newBoardID)];
      }
      return Success(());
    }

    /** `Thread.UpdateAttribute` */
    method UpdateAttribute(threadID: int, attribute: string, value: bool) returns (r: Result<(), Error>)
      modifies `threads
      ensures r == if attribute in ATTRIBUTES then Success(()) else Failure(InvalidAttribute)
      ensures Value() == SetAttribute(old(Value()), threadID, attribute, value)
      ensures attribute !in ATTRIBUTES || threadID !in old(threads) ==> Value() == old(Value())
    {
      if attribute !in ATTRIBUTES {
        NoAttribute(Value(), threadID, attribute, value);
        return Failure(InvalidAttribute);
      }
      if threadID in threads {
        var row := threads[threadID];
        if attribute == "locked" {
          row := row.(locked := value);
        } else if attribute == "stickied" {
          row := row.(stickied := value);
        } else if attribute == "anchored" {
          row := row.(anchored := value);
        } else {
          row := row.(cyclic := value);
        }
        threads := threads[threadID := row];
      }
      return Success(());
    }

    /** A request, carried out by the operation it is for: the tables it leaves are those of a longer run. */
    method Serve(request: Request, ghost run: seq<Action>) returns (ghost run': seq<Action>)
      requires WellFormed(Value()) && AfterRun(run) == Some(Value())
      modifies this
      ensures run <= run' && AfterRun(run') == Some(Value())
    {
      run' := run;
      match request
      case OpenThread(thread, bump, now, lockdown) =>
        var r := Insert(0, 0, true, bump, thread, false, lockdown, true, Own, now);
        if r.Success? {
          run' := Appended(run, NewThread(thread.(lastBump := now, isDeleted := false)));
          if bump {
            run' := Appended(run', BumpThread(r.value.1, now));
          }
        }
      case PostIn(threadID, bump, now) =>
        if threadID != 0 {
          var r := Insert(0, threadID, false, bump, NO_THREAD, true, false, true, Own, now);
          if r.Success? {
            run' := Appended(run, Reply(threadID));
            if bump {
              run' := Appended(run', BumpThread(threadID, now));
            }
          }
        }
      case SetThread(threadID, attribute, value) =>
        var r := UpdateAttribute(threadID, attribute, value);
        run' := Appended(run, ChangeAttribute(threadID, attribute, value));
      case MoveToBoard(threadID, boardID) =>
        var r := ChangeThreadBoardID(threadID, boardID, true);
        run' := Appended(run, MoveThread(threadID, boardID));
      case DeleteChecked(ids) =>
        var ok := DeletePosts(ids, false, true);
        if ok {
          run' := Appended(run, Action.DeletePosts(Elements(ids)));
        }
      case DeletePost(id, threadID, isTopPost) =>
        if isTopPost {
          var r := Delete(id, threadID, true, Given);
          if r.Success? {
            run' := Appended(run, Action.DeleteThread(threadID));
          }
        } else if id in posts && !posts[id].isTopPost {
          var r := Delete(id, threadID, false, Own);
          run' := Appended(run, DeleteReply(id));
        }
      case PruneBoard(boardID, maxThreads) =>
        ghost var db := Value();
        var ids := DeleteOldThreads(boardID, maxThreads);
        if maxThreads >= 1 {
          ghost var pruned :| IsExcess(db, boardID, maxThreads, pruned) && Value() == DeleteThreads(db, pruned);
          run' := Appended(run, PruneOld(boardID, maxThreads, pruned));
        }
      case PruneThread(threadID, maxPosts) =>
        if threadID in threads && threads[threadID].cyclic && maxPosts >= 1 {
          ghost var db := Value();
          var r := PruneCyclic(0, threadID, true, maxPosts);
          if r.Success? {
            ghost var pruned :| IsLowest(LiveReplies(db, threadID), maxPosts, pruned)
                && Value() == Mark(db, pruned, {});
            run' := Appended(run, Action.PruneCyclic(threadID, maxPosts, pruned));
          }
        }
      case RemoveDeleted(enforced) =>
        PermanentlyRemoveDeletedPosts(enforced);
        run' := Appended(run, Cleanup(enforced));
    }
  }

  /** The requests that change the tables, with what they carry. */
  datatype Request =
    | OpenThread(thread: Thread, bump: bool, now: int, lockdown: bool)
    | PostIn(threadID: int, bump: bool, now: int)
    | SetThread(threadID: int, attribute: string, value: bool)
    | MoveToBoard(threadID: int, boardID: int)
    | DeleteChecked(ids: seq<int>)
    | DeletePost(id: int, threadID: int, isTopPost: bool)
    | PruneBoard(boardID: int, maxThreads: int)
    | PruneThread(threadID: int, maxPosts: int)
    | RemoveDeleted(enforced: bool)

  const NO_THREAD := Thread(0, false, false, false, false, 0, false)

  /** A run with one more action. */
  lemma Appended(run: seq<Action>, action: Action) returns (run': seq<Action>)
    requires AfterRun(run).Some? && Possible(AfterRun(run).value, action)
    ensures run <= run' && AfterRun(run') == Some(Do(AfterRun(run).value, action))
  {
    run' := run + [action];
    assert run'[..|run|] == run;
  }

  const ATTRIBUTES := {"locked", "stickied", "anchored", "cyclic"}

  lemma NoAttribute(db: Db, threadID: int, attribute: string, value: bool)
    requires attribute !in ATTRIBUTES
    ensures SetAttribute(db, threadID, attribute, value) == db
  {
  }
}
