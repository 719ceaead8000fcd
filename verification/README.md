# Gochan: a verified model of its algorithms and state machines

Gochan is an imageboard server. This project models, in Dafny, the parts of it that hold real
algorithms or state, and proves what they keep and what they compute.

* **IP ranges and bans** (`Bits`, `IpRange`, `Bans`). Addresses are byte strings, seen as bits and as
  numbers; an address text is 4 or 16 bytes, by its notation. A range written `ip/n` (CIDR, section 3.1
  of RFC 4632; section 2.3 of RFC 4291) is the interval of its first and last address and holds
  `2^(w - n)` addresses; the subnet computed back from the two ends is the same block. There are two
  tests for a ban, by order (in SQL) and by mask (in Go), and IPv4-mapped addresses (section 2.5.5.2 of
  RFC 4291) decide where they agree:
  * A block from /80 to /95 whose last address is IPv4-mapped (such as `::fffe:0:0/95`) becomes a
    range across both families. The order test then bans nobody and the mask test returns an error.
    `IpRange.Straddles` describes these blocks, and the round trip holds exactly for the others.
  * With SQLite the order test goes by the address, with MySQL and PostgreSQL by the notation of the
    text. For a visitor whose text is `::ffff:1.2.3.4`, which is taken from a header as it is, the last
    two miss a ban on `1.2.3.0/24` and apply one on `::/64`, and the mask test says the opposite.
    `Bans.Misread` describes these visitors.

  For the range of a block the tests agree exactly for blocks that do not straddle and visitors who are
  not misread (`Bans.BanTestsAgree`).
* **Concurrency** (`BoardBuild`, `FileRemoval`). Goroutines are program counters, and every schedule of
  their steps is considered: mutual exclusion, what is returned, what was done by then, no deadlock.
* **HTML truncation** (`HtmlTruncation`, `HtmlTree`). The walk over heap nodes, proved against a walk
  over tree values, which is proved to read the document from the front. A comment at
  pkg/gctemplates/misc.go:73 says that the walk exits immediately once a budget is spent; the code
  instead unlinks the node and goes on with it, so the slice at line 77 can get a negative bound and
  panic. The model follows the code. `HtmlTruncation.PanicsIffOverdrawn` says exactly when it panics, and
  `HtmlTruncation.RunKeepsWhatStopKeeps` that otherwise the result is the one the comment describes.
* **Posts and threads** (`Tables`, `Lifecycle`, `Database`). The two tables, the methods that change
  them, and the invariant over all runs: a deleted thread has no live post, a live thread has a live
  top post. `Insert` checks whether a thread is locked but not whether it is deleted, and exactly a reply
  to a deleted thread breaks the invariant; a purge then loses the reply or leaves it without a thread.
  The ids of a deletion are selected before the transaction that marks them, so a reply to a selected
  thread that comes in between breaks it as well.
  `Delete` of a top post without the caller's transaction returns before its own commit, so nothing is
  deleted although no error is returned.
* **Post filters** (`Filters`, `Strings`). The wordfilters that rewrite a message, then the filtering
  in two phases around the upload, proved against one pass. The query of the first phase does not
  leave out wordfilters, so a wordfilter that still matches the message it has rewritten is taken
  for a filter with an unknown action and the post is refused with an error: one that replaces `a` with
  `aa` refuses every message with an `a`, one that replaces `a` with `b` refuses none. A log filter
  that matches ends only its own phase.
* **Board pages and the catalog** (`BoardPages`), **reports** (`Reports`) and **message formatting**
  (`Formatting`, `MarkupNesting`, `LineText`). In the catalog a short last page repeats the number of the page before
  it. The cleanup of reports compares report ids with post ids in its second statement, and loses audit
  rows of other reports when the two numberings meet. Hashtags are replaced on text that already
  holds links, so a link whose base contains `]` or `[#` can be cut by a tag; for all others, tags nest.

Methods stand for code that works step by step and are proved against specification functions; the
lemmas are about these functions. SQL tables are maps, and a query is the set or the order it denotes.

## Model

| member | source | states |
|---|---|---|
| IpRange.ParseIPRange | pkg/gcutil/iprange.go:20-47 | every outcome: bad address, single address unchanged, first and last address of the block, bad number, prefix length out of range, too many slashes |
| IpRange.MaskAndBroadcast | pkg/gcutil/iprange.go:39-44 | the masked address and the array filled by the broadcast loop are the two ends of the block of the prefix |
| IpRange.GetIPRangeSubnet | pkg/gcutil/iprange.go:51-94 | the nested byte and bit loops count exactly the leading bits the two addresses share |
| IpRange.MaskedIsBlock | pkg/gcutil/iprange.go:39-44 | masking keeps the prefix and clears the rest, or-ing the inverted mask keeps the prefix and sets the rest, bit by bit |
| IpRange.SubnetIsSmallest | pkg/gcutil/iprange.go:49-94 | the subnet contains both ends, no longer mask does, and every address between the ends lies in it |
| IpRange.BetweenIsInside | pkg/gcutil/iprange.go:77-93 | an address numerically between two addresses shares every prefix they share |
| IpRange.BlockIsInterval | pkg/gcutil/iprange.go:39-44 | a block is exactly the numeric interval of its ends, with 2^(w - n) addresses |
| IpRange.ValueInjective | pkg/gcutil/iprange.go:39-44 | different addresses have different numbers, so that is a count of addresses |
| IpRange.BlockFamilies | pkg/gcutil/iprange.go:26-29 | printing and parsing the ends changes an address family exactly for the last address of a straddling block |
| IpRange.RangeRoundTrip | pkg/gcutil/iprange.go:20-94 | the subnet of the range of a block is that block, with its prefix length, exactly when it does not straddle; otherwise the range is refused |
| IpRange.ContainsIsPrefix | pkg/gcsql/tables.go:180 | the byte-wise mask test is equality of the first n bits, and no across families |
| Bans.IsBanned | pkg/gcsql/tables.go:171-181 | the errors and the answer of the mask test |
| Bans.MaskTestIsPrefix | pkg/gcsql/tables.go:171-181 | the mask test in bits: which error comes first, and otherwise whether the visitor shares the bits the bounds share |
| Bans.CompareIsNumeric | pkg/gcsql/initsql/init.go:157-172 | comparing two 64-bit halves is comparing 128-bit numbers |
| Bans.BytesAreNumeric | sql/functions_mysql.sql:31-37 | byte-lexicographic order is numeric order, at any width |
| Bans.IpCmpIsNumeric | pkg/gcsql/initsql/init.go:157-172 | each driver's `ip_cmp` is NULL across its families and otherwise the sign of the numeric difference |
| Bans.DriversAgree | sql/functions_mysql.sql:25-37 | two drivers answer alike for two texts exactly when both or neither is SQLite, or both or neither of the texts is IPv4-mapped |
| Bans.InRangeIsInterval | pkg/gcsql/bans.go:67 | with each driver the order test is one family and a numeric interval |
| Bans.IntervalImpliesMask | pkg/gcsql/tables.go:171-181 | for any range at all, what the order test bans the mask test bans exactly when the driver is SQLite or all three texts or none are IPv4-mapped |
| Bans.BanTestsAgree | pkg/gcsql/bans.go:66-83 | for the range of a block, every driver and every visitor the two tests agree exactly when the block does not straddle and the visitor is not misread; what each test then says; a straddling ban bans nobody |
| Bans.MappedVisitor | sql/functions_postgres.sql:1-11 | `::ffff:1.2.3.4` against bans on `1.2.3.0/24` and `::/64`: what each driver and the mask test say |
| Bans.StraddlingNet | pkg/gcutil/iprange.go:39-44 | `::fffe:0:0/95` straddles |
| Bans.StraddlingBanIsIgnored | pkg/gcsql/bans.go:66-83 | with any driver a ban on it does not ban the address it was written with |
| Bans.SingleAddressBan | pkg/gcutil/iprange.go:30-32 | a ban on one address keeps its notation; what each test says, and that they differ exactly for the same address in the other notation with a driver that goes by it |
| Bans.ParsedTestsAgree | pkg/gcsql/bans.go:66-83 | a parsed range, straddling blocks included, bans the same visitors by both tests where notations agree |
| Bans.CheckFindsNewestBan | pkg/gcsql/bans.go:64-83 | the ban found is an active row for all boards or this one, permanent or not ended yet, whose range holds the visitor; no such row is newer, so there is one found if there is one |
| Bans.CheckFindsNewestMaskBan | pkg/gcsql/bans.go:64-83 | the mask test confirms the ban found exactly when notations agree, and no running parsed ban for the board with agreeing notations that it confirms is newer or missed |
| BoardBuild.InvariantHolds | pkg/building/boards.go:326-350 | in every state of every schedule the counter, the lock, the builds, the skipped boards and the log fit together |
| BoardBuild.BuildsNeverOverlap | pkg/building/boards.go:333-341 | never two builds at once, and none running after one has failed |
| BoardBuild.BuildRecorded | pkg/building/boards.go:334-336 | a build that ends is recorded, and `tmpErr` set, with the outcome it ended with |
| BoardBuild.FailureStopsBuilding | pkg/building/boards.go:334-336 | after a failure no continuation of the schedule finishes another build |
| BoardBuild.OutcomeOfRun | pkg/building/boards.go:326-350 | nil exactly when every board was built once without error; otherwise the one failure, which is the last build; a board is logged at most once, only if its own build succeeded, never without `logWhenDone`, and with it always when nil is returned; all goroutines are done |
| BoardBuild.SchedulesAreFinite | pkg/building/boards.go:326-350 | no schedule has more than ten steps a board and one |
| BoardBuild.NoDeadlock | pkg/building/boards.go:326-350 | until the caller has returned some step can be taken |
| FileRemoval.CoalesceErrors | cmd/gochan/deleteposts.go:50-57 | the first error in the list, or none if there is none |
| FileRemoval.ProgramFacts | cmd/gochan/deleteposts.go:61-105 | in each case the reservations cover the goroutines before they start, and exactly the selected ones are started before the wait |
| FileRemoval.InvariantHolds | cmd/gochan/deleteposts.go:61-107 | in every state of every schedule the counter and the error variables fit what the goroutines have done, and nothing changes after the wait |
| FileRemoval.BalanceIsSpare | cmd/gochan/deleteposts.go:68-105 | what is reserved is what is started plus what is still spare |
| FileRemoval.RemovalRecorded | cmd/gochan/deleteposts.go:73-104 | a removal that ends is recorded with the outcome it ended with |
| FileRemoval.DeleteFileOutcome | cmd/gochan/deleteposts.go:59-107 | the counter is what is reserved but unfinished and never negative; on return each of the five removals is done in exactly the cases it is for, and the first of their errors in the order thread, JSON, catalog thumb, thumb, file is returned |
| FileRemoval.SchedulesAreFinite | cmd/gochan/deleteposts.go:61-107 | every step uses up an instruction or one of two steps of a job, so schedules are at most ten longer than the program |
| FileRemoval.NoDeadlock | cmd/gochan/deleteposts.go:61-107 | until the caller has returned some step can be taken |
| HtmlTruncation.RunKeepsWhatStopKeeps | pkg/gctemplates/misc.go:48-81 | walking on through unlinked nodes leaves the same tree as stopping at once, when it does not panic |
| HtmlTruncation.PanicsIffOverdrawn | pkg/gctemplates/misc.go:76-79 | the walk panics exactly when the first texts cut off at the open levels, innermost first, overdraw what was left |
| HtmlTruncation.PanicExample | pkg/gctemplates/misc.go:76-78 | a tree and limits for which it panics |
| HtmlTruncation.StopIsScan | pkg/gctemplates/misc.go:42-81 | the recursion over the tree reads its document order from the front until a budget is spent |
| HtmlTruncation.DocumentInjective | pkg/gctemplates/misc.go:42-43 | document order with depths determines the tree |
| HtmlTruncation.ScanIsPrefix | pkg/gctemplates/misc.go:48-51 | what is kept is a prefix whose last text alone may be cut; less than all is kept only if a budget is spent |
| HtmlTruncation.ScanWithinBudget | pkg/gctemplates/misc.go:55-79 | at most the limit plus 2 bytes of text, at most the limit of breaks |
| HtmlTruncation.BreakNames | pkg/gctemplates/misc.go:56-58 | the elements that count as breaks are `br` in any case |
| HtmlTruncation.ScanIsTruncation | pkg/gctemplates/misc.go:48-80 | what is kept is the longest start of the document with both budgets unspent before each entry; a last text over the budget is cut to one byte less than was left, and three dots |
| HtmlTruncation.ScanCharges | pkg/gctemplates/misc.go:57-79 | the budgets left are the limits less the text and the breaks kept |
| HtmlTruncation.TruncationUnique | pkg/gctemplates/misc.go:48-80 | a document has one such truncation |
| HtmlTruncation.CutTruncation | pkg/gctemplates/misc.go:76-78 | when a text is cut the text kept is exactly two bytes over the limit |
| HtmlTruncation.TruncationKeepsPrefix | pkg/gctemplates/misc.go:42-81 | all of this for what the code leaves of any tree, for any limits |
| HtmlTruncation.ShortMessagesUnchanged | pkg/gctemplates/misc.go:12-13 | a tree strictly under both limits comes back unchanged and without a panic |
| HtmlTree.Node.RemoveNextSiblings | pkg/gctemplates/misc.go:34-40 | of the siblings only the first node is left in its chain, with its children |
| HtmlTree.TruncateText | pkg/gctemplates/misc.go:75-79 | the text is cut in place, the budget charged, the negative slice noticed |
| HtmlTree.TruncateChildren | pkg/gctemplates/misc.go:54-72 | the children in the heap become what the walk on values leaves of them; the siblings are untouched |
| HtmlTree.VisitNode | pkg/gctemplates/misc.go:53-81 | the node in the heap becomes what the visit on values leaves |
| HtmlTree.TruncateNodes | pkg/gctemplates/misc.go:42-86 | the tree in the heap, both budgets and the panic are those of the walk on values |
| Database.Database.CreateThread | pkg/gcsql/threads.go:25-39 | a live thread row with a new id, or the lockdown error |
| Database.Database.Insert | pkg/gcsql/posts.go:404-467 | every error leaves the tables alone; otherwise, column by column, the new post, its thread's row with the bump if wanted, and all other rows unchanged, for all three ways of passing a transaction, with and without enforced foreign keys |
| Database.Database.InsertRow | pkg/gcsql/posts.go:449-462 | the row is added, its id is the greatest one, the thread is bumped if wanted |
| Database.Database.DeleteThread | pkg/gcsql/threads.go:232-252 | the thread and all its posts marked, or the error when it has no posts |
| Database.Database.Delete | pkg/gcsql/posts.go:365-400 | a reply is marked; a top post takes its thread along, but only inside the caller's transaction |
| Database.Database.GetAllPostsToDelete | cmd/gochan/deleteposts.go:112-151 | exactly the affected posts, each once; for files only, exactly the selected ones |
| Database.Database.MarkPostsAsDeleted | cmd/gochan/deleteposts.go:283-339 | the given posts and the threads of the top posts among them are marked |
| Database.Database.DeletePosts | cmd/gochan/deleteposts.go:153-241 | deleting a selection as a whole, or nothing when only files are deleted or their deletion fails |
| Database.Database.PermanentlyRemoveDeletedPosts | pkg/gcsql/posts.go:191-204 | the tables after both statements, with and without enforced foreign keys |
| Database.Database.DeleteOldThreads | pkg/gcsql/boards.go:276-347 | the counting loop prunes a choice of the excess by last bump and returns exactly the posts of the pruned threads |
| Database.Database.SelectByBump | pkg/gcsql/boards.go:289-293 | exactly the live unstickied threads of the board, by last bump |
| Database.Database.CyclicPostsToBePruned | pkg/gcsql/posts.go:480-533 | every case; all but the highest-numbered live replies, or the panic on an empty result |
| Database.Database.PrunePosts | pkg/posting/post.go:618-642 | the loop of single deletions marks exactly the given posts |
| Database.Database.PostReply | pkg/posting/post.go:550-643 | the tables after inserting a reply, attaching its upload and pruning its thread: unchanged, with the reply deleted, or pruned, in every case of failure |
| Database.Database.PruneCyclic | pkg/posting/post.go:608-643 | all but the highest-numbered live replies are marked, or the panic when there are none |
| Database.Database.ChangeThreadBoardID | pkg/gcsql/threads.go:113-119 | the thread is on the other board, or the error when there is no such board |
| Database.Database.UpdateAttribute | pkg/gcsql/threads.go:212-229 | only the named attribute of the one thread changes; other names are an error |
| Database.Database.Serve | pkg/gcsql/posts.go:365-467 | carrying out a request, by the operation it is for, leads to the tables of a longer run, so what holds of runs holds of the operations |
| Database.ExcessOfRows | pkg/gcsql/boards.go:301-313 | in an order by last bump the rows behind the first n are a choice of the excess |
| Database.LowestOfRows | pkg/gcsql/posts.go:528-532 | in an order by id the rows before the last n are the lowest |
| Lifecycle.SelectedExactly | pkg/gcsql/boards.go:289-293 | the columns by which threads to prune and live replies are selected |
| Lifecycle.AddThreadExactly | pkg/gcsql/posts.go:429-457 | the rows a new thread adds, and that no other changes |
| Lifecycle.RepliedExactly | pkg/gcsql/posts.go:427-462 | the row a reply adds; with a bump its thread's last bump is now and nothing else changes, without one nothing does |
| Lifecycle.AttributeExactly | pkg/gcsql/threads.go:212-229 | every column of every thread after an attribute is set |
| Lifecycle.MoveExactly | pkg/gcsql/threads.go:113-119 | every column of every thread after a move |
| Lifecycle.MarkExactly | cmd/gochan/deleteposts.go:283-339 | every column of every post and thread after marking |
| Lifecycle.DeleteThreadsExactly | pkg/gcsql/threads.go:232-252 | deleted are the threads and exactly the posts in them |
| Lifecycle.PurgeExactly | pkg/gcsql/posts.go:191-204 | which rows a purge leaves, as they were |
| Lifecycle.AddThreadKeeps | pkg/gcsql/posts.go:429-457 | opening a thread keeps live threads with live top posts and adds no stray post |
| Lifecycle.RowChangeKeeps | pkg/gcsql/threads.go:212-229 | so does any change to a thread's row but its deletion, and it removes no stray post either |
| Lifecycle.BumpKeeps | pkg/gcsql/posts.go:458-462 | so does a bump |
| Lifecycle.ReplyStrays | pkg/gcsql/posts.go:436-457 | the stray posts after a reply are those before and, exactly in a deleted thread, the reply |
| Lifecycle.ReplyKeepsIff | pkg/gcsql/posts.go:436-457 | a reply keeps the invariant exactly when its thread is not deleted |
| Lifecycle.MarkStrays | pkg/gcsql/threads.go:246-251 | exactly when marking spares the top posts of live threads, and exactly which posts it leaves stray |
| Lifecycle.MarkKeepsIff | pkg/gcsql/threads.go:246-251 | marking keeps the invariant exactly when marked threads lose all live posts and the other live ones keep their top posts |
| Lifecycle.DeleteThreadsKeeps | pkg/gcsql/threads.go:232-252 | deleting threads keeps the invariant |
| Lifecycle.DeleteRepliesKeeps | pkg/gcsql/posts.go:393-395 | so does deleting replies |
| Lifecycle.AffectedIsLeast | cmd/gochan/deleteposts.go:109-151 | the affected posts are the least set with the selection and, with any top post, all posts of its thread |
| Lifecycle.DeleteSelectedExactly | cmd/gochan/deleteposts.go:283-339 | exactly those posts are deleted, and exactly the threads whose top post is selected |
| Lifecycle.DeleteSelectedKeeps | cmd/gochan/deleteposts.go:209-241 | deleting a selection at once keeps the invariant |
| Lifecycle.MarkIdsKeepsIff | cmd/gochan/deleteposts.go:308-336 | marking ids selected earlier keeps it exactly when every live post in a thread of a top post among them is one of them |
| Lifecycle.ReplyDuringDelete | cmd/gochan/deleteposts.go:209-241 | with a reply between selecting and marking, exactly when its thread's top post was not selected |
| Lifecycle.PurgeIsCleanIff | pkg/gcsql/posts.go:190-204 | a purge removes exactly the deleted posts and leaves none without its thread, exactly when no deleted thread has a live post |
| Lifecycle.PurgeKeeps | pkg/gcsql/posts.go:191-204 | with enforced foreign keys a purge restores the invariant, stray posts or not; without stray posts they make no difference |
| Lifecycle.OldThreadsPruned | pkg/gcsql/boards.go:275-347 | min(n, previous) live unstickied threads remain, each bumped no earlier than a pruned one; stickied threads, other boards and other posts do not change |
| Lifecycle.BumpedIsKept | pkg/gcsql/boards.go:289-313 | a thread just bumped by a reply, later than the others of its board, is in no choice of threads to prune |
| Lifecycle.CyclicReply | pkg/posting/post.go:550-643 | min(count, n) live replies remain, the highest-numbered, the new one among them; nothing else changes; the invariant is kept exactly when the thread was not deleted |
| Lifecycle.ReplyAdds | pkg/gcsql/posts.go:449-462 | the live replies of the thread grow by the new one alone |
| Lifecycle.HighestIsKept | pkg/gcsql/posts.go:532 | the post with the greatest id is never pruned |
| Lifecycle.ActionKeeps | pkg/gcsql/posts.go:404-467 | after every action live threads have live top posts, and only a reply to a deleted thread adds a stray post, itself |
| Lifecycle.RunsStayConsistent | pkg/gcsql/posts.go:190-204 | in every state of every run without replies to deleted threads the invariant holds, and a purge loses no live post and leaves none without its thread |
| Lifecycle.OnlyLateRepliesStray | pkg/gcsql/posts.go:190-204 | in every state of every run with any replies, where foreign keys are enforced, the only live posts a purge removes are replies that were made to deleted threads |
| Lifecycle.ReplyToDeletedThread | pkg/gcsql/posts.go:436-457 | a run after which a reply to a deleted thread is lost or orphaned by the purge |
| Filters.CheckIfMatch | pkg/gcsql/filters.go:476-501 | the loop over the conditions decides as the recursive reading does, with errors in place |
| Filters.MatchesIsAnyOrAll | pkg/gcsql/filters.go:476-501 | when no condition errs: some condition holds, or all do |
| Filters.MatchStopsAt | pkg/gcsql/filters.go:476-501 | errors included: the first condition that errs or decides gives the outcome, none before it does |
| Filters.TextConditions | pkg/gcsql/filterhandlers.go:106-118 | for each field with a text and each mode: a part of it, in lower case, an expression, all of it, or the error |
| Filters.OtherConditions | pkg/gcsql/filterhandlers.go:120-226 | for each other field when its condition holds or errs; unknown fields err |
| Filters.UploadIrrelevant | pkg/gcsql/filters.go:560-561 | the fields named in the query are the only ones whose conditions look at the upload |
| Filters.UploadMatters | pkg/gcsql/filters.go:560-561 | and on each of those fields some condition is decided by the upload |
| Filters.Filtering.HandleMatch | pkg/gcsql/filters.go:374-464 | the hit is recorded before the action, whatever it is; a ban needs a staff id; unknown actions are errors |
| Filters.Filtering.CheckFilter | pkg/gcsql/filters.go:530-539 | match, error, hits and bans of one filter |
| Filters.Filtering.CheckFilters | pkg/gcsql/filters.go:541-553 | the first filter that matches or errs ends the loop |
| Filters.CheckStopsAt | pkg/gcsql/filters.go:541-553 | the filters before some position do not match, the one at it ends the loop, and what is tested, recorded and returned then, for every action and error |
| Filters.ApplyWordFilters | pkg/posting/formatting.go:60-77 | the loop over the wordfilters rewrites the message by one after another, up to the first error |
| Filters.RewriteConcat | pkg/posting/formatting.go:71-75 | wordfilters compose: the later ones get what the earlier ones made |
| Filters.RewriteOne | pkg/gcsql/wordfilters.go:178-199 | what one wordfilter makes of a message: the same pieces with its detail between them, what the expression gives, or the error |
| Filters.WordfilterRows | pkg/gcsql/filters.go:89-116 | which filters the query for wordfilters selects |
| Filters.Filtering.FilterPost | pkg/posting/post.go:497-538 | verdict, filters tested, hits and bans over both phases |
| Filters.Filtering.ReceivePost | pkg/posting/post.go:390-538 | the verdict on a post as it is sent: rewriting it, then both phases |
| Filters.NoFilterTestedTwice | pkg/posting/post.go:497-538 | no filter is tested in both phases, or twice in one |
| Filters.CheckIsFirstMatch | pkg/gcsql/filters.go:541-553 | without errors the result is the first filter that matches, with its action's error |
| Filters.FirstMatchIsFirst | pkg/gcsql/filters.go:541-553 | that filter matches and none before it does |
| Filters.IrrelevantFilter | pkg/gcsql/filters.go:556-556 | an inactive filter, or one for other boards alone, changes nothing for any post, wherever it is in the table |
| Filters.SoleFilter | pkg/posting/post.go:102-133 | an active filter for the board, alone in the table, decides by its match and its action, in every case, with or without conditions on uploads |
| Filters.TwoPhasesAreOrderedPass | pkg/posting/post.go:497-538 | errors and actions included, the two phases are one pass with the real upload over the filters without upload conditions and then the others, exactly unless a log filter ends the first phase |
| Filters.AcceptedIff | pkg/posting/post.go:497-538 | when no condition errs: accepted exactly when the first match of each phase is a log filter or none |
| Filters.TwoPhasesEqualOnePass | pkg/gcsql/filters.go:576-603 | with no log filter or wordfilter matching as well: accepted exactly when one pass over the board's filters accepts, which is when none matches |
| Filters.WordfilterRefusesIff | pkg/gcsql/filters.go:555-561 | the error for an unknown action comes exactly from the first match of the first phase, or of the second after a harmless first; with known actions exactly from a wordfilter that matches first |
| Filters.KnownNeverRefused | pkg/gcsql/filters.go:441-464 | filters with known actions never end in that error, whatever else fails |
| Filters.SoleWordfilter | pkg/gcsql/wordfilters.go:178-199 | a wordfilter alone on its board refuses a post as it is sent exactly when the rewritten message contains what it searches for |
| Filters.WordfilterCases | pkg/gcsql/wordfilters.go:178-199 | never without a match, always when the replacement contains what it replaces, and for one character exactly then |
| Filters.WordfilterExample | pkg/posting/post.go:258-261 | `a` to `aa` refuses the message `a`, `a` to `b` accepts it |
| Filters.BadWordfilter | pkg/gcsql/wordfilters.go:182-186 | a wordfilter without exactly one condition refuses every post of its board |
| Strings.ReplaceAbsent | pkg/gcsql/wordfilters.go:196 | without a match nothing is replaced |
| Strings.ReplaceIsJoin | pkg/gcsql/wordfilters.go:196 | replacing cuts the text at its matches, each the first one behind the one before, and joins the same pieces with the replacement |
| Strings.PiecesUnique | pkg/gcsql/wordfilters.go:196 | a text can be cut so in one way only |
| Strings.ReplaceEmpty | pkg/gcsql/wordfilters.go:196 | replacing the empty string puts the replacement before, between and behind all characters |
| Strings.ReplaceKeepsMatch | pkg/gcsql/wordfilters.go:196 | a replacement that contains what it replaces leaves a match |
| Strings.ReplaceOne | pkg/gcsql/wordfilters.go:196 | a character is left exactly when it was there and is in the replacement |
| Filters.LogFilterExample | pkg/posting/post.go:102-105 | a log filter for which one pass and two phases differ |
| BoardPages.PageThread | pkg/building/boards.go:100-148 | the first post and the newest replies are shown; exactly the posts not shown and the uploads on them are counted as omitted, limit 0 included |
| BoardPages.CountImages | pkg/building/boards.go:135-142 | the nested loops count each upload on a shown post once |
| BoardPages.UploadsCounted | pkg/building/boards.go:135-142 | that count is the number of uploads whose post is shown |
| BoardPages.OnAndOff | pkg/building/boards.go:145 | uploads on the shown posts and uploads off them are all uploads |
| BoardPages.BoardCatalog.FillPages | pkg/building/catalog.go:42-65 | the pages hold the threads in order, full but for the last, none empty; every page's number, the repeated one included |
| BoardPages.ConcatSize | pkg/building/catalog.go:42-65 | the number of threads on such pages |
| BoardPages.ThreadInPlace | pkg/building/catalog.go:42-65 | the thread at a place of a page is the one at that many full pages and that place of the input |
| BoardPages.PagesMatchNavigation | pkg/building/boards.go:248-252 | there are as many pages as the navigation counts |
| Reports.ReportTable.CheckPostReports | pkg/gcsql/reports.go:84-92 | what the count and the maximum of the selected rows say about the post |
| Reports.ReportTable.CreateReport | pkg/gcsql/reports.go:10-46 | a new open report with its audit row |
| Reports.ReportTable.HandleReport | pkg/posting/reports.go:49-63 | the loop with its check before each report |
| Reports.ReportTable.ClearReport | pkg/gcsql/reports.go:51-80 | the one report and its audit row are dismissed or blocked; whether there is such a report is returned |
| Reports.ReportTable.DismissAllReports | pkg/manage/reports.go:31-39 | every report is dismissed |
| Reports.ReportTable.Perform | pkg/gcsql/reports.go:10-166 | an action of a run is carried out by the operation it stands for |
| Reports.CreatedExactly | pkg/gcsql/reports.go:10-46 | the new rows, and that no other changes |
| Reports.ClearExactly | pkg/gcsql/reports.go:51-80 | the report and its audit row, if there is one, become blocked or dismissed as asked; post, reason and all other rows stay |
| Reports.DismissExactly | pkg/manage/reports.go:31-32 | every report becomes dismissed and keeps its post and reason; audit rows stay |
| Reports.CleanUpExactly | pkg/gcsql/reports.go:152-159 | which reports and audit rows stay, as they were |
| Reports.BlockingBlocks | pkg/gcsql/reports.go:48-92 | after a report is cleared with `block`, no request adds a report of its post |
| Reports.ReportTable.DeleteReportsOfDeletedPosts | pkg/gcsql/reports.go:135-166 | both statements, the second with report ids where post ids are meant, with and without enforced foreign keys |
| Reports.HandledKeeps | pkg/posting/reports.go:49-63 | a request keeps reports unique, even if it names a post twice |
| Reports.HandledExactly | pkg/posting/reports.go:49-63 | old reports are kept as they were, each post not blocked ends up reported for the reason, and nothing else is added |
| Reports.ReportsStayUnique | pkg/posting/reports.go:49-63 | in every run at most one report per post and reason |
| Reports.BlockedPostsGetNoReports | pkg/gcsql/reports.go:82-92 | after any run, no action adds a report of a blocked post |
| Reports.BlockLasts | pkg/manage/reports.go:31-32 | a block ends exactly when all reports are dismissed, it is dismissed itself, or its post is deleted |
| Reports.AuditsKeptIff | pkg/gcsql/reports.go:152-159 | exactly the reports of deleted posts go; audit rows of all others stay exactly when none of them has the id of a deleted post; no other audit row stays exactly when foreign keys are enforced or all reports removed have such an id |
| Reports.AuditLost | pkg/gcsql/reports.go:156-159 | report 1 of the live post 2 loses its audit row when post 1 is deleted |
| Formatting.FormatWord | pkg/posting/formatting.go:109-133 | the new text of a word is the text of its tokens, in every case |
| Formatting.FormatLine | pkg/posting/formatting.go:107-160 | the overwriting loop, the join, the closing tag and the hashtags give the replaced text of the line's tokens, or the first error |
| Formatting.FormatWords | pkg/posting/formatting.go:107-133 | the overwriting loop gives the words with their markup, and whether the line is greentext, or the first error |
| Formatting.WordText | pkg/posting/formatting.go:110-132 | the text of a word in every case: link, dead link, greentext, unchanged |
| MarkupNesting.ReplaceIsTagTokens | pkg/posting/formatting.go:141-155 | replacing hashtags on text is replacing them on tokens, when no inserted tag holds a `]` or opens a hashtag |
| MarkupNesting.TagsKeepNesting | pkg/posting/formatting.go:141-155 | putting spans around hashtags, even around links, keeps the nesting |
| MarkupNesting.LineNests | pkg/posting/formatting.go:107-137 | the tags of a line are well nested before its hashtags are looked for |
| MarkupNesting.LinesStayWhole | pkg/posting/formatting.go:107-160 | no inserted tag is cut by a hashtag, if no link base contains `]` or `[#` |
| MarkupNesting.LinesAreWellNested | pkg/posting/formatting.go:104-162 | the tags of every formatted line are whole, well nested and balanced, under that condition |
| MarkupNesting.CloseCutsLink | pkg/posting/formatting.go:141-155 | with `]` in a link base there is a line whose link is cut |
| MarkupNesting.OpenCutsLink | pkg/posting/formatting.go:141-155 | with `[#` in a link base there is a line whose link is cut |
| MarkupNesting.TagsStayWholeIff | pkg/posting/formatting.go:104-162 | the inserted tags stay whole on all lines exactly when no link base contains `]` or `[#` |
| MarkupNesting.AtoiDecimal | pkg/posting/formatting.go:112-126 | a number that is printed is read back, if it fits into 64 bits |
| LineText.AtoiForms | pkg/posting/formatting.go:112 | signs and leading zeros; nothing else is a number |
| LineText.HrefReads | pkg/posting/formatting.go:125 | a link is the base, the page, which reads back as the parent, and the number as it was written |
| LineText.WordFailsIff | pkg/posting/formatting.go:110-119 | a word fails exactly when it is a reference whose lookup does |
| LineText.GreentextIff | pkg/posting/formatting.go:128-132 | which lines are greentext, by the quote marks of their first word |
| LineText.LineReadsAsWords | pkg/posting/formatting.go:109-137 | the line reads as its words: markup adds and drops nothing |
| LineText.NsfwIff | pkg/posting/formatting.go:147 | which tags are `#nsfw` |
| LineText.TagsReplaced | pkg/posting/formatting.go:141-159 | the text is cut at its hashtags, each the first one behind the one before, and the same pieces get spans; a work-safe board refuses `#nsfw` |

## Left out

- IpRange.ParseIPRange: an address text is its notation and its bytes (`net.ParseIP` and `String` are not modelled), so spellings of one address in one notation are not told apart and the error values carry no text; the index panic on a nil mask is an error value here.
- Bans.DriversAgree: `ip_cmp` starts from the bytes of its two addresses; that MySQL first passes texts and stored bytes through a 16-byte parameter and `INET6_ATON`, and how PostgreSQL compares `inet` values within a family, is not modelled.
- Creating, appealing and deactivating bans, and the ban row that a banning filter inserts.
- BoardBuild.OutcomeOfRun: all goroutines are there from the start, `buildBoard` is any outcome and does not panic, and the read of `tmpErr` without the lock is one atomic step.
- FileRemoval.DeleteFileOutcome: `os.Remove` is any outcome; each goroutine's assignment is one step.
- HtmlTree.TruncateNodes: `Parent`, `PrevSibling` and `LastChild` links are not modelled; the holder of a link stores back what the walk leaves. After a panic nothing is said about the nodes.
- HtmlTree.Node.RemoveNextSiblings: for the same reason, unlinking the first node from its parent is left to the holder of the link.
- HtmlTruncation.TruncationKeepsPrefix: starts from a parsed tree; parsing, rendering and the node type that no case names are left out.
- Lifecycle.OnlyLateRepliesStray: without enforced foreign keys a purge leaves late replies without their thread, as `Lifecycle.ReplyToDeletedThread` shows; runs that go on from there are not described.
- Database.Database.Insert: columns that no modelled query reads, time stamps of deletions, SQL errors and timeouts.
- Database.Database.UpdateAttribute: the fields of the thread object in memory, only its row is modelled.
- Database.Database.ChangeThreadBoardID: whether the board exists is a parameter.
- Database.Database.DeletePosts: the rows and files of uploads, checking passwords, answering the request, and what happens between its statements, which `Lifecycle.MarkIdsKeepsIff` is about; each post has at most one file row.
- Database.Database.PostReply: whether the upload could be attached and its files taken over are parameters; files of pruned posts, and what other requests do between its statements.
- Filters.Filtering.FilterPost: handlers registered from outside, the JSON text of a hit, and changes to tables or files between the phases; a filter's boards are a set without repeats, and the rows of a query come in table order.
- Filters.Filtering.ReceivePost: what else `MakePost` can refuse a post for between rewriting and filtering, and plugins that change the message.
- BoardPages.PageThread: the database queries; posts come in the order of their ids, with a reply count and uploads that fit them, as its last clause assumes.
- BoardPages.BoardCatalog.FillPages: zero threads per page, which panics on the division.
- Reports.ReportTable.HandleReport: request parsing, trimming of the reason, and the columns for addresses and staff.
- Formatting.FormatLine: URL wrapping, BBCode, splitting the message into trimmed lines and joining them, and dice; lower-casing of a hashtag is for ASCII letters.
- HTTP handling, templates, thumbnails, configuration, schema migration, the frontend and plugins: input and output around the modelled logic.
