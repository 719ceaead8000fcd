/**
 pkg/posting/reports.go, pkg/gcsql/reports.go and pkg/manage/reports.go: reporting posts, dismissing
 and blocking reports, and cleaning up after deleted posts.
 */
module Reports {
  import opened Sets

  /** The `is_cleared` column: 0, 1 and 2. */
  datatype Cleared = Open | Dismissed | Blocked

  datatype Report = Report(postID: int, reason: string, cleared: Cleared)

  /** The report table, the status in the audit row of each report id, and the counter behind the ids. */
  datatype Tables = Tables(reports: map<int, Report>, audits: map<int, Cleared>, nextReport: int)

  // ---------------------------------------------------------------- queries and updates

  /** The rows that the query of `CheckPostReports` counts. */
  function Relevant(t: Tables, postID: int, reason: string): set<int> {
    set id | id in t.reports && t.reports[id].postID == postID
        && (t.reports[id].reason == reason || t.reports[id].cleared.Blocked?)
  }

  predicate IsReported(t: Tables, postID: int, reason: string) {
    exists id :: id in t.reports && t.reports[id].postID == postID && t.reports[id].reason == reason
  }

  predicate IsBlocked(t: Tables, postID: int) {
    exists id :: id in t.reports && t.reports[id].postID == postID && t.reports[id].cleared.Blocked?
  }

  function Created(t: Tables, postID: int, reason: string): Tables {
    Tables(t.reports[t.nextReport := Report(postID, reason, Open)], t.audits[t.nextReport := Open], t.nextReport + 1)
  }

  /** Each post in turn, unless it is already reported for this reason or blocked. */
  function Handled(t: Tables, postIDs: seq<int>, reason: string): Tables {
    if |postIDs| == 0 then t
    else
      var last := postIDs[|postIDs| - 1];
      var before := Handled(t, postIDs[..|postIDs| - 1], reason);
      if IsReported(before, last, reason) || IsBlocked(before, last) then before else Created(before, last, reason)
  }

  function StatusOf(block: bool): Cleared {
    if block then Blocked else Dismissed
  }

  /** Both updates of `ClearReport`; each has an effect if its row is there. */
  function Clear(t: Tables, id: int, block: bool): Tables {
    t.(reports := if id in t.reports then t.reports[id := t.reports[id].(cleared := StatusOf(block))] else t.reports,
       audits := if id in t.audits then t.audits[id := StatusOf(block)] else t.audits)
  }

  /** `UPDATE reports SET is_cleared = 1` */
  function DismissAll(t: Tables): Tables {
    t.(reports := map id | id in t.reports :: t.reports[id].(cleared := Dismissed))
  }

  /**
   `DeleteReportsOfDeletedPosts`. Its second statement compares the report ids of audit rows with
   the ids of deleted posts; where foreign keys are enforced, the first deletes the audit rows of the
   deleted reports too.
   */
  function CleanUp(t: Tables, deletedPosts: set<int>, enforced: bool): Tables {
    var kept := map id | id in t.reports && t.reports[id].postID !in deletedPosts :: t.reports[id];
    t.(reports := kept,
       audits := map id | id in t.audits && id !in deletedPosts && !(enforced && id in t.reports && id !in kept)
                 :: t.audits[id])
  }

  class ReportTable {
    var reports: map<int, Report>
    var audits: map<int, Cleared>
    var nextReport: int

    ghost function Value(): Tables
      reads this
    {
      Tables(reports, audits, nextReport)
    }

    constructor ()
      ensures Value() == EMPTY
    {
      reports, audits, nextReport := map[], map[], 1;
    }

    /** `CheckPostReports`: the number of relevant rows and their greatest `is_cleared`. */
    method CheckPostReports(postID: int, reason: string) returns (isDuplicate: bool, isBlocked: bool)
      ensures isBlocked <==> exists id :: id in reports && reports[id].postID == postID && reports[id].cleared.Blocked?
      ensures isDuplicate <==> exists id :: id in reports && reports[id].postID == postID
                                            && (reports[id].reason == reason || reports[id].cleared.Blocked?)
    {
      var rows := set id | id in reports && reports[id].postID == postID
          && (reports[id].reason == reason || reports[id].cleared.Blocked?);
      assert rows == Relevant(Value(), postID, reason);
      isBlocked := exists id :: id in rows && reports[id].cleared.Blocked?;
      isDuplicate := rows != {};
      assert isBlocked == IsBlocked(Value(), postID);
      if isDuplicate {
        ghost var id := Element(rows);
        assert id in reports;
      }
      forall id | id in reports && reports[id].postID == postID
          && (reports[id].reason == reason || reports[id].cleared.Blocked?)
        ensures isDuplicate
      {
        assert id in rows;
      }
    }

    /** `CreateReport` */
    method CreateReport(postID: int, reason: string) returns (id: int)
      modifies this
      ensures id == old(nextReport) && Value() == Created(old(Value()), postID, reason)
    {
      id := nextReport;
      reports := reports[id := Report(postID, reason, Open)];
      nextReport := nextReport + 1;
      audits := audits[id := Open];
    }

    /** The loop of `HandleReport`. */
    method HandleReport(reportedPosts: seq<int>, reason: string)
      modifies this
      ensures Value() == Handled(old(Value()), reportedPosts, reason)
    {
      for i := 0 to |reportedPosts|
        invariant Value() == Handled(old(Value()), reportedPosts[..i], reason)
      {
        assert reportedPosts[..i + 1][..i] == reportedPosts[..i];
        var isDuplicate, isBlocked := CheckPostReports(reportedPosts[i], reason);
        assert isBlocked == IsBlocked(Value(), reportedPosts[i]);
        assert isDuplicate == (IsReported(Value(), reportedPosts[i], reason) || IsBlocked(Value(), reportedPosts[i]));
        if isDuplicate || isBlocked {
          continue;
        }
        var id := CreateReport(reportedPosts[i], reason);
      }
      assert reportedPosts[..|reportedPosts|] == reportedPosts;
    }

    /** `ClearReport` */
    method ClearReport(id: int, block: bool) returns (matched: bool)
      modifies `reports, `audits
      ensures matched == (id in old(reports)) && Value() == Clear(old(Value()), id, block)
    {
      var isCleared := Dismissed;
      if block {
        isCleared := Blocked;
      }
      matched := id in reports;
      if matched {
        reports := reports[id := reports[id].(cleared := isCleared)];
      }
      if id in audits {
        audits := audits[id := isCleared];
      }
    }

    /** Dismissing all reports, in `doReportHandling`. */
    method DismissAllReports()
      modifies `reports
      ensures Value() == DismissAll(old(Value()))
    {
      reports := map id | id in reports :: reports[id].(cleared := Dismissed);
    }

    /** `DeleteReportsOfDeletedPosts` */
    method DeleteReportsOfDeletedPosts(deletedPosts: set<int>, enforced: bool)
      modifies this
      ensures Value() == CleanUp(old(Value()), deletedPosts, enforced)
    {
      var removed := set id | id in reports && reports[id].postID in deletedPosts;
      reports := map id | id in reports && reports[id].postID !in deletedPosts :: reports[id];
      if enforced {
        audits := map id | id in audits && id !in removed :: audits[id];
      }
      audits := map id | id in audits && id !in deletedPosts :: audits[id];
    }

    /** An action of a run, carried out by the operation it stands for. */
    method Perform(action: Action)
      modifies this
      ensures Value() == Do(old(Value()), action)
    {
      match action
      case Request(postIDs, reason) => HandleReport(postIDs, reason);
      case ClearOne(id, block) => var matched := ClearReport(id, block);
      case ClearAll => DismissAllReports();
      case Clean(deletedPosts, enforced) => DeleteReportsOfDeletedPosts(deletedPosts, enforced);
    }
  }

  // ---------------------------------------------------------------- the invariant

  predicate SameReport(a: Report, b: Report) {
    a.postID == b.postID && a.reason == b.reason
  }

  /** At most one report per post and reason. */
  ghost predicate UniqueReports(t: Tables) {
    && (forall i, j :: i in t.reports && j in t.reports && SameReport(t.reports[i], t.reports[j]) ==> i == j)
    && (forall id :: id in t.reports ==> id < t.nextReport)
  }

  lemma CreatedKeeps(t: Tables, postID: int, reason: string)
    requires UniqueReports(t) && !IsReported(t, postID, reason)
    ensures UniqueReports(Created(t, postID, reason))
  {
  }

  lemma {:induction false} HandledKeeps(t: Tables, postIDs: seq<int>, reason: string)
    requires UniqueReports(t)
    ensures UniqueReports(Handled(t, postIDs, reason))
  {
    if |postIDs| > 0 {
      var last := postIDs[|postIDs| - 1];
      HandledKeeps(t, postIDs[..|postIDs| - 1], reason);
      var before := Handled(t, postIDs[..|postIDs| - 1], reason);
      if !IsReported(before, last, reason) {
        CreatedKeeps(before, last, reason);
      }
    }
  }

  // ---------------------------------------------------------------- what each update changes

  /** The new report is open, has its own row and audit row, and nothing else changes. */
  lemma CreatedExactly(t: Tables, postID: int, reason: string)
    requires UniqueReports(t)
    ensures var t', id := Created(t, postID, reason), t.nextReport;
            && id !in t.reports && t'.nextReport == id + 1
            && t'.reports.Keys == t.reports.Keys + {id} && t'.reports[id] == Report(postID, reason, Open)
            && t'.audits.Keys == t.audits.Keys + {id} && t'.audits[id] == Open
            && (forall r :: r in t.reports ==> t'.reports[r] == t.reports[r])
            && (forall r :: r in t.audits && r != id ==> t'.audits[r] == t.audits[r])
  {
  }

  /**
   The report becomes blocked or dismissed and keeps its post and reason; its audit row, if there
   is one, gets the same status; other reports and audit rows stay.
   */
  lemma ClearExactly(t: Tables, id: int, block: bool)
    ensures var t' := Clear(t, id, block);
            var status := if block then Blocked else Dismissed;
            && t'.reports.Keys == t.reports.Keys && t'.audits.Keys == t.audits.Keys && t'.nextReport == t.nextReport
            && (forall r :: r in t.reports ==>
                  t'.reports[r] == if r == id then Report(t.reports[r].postID, t.reports[r].reason, status)
                                   else t.reports[r])
            && (forall r :: r in t.audits ==> t'.audits[r] == if r == id then status else t.audits[r])
  {
  }

  /** Every report becomes dismissed and keeps its post and reason; the audit rows stay. */
  lemma DismissExactly(t: Tables)
    ensures var t' := DismissAll(t);
            && t'.reports.Keys == t.reports.Keys && t'.audits == t.audits && t'.nextReport == t.nextReport
            && forall r :: r in t.reports ==>
                 t'.reports[r] == Report(t.reports[r].postID, t.reports[r].reason, Dismissed)
  {
  }

  /** The rows a cleanup leaves are as they were. */
  lemma CleanUpExactly(t: Tables, deletedPosts: set<int>, enforced: bool)
    ensures var t' := CleanUp(t, deletedPosts, enforced);
            && t'.nextReport == t.nextReport
            && (forall r :: r in t'.reports <==> r in t.reports && t.reports[r].postID !in deletedPosts)
            && (forall r :: r in t'.reports ==> t'.reports[r] == t.reports[r])
            && (forall r :: r in t'.audits <==>
                  r in t.audits && r !in deletedPosts
                  && !(enforced && r in t.reports && t.reports[r].postID in deletedPosts))
            && (forall r :: r in t'.audits ==> t'.audits[r] == t.audits[r])
  {
  }

  /** Once a report is cleared with `block`, no request adds a report of its post. */
  lemma BlockingBlocks(t: Tables, id: int, postIDs: seq<int>, reason: string)
    requires UniqueReports(t) && id in t.reports
    ensures var blocked := Clear(t, id, true);
            var t' := Handled(blocked, postIDs, reason);
            && blocked.reports[id].cleared == Blocked
            && forall r :: r in t'.reports && t'.reports[r].postID == t.reports[id].postID ==> r in t.reports
  {
    var blocked := Clear(t, id, true);
    ClearExactly(t, id, true);
    assert IsBlocked(blocked, t.reports[id].postID) by {
      assert id in blocked.reports && blocked.reports[id].cleared.Blocked?;
    }
    HandledExactly(blocked, postIDs, reason);
  }

  /** What a request to report leaves: old reports as they were, and a report for every post not blocked. */
  lemma {:induction false} HandledExactly(t: Tables, postIDs: seq<int>, reason: string)
    requires UniqueReports(t)
    ensures var t' := Handled(t, postIDs, reason);
            && (forall id :: id in t.reports ==> id in t'.reports && t'.reports[id] == t.reports[id])
            && (forall id :: id in t'.reports && id !in t.reports ==>
                  && t'.reports[id].postID in postIDs && t'.reports[id].reason == reason && t'.reports[id].cleared.Open?
                  && !IsBlocked(t, t'.reports[id].postID) && !IsReported(t, t'.reports[id].postID, reason))
            && (forall p :: p in postIDs && !IsBlocked(t, p) ==> IsReported(t', p, reason))
            && (forall p :: IsBlocked(t', p) <==> IsBlocked(t, p))
  {
    if |postIDs| > 0 {
      var front, last := postIDs[..|postIDs| - 1], postIDs[|postIDs| - 1];
      HandledExactly(t, front, reason);
      HandledKeeps(t, front, reason);
      var before := Handled(t, front, reason);
      var t' := Handled(t, postIDs, reason);
      assert forall p :: p in postIDs ==> p in front || p == last;
      assert IsReported(t, last, reason) ==> IsReported(before, last, reason);
      if t' != before {
        assert t'.reports[before.nextReport] == Report(last, reason, Open);
        assert forall id :: id in before.reports ==> t'.reports[id] == before.reports[id];
        forall p | IsReported(before, p, reason) ensures IsReported(t', p, reason) {
          var id :| id in before.reports && before.reports[id].postID == p && before.reports[id].reason == reason;
          assert id in t'.reports;
        }
        forall p | IsBlocked(before, p) ensures IsBlocked(t', p) {
          var id :| id in before.reports && before.reports[id].postID == p && before.reports[id].cleared.Blocked?;
          assert id in t'.reports;
        }
      }
    }
  }

  // ---------------------------------------------------------------- runs

  datatype Action =
    | Request(postIDs: seq<int>, reason: string)
    | ClearOne(id: int, block: bool)
    | ClearAll
    | Clean(deletedPosts: set<int>, enforced: bool)

  const EMPTY := Tables(map[], map[], 1)

  function Do(t: Tables, action: Action): Tables {
    match action
    case Request(postIDs, reason) => Handled(t, postIDs, reason)
    case ClearOne(id, block) => Clear(t, id, block)
    case ClearAll => DismissAll(t)
    case Clean(deletedPosts, enforced) => CleanUp(t, deletedPosts, enforced)
  }

  function AfterRun(actions: seq<Action>): Tables {
    if |actions| == 0 then EMPTY else Do(AfterRun(actions[..|actions| - 1]), actions[|actions| - 1])
  }

  /** In every state of every run there is at most one report per post and reason. */
  lemma {:induction false} ReportsStayUnique(actions: seq<Action>)
    ensures UniqueReports(AfterRun(actions))
  {
    if |actions| > 0 {
      var t := AfterRun(actions[..|actions| - 1]);
      ReportsStayUnique(actions[..|actions| - 1]);
      match actions[|actions| - 1]
      case Request(postIDs, reason) => HandledKeeps(t, postIDs, reason);
      case ClearOne(_, _) =>
      case ClearAll =>
      case Clean(_, _) =>
    }
  }

  /** No action adds a report of a post that has a blocked one. */
  lemma BlockedPostsGetNoReports(actions: seq<Action>, action: Action, id: int)
    requires id in AfterRun(actions).reports && AfterRun(actions).reports[id].cleared == Blocked
    ensures var t, t' := AfterRun(actions), Do(AfterRun(actions), action);
            forall r :: r in t'.reports && t'.reports[r].postID == t.reports[id].postID ==> r in t.reports
  {
    var t := AfterRun(actions);
    ReportsStayUnique(actions);
    match action
    case Request(postIDs, reason) =>
      assert IsBlocked(t, t.reports[id].postID);
      HandledExactly(t, postIDs, reason);
    case _ =>
  }

  /** A block lasts until all reports are dismissed, its own report is dismissed, or its post is deleted. */
  lemma BlockLasts(t: Tables, action: Action, id: int)
    requires UniqueReports(t) && id in t.reports && t.reports[id].cleared.Blocked?
    ensures var t' := Do(t, action);
            (id in t'.reports && t'.reports[id].cleared.Blocked?) <==>
              !action.ClearAll? && action != ClearOne(id, false)
              && !(action.Clean? && t.reports[id].postID in action.deletedPosts)
  {
    match action
    case Request(postIDs, reason) => HandledExactly(t, postIDs, reason);
    case _ =>
  }

  ghost predicate EveryReportAudited(t: Tables) {
    forall id :: id in t.reports ==> id in t.audits
  }

  ghost predicate EveryAuditReported(t: Tables) {
    forall id :: id in t.audits ==> id in t.reports
  }

  /**
   The cleanup removes exactly the reports of deleted posts. It keeps every remaining report's audit
   row exactly when no remaining report has the id of a deleted post; and it leaves no audit row
   without its report exactly when foreign keys are enforced or every removed report has such an id.
   */
  lemma AuditsKeptIff(t: Tables, deletedPosts: set<int>, enforced: bool)
    requires EveryReportAudited(t) && EveryAuditReported(t)
    ensures var t' := CleanUp(t, deletedPosts, enforced);
            && (forall id :: id in t.reports ==> (id in t'.reports <==> t.reports[id].postID !in deletedPosts))
            && (EveryReportAudited(t') <==>
                  forall id :: id in t.reports && t.reports[id].postID !in deletedPosts ==> id !in deletedPosts)
            && (EveryAuditReported(t') <==>
                  enforced || forall id :: id in t.reports && t.reports[id].postID in deletedPosts ==>
                      id in deletedPosts)
  {
    var t' := CleanUp(t, deletedPosts, enforced);
    if EveryReportAudited(t') {
      forall id | id in t.reports && t.reports[id].postID !in deletedPosts ensures id !in deletedPosts {
        assert id in t'.reports;
      }
    }
    if EveryAuditReported(t') && !enforced {
      forall id | id in t.reports && t.reports[id].postID in deletedPosts ensures id in deletedPosts {
        assert id !in t'.reports;
      }
    }
  }

  /** Report 1 of the live post 2 loses its audit row when post 1 is deleted, with or without foreign keys. */
  lemma AuditLost(reason: string, enforced: bool)
    ensures var t := Created(EMPTY, 2, reason);
            && AfterRun([Request([2], reason)]) == t
            && var t' := CleanUp(t, {1}, enforced);
               t'.reports == map[1 := Report(2, reason, Open)] && t'.audits == map[]
  {
    var t := Created(EMPTY, 2, reason);
    assert [2][..0] == [] && [Request([2], reason)][..0] == [];
    assert Handled(EMPTY, [], reason) == EMPTY;
    assert Handled(EMPTY, [2], reason) == t;
    assert AfterRun([]) == EMPTY;
  }
}
