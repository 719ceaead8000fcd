/**
 pkg/gcsql/filters.go, pkg/gcsql/filterhandlers.go and the filtering in pkg/posting/post.go: a new
 post is tested against the filters of its board twice, before its upload is processed against the
 filters that do not look at an upload, and afterwards against the others.
 */
module Filters {
  import opened Wrappers
  import opened Strings

  /** The post columns and request fields that conditions look at. */
  datatype Post = Post(name: string, tripcode: string, email: string, subject: string, messageRaw: string,
                       isTopPost: bool, userAgent: string)

  datatype Upload = Upload(originalFilename: string, filename: string, checksum: string)

  datatype Condition = Condition(matchMode: int, search: string, field: string)

  datatype Filter = Filter(id: int, isActive: bool, matchAction: string, matchDetail: string, staffID: Option<int>,
                           handleIfAny: bool, conditions: seq<Condition>, boards: set<int>)

  datatype Error =
    | InvalidStringMatchMode
    | InvalidConditionField
    | InvalidMatchAction
    | ConditionFailed   // a regular expression that does not compile, or a failed query or fingerprint
    | NilStaffPanic     // a ban by a filter without staff dereferences nil
    | WordfilterFailed  // a wordfilter without exactly one condition, or whose expression does not compile

  /**
   What the conditions and wordfilters ask of code outside: `None` is an error. `regexReplace` is given
   the expression, the message and the replacement; `fingerprint` maps an upload's file name.
   */
  datatype Env = Env(toLower: string -> string, regexp: (string, string) -> Option<bool>,
                     regexReplace: (string, string, string) -> Option<string>,
                     firstOnBoard: Option<bool>, firstOnSite: Option<bool>, fingerprint: string -> Option<Fingerprint>)

  datatype Fingerprint = Hash(value: string) | VideoWithoutFingerprint

  // ---------------------------------------------------------------- conditions

  function OrError(r: Option<bool>): Result<bool, Error> {
    if r.Some? then Success(r.value) else Failure(ConditionFailed)
  }

  function Not(r: Result<bool, Error>): Result<bool, Error> {
    if r.Success? then Success(!r.value) else r
  }

  /** `matchString` */
  function MatchString(env: Env, c: Condition, s: string): Result<bool, Error> {
    match c.matchMode
    case 0 => Success(HasSubstring(s, c.search))
    case 1 => Success(HasSubstring(env.toLower(s), env.toLower(c.search)))
    case 2 => OrError(env.regexp(c.search, s))
    case 3 => Success(s == c.search)
    case _ => Failure(InvalidStringMatchMode)
  }

  /** `testCondition` over the built-in handlers and the `ahash` handler of initsql. */
  function TestCondition(env: Env, c: Condition, post: Post, upload: Option<Upload>): Result<bool, Error> {
    match c.field
    case "name" => MatchString(env, c, post.name)
    case "trip" => MatchString(env, c, post.tripcode)
    case "email" => MatchString(env, c, post.email)
    case "subject" => MatchString(env, c, post.subject)
    case "body" => MatchString(env, c, post.messageRaw)
    case "firsttimeboard" => OrError(env.firstOnBoard)
    case "notfirsttimeboard" => Not(OrError(env.firstOnBoard))
    case "firsttimesite" => OrError(env.firstOnSite)
    case "notfirsttimesite" => Not(OrError(env.firstOnSite))
    case "isop" => Success(post.isTopPost)
    case "notop" => Success(!post.isTopPost)
    case "hasfile" => Success(upload.Some?)
    case "nofile" => Success(upload.None?)
    case "filename" => if upload.None? then Success(false) else MatchString(env, c, upload.value.originalFilename)
    case "checksum" => if upload.None? then Success(false) else Success(upload.value.checksum == c.search)
    case "ahash" =>
      if upload.None? then Success(false)
      else
        var f := env.fingerprint(upload.value.filename);
        if f.None? then Failure(ConditionFailed)
        else if f.value.VideoWithoutFingerprint? then Success(false)
        else Success(f.value.value == c.search)
    case "useragent" => MatchString(env, c, post.userAgent)
    case _ => Failure(InvalidConditionField)
  }

  /**
   A condition on a text compares it as its mode says: a part of it, the same in lower case, an
   expression, all of it.
   */
  lemma TextConditions(env: Env, c: Condition, post: Post, upload: Option<Upload>, s: string)
    requires || (c.field, s) in {("name", post.name), ("trip", post.tripcode), ("email", post.email)}
             || (c.field, s) in {("subject", post.subject), ("body", post.messageRaw), ("useragent", post.userAgent)}
             || (c.field == "filename" && upload.Some? && s == upload.value.originalFilename)
    ensures var r := TestCondition(env, c, post, upload);
            var lower, search := env.toLower(s), env.toLower(c.search);
            && (c.matchMode == 0 ==> r == Success(exists i, j :: 0 <= i <= j <= |s| && s[i..j] == c.search))
            && (c.matchMode == 1 ==> r == Success(exists i, j :: 0 <= i <= j <= |lower| && lower[i..j] == search))
            && (c.matchMode == 2 ==>
                  r == if env.regexp(c.search, s).Some? then Success(env.regexp(c.search, s).value)
                       else Failure(ConditionFailed))
            && (c.matchMode == 3 ==> r == Success(s == c.search))
            && (c.matchMode !in {0, 1, 2, 3} ==> r == Failure(InvalidStringMatchMode))
  {
    SubstringIsSlice(s, c.search);
    SubstringIsSlice(env.toLower(s), env.toLower(c.search));
  }

  /** The conditions that are not on a text. */
  lemma OtherConditions(env: Env, c: Condition, post: Post, upload: Option<Upload>)
    ensures var r := TestCondition(env, c, post, upload);
            && (c.field in {"firsttimeboard", "notfirsttimeboard"} ==>
                  r == if env.firstOnBoard.None? then Failure(ConditionFailed)
                       else Success(env.firstOnBoard.value == (c.field == "firsttimeboard")))
            && (c.field in {"firsttimesite", "notfirsttimesite"} ==>
                  r == if env.firstOnSite.None? then Failure(ConditionFailed)
                       else Success(env.firstOnSite.value == (c.field == "firsttimesite")))
            && (c.field in {"isop", "notop"} ==> r == Success(post.isTopPost == (c.field == "isop")))
            && (c.field in {"hasfile", "nofile"} ==> r == Success(upload.Some? == (c.field == "hasfile")))
            && (c.field in {"filename", "checksum", "ahash"} && upload.None? ==> r == Success(false))
            && (c.field == "checksum" && upload.Some? ==> r == Success(upload.value.checksum == c.search))
            && (c.field == "ahash" && upload.Some? ==>
                  var f := env.fingerprint(upload.value.filename);
                  r == if f.None? then Failure(ConditionFailed) else Success(f.value == Hash(c.search)))
            && (c.field !in TEXT_FIELDS + OTHER_FIELDS ==> r == Failure(InvalidConditionField))
  {
  }

  const TEXT_FIELDS := {"name", "trip", "email", "subject", "body", "useragent", "filename"}
  const OTHER_FIELDS := {"firsttimeboard", "notfirsttimeboard", "firsttimesite", "notfirsttimesite",
                         "isop", "notop", "hasfile", "nofile", "checksum", "ahash"}

  /** The field list in the query of `uploadFilterHelper`. */
  const UPLOAD_FIELDS := {"hasfile", "nofile", "filename", "checksum", "ahash"}

  predicate LooksAtUpload(f: Filter) {
    exists i :: 0 <= i < |f.conditions| && f.conditions[i].field in UPLOAD_FIELDS
  }

  // ---------------------------------------------------------------- one filter

  /** What `checkIfMatch` decides about the conditions from the first one on. */
  function Matches(env: Env, any: bool, conditions: seq<Condition>, post: Post, upload: Option<Upload>)
    : Result<bool, Error>
  {
    if |conditions| == 0 then Success(!any)
    else
      var first := TestCondition(env, conditions[0], post, upload);
      if first.Failure? || first.value == any then first
      else Matches(env, any, conditions[1..], post, upload)
  }

  function FilterMatches(env: Env, f: Filter, post: Post, upload: Option<Upload>): Result<bool, Error> {
    Matches(env, f.handleIfAny, f.conditions, post, upload)
  }

  method CheckIfMatch(env: Env, f: Filter, post: Post, upload: Option<Upload>) returns (r: Result<bool, Error>)
    ensures r == FilterMatches(env, f, post, upload)
  {
    var match': bool;
    for i := 0 to |f.conditions|
      invariant FilterMatches(env, f, post, upload) == Matches(env, f.handleIfAny, f.conditions[i..], post, upload)
    {
      assert f.conditions[i..][1..] == f.conditions[i + 1..];
      var tested := TestCondition(env, f.conditions[i], post, upload);
      if tested.Failure? {
        return Failure(tested.error);
      }
      match' := tested.value;
      if f.handleIfAny && match' {
        return Success(true);
      }
      if !f.handleIfAny && !match' {
        return Success(false);
      }
    }
    return Success(!f.handleIfAny);
  }

  ghost predicate NoConditionErrs(env: Env, f: Filter, post: Post, upload: Option<Upload>) {
    forall i :: 0 <= i < |f.conditions| ==> TestCondition(env, f.conditions[i], post, upload).Success?
  }

  ghost predicate Holds(env: Env, c: Condition, post: Post, upload: Option<Upload>) {
    TestCondition(env, c, post, upload) == Success(true)
  }

  /** A filter matches when any of its conditions hold, or when all of them do, as it is set. */
  lemma MatchesIsAnyOrAll(env: Env, f: Filter, post: Post, upload: Option<Upload>)
    requires NoConditionErrs(env, f, post, upload)
    ensures FilterMatches(env, f, post, upload) == Success(
              if f.handleIfAny then exists i :: 0 <= i < |f.conditions| && Holds(env, f.conditions[i], post, upload)
              else forall i :: 0 <= i < |f.conditions| ==> Holds(env, f.conditions[i], post, upload))
  {
    AnyOrAll(env, f.handleIfAny, f.conditions, post, upload);
  }

  lemma {:induction false} AnyOrAll(env: Env, any: bool, conditions: seq<Condition>, post: Post, upload: Option<Upload>)
    requires forall i :: 0 <= i < |conditions| ==> TestCondition(env, conditions[i], post, upload).Success?
    ensures Matches(env, any, conditions, post, upload) == Success(
              if any then exists i :: 0 <= i < |conditions| && Holds(env, conditions[i], post, upload)
              else forall i :: 0 <= i < |conditions| ==> Holds(env, conditions[i], post, upload))
  {
    if |conditions| > 0 {
      var rest := conditions[1..];
      AnyOrAll(env, any, rest, post, upload);
      assert forall i :: 1 <= i < |conditions| ==> conditions[i] == rest[i - 1];
      assert forall i :: 0 <= i < |rest| ==> rest[i] == conditions[i + 1];
      if any && exists i :: 0 <= i < |rest| && Holds(env, rest[i], post, upload) {
        var i :| 0 <= i < |rest| && Holds(env, rest[i], post, upload);
        assert Holds(env, conditions[i + 1], post, upload);
      }
    }
  }

  /**
   The conditions before some position do not decide. If there is one at it, its error or its outcome
   is the filter's; otherwise no condition decided.
   */
  lemma {:induction false} MatchStopsAt(env: Env, any: bool, conditions: seq<Condition>, post: Post,
      upload: Option<Upload>) returns (k: nat)
    ensures k <= |conditions|
    ensures forall j :: 0 <= j < k ==> TestCondition(env, conditions[j], post, upload) == Success(!any)
    ensures k < |conditions| ==> TestCondition(env, conditions[k], post, upload) != Success(!any)
    ensures Matches(env, any, conditions, post, upload) ==
              if k < |conditions| then TestCondition(env, conditions[k], post, upload) else Success(!any)
  {
    k := 0;
    if |conditions| > 0 && TestCondition(env, conditions[0], post, upload) == Success(!any) {
      k := MatchStopsAt(env, any, conditions[1..], post, upload);
      k := k + 1;
    }
  }

  /** A filter without an upload condition decides the same whatever the upload is. */
  lemma UploadIrrelevant(env: Env, f: Filter, post: Post, upload: Option<Upload>)
    requires !LooksAtUpload(f)
    ensures FilterMatches(env, f, post, upload) == FilterMatches(env, f, post, None)
  {
    UploadIrrelevantFrom(env, f.handleIfAny, f.conditions, post, upload);
  }

  /** On each of the fields in the list some condition is decided by the upload. */
  lemma UploadMatters(env: Env, field: string, post: Post, upload: Upload)
    requires field in UPLOAD_FIELDS
    requires field == "ahash" ==> env.fingerprint(upload.filename).Some? && env.fingerprint(upload.filename).value.Hash?
    ensures exists c: Condition :: c.field == field
              && TestCondition(env, c, post, Some(upload)) != TestCondition(env, c, post, None)
  {
    var search := if field == "checksum" then upload.checksum
                  else if field == "ahash" then env.fingerprint(upload.filename).value.value
                  else upload.originalFilename;
    var c := Condition(3, search, field);
    assert c.field == field;
    assert TestCondition(env, c, post, Some(upload)) != TestCondition(env, c, post, None);
  }

  lemma {:induction false} UploadIrrelevantFrom(env: Env, any: bool, conditions: seq<Condition>, post: Post,
      upload: Option<Upload>)
    requires forall i :: 0 <= i < |conditions| ==> conditions[i].field !in UPLOAD_FIELDS
    ensures Matches(env, any, conditions, post, upload) == Matches(env, any, conditions, post, None)
  {
    if |conditions| > 0 {
      assert conditions[0].field !in UPLOAD_FIELDS;
      assert TestCondition(env, conditions[0], post, upload) == TestCondition(env, conditions[0], post, None);
      UploadIrrelevantFrom(env, any, conditions[1..], post, upload);
    }
  }

  // ---------------------------------------------------------------- lists of filters

  /** The error, if any, with which `handleMatch` takes the filter's action. */
  function ActionError(f: Filter): Option<Error> {
    if f.matchAction == "reject" || f.matchAction == "log" then None
    else if f.matchAction == "ban" then (if f.staffID.None? then Some(NilStaffPanic) else None)
    else Some(InvalidMatchAction)
  }

  /** A run of `checkFilters`: the matching filter if any, the filters tested, the hits and bans recorded. */
  datatype Check = Check(result: Result<Option<Filter>, Error>, tested: seq<int>, hits: seq<int>, bans: seq<int>)

  /** The first filter that matches or errs ends the run. */
  function CheckAll(env: Env, filters: seq<Filter>, post: Post, upload: Option<Upload>): Check {
    if |filters| == 0 then Check(Success(None), [], [], [])
    else
      var f := filters[0];
      var m := FilterMatches(env, f, post, upload);
      if m.Failure? then Check(Failure(m.error), [f.id], [], [])
      else if m.value then
        var e := ActionError(f);
        Check(if e.Some? then Failure(e.value) else Success(Some(f)), [f.id], [f.id],
              if f.matchAction == "ban" && e.None? then [f.id] else [])
      else
        var rest := CheckAll(env, filters[1..], post, upload);
        rest.(tested := [f.id] + rest.tested)
  }

  /** A run over a list is a run over its first filter, followed by the rest if that does not end it. */
  lemma CheckFirst(env: Env, filters: seq<Filter>, post: Post, upload: Option<Upload>)
    requires |filters| > 0
    ensures var one := CheckAll(env, [filters[0]], post, upload);
            var rest := CheckAll(env, filters[1..], post, upload);
            && one.tested == [filters[0].id]
            && (one.result.Success? && one.result.value.Some? ==> one.result.value.value == filters[0])
            && (one.result.Success? && one.result.value.None? ==> one.hits == [] && one.bans == [])
            && CheckAll(env, filters, post, upload) ==
                 if one.result == Success(None) then rest.(tested := one.tested + rest.tested) else one
  {
    assert [filters[0]][1..] == [];
  }

  /**
   A filter that does not fail to match ends the run. If its condition errs, that is the result;
   otherwise its hit is recorded and its action taken: with reject and log it is the result, with
   ban too, if it has staff, and the ban is recorded; anything else is an error.
   */
  ghost predicate EndsWith(env: Env, f: Filter, post: Post, upload: Option<Upload>,
      result: Result<Option<Filter>, Error>, hits: seq<int>, bans: seq<int>) {
    var m := FilterMatches(env, f, post, upload);
    var banned := f.matchAction == "ban" && f.staffID.Some?;
    && m != Success(false)
    && (m.Failure? ==> result == Failure(m.error) && hits == [] && bans == [])
    && (m.Success? ==> hits == [f.id] && bans == if banned then [f.id] else [])
    && (m.Success? ==>
          result == if f.matchAction in {"reject", "log"} || banned then Success(Some(f))
                    else if f.matchAction == "ban" then Failure(NilStaffPanic) else Failure(InvalidMatchAction))
  }

  lemma EndsAtFirst(env: Env, filters: seq<Filter>, post: Post, upload: Option<Upload>)
    requires |filters| > 0 && FilterMatches(env, filters[0], post, upload) != Success(false)
    ensures CheckAll(env, filters, post, upload).tested == [filters[0].id]
    ensures var check := CheckAll(env, filters, post, upload);
            EndsWith(env, filters[0], post, upload, check.result, check.hits, check.bans)
  {
  }

  /** The filters before some position are tested and do not match, and the one at it, if any, ends the run. */
  lemma {:induction false} CheckStopsAt(env: Env, filters: seq<Filter>, post: Post, upload: Option<Upload>)
    returns (k: nat)
    ensures k <= |filters| && forall j :: 0 <= j < k ==> FilterMatches(env, filters[j], post, upload) == Success(false)
    ensures var check := CheckAll(env, filters, post, upload);
            if k == |filters| then check == Check(Success(None), Ids(filters), [], [])
            else
              && check.tested == Ids(filters)[..k + 1]
              && EndsWith(env, filters[k], post, upload, check.result, check.hits, check.bans)
  {
    k := 0;
    if |filters| > 0 {
      if FilterMatches(env, filters[0], post, upload) == Success(false) {
        k := CheckStopsAt(env, filters[1..], post, upload);
        CheckSkips(env, filters, k, post, upload);
        k := k + 1;
        assert forall j :: 1 <= j < |filters| ==> filters[j] == filters[1..][j - 1];
      } else {
        EndsAtFirst(env, filters, post, upload);
        assert Ids(filters)[..1] == [filters[0].id];
      }
    }
  }

  lemma CheckSkips(env: Env, filters: seq<Filter>, k: nat, post: Post, upload: Option<Upload>)
    requires |filters| > 0 && k <= |filters| - 1 && FilterMatches(env, filters[0], post, upload) == Success(false)
    ensures var rest := CheckAll(env, filters[1..], post, upload);
            CheckAll(env, filters, post, upload) ==
              Check(rest.result, [filters[0].id] + rest.tested, rest.hits, rest.bans)
    ensures Ids(filters) == [filters[0].id] + Ids(filters[1..])
    ensures k < |filters| - 1 ==> Ids(filters)[..k + 2] == [filters[0].id] + Ids(filters[1..])[..k + 1]
  {
    assert Ids(filters) == [filters[0].id] + Ids(filters[1..]);
  }

  /** `check` is what `rest` makes of the filters left after those in `tested`. */
  predicate Continues(check: Check, tested: seq<int>, rest: Check) {
    check.result == rest.result && check.hits == rest.hits && check.bans == rest.bans
        && check.tested == tested + rest.tested
  }

  /** After the filter at `i` the run goes on with the filters behind it, or that filter ends it. */
  lemma ContinuesWith(env: Env, filters: seq<Filter>, i: nat, post: Post, upload: Option<Upload>, check: Check,
      tested: seq<int>)
    requires i < |filters| && Continues(check, tested, CheckAll(env, filters[i..], post, upload))
    ensures var one := CheckAll(env, [filters[i]], post, upload);
            && (one.result.Success? && one.result.value.Some? ==> one.result.value.value == filters[i])
            && if one.result == Success(None)
               then one.hits == [] && one.bans == []
                    && Continues(check, tested + [filters[i].id], CheckAll(env, filters[i + 1..], post, upload))
               else check == Check(one.result, tested + [filters[i].id], one.hits, one.bans)
  {
    CheckFirst(env, filters[i..], post, upload);
    assert filters[i..][1..] == filters[i + 1..];
  }

  predicate AppliesTo(f: Filter, boardID: int) {
    f.isActive && (f.boards == {} || boardID in f.boards)
  }

  /** The query of `DoNonUploadFiltering`; unlike the other it does not leave out wordfilters. */
  function NonUploadFilters(table: seq<Filter>, boardID: int): seq<Filter> {
    if |table| == 0 then []
    else
      (if AppliesTo(table[0], boardID) && !LooksAtUpload(table[0]) then [table[0]] else [])
      + NonUploadFilters(table[1..], boardID)
  }

  /** The query of `DoPostFiltering`. */
  function PostFilters(table: seq<Filter>, boardID: int, excluded: seq<int>): seq<Filter> {
    if |table| == 0 then []
    else
      (if AppliesTo(table[0], boardID) && table[0].matchAction != "replace" && table[0].id !in excluded
        then [table[0]] else [])
      + PostFilters(table[1..], boardID, excluded)
  }

  function Ids(filters: seq<Filter>): (r: seq<int>)
    ensures |r| == |filters| && forall i :: 0 <= i < |r| ==> r[i] == filters[i].id
  {
    seq(|filters|, i requires 0 <= i < |filters| => filters[i].id)
  }

  // ---------------------------------------------------------------- wordfilters

  /** The query of `GetBoardWordfilters`. */
  function Wordfilters(table: seq<Filter>, boardID: int): seq<Filter> {
    if |table| == 0 then []
    else
      (if AppliesTo(table[0], boardID) && table[0].matchAction == "replace" then [table[0]] else [])
      + Wordfilters(table[1..], boardID)
  }

  /** `Wordfilter.Apply`: the field of the condition is not looked at, and its mode only as far as being 2. */
  function ApplyWordfilter(env: Env, f: Filter, message: string): Result<string, Error> {
    if |f.conditions| != 1 then Failure(WordfilterFailed)
    else
      var c := f.conditions[0];
      if c.matchMode != 2 then Success(ReplaceAll(message, c.search, f.matchDetail))
      else
        var r := env.regexReplace(c.search, message, f.matchDetail);
        if r.None? then Failure(WordfilterFailed) else Success(r.value)
  }

  /** The message after one wordfilter after another. */
  function Rewrite(env: Env, filters: seq<Filter>, message: string): Result<string, Error> {
    if |filters| == 0 then Success(message)
    else
      var r := ApplyWordfilter(env, filters[0], message);
      if r.Failure? then r else Rewrite(env, filters[1..], r.value)
  }

  /** Applying a list of wordfilters and then another is applying them as one list. */
  lemma {:induction false} RewriteConcat(env: Env, a: seq<Filter>, b: seq<Filter>, message: string)
    ensures Rewrite(env, a + b, message) ==
              var first := Rewrite(env, a, message);
              if first.Failure? then first else Rewrite(env, b, first.value)
  {
    if |a| == 0 {
      assert a + b == b;
    } else {
      assert (a + b)[0] == a[0] && (a + b)[1..] == a[1..] + b;
      var r := ApplyWordfilter(env, a[0], message);
      if r.Success? {
        RewriteConcat(env, a[1..], b, r.value);
      }
    }
  }

  /**
   A wordfilter with one condition that is no expression puts its detail in the place of what it
   searches for; with an expression it is what replacing by it gives; any other number of
   conditions is an error. No wordfilter leaves the message alone.
   */
  lemma RewriteOne(env: Env, f: Filter, message: string)
    ensures Rewrite(env, [], message) == Success(message)
    ensures |f.conditions| != 1 ==> Rewrite(env, [f], message) == Failure(WordfilterFailed)
    ensures |f.conditions| == 1 && f.conditions[0].matchMode == 2 ==>
              var r := env.regexReplace(f.conditions[0].search, message, f.matchDetail);
              Rewrite(env, [f], message) == if r.Some? then Success(r.value) else Failure(WordfilterFailed)
    ensures |f.conditions| == 1 && f.conditions[0].matchMode != 2 && f.conditions[0].search != "" ==>
              exists pieces :: |pieces| > 0 && Join(pieces, f.conditions[0].search) == message
                               && Leftmost(pieces, f.conditions[0].search)
                               && Rewrite(env, [f], message) == Success(Join(pieces, f.matchDetail))
  {
    assert [f][1..] == [];
    if |f.conditions| == 1 && f.conditions[0].matchMode != 2 && f.conditions[0].search != "" {
      var search := f.conditions[0].search;
      ReplaceIsJoin(message, search, f.matchDetail);
      var pieces :| |pieces| > 0 && Join(pieces, search) == message && Leftmost(pieces, search)
                    && ReplaceAll(message, search, f.matchDetail) == Join(pieces, f.matchDetail);
      assert Rewrite(env, [f], message) == Success(Join(pieces, f.matchDetail));
    }
  }

  /** `ApplyWordFilters` */
  method ApplyWordFilters(env: Env, filters: seq<Filter>, message: string) returns (r: Result<string, Error>)
    ensures r == Rewrite(env, filters, message)
  {
    var text := message;
    assert filters[0..] == filters;
    for i := 0 to |filters|
      invariant Rewrite(env, filters[i..], text) == Rewrite(env, filters, message)
    {
      assert filters[i..][1..] == filters[i + 1..];
      var applied := ApplyWordfilter(env, filters[i], text);
      if applied.Failure? {
        return Failure(applied.error);
      }
      text := applied.value;
    }
    return Success(text);
  }

  // ---------------------------------------------------------------- the two phases

  datatype Verdict = Accepted | Stopped(filter: Filter) | Failed(error: Error)

  /** `HandleFilterAction` and the error returns around it, as far as whether posting goes on. */
  function VerdictOf(r: Result<Option<Filter>, Error>): Verdict {
    if r.Failure? then Failed(r.error)
    else if r.value.None? || r.value.value.matchAction == "log" then Accepted
    else Stopped(r.value.value)
  }

  function FirstPhase(env: Env, table: seq<Filter>, boardID: int, post: Post): Check {
    CheckAll(env, NonUploadFilters(table, boardID), post, None)
  }

  function SecondPhase(env: Env, table: seq<Filter>, boardID: int, post: Post, upload: Option<Upload>): Check {
    CheckAll(env, PostFilters(table, boardID, Ids(NonUploadFilters(table, boardID))), post, upload)
  }

  /** The verdict of `MakePost`, and all filters it tests. */
  function TwoPhases(env: Env, table: seq<Filter>, boardID: int, post: Post, upload: Option<Upload>)
    : (Verdict, seq<int>)
  {
    var first := FirstPhase(env, table, boardID, post);
    if VerdictOf(first.result).Accepted? then
      var second := SecondPhase(env, table, boardID, post, upload);
      (VerdictOf(second.result), first.tested + second.tested)
    else (VerdictOf(first.result), first.tested)
  }

  /** What `MakePost` decides about a post as it is sent: the wordfilters rewrite it before the filtering. */
  function Received(env: Env, table: seq<Filter>, boardID: int, post: Post, upload: Option<Upload>): Verdict {
    var rewritten := Rewrite(env, Wordfilters(table, boardID), post.messageRaw);
    if rewritten.Failure? then Failed(rewritten.error)
    else TwoPhases(env, table, boardID, post.(messageRaw := rewritten.value), upload).0
  }

  /** One pass over every filter of the board that is no wordfilter, with the real upload. */
  function OnePass(env: Env, table: seq<Filter>, boardID: int, post: Post, upload: Option<Upload>): Verdict {
    VerdictOf(CheckAll(env, PostFilters(table, boardID, []), post, upload).result)
  }

  class Filtering {
    /** The ids of the filters whose hits were recorded, and of those that issued a ban. */
    var hits: seq<int>
    var bans: seq<int>

    constructor ()
      ensures hits == [] && bans == []
    {
      hits, bans := [], [];
    }

    /** `handleMatch`: the hit is recorded before the action is taken. */
    method HandleMatch(f: Filter) returns (e: Option<Error>)
      modifies this
      ensures e == ActionError(f)
      ensures e == (if f.matchAction in {"reject", "log"} then None
                    else if f.matchAction != "ban" then Some(InvalidMatchAction)
                    else if f.staffID.None? then Some(NilStaffPanic) else None)
      ensures hits == old(hits) + [f.id]
      ensures bans == old(bans) + if f.matchAction == "ban" && e.None? then [f.id] else []
    {
      hits := hits + [f.id];
      match f.matchAction
      case "reject" => return None;
      case "ban" =>
        if f.staffID.None? {
          return Some(NilStaffPanic);
        }
        bans := bans + [f.id];
        return None;
      case "log" => return None;
      case _ => return Some(InvalidMatchAction);
    }

    /** `checkFilter`: whether the filter matched, if neither its conditions nor its action err. */
    method CheckFilter(env: Env, f: Filter, post: Post, upload: Option<Upload>) returns (r: Result<bool, Error>)
      modifies this
      ensures var check := CheckAll(env, [f], post, upload);
              && (r == if check.result.Failure? then Failure(check.result.error) else Success(check.result.value.Some?))
              && hits == old(hits) + check.hits && bans == old(bans) + check.bans
    {
      assert CheckAll(env, [], post, upload) == Check(Success(None), [], [], []) && [f][1..] == [];
      var matched := CheckIfMatch(env, f, post, upload);
      if matched.Failure? {
        return Failure(matched.error);
      }
      if !matched.value {
        return Success(false);
      }
      var e := HandleMatch(f);
      return if e.Some? then Failure(e.value) else Success(true);
    }

    /** `checkFilters` */
    method CheckFilters(env: Env, filters: seq<Filter>, post: Post, upload: Option<Upload>)
      returns (r: Result<Option<Filter>, Error>, ghost tested: seq<int>)
      modifies this
      ensures var check := CheckAll(env, filters, post, upload);
              && r == check.result && tested == check.tested
              && hits == old(hits) + check.hits && bans == old(bans) + check.bans
    {
      tested := [];
      ghost var check := CheckAll(env, filters, post, upload);
      assert filters[0..] == filters;
      for i := 0 to |filters|
        invariant hits == old(hits) && bans == old(bans)
        invariant Continues(check, tested, CheckAll(env, filters[i..], post, upload))
      {
        ContinuesWith(env, filters, i, post, upload, check, tested);
        tested := tested + [filters[i].id];
        var matched := CheckFilter(env, filters[i], post, upload);
        if matched.Failure? {
          return Failure(matched.error), tested;
        }
        if matched.value {
          return Success(Some(filters[i])), tested;
        }
      }
      return Success(None), tested;
    }

    /** The filtering of `MakePost`; processing the upload lies between the two phases. */
    method FilterPost(env: Env, table: seq<Filter>, boardID: int, post: Post, upload: Option<Upload>)
      returns (v: Verdict, ghost tested: seq<int>)
      modifies this
      ensures (v, tested) == TwoPhases(env, table, boardID, post, upload)
      ensures var first := FirstPhase(env, table, boardID, post);
              var second := SecondPhase(env, table, boardID, post, upload);
              var both := VerdictOf(first.result).Accepted?;
              && hits == old(hits) + first.hits + (if both then second.hits else [])
              && bans == old(bans) + first.bans + (if both then second.bans else [])
    {
      var filters := NonUploadFilters(table, boardID);
      var filterIDs := Ids(filters);
      var filter;
      filter, tested := CheckFilters(env, filters, post, None);
      v := VerdictOf(filter);
      if !v.Accepted? {
        return;
      }
      ghost var tested';
      filter, tested' := CheckFilters(env, PostFilters(table, boardID, filterIDs), post, upload);
      v, tested := VerdictOf(filter), tested + tested';
    }

    /** `MakePost` as far as filters decide on a post: rewriting it, then the two phases. */
    method ReceivePost(env: Env, table: seq<Filter>, boardID: int, post: Post, upload: Option<Upload>)
      returns (v: Verdict)
      modifies this
      ensures v == Received(env, table, boardID, post, upload)
      ensures Rewrite(env, Wordfilters(table, boardID), post.messageRaw).Failure? ==>
                hits == old(hits) && bans == old(bans)
    {
      var rewritten := ApplyWordFilters(env, Wordfilters(table, boardID), post.messageRaw);
      if rewritten.Failure? {
        return Failed(rewritten.error);
      }
      ghost var tested;
      v, tested := FilterPost(env, table, boardID, post.(messageRaw := rewritten.value), upload);
    }
  }

  // ---------------------------------------------------------------- results

  predicate Distinct(s: seq<int>) {
    forall i, j :: 0 <= i < j < |s| ==> s[i] != s[j]
  }

  lemma {:induction false} TestedIsPrefix(env: Env, filters: seq<Filter>, post: Post, upload: Option<Upload>)
    ensures CheckAll(env, filters, post, upload).tested <= Ids(filters)
  {
    if |filters| > 0 {
      TestedIsPrefix(env, filters[1..], post, upload);
      assert Ids(filters) == [filters[0].id] + Ids(filters[1..]);
    }
  }

  lemma DistinctAppend(x: int, s: seq<int>)
    requires Distinct(s) && x !in s
    ensures Distinct([x] + s)
  {
  }

  /** A row whose id is new, put before some of the rows behind it. */
  lemma HeadIsNew(table: seq<Filter>, rest: seq<Filter>)
    requires |table| > 0 && Distinct(Ids(table)) && Distinct(Ids(rest))
    requires forall f :: f in rest ==> f in table[1..]
    ensures Distinct(Ids([table[0]] + rest)) && Distinct(Ids([] + rest))
  {
    assert [] + rest == rest;
    forall i | 0 <= i < |rest| ensures Ids(rest)[i] != table[0].id {
      NewId(table, rest[i]);
    }
    DistinctAppend(table[0].id, Ids(rest));
    assert Ids([table[0]] + rest) == [table[0].id] + Ids(rest);
  }

  lemma NewId(table: seq<Filter>, f: Filter)
    requires |table| > 0 && Distinct(Ids(table)) && f in table[1..]
    ensures f.id != table[0].id
  {
    var j :| 0 <= j < |table[1..]| && table[1..][j] == f;
    assert Ids(table)[j + 1] != Ids(table)[0];
  }

  lemma DistinctRest(table: seq<Filter>)
    requires |table| > 0 && Distinct(Ids(table))
    ensures Distinct(Ids(table[1..])) && table == [table[0]] + table[1..]
  {
    assert forall i :: 0 <= i < |table| - 1 ==> Ids(table[1..])[i] == Ids(table)[i + 1];
  }

  lemma {:induction false} NonUploadRows(table: seq<Filter>, boardID: int)
    requires Distinct(Ids(table))
    ensures Distinct(Ids(NonUploadFilters(table, boardID)))
    ensures forall f :: f in NonUploadFilters(table, boardID) <==>
                          f in table && AppliesTo(f, boardID) && !LooksAtUpload(f)
  {
    if |table| > 0 {
      DistinctRest(table);
      NonUploadRows(table[1..], boardID);
      HeadIsNew(table, NonUploadFilters(table[1..], boardID));
    }
  }

  lemma {:induction false} PostRows(table: seq<Filter>, boardID: int, excluded: seq<int>)
    requires Distinct(Ids(table))
    ensures Distinct(Ids(PostFilters(table, boardID, excluded)))
    ensures forall f :: f in PostFilters(table, boardID, excluded) <==>
                          f in table && AppliesTo(f, boardID) && f.matchAction != "replace" && f.id !in excluded
  {
    if |table| > 0 {
      DistinctRest(table);
      PostRows(table[1..], boardID, excluded);
      HeadIsNew(table, PostFilters(table[1..], boardID, excluded));
    }
  }

  /** Which rows the query for wordfilters selects. */
  lemma {:induction false} WordfilterRows(table: seq<Filter>, boardID: int)
    ensures forall f :: f in Wordfilters(table, boardID) <==>
              f in table && f.isActive && (f.boards == {} || boardID in f.boards) && f.matchAction == "replace"
  {
    if |table| > 0 {
      WordfilterRows(table[1..], boardID);
      assert table == [table[0]] + table[1..];
    }
  }

  lemma {:induction false} NonUploadConcat(a: seq<Filter>, b: seq<Filter>, boardID: int)
    ensures NonUploadFilters(a + b, boardID) == NonUploadFilters(a, boardID) + NonUploadFilters(b, boardID)
  {
    if |a| == 0 {
      assert a + b == b;
    } else {
      assert (a + b)[0] == a[0] && (a + b)[1..] == a[1..] + b;
      NonUploadConcat(a[1..], b, boardID);
    }
  }

  lemma {:induction false} PostConcat(a: seq<Filter>, b: seq<Filter>, boardID: int, excluded: seq<int>)
    ensures PostFilters(a + b, boardID, excluded) == PostFilters(a, boardID, excluded)
        + PostFilters(b, boardID, excluded)
  {
    if |a| == 0 {
      assert a + b == b;
    } else {
      assert (a + b)[0] == a[0] && (a + b)[1..] == a[1..] + b;
      PostConcat(a[1..], b, boardID, excluded);
    }
  }

  lemma {:induction false} WordfilterConcat(a: seq<Filter>, b: seq<Filter>, boardID: int)
    ensures Wordfilters(a + b, boardID) == Wordfilters(a, boardID) + Wordfilters(b, boardID)
  {
    if |a| == 0 {
      assert a + b == b;
    } else {
      assert (a + b)[0] == a[0] && (a + b)[1..] == a[1..] + b;
      WordfilterConcat(a[1..], b, boardID);
    }
  }

  /** An inactive filter, or one that is for other boards alone, changes nothing for any post. */
  lemma IrrelevantFilter(env: Env, a: seq<Filter>, f: Filter, b: seq<Filter>, boardID: int, post: Post,
      upload: Option<Upload>)
    requires !f.isActive || (f.boards != {} && boardID !in f.boards)
    ensures Received(env, a + [f] + b, boardID, post, upload) == Received(env, a + b, boardID, post, upload)
    ensures TwoPhases(env, a + [f] + b, boardID, post, upload) == TwoPhases(env, a + b, boardID, post, upload)
    ensures OnePass(env, a + [f] + b, boardID, post, upload) == OnePass(env, a + b, boardID, post, upload)
  {
    RowsWithout(a, f, b, boardID, []);
    RowsWithout(a, f, b, boardID, Ids(NonUploadFilters(a + b, boardID)));
  }

  lemma RowsWithout(a: seq<Filter>, f: Filter, b: seq<Filter>, boardID: int, excluded: seq<int>)
    requires !f.isActive || (f.boards != {} && boardID !in f.boards)
    ensures NonUploadFilters(a + [f] + b, boardID) == NonUploadFilters(a + b, boardID)
    ensures PostFilters(a + [f] + b, boardID, excluded) == PostFilters(a + b, boardID, excluded)
    ensures Wordfilters(a + [f] + b, boardID) == Wordfilters(a + b, boardID)
  {
    assert [f][1..] == [];
    NonUploadConcat(a + [f], b, boardID);
    NonUploadConcat(a, [f], boardID);
    NonUploadConcat(a, b, boardID);
    PostConcat(a + [f], b, boardID, excluded);
    PostConcat(a, [f], boardID, excluded);
    PostConcat(a, b, boardID, excluded);
    WordfilterConcat(a + [f], b, boardID);
    WordfilterConcat(a, [f], boardID);
    WordfilterConcat(a, b, boardID);
  }

  /** An active filter for this board or all of them, alone in the table, decides by its match and its action. */
  lemma SoleFilter(env: Env, f: Filter, boardID: int, post: Post, upload: Option<Upload>)
    requires f.isActive && (f.boards == {} || boardID in f.boards) && f.matchAction != "replace"
    ensures var m := FilterMatches(env, f, post, upload);
            TwoPhases(env, [f], boardID, post, upload) ==
              (if m.Failure? then Failed(m.error)
               else if !m.value || f.matchAction == "log" then Accepted
               else if f.matchAction == "reject" then Stopped(f)
               else if f.matchAction != "ban" then Failed(InvalidMatchAction)
               else if f.staffID.None? then Failed(NilStaffPanic) else Stopped(f), [f.id])
  {
    SoleRows(f, boardID);
    SoleCheck(env, f, post, upload);
    NothingToCheck(env, post, upload);
    NothingToCheck(env, post, None);
    if LooksAtUpload(f) {
      assert FirstPhase(env, [f], boardID, post) == CheckAll(env, [], post, None);
      assert SecondPhase(env, [f], boardID, post, upload) == CheckAll(env, [f], post, upload);
      assert [] + [f.id] == [f.id];
    } else {
      CheckWithoutUpload(env, [f], post, upload);
      assert FirstPhase(env, [f], boardID, post) == CheckAll(env, [f], post, None);
      assert SecondPhase(env, [f], boardID, post, upload) == CheckAll(env, [], post, upload);
      assert [f.id] + [] == [f.id];
    }
  }

  lemma NothingToCheck(env: Env, post: Post, upload: Option<Upload>)
    ensures CheckAll(env, [], post, upload) == Check(Success(None), [], [], [])
  {
  }

  lemma SoleCheck(env: Env, f: Filter, post: Post, upload: Option<Upload>)
    ensures var m, check := FilterMatches(env, f, post, upload), CheckAll(env, [f], post, upload);
            && check.tested == [f.id]
            && VerdictOf(check.result) ==
                 if m.Failure? then Failed(m.error)
                 else if !m.value || f.matchAction == "log" then Accepted
                 else if f.matchAction == "reject" then Stopped(f)
                 else if f.matchAction != "ban" then Failed(InvalidMatchAction)
                 else if f.staffID.None? then Failed(NilStaffPanic) else Stopped(f)
  {
    NothingToCheck(env, post, upload);
    assert [f][1..] == [] && [f.id] + [] == [f.id];
  }

  lemma SoleRows(f: Filter, boardID: int)
    requires f.isActive && (f.boards == {} || boardID in f.boards) && f.matchAction != "replace"
    ensures LooksAtUpload(f) ==>
              NonUploadFilters([f], boardID) == [] && PostFilters([f], boardID, Ids([])) == [f]
    ensures !LooksAtUpload(f) ==>
              NonUploadFilters([f], boardID) == [f] && PostFilters([f], boardID, Ids([f])) == []
  {
    var ids := Ids([f]);
    assert [f][1..] == [] && ids[0] == f.id && Ids([]) == [];
    assert NonUploadFilters([], boardID) == [] && PostFilters([], boardID, []) == [];
    assert PostFilters([], boardID, ids) == [];
  }

  /** Over both phases no filter is tested twice. */
  lemma NoFilterTestedTwice(env: Env, table: seq<Filter>, boardID: int, post: Post, upload: Option<Upload>)
    requires Distinct(Ids(table))
    ensures Distinct(TwoPhases(env, table, boardID, post, upload).1)
  {
    var nonUpload := NonUploadFilters(table, boardID);
    var others := PostFilters(table, boardID, Ids(nonUpload));
    NonUploadRows(table, boardID);
    PostRows(table, boardID, Ids(nonUpload));
    TestedIsPrefix(env, nonUpload, post, None);
    TestedIsPrefix(env, others, post, upload);
    forall i, j | 0 <= i < |nonUpload| && 0 <= j < |others| ensures Ids(nonUpload)[i] != Ids(others)[j] {
      assert others[j] in others;
    }
  }

  lemma {:induction false} CheckConcat(env: Env, a: seq<Filter>, b: seq<Filter>, post: Post, upload: Option<Upload>)
    ensures var first, rest := CheckAll(env, a, post, upload), CheckAll(env, b, post, upload);
            CheckAll(env, a + b, post, upload) ==
              if first.result == Success(None) then rest.(tested := first.tested + rest.tested) else first
  {
    if |a| == 0 {
      assert a + b == b;
      assert [] + CheckAll(env, b, post, upload).tested == CheckAll(env, b, post, upload).tested;
    } else {
      assert (a + b)[0] == a[0] && (a + b)[1..] == a[1..] + b;
      CheckConcat(env, a[1..], b, post, upload);
      CheckFirst(env, a, post, upload);
      CheckFirst(env, a + b, post, upload);
    }
  }

  lemma {:induction false} CheckWithoutUpload(env: Env, filters: seq<Filter>, post: Post, upload: Option<Upload>)
    requires forall i :: 0 <= i < |filters| ==> !LooksAtUpload(filters[i])
    ensures CheckAll(env, filters, post, upload) == CheckAll(env, filters, post, None)
  {
    if |filters| > 0 {
      UploadIrrelevant(env, filters[0], post, upload);
      CheckWithoutUpload(env, filters[1..], post, upload);
    }
  }

  /**
   With errors, bans and every action counted in, the two phases decide what one pass with the real
   upload decides over the filters that do not look at uploads followed by the others, and test
   the same filters, exactly unless a log filter ends the first phase: then the second phase is
   run as well, and its verdict is the one that counts.
   */
  lemma TwoPhasesAreOrderedPass(env: Env, table: seq<Filter>, boardID: int, post: Post, upload: Option<Upload>)
    ensures var first := FirstPhase(env, table, boardID, post).result;
            var second := SecondPhase(env, table, boardID, post, upload).result;
            var nonUpload := NonUploadFilters(table, boardID);
            var ordered := nonUpload + PostFilters(table, boardID, Ids(nonUpload));
            var onePass := CheckAll(env, ordered, post, upload);
            var logged := first.Success? && first.value.Some? && first.value.value.matchAction == "log";
            && (!logged ==> TwoPhases(env, table, boardID, post, upload) == (VerdictOf(onePass.result), onePass.tested))
            && (logged ==> onePass.result == first && VerdictOf(onePass.result).Accepted?
                           && TwoPhases(env, table, boardID, post, upload).0 == VerdictOf(second))
            && (TwoPhases(env, table, boardID, post, upload).0 == VerdictOf(onePass.result) <==>
                  !logged || VerdictOf(second).Accepted?)
  {
    var nonUpload := NonUploadFilters(table, boardID);
    NonUploadOnly(table, boardID);
    CheckWithoutUpload(env, nonUpload, post, upload);
    CheckConcat(env, nonUpload, PostFilters(table, boardID, Ids(nonUpload)), post, upload);
  }

  lemma {:induction false} NonUploadOnly(table: seq<Filter>, boardID: int)
    ensures forall i :: 0 <= i < |NonUploadFilters(table, boardID)| ==>
        !LooksAtUpload(NonUploadFilters(table, boardID)[i])
  {
    if |table| > 0 {
      NonUploadOnly(table[1..], boardID);
    }
  }

  /** The filter with which a list of filters none of whose conditions err first matches. */
  function FirstMatch(env: Env, filters: seq<Filter>, post: Post, upload: Option<Upload>): Option<Filter> {
    if |filters| == 0 then None
    else if FilterMatches(env, filters[0], post, upload) == Success(true) then Some(filters[0])
    else FirstMatch(env, filters[1..], post, upload)
  }

  /** It matches, and none before it does. */
  lemma {:induction false} FirstMatchIsFirst(env: Env, filters: seq<Filter>, post: Post, upload: Option<Upload>)
    ensures var first := FirstMatch(env, filters, post, upload);
            && (first.Some? ==>
                  exists k :: 0 <= k < |filters| && filters[k] == first.value
                              && FilterMatches(env, filters[k], post, upload) == Success(true)
                              && forall j :: 0 <= j < k ==>
                                               FilterMatches(env, filters[j], post, upload) != Success(true))
            && (first.None? ==>
                  forall j :: 0 <= j < |filters| ==> FilterMatches(env, filters[j], post, upload) != Success(true))
  {
    if |filters| > 0 && FilterMatches(env, filters[0], post, upload) != Success(true) {
      FirstMatchIsFirst(env, filters[1..], post, upload);
      assert forall j :: 1 <= j < |filters| ==> filters[j] == filters[1..][j - 1];
      if first :| FirstMatch(env, filters, post, upload) == Some(first) {
        var k :| 0 <= k < |filters| - 1 && filters[1..][k] == first
                 && FilterMatches(env, filters[1..][k], post, upload) == Success(true)
                 && forall j :: 0 <= j < k ==> FilterMatches(env, filters[1..][j], post, upload) != Success(true);
        assert filters[k + 1] == first;
      }
    }
  }

  ghost predicate NoErrors(env: Env, filters: seq<Filter>, post: Post, upload: Option<Upload>) {
    forall f :: f in filters ==> FilterMatches(env, f, post, upload).Success?
  }

  lemma {:induction false} CheckIsFirstMatch(env: Env, filters: seq<Filter>, post: Post, upload: Option<Upload>)
    requires NoErrors(env, filters, post, upload)
    ensures var first := FirstMatch(env, filters, post, upload);
            && (VerdictOf(CheckAll(env, filters, post, upload).result).Accepted? <==>
                first.None? || first.value.matchAction == "log")
            && (first.Some? ==> first.value in filters && FilterMatches(env, first.value, post, upload) == Success(true)
                                && CheckAll(env, filters, post, upload).result ==
                                   if ActionError(first.value).Some? then Failure(ActionError(first.value).value)
                                   else Success(first))
            && (first.None? ==> forall f :: f in filters ==> FilterMatches(env, f, post, upload) == Success(false))
  {
    if |filters| > 0 {
      assert filters[0] in filters;
      assert forall f :: f in filters[1..] ==> f in filters;
      assert forall f :: f in filters ==> f == filters[0] || f in filters[1..];
      CheckIsFirstMatch(env, filters[1..], post, upload);
    }
  }

  ghost predicate Harmless(first: Option<Filter>) {
    first.None? || first.value.matchAction == "log"
  }

  /** The filters either phase tests, each with the upload it is tested with, have no failing condition. */
  ghost predicate NoFilterErrs(env: Env, table: seq<Filter>, boardID: int, post: Post, upload: Option<Upload>) {
    forall f :: f in table && AppliesTo(f, boardID) ==> FilterMatches(env, f, post, upload).Success?
  }

  /**
   When no condition errs, a post is accepted exactly when in each phase the first filter that
   matches, tested with the real upload, is a log filter or there is none.
   */
  lemma AcceptedIff(env: Env, table: seq<Filter>, boardID: int, post: Post, upload: Option<Upload>)
    requires Distinct(Ids(table)) && NoFilterErrs(env, table, boardID, post, upload)
    ensures var nonUpload := NonUploadFilters(table, boardID);
            var others := PostFilters(table, boardID, Ids(nonUpload));
            TwoPhases(env, table, boardID, post, upload).0.Accepted? <==>
              && Harmless(FirstMatch(env, nonUpload, post, upload))
              && Harmless(FirstMatch(env, others, post, upload))
    ensures OnePass(env, table, boardID, post, upload).Accepted? <==>
              Harmless(FirstMatch(env, PostFilters(table, boardID, []), post, upload))
  {
    var nonUpload := NonUploadFilters(table, boardID);
    var others := PostFilters(table, boardID, Ids(nonUpload));
    NonUploadRows(table, boardID);
    PostRows(table, boardID, Ids(nonUpload));
    PostRows(table, boardID, []);
    SameWithoutUpload(env, nonUpload, post, upload);
    CheckIsFirstMatch(env, nonUpload, post, None);
    CheckIsFirstMatch(env, others, post, upload);
    CheckIsFirstMatch(env, PostFilters(table, boardID, []), post, upload);
  }

  lemma {:induction false} SameWithoutUpload(env: Env, filters: seq<Filter>, post: Post, upload: Option<Upload>)
    requires forall f :: f in filters ==> !LooksAtUpload(f)
    ensures FirstMatch(env, filters, post, upload) == FirstMatch(env, filters, post, None)
    ensures NoErrors(env, filters, post, upload) <==> NoErrors(env, filters, post, None)
  {
    forall f | f in filters ensures FilterMatches(env, f, post, upload) == FilterMatches(env, f, post, None) {
      UploadIrrelevant(env, f, post, upload);
    }
    if |filters| > 0 {
      assert filters[0] in filters;
      SameWithoutUpload(env, filters[1..], post, upload);
    }
  }

  /**
   When no condition errs and no log filter or wordfilter of the board matches, the two phases
   accept a post exactly when one pass does, which is when no filter of the board matches it.
   */
  lemma TwoPhasesEqualOnePass(env: Env, table: seq<Filter>, boardID: int, post: Post, upload: Option<Upload>)
    requires Distinct(Ids(table)) && NoFilterErrs(env, table, boardID, post, upload)
    requires forall f :: f in table && AppliesTo(f, boardID) && f.matchAction in {"log", "replace"} ==>
                           FilterMatches(env, f, post, upload) == Success(false)
    ensures TwoPhases(env, table, boardID, post, upload).0.Accepted? <==>
        OnePass(env, table, boardID, post, upload).Accepted?
    ensures OnePass(env, table, boardID, post, upload).Accepted? <==>
              forall f :: f in table && AppliesTo(f, boardID) ==> FilterMatches(env, f, post, upload) == Success(false)
  {
    var nonUpload := NonUploadFilters(table, boardID);
    var others := PostFilters(table, boardID, Ids(nonUpload));
    var all := PostFilters(table, boardID, []);
    NonUploadRows(table, boardID);
    PostRows(table, boardID, Ids(nonUpload));
    PostRows(table, boardID, []);
    AcceptedIff(env, table, boardID, post, upload);
    CheckIsFirstMatch(env, nonUpload, post, upload);
    CheckIsFirstMatch(env, others, post, upload);
    CheckIsFirstMatch(env, all, post, upload);
    forall f | f in table && AppliesTo(f, boardID) && LooksAtUpload(f) ensures f.id !in Ids(nonUpload) {
      SameIdSameFilter(table, boardID, f);
    }
  }

  lemma SameIdSameFilter(table: seq<Filter>, boardID: int, f: Filter)
    requires Distinct(Ids(table)) && f in table && LooksAtUpload(f)
    ensures f.id !in Ids(NonUploadFilters(table, boardID))
  {
    NonUploadRows(table, boardID);
    var nonUpload := NonUploadFilters(table, boardID);
    var i :| 0 <= i < |table| && table[i] == f;
    forall k | 0 <= k < |nonUpload| ensures Ids(nonUpload)[k] != f.id {
      assert nonUpload[k] in nonUpload;
      var j :| 0 <= j < |table| && table[j] == nonUpload[k];
      assert Ids(table)[i] == f.id && Ids(table)[j] == nonUpload[k].id;
      assert i != j;
    }
  }

  ghost predicate IsWordfilter(first: Option<Filter>) {
    first.Some? && first.value.matchAction == "replace"
  }

  ghost predicate UnknownAction(first: Option<Filter>) {
    first.Some? && first.value.matchAction !in {"reject", "ban", "log"}
  }

  ghost predicate KnownActions(table: seq<Filter>, boardID: int) {
    forall f :: f in table && AppliesTo(f, boardID) ==> f.matchAction in {"reject", "ban", "log", "replace"}
  }

  /**
   When no condition of the first phase errs, filtering ends in the error for an unknown action
   exactly when the first match of that phase has none of the three actions, or is harmless and the
   second phase ends so. The query of the first phase does not leave out wordfilters, so where only
   the four actions are used, the error is exactly for a wordfilter as first match of the first phase.
   */
  lemma WordfilterRefusesIff(env: Env, table: seq<Filter>, boardID: int, post: Post, upload: Option<Upload>)
    requires Distinct(Ids(table)) && NoErrors(env, NonUploadFilters(table, boardID), post, None)
    ensures var first := FirstMatch(env, NonUploadFilters(table, boardID), post, None);
            var second := SecondPhase(env, table, boardID, post, upload).result;
            var refused := TwoPhases(env, table, boardID, post, upload).0 == Failed(InvalidMatchAction);
            && (refused <==> UnknownAction(first) || (Harmless(first) && second == Failure(InvalidMatchAction)))
            && (KnownActions(table, boardID) ==> (refused <==> IsWordfilter(first)))
  {
    var nonUpload := NonUploadFilters(table, boardID);
    var others := PostFilters(table, boardID, Ids(nonUpload));
    NonUploadRows(table, boardID);
    UnknownIff(env, nonUpload, post, None);
    if KnownActions(table, boardID) {
      PostRows(table, boardID, Ids(nonUpload));
      KnownNeverRefused(env, others, post, upload);
    }
  }

  /** No condition gives the error for an unknown action. */
  lemma {:induction false} ConditionErrors(env: Env, any: bool, conditions: seq<Condition>, post: Post,
      upload: Option<Upload>)
    ensures Matches(env, any, conditions, post, upload) != Failure(InvalidMatchAction)
  {
    if |conditions| > 0 {
      ConditionErrors(env, any, conditions[1..], post, upload);
    }
  }

  lemma {:induction false} KnownNeverRefused(env: Env, filters: seq<Filter>, post: Post, upload: Option<Upload>)
    requires forall f :: f in filters ==> f.matchAction in {"reject", "ban", "log"}
    ensures CheckAll(env, filters, post, upload).result != Failure(InvalidMatchAction)
  {
    if |filters| > 0 {
      var f := filters[0];
      assert f in filters;
      assert forall g :: g in filters[1..] ==> g in filters;
      ConditionErrors(env, f.handleIfAny, f.conditions, post, upload);
      KnownNeverRefused(env, filters[1..], post, upload);
    }
  }

  lemma UnknownIff(env: Env, filters: seq<Filter>, post: Post, upload: Option<Upload>)
    requires NoErrors(env, filters, post, upload)
    ensures var verdict := VerdictOf(CheckAll(env, filters, post, upload).result);
            var first := FirstMatch(env, filters, post, upload);
            && (verdict == Failed(InvalidMatchAction) <==> UnknownAction(first))
            && (verdict.Accepted? <==> Harmless(first))
            && (first.Some? ==> first.value in filters)
  {
    CheckIsFirstMatch(env, filters, post, upload);
    if FirstMatch(env, filters, post, upload).None? {
      NoMatch(env, filters, post, upload);
    }
  }

  lemma {:induction false} NoMatch(env: Env, filters: seq<Filter>, post: Post, upload: Option<Upload>)
    requires NoErrors(env, filters, post, upload) && FirstMatch(env, filters, post, upload).None?
    ensures CheckAll(env, filters, post, upload).result == Success(None)
  {
    if |filters| > 0 {
      assert filters[0] in filters;
      assert forall f :: f in filters[1..] ==> f in filters;
      NoMatch(env, filters[1..], post, upload);
    }
  }

  /** A wordfilter as it is created: one condition on the body, and no expression. */
  predicate IsSubstringFilter(f: Filter) {
    && f.matchAction == "replace"
    && |f.conditions| == 1 && f.conditions[0].field == "body" && f.conditions[0].matchMode == 0
  }

  /**
   A wordfilter alone on its board refuses a post, as it is sent, exactly when the rewritten
   message still contains what it searches for; every other post is accepted.
   */
  lemma SoleWordfilter(env: Env, f: Filter, boardID: int, post: Post, upload: Option<Upload>)
    requires IsSubstringFilter(f) && AppliesTo(f, boardID)
    ensures var search := f.conditions[0].search;
            Received(env, [f], boardID, post, upload) ==
              if HasSubstring(ReplaceAll(post.messageRaw, search, f.matchDetail), search)
              then Failed(InvalidMatchAction) else Accepted
  {
    var rewritten := ReplaceAll(post.messageRaw, f.conditions[0].search, f.matchDetail);
    var sent := post.(messageRaw := rewritten);
    assert [f][1..] == [] && f.conditions[1..] == [];
    assert Wordfilters([], boardID) == [] && Wordfilters([f], boardID) == [f];
    assert Rewrite(env, [], rewritten) == Success(rewritten);
    BodyCondition(env, f, sent);
    assert NonUploadFilters([], boardID) == [] && NonUploadFilters([f], boardID) == [f];
    var ids := Ids([f]);
    assert f.id == ids[0];
    assert PostFilters([], boardID, ids) == [] && PostFilters([f], boardID, ids) == [];
    assert Rewrite(env, [f], post.messageRaw) == Success(rewritten);
    assert CheckAll(env, [], sent, None).result == Success(None);
    assert CheckAll(env, [], sent, upload).result == Success(None);
    assert TwoPhases(env, [f], boardID, sent, upload).0 ==
             if HasSubstring(rewritten, f.conditions[0].search) then Failed(InvalidMatchAction) else Accepted;
  }

  lemma BodyCondition(env: Env, f: Filter, post: Post)
    requires IsSubstringFilter(f)
    ensures FilterMatches(env, f, post, None) == Success(HasSubstring(post.messageRaw, f.conditions[0].search))
    ensures !LooksAtUpload(f)
  {
    var c := f.conditions[0];
    assert TestCondition(env, c, post, None) == Success(HasSubstring(post.messageRaw, c.search));
    assert Matches(env, f.handleIfAny, f.conditions[1..], post, None) == Success(!f.handleIfAny);
  }

  /** What that means for a message and its replacement: the three cases a caller can tell apart. */
  lemma WordfilterCases(env: Env, f: Filter, boardID: int, post: Post, upload: Option<Upload>)
    requires IsSubstringFilter(f) && AppliesTo(f, boardID) && |f.conditions[0].search| > 0
    ensures var search := f.conditions[0].search;
            var verdict := Received(env, [f], boardID, post, upload);
            && (!HasSubstring(post.messageRaw, search) ==> verdict == Accepted)
            && (HasSubstring(post.messageRaw, search) && HasSubstring(f.matchDetail, search) ==>
                  verdict == Failed(InvalidMatchAction))
            && (|search| == 1 ==>
                  (verdict == Failed(InvalidMatchAction) <==>
                     search[0] in post.messageRaw && search[0] in f.matchDetail))
  {
    var search := f.conditions[0].search;
    SoleWordfilter(env, f, boardID, post, upload);
    if !HasSubstring(post.messageRaw, search) {
      ReplaceAbsent(post.messageRaw, search, f.matchDetail);
    } else if HasSubstring(f.matchDetail, search) {
      ReplaceKeepsMatch(post.messageRaw, search, f.matchDetail);
    }
    if |search| == 1 {
      var c := search[0];
      assert search == [c];
      SubstringOfOne(ReplaceAll(post.messageRaw, search, f.matchDetail), c);
      ReplaceOne(post.messageRaw, c, f.matchDetail);
    }
  }

  /** A wordfilter of the board that does not have one condition refuses every post. */
  lemma BadWordfilter(env: Env, f: Filter, boardID: int, post: Post, upload: Option<Upload>)
    requires f.matchAction == "replace" && AppliesTo(f, boardID) && |f.conditions| != 1
    ensures Received(env, [f], boardID, post, upload) == Failed(WordfilterFailed)
  {
    assert [f][1..] == [] && Wordfilters([], boardID) == [];
    assert Wordfilters([f], boardID) == [f];
    RewriteOne(env, f, post.messageRaw);
  }

  /** The wordfilter that replaces `a` with `aa` refuses the message `a`; the one that replaces it with `b` does not. */
  lemma WordfilterExample(env: Env, post: Post)
    requires post.messageRaw == "a"
    ensures var doubled := Filter(1, true, "replace", "aa", None, false, [Condition(0, "a", "body")], {});
            && Received(env, [doubled], 1, post, None) == Failed(InvalidMatchAction)
            && Received(env, [doubled.(matchDetail := "b")], 1, post, None) == Accepted
  {
    var doubled := Filter(1, true, "replace", "aa", None, false, [Condition(0, "a", "body")], {});
    var other := doubled.(matchDetail := "b");
    WordfilterCases(env, doubled, 1, post, None);
    WordfilterCases(env, other, 1, post, None);
    SoleWordfilter(env, other, 1, post, None);
    assert "a"[0] in "a" && "a"[0] in "aa" && "a"[0] !in "b";
  }

  /** A log filter on uploads ahead of a rejecting filter on text: one pass lets the post through, two phases do not. */
  lemma LogFilterExample(env: Env, post: Post, upload: Upload)
    requires post.isTopPost
    ensures var logged := Filter(1, true, "log", "", None, false, [Condition(0, "", "hasfile")], {});
            var rejected := Filter(2, true, "reject", "", None, false, [Condition(0, "", "isop")], {});
            && OnePass(env, [logged, rejected], 1, post, Some(upload)) == Accepted
            && TwoPhases(env, [logged, rejected], 1, post, Some(upload)).0 == Stopped(rejected)
  {
    var hasFile, isOp := Condition(0, "", "hasfile"), Condition(0, "", "isop");
    var logged := Filter(1, true, "log", "", None, false, [hasFile], {});
    var rejected := Filter(2, true, "reject", "", None, false, [isOp], {});
    assert logged.conditions[0].field in UPLOAD_FIELDS && !LooksAtUpload(rejected);
    assert Matches(env, false, [], post, Some(upload)) == Success(true)
        && Matches(env, false, [], post, None) == Success(true);
    assert [hasFile][1..] == [] && [isOp][1..] == [];
    assert FilterMatches(env, logged, post, Some(upload)) == Success(true);
    assert FilterMatches(env, rejected, post, None) == Success(true);
    var table := [logged, rejected];
    assert table[1..] == [rejected] && table[1..][1..] == [];
    assert NonUploadFilters([], 1) == [] && NonUploadFilters([rejected], 1) == [rejected];
    assert NonUploadFilters(table, 1) == [rejected];
    assert PostFilters([], 1, []) == [] && PostFilters([rejected], 1, []) == [rejected];
    assert PostFilters(table, 1, []) == [logged] + [rejected];
  }
}
