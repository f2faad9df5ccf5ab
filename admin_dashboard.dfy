/** The admin page (src/pages/AdminDashboard.tsx): adding problems and users,
    the bulk user import, the sweep that records which users solved which
    problems, the user search and the per-problem solved count. The
    database tables the page writes are fields of the page object; what the
    database answers to an insert and what Codeforces answers to a query
    are inputs. */
module AdminDashboard {
  import opened Wrappers
  import opened Text
  import opened Codeforces

  datatype User = User(id: string, name: string, codeforcesHandle: string, points: int)

  datatype Problem = Problem(id: string, link: string, date: string)

  /** A row of the submissions list the page displays. */
  datatype Submission = Submission(id: string, userId: string, problemId: string, solved: bool, submittedAt: string)

  /** A row the page asks the database to insert into the users table. */
  datatype NewUser = NewUser(name: string, codeforcesHandle: string, points: int)

  /** A row the page asks the database to insert into the problems table. */
  datatype NewProblem = NewProblem(link: string, date: string)

  /** The submissions table is keyed by (user id, problem id). */
  type SubmissionKey = (string, string)

  /** What a submissions row holds besides its key; `submittedAt` is in
      milliseconds. */
  datatype SubmissionRow = SubmissionRow(solved: bool, submittedAt: int)

  /** An error the database reports, with its Postgres error code. */
  datatype StoreError = StoreError(code: string)

  /** Postgres' code for a unique-key violation. */
  const UniqueViolation := "23505"

  const InvalidUrlMessage := "Invalid Codeforces problem URL"
  const ProblemExistsMessage := "Problem already exists for this date"
  const AddProblemFailedMessage := "Failed to add problem"
  const InvalidHandleMessage := "Invalid Codeforces handle"
  const UserExistsMessage := "User already exists"
  const AddUserFailedMessage := "Failed to add user"
  const NoValidUsersMessage := "No valid users found"
  const AddUsersFailedMessage := "Failed to add users"

  /** How a form submission ends: the rows were inserted, or a message is shown. */
  datatype AddOutcome = Added | Rejected(message: string)

  // ---------------------------------------------------------------------
  // Single adds

  /** `handleAddProblem` once a date is picked: a link without a problem
      identifier is refused before any insert; a unique-key violation means
      the problem is already set for that date; any other error is a
      generic failure. */
  function AddProblemOutcome(link: string, insertError: Option<StoreError>): (o: AddOutcome)
    ensures o.Added? <==> GetProblemIdFromUrl(link).Some? && insertError.None?
    ensures GetProblemIdFromUrl(link).None? ==> o == Rejected(InvalidUrlMessage)
    ensures GetProblemIdFromUrl(link).Some? && insertError.Some? ==>
              o == Rejected(if insertError.value.code == UniqueViolation then ProblemExistsMessage
                            else AddProblemFailedMessage)
  {
    if GetProblemIdFromUrl(link).None? then Rejected(InvalidUrlMessage)
    else match insertError
      case None => Added
      case Some(e) => Rejected(if e.code == UniqueViolation then ProblemExistsMessage else AddProblemFailedMessage)
  }

  /** `handleAddUser`: a handle Codeforces does not know is refused before
      any insert; a unique-key violation means the user exists; any other
      error is a generic failure. Name and handle are taken as typed. */
  function AddUserOutcome(handle: string, api: string -> ApiReply<seq<CfUser>>,
                          insertError: Option<StoreError>): (o: AddOutcome)
    ensures o.Added? <==> ValidateHandle(handle, api) && insertError.None?
    ensures !ValidateHandle(handle, api) ==> o == Rejected(InvalidHandleMessage)
    ensures ValidateHandle(handle, api) && insertError.Some? ==>
              o == Rejected(if insertError.value.code == UniqueViolation then UserExistsMessage
                            else AddUserFailedMessage)
  {
    if !ValidateHandle(handle, api) then Rejected(InvalidHandleMessage)
    else match insertError
      case None => Added
      case Some(e) => Rejected(if e.code == UniqueViolation then UserExistsMessage else AddUserFailedMessage)
  }

  // ---------------------------------------------------------------------
  // Bulk add

  /** One line of the bulk text: the first two comma-separated fields,
      trimmed, when both are non-empty. Further fields are ignored. */
  function ParseBulkLine(line: string): (entry: Option<(string, string)>)
    ensures entry.Some? ==> entry.value.0 != "" && entry.value.1 != ""
    ensures entry.Some? ==> |Split(line, ',')| >= 2
  {
    var fields := Split(line, ',');
    var name := Trim(fields[0]);
    var handle := if |fields| >= 2 then Trim(fields[1]) else "";
    if name != "" && handle != "" then Some((name, handle)) else None
  }

  /** A line without a comma, a tab-separated one for instance, gives no user. */
  lemma LineWithoutCommaSkipped(line: string)
    requires ',' !in line
    ensures ParseBulkLine(line).None?
  {
    SplitOfField(line, ',');
  }

  /** A line made of comma-free fields `name,handle[,more...]` gives the
      trimmed name and handle when neither is blank, and nothing otherwise. */
  lemma LineGivesTrimmedFields(parts: seq<string>)
    requires |parts| >= 2
    requires forall k :: 0 <= k < |parts| ==> ',' !in parts[k]
    ensures ParseBulkLine(Join(parts, ',')) ==
              if Trim(parts[0]) != "" && Trim(parts[1]) != "" then Some((Trim(parts[0]), Trim(parts[1]))) else None
  {
    SplitOfJoin(parts, ',');
  }

  /** The user a line contributes: its parsed fields, if the handle validates,
      with no points yet. */
  function LineUser(line: string, api: string -> ApiReply<seq<CfUser>>): (u: Option<NewUser>)
    ensures u.Some? <==> ParseBulkLine(line).Some? && ValidateHandle(ParseBulkLine(line).value.1, api)
    ensures u.Some? ==> u.value == NewUser(ParseBulkLine(line).value.0, ParseBulkLine(line).value.1, 0)
  {
    match ParseBulkLine(line)
    case Some((name, handle)) =>
      if ValidateHandle(handle, api) then Some(NewUser(name, handle, 0)) else None
    case None => None
  }

  /** The users the bulk loop collects from the lines, in order. */
  function BulkUsers(lines: seq<string>, api: string -> ApiReply<seq<CfUser>>): (us: seq<NewUser>)
    ensures |us| <= |lines|
  {
    FilterMap(lines, (line: string) => LineUser(line, api))
  }

  /** One more line adds its user, if it yields one, after the others. */
  lemma BulkUsersSnoc(lines: seq<string>, line: string, api: string -> ApiReply<seq<CfUser>>)
    ensures BulkUsers(lines + [line], api) ==
              if LineUser(line, api).Some? then BulkUsers(lines, api) + [LineUser(line, api).value]
              else BulkUsers(lines, api)
  {
    assert (lines + [line])[..|lines|] == lines;
  }

  /** A user is collected exactly when some line parses to its name and
      handle, the handle validates, and it has no points. */
  lemma BulkUsersAre(lines: seq<string>, api: string -> ApiReply<seq<CfUser>>)
    ensures forall u :: u in BulkUsers(lines, api) <==> exists k :: 0 <= k < |lines| && LineUser(lines[k], api) == Some(u)
    ensures forall u :: u in BulkUsers(lines, api) ==>
              u.points == 0 && u.name != "" && u.codeforcesHandle != "" && ValidateHandle(u.codeforcesHandle, api)
  {
    FilterMapIs(lines, (line: string) => LineUser(line, api));
    forall u | u in BulkUsers(lines, api)
      ensures u.points == 0 && u.name != "" && u.codeforcesHandle != "" && ValidateHandle(u.codeforcesHandle, api)
    {
      var k :| 0 <= k < |lines| && LineUser(lines[k], api) == Some(u);
    }
  }

  /** The bulk form: no collected user means nothing is inserted; the
      insert of the collected users either succeeds as a whole or fails with
      one message, a unique-key violation included. */
  function BulkAddOutcome(users: seq<NewUser>, insertError: Option<StoreError>): (o: AddOutcome)
    ensures o.Added? <==> users != [] && insertError.None?
    ensures users == [] ==> o == Rejected(NoValidUsersMessage)
    ensures users != [] && insertError.Some? ==> o == Rejected(AddUsersFailedMessage)
  {
    if users == [] then Rejected(NoValidUsersMessage)
    else if insertError.Some? then Rejected(AddUsersFailedMessage)
    else Added
  }

  // ---------------------------------------------------------------------
  // The solved sweep

  /** What the sweep reads from outside: the clock, the start of each
      problem date in milliseconds, Codeforces' replies, and which upserts
      the database refuses. */
  datatype SweepEnv = SweepEnv(
    nowMs: int,
    dayStartMs: string -> int,
    userStatus: string -> ApiReply<seq<CfSubmission>>,
    upsertFails: SubmissionKey -> bool)

  /** A problem is swept once its day has begun. */
  predicate IsEligible(p: Problem, env: SweepEnv) { env.nowMs > env.dayStartMs(p.date) }

  /** `Math.floor(ms / 1000)`: the second holding the instant `ms`. */
  function Cutoff(ms: int): (c: int)
    ensures 1000 * c <= ms < 1000 * c + 1000
  {
    ms / 1000
  }

  /** A submission made in a later second than the start of the day is
      after the cutoff; when the day starts on a whole second, being after
      the cutoff means being made after the start of the day. */
  lemma CutoffMatchesDayStart(ms: int, t: int)
    ensures 1000 * t > ms ==> t > Cutoff(ms)
    ensures ms % 1000 == 0 ==> (t > Cutoff(ms) <==> 1000 * t > ms)
  {
  }

  /** The sweep finds that `u` solved `p` and the upsert goes through. */
  predicate Solves(p: Problem, u: User, env: SweepEnv) {
    && IsEligible(p, env)
    && GetProblemIdFromUrl(p.link).Some?
    && CheckSubmission(u.codeforcesHandle, GetProblemIdFromUrl(p.link).value,
                       Cutoff(env.dayStartMs(p.date)), env.userStatus)
    && !env.upsertFails((u.id, p.id))
  }

  /** `Solves` as the decision the sweep makes for each pair. */
  function Decision(env: SweepEnv): (Problem, User) -> bool {
    (p: Problem, u: User) => Solves(p, u, env)
  }

  /** The row an upsert writes at time `nowMs`. */
  function SolvedRow(nowMs: int): SubmissionRow { SubmissionRow(true, nowMs) }

  /** One upsert of the inner loop, made when `solves` holds for the pair. */
  function Upsert(t: map<SubmissionKey, SubmissionRow>, p: Problem, u: User,
                  solves: (Problem, User) -> bool, nowMs: int): map<SubmissionKey, SubmissionRow> {
    if solves(p, u) then t[(u.id, p.id) := SolvedRow(nowMs)] else t
  }

  /** The inner loop over the first users, for one problem. */
  function SweepUsers(t: map<SubmissionKey, SubmissionRow>, p: Problem, us: seq<User>,
                      solves: (Problem, User) -> bool, nowMs: int): map<SubmissionKey, SubmissionRow>
    decreases |us|
  {
    if us == [] then t
    else Upsert(SweepUsers(t, p, us[..|us| - 1], solves, nowMs), p, us[|us| - 1], solves, nowMs)
  }

  /** One more user upserts after the others. */
  lemma SweepUsersSnoc(t: map<SubmissionKey, SubmissionRow>, p: Problem, us: seq<User>, u: User,
                       solves: (Problem, User) -> bool, nowMs: int)
    ensures SweepUsers(t, p, us + [u], solves, nowMs) == Upsert(SweepUsers(t, p, us, solves, nowMs), p, u, solves, nowMs)
  {
    assert (us + [u])[..|us|] == us;
  }

  /** The outer loop over the first problems. */
  function SweepProblems(t: map<SubmissionKey, SubmissionRow>, ps: seq<Problem>, us: seq<User>,
                         solves: (Problem, User) -> bool, nowMs: int): map<SubmissionKey, SubmissionRow>
    decreases |ps|
  {
    if ps == [] then t
    else SweepUsers(SweepProblems(t, ps[..|ps| - 1], us, solves, nowMs), ps[|ps| - 1], us, solves, nowMs)
  }

  /** One more problem is swept after the others. */
  lemma SweepProblemsSnoc(t: map<SubmissionKey, SubmissionRow>, ps: seq<Problem>, p: Problem, us: seq<User>,
                          solves: (Problem, User) -> bool, nowMs: int)
    ensures SweepProblems(t, ps + [p], us, solves, nowMs) == SweepUsers(SweepProblems(t, ps, us, solves, nowMs), p, us, solves, nowMs)
  {
    assert (ps + [p])[..|ps|] == ps;
  }

  /** The submissions table after a sweep over `ps` and `us`. */
  function Sweep(t: map<SubmissionKey, SubmissionRow>, ps: seq<Problem>, us: seq<User>, env: SweepEnv): map<SubmissionKey, SubmissionRow> {
    SweepProblems(t, ps, us, Decision(env), env.nowMs)
  }

  /** `key` is the pair of a user of `us` and `p` for which `solves` holds. */
  predicate HitFor(p: Problem, us: seq<User>, solves: (Problem, User) -> bool, key: SubmissionKey) {
    exists j :: 0 <= j < |us| && key == (us[j].id, p.id) && solves(p, us[j])
  }

  /** `key` is the pair of a user and a problem for which `solves` holds. */
  predicate Hit(ps: seq<Problem>, us: seq<User>, solves: (Problem, User) -> bool, key: SubmissionKey) {
    exists i :: 0 <= i < |ps| && HitFor(ps[i], us, solves, key)
  }

  /** The inner loop writes the rows of its hits and leaves every other row
      as it was. */
  lemma {:induction false} SweepUsersClosedForm(t: map<SubmissionKey, SubmissionRow>, p: Problem, us: seq<User>,
                                                solves: (Problem, User) -> bool, nowMs: int)
    ensures forall key :: key in SweepUsers(t, p, us, solves, nowMs) <==> key in t || HitFor(p, us, solves, key)
    ensures forall key :: key in SweepUsers(t, p, us, solves, nowMs) ==>
              SweepUsers(t, p, us, solves, nowMs)[key] == if HitFor(p, us, solves, key) then SolvedRow(nowMs) else t[key]
    decreases |us|
  {
    if us != [] {
      var init := us[..|us| - 1];
      var last := us[|us| - 1];
      SweepUsersClosedForm(t, p, init, solves, nowMs);
      forall key
        ensures HitFor(p, us, solves, key) <==> HitFor(p, init, solves, key) || (key == (last.id, p.id) && solves(p, last))
      {
        if HitFor(p, init, solves, key) {
          var j :| 0 <= j < |init| && key == (init[j].id, p.id) && solves(p, init[j]);
          assert us[j] == init[j];
        }
        if HitFor(p, us, solves, key) {
          var j :| 0 <= j < |us| && key == (us[j].id, p.id) && solves(p, us[j]);
          if j < |init| {
            assert us[j] == init[j];
          }
        }
      }
    }
  }

  /** The outer loop writes the rows of all hits and leaves every other row
      as it was. */
  lemma {:induction false} SweepClosedForm(t: map<SubmissionKey, SubmissionRow>, ps: seq<Problem>, us: seq<User>,
                                           solves: (Problem, User) -> bool, nowMs: int)
    ensures forall key :: key in SweepProblems(t, ps, us, solves, nowMs) <==> key in t || Hit(ps, us, solves, key)
    ensures forall key :: key in SweepProblems(t, ps, us, solves, nowMs) ==>
              SweepProblems(t, ps, us, solves, nowMs)[key] == if Hit(ps, us, solves, key) then SolvedRow(nowMs) else t[key]
    decreases |ps|
  {
    if ps != [] {
      var init := ps[..|ps| - 1];
      var last := ps[|ps| - 1];
      SweepClosedForm(t, init, us, solves, nowMs);
      SweepUsersClosedForm(SweepProblems(t, init, us, solves, nowMs), last, us, solves, nowMs);
      forall key ensures Hit(ps, us, solves, key) <==> Hit(init, us, solves, key) || HitFor(last, us, solves, key) {
        if Hit(init, us, solves, key) {
          var i :| 0 <= i < |init| && HitFor(init[i], us, solves, key);
          assert ps[i] == init[i];
        }
        if Hit(ps, us, solves, key) {
          var i :| 0 <= i < |ps| && HitFor(ps[i], us, solves, key);
          if i < |init| {
            assert ps[i] == init[i];
          }
        }
      }
    }
  }

  /** A problem for which no user is a hit leaves the table as it was. */
  lemma {:induction false} SweepUsersNoHit(t: map<SubmissionKey, SubmissionRow>, p: Problem, us: seq<User>,
                                           solves: (Problem, User) -> bool, nowMs: int)
    requires forall u :: !solves(p, u)
    ensures SweepUsers(t, p, us, solves, nowMs) == t
    decreases |us|
  {
    if us != [] {
      SweepUsersNoHit(t, p, us[..|us| - 1], solves, nowMs);
    }
  }

  /** A problem not yet begun, or whose link yields no identifier, gets no row. */
  lemma SkippedProblemHasNoHit(p: Problem, env: SweepEnv)
    requires !IsEligible(p, env) || GetProblemIdFromUrl(p.link).None?
    ensures forall u :: !Decision(env)(p, u)
  {
  }

  /** On an eligible problem with identifier `problemId`, a user is a hit
      exactly when Codeforces shows a solve after the cutoff and the upsert
      goes through. */
  lemma EligibleProblemDecision(p: Problem, env: SweepEnv, problemId: string)
    requires IsEligible(p, env) && GetProblemIdFromUrl(p.link) == Some(problemId)
    ensures forall u: User :: Decision(env)(p, u) <==>
              CheckSubmission(u.codeforcesHandle, problemId, env.dayStartMs(p.date) / 1000, env.userStatus)
              && !env.upsertFails((u.id, p.id))
  {
  }

  /** The sweep deletes no row, never clears a solved flag, and every row
      it adds is solved. */
  lemma SweepOnlyAdds(t: map<SubmissionKey, SubmissionRow>, ps: seq<Problem>, us: seq<User>, env: SweepEnv)
    ensures t.Keys <= Sweep(t, ps, us, env).Keys
    ensures forall key :: key in t && t[key].solved ==> Sweep(t, ps, us, env)[key].solved
    ensures forall key :: key in Sweep(t, ps, us, env) && key !in t ==> Sweep(t, ps, us, env)[key].solved
  {
    SweepClosedForm(t, ps, us, Decision(env), env.nowMs);
  }

  /** A pair the sweep does not find solved keeps its row, or stays absent. */
  lemma SweepLeavesOthers(t: map<SubmissionKey, SubmissionRow>, ps: seq<Problem>, us: seq<User>, env: SweepEnv,
                          key: SubmissionKey)
    requires !Hit(ps, us, Decision(env), key)
    ensures key in Sweep(t, ps, us, env) <==> key in t
    ensures key in t ==> Sweep(t, ps, us, env)[key] == t[key]
  {
    SweepClosedForm(t, ps, us, Decision(env), env.nowMs);
  }

  /** A row is written or changed only for a user and an eligible problem
      whose submissions show it solved after the start of its day, and the
      row written is solved and stamped with the sweep's time. */
  lemma SweepWritesOnlySolved(t: map<SubmissionKey, SubmissionRow>, ps: seq<Problem>, us: seq<User>, env: SweepEnv,
                              key: SubmissionKey)
    requires key in Sweep(t, ps, us, env)
    requires key !in t || Sweep(t, ps, us, env)[key] != t[key]
    ensures Sweep(t, ps, us, env)[key] == SubmissionRow(true, env.nowMs)
    ensures exists i, j :: 0 <= i < |ps| && 0 <= j < |us| && key == (us[j].id, ps[i].id) && Solves(ps[i], us[j], env)
  {
    SweepClosedForm(t, ps, us, Decision(env), env.nowMs);
    var i :| 0 <= i < |ps| && HitFor(ps[i], us, Decision(env), key);
    var j :| 0 <= j < |us| && key == (us[j].id, ps[i].id) && Decision(env)(ps[i], us[j]);
  }

  /** A second sweep that finds at least the same pairs solved gives what it
      would give alone: every row the first one wrote is written again. */
  lemma SweepAbsorbs(t: map<SubmissionKey, SubmissionRow>, ps: seq<Problem>, us: seq<User>,
                     solves1: (Problem, User) -> bool, now1: int, solves2: (Problem, User) -> bool, now2: int)
    requires forall key :: Hit(ps, us, solves1, key) ==> Hit(ps, us, solves2, key)
    ensures SweepProblems(SweepProblems(t, ps, us, solves1, now1), ps, us, solves2, now2)
            == SweepProblems(t, ps, us, solves2, now2)
  {
    var once := SweepProblems(t, ps, us, solves1, now1);
    SweepClosedForm(t, ps, us, solves1, now1);
    SweepClosedForm(once, ps, us, solves2, now2);
    SweepClosedForm(t, ps, us, solves2, now2);
  }

  /** Sweeping twice with the same data is sweeping once; a later sweep
      that finds the same pairs solved keeps the same rows and only moves
      their times. */
  lemma SweepIdempotent(t: map<SubmissionKey, SubmissionRow>, ps: seq<Problem>, us: seq<User>,
                        env: SweepEnv, later: SweepEnv)
    requires forall key :: Hit(ps, us, Decision(env), key) <==> Hit(ps, us, Decision(later), key)
    ensures Sweep(Sweep(t, ps, us, env), ps, us, env) == Sweep(t, ps, us, env)
    ensures Sweep(Sweep(t, ps, us, env), ps, us, later) == Sweep(t, ps, us, later)
    ensures Sweep(t, ps, us, later).Keys == Sweep(t, ps, us, env).Keys
    ensures forall key :: key in Sweep(t, ps, us, later) ==>
              && Sweep(t, ps, us, later)[key].solved == Sweep(t, ps, us, env)[key].solved
              && (Sweep(t, ps, us, later)[key] != Sweep(t, ps, us, env)[key] ==>
                    Sweep(t, ps, us, later)[key] == SolvedRow(later.nowMs) && Sweep(t, ps, us, env)[key] == SolvedRow(env.nowMs))
  {
    SweepAbsorbs(t, ps, us, Decision(env), env.nowMs, Decision(env), env.nowMs);
    SweepAbsorbs(t, ps, us, Decision(env), env.nowMs, Decision(later), later.nowMs);
    SweepClosedForm(t, ps, us, Decision(env), env.nowMs);
    SweepClosedForm(t, ps, us, Decision(later), later.nowMs);
  }

  // ---------------------------------------------------------------------
  // Search and counts

  /** The search test: the lower-cased name or handle contains the
      lower-cased term. */
  predicate MatchesSearch(u: User, term: string) {
    Contains(ToLower(u.name), ToLower(term)) || Contains(ToLower(u.codeforcesHandle), ToLower(term))
  }

  /** `filteredUsers`: the users passing the search, in their order, each
      as often as in the list. */
  function FilteredUsers(users: seq<User>, term: string): (r: seq<User>)
    ensures IsSubsequence(r, users)
    ensures forall k :: 0 <= k < |r| ==> MatchesSearch(r[k], term)
  {
    Filter(users, (u: User) => MatchesSearch(u, term))
  }

  /** A user is listed exactly when in the list and passing the search, and
      as often as in the list. */
  lemma FilteredUsersAre(users: seq<User>, term: string)
    ensures forall u :: u in FilteredUsers(users, term) <==> u in users && MatchesSearch(u, term)
    ensures forall u :: MatchesSearch(u, term) ==> multiset(FilteredUsers(users, term))[u] == multiset(users)[u]
  {
    var keep := (u: User) => MatchesSearch(u, term);
    FilterMembers(users, keep);
    forall u | MatchesSearch(u, term) ensures multiset(FilteredUsers(users, term))[u] == multiset(users)[u] {
      FilterCount(users, keep, u);
    }
  }

  /** An empty search keeps every user. */
  lemma EmptySearchKeepsAll(users: seq<User>)
    ensures FilteredUsers(users, "") == users
  {
    var keep := (u: User) => MatchesSearch(u, "");
    forall k | 0 <= k < |users| ensures keep(users[k]) {
      assert OccursAt(ToLower(users[k].name), 0, "");
    }
    FilterKeepsAll(users, keep);
  }

  /** A submission counted for a problem. */
  predicate CountsFor(s: Submission, problemId: string) { s.problemId == problemId && s.solved }

  /** `solvedCount`: the solved submissions listed for the problem. */
  function SolvedCount(submissions: seq<Submission>, problemId: string): (n: nat)
    ensures n <= |submissions|
  {
    FilterLength(submissions, (s: Submission) => CountsFor(s, problemId));
    |Filter(submissions, (s: Submission) => CountsFor(s, problemId))|
  }

  /** The count adds up over a split list and counts one for each listed
      solved submission of the problem, so it is the number of them. */
  lemma SolvedCountAdds(a: seq<Submission>, b: seq<Submission>, s: Submission, problemId: string)
    ensures SolvedCount(a + b, problemId) == SolvedCount(a, problemId) + SolvedCount(b, problemId)
    ensures SolvedCount([s], problemId) == if CountsFor(s, problemId) then 1 else 0
  {
    FilterAppend(a, b, (x: Submission) => CountsFor(x, problemId));
  }

  // ---------------------------------------------------------------------
  // The loops of the page's handlers

  /** The loop of `handleBulkAddUsers` over the lines of the text: every
      line that parses and whose handle Codeforces knows adds its user, in
      order. */
  method CollectBulkUsers(userLines: seq<string>, api: string -> ApiReply<seq<CfUser>>) returns (collected: seq<NewUser>)
    ensures collected == BulkUsers(userLines, api)
  {
    collected := [];
    var i := 0;
    while i < |userLines|
      invariant 0 <= i <= |userLines|
      invariant collected == BulkUsers(userLines[..i], api)
    {
      assert userLines[..i + 1] == userLines[..i] + [userLines[i]];
      BulkUsersSnoc(userLines[..i], userLines[i], api);
      var entry := ParseBulkLine(userLines[i]);
      if entry.Some? {
        var isValid := ValidateHandle(entry.value.1, api);
        if isValid {
          collected := collected + [NewUser(entry.value.0, entry.value.1, 0)];
        }
      }
      i := i + 1;
    }
    assert userLines[..i] == userLines;
  }

  /** The inner loop of `checkAllSubmissions`, for one problem whose day
      has begun and whose identifier is `problemId`: each user with a
      solving submission after second `after` is upserted as solved, unless
      the database refuses the upsert. `solves` is the decision the sweep
      specification makes for the problem. */
  method SweepProblemUsers(table: map<SubmissionKey, SubmissionRow>, problem: Problem, problemId: string, after: int,
                           users: seq<User>, env: SweepEnv, ghost solves: (Problem, User) -> bool)
    returns (swept: map<SubmissionKey, SubmissionRow>)
    requires forall u: User :: solves(problem, u) <==>
               CheckSubmission(u.codeforcesHandle, problemId, after, env.userStatus) && !env.upsertFails((u.id, problem.id))
    ensures swept == SweepUsers(table, problem, users, solves, env.nowMs)
  {
    swept := table;
    var j := 0;
    while j < |users|
      invariant 0 <= j <= |users|
      invariant swept == SweepUsers(table, problem, users[..j], solves, env.nowMs)
    {
      var user := users[j];
      assert users[..j + 1] == users[..j] + [user];
      SweepUsersSnoc(table, problem, users[..j], user, solves, env.nowMs);
      var solved := CheckSubmission(user.codeforcesHandle, problemId, after, env.userStatus);
      if solved && !env.upsertFails((user.id, problem.id)) {
        swept := swept[(user.id, problem.id) := SolvedRow(env.nowMs)];
      }
      j := j + 1;
    }
    assert users[..j] == users;
  }

  /** The nested loops of `checkAllSubmissions` over a submissions table:
      for each problem whose day has begun and whose link yields an
      identifier, and each user, the pair is upserted as solved when the
      user solved it after the day began and the upsert goes through. */
  method SweepSubmissions(table: map<SubmissionKey, SubmissionRow>, problems: seq<Problem>, users: seq<User>,
                          env: SweepEnv) returns (swept: map<SubmissionKey, SubmissionRow>)
    ensures swept == Sweep(table, problems, users, env)
  {
    swept := table;
    var i := 0;
    while i < |problems|
      invariant 0 <= i <= |problems|
      invariant swept == SweepProblems(table, problems[..i], users, Decision(env), env.nowMs)
    {
      var problem := problems[i];
      assert problems[..i + 1] == problems[..i] + [problem];
      SweepProblemsSnoc(table, problems[..i], problem, users, Decision(env), env.nowMs);
      var dayStart := env.dayStartMs(problem.date);
      if !(env.nowMs > dayStart) {
        SkippedProblemHasNoHit(problem, env);
        SweepUsersNoHit(swept, problem, users, Decision(env), env.nowMs);
      } else {
        var problemId := GetProblemIdFromUrl(problem.link);
        if problemId.None? {
          SkippedProblemHasNoHit(problem, env);
          SweepUsersNoHit(swept, problem, users, Decision(env), env.nowMs);
        } else {
          EligibleProblemDecision(problem, env, problemId.value);
          swept := SweepProblemUsers(swept, problem, problemId.value, dayStart / 1000, users, env, Decision(env));
        }
      }
      i := i + 1;
    }
    assert problems[..i] == problems;
  }

  // ---------------------------------------------------------------------
  // The page

  /** Every stored problem's link names a problem. */
  predicate LinksValid(ps: seq<NewProblem>)
  {
    forall k :: 0 <= k < |ps| ==> GetProblemIdFromUrl(ps[k].link).Some?
  }

  lemma AppendKeepsLinksValid(ps: seq<NewProblem>, p: NewProblem)
    requires GetProblemIdFromUrl(p.link).Some?
    ensures LinksValid(ps + [p]) <==> LinksValid(ps)
  {
    var qs := ps + [p];
    assert forall k :: 0 <= k < |ps| ==> qs[k] == ps[k];
    assert qs[|ps|] == p;
  }

  /** The admin page's state, and the tables it writes. */
  class Dashboard {
    // loaded lists
    var problems: seq<Problem>
    var users: seq<User>
    // form fields
    var selectedDay: Option<string>
    var newProblemLink: string
    var newUserName: string
    var newUserHandle: string
    var bulkUsersText: string
    var showBulkAdd: bool
    // flags and messages
    var loading: bool
    var validationError: string
    var checkingSubmissions: bool
    // database tables
    var problemTable: seq<NewProblem>
    var userTable: seq<NewUser>
    var submissionTable: map<SubmissionKey, SubmissionRow>

    constructor(problems: seq<Problem>, users: seq<User>, today: string,
                problemTable: seq<NewProblem>, userTable: seq<NewUser>,
                submissionTable: map<SubmissionKey, SubmissionRow>)
      ensures this.problems == problems && this.users == users
      ensures selectedDay == Some(today)
      ensures newProblemLink == "" && newUserName == "" && newUserHandle == "" && bulkUsersText == ""
      ensures !showBulkAdd && !loading && validationError == "" && !checkingSubmissions
      ensures this.problemTable == problemTable && this.userTable == userTable
      ensures this.submissionTable == submissionTable
    {
      this.problems := problems;
      this.users := users;
      selectedDay := Some(today);
      newProblemLink := "";
      newUserName := "";
      newUserHandle := "";
      bulkUsersText := "";
      showBulkAdd := false;
      loading := false;
      validationError := "";
      checkingSubmissions := false;
      this.problemTable := problemTable;
      this.userTable := userTable;
      this.submissionTable := submissionTable;
    }

    /** Every problem row has a link that yields a problem identifier. */
    predicate ProblemLinksValid()
      reads this
    {
      LinksValid(problemTable)
    }

    /** `handleAddProblem`, given what the database answers to the insert:
        nothing happens without a date; otherwise the row is inserted and
        the link field cleared, or a message is shown and nothing inserted. */
    method HandleAddProblem(insertError: Option<StoreError>)
      modifies this`loading, this`validationError, this`problemTable, this`newProblemLink
      ensures old(selectedDay).None? ==>
                problemTable == old(problemTable) && newProblemLink == old(newProblemLink)
                && loading == old(loading) && validationError == old(validationError)
      ensures old(selectedDay).Some? ==>
                var outcome := AddProblemOutcome(old(newProblemLink), insertError);
                && !loading
                && problemTable == (if outcome.Added? then old(problemTable) + [NewProblem(old(newProblemLink), old(selectedDay).value)]
                                    else old(problemTable))
                && newProblemLink == (if outcome.Added? then "" else old(newProblemLink))
                && validationError == (if outcome.Added? then "" else outcome.message)
      ensures old(ProblemLinksValid()) ==> ProblemLinksValid()
    {
      if selectedDay.None? {
        return;
      }
      loading := true;
      validationError := "";
      var problemId := GetProblemIdFromUrl(newProblemLink);
      ghost var outcome := AddProblemOutcome(newProblemLink, insertError);
      if problemId.None? {
        assert outcome == Rejected(InvalidUrlMessage);
        validationError := InvalidUrlMessage;
      } else if insertError.Some? {
        assert !outcome.Added?;
        if insertError.value.code == UniqueViolation {
          validationError := ProblemExistsMessage;
        } else {
          validationError := AddProblemFailedMessage;
        }
      } else {
        assert outcome.Added?;
        AppendKeepsLinksValid(problemTable, NewProblem(newProblemLink, selectedDay.value));
        problemTable := problemTable + [NewProblem(newProblemLink, selectedDay.value)];
        newProblemLink := "";
      }
      loading := false;
    }

    /** `handleAddUser`, given Codeforces' replies and what the database
        answers to the insert: the user is inserted with no points and the
        form cleared, or a message is shown and nothing inserted. */
    method HandleAddUser(api: string -> ApiReply<seq<CfUser>>, insertError: Option<StoreError>)
      modifies this`loading, this`validationError, this`userTable, this`newUserName, this`newUserHandle
      ensures var outcome := AddUserOutcome(old(newUserHandle), api, insertError);
              && userTable == (if outcome.Added? then old(userTable) + [NewUser(old(newUserName), old(newUserHandle), 0)]
                               else old(userTable))
              && newUserName == (if outcome.Added? then "" else old(newUserName))
              && newUserHandle == (if outcome.Added? then "" else old(newUserHandle))
              && validationError == (if outcome.Added? then "" else outcome.message)
      ensures !loading
    {
      loading := true;
      validationError := "";
      var isValid := ValidateHandle(newUserHandle, api);
      if !isValid {
        validationError := InvalidHandleMessage;
      } else if insertError.Some? {
        if insertError.value.code == UniqueViolation {
          validationError := UserExistsMessage;
        } else {
          validationError := AddUserFailedMessage;
        }
      } else {
        userTable := userTable + [NewUser(newUserName, newUserHandle, 0)];
        newUserName := "";
        newUserHandle := "";
      }
      loading := false;
    }

    /** `handleBulkAddUsers`, given Codeforces' replies and what the
        database answers to the insert: the users of the valid lines are
        inserted together, the text cleared and the form closed, or a
        message is shown and nothing inserted. */
    method HandleBulkAddUsers(api: string -> ApiReply<seq<CfUser>>, insertError: Option<StoreError>)
      modifies this`loading, this`validationError, this`userTable, this`bulkUsersText, this`showBulkAdd
      ensures var collected := BulkUsers(Split(old(bulkUsersText), '\n'), api);
              var outcome := BulkAddOutcome(collected, insertError);
              && userTable == (if outcome.Added? then old(userTable) + collected else old(userTable))
              && bulkUsersText == (if outcome.Added? then "" else old(bulkUsersText))
              && showBulkAdd == (if outcome.Added? then false else old(showBulkAdd))
              && validationError == (if outcome.Added? then "" else outcome.message)
      ensures !loading
    {
      loading := true;
      validationError := "";
      var userLines := Split(bulkUsersText, '\n');
      var collected := CollectBulkUsers(userLines, api);
      if collected == [] {
        validationError := NoValidUsersMessage;
      } else if insertError.Some? {
        validationError := AddUsersFailedMessage;
      } else {
        userTable := userTable + collected;
        bulkUsersText := "";
        showBulkAdd := false;
      }
      loading := false;
    }

    /** `checkAllSubmissions`, with the clock, the date parsing, Codeforces'
        replies and the database's upsert failures as inputs: for each
        eligible problem with an identifier and each user, the pair is
        upserted as solved when the user solved it after the day began. */
    method CheckAllSubmissions(env: SweepEnv)
      modifies this`checkingSubmissions, this`submissionTable
      ensures submissionTable == Sweep(old(submissionTable), problems, users, env)
      ensures !checkingSubmissions
    {
      checkingSubmissions := true;
      submissionTable := SweepSubmissions(submissionTable, problems, users, env);
      checkingSubmissions := false;
    }
  }
}
