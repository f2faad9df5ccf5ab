/** The three calls the dashboard makes to the Codeforces API helpers
    (src/lib/codeforces.ts): the problem identifier taken from a problem
    link, the "solved after the cutoff" decision over a user's recent
    submissions, and the handle check. The HTTP requests themselves are
    replaced by the reply they produce, an input here. */
module Codeforces {
  import opened Wrappers
  import opened Text

  /** What an API call yields to its caller: the decoded JSON body, or the
      message of the error thrown while fetching or decoding it. `result` is
      `None` when the body has no result field. */
  datatype ApiReply<T> =
    | Thrown(message: string)
    | Body(status: string, comment: Option<string>, result: Option<T>)

  /** A problem as the submission feed describes it; the contest id may be absent. */
  datatype CfProblem = CfProblem(contestId: Option<nat>, index: string)

  datatype CfSubmission = CfSubmission(creationTimeSeconds: int, problem: CfProblem, verdict: Option<string>)

  datatype CfUser = CfUser(handle: string)

  // ---------------------------------------------------------------------
  // Problem links

  /** The two capture groups of a problem-link pattern: contest id and index. */
  datatype ProblemRef = ProblemRef(contestId: string, index: string)

  /** The pattern `lead(\d+)sep([A-Z]\d*)` with the `i` flag. */
  datatype LinkPattern = LinkPattern(lead: string, sep: string)

  /** `contest\/(\d+)\/problem\/([A-Z]\d*)` */
  const ContestLink := LinkPattern("contest/", "/problem/")

  /** `problem\/(\d+)\/([A-Z]\d*)` */
  const ProblemsetLink := LinkPattern("problem/", "/")

  /** Where a contest link is rewritten to before the identifier is read. */
  const ProblemsetBase := "https://codeforces.com/problemset/problem/"

  /** Both patterns follow the digit group with a slash, so the greedy digit
      run never has to give anything back. */
  predicate SlashAfterDigits(p: LinkPattern) { |p.sep| >= 1 && p.sep[0] == '/' }

  /** One letter, then digits: what `[A-Z]\d*` with the `i` flag accepts. */
  predicate IsIndex(s: string) { |s| >= 1 && IsAsciiLetter(s[0]) && AllDigits(s[1..]) }

  predicate IsWellFormed(r: ProblemRef) { |r.contestId| >= 1 && AllDigits(r.contestId) && IsIndex(r.index) }

  /** A problem identifier: a non-empty run of digits, one letter, digits. */
  predicate IsProblemId(s: string) {
    exists k :: 1 <= k < |s| && AllDigits(s[..k]) && IsIndex(s[k..])
  }

  /** `[A-Z]\d*` matches at `b` with text `idx`, the digit run taken greedily. */
  predicate IndexMatchesAt(s: string, b: nat, idx: string) {
    var e := b + |idx|;
    IsIndex(idx) && e <= |s| && s[b..e] == idx && (e == |s| || !IsDigit(s[e]))
  }

  /** `(\d+)sep([A-Z]\d*)` matches at `a` with captures `r`. */
  predicate RestMatchesAt(s: string, a: nat, sep: string, r: ProblemRef) {
    var c := a + |r.contestId|;
    && |r.contestId| >= 1 && AllDigits(r.contestId)
    && c <= |s| && s[a..c] == r.contestId
    && OccursAtIgnoringCase(s, c, sep)
    && IndexMatchesAt(s, c + |sep|, r.index)
  }

  /** The pattern `p` matches `s` at position `i` with captures `r`. */
  predicate MatchesAt(s: string, i: nat, p: LinkPattern, r: ProblemRef) {
    OccursAtIgnoringCase(s, i, p.lead) && RestMatchesAt(s, i + |p.lead|, p.sep, r)
  }

  /** The attempt to match `[A-Z]\d*` at `b`. */
  function IndexAt(s: string, b: nat): (idx: Option<string>)
    ensures idx.Some? ==> IndexMatchesAt(s, b, idx.value)
  {
    if b < |s| && IsAsciiLetter(s[b]) then
      var k := Span(s, b + 1, IsDigit);
      var idx := s[b..b + 1 + k];
      assert idx[1..] == s[b + 1..b + 1 + k];
      Some(idx)
    else None
  }

  /** Whenever `[A-Z]\d*` matches at `b`, the attempt there finds it. */
  lemma IndexAtFinds(s: string, b: nat, idx: string)
    requires IndexMatchesAt(s, b, idx)
    ensures IndexAt(s, b) == Some(idx)
  {
    var e := b + |idx|;
    assert s[b] == idx[0];
    forall k | b + 1 <= k < e ensures IsDigit(s[k]) {
      assert s[k] == idx[1..][k - b - 1];
    }
    SpanOfBoundedRun(s, b + 1, IsDigit, |idx| - 1);
  }

  /** The attempt to match `(\d+)sep([A-Z]\d*)` at `a`. */
  function RestAt(s: string, a: nat, sep: string): (m: Option<ProblemRef>)
    ensures m.Some? ==> RestMatchesAt(s, a, sep, m.value)
  {
    if a > |s| then None
    else
      var n := Span(s, a, IsDigit);
      if n == 0 || !OccursAtIgnoringCase(s, a + n, sep) then None
      else match IndexAt(s, a + n + |sep|)
        case Some(idx) => Some(ProblemRef(s[a..a + n], idx))
        case None => None
  }

  /** Whenever `(\d+)sep([A-Z]\d*)` matches at `a`, the attempt there finds
      it: the greedy digit run stops where the separator's slash begins. */
  lemma RestAtFinds(s: string, a: nat, sep: string, r: ProblemRef)
    requires |sep| >= 1 && sep[0] == '/'
    requires RestMatchesAt(s, a, sep, r)
    ensures RestAt(s, a, sep) == Some(r)
  {
    var n := |r.contestId|;
    forall k | a <= k < a + n ensures IsDigit(s[k]) {
      assert s[k] == r.contestId[k - a];
    }
    assert FoldCase(s[a + n + 0]) == FoldCase(sep[0]);
    SpanOfBoundedRun(s, a, IsDigit, n);
    IndexAtFinds(s, a + n + |sep|, r.index);
  }

  /** The attempt to match `p` at position `i`. */
  function MatchAt(s: string, i: nat, p: LinkPattern): (m: Option<ProblemRef>)
    ensures m.Some? ==> MatchesAt(s, i, p, m.value)
  {
    if OccursAtIgnoringCase(s, i, p.lead) then RestAt(s, i + |p.lead|, p.sep) else None
  }

  /** Whenever the pattern matches at `i`, the attempt there finds that match. */
  lemma MatchAtFinds(s: string, i: nat, p: LinkPattern, r: ProblemRef)
    requires SlashAfterDigits(p)
    requires MatchesAt(s, i, p, r)
    ensures MatchAt(s, i, p) == Some(r)
  {
    var a := i + |p.lead|;
    assert OccursAtIgnoringCase(s, i, p.lead) && RestMatchesAt(s, a, p.sep, r);
    RestAtFinds(s, a, p.sep, r);
    assert MatchAt(s, i, p) == RestAt(s, a, p.sep);
  }

  /** The positions at which the pattern `p` matches `s`. */
  function MatchHit(s: string, p: LinkPattern): nat -> bool {
    (j: nat) => MatchAt(s, j, p).Some?
  }

  /** Where the leftmost match of `p` at or after `from` starts: the
      position a pattern without the `g` flag reports. */
  function MatchPosition(s: string, p: LinkPattern, from: nat): Option<nat> {
    Leftmost(from, |s|, MatchHit(s, p))
  }

  /** The search for a match, trying each position from `from` on. */
  function MatchFrom(s: string, p: LinkPattern, from: nat): (m: Option<ProblemRef>)
    ensures m.Some? ==> IsWellFormed(m.value)
    decreases |s| + 1 - from
  {
    if from > |s| then None
    else match MatchAt(s, from, p)
      case Some(r) => Some(r)
      case None => MatchFrom(s, p, from + 1)
  }

  /** `s.match(p)`: the captures of the first match, if there is one. */
  function FirstMatch(s: string, p: LinkPattern): (m: Option<ProblemRef>)
    ensures m.Some? ==> IsWellFormed(m.value)
  {
    MatchFrom(s, p, 0)
  }

  /** The search reports the captures of the leftmost match. */
  lemma {:induction false} MatchFromIsLeftmost(s: string, p: LinkPattern, from: nat)
    ensures MatchFrom(s, p, from) == match MatchPosition(s, p, from)
                                     case Some(i) => MatchAt(s, i, p)
                                     case None => None
    decreases |s| + 1 - from
  {
    if from <= |s| && MatchAt(s, from, p).None? {
      MatchFromIsLeftmost(s, p, from + 1);
    }
  }

  /** `s.match(p)` is the leftmost match: none when no position matches,
      otherwise the captures at the first position that does. */
  lemma FirstMatchIsLeftmost(s: string, p: LinkPattern)
    ensures FirstMatch(s, p).None? <==> forall j :: 0 <= j <= |s| ==> MatchAt(s, j, p).None?
    ensures FirstMatch(s, p).Some? ==>
              exists i :: 0 <= i <= |s| && MatchAt(s, i, p) == FirstMatch(s, p)
                          && forall j :: 0 <= j < i ==> MatchAt(s, j, p).None?
  {
    MatchFromIsLeftmost(s, p, 0);
    var hit := MatchHit(s, p);
    var pos := MatchPosition(s, p, 0);
    if pos.Some? {
      assert hit(pos.value);
      forall j | 0 <= j < pos.value ensures MatchAt(s, j, p).None? {
        assert !hit(j);
      }
    } else {
      forall j | 0 <= j <= |s| ensures MatchAt(s, j, p).None? {
        assert !hit(j);
      }
    }
  }

  /** A match with no occurrence of the lead to its left is the one the
      search reports. */
  lemma {:induction false} MatchFromIs(s: string, p: LinkPattern, from: nat, i: nat, r: ProblemRef)
    requires SlashAfterDigits(p)
    requires from <= i && MatchesAt(s, i, p, r)
    requires forall j :: from <= j < i ==> !OccursAtIgnoringCase(s, j, p.lead)
    ensures MatchFrom(s, p, from) == Some(r)
    decreases i - from
  {
    if from == i {
      MatchAtFinds(s, i, p, r);
    } else {
      assert !OccursAtIgnoringCase(s, from, p.lead);
      MatchFromIs(s, p, from + 1, i, r);
    }
  }

  /** A match with no occurrence of the lead to its left is the one `match`
      reports. */
  lemma FirstMatchIs(s: string, p: LinkPattern, i: nat, r: ProblemRef)
    requires SlashAfterDigits(p)
    requires MatchesAt(s, i, p, r)
    requires forall j :: 0 <= j < i ==> !OccursAtIgnoringCase(s, j, p.lead)
    ensures FirstMatch(s, p) == Some(r)
  {
    MatchFromIs(s, p, 0, i, r);
  }

  /** Without an occurrence of the lead from `from` on, the search finds nothing. */
  lemma {:induction false} MatchFromNone(s: string, p: LinkPattern, from: nat)
    requires forall j :: from <= j <= |s| ==> !OccursAtIgnoringCase(s, j, p.lead)
    ensures MatchFrom(s, p, from).None?
    decreases |s| + 1 - from
  {
    if from <= |s| {
      assert !OccursAtIgnoringCase(s, from, p.lead);
      MatchFromNone(s, p, from + 1);
    }
  }

  /** A pattern whose lead occurs nowhere does not match. */
  lemma NoLeadNoMatch(s: string, p: LinkPattern)
    requires forall j :: 0 <= j <= |s| ==> !OccursAtIgnoringCase(s, j, p.lead)
    ensures FirstMatch(s, p).None?
  {
    MatchFromNone(s, p, 0);
  }

  /** The problemset link a contest link is rewritten to. */
  function Normalize(r: ProblemRef): string {
    ProblemsetBase + r.contestId + "/" + r.index
  }

  /** `getProblemIdFromUrl`: a contest link is first rewritten to a
      problemset link, then the problemset pattern gives contest id and index. */
  function GetProblemIdFromUrl(url: string): (id: Option<string>)
    ensures id.Some? ==> IsProblemId(id.value)
  {
    var normalized := match FirstMatch(url, ContestLink)
      case Some(c) => Normalize(c)
      case None => url;
    match FirstMatch(normalized, ProblemsetLink)
    case Some(m) =>
      var s := m.contestId + m.index;
      assert s[..|m.contestId|] == m.contestId && s[|m.contestId|..] == m.index;
      Some(s)
    case None => None
  }

  /** "problem/" does not start before position 34 of the problemset base. */
  lemma ProblemsetLeadNotBefore34(s: string)
    requires |s| >= 42 && s[..42] == ProblemsetBase
    ensures forall j :: 0 <= j < 34 ==> !OccursAtIgnoringCase(s, j, ProblemsetLink.lead)
  {
    var lead := ProblemsetLink.lead;
    forall j | 0 <= j < 34 ensures !OccursAtIgnoringCase(s, j, lead) {
      assert s[j] == ProblemsetBase[j] && s[j + 7] == ProblemsetBase[j + 7];
      assert FoldCase(s[j]) != FoldCase(lead[0]) || FoldCase(s[j + 7]) != FoldCase(lead[7]);
    }
  }

  /** The host part shared by both link shapes. */
  const Host := "https://codeforces.com/"

  /** A contest problem link. */
  function ContestUrl(r: ProblemRef): string {
    Host + ContestLink.lead + r.contestId + ContestLink.sep + r.index
  }

  /** "contest/" does not start inside the host part. */
  lemma ContestLeadNotInHost(s: string)
    requires |s| >= 23 && s[..23] == Host
    ensures forall j :: 0 <= j < 23 ==> !OccursAtIgnoringCase(s, j, ContestLink.lead)
  {
    var lead := ContestLink.lead;
    forall j | 0 <= j < 23 && j + 8 <= |s| ensures !OccursAtIgnoringCase(s, j, lead) {
      assert s[j] == Host[j];
      assert j + 2 < 23 ==> s[j + 1] == Host[j + 1] && s[j + 2] == Host[j + 2];
      assert FoldCase(s[j]) != FoldCase(lead[0]) || FoldCase(s[j + 1]) != FoldCase(lead[1])
          || FoldCase(s[j + 2]) != FoldCase(lead[2]);
    }
  }

  /** "contest/" does not start inside the problemset base. */
  lemma ContestLeadNotInBase(s: string)
    requires |s| >= 42 && s[..42] == ProblemsetBase
    ensures forall j :: 0 <= j < 42 ==> !OccursAtIgnoringCase(s, j, ContestLink.lead)
  {
    var lead := ContestLink.lead;
    assert s[..23] == Host;
    ContestLeadNotInHost(s);
    forall j | 23 <= j < 42 && j + 8 <= |s| ensures !OccursAtIgnoringCase(s, j, lead) {
      assert s[j] == ProblemsetBase[j];
      assert FoldCase(s[j]) != FoldCase(lead[0]);
    }
  }

  /** "contest/" does not start anywhere in a string made of the problemset
      base followed by digits, slashes and at most one other character
      followed by a non-letter. */
  lemma ContestLeadNowhere(s: string, b: nat)
    requires |s| >= 42 && s[..42] == ProblemsetBase
    requires forall k :: 42 <= k < |s| && k != b ==> IsDigit(s[k]) || s[k] == '/'
    ensures forall j :: 0 <= j <= |s| ==> !OccursAtIgnoringCase(s, j, ContestLink.lead)
  {
    var lead := ContestLink.lead;
    ContestLeadNotInBase(s);
    forall j | 42 <= j <= |s| && j + 8 <= |s| ensures !OccursAtIgnoringCase(s, j, lead) {
      assert FoldCase(s[j]) != FoldCase(lead[0]) || FoldCase(s[j + 1]) != FoldCase(lead[1]);
    }
  }

  /** Where the parts of a rewritten link sit. */
  lemma NormalizedLayout(r: ProblemRef)
    ensures |Normalize(r)| == 43 + |r.contestId| + |r.index|
    ensures Normalize(r)[..42] == ProblemsetBase
    ensures Normalize(r)[42..42 + |r.contestId|] == r.contestId
    ensures Normalize(r)[42 + |r.contestId|] == '/'
    ensures Normalize(r)[43 + |r.contestId|..] == r.index
  {
    assert |ProblemsetBase| == 42;
  }

  /** The rewritten link matches the problemset pattern at its second
      `problem/` segment, with the captures it was built from. */
  lemma NormalizedMatchesAt34(r: ProblemRef)
    requires IsWellFormed(r)
    ensures MatchesAt(Normalize(r), 34, ProblemsetLink, r)
  {
    var s := Normalize(r);
    var n := |r.contestId|;
    NormalizedLayout(r);
    var lead := ProblemsetLink.lead;
    forall k | 0 <= k < |lead| ensures FoldCase(s[34 + k]) == FoldCase(lead[k]) {
      assert s[34 + k] == s[..42][34 + k];
    }
    assert OccursAtIgnoringCase(s, 42 + n, ProblemsetLink.sep);
    assert s[43 + n..43 + n + |r.index|] == r.index;
  }

  /** After its fixed base, a rewritten link holds only digits and slashes,
      except for the index letter. */
  lemma NormalizedTail(r: ProblemRef)
    requires IsWellFormed(r)
    ensures forall k :: 42 <= k < |Normalize(r)| && k != 43 + |r.contestId| ==>
              IsDigit(Normalize(r)[k]) || Normalize(r)[k] == '/'
  {
    var s := Normalize(r);
    var n := |r.contestId|;
    var b := 43 + n;
    NormalizedLayout(r);
    forall k | 42 <= k < |s| && k != b ensures IsDigit(s[k]) || s[k] == '/' {
      if k < 42 + n {
        assert s[k] == s[42..42 + n][k - 42];
      } else if k > b {
        assert s[k] == s[b..][k - b] == r.index[k - b];
      }
    }
  }

  /** The rewritten link matches the problemset pattern exactly at its
      `problem/` segment, with the captures it was built from, and does not
      match the contest pattern anywhere. */
  lemma NormalizedLinkMatches(r: ProblemRef)
    requires IsWellFormed(r)
    ensures FirstMatch(Normalize(r), ProblemsetLink) == Some(r)
    ensures FirstMatch(Normalize(r), ContestLink) == None
  {
    var s := Normalize(r);
    NormalizedLayout(r);
    NormalizedMatchesAt34(r);
    ProblemsetLeadNotBefore34(s);
    FirstMatchIs(s, ProblemsetLink, 34, r);
    NormalizedTail(r);
    ContestLeadNowhere(s, 43 + |r.contestId|);
    NoLeadNoMatch(s, ContestLink);
  }

  /** A contest link and the problemset link it is rewritten to give the
      same identifier, contest id followed by index. The requires speaks of
      the contest pattern only, so this holds whatever `problem/` segment
      the problemset pattern would find elsewhere in the link: the contest
      match takes precedence. */
  lemma ContestLinkAgreesWithProblemsetLink(url: string, c: ProblemRef)
    requires FirstMatch(url, ContestLink) == Some(c)
    ensures GetProblemIdFromUrl(url) == Some(c.contestId + c.index)
    ensures GetProblemIdFromUrl(Normalize(c)) == GetProblemIdFromUrl(url)
  {
    NormalizedLinkMatches(c);
  }

  /** A link gives no identifier exactly when neither pattern occurs in it;
      without a contest match the problemset match decides. */
  lemma NoPatternNoId(url: string)
    ensures GetProblemIdFromUrl(url).None? <==>
              FirstMatch(url, ContestLink).None? && FirstMatch(url, ProblemsetLink).None?
    ensures FirstMatch(url, ContestLink).None? ==>
              GetProblemIdFromUrl(url) == match FirstMatch(url, ProblemsetLink)
                                          case Some(m) => Some(m.contestId + m.index)
                                          case None => None
  {
    match FirstMatch(url, ContestLink)
    case Some(c) => ContestLinkAgreesWithProblemsetLink(url, c);
    case None =>
  }

  /** A contest link gives its contest id followed by its index. */
  lemma ContestUrlGivesId(r: ProblemRef)
    requires IsWellFormed(r)
    ensures GetProblemIdFromUrl(ContestUrl(r)) == Some(r.contestId + r.index)
  {
    var s := ContestUrl(r);
    var n := |r.contestId|;
    var c := 31 + n;
    assert s[..23] == Host;
    assert s[23..31] == ContestLink.lead;
    assert s[31..c] == r.contestId;
    assert s[c..c + 9] == ContestLink.sep;
    assert s[c + 9..] == r.index;
    var lead := ContestLink.lead;
    var sep := ContestLink.sep;
    forall k | 0 <= k < |lead| ensures FoldCase(s[23 + k]) == FoldCase(lead[k]) {
      assert s[23 + k] == s[23..31][k];
    }
    forall k | 0 <= k < |sep| ensures FoldCase(s[c + k]) == FoldCase(sep[k]) {
      assert s[c + k] == s[c..c + 9][k];
    }
    assert s[c + 9..c + 9 + |r.index|] == r.index;
    assert MatchesAt(s, 23, ContestLink, r);
    ContestLeadNotInHost(s);
    FirstMatchIs(s, ContestLink, 23, r);
    ContestLinkAgreesWithProblemsetLink(s, r);
  }

  /** A problemset link gives its contest id followed by its index, the
      index keeping its case. */
  lemma ProblemsetUrlGivesId(r: ProblemRef)
    requires IsWellFormed(r)
    ensures GetProblemIdFromUrl(Normalize(r)) == Some(r.contestId + r.index)
  {
    NormalizedLinkMatches(r);
  }

  // ---------------------------------------------------------------------
  // The solved decision

  /** `${problem.contestId}${problem.index}`; an absent contest id prints as "undefined". */
  function SubmissionProblemId(p: CfProblem): string {
    (match p.contestId
     case Some(n) => NatToDecimal(n)
     case None => "undefined") + p.index
  }

  /** The test applied to each submission: accepted, for this problem, and
      strictly after the cutoff. */
  predicate SolvesAfter(s: CfSubmission, problemId: string, after: int) {
    && s.creationTimeSeconds > after
    && SubmissionProblemId(s.problem) == problemId
    && s.verdict == Some("OK")
  }

  /** `submissions.some(...)`. */
  function AnySolvesAfter(subs: seq<CfSubmission>, problemId: string, after: int): (found: bool)
    ensures found <==> exists k :: 0 <= k < |subs| && SolvesAfter(subs[k], problemId, after)
    decreases |subs|
  {
    if subs == [] then false
    else SolvesAfter(subs[0], problemId, after) || AnySolvesAfter(subs[1..], problemId, after)
  }

  /** The base of every API request. */
  const ApiBase := "https://codeforces.com/api"

  /** The request for a user's hundred most recent submissions. */
  function UserStatusUrl(handle: string): string {
    ApiBase + "/user.status?handle=" + handle + "&from=1&count=100"
  }

  /** The request for a user's profile. */
  function UserInfoUrl(handle: string): string {
    ApiBase + "/user.info?handles=" + handle
  }

  /** `checkSubmission`: solved when the reply to the user's submission query
      has status "OK" and lists a solving submission; another status, a
      missing result or a thrown error all give false. */
  function CheckSubmission(handle: string, problemId: string, after: int,
                           api: string -> ApiReply<seq<CfSubmission>>): (solved: bool)
    ensures solved <==>
      var reply := api(UserStatusUrl(handle));
      && reply.Body? && reply.status == "OK" && reply.result.Some?
      && exists k :: 0 <= k < |reply.result.value| && SolvesAfter(reply.result.value[k], problemId, after)
  {
    match api(UserStatusUrl(handle))
    case Thrown(_) => false
    case Body(status, _, result) =>
      if status != "OK" then false
      else if result.None? then false
      else AnySolvesAfter(result.value, problemId, after)
  }

  /** Moving the cutoff earlier never loses a solve. */
  lemma CheckSubmissionCutoffMonotone(handle: string, problemId: string, early: int, late: int,
                                      api: string -> ApiReply<seq<CfSubmission>>)
    requires early <= late
    requires CheckSubmission(handle, problemId, late, api)
    ensures CheckSubmission(handle, problemId, early, api)
  {
    var subs := api(UserStatusUrl(handle)).result.value;
    var k :| 0 <= k < |subs| && SolvesAfter(subs[k], problemId, late);
    assert SolvesAfter(subs[k], problemId, early);
  }

  /** The cutoff is strict: an accepted submission for the problem made at
      the cutoff second does not count; one made a second later does. */
  lemma CutoffIsStrict(handle: string, s: CfSubmission, problemId: string,
                       api: string -> ApiReply<seq<CfSubmission>>)
    requires SubmissionProblemId(s.problem) == problemId && s.verdict == Some("OK")
    requires api(UserStatusUrl(handle)).Body? && api(UserStatusUrl(handle)).status == "OK"
    requires api(UserStatusUrl(handle)).result == Some([s])
    ensures !CheckSubmission(handle, problemId, s.creationTimeSeconds, api)
    ensures CheckSubmission(handle, problemId, s.creationTimeSeconds - 1, api)
  {
    assert SolvesAfter([s][0], problemId, s.creationTimeSeconds - 1);
  }

  /** A submission whose problem carries no contest id never solves a
      problem whose identifier came from a link. */
  lemma MissingContestIdNeverMatches(s: CfSubmission, url: string, problemId: string, after: int)
    requires s.problem.contestId.None?
    requires GetProblemIdFromUrl(url) == Some(problemId)
    ensures !SolvesAfter(s, problemId, after)
  {
    var k :| 1 <= k < |problemId| && AllDigits(problemId[..k]) && IsIndex(problemId[k..]);
    assert IsDigit(problemId[..k][0]);
    assert SubmissionProblemId(s.problem)[0] == 'u';
  }

  // ---------------------------------------------------------------------
  // The handle check

  /** `validateCodeforcesHandle`: valid exactly when the reply to the
      profile query has status "OK"; a thrown error means invalid. */
  function ValidateHandle(handle: string, api: string -> ApiReply<seq<CfUser>>): (valid: bool)
    ensures valid <==> api(UserInfoUrl(handle)).Body? && api(UserInfoUrl(handle)).status == "OK"
  {
    match api(UserInfoUrl(handle))
    case Thrown(_) => false
    case Body(status, _, _) => status == "OK"
  }
}
