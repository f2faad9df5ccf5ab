/** The contest hook (src/hooks/useCodeforces.ts): the list of recent
    contests, one standings request, and the standings fetch that drops
    handles the server reports as unknown and asks again. Every HTTP request
    is replaced by the reply it produces, looked up by its URL. */
module CodeforcesHook {
  import opened Wrappers
  import opened Text
  import opened Codeforces

  datatype Contest = Contest(
    id: int, name: string, contestType: string, phase: string, frozen: bool,
    durationSeconds: int, startTimeSeconds: int, relativeTimeSeconds: int)

  datatype ContestMember = ContestMember(handle: string, name: Option<string>)

  /** One row of a standings table, passed through unchanged. */
  datatype ContestStanding = ContestStanding(
    members: seq<ContestMember>, rank: int, points: int, penalty: int)

  /** The `result` object of a standings reply; `rows` may be absent. */
  datatype StandingsResult = StandingsResult(rows: Option<seq<ContestStanding>>)

  // ---------------------------------------------------------------------
  // Recent contests

  const ContestListUrl := "https://codeforces.com/api/contest.list?gym=false"

  /** A contest whose start lies in the past. */
  predicate HasStarted(c: Contest) { c.relativeTimeSeconds > 0 }

  /** `fetchContests`: the first five started contests of the list, in list
      order; any status but "OK", a missing list or a thrown error gives
      the empty list. */
  function FetchContests(api: string -> ApiReply<seq<Contest>>): (cs: seq<Contest>)
    ensures |cs| <= 5
    ensures forall k :: 0 <= k < |cs| ==> HasStarted(cs[k])
    ensures var reply := api(ContestListUrl);
            !(reply.Body? && reply.status == "OK" && reply.result.Some?) ==> cs == []
    ensures var reply := api(ContestListUrl);
            reply.Body? && reply.status == "OK" && reply.result.Some? ==>
              var started := Filter(reply.result.value, HasStarted);
              cs <= started && |cs| == Min(5, |started|)
  {
    match api(ContestListUrl)
    case Thrown(_) => []
    case Body(status, _, result) =>
      if status != "OK" || result.None? then []
      else
        var started := Filter(result.value, HasStarted);
        started[..Min(5, |started|)]
  }

  /** Every contest returned comes from the list, in list order. (How many
      come back is stated by `FetchContests` itself.) */
  lemma FetchContestsFromList(api: string -> ApiReply<seq<Contest>>)
    requires api(ContestListUrl).Body? && api(ContestListUrl).status == "OK"
    requires api(ContestListUrl).result.Some?
    ensures IsSubsequence(FetchContests(api), api(ContestListUrl).result.value)
    ensures forall c :: c in FetchContests(api) ==> c in api(ContestListUrl).result.value
  {
    var all := api(ContestListUrl).result.value;
    var started := Filter(all, HasStarted);
    PrefixIsSubsequence(FetchContests(api), started);
    SubsequenceTransitive(FetchContests(api), started, all);
    FilterMembers(all, HasStarted);
  }

  /** A prefix of a sequence is a subsequence of it. */
  lemma {:induction false} PrefixIsSubsequence<T>(a: seq<T>, b: seq<T>)
    requires a <= b
    ensures IsSubsequence(a, b)
    decreases |b|
  {
    if a == [] {
      if b != [] {
        PrefixIsSubsequence(a, b[1..]);
      }
    } else {
      PrefixIsSubsequence(a[1..], b[1..]);
    }
  }

  // ---------------------------------------------------------------------
  // One standings request

  const NoHandlesMessage := "No valid handles provided"
  const StandingsFailedMessage := "Failed to fetch standings"
  const InvalidFormatMessage := "Invalid response format"

  const StandingsBase := "https://codeforces.com/api/contest.standings?contestId="
  const HandlesParam := "&handles="

  /** The request for the standings of `contestId` restricted to `handles`,
      joined by semicolons. */
  function StandingsUrl(contestId: int, handles: seq<string>): string
    requires handles != []
  {
    StandingsBase + IntToDecimal(contestId) + HandlesParam + Join(handles, ';')
  }

  /** The handle list is carried whole by the request: when no handle holds
      a semicolon, splitting the parameter gives the list back. */
  lemma StandingsUrlCarriesHandles(contestId: int, handles: seq<string>)
    requires handles != []
    requires forall k :: 0 <= k < |handles| ==> ';' !in handles[k]
    ensures var url := StandingsUrl(contestId, handles);
            var from := |StandingsBase| + |IntToDecimal(contestId)| + |HandlesParam|;
            from <= |url| && Split(url[from..], ';') == handles
  {
    var url := StandingsUrl(contestId, handles);
    var from := |StandingsBase| + |IntToDecimal(contestId)| + |HandlesParam|;
    assert url[from..] == Join(handles, ';');
    SplitOfJoin(handles, ';');
  }

  /** The message of the error thrown for a "FAILED" reply: the comment
      when there is a non-empty one, the fixed message otherwise. */
  function FailedMessage(comment: Option<string>): (m: string)
    ensures m != ""
    ensures comment.Some? && comment.value != "" ==> m == comment.value
  {
    if comment.Some? && comment.value != "" then comment.value else StandingsFailedMessage
  }

  /** `fetchContestStandings`: the rows of the reply, or the message of the
      error it throws. An empty handle list fails before any request; a
      thrown error passes through; status "FAILED" fails with the server's
      comment; a reply without rows fails. Any other status with rows
      succeeds, even an empty table. */
  function FetchContestStandings(contestId: int, handles: seq<string>,
                                 api: string -> ApiReply<StandingsResult>): (r: Result<seq<ContestStanding>, string>)
    ensures handles == [] ==> r == Failure(NoHandlesMessage)
    ensures handles != [] ==>
      var reply := api(StandingsUrl(contestId, handles));
      && (r.Success? <==> reply.Body? && reply.status != "FAILED" && reply.result.Some? && reply.result.value.rows.Some?)
      && (r.Success? ==> r.value == reply.result.value.rows.value)
      && (reply.Thrown? ==> r == Failure(reply.message))
      && (reply.Body? && reply.status == "FAILED" ==> r == Failure(FailedMessage(reply.comment)))
      && (reply.Body? && reply.status != "FAILED" && (reply.result.None? || reply.result.value.rows.None?) ==>
            r == Failure(InvalidFormatMessage))
  {
    if handles == [] then Failure(NoHandlesMessage)
    else
      match api(StandingsUrl(contestId, handles))
      case Thrown(message) => Failure(message)
      case Body(status, comment, result) =>
        if status == "FAILED" then Failure(FailedMessage(comment))
        else if result.None? || result.value.rows.None? then Failure(InvalidFormatMessage)
        else Success(result.value.rows.value)
  }

  /** No request is made for an empty handle list: the outcome does not
      depend on the server at all. */
  lemma NoHandlesNoRequest(contestId: int, api1: string -> ApiReply<StandingsResult>,
                           api2: string -> ApiReply<StandingsResult>)
    ensures FetchContestStandings(contestId, [], api1) == FetchContestStandings(contestId, [], api2)
    ensures FetchContestStandings(contestId, [], api1).Failure?
  {
  }

  /** Otherwise the outcome depends on nothing but the reply to the one
      request for these handles. */
  lemma OnlyTheRequestMatters(contestId: int, handles: seq<string>,
                              api1: string -> ApiReply<StandingsResult>,
                              api2: string -> ApiReply<StandingsResult>)
    requires handles != []
    requires api1(StandingsUrl(contestId, handles)) == api2(StandingsUrl(contestId, handles))
    ensures FetchContestStandings(contestId, handles, api1) == FetchContestStandings(contestId, handles, api2)
  {
  }

  // ---------------------------------------------------------------------
  // The unknown-handle message

  const HandleLead := "handle "
  const NotFoundTail := " not found"

  /** `handle (\w+) not found` matches `msg` at `i` capturing `h`. */
  predicate NamesHandleAt(msg: string, i: nat, h: string) {
    && |h| >= 1 && AllWordChars(h)
    && OccursAt(msg, i, HandleLead)
    && OccursAt(msg, i + |HandleLead|, h)
    && OccursAt(msg, i + |HandleLead| + |h|, NotFoundTail)
  }

  /** The attempt to match `handle (\w+) not found` at `i`. The word run
      is taken whole: the space that follows it cannot be part of a word. */
  function NamedHandleAt(msg: string, i: nat): (h: Option<string>)
    ensures h.Some? ==> NamesHandleAt(msg, i, h.value)
  {
    if !OccursAt(msg, i, HandleLead) then None
    else
      var a := i + |HandleLead|;
      var n := Span(msg, a, IsWordChar);
      if n >= 1 && OccursAt(msg, a + n, NotFoundTail) then Some(msg[a..a + n]) else None
  }

  /** Whenever the pattern matches at `i`, the attempt there captures the
      same handle. */
  lemma NamedHandleAtFinds(msg: string, i: nat, h: string)
    requires NamesHandleAt(msg, i, h)
    ensures NamedHandleAt(msg, i) == Some(h)
  {
    var a := i + |HandleLead|;
    forall k | a <= k < a + |h| ensures IsWordChar(msg[k]) {
      assert msg[k] == msg[a..a + |h|][k - a] == h[k - a];
    }
    assert msg[a + |h|] == NotFoundTail[0];
    SpanOfBoundedRun(msg, a, IsWordChar, |h|);
  }

  /** Where the leftmost match at or after `from` starts. */
  function NamedHandlePosition(msg: string, from: nat): (pos: Option<nat>)
    ensures pos.Some? ==> from <= pos.value <= |msg| && NamedHandleAt(msg, pos.value).Some?
    ensures pos.Some? ==> forall j :: from <= j < pos.value ==> NamedHandleAt(msg, j).None?
    ensures pos.None? ==> forall j :: from <= j <= |msg| ==> NamedHandleAt(msg, j).None?
    decreases |msg| + 1 - from
  {
    if from > |msg| then None
    else if NamedHandleAt(msg, from).Some? then Some(from)
    else NamedHandlePosition(msg, from + 1)
  }

  /** `msg.match(/handle (\w+) not found/)?.[1]`: the handle named by the
      leftmost match, always a non-empty run of word characters. */
  function NotFoundHandle(msg: string): (h: Option<string>)
    ensures h.Some? ==> |h.value| >= 1 && AllWordChars(h.value)
    ensures h.Some? ==> exists i: nat :: NamesHandleAt(msg, i, h.value)
    ensures h.None? <==> forall j :: 0 <= j <= |msg| ==> NamedHandleAt(msg, j).None?
  {
    match NamedHandlePosition(msg, 0)
    case Some(i) => NamedHandleAt(msg, i)
    case None => None
  }

  /** A match with no match to its left is the one reported. */
  lemma NotFoundHandleIs(msg: string, i: nat, h: string)
    requires NamesHandleAt(msg, i, h)
    requires forall j, h' :: 0 <= j < i ==> !NamesHandleAt(msg, j, h')
    ensures NotFoundHandle(msg) == Some(h)
  {
    NamedHandleAtFinds(msg, i, h);
    match NamedHandlePosition(msg, 0)
    case Some(p) =>
      if p < i {
        assert false;
      }
    case None =>
  }

  /** A message that names a handle mentions "handle", so the substring test
      the hook makes first never rejects a message the pattern accepts. */
  lemma NamedImpliesMentioned(msg: string)
    requires NotFoundHandle(msg).Some?
    ensures Contains(msg, "handle")
  {
    var i := NamedHandlePosition(msg, 0).value;
    assert NamesHandleAt(msg, i, NamedHandleAt(msg, i).value);
    assert msg[i..i + 6] == msg[i..i + |HandleLead|][..6];
    assert OccursAt(msg, i, "handle");
  }

  /** The bare message names its handle. */
  lemma BareMessageNamesHandle(h: string)
    requires |h| >= 1 && AllWordChars(h)
    ensures NotFoundHandle(HandleLead + h + NotFoundTail) == Some(h)
  {
    var msg := HandleLead + h + NotFoundTail;
    assert msg[..|HandleLead|] == HandleLead;
    assert msg[|HandleLead|..|HandleLead| + |h|] == h;
    assert msg[|HandleLead| + |h|..] == NotFoundTail;
    NotFoundHandleIs(msg, 0, h);
  }

  /** The message Codeforces sends for an unknown handle names that handle,
      provided it is made of word characters. */
  lemma ServerMessageNamesHandle(h: string)
    requires |h| >= 1 && AllWordChars(h)
    ensures NotFoundHandle("handles: User with " + HandleLead + h + NotFoundTail) == Some(h)
  {
    var prefix := "handles: User with ";
    var msg := prefix + HandleLead + h + NotFoundTail;
    var i := |prefix|;
    assert msg[i..i + |HandleLead|] == HandleLead;
    assert msg[i + |HandleLead|..i + |HandleLead| + |h|] == h;
    assert msg[i + |HandleLead| + |h|..] == NotFoundTail;
    forall j | 0 <= j < i ensures !OccursAt(msg, j, HandleLead) {
      assert msg[j] == prefix[j];
      assert j + 6 < i ==> msg[j + 6] == prefix[j + 6];
      assert j + 1 < i ==> msg[j + 1] == prefix[j + 1];
      assert msg[j] != HandleLead[0] || msg[j + 1] != HandleLead[1] || msg[j + 6] != HandleLead[6];
    }
    assert forall j, h' :: 0 <= j < i ==> !NamesHandleAt(msg, j, h');
    NotFoundHandleIs(msg, i, h);
  }

  /** A message in which "handle " starts nowhere names no handle. */
  lemma NoLeadNamesNoHandle(msg: string)
    requires forall j :: 0 <= j <= |msg| ==> !OccursAt(msg, j, HandleLead)
    ensures NotFoundHandle(msg).None?
  {
    forall j | 0 <= j <= |msg| ensures NamedHandleAt(msg, j).None? {
      assert !OccursAt(msg, j, HandleLead);
    }
  }

  /** "handle " does not start at `j` when one of its first, second or
      seventh characters is missing there. */
  lemma NoLeadAt(msg: string, j: nat)
    requires j + 7 <= |msg| ==> msg[j] != 'h' || msg[j + 1] != 'a' || msg[j + 6] != ' '
    ensures !OccursAt(msg, j, HandleLead)
  {
    if j + 7 <= |msg| {
      var w := msg[j..j + 7];
      assert w[0] == msg[j] && w[1] == msg[j + 1] && w[6] == msg[j + 6];
    }
  }

  /** The hook's own messages name no handle, so a request that fails with
      one of them ends the fetch instead of pruning. */
  lemma NoHandlesMessageNamesNoHandle()
    ensures HandleToDrop(NoHandlesMessage).None?
  {
    var m := NoHandlesMessage;
    forall j | 0 <= j <= |m| ensures !OccursAt(m, j, HandleLead) {
      if j + 7 <= |m| && m[j] == 'h' { assert j == 9; }
      NoLeadAt(m, j);
    }
    NoLeadNamesNoHandle(m);
  }

  lemma StandingsFailedMessageNamesNoHandle()
    ensures HandleToDrop(StandingsFailedMessage).None?
  {
    var m := StandingsFailedMessage;
    forall j | 0 <= j <= |m| ensures !OccursAt(m, j, HandleLead) {
      if j + 7 <= |m| && m[j] == 'h' { assert j == 14; }
      NoLeadAt(m, j);
    }
    NoLeadNamesNoHandle(m);
  }

  lemma InvalidFormatMessageNamesNoHandle()
    ensures HandleToDrop(InvalidFormatMessage).None?
  {
    var m := InvalidFormatMessage;
    forall j | 0 <= j <= |m| ensures !OccursAt(m, j, HandleLead) {
      NoLeadAt(m, j);
    }
    NoLeadNamesNoHandle(m);
  }

  /** A handle holding a character outside `\w`, such as '.' or '-', is
      never the one a message names. */
  lemma OddHandleNeverNamed(msg: string, h: string, k: nat)
    requires k < |h| && !IsWordChar(h[k])
    ensures NotFoundHandle(msg) != Some(h)
  {
  }

  // ---------------------------------------------------------------------
  // Dropping a handle

  /** `validHandles.filter(h => h !== invalidHandle)`. */
  function Prune(handles: seq<string>, h: string): (r: seq<string>)
    ensures IsSubsequence(r, handles)
    ensures h !in r
  {
    Filter(handles, (x: string) => x != h)
  }

  /** Pruning removes every copy of the named handle and nothing else. */
  lemma PruneRemovesOnlyNamed(handles: seq<string>, h: string)
    ensures multiset(Prune(handles, h)) == multiset(handles)[h := 0]
  {
    var keep := (x: string) => x != h;
    forall x ensures multiset(Prune(handles, h))[x] == multiset(handles)[h := 0][x] {
      FilterCount(handles, keep, x);
    }
  }

  /** Pruning shrinks the list exactly when the named handle is in it;
      otherwise the list, and so the next request, is unchanged. */
  lemma PruneShrinks(handles: seq<string>, h: string)
    ensures |Prune(handles, h)| < |handles| <==> h in handles
    ensures h !in handles ==> Prune(handles, h) == handles
  {
    var keep := (x: string) => x != h;
    FilterLength(handles, keep);
    if h !in handles {
      FilterKeepsAll(handles, keep);
    }
  }

  /** The distinct handles left after pruning are those before, less the
      named one. */
  lemma PruneDistinct(handles: seq<string>, h: string)
    ensures (set x | x in Prune(handles, h)) == (set x | x in handles) - {h}
  {
    FilterMembers(handles, (x: string) => x != h);
  }

  // ---------------------------------------------------------------------
  // The standings fetch with retries

  const GenericStandingsError := "Failed to fetch contest standings. Please try again later."

  /** The handle a failed request names, if the hook acts on it: the
      message must mention "handle" and match the pattern. */
  function HandleToDrop(msg: string): (h: Option<string>)
    ensures h == NotFoundHandle(msg)
  {
    if Contains(msg, "handle") then NotFoundHandle(msg)
    else
      assert NotFoundHandle(msg).None? by {
        if NotFoundHandle(msg).Some? { NamedImpliesMentioned(msg); }
      }
      None
  }

  /** Every request the fetch can make carries a non-empty sub-list of
      `handles`; a failure of such a request names only a handle that the
      request carried. Without this the hook can ask the same question
      forever. */
  ghost predicate NamesOnlySentHandles(contestId: int, handles: seq<string>, api: string -> ApiReply<StandingsResult>) {
    forall hs: seq<string> {:trigger FetchContestStandings(contestId, hs, api)} ::
      hs != [] && IsSubsequence(hs, handles) ==>
        var r := FetchContestStandings(contestId, hs, api);
        r.Failure? && NotFoundHandle(r.error).Some? ==> NotFoundHandle(r.error).value in hs
  }

  /** What holds of the requests for a list holds of those for a sub-list. */
  lemma NamesOnlySentNarrows(contestId: int, handles: seq<string>, sub: seq<string>,
                             api: string -> ApiReply<StandingsResult>)
    requires NamesOnlySentHandles(contestId, handles, api)
    requires IsSubsequence(sub, handles)
    ensures NamesOnlySentHandles(contestId, sub, api)
  {
    forall hs: seq<string> | hs != [] && IsSubsequence(hs, sub)
      ensures var r := FetchContestStandings(contestId, hs, api);
              r.Failure? && NotFoundHandle(r.error).Some? ==> NotFoundHandle(r.error).value in hs
    {
      SubsequenceTransitive(hs, sub, handles);
    }
  }

  /** A failure of the request for `handles` names one of them, if any. */
  lemma NamedHandleWasSent(contestId: int, handles: seq<string>, api: string -> ApiReply<StandingsResult>)
    requires NamesOnlySentHandles(contestId, handles, api)
    requires handles != []
    ensures var r := FetchContestStandings(contestId, handles, api);
            r.Failure? && HandleToDrop(r.error).Some? ==> HandleToDrop(r.error).value in handles
  {
    SubsequenceReflexive(handles);
  }

  /** What the fetch leaves behind: the rows returned, the error shown, the
      handles of the last request and the number of requests made. */
  datatype RetryOutcome = RetryOutcome(
    standings: seq<ContestStanding>, error: string, lastHandles: seq<string>, calls: nat)

  /** `fetchStandingsWithRetry`, as a function of the handle list. */
  function Retry(contestId: int, handles: seq<string>, api: string -> ApiReply<StandingsResult>): (o: RetryOutcome)
    requires NamesOnlySentHandles(contestId, handles, api)
    ensures o.error == "" || o.error == GenericStandingsError
    ensures o.error != "" ==> o.standings == []
    ensures handles == [] <==> o.calls == 0
    ensures handles == [] ==> o == RetryOutcome([], "", [], 0)
    ensures o.lastHandles == [] ==> o.standings == [] && o.error == ""
    decreases |handles|
  {
    if handles == [] then RetryOutcome([], "", [], 0)
    else
      match FetchContestStandings(contestId, handles, api)
      case Success(rows) => RetryOutcome(rows, "", handles, 1)
      case Failure(msg) =>
        match HandleToDrop(msg)
        case Some(h) =>
          NamedHandleWasSent(contestId, handles, api);
          PruneShrinks(handles, h);
          NamesOnlySentNarrows(contestId, handles, Prune(handles, h), api);
          var o := Retry(contestId, Prune(handles, h), api);
          o.(calls := o.calls + 1)
        case None => RetryOutcome([], GenericStandingsError, handles, 1)
  }

  /** The working list only ever loses handles, keeping the order of the rest. */
  lemma {:induction false} RetryKeepsOrder(contestId: int, handles: seq<string>, api: string -> ApiReply<StandingsResult>)
    requires NamesOnlySentHandles(contestId, handles, api)
    ensures IsSubsequence(Retry(contestId, handles, api).lastHandles, handles)
    decreases |handles|
  {
    if handles != [] {
      var r := FetchContestStandings(contestId, handles, api);
      if r.Success? || HandleToDrop(r.error).None? {
        SubsequenceReflexive(handles);
      } else {
        var h := HandleToDrop(r.error).value;
        NamedHandleWasSent(contestId, handles, api);
        PruneShrinks(handles, h);
        NamesOnlySentNarrows(contestId, handles, Prune(handles, h), api);
        RetryKeepsOrder(contestId, Prune(handles, h), api);
        SubsequenceTransitive(Retry(contestId, Prune(handles, h), api).lastHandles, Prune(handles, h), handles);
      }
    }
  }

  /** The result is what the last request returned: its rows when the fetch
      ends without an error, and otherwise a failure naming no handle. */
  lemma {:induction false} RetryEndsOnLastRequest(contestId: int, handles: seq<string>, api: string -> ApiReply<StandingsResult>)
    requires NamesOnlySentHandles(contestId, handles, api)
    requires handles != []
    ensures var o := Retry(contestId, handles, api);
            o.error == "" ==> o.lastHandles == [] || FetchContestStandings(contestId, o.lastHandles, api) == Success(o.standings)
    ensures var o := Retry(contestId, handles, api);
            o.error != "" ==> (o.lastHandles != [] &&
              var r := FetchContestStandings(contestId, o.lastHandles, api);
              r.Failure? && HandleToDrop(r.error).None?)
    decreases |handles|
  {
    var r := FetchContestStandings(contestId, handles, api);
    if r.Failure? && HandleToDrop(r.error).Some? {
      var h := HandleToDrop(r.error).value;
      NamedHandleWasSent(contestId, handles, api);
      PruneShrinks(handles, h);
      NamesOnlySentNarrows(contestId, handles, Prune(handles, h), api);
      if Prune(handles, h) != [] {
        RetryEndsOnLastRequest(contestId, Prune(handles, h), api);
      }
    }
  }

  /** Only handles the server names are dropped, and each request either
      ends the fetch or drops a distinct handle, so there are at most as
      many requests as distinct handles, and at most one more than the
      number of distinct unknown handles. */
  lemma {:induction false} RetryDropsOnlyNamed(contestId: int, handles: seq<string>,
                                               api: string -> ApiReply<StandingsResult>, unknown: set<string>)
    requires NamesOnlySentHandles(contestId, handles, api)
    requires forall hs: seq<string> {:trigger FetchContestStandings(contestId, hs, api)} ::
      var r := FetchContestStandings(contestId, hs, api);
      r.Failure? && NotFoundHandle(r.error).Some? ==> NotFoundHandle(r.error).value in unknown
    ensures var o := Retry(contestId, handles, api);
            forall x :: x !in unknown ==> multiset(o.lastHandles)[x] == multiset(handles)[x]
    ensures Retry(contestId, handles, api).calls <= |set x | x in handles|
    ensures Retry(contestId, handles, api).calls <= |set x | x in handles && x in unknown| + 1
    decreases |handles|
  {
    if handles != [] {
      var r := FetchContestStandings(contestId, handles, api);
      var all := set x | x in handles;
      assert handles[0] in all;
      if r.Failure? && HandleToDrop(r.error).Some? {
        var h := HandleToDrop(r.error).value;
        var rest := Prune(handles, h);
        NamedHandleWasSent(contestId, handles, api);
        PruneShrinks(handles, h);
        NamesOnlySentNarrows(contestId, handles, rest, api);
        PruneRemovesOnlyNamed(handles, h);
        PruneCounts(handles, h, unknown);
        RetryDropsOnlyNamed(contestId, rest, api, unknown);
      } else {
        assert handles[0] in all;
      }
    }
  }

  /** Pruning a handle that is present removes one distinct handle, and
      one distinct member of any set holding it. */
  lemma PruneCounts(handles: seq<string>, h: string, unknown: set<string>)
    requires h in handles && h in unknown
    ensures |set x | x in Prune(handles, h)| + 1 == |set x | x in handles|
    ensures |set x | x in Prune(handles, h) && x in unknown| + 1 == |set x | x in handles && x in unknown|
  {
    var rest := Prune(handles, h);
    PruneDistinct(handles, h);
    FilterMembers(handles, (x: string) => x != h);
    assert (set x | x in rest && x in unknown) == (set x | x in handles && x in unknown) - {h};
    assert h in (set x | x in handles && x in unknown);
    assert h in (set x | x in handles);
  }

  /** Pruning the middle one of three handles, when it is the only copy. */
  lemma PruneMiddle(a: string, g: string, b: string)
    requires a != g && b != g
    ensures Prune([a, g, b], g) == [a, b]
  {
    var keep := (x: string) => x != g;
    assert [a, g, b][1..] == [g, b] && [g, b][1..] == [b] && [b][1..] == [];
    assert Filter([b], keep) == [b];
    assert Filter([g, b], keep) == [b];
  }

  /** The pruning example: one unknown handle among two known ones is
      dropped after one request, and the second request returns the rows. */
  lemma RetryDropsGhostUser(contestId: int, a: string, g: string, b: string,
                            rows: seq<ContestStanding>, api: string -> ApiReply<StandingsResult>)
    requires NamesOnlySentHandles(contestId, [a, g, b], api)
    requires |g| >= 1 && AllWordChars(g) && a != g && b != g
    requires api(StandingsUrl(contestId, [a, g, b])) == Body("FAILED", Some(HandleLead + g + NotFoundTail), None)
    requires api(StandingsUrl(contestId, [a, b])) == Body("OK", None, Some(StandingsResult(Some(rows))))
    ensures Retry(contestId, [a, g, b], api) == RetryOutcome(rows, "", [a, b], 2)
  {
    var msg := HandleLead + g + NotFoundTail;
    BareMessageNamesHandle(g);
    assert FetchContestStandings(contestId, [a, g, b], api) == Failure(msg);
    assert HandleToDrop(msg) == Some(g);
    PruneMiddle(a, g, b);
    NamesOnlySentNarrows(contestId, [a, g, b], [a, b], api);
    assert FetchContestStandings(contestId, [a, b], api) == Success(rows);
    assert Retry(contestId, [a, b], api) == RetryOutcome(rows, "", [a, b], 1);
  }

  /** A server that rejects the request for `[a, g, b]` naming `g`, and
      answers every other request with `rows`. */
  function GhostServer(contestId: int, a: string, g: string, b: string,
                       rows: seq<ContestStanding>): string -> ApiReply<StandingsResult> {
    (url: string) =>
      if url == StandingsUrl(contestId, [a, g, b]) then Body("FAILED", Some(HandleLead + g + NotFoundTail), None)
      else Body("OK", None, Some(StandingsResult(Some(rows))))
  }

  /** Such a server meets every requirement of the pruning example when no
      handle holds a semicolon: it names only a handle it was sent, and the
      request without `g` is a different request. */
  lemma GhostServerIsWellBehaved(contestId: int, a: string, g: string, b: string, rows: seq<ContestStanding>)
    requires |g| >= 1 && AllWordChars(g) && a != g && b != g
    requires ';' !in a && ';' !in g && ';' !in b
    ensures NamesOnlySentHandles(contestId, [a, g, b], GhostServer(contestId, a, g, b, rows))
    ensures GhostServer(contestId, a, g, b, rows)(StandingsUrl(contestId, [a, g, b]))
            == Body("FAILED", Some(HandleLead + g + NotFoundTail), None)
    ensures GhostServer(contestId, a, g, b, rows)(StandingsUrl(contestId, [a, b]))
            == Body("OK", None, Some(StandingsResult(Some(rows))))
  {
    var api := GhostServer(contestId, a, g, b, rows);
    forall hs: seq<string> | hs != [] && IsSubsequence(hs, [a, g, b])
      ensures var r := FetchContestStandings(contestId, hs, api);
              r.Failure? && NotFoundHandle(r.error).Some? ==> NotFoundHandle(r.error).value in hs
    {
      GhostServerNamesSent(contestId, a, g, b, rows, hs);
    }
    PruneMiddle(a, g, b);
    if StandingsUrl(contestId, [a, b]) == StandingsUrl(contestId, [a, g, b]) {
      var hs, sent := [a, b], [a, g, b];
      assert forall k :: 0 <= k < |hs| ==> ';' !in hs[k];
      assert forall k :: 0 <= k < |sent| ==> ';' !in sent[k];
      SameRequestSameHandles(contestId, hs, sent);
      assert false;
    }
  }

  /** The one request such a server rejects names a handle it carried. */
  lemma GhostServerNamesSent(contestId: int, a: string, g: string, b: string, rows: seq<ContestStanding>,
                             hs: seq<string>)
    requires |g| >= 1 && AllWordChars(g)
    requires ';' !in a && ';' !in g && ';' !in b
    requires hs != [] && IsSubsequence(hs, [a, g, b])
    ensures var r := FetchContestStandings(contestId, hs, GhostServer(contestId, a, g, b, rows));
            r.Failure? && NotFoundHandle(r.error).Some? ==> NotFoundHandle(r.error).value in hs
  {
    if StandingsUrl(contestId, hs) == StandingsUrl(contestId, [a, g, b]) {
      var sent := [a, g, b];
      assert forall k :: 0 <= k < |sent| ==> ';' !in sent[k];
      SubsequenceMembers(hs, sent);
      forall k | 0 <= k < |hs| ensures ';' !in hs[k] {
        assert hs[k] in sent;
      }
      SameRequestSameHandles(contestId, hs, sent);
      BareMessageNamesHandle(g);
    }
  }

  /** Two non-empty lists of semicolon-free handles give the same request
      only when they are the same list. */
  lemma SameRequestSameHandles(contestId: int, hs: seq<string>, sent: seq<string>)
    requires hs != [] && sent != []
    requires forall k :: 0 <= k < |hs| ==> ';' !in hs[k]
    requires forall k :: 0 <= k < |sent| ==> ';' !in sent[k]
    requires StandingsUrl(contestId, hs) == StandingsUrl(contestId, sent)
    ensures hs == sent
  {
    var prefix := StandingsBase + IntToDecimal(contestId) + HandlesParam;
    assert Join(hs, ';') == StandingsUrl(contestId, hs)[|prefix|..];
    assert Join(sent, ';') == StandingsUrl(contestId, sent)[|prefix|..];
    SplitOfJoin(hs, ';');
    SplitOfJoin(sent, ';');
  }

  /** The hook's state: the loading flag and the error shown. */
  class StandingsState {
    var loadingStandings: bool
    var standingsError: string

    constructor()
      ensures !loadingStandings && standingsError == ""
    {
      loadingStandings := false;
      standingsError := "";
    }

    /** `fetchStandingsWithRetry`: asks for the standings, dropping each
        handle the server names as unknown and asking again, until a
        request succeeds, a failure names no handle, or no handle is left. */
    method FetchStandingsWithRetry(contestId: int, handles: seq<string>,
                                   api: string -> ApiReply<StandingsResult>) returns (standings: seq<ContestStanding>)
      requires NamesOnlySentHandles(contestId, handles, api)
      modifies this
      ensures standings == Retry(contestId, handles, api).standings
      ensures standingsError == Retry(contestId, handles, api).error
      ensures !loadingStandings
    {
      loadingStandings := true;
      standingsError := "";
      var validHandles := handles;
      standings := [];
      while |validHandles| > 0
        invariant loadingStandings && standingsError == "" && standings == []
        invariant NamesOnlySentHandles(contestId, validHandles, api)
        invariant Retry(contestId, validHandles, api).standings == Retry(contestId, handles, api).standings
        invariant Retry(contestId, validHandles, api).error == Retry(contestId, handles, api).error
        decreases |validHandles|
      {
        var r := FetchContestStandings(contestId, validHandles, api);
        if r.Success? {
          standings := r.value;
          break;
        }
        var dropped := HandleToDrop(r.error);
        if dropped.Some? {
          NamedHandleWasSent(contestId, validHandles, api);
          PruneShrinks(validHandles, dropped.value);
          NamesOnlySentNarrows(contestId, validHandles, Prune(validHandles, dropped.value), api);
          validHandles := Prune(validHandles, dropped.value);
          continue;
        }
        standingsError := GenericStandingsError;
        break;
      }
      loadingStandings := false;
    }
  }
}
