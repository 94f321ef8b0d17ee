/**
  The access scan behind the `/user-access/stream` endpoint (backend/main.py):
  validate the username, fetch the inventory, then, repository by repository,
  report progress and resolve whether the user holds direct access (phase A) or
  a pending invitation (phase B). The server-sent events become a sequence of
  `Event` values; every upstream response is an input.
 */
module UserAccessStream {
  import opened Http
  import opened Text
  import opened GitHubService

  datatype AccessStatus = Active | Invited

  /** The `repo` object of a `found` event. */
  datatype Finding = Finding(
    owner: string,
    repo: string,
    fullName: string,
    permission: string,
    status: AccessStatus,
    username: string,
    invitationId: Option<int>)

  /** The events of the stream, in place of the JSON dictionaries. */
  datatype Event =
    | Start(total: nat, username: string, avatarUrl: string, isOwner: bool)
    | Scanning(repo: string, scanned: nat, total: nat)
    | Found(finding: Finding)
    | Done(total: nat)
    | Error(message: string)

  /**
    The responses the scan receives. The per-repository probes are indexed by the
    repository's position in the inventory.
   */
  datatype Upstream = Upstream(
    profile: Response<Profile>,                        // GET /users/{username}
    authenticated: Response<Profile>,                  // GET /user
    repoPages: nat -> Response<seq<RepoRef>>,          // GET /user/repos, by page number
    membership: nat -> Response<()>,                   // GET /repos/{o}/{r}/collaborators/{login}
    permission: nat -> Response<PermissionInfo>,       // GET .../collaborators/{login}/permission
    invitations: nat -> Response<seq<Invitation>>)     // GET /repos/{o}/{r}/invitations

  /** What validation establishes: the canonical login, the avatar and whether the user is the token's owner. */
  datatype Session = Session(login: string, avatarUrl: string, isOwner: bool)

  const VALIDATION_FAILED := "Failed to validate username: "
  const FETCH_FAILED := "Failed to fetch repositories: "

  function NotFoundMessage(username: string): (r: string)
    ensures |r| == |Strip(username)| + 29
    ensures r[..17] == "GitHub username '" && r[17..|r| - 12] == Strip(username) && r[|r| - 12..] == "' not found."
  {
    "GitHub username '" + Strip(username) + "' not found."
  }

  // ---------------------------------------------------------------------------
  // Step 1: validation
  // ---------------------------------------------------------------------------

  /**
    Validation of the username. A non-200 profile is "not found"; a transport
    error or an undecodable body on either lookup fails validation; a non-200
    from `/user` only leaves `isOwner` false.
   */
  function Validate(username: string, profile: Response<Profile>, me: Response<Profile>): (r: Result<Session, string>)
    ensures r.Success? <==> profile.ParsedWith(200) && me.Status? && (me.code == 200 ==> me.body.Parsed?)
    ensures profile.Status? && profile.code != 200 ==> r == Failure(NotFoundMessage(username))
    ensures profile.Transport? ==> r == Failure(VALIDATION_FAILED + profile.msg)
    ensures profile.HasCode(200) && profile.body.Unparsable? ==> r == Failure(VALIDATION_FAILED + profile.body.reason)
    ensures profile.ParsedWith(200) && me.Transport? ==> r == Failure(VALIDATION_FAILED + me.msg)
    ensures profile.ParsedWith(200) && me.HasCode(200) && me.body.Unparsable? ==>
              r == Failure(VALIDATION_FAILED + me.body.reason)
    ensures r.Success? ==>
              && r.value.login == profile.body.value.login.GetOr(Strip(username))
              && r.value.avatarUrl == profile.body.value.avatarUrl.GetOr("")
    ensures r.Success? ==>
              (r.value.isOwner <==> me.ParsedWith(200) && Lower(r.value.login) == Lower(me.body.value.login.GetOr("")))
  {
    match profile
    case Transport(msg) => Failure(VALIDATION_FAILED + msg)
    case Status(code, body, _) =>
      if code != 200 then Failure(NotFoundMessage(username))
      else match body
        case Unparsable(reason) => Failure(VALIDATION_FAILED + reason)
        case Parsed(p) =>
          var login := p.login.GetOr(Strip(username));
          var avatarUrl := p.avatarUrl.GetOr("");
          match me
          case Transport(msg) => Failure(VALIDATION_FAILED + msg)
          case Status(meCode, meBody, _) =>
            if meCode != 200 then Success(Session(login, avatarUrl, false))
            else match meBody
              case Unparsable(reason) => Failure(VALIDATION_FAILED + reason)
              case Parsed(owner) => Success(Session(login, avatarUrl, Lower(login) == Lower(owner.login.GetOr(""))))
  }

  // ---------------------------------------------------------------------------
  // Step 3: the per-repository resolver
  // ---------------------------------------------------------------------------

  /**
    The permission the lookup yields once membership is confirmed: the
    `permission` field of a 200 answer, "read" when it has none or the status is
    not 200; `None` when the lookup raised.
   */
  function ResolvedPermission(resp: Response<PermissionInfo>): (r: Option<string>)
    ensures r.None? <==> resp.Transport? || (resp.code == 200 && resp.body.Unparsable?)
    ensures r.Some? && r.value != "read" ==> resp.ParsedWith(200) && resp.body.value.permission == Some(r.value)
    ensures resp.ParsedWith(200) ==> r == Some(resp.body.value.permission.GetOr("read"))
    ensures resp.Status? && resp.code != 200 ==> r == Some("read")
  {
    match resp
    case Transport(_) => None
    case Status(code, body, _) =>
      if code != 200 then Some("read")
      else match body
        case Unparsable(_) => None
        case Parsed(info) => Some(info.permission.GetOr("read"))
  }

  /**
    Phase A: a finding exactly when the membership probe answers 204 and the
    resolved permission is not "none". Such a finding is active and carries no
    invitation id.
   */
  function DirectAccess(repo: RepoRef, login: string, check: Response<()>, perm: Response<PermissionInfo>)
    : (r: Option<Finding>)
    ensures r.Some? <==> check.HasCode(204) && ResolvedPermission(perm).Some? && ResolvedPermission(perm).value != "none"
    ensures r.Some? ==> r.value == Finding(repo.owner, repo.name, repo.fullName, ResolvedPermission(perm).value,
                                           Active, login, None)
  {
    if !check.HasCode(204) then None
    else match ResolvedPermission(perm)
      case None => None
      case Some(p) => if p == "none" then None else Some(Finding(repo.owner, repo.name, repo.fullName, p, Active, login, None))
  }

  /** The invitee's login; a null or missing invitee reads as "". */
  function InviteeLogin(inv: Invitation): (r: string)
    ensures inv.inviteeLogin.None? ==> r == ""
    ensures inv.inviteeLogin.Some? ==> r == inv.inviteeLogin.value
  {
    inv.inviteeLogin.GetOr("")
  }

  /** The invitation is addressed to `login`, ignoring case. */
  predicate Matches(inv: Invitation, login: string): (b: bool)
    ensures b <==> |InviteeLogin(inv)| == |login|
                   && forall i :: 0 <= i < |login| ==> SameIgnoringCase(InviteeLogin(inv)[i], login[i])
  {
    LowerEqualIff(InviteeLogin(inv), login);
    Lower(InviteeLogin(inv)) == Lower(login)
  }

  /** The position of the first invitation addressed to `login`. */
  function FirstMatch(invs: seq<Invitation>, login: string): (r: Option<nat>)
    ensures r.Some? ==> r.value < |invs| && Matches(invs[r.value], login)
                        && forall j :: 0 <= j < r.value ==> !Matches(invs[j], login)
    ensures r.None? ==> forall j :: 0 <= j < |invs| ==> !Matches(invs[j], login)
  {
    if invs == [] then None
    else if Matches(invs[0], login) then Some(0)
    else match FirstMatch(invs[1..], login)
      case None => None
      case Some(k) => Some(k + 1)
  }

  /** The `found` payload for an invitation: its permissions ("read" by default) and its id. */
  function InvitedFinding(repo: RepoRef, login: string, inv: Invitation): (r: Finding)
    ensures r.status == Invited && r.username == login
    ensures r.owner == repo.owner && r.repo == repo.name && r.fullName == repo.fullName
    ensures r.invitationId == inv.id
    ensures inv.permissions.Some? ==> r.permission == inv.permissions.value
    ensures inv.permissions.None? ==> r.permission == "read"
  {
    Finding(repo.owner, repo.name, repo.fullName, inv.permissions.GetOr("read"), Invited, login, inv.id)
  }

  /** Phase B: the first pending invitation addressed to the login, if the listing did not raise. */
  function PendingInvitation(repo: RepoRef, login: string, resp: Response<seq<Invitation>>): (r: Option<Finding>)
    ensures r.Some? <==> resp.ParsedWith(200) && exists k :: 0 <= k < |resp.body.value| && Matches(resp.body.value[k], login)
    ensures r.Some? ==> exists k :: 0 <= k < |resp.body.value|
                                    && (forall j :: 0 <= j < k ==> !Matches(resp.body.value[j], login))
                                    && Matches(resp.body.value[k], login)
                                    && r.value == InvitedFinding(repo, login, resp.body.value[k])
  {
    match GetRepoInvitations(resp)
    case Failure(_) => None
    case Success(invs) =>
      match FirstMatch(invs, login)
      case None => None
      case Some(k) => Some(InvitedFinding(repo, login, invs[k]))
  }

  /** The resolver: phase A, and phase B only when phase A found nothing. */
  function Resolve(repo: RepoRef, login: string, i: nat, up: Upstream): Option<Finding> {
    match DirectAccess(repo, login, up.membership(i), up.permission(i))
    case Some(f) => Some(f)
    case None => PendingInvitation(repo, login, up.invitations(i))
  }

  /**
    Once membership is confirmed and the permission lookup answers 200, the
    `permission` field ("read" when absent) decides phase A: "none" suppresses
    the finding, any other level is reported as is.
   */
  lemma ActivePermissionFromLookup(repo: RepoRef, login: string, i: nat, up: Upstream)
    requires up.membership(i).HasCode(204) && up.permission(i).ParsedWith(200)
    ensures var r := Resolve(repo, login, i, up);
            var p := up.permission(i).body.value.permission.GetOr("read");
            && ((r.Some? && r.value.status == Active) <==> p != "none")
            && (r.Some? && r.value.status == Active ==> r.value.permission == p)
  {
  }

  /**
    An active finding comes exactly from phase A, with the resolved permission and
    no invitation id.
   */
  lemma ResolveActive(repo: RepoRef, login: string, i: nat, up: Upstream)
    ensures var r := Resolve(repo, login, i, up);
            var p := ResolvedPermission(up.permission(i));
            (r.Some? && r.value.status == Active) <==> (up.membership(i).HasCode(204) && p.Some? && p.value != "none")
    ensures var r := Resolve(repo, login, i, up);
            r.Some? && r.value.status == Active ==> r.value.invitationId.None? && r.value.permission == ResolvedPermission(up.permission(i)).value
  {
  }

  /**
    An invited finding comes exactly from phase B, when phase A found nothing and
    the listing holds an invitation for the login; it is the first such one and
    carries that invitation's id and permissions.
   */
  lemma ResolveInvited(repo: RepoRef, login: string, i: nat, up: Upstream)
    ensures var r := Resolve(repo, login, i, up);
            var listed := GetRepoInvitations(up.invitations(i));
            (r.Some? && r.value.status == Invited) <==>
              (DirectAccess(repo, login, up.membership(i), up.permission(i)).None?
               && listed.Success? && FirstMatch(listed.value, login).Some?)
    ensures var r := Resolve(repo, login, i, up);
            var listed := GetRepoInvitations(up.invitations(i));
            r.Some? && r.value.status == Invited ==>
              var k := FirstMatch(listed.value, login).value;
              && r.value.invitationId == listed.value[k].id
              && r.value.permission == listed.value[k].permissions.GetOr("read")
              && (forall j :: 0 <= j < k ==> !Matches(listed.value[j], login))
  {
  }

  /** Every finding is for the repository being resolved and for the canonical login. */
  lemma ResolveNamesRepository(repo: RepoRef, login: string, i: nat, up: Upstream)
    ensures var r := Resolve(repo, login, i, up);
            r.Some? ==> r.value.owner == repo.owner && r.value.repo == repo.name
                        && r.value.fullName == repo.fullName && r.value.username == login
  {
  }

  /** An invitation to "Alice" matches a scan for "alice". */
  lemma MatchIgnoresCase()
    ensures Matches(Invitation(Some("Alice"), None, Some(42)), "alice")
  {
    assert Lower("Alice") == "alice";
    assert Lower("alice") == "alice";
  }

  // ---------------------------------------------------------------------------
  // The event trace
  // ---------------------------------------------------------------------------

  function FindingEvents(f: Option<Finding>): seq<Event> {
    match f
    case None => []
    case Some(v) => [Found(v)]
  }

  /** The events of the i-th repository: its progress, then its finding if any. */
  function RepoEvents(repos: seq<RepoRef>, login: string, up: Upstream, i: nat): seq<Event>
    requires i < |repos|
  {
    [Scanning(repos[i].fullName, i + 1, |repos|)] + FindingEvents(Resolve(repos[i], login, i, up))
  }

  /** The events of the first n repositories. */
  function ScanEvents(repos: seq<RepoRef>, login: string, up: Upstream, n: nat): seq<Event>
    requires n <= |repos|
  {
    if n == 0 then [] else ScanEvents(repos, login, up, n - 1) + RepoEvents(repos, login, up, n - 1)
  }

  /** The number of findings among the first n repositories. */
  function FoundCount(repos: seq<RepoRef>, login: string, up: Upstream, n: nat): nat
    requires n <= |repos|
  {
    if n == 0 then 0
    else FoundCount(repos, login, up, n - 1) + (if Resolve(repos[n - 1], login, n - 1, up).Some? then 1 else 0)
  }

  /**
    The whole stream: one `error` when validation or the inventory fails;
    otherwise `start`, the events of every repository in inventory order, and
    `done` with the number of findings.
   */
  function Stream(username: string, up: Upstream): seq<Event> {
    match Validate(username, up.profile, up.authenticated)
    case Failure(msg) => [Error(msg)]
    case Success(s) =>
      match ReposFrom(up.repoPages, 1)
      case Failure(e) => [Error(FETCH_FAILED + Describe(e))]
      case Success(repos) =>
        [Start(|repos|, s.login, s.avatarUrl, s.isOwner)]
        + ScanEvents(repos, s.login, up, |repos|)
        + [Done(FoundCount(repos, s.login, up, |repos|))]
  }

  /** The number of `found` events in a trace. */
  function NumFound(events: seq<Event>): nat {
    if events == [] then 0
    else NumFound(events[..|events| - 1]) + (if events[|events| - 1].Found? then 1 else 0)
  }

  /** The `scanning` events of a trace, in order. */
  function Progress(events: seq<Event>): seq<Event> {
    if events == [] then []
    else Progress(events[..|events| - 1]) + (if events[|events| - 1].Scanning? then [events[|events| - 1]] else [])
  }

  lemma {:induction false} NumFoundAppend(a: seq<Event>, b: seq<Event>)
    ensures NumFound(a + b) == NumFound(a) + NumFound(b)
    decreases |b|
  {
    if b == [] {
      assert a + b == a;
    } else {
      assert (a + b)[..|a + b| - 1] == a + b[..|b| - 1];
      NumFoundAppend(a, b[..|b| - 1]);
    }
  }

  lemma {:induction false} ProgressAppend(a: seq<Event>, b: seq<Event>)
    ensures Progress(a + b) == Progress(a) + Progress(b)
    decreases |b|
  {
    if b == [] {
      assert a + b == a;
    } else {
      assert (a + b)[..|a + b| - 1] == a + b[..|b| - 1];
      ProgressAppend(a, b[..|b| - 1]);
    }
  }

  /** A progress event followed by an optional finding: one progress event and at most one `found`. */
  lemma ProgressThenFinding(sc: Event, f: Option<Finding>)
    requires sc.Scanning?
    ensures var ev := [sc] + FindingEvents(f);
            && Progress(ev) == [sc]
            && NumFound(ev) == (if f.Some? then 1 else 0)
            && ev == (if f.Some? then [sc, Found(f.value)] else [sc])
  {
    var head := [sc];
    assert head[..0] == [];
    var tail := FindingEvents(f);
    if tail != [] {
      assert tail[..0] == [];
    }
    ProgressAppend(head, tail);
    NumFoundAppend(head, tail);
  }

  /**
    The events of one repository: its progress event, then at most one
    finding, which names that repository and the canonical login.
   */
  lemma RepoEventsLinked(repos: seq<RepoRef>, login: string, up: Upstream, i: nat)
    requires i < |repos|
    ensures var ev := RepoEvents(repos, login, up, i);
            && ev[0].Scanning?
            && LinkedFindings(ev, login)
  {
    var f := Resolve(repos[i], login, i, up);
    ResolveNamesRepository(repos[i], login, i, up);
    ProgressThenFinding(Scanning(repos[i].fullName, i + 1, |repos|), f);
    var ev := RepoEvents(repos, login, up, i);
    forall j | 0 <= j < |ev| ensures LinkedAt(ev, j, login) {
    }
  }

  /** The `found` events of the first n repositories are as many as the findings, at most one each. */
  lemma {:induction false} ScanEventsCount(repos: seq<RepoRef>, login: string, up: Upstream, n: nat)
    requires n <= |repos|
    ensures NumFound(ScanEvents(repos, login, up, n)) == FoundCount(repos, login, up, n) <= n
  {
    if n == 0 {
      assert ScanEvents(repos, login, up, n) == [];
    } else {
      var prev, here := ScanEvents(repos, login, up, n - 1), RepoEvents(repos, login, up, n - 1);
      assert ScanEvents(repos, login, up, n) == prev + here;
      ScanEventsCount(repos, login, up, n - 1);
      RepoEventsCount(repos, login, up, n - 1);
      CountStep(prev, here, FoundCount(repos, login, up, n - 1), FoundCount(repos, login, up, n), n);
    }
  }

  /** Appending a block with at most one finding to a counted prefix. */
  lemma CountStep(prev: seq<Event>, here: seq<Event>, before: nat, after: nat, n: nat)
    requires NumFound(prev) == before <= n - 1
    requires after == before + NumFound(here) && NumFound(here) <= 1
    ensures NumFound(prev + here) == after <= n
  {
    NumFoundAppend(prev, here);
  }

  /** One repository contributes one `found` event exactly when it counts as a finding. */
  lemma RepoEventsCount(repos: seq<RepoRef>, login: string, up: Upstream, i: nat)
    requires i < |repos|
    ensures FoundCount(repos, login, up, i + 1)
            == FoundCount(repos, login, up, i) + NumFound(RepoEvents(repos, login, up, i))
    ensures NumFound(RepoEvents(repos, login, up, i)) <= 1
  {
    var f := Resolve(repos[i], login, i, up);
    ProgressThenFinding(Scanning(repos[i].fullName, i + 1, |repos|), f);
  }

  /**
    The progress events expected for the first n repositories: one per
    repository, in inventory order, numbered from 1 with the inventory size as total.
   */
  function ExpectedProgress(repos: seq<RepoRef>, n: nat): (r: seq<Event>)
    requires n <= |repos|
    ensures |r| == n
    ensures forall k :: 0 <= k < n ==> r[k] == Scanning(repos[k].fullName, k + 1, |repos|)
  {
    if n == 0 then [] else ExpectedProgress(repos, n - 1) + [Scanning(repos[n - 1].fullName, n, |repos|)]
  }

  /** The progress events of the first n repositories are the expected ones. */
  lemma {:induction false} ScanEventsProgress(repos: seq<RepoRef>, login: string, up: Upstream, n: nat)
    requires n <= |repos|
    ensures Progress(ScanEvents(repos, login, up, n)) == ExpectedProgress(repos, n)
  {
    if n > 0 {
      ScanEventsProgress(repos, login, up, n - 1);
      ProgressThenFinding(Scanning(repos[n - 1].fullName, n, |repos|), Resolve(repos[n - 1], login, n - 1, up));
      ProgressAppend(ScanEvents(repos, login, up, n - 1), RepoEvents(repos, login, up, n - 1));
    }
  }

  /**
    Every event of the trace is a progress event, or a `found` event that
    immediately follows the progress event of its repository and names `login`.
   */
  predicate LinkedFindings(ev: seq<Event>, login: string) {
    forall j :: 0 <= j < |ev| ==> LinkedAt(ev, j, login)
  }

  /**
    The j-th event is a progress event, or a `found` event for `login` right after
    the progress event of its repository.
   */
  predicate LinkedAt(ev: seq<Event>, j: nat, login: string)
    requires j < |ev|
  {
    || ev[j].Scanning?
    || (&& 0 < j && ev[j].Found? && ev[j - 1].Scanning?
        && ev[j - 1].repo == ev[j].finding.fullName
        && ev[j].finding.username == login)
  }

  lemma LinkedFindingsAppend(a: seq<Event>, b: seq<Event>, login: string)
    requires LinkedFindings(a, login) && LinkedFindings(b, login)
    requires b != [] ==> b[0].Scanning?
    ensures LinkedFindings(a + b, login)
  {
    var ev := a + b;
    forall j | 0 <= j < |ev|
      ensures LinkedAt(ev, j, login)
    {
      if j < |a| {
        assert LinkedAt(a, j, login);
        assert ev[j] == a[j];
        if 0 < j {
          assert ev[j - 1] == a[j - 1];
        }
      } else {
        var k := j - |a|;
        assert LinkedAt(b, k, login);
        assert ev[j] == b[k];
        if k > 0 {
          assert ev[j - 1] == b[k - 1];
        }
      }
    }
  }

  /**
    The first n repositories yield only progress and `found` events; each `found`
    event immediately follows the progress event of its repository and names the
    canonical login.
   */
  lemma {:induction false} ScanEventsLinked(repos: seq<RepoRef>, login: string, up: Upstream, n: nat)
    requires n <= |repos|
    ensures LinkedFindings(ScanEvents(repos, login, up, n), login)
  {
    if n > 0 {
      ScanEventsLinked(repos, login, up, n - 1);
      RepoEventsLinked(repos, login, up, n - 1);
      LinkedFindingsAppend(ScanEvents(repos, login, up, n - 1), RepoEvents(repos, login, up, n - 1), login);
    }
  }

  /** Validation and inventory failures are the only fatal errors, and each ends the stream at once. */
  lemma StreamFatal(username: string, up: Upstream)
    ensures var ev := Stream(username, up);
            ev[0].Error? <==> Validate(username, up.profile, up.authenticated).Failure?
                              || ReposFrom(up.repoPages, 1).Failure?
    ensures var ev := Stream(username, up);
            ev[0].Error? ==> |ev| == 1
  {
  }

  /**
    A trace made of `start`, the events of every repository and `done` with the
    number of findings: the `done` total is the number of `found` events in it,
    at most one per repository, and the events in between are the expected progress
    events with each finding right after its repository's progress event.
   */
  lemma ScannedTraceShape(start: Event, repos: seq<RepoRef>, login: string, up: Upstream)
    requires start.Start?
    ensures var ev := [start] + ScanEvents(repos, login, up, |repos|) + [Done(FoundCount(repos, login, up, |repos|))];
            && |ev| >= 2
            && ev[|ev| - 1] == Done(NumFound(ev))
            && NumFound(ev) <= |repos|
            && Progress(ev) == ExpectedProgress(repos, |repos|)
            && LinkedFindings(ev[1..|ev| - 1], login)
  {
    ScanEventsCount(repos, login, up, |repos|);
    ScanEventsProgress(repos, login, up, |repos|);
    ScanEventsLinked(repos, login, up, |repos|);
    Framed(start, ScanEvents(repos, login, up, |repos|), FoundCount(repos, login, up, |repos|));
  }

  /** Framing events with `start` and `done` adds no `found` and no progress event. */
  lemma Framed(start: Event, mid: seq<Event>, count: nat)
    requires start.Start?
    ensures var ev := [start] + mid + [Done(count)];
            && NumFound(ev) == NumFound(mid)
            && Progress(ev) == Progress(mid)
            && ev[1..|ev| - 1] == mid
  {
    var head := [start];
    var done := [Done(count)];
    assert head[..0] == [] && done[..0] == [];
    NumFoundAppend(head, mid);
    NumFoundAppend(head + mid, done);
    ProgressAppend(head, mid);
    ProgressAppend(head + mid, done);
    var ev := head + mid + done;
    assert Progress(head) == [] && Progress(done) == [];
    assert ev[1..|ev| - 1] == mid;
  }

  /**
    The trace of a scan that got past validation and inventory: `start` with the
    inventory size and the session, one progress event per repository, the
    findings, and `done` with the number of `found` events actually emitted.
   */
  lemma StreamShape(username: string, up: Upstream, session: Session, repos: seq<RepoRef>)
    requires Validate(username, up.profile, up.authenticated) == Success(session)
    requires ReposFrom(up.repoPages, 1) == Success(repos)
    ensures var ev := Stream(username, up);
            && |ev| >= 2
            && ev[0] == Start(|repos|, session.login, session.avatarUrl, session.isOwner)
            && ev[|ev| - 1] == Done(NumFound(ev))
            && NumFound(ev) <= |repos|
            && Progress(ev) == ExpectedProgress(repos, |repos|)
            && LinkedFindings(ev[1..|ev| - 1], session.login)
  {
    var start := Start(|repos|, session.login, session.avatarUrl, session.isOwner);
    StreamScanned(username, up, session, repos);
    ScannedTraceShape(start, repos, session.login, up);
  }

  // ---------------------------------------------------------------------------
  // Scenarios
  // ---------------------------------------------------------------------------

  /** A successful, decodable answer. */
  function Ok<B>(code: int, body: B): Response<B> {
    Status(code, Parsed(body), "")
  }

  function DirectScenarioRepos(): seq<RepoRef> {
    [RepoRef("owner1", "A", "owner1/A"), RepoRef("owner1", "B", "owner1/B")]
  }

  /**
    The answers of the first scenario: two repositories of owner1; "bob" is a
    direct collaborator of A with write permission, has no access to B and no
    invitation on B; the token belongs to "admin".
   */
  predicate DirectScenario(up: Upstream) {
    && up.profile == Ok(200, Profile(Some("bob"), Some("https://avatars/bob")))
    && up.authenticated == Ok(200, Profile(Some("admin"), None))
    && up.repoPages(1) == Ok(200, DirectScenarioRepos())
    && up.repoPages(2) == Ok(200, [])
    && up.membership(0) == Ok(204, ())
    && up.permission(0) == Ok(200, PermissionInfo(Some("write")))
    && up.membership(1) == Ok(404, ())
    && up.invitations(1) == Ok(200, [])
  }

  /**
    In that scenario validation of whatever was typed yields the profile's login
    "bob", who is not the token's owner, and the inventory is A then B.
   */
  lemma DirectScenarioSetup(username: string, up: Upstream)
    requires DirectScenario(up)
    ensures Validate(username, up.profile, up.authenticated) == Success(Session("bob", "https://avatars/bob", false))
    ensures ReposFrom(up.repoPages, 1) == Success(DirectScenarioRepos())
  {
    assert Lower("bob") != Lower("admin");
    assert ReposFrom(up.repoPages, 2) == Success([]);
    assert RepoPage(up.repoPages(1)) == Success(DirectScenarioRepos());
    assert DirectScenarioRepos() + [] == DirectScenarioRepos();
  }

  /** In that scenario the scan finds A active with write and nothing on B. */
  lemma DirectScenarioScan(up: Upstream)
    requires DirectScenario(up)
    ensures ScanEvents(DirectScenarioRepos(), "bob", up, 2)
            == [ Scanning("owner1/A", 1, 2),
                 Found(Finding("owner1", "A", "owner1/A", "write", Active, "bob", None)),
                 Scanning("owner1/B", 2, 2) ]
    ensures FoundCount(DirectScenarioRepos(), "bob", up, 2) == 1
  {
    var repos := DirectScenarioRepos();
    assert Resolve(repos[0], "bob", 0, up) == Some(Finding("owner1", "A", "owner1/A", "write", Active, "bob", None));
    assert Resolve(repos[1], "bob", 1, up) == None;
    assert ScanEvents(repos, "bob", up, 1) == RepoEvents(repos, "bob", up, 0);
    assert FoundCount(repos, "bob", up, 1) == 1;
  }

  /**
    The stream for that scenario, whatever spelling of the username was typed:
    start, A scanned and found active with write, B scanned, done with 1.
   */
  lemma DirectScenarioStream(username: string, up: Upstream)
    requires DirectScenario(up)
    ensures Stream(username, up)
            == [ Start(2, "bob", "https://avatars/bob", false),
                 Scanning("owner1/A", 1, 2),
                 Found(Finding("owner1", "A", "owner1/A", "write", Active, "bob", None)),
                 Scanning("owner1/B", 2, 2),
                 Done(1) ]
  {
    DirectScenarioSetup(username, up);
    DirectScenarioScan(up);
    var session := Session("bob", "https://avatars/bob", false);
    StreamScanned(username, up, session, DirectScenarioRepos());
    var start := Start(2, "bob", "https://avatars/bob", false);
    var scan := [ Scanning("owner1/A", 1, 2),
                  Found(Finding("owner1", "A", "owner1/A", "write", Active, "bob", None)),
                  Scanning("owner1/B", 2, 2) ];
    assert Stream(username, up) == [start] + scan + [Done(1)];
  }

  /**
    A repository where the login is not a direct collaborator but the second
    pending invitation is addressed to it (in another case): the resolver reports
    that invitation, with its id and the default permission.
   */
  lemma InvitedScenario(up: Upstream)
    requires up.membership(0) == Ok(404, ())
    requires up.invitations(0) == Ok(200, [Invitation(Some("carol"), Some("write"), Some(7)),
                                           Invitation(Some("Alice"), None, Some(42))])
    ensures Resolve(RepoRef("owner1", "C", "owner1/C"), "alice", 0, up)
            == Some(Finding("owner1", "C", "owner1/C", "read", Invited, "alice", Some(42)))
  {
    var invs := [Invitation(Some("carol"), Some("write"), Some(7)), Invitation(Some("Alice"), None, Some(42))];
    assert Lower("carol")[0] == 'c' && Lower("alice")[0] == 'a';
    assert !Matches(invs[0], "alice");
    MatchIgnoresCase();
    assert FirstMatch(invs[1..], "alice") == Some(0);
    assert FirstMatch(invs, "alice") == Some(1);
  }

  // ---------------------------------------------------------------------------
  // The upstream requests of a scan
  // ---------------------------------------------------------------------------

  /** Validation asks for the profile, and for `/user` only once the profile decoded. */
  function ValidationCalls(username: string, profile: Response<Profile>): seq<Request> {
    [GetUser(Strip(username))] + (if profile.ParsedWith(200) then [GetAuthenticatedUser] else [])
  }

  /**
    The requests for the i-th repository: the membership probe; the permission
    lookup only after a 204; the invitation listing only when phase A found nothing.
   */
  function RepoCalls(repo: RepoRef, login: string, i: nat, up: Upstream): seq<Request> {
    [CheckCollaborator(repo.owner, repo.name, login)]
    + (if up.membership(i).HasCode(204) then [GetPermission(repo.owner, repo.name, login)] else [])
    + (if DirectAccess(repo, login, up.membership(i), up.permission(i)).None?
       then [ListInvitations(repo.owner, repo.name)] else [])
  }

  function ScanCalls(repos: seq<RepoRef>, login: string, up: Upstream, n: nat): seq<Request>
    requires n <= |repos|
  {
    if n == 0 then [] else ScanCalls(repos, login, up, n - 1) + RepoCalls(repos[n - 1], login, n - 1, up)
  }

  function StreamCalls(username: string, up: Upstream): seq<Request> {
    match Validate(username, up.profile, up.authenticated)
    case Failure(_) => ValidationCalls(username, up.profile)
    case Success(s) =>
      match ReposFrom(up.repoPages, 1)
      case Failure(_) => ValidationCalls(username, up.profile) + RepoRequestsFrom(up.repoPages, 1)
      case Success(repos) =>
        ValidationCalls(username, up.profile) + RepoRequestsFrom(up.repoPages, 1)
        + ScanCalls(repos, s.login, up, |repos|)
  }

  /** The trace of a scan that got past validation and inventory. */
  lemma StreamScanned(username: string, up: Upstream, session: Session, repos: seq<RepoRef>)
    requires Validate(username, up.profile, up.authenticated) == Success(session)
    requires ReposFrom(up.repoPages, 1) == Success(repos)
    ensures Stream(username, up)
            == [Start(|repos|, session.login, session.avatarUrl, session.isOwner)]
               + ScanEvents(repos, session.login, up, |repos|)
               + [Done(FoundCount(repos, session.login, up, |repos|))]
  {
  }

  /** The requests of a scan that got past validation and inventory. */
  lemma StreamCallsScanned(username: string, up: Upstream, session: Session, repos: seq<RepoRef>)
    requires Validate(username, up.profile, up.authenticated) == Success(session)
    requires ReposFrom(up.repoPages, 1) == Success(repos)
    ensures StreamCalls(username, up)
            == ValidationCalls(username, up.profile)
               + RepoRequestsFrom(up.repoPages, 1)
               + ScanCalls(repos, session.login, up, |repos|)
  {
  }

  /**
    A failed validation is the whole stream: one `error` event carrying its
    message, and no request beyond the validation lookups.
   */
  lemma StreamValidationFailed(username: string, up: Upstream)
    requires Validate(username, up.profile, up.authenticated).Failure?
    ensures Stream(username, up) == [Error(Validate(username, up.profile, up.authenticated).error)]
    ensures StreamCalls(username, up) == ValidationCalls(username, up.profile)
    ensures |StreamCalls(username, up)| <= 2
  {
  }

  /** The trace of a scan whose inventory failed. */
  lemma StreamInventoryFailed(username: string, up: Upstream, session: Session, e: FetchError)
    requires Validate(username, up.profile, up.authenticated) == Success(session)
    requires ReposFrom(up.repoPages, 1) == Failure(e)
    ensures Stream(username, up) == [Error(FETCH_FAILED + Describe(e))]
  {
  }

  /** The requests of a scan whose inventory failed. */
  lemma StreamCallsInventoryFailed(username: string, up: Upstream, session: Session, e: FetchError)
    requires Validate(username, up.profile, up.authenticated) == Success(session)
    requires ReposFrom(up.repoPages, 1) == Failure(e)
    ensures StreamCalls(username, up) == ValidationCalls(username, up.profile) + RepoRequestsFrom(up.repoPages, 1)
  {
  }

  /** Phase B is skipped exactly when phase A found access; the permission lookup follows only a 204. */
  lemma RepoCallsPhases(repo: RepoRef, login: string, i: nat, up: Upstream)
    ensures ListInvitations(repo.owner, repo.name) in RepoCalls(repo, login, i, up)
            <==> DirectAccess(repo, login, up.membership(i), up.permission(i)).None?
    ensures GetPermission(repo.owner, repo.name, login) in RepoCalls(repo, login, i, up)
            <==> up.membership(i).HasCode(204)
    ensures RepoCalls(repo, login, i, up)[0] == CheckCollaborator(repo.owner, repo.name, login)
  {
  }

  // ---------------------------------------------------------------------------
  // event_stream
  // ---------------------------------------------------------------------------

  /**
    Steps 3a and 3b of the loop for the i-th repository: the membership probe,
    the permission lookup, and the invitation scan when phase A found nothing,
    stopping at the first invitation for the login. A failure inside a phase is
    absorbed there.
   */
  method ResolveAccess(repo: RepoRef, login: string, i: nat, up: Upstream)
    returns (finding: Option<Finding>, ghost calls: seq<Request>)
    ensures finding == Resolve(repo, login, i, up)
    ensures calls == RepoCalls(repo, login, i, up)
  {
    var accessFound := false;
    finding := None;

    // 3a: direct collaborator
    calls := [CheckCollaborator(repo.owner, repo.name, login)];
    if up.membership(i).HasCode(204) {
      calls := calls + [GetPermission(repo.owner, repo.name, login)];
    }
    var direct := DirectAccess(repo, login, up.membership(i), up.permission(i));
    if direct.Some? {
      finding := direct;
      accessFound := true;
    }

    // 3b: pending invitations, only if not already found
    if !accessFound {
      calls := calls + [ListInvitations(repo.owner, repo.name)];
      var listed := GetRepoInvitations(up.invitations(i));
      if listed.Success? {
        var invitations := listed.value;
        var k := 0;
        while k < |invitations|
          invariant 0 <= k <= |invitations|
          invariant forall j :: 0 <= j < k ==> !Matches(invitations[j], login)
          invariant finding == None
        {
          if Matches(invitations[k], login) {
            finding := Some(InvitedFinding(repo, login, invitations[k]));
            assert FirstMatch(invitations, login) == Some(k);
            break;
          }
          k := k + 1;
        }
      }
    }
  }

  /**
    Step 3 of `event_stream`: for each repository in inventory order, a progress
    event, then the resolver's finding if there is one. `foundCount` counts the
    findings yielded.
   */
  method ScanRepositories(repos: seq<RepoRef>, login: string, up: Upstream)
    returns (events: seq<Event>, foundCount: nat, ghost calls: seq<Request>)
    ensures events == ScanEvents(repos, login, up, |repos|)
    ensures foundCount == FoundCount(repos, login, up, |repos|)
    ensures calls == ScanCalls(repos, login, up, |repos|)
  {
    var totalRepos := |repos|;
    var scannedCount: nat := 0;
    foundCount := 0;
    events := [];
    calls := [];
    for i := 0 to |repos|
      invariant scannedCount == i
      invariant foundCount == FoundCount(repos, login, up, i)
      invariant events == ScanEvents(repos, login, up, i)
      invariant calls == ScanCalls(repos, login, up, i)
    {
      var repo := repos[i];
      scannedCount := scannedCount + 1;
      events := events + [Scanning(repo.fullName, scannedCount, totalRepos)];
      var finding;
      ghost var repoCalls;
      finding, repoCalls := ResolveAccess(repo, login, i, up);
      calls := calls + repoCalls;
      if finding.Some? {
        events := events + [Found(finding.value)];
        foundCount := foundCount + 1;
      }
    }
  }

  /**
    `event_stream`: the events it yields and the requests it issues. Failures
    inside a repository's phases are absorbed there and never leave the loop.
   */
  method EventStream(username: string, up: Upstream) returns (events: seq<Event>, ghost calls: seq<Request>)
    ensures events == Stream(username, up)
    ensures calls == StreamCalls(username, up)
  {
    // Step 1: validate the username
    var validated := Validate(username, up.profile, up.authenticated);
    calls := ValidationCalls(username, up.profile);
    if validated.Failure? {
      events := [Error(validated.error)];
      return;
    }
    var session := validated.value;
    var login := session.login;

    // Step 2: get all repositories
    var fetched;
    ghost var pageCalls;
    fetched, pageCalls := GetAllRepos(up.repoPages);
    calls := calls + pageCalls;
    if fetched.Failure? {
      events := [Error(FETCH_FAILED + Describe(fetched.error))];
      StreamInventoryFailed(username, up, session, fetched.error);
      StreamCallsInventoryFailed(username, up, session, fetched.error);
      return;
    }
    var repos := fetched.value;
    var scanned, foundCount;
    ghost var scanCalls;
    scanned, foundCount, scanCalls := ScanRepositories(repos, login, up);
    events := [Start(|repos|, login, session.avatarUrl, session.isOwner)] + scanned + [Done(foundCount)];
    calls := calls + scanCalls;
    StreamScanned(username, up, session, repos);
    StreamCallsScanned(username, up, session, repos);
  }
}
