/**
  The upstream client: the paginated repository inventory, the paginated
  collaborator listing, the pending-invitation listing and the two removal calls.
  Each HTTP response is an input; the requests a method issues are recorded in a
  ghost log of `Request`s so that which calls were made can be stated.
 */
module GitHubService {
  import opened Http
  import opened Text

  /** Safety cap of the repository inventory: 20 pages of 100 repositories. */
  const MAX_REPO_PAGES: nat := 20
  /** Safety cap of the collaborator listing: 10 pages of 100 collaborators. */
  const MAX_COLLABORATOR_PAGES: nat := 10

  /** A repository of the inventory, identified by `owner/name`. */
  datatype RepoRef = RepoRef(owner: string, name: string, fullName: string)

  /** The fields of a user object that the service reads (`login`, `avatar_url`), each possibly absent. */
  datatype Profile = Profile(login: Option<string>, avatarUrl: Option<string>)

  /** The body of a permission lookup: its `permission` field, possibly absent. */
  datatype PermissionInfo = PermissionInfo(permission: Option<string>)

  /**
    A pending invitation: the invitee's login (absent when `invitee` is null or
    has no login), its `permissions` and its `id`, each possibly absent.
   */
  datatype Invitation = Invitation(inviteeLogin: Option<string>, permissions: Option<string>, id: Option<int>)

  /** The upstream requests the service issues, with the parameters of their URLs. */
  datatype Request =
    | GetUser(username: string)                                  // GET /users/{username}
    | GetAuthenticatedUser                                       // GET /user
    | ListRepos(page: nat)                                       // GET /user/repos?page=
    | ListCollaborators(owner: string, repo: string, page: nat)  // GET /repos/{o}/{r}/collaborators?page=
    | CheckCollaborator(owner: string, repo: string, login: string)
    | GetPermission(owner: string, repo: string, login: string)
    | ListInvitations(owner: string, repo: string)
    | DeleteCollaborator(owner: string, repo: string, login: string)
    | DeleteInvitation(owner: string, repo: string, id: int)

  /** Why the inventory fetch raised. */
  datatype FetchError =
    | HttpError(code: int)        // raise_for_status
    | ConnectionError(msg: string)
    | DecodeError(reason: string)

  /**
    The text of the raised exception, shortened for an HTTP error: requests
    writes "<code> Client Error: <reason> for url: <url>", and only the
    "<code> Client Error" / "<code> Server Error" prefix is kept here.
   */
  function Describe(e: FetchError): (r: string)
    ensures e.HttpError? ==> |r| == |IntToString(e.code)| + 13 && r[..|IntToString(e.code)|] == IntToString(e.code)
    ensures e.HttpError? && e.code < 500 ==> r[|IntToString(e.code)|..] == " Client Error"
    ensures e.HttpError? && e.code >= 500 ==> r[|IntToString(e.code)|..] == " Server Error"
    ensures e.ConnectionError? ==> r == e.msg
    ensures e.DecodeError? ==> r == e.reason
  {
    match e
    case HttpError(code) => IntToString(code) + (if code < 500 then " Client Error" else " Server Error")
    case ConnectionError(msg) => msg
    case DecodeError(reason) => reason
  }

  /** `raise_for_status()` raises for the client and server error classes only. */
  predicate IsHttpError(code: int): (b: bool)
    ensures b <==> code / 100 == 4 || code / 100 == 5
  {
    400 <= code < 600
  }

  /** The items a page delivered: its decoded list, or nothing when it has none. */
  function Body<T>(resp: Response<seq<T>>): seq<T> {
    if resp.Status? && resp.body.Parsed? then resp.body.value else []
  }

  /** The items of pages `from` up to, and not including, `to`, in page order. */
  function Gathered<T>(pages: nat -> Response<seq<T>>, from: nat, to: nat): seq<T>
    decreases to - from
  {
    if from >= to then [] else Body(pages(from)) + Gathered(pages, from + 1, to)
  }

  /** Puts already collected items in front of what the rest of a fetch yields. */
  function Prepend<T, E>(items: seq<T>, rest: Result<seq<T>, E>): Result<seq<T>, E> {
    match rest
    case Success(more) => Success(items + more)
    case Failure(e) => Failure(e)
  }

  lemma PrependNothing<T, E>(r: Result<seq<T>, E>)
    ensures Prepend([], r) == r
  {
    if r.Success? {
      assert [] + r.value == r.value;
    }
  }

  lemma PrependPrepend<T, E>(a: seq<T>, b: seq<T>, r: Result<seq<T>, E>)
    ensures Prepend(a, Prepend(b, r)) == Prepend(a + b, r)
  {
    if r.Success? {
      assert a + (b + r.value) == (a + b) + r.value;
    }
  }

  // ---------------------------------------------------------------------------
  // get_all_repos
  // ---------------------------------------------------------------------------

  /** One inventory page after `raise_for_status()` and `resp.json()`. */
  function RepoPage(resp: Response<seq<RepoRef>>): (r: Result<seq<RepoRef>, FetchError>)
    ensures r.Success? <==> resp.Status? && !IsHttpError(resp.code) && resp.body.Parsed?
    ensures r.Success? ==> r.value == Body(resp)
    ensures resp.Status? && IsHttpError(resp.code) ==> r == Failure(HttpError(resp.code))
    ensures resp.Transport? ==> r == Failure(ConnectionError(resp.msg))
    ensures resp.Status? && !IsHttpError(resp.code) && resp.body.Unparsable? ==> r == Failure(DecodeError(resp.body.reason))
  {
    match resp
    case Transport(msg) => Failure(ConnectionError(msg))
    case Status(code, body, _) =>
      if IsHttpError(code) then Failure(HttpError(code))
      else match body
        case Unparsable(reason) => Failure(DecodeError(reason))
        case Parsed(batch) => Success(batch)
  }

  /** The inventory loop goes on to the page after `page`. */
  predicate ContinuesAfter(pages: nat -> Response<seq<RepoRef>>, page: nat) {
    RepoPage(pages(page)).Success? && RepoPage(pages(page)).value != [] && page < MAX_REPO_PAGES
  }

  /** What the inventory loop returns when started at `page`. */
  function ReposFrom(pages: nat -> Response<seq<RepoRef>>, page: nat): Result<seq<RepoRef>, FetchError>
    requires 1 <= page <= MAX_REPO_PAGES
    decreases MAX_REPO_PAGES - page
  {
    match RepoPage(pages(page))
    case Failure(e) => Failure(e)
    case Success(batch) =>
      if batch == [] || page == MAX_REPO_PAGES then Success(batch)
      else Prepend(batch, ReposFrom(pages, page + 1))
  }

  /**
    The requests the inventory loop issues from `page` on: consecutive page
    numbers, never past the cap, going on only past non-empty successful pages.
   */
  function RepoRequestsFrom(pages: nat -> Response<seq<RepoRef>>, page: nat): seq<Request>
    requires 1 <= page <= MAX_REPO_PAGES
    decreases MAX_REPO_PAGES - page
  {
    [ListRepos(page)] + (if ContinuesAfter(pages, page) then RepoRequestsFrom(pages, page + 1) else [])
  }

  /**
    The inventory requests are for consecutive pages starting at `page`, never
    past the cap; the loop went on past every page but the last, and stopped at
    the last.
   */
  lemma {:induction false} RepoRequestsShape(pages: nat -> Response<seq<RepoRef>>, page: nat)
    requires 1 <= page <= MAX_REPO_PAGES
    ensures var rq := RepoRequestsFrom(pages, page);
            && 1 <= |rq| <= MAX_REPO_PAGES + 1 - page
            && (forall k :: 0 <= k < |rq| ==> rq[k] == ListRepos(page + k))
            && (forall p :: page <= p < page + |rq| - 1 ==> ContinuesAfter(pages, p))
            && !ContinuesAfter(pages, page + |rq| - 1)
    decreases MAX_REPO_PAGES - page
  {
    if ContinuesAfter(pages, page) {
      RepoRequestsShape(pages, page + 1);
    }
  }

  /** One turn of the inventory loop past a non-empty page below the cap. */
  lemma ReposAdvance(pages: nat -> Response<seq<RepoRef>>, page: nat, batch: seq<RepoRef>)
    requires 1 <= page < MAX_REPO_PAGES
    requires RepoPage(pages(page)) == Success(batch) && batch != []
    ensures ReposFrom(pages, page) == Prepend(batch, ReposFrom(pages, page + 1))
    ensures RepoRequestsFrom(pages, page) == [ListRepos(page)] + RepoRequestsFrom(pages, page + 1)
  {
  }

  /** The inventory loop stops at `page`: that request is its last, and that page's reading is the rest of the result. */
  lemma ReposStop(pages: nat -> Response<seq<RepoRef>>, page: nat)
    requires 1 <= page <= MAX_REPO_PAGES && !ContinuesAfter(pages, page)
    ensures RepoRequestsFrom(pages, page) == [ListRepos(page)]
    ensures ReposFrom(pages, page) == RepoPage(pages(page))
  {
  }

  /**
    `get_all_repos`: requests pages 1, 2, ... until a page is empty or page 20
    has been taken; any failing page makes the whole fetch fail.
   */
  method GetAllRepos(pages: nat -> Response<seq<RepoRef>>)
    returns (r: Result<seq<RepoRef>, FetchError>, ghost requested: seq<Request>)
    ensures r == ReposFrom(pages, 1)
    ensures requested == RepoRequestsFrom(pages, 1)
  {
    var repos: seq<RepoRef> := [];
    var page: nat := 1;
    requested := [];
    PrependNothing(ReposFrom(pages, 1));
    while true
      invariant 1 <= page <= MAX_REPO_PAGES
      invariant ReposFrom(pages, 1) == Prepend(repos, ReposFrom(pages, page))
      invariant RepoRequestsFrom(pages, 1) == requested + RepoRequestsFrom(pages, page)
      decreases MAX_REPO_PAGES - page
    {
      ghost var before := requested;
      requested := requested + [ListRepos(page)];
      var fetched := RepoPage(pages(page));
      if fetched.Failure? {
        ReposStop(pages, page);
        r := Failure(fetched.error);
        return;
      }
      var batch := fetched.value;
      if batch == [] {
        ReposStop(pages, page);
        assert repos + batch == repos;
        break;
      }
      if page < MAX_REPO_PAGES {
        ReposAdvance(pages, page, batch);
        PrependPrepend(repos, batch, ReposFrom(pages, page + 1));
        assert before + RepoRequestsFrom(pages, page) == requested + RepoRequestsFrom(pages, page + 1);
      } else {
        ReposStop(pages, page);
      }
      repos := repos + batch;
      page := page + 1;
      if page > MAX_REPO_PAGES {
        break;
      }
    }
    r := Success(repos);
  }

  /**
    When pages 1..n are non-empty successes and the fetch then stops (page n+1
    is empty, or n is the cap), the result is their items in page order.
   */
  lemma {:induction false} ReposFromSuccess(pages: nat -> Response<seq<RepoRef>>, page: nat, n: nat)
    requires 1 <= page <= MAX_REPO_PAGES && page <= n + 1 && n <= MAX_REPO_PAGES
    requires forall k :: page <= k <= n ==> RepoPage(pages(k)).Success? && RepoPage(pages(k)).value != []
    requires n < MAX_REPO_PAGES ==> RepoPage(pages(n + 1)) == Success([])
    ensures ReposFrom(pages, page) == Success(Gathered(pages, page, n + 1))
    decreases n + 1 - page
  {
    if page == n + 1 {
    } else if page == MAX_REPO_PAGES {
      assert Gathered(pages, page + 1, n + 1) == [];
      assert Gathered(pages, page, n + 1) == Body(pages(page));
    } else {
      ReposFromSuccess(pages, page + 1, n);
    }
  }

  /** The inventory is every repository of pages 1..n when those are the pages before the stop. */
  lemma GetAllReposCollects(pages: nat -> Response<seq<RepoRef>>, n: nat)
    requires n <= MAX_REPO_PAGES
    requires forall k :: 1 <= k <= n ==> RepoPage(pages(k)).Success? && RepoPage(pages(k)).value != []
    requires n < MAX_REPO_PAGES ==> RepoPage(pages(n + 1)) == Success([])
    ensures ReposFrom(pages, 1) == Success(Gathered(pages, 1, n + 1))
  {
    ReposFromSuccess(pages, 1, n);
  }

  /**
    A failing page reached by the loop makes the whole fetch fail with that
    page's error: nothing collected before it is returned.
   */
  lemma {:induction false} ReposFromFailure(pages: nat -> Response<seq<RepoRef>>, page: nat, n: nat)
    requires 1 <= page <= n <= MAX_REPO_PAGES
    requires forall k :: page <= k < n ==> RepoPage(pages(k)).Success? && RepoPage(pages(k)).value != []
    requires RepoPage(pages(n)).Failure?
    ensures ReposFrom(pages, page) == Failure(RepoPage(pages(n)).error)
    decreases n - page
  {
    if page < n {
      ReposFromFailure(pages, page + 1, n);
    }
  }

  /** Pages after the cap are never consulted. */
  lemma {:induction false} ReposIgnorePagesPastCap(p: nat -> Response<seq<RepoRef>>, q: nat -> Response<seq<RepoRef>>, page: nat)
    requires 1 <= page <= MAX_REPO_PAGES
    requires forall k :: page <= k <= MAX_REPO_PAGES ==> p(k) == q(k)
    ensures ReposFrom(p, page) == ReposFrom(q, page)
    ensures RepoRequestsFrom(p, page) == RepoRequestsFrom(q, page)
    decreases MAX_REPO_PAGES - page
  {
    if page < MAX_REPO_PAGES {
      ReposIgnorePagesPastCap(p, q, page + 1);
    }
  }

  // ---------------------------------------------------------------------------
  // get_repo_collaborators
  // ---------------------------------------------------------------------------

  /**
    One collaborator page as the loop reads it: a transport error or an
    undecodable 200 body raises; any other status ends the listing exactly as an
    empty page does.
   */
  function CollaboratorPage<T>(resp: Response<seq<T>>): (r: Result<seq<T>, string>)
    ensures r.Failure? <==> resp.Transport? || (resp.code == 200 && resp.body.Unparsable?)
    ensures r.Success? && r.value != [] ==> resp.ParsedWith(200) && r.value == resp.body.value
    ensures resp.ParsedWith(200) ==> r == Success(resp.body.value)
    ensures resp.Status? && resp.code != 200 ==> r == Success([])
  {
    match resp
    case Transport(msg) => Failure(msg)
    case Status(code, body, _) =>
      if code != 200 then Success([])
      else match body
        case Unparsable(reason) => Failure(reason)
        case Parsed(batch) => Success(batch)
  }

  /** The collaborator loop goes on to the page after `page`. */
  predicate CollaboratorsContinue<T>(pages: nat -> Response<seq<T>>, page: nat) {
    CollaboratorPage(pages(page)).Success? && CollaboratorPage(pages(page)).value != []
    && page < MAX_COLLABORATOR_PAGES
  }

  /** What the collaborator loop returns when started at `page`. */
  function CollaboratorsFrom<T>(pages: nat -> Response<seq<T>>, page: nat): Result<seq<T>, string>
    requires 1 <= page <= MAX_COLLABORATOR_PAGES
    decreases MAX_COLLABORATOR_PAGES - page
  {
    match CollaboratorPage(pages(page))
    case Failure(e) => Failure(e)
    case Success(batch) =>
      if batch == [] || page == MAX_COLLABORATOR_PAGES then Success(batch)
      else Prepend(batch, CollaboratorsFrom(pages, page + 1))
  }

  /** The collaborator loop stops at `page`: that page's reading is the rest of the result. */
  lemma CollaboratorsStop<T>(pages: nat -> Response<seq<T>>, page: nat)
    requires 1 <= page <= MAX_COLLABORATOR_PAGES && !CollaboratorsContinue(pages, page)
    ensures CollaboratorsFrom(pages, page) == CollaboratorPage(pages(page))
  {
  }

  /** One turn of the collaborator loop past a non-empty page below the cap. */
  lemma CollaboratorsAdvance<T>(pages: nat -> Response<seq<T>>, page: nat)
    requires 1 <= page <= MAX_COLLABORATOR_PAGES && CollaboratorsContinue(pages, page)
    ensures CollaboratorsFrom(pages, page) == Prepend(CollaboratorPage(pages(page)).value, CollaboratorsFrom(pages, page + 1))
  {
  }

  /**
    `get_repo_collaborators`: the direct collaborators of one repository, each
    raw object passed through unchanged. The requests are for pages 1, 2, ... of
    that repository, at most 10 of them; the loop went on past every page but
    the last and stopped at the last.
   */
  method GetRepoCollaborators<T>(owner: string, repo: string, pages: nat -> Response<seq<T>>)
    returns (r: Result<seq<T>, string>, ghost requested: seq<Request>)
    ensures r == CollaboratorsFrom(pages, 1)
    ensures 1 <= |requested| <= MAX_COLLABORATOR_PAGES
    ensures forall k :: 0 <= k < |requested| ==> requested[k] == ListCollaborators(owner, repo, k + 1)
    ensures forall p :: 1 <= p < |requested| ==> CollaboratorsContinue(pages, p)
    ensures !CollaboratorsContinue(pages, |requested|)
  {
    var collaborators: seq<T> := [];
    var page: nat := 1;
    requested := [];
    PrependNothing(CollaboratorsFrom(pages, 1));
    while true
      invariant 1 <= page <= MAX_COLLABORATOR_PAGES
      invariant CollaboratorsFrom(pages, 1) == Prepend(collaborators, CollaboratorsFrom(pages, page))
      invariant |requested| == page - 1
      invariant forall k :: 0 <= k < |requested| ==> requested[k] == ListCollaborators(owner, repo, k + 1)
      invariant forall p :: 1 <= p < page ==> CollaboratorsContinue(pages, p)
      decreases MAX_COLLABORATOR_PAGES - page
    {
      requested := requested + [ListCollaborators(owner, repo, page)];
      var resp := pages(page);
      if resp.Transport? {
        CollaboratorsStop(pages, page);
        r := Failure(resp.msg);
        return;
      }
      if resp.code != 200 {
        CollaboratorsStop(pages, page);
        assert collaborators + [] == collaborators;
        break;
      }
      if resp.body.Unparsable? {
        CollaboratorsStop(pages, page);
        r := Failure(resp.body.reason);
        return;
      }
      var batch := resp.body.value;
      if batch == [] {
        CollaboratorsStop(pages, page);
        assert collaborators + batch == collaborators;
        break;
      }
      if page < MAX_COLLABORATOR_PAGES {
        CollaboratorsAdvance(pages, page);
        PrependPrepend(collaborators, batch, CollaboratorsFrom(pages, page + 1));
      } else {
        CollaboratorsStop(pages, page);
      }
      collaborators := collaborators + batch;
      page := page + 1;
      if page > MAX_COLLABORATOR_PAGES {
        break;
      }
    }
    r := Success(collaborators);
  }

  /**
    When pages `page`..n are non-empty 200 pages and the listing then stops (page
    n+1 is a non-200 status or an empty 200 page, or n is the cap), the result is
    their items in page order.
   */
  lemma {:induction false} CollaboratorsFromSuccess<T>(pages: nat -> Response<seq<T>>, page: nat, n: nat)
    requires 1 <= page <= MAX_COLLABORATOR_PAGES && page <= n + 1 && n <= MAX_COLLABORATOR_PAGES
    requires forall k :: page <= k <= n ==> pages(k).ParsedWith(200) && pages(k).body.value != []
    requires n < MAX_COLLABORATOR_PAGES ==>
               (pages(n + 1).Status? && pages(n + 1).code != 200)
               || (pages(n + 1).ParsedWith(200) && pages(n + 1).body.value == [])
    ensures CollaboratorsFrom(pages, page) == Success(Gathered(pages, page, n + 1))
    decreases n + 1 - page
  {
    if page == n + 1 {
    } else if page == MAX_COLLABORATOR_PAGES {
      assert Gathered(pages, page + 1, n + 1) == [];
      assert Gathered(pages, page, n + 1) == Body(pages(page));
    } else {
      CollaboratorsFromSuccess(pages, page + 1, n);
    }
  }

  /**
    A transport error, or an undecodable 200 body, on a page the listing reaches
    makes it raise: the collaborators gathered before are not returned.
   */
  lemma {:induction false} CollaboratorsFromFailure<T>(pages: nat -> Response<seq<T>>, page: nat, n: nat)
    requires 1 <= page <= n <= MAX_COLLABORATOR_PAGES
    requires forall k :: page <= k < n ==> pages(k).ParsedWith(200) && pages(k).body.value != []
    requires pages(n).Transport? || (pages(n).code == 200 && pages(n).body.Unparsable?)
    ensures CollaboratorsFrom(pages, page).Failure?
    decreases n - page
  {
    if page < n {
      CollaboratorsFromFailure(pages, page + 1, n);
    }
  }

  // ---------------------------------------------------------------------------
  // get_repo_invitations, remove_collaborator, cancel_invitation
  // ---------------------------------------------------------------------------

  /**
    `get_repo_invitations`: one request, no pagination. A 200 yields its decoded
    list, any other status the empty list; a transport error or an undecodable 200
    body raises.
   */
  function GetRepoInvitations(resp: Response<seq<Invitation>>): (r: Result<seq<Invitation>, string>)
    ensures r.Success? <==> resp.Status? && (resp.code == 200 ==> resp.body.Parsed?)
    ensures r.Success? && r.value != [] ==> resp.ParsedWith(200) && r.value == resp.body.value
    ensures resp.ParsedWith(200) ==> r == Success(resp.body.value)
    ensures resp.Status? && resp.code != 200 ==> r == Success([])
  {
    match resp
    case Transport(msg) => Failure(msg)
    case Status(code, body, _) =>
      if code != 200 then Success([])
      else match body
        case Unparsable(reason) => Failure(reason)
        case Parsed(invitations) => Success(invitations)
  }

  function UnexpectedStatusMessage(code: int, text: string): (r: string)
    ensures |r| == 18 + |IntToString(code)| + |text|
    ensures r[..16] == "GitHub returned " && r[16..16 + |IntToString(code)|] == IntToString(code)
    ensures r[16 + |IntToString(code)|..18 + |IntToString(code)|] == ": " && r[|r| - |text|..] == text
  {
    "GitHub returned " + IntToString(code) + ": " + text
  }

  /**
    `remove_collaborator`: success exactly on a 204; a transport error gives its
    text, any other status "GitHub returned <code>: <body>".
   */
  function RemoveCollaborator(owner: string, repo: string, username: string, resp: Response<()>)
    : (r: (bool, string))
    ensures r.0 <==> resp.HasCode(204)
    ensures r.0 ==> r.1 == "Removed @" + username + " from " + owner + "/" + repo + "."
    ensures resp.Transport? ==> r.1 == resp.msg
    ensures resp.Status? && resp.code != 204 ==> r.1 == UnexpectedStatusMessage(resp.code, resp.text)
  {
    match resp
    case Transport(msg) => (false, msg)
    case Status(code, _, text) =>
      if code == 204 then (true, "Removed @" + username + " from " + owner + "/" + repo + ".")
      else (false, UnexpectedStatusMessage(code, text))
  }

  /** `cancel_invitation`: the same classification of the response as `remove_collaborator`. */
  function CancelInvitation(owner: string, repo: string, invitationId: int, resp: Response<()>)
    : (r: (bool, string))
    ensures r.0 <==> resp.HasCode(204)
    ensures r.0 ==> r.1 == "Cancelled invitation " + IntToString(invitationId) + " for " + owner + "/" + repo + "."
    ensures resp.Transport? ==> r.1 == resp.msg
    ensures resp.Status? && resp.code != 204 ==> r.1 == UnexpectedStatusMessage(resp.code, resp.text)
  {
    match resp
    case Transport(msg) => (false, msg)
    case Status(code, _, text) =>
      if code == 204 then (true, "Cancelled invitation " + IntToString(invitationId) + " for " + owner + "/" + repo + ".")
      else (false, UnexpectedStatusMessage(code, text))
  }

  /**
    The two removal calls classify every response alike: they succeed together,
    and when they fail they report the same message.
   */
  lemma RemovalsClassifyAlike(owner: string, repo: string, username: string, invitationId: int, resp: Response<()>)
    ensures RemoveCollaborator(owner, repo, username, resp).0 == CancelInvitation(owner, repo, invitationId, resp).0
    ensures !resp.HasCode(204) ==>
              RemoveCollaborator(owner, repo, username, resp).1 == CancelInvitation(owner, repo, invitationId, resp).1
  {
  }

  /** The status code in a failure message can be read back from it. */
  lemma UnexpectedStatusNamesCode(code: nat, text: string)
    ensures var m := UnexpectedStatusMessage(code, text);
            var digits := m[|"GitHub returned "|..|"GitHub returned "| + |NatToString(code)|];
            AllDigits(digits) && DigitsValue(digits) == code
  {
    var m := UnexpectedStatusMessage(code, text);
    assert m[|"GitHub returned "|..|"GitHub returned "| + |NatToString(code)|] == NatToString(code);
    NatToStringRoundTrip(code);
  }
}
