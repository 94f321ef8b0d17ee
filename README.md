# GitHub access auditor: the scan stream and the revocation batch

The backend of this tool answers two questions about one GitHub user, using the
administrator's token:

- **On which repositories does the user hold access?** `/user-access/stream` answers this as a stream of events:
  - it validates the username;
  - it fetches the token's whole repository inventory (paginated, at most 20 pages);
  - then, repository by repository, it emits a `scanning` progress event.
  - Phase A checks direct collaboration: a membership probe that must answer 204, then a permission lookup.
  - Phase B runs only when phase A found nothing: it searches the repository's pending invitations for the user, ignoring case.
  - Each access found is emitted as a `found` event; the stream ends with `done` and the number found.
  - A failure during validation or in the inventory ends the stream with a single `error` event.
- **Revoking access.** `/remove-access` takes a batch of items:
  - an "active" item removes the collaborator;
  - an "invited" item cancels the invitation, given its id;
  - every item gets its own outcome, and a failure does not stop the batch.

The model consists of five modules, one file each:

- `Http` (`http.dfy`): options, results and upstream responses. A response is either
  - a status code with a body that decodes or does not, or
  - a transport failure.
- `Text` (`text.dfy`): `str.strip()`, `str.lower()` and the decimal formatting that f-strings use.
- `GitHubService` (`github_service.dfy`): the upstream client.
  - Paginated repository inventory: the method `GetAllRepos`, proved against `ReposFrom`.
  - Paginated collaborator listing: `GetRepoCollaborators`, proved against `CollaboratorsFrom`.
  - Invitation listing.
  - The two removal calls.
- `UserAccessStream` (`user_access_stream.dfy`): the event generator.
  - The phase A/B resolver is the method `ResolveAccess`, proved against `Resolve`.
  - The per-repository loop is `ScanRepositories`, proved against `ScanEvents` and `FoundCount`.
  - The whole generator is `EventStream`, proved against `Stream`.
- `RemoveAccess` (`revocation.dfy`): the batch loop `RemoveAccess`, proved against `ItemOutcome` and `BatchCalls`.

Every HTTP response is an input of the model:

- The inventory and collaborator pages are functions from the page number.
- The per-repository probes are functions from the repository's position in the inventory.
- The revocation answers are functions from the item's position in the batch.

The requests each method issues are recorded in a ghost log of `Request` values. This lets "which requests are made, in which order" be stated and proved.

Some behaviours of the code are easy to mistake; the model follows the code:

- **A failing `GET /user` lookup is not merely advisory.**
  - A transport error in the `/user` lookup, or a 200 answer whose body does not decode, is raised inside the validation `try` (backend/main.py:85-96). It ends the stream with "Failed to validate username: …".
  - Only a non-200 answer from `/user` just leaves `is_owner` false.
- **An invited finding may lack an id.** Its `invitation_id` is the invitation's `id` field as listed (backend/main.py:186), so it may be absent even though the status is "invited".
- **Not every non-success page aborts the inventory.** It raises only for status codes 400 to 599 (backend/github_service.py:51). Another non-200 status with a decodable list body is accepted as a page.
- **Invitations are not paginated, unlike the inventory.** Only the first page of a repository's invitations is searched (backend/github_service.py:109-115).
- **Falsy invitation ids count as missing.** In `remove_access`, `not item.invitation_id` (backend/main.py:222) also treats an id of 0 as missing.

## Model

| member | source | states |
|---|---|---|
| UserAccessStream.EventStream | backend/main.py:65-194 | the events emitted are exactly `Stream(username, up)` and the requests issued are exactly `StreamCalls(username, up)` |
| UserAccessStream.ScanRepositories | backend/main.py:105-192 | the scan loop emits `ScanEvents` for all repositories, counts `FoundCount` findings and issues `ScanCalls`, in inventory order |
| UserAccessStream.ResolveAccess | backend/main.py:127-192 | phase A then, only when it found nothing, phase B, yields exactly the finding `Resolve` defines and the requests `RepoCalls` defines |
| UserAccessStream.Validate | backend/main.py:69-96 | validation succeeds iff the profile answers 200 with a decodable body and `/user` neither fails in transport nor answers 200 undecodably; a non-200 profile gives "not found"; a transport error or undecodable 200 body of either lookup gives "Failed to validate username: " and that error's text; the login falls back to the stripped username, the avatar to ""; `isOwner` iff `/user` answered 200 and the logins agree ignoring case |
| UserAccessStream.ResolvedPermission | backend/main.py:142-148 | the permission is unresolved (the probe raised) iff the lookup failed in transport or answered 200 undecodably; a decodable 200 gives its `permission` field, "read" when absent; any other status gives "read" |
| UserAccessStream.ActivePermissionFromLookup | backend/main.py:140-150 | once the probe answered 204 and the lookup answered 200, the `permission` field ("read" when absent) decides: "none" suppresses the active finding, any other level is reported as that level |
| UserAccessStream.DirectAccess | backend/main.py:135-167 | phase A finds access iff the membership probe answered 204, the permission resolved, and it is not "none"; the finding is active, names the repository and the login, and carries no invitation id |
| UserAccessStream.FirstMatch | backend/main.py:174-176 | the match found is the first invitation addressed to the login ignoring case; none is found iff no invitation is so addressed |
| UserAccessStream.InviteeLogin | backend/main.py:175 | a missing or null invitee reads as the login "", otherwise the invitee's login |
| UserAccessStream.Matches | backend/main.py:176 | an invitation matches iff its invitee login has the login's length and agrees with it character by character ignoring ASCII case |
| UserAccessStream.InvitedFinding | backend/main.py:177-187 | the invited finding names the repository and the login, has status invited, the invitation's id (possibly absent) and its permissions, "read" when absent |
| UserAccessStream.PendingInvitation | backend/main.py:170-192 | phase B finds something iff the listing answered a decodable 200 holding an invitation for the login; then it is the invited finding of the first such invitation |
| UserAccessStream.NotFoundMessage | backend/main.py:76 | the message is "GitHub username '", the stripped username, then "' not found." |
| UserAccessStream.ResolveActive | backend/main.py:140-164 | a repository is reported active iff the probe answered 204 and the resolved permission is not "none"; then its permission is the resolved one and its invitation id is absent |
| UserAccessStream.ResolveInvited | backend/main.py:170-190 | a repository is reported invited iff phase A found nothing, the invitation listing did not raise, and some invitation matches; then the finding carries the first match's id and permission (default "read") |
| UserAccessStream.ResolveNamesRepository | backend/main.py:153-159 | every finding names the scanned repository's owner, name and full name, and the canonical login |
| UserAccessStream.MatchIgnoresCase | backend/main.py:176 | an invitation for "Alice" matches the login "alice" |
| UserAccessStream.StreamFatal | backend/main.py:75-103 | the stream opens with an error iff validation or the inventory failed, and then that error is its only event |
| UserAccessStream.StreamValidationFailed | backend/main.py:69-96 | a failed validation yields exactly its error event, after at most the two validation requests |
| UserAccessStream.StreamInventoryFailed | backend/main.py:98-103 | a failed inventory yields exactly "Failed to fetch repositories: " and the text of the exception |
| UserAccessStream.StreamCallsInventoryFailed | backend/main.py:98-103 | after a failed inventory no repository is probed: only the validation and inventory requests are issued |
| UserAccessStream.StreamScanned | backend/main.py:105-194 | proof step (unfolds one case of the definition): a scan that passed validation and inventory is `start`, then the per-repository events, then `done` with the finding count |
| UserAccessStream.StreamCallsScanned | backend/main.py:65-192 | proof step (unfolds one case of the definition): the requests of such a scan are validation, then inventory, then the per-repository probes |
| UserAccessStream.StreamShape | backend/main.py:105-194 | a successful scan opens with `start` (total, login, avatar, owner flag), ends with `done` whose total is the number of `found` events (at most the number of repositories), emits exactly one `scanning` event per repository in order, numbered 1..N of N, and every `found` event is for the login and directly follows the `scanning` event of its repository |
| UserAccessStream.ScannedTraceShape | backend/main.py:105-194 | the same framing facts for any `start` event around the scan of an inventory |
| UserAccessStream.ScanEventsCount | backend/main.py:163-190 | the number of `found` events of the first n repositories equals the running count, and is at most n |
| UserAccessStream.ScanEventsProgress | backend/main.py:117-125 | the `scanning` events of the first n repositories are exactly one per repository, in order, numbered 1..n of the total |
| UserAccessStream.ExpectedProgress | backend/main.py:117-125 | the expected progress has one event per repository, the k-th naming repository k, scanned k+1 of the total |
| UserAccessStream.ScanEventsLinked | backend/main.py:120-190 | in the scan, each `found` event is for the login and directly follows the `scanning` event of its own repository |
| UserAccessStream.RepoEventsLinked | backend/main.py:120-190 | one repository's events start with its `scanning` event, and its finding, if any, follows it |
| UserAccessStream.ProgressThenFinding | backend/main.py:120-190 | one repository emits one progress event and at most one finding |
| UserAccessStream.RepoCallsPhases | backend/main.py:135-173 | each repository is probed for membership first; the permission is looked up iff the probe answered 204; invitations are listed iff phase A found nothing |
| UserAccessStream.DirectScenarioStream | backend/main.py:65-194 | two repositories, "bob" a direct writer on the first and absent from the second: the whole stream is start(2, "bob"), scanning 1/2, found (write, active), scanning 2/2, done(1) |
| UserAccessStream.DirectScenarioSetup | backend/main.py:69-103 | in that scenario validation yields the profile's login, not the token owner, and the inventory is the two repositories |
| UserAccessStream.DirectScenarioScan | backend/main.py:113-192 | in that scenario the scan finds only the first repository |
| UserAccessStream.InvitedScenario | backend/main.py:170-190 | with no membership and invitations for "carol" then "Alice", the user "alice" is reported invited with the second invitation's id and the default "read" permission |
| GitHubService.GetAllRepos | backend/github_service.py:31-65 | the inventory loop returns exactly `ReposFrom(pages, 1)` and requests exactly the pages `RepoRequestsFrom(pages, 1)` |
| GitHubService.RepoPage | backend/github_service.py:41-57 | a page is accepted iff it arrived, its status is not 4xx/5xx and its body decodes; a 4xx/5xx raises an HTTP error, a transport failure a connection error, and an undecodable body a decoding error carrying its own text |
| GitHubService.IsHttpError | backend/github_service.py:51 | `raise_for_status` raises exactly for the 4xx and 5xx status classes |
| GitHubService.Describe | backend/main.py:102 | an HTTP error reads as its code then " Client Error" (below 500) or " Server Error", the prefix of the text requests gives it; a connection or decoding error reads as its own text |
| GitHubService.RepoRequestsShape | backend/github_service.py:38-62 | the inventory requests pages 1, 2, … consecutively, at most 20; each page but the last continued the loop (non-empty, below the cap) and the last did not |
| GitHubService.ReposAdvance | backend/github_service.py:54-58 | proof step (unfolds one case of the definition): a non-empty page below the cap contributes its repositories before those of the following pages |
| GitHubService.ReposStop | backend/github_service.py:51-62 | proof step (unfolds one case of the definition): a page that ends the loop is the last one requested and decides the result alone |
| GitHubService.ReposFromSuccess | backend/github_service.py:38-62 | non-empty pages up to n followed by an empty page (or the 20-page cap) give the concatenation of pages 1..n in order |
| GitHubService.GetAllReposCollects | backend/github_service.py:31-65 | the same from page 1: the inventory is every repository of the pages before the first empty one |
| GitHubService.ReposFromFailure | backend/github_service.py:51-52 | a page that raises after non-empty pages makes the whole inventory fail with that page's error |
| GitHubService.ReposIgnorePagesPastCap | backend/github_service.py:60-62 | pages after the 20th never influence the result nor the requests |
| GitHubService.GetRepoCollaborators | backend/github_service.py:71-98 | the collaborator loop returns exactly `CollaboratorsFrom(pages, 1)`; it requests pages 1, 2, … consecutively, at most 10; each page but the last continued the loop and the last did not |
| GitHubService.CollaboratorPage | backend/github_service.py:80-92 | a page raises iff it fails in transport or answers 200 undecodably; a decodable 200 page yields exactly its list, any other status the empty list |
| GitHubService.CollaboratorsStop | backend/github_service.py:85-96 | proof step (unfolds one case of the definition): a page that ends the loop decides the result alone |
| GitHubService.CollaboratorsAdvance | backend/github_service.py:88-93 | proof step (unfolds one case of the definition): a page that continues the loop contributes its collaborators before those of the following pages |
| GitHubService.CollaboratorsFromSuccess | backend/github_service.py:79-98 | non-empty 200 pages up to n, then a non-200 or empty page (or the 10-page cap), give the concatenation of pages 1..n |
| GitHubService.CollaboratorsFromFailure | backend/github_service.py:80-88 | a page that fails in transport or decodes badly after non-empty pages makes the listing raise |
| GitHubService.GetRepoInvitations | backend/github_service.py:104-115 | a decodable 200 answer gives its list, any other status the empty list; it raises iff the transport fails or a 200 is undecodable |
| GitHubService.RemoveCollaborator | backend/github_service.py:121-134 | success iff the DELETE answered 204, with "Removed @user from owner/repo."; a transport error gives its text; any other status "GitHub returned <code>: <body>" |
| GitHubService.CancelInvitation | backend/github_service.py:140-153 | success iff the DELETE answered 204, with "Cancelled invitation <id> for owner/repo."; otherwise as for a removal |
| GitHubService.RemovalsClassifyAlike | backend/github_service.py:127-153 | both removal calls classify the same answer the same way, with the same message on failure |
| GitHubService.UnexpectedStatusNamesCode | backend/github_service.py:131 | the status code can be read back from the unexpected-status message |
| GitHubService.UnexpectedStatusMessage | backend/github_service.py:131 | the message is "GitHub returned ", the decimal code, ": ", then the response text |
| RemoveAccess.RemoveAccess | backend/main.py:207-241 | one outcome per item, in item order, the i-th depending only on item i and the answer to its own call; the requests are exactly `BatchCalls` |
| RemoveAccess.ItemCall | backend/main.py:217-230 | an item makes a call iff it is "active" or "invited" with an id; an active one deletes the collaborator, an invited one the invitation, of the item's owner and repository |
| RemoveAccess.HasInvitationId | backend/main.py:222 | an item has an invitation id iff it is neither absent nor 0 (Python truthiness) |
| RemoveAccess.UnknownStatusMessage | backend/main.py:232 | the message is "Unknown status '", the status, then "'." |
| RemoveAccess.ItemOutcome | backend/main.py:216-239 | the outcome names the item's repository and owner; it succeeds iff a call was made and answered 204; otherwise the message is the missing-id message, "Unknown status '…'.", the transport error's text or "GitHub returned <code>: <body>" |
| RemoveAccess.OutcomesAt | backend/main.py:214-241 | the outcomes of the first n items are n, the i-th being item i's own outcome |
| RemoveAccess.ActiveItem | backend/main.py:217-220 | an active item makes one collaborator removal and reports its classification |
| RemoveAccess.InvitedItem | backend/main.py:221-230 | an invited item with an id makes one cancellation and reports its classification |
| RemoveAccess.RejectedItem | backend/main.py:221-232 | an item without a call fails with the missing-id or unknown-status message |
| RemoveAccess.NoCallNoDependence | backend/main.py:222-232 | an item that makes no call fails whatever the upstream would answer |
| RemoveAccess.BatchCallsFromItems | backend/main.py:216-230 | every request of the batch is the call of one of its items, and there are at most as many requests as items |
| RemoveAccess.ItemCallsInBatch | backend/main.py:216-230 | every item that makes a call has it in the batch's requests |
| RemoveAccess.MissingIdNoCall | backend/main.py:221-227 | an invited item with no id (or id 0) makes no request and reports the missing id |
| RemoveAccess.BatchScenario | backend/main.py:214-241 | a refused removal then an accepted cancellation give a failure then a success, in order, after exactly those two requests |
| Text.TrimStart | backend/main.py:72 | the result is a suffix of the input, all dropped characters are whitespace, and it does not start with whitespace |
| Text.TrimEnd | backend/main.py:72 | the result is a prefix of the input, all dropped characters are whitespace, and it does not end with whitespace |
| Text.Strip | backend/main.py:72 | the result is the input minus a whitespace prefix and a whitespace suffix, and it neither starts nor ends with whitespace (so it is exactly `str.strip()` on ASCII whitespace) |
| Text.StripKeepsTrimmed | backend/main.py:72 | stripping a text without outer whitespace leaves it unchanged |
| Text.Lower | backend/main.py:91 | lower-casing keeps the length and lowers each character |
| Text.LowerEqualIff | backend/main.py:91 | two texts are equal after lower-casing iff they have the same length and agree character by character ignoring case |
| Text.NatToString | backend/github_service.py:131 | decimal digits without a leading zero, at least one |
| Text.IntToString | backend/github_service.py:131 | at least one character, with a leading "-" iff the number is negative |
| Text.NatToStringRoundTrip | backend/github_service.py:131 | reading back the digits gives the number |
| Text.IntToStringRoundTrip | backend/github_service.py:149 | reading back the sign and digits gives the number |

## Left out

- The web framework is not modelled: FastAPI routing, CORS, the health endpoint, server-sent-event framing (`data: <json>\n\n`) and `json.dumps`. Events are values instead.
- Configuration is not modelled: `get_headers`, the token, dotenv, logging and uvicorn.
- The frontend is not part of this model.
- The network is represented only by its answers, which are inputs indexed by page number, repository position or item position. The requests made appear only in ghost call logs. Headers and query parameters other than the page number are not modelled.
- A client that disconnects mid-stream and the streaming itself (laziness, concurrency) are not modelled.
- Describe: the text of a `requests.HTTPError` is "<code> Client Error: <reason> for url: <url>" (or "Server Error"); the model keeps only the "<code> Client Error" / "<code> Server Error" prefix, because the reason phrase and the URL are not part of the response model.
- `Text.Lower` and `Text.Strip` handle only ASCII letters and ASCII whitespace. Unicode case mapping and Unicode whitespace are not modelled.
- Repository objects always carry `owner.login`, `name` and `full_name`. The `KeyError` a malformed inventory entry would raise at backend/main.py:114-116 is not modelled.
- JSON values of an unexpected type count as absent: a non-string `login` or `permission`, or a null `invitee.login`. The source would raise (`None.lower()`) or pass the value through, and neither is modelled.
- Request-body validation by pydantic is not modelled: type coercion of `invitation_id` and rejection of malformed bodies. Items are already-typed values.
- `GetRepoCollaborators` is modelled and proved, but the stream itself does not call it (backend/main.py uses the membership probe instead). It has no place in the stream's trace.
