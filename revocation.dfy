/**
  The `/remove-access` endpoint (backend/main.py): a batch of revocation items,
  each removing a direct collaborator or cancelling a pending invitation, each
  answered by its own outcome. The upstream answers are inputs, indexed by the
  item's position in the batch.
 */
module RemoveAccess {
  import opened Http
  import opened Text
  import opened GitHubService

  /** One item of the request body. `status` is free text: "active", "invited" or anything else. */
  datatype RepoItem = RepoItem(
    owner: string,
    repo: string,
    username: string,
    status: string,
    invitationId: Option<int>)

  /** One entry of the `results` list. */
  datatype Outcome = Outcome(repo: string, owner: string, success: bool, message: string)

  const MISSING_INVITATION_ID := "Missing invitation_id \U{2014} cannot cancel invite."

  function UnknownStatusMessage(status: string): (r: string)
    ensures |r| == |status| + 18
    ensures r[..16] == "Unknown status '" && r[16..|r| - 2] == status && r[|r| - 2..] == "'."
  {
    "Unknown status '" + status + "'."
  }

  /** Python's truthiness of `item.invitation_id`: `None` and `0` are both missing. */
  predicate HasInvitationId(item: RepoItem): (b: bool)
    ensures b <==> item.invitationId !in {None, Some(0)}
  {
    item.invitationId.Some? && item.invitationId.value != 0
  }

  /**
    The upstream call an item leads to: a collaborator removal for "active", an
    invitation cancellation for "invited" with an id, and none otherwise.
   */
  function ItemCall(item: RepoItem): (r: Option<Request>)
    ensures r.Some? <==> item.status == "active" || (item.status == "invited" && HasInvitationId(item))
    ensures r.Some? ==> && (r.value.DeleteCollaborator? || r.value.DeleteInvitation?)
                        && (r.value.DeleteCollaborator? <==> item.status == "active")
                        && r.value.owner == item.owner && r.value.repo == item.repo
  {
    if item.status == "active" then Some(DeleteCollaborator(item.owner, item.repo, item.username))
    else if item.status == "invited" && HasInvitationId(item) then
      Some(DeleteInvitation(item.owner, item.repo, item.invitationId.value))
    else None
  }

  /**
    The outcome of one item given the answer to its call (ignored when no call
    is made). It always names the item's repository and owner.
   */
  function ItemOutcome(item: RepoItem, resp: Response<()>): (r: Outcome)
    ensures r.repo == item.repo && r.owner == item.owner
    ensures r.success <==> ItemCall(item).Some? && resp.HasCode(204)
    ensures item.status == "invited" && !HasInvitationId(item) ==> r.message == MISSING_INVITATION_ID
    ensures item.status != "active" && item.status != "invited" ==> r.message == UnknownStatusMessage(item.status)
    ensures ItemCall(item).Some? && resp.Transport? ==> r.message == resp.msg
    ensures ItemCall(item).Some? && resp.Status? && resp.code != 204 ==>
              r.message == UnexpectedStatusMessage(resp.code, resp.text)
  {
    if item.status == "active" then
      var (success, message) := RemoveCollaborator(item.owner, item.repo, item.username, resp);
      Outcome(item.repo, item.owner, success, message)
    else if item.status == "invited" then
      if !HasInvitationId(item) then Outcome(item.repo, item.owner, false, MISSING_INVITATION_ID)
      else
        var (success, message) := CancelInvitation(item.owner, item.repo, item.invitationId.value, resp);
        Outcome(item.repo, item.owner, success, message)
    else Outcome(item.repo, item.owner, false, UnknownStatusMessage(item.status))
  }

  /** The call of one item as a log entry: nothing when it makes none. */
  function CallOf(item: RepoItem): seq<Request> {
    match ItemCall(item)
    case None => []
    case Some(c) => [c]
  }

  /** The upstream calls for the first n items, in batch order. */
  function BatchCalls(items: seq<RepoItem>, n: nat): seq<Request>
    requires n <= |items|
  {
    if n == 0 then [] else BatchCalls(items, n - 1) + CallOf(items[n - 1])
  }

  /** The outcomes of the first n items, in batch order. */
  function Outcomes(items: seq<RepoItem>, responses: nat -> Response<()>, n: nat): seq<Outcome>
    requires n <= |items|
  {
    if n == 0 then [] else Outcomes(items, responses, n - 1) + [ItemOutcome(items[n - 1], responses(n - 1))]
  }

  /** One outcome per item, each from its own item and answer only. */
  lemma {:induction false} OutcomesAt(items: seq<RepoItem>, responses: nat -> Response<()>, n: nat)
    requires n <= |items|
    ensures |Outcomes(items, responses, n)| == n
    ensures forall i :: 0 <= i < n ==> Outcomes(items, responses, n)[i] == ItemOutcome(items[i], responses(i))
  {
    if n > 0 {
      OutcomesAt(items, responses, n - 1);
      var prev := Outcomes(items, responses, n - 1);
      forall i | 0 <= i < n ensures Outcomes(items, responses, n)[i] == ItemOutcome(items[i], responses(i)) {
        if i < n - 1 {
          assert Outcomes(items, responses, n)[i] == prev[i];
        }
      }
    }
  }

  /** An "active" item: one removal call, and the classification of its answer. */
  lemma ActiveItem(item: RepoItem, resp: Response<()>)
    requires item.status == "active"
    ensures CallOf(item) == [DeleteCollaborator(item.owner, item.repo, item.username)]
    ensures var removed := RemoveCollaborator(item.owner, item.repo, item.username, resp);
            ItemOutcome(item, resp) == Outcome(item.repo, item.owner, removed.0, removed.1)
  {
  }

  /** An "invited" item with an id: one cancellation call, and the classification of its answer. */
  lemma InvitedItem(item: RepoItem, resp: Response<()>)
    requires item.status == "invited" && HasInvitationId(item)
    ensures CallOf(item) == [DeleteInvitation(item.owner, item.repo, item.invitationId.value)]
    ensures var cancelled := CancelInvitation(item.owner, item.repo, item.invitationId.value, resp);
            ItemOutcome(item, resp) == Outcome(item.repo, item.owner, cancelled.0, cancelled.1)
  {
  }

  /** An item that makes no call fails with its fixed message. */
  lemma RejectedItem(item: RepoItem, resp: Response<()>)
    requires item.status != "active" && !(item.status == "invited" && HasInvitationId(item))
    ensures CallOf(item) == []
    ensures ItemOutcome(item, resp)
            == Outcome(item.repo, item.owner, false,
                       if item.status == "invited" then MISSING_INVITATION_ID else UnknownStatusMessage(item.status))
  {
  }

  /**
    `remove_access`: one outcome per item, in the same order; each outcome
    depends only on its own item and the answer to its own call, so no failure
    stops the batch.
   */
  method RemoveAccess(items: seq<RepoItem>, responses: nat -> Response<()>)
    returns (results: seq<Outcome>, ghost calls: seq<Request>)
    ensures |results| == |items|
    ensures forall i :: 0 <= i < |items| ==> results[i] == ItemOutcome(items[i], responses(i))
    ensures calls == BatchCalls(items, |items|)
  {
    results := [];
    calls := [];
    for i := 0 to |items|
      invariant results == Outcomes(items, responses, i)
      invariant calls == BatchCalls(items, i)
    {
      var item := items[i];
      var success: bool;
      var message: string;
      if item.status == "active" {
        ActiveItem(item, responses(i));
        calls := calls + [DeleteCollaborator(item.owner, item.repo, item.username)];
        var removed := RemoveCollaborator(item.owner, item.repo, item.username, responses(i));
        success, message := removed.0, removed.1;
      } else if item.status == "invited" {
        if !HasInvitationId(item) {
          RejectedItem(item, responses(i));
          results := results + [Outcome(item.repo, item.owner, false, MISSING_INVITATION_ID)];
          assert calls == BatchCalls(items, i) + CallOf(item);
          continue;
        }
        InvitedItem(item, responses(i));
        calls := calls + [DeleteInvitation(item.owner, item.repo, item.invitationId.value)];
        var cancelled := CancelInvitation(item.owner, item.repo, item.invitationId.value, responses(i));
        success, message := cancelled.0, cancelled.1;
      } else {
        RejectedItem(item, responses(i));
        success, message := false, UnknownStatusMessage(item.status);
        assert calls == BatchCalls(items, i) + CallOf(item);
      }
      results := results + [Outcome(item.repo, item.owner, success, message)];
    }
    OutcomesAt(items, responses, |items|);
  }

  // ---------------------------------------------------------------------------
  // Properties
  // ---------------------------------------------------------------------------

  /**
    An item that leads to no call fails whatever the upstream would have said:
    its outcome does not depend on the response at all.
   */
  lemma NoCallNoDependence(item: RepoItem, a: Response<()>, b: Response<()>)
    requires ItemCall(item).None?
    ensures ItemOutcome(item, a) == ItemOutcome(item, b)
    ensures !ItemOutcome(item, a).success
  {
  }

  /** Every call in the log of a batch is the call of one of its items; there are at most as many calls as items. */
  lemma {:induction false} BatchCallsFromItems(items: seq<RepoItem>, n: nat)
    requires n <= |items|
    ensures forall c :: c in BatchCalls(items, n) ==> exists j :: 0 <= j < n && ItemCall(items[j]) == Some(c)
    ensures |BatchCalls(items, n)| <= n
  {
    if n > 0 {
      BatchCallsFromItems(items, n - 1);
      forall c | c in BatchCalls(items, n) ensures exists j :: 0 <= j < n && ItemCall(items[j]) == Some(c) {
        if c !in BatchCalls(items, n - 1) {
          assert c in CallOf(items[n - 1]);
          assert ItemCall(items[n - 1]) == Some(c);
        }
      }
    }
  }

  /** Every item that makes a call has that call in the log of the batch. */
  lemma {:induction false} ItemCallsInBatch(items: seq<RepoItem>, n: nat)
    requires n <= |items|
    ensures forall j :: 0 <= j < n && ItemCall(items[j]).Some? ==> ItemCall(items[j]).value in BatchCalls(items, n)
  {
    if n > 0 {
      ItemCallsInBatch(items, n - 1);
      assert CallOf(items[n - 1]) == [] || ItemCall(items[n - 1]).value in CallOf(items[n - 1]);
    }
  }

  /** An invited item without an id makes no call and reports the missing id. */
  lemma MissingIdNoCall(items: seq<RepoItem>, responses: nat -> Response<()>, i: nat)
    requires i < |items| && items[i].status == "invited" && !HasInvitationId(items[i])
    ensures forall c :: c in BatchCalls(items, |items|) ==> exists j :: 0 <= j < |items| && j != i && ItemCall(items[j]) == Some(c)
    ensures ItemOutcome(items[i], responses(i)) == Outcome(items[i].repo, items[i].owner, false, MISSING_INVITATION_ID)
  {
    BatchCallsFromItems(items, |items|);
  }

  /**
    A batch of a collaborator removal the upstream refuses with 404 and an
    invitation cancellation it accepts yields a failure then a success, in that
    order, after one call each.
   */
  lemma BatchScenario(responses: nat -> Response<()>)
    requires responses(0) == Status(404, Parsed(()), "Not Found")
    requires responses(1) == Status(204, Parsed(()), "")
    ensures var items := [RepoItem("owner1", "A", "bob", "active", None),
                          RepoItem("owner1", "C", "bob", "invited", Some(42))];
            && ItemOutcome(items[0], responses(0)).repo == "A"
            && !ItemOutcome(items[0], responses(0)).success
            && ItemOutcome(items[1], responses(1)).repo == "C"
            && ItemOutcome(items[1], responses(1)).success
            && BatchCalls(items, 2) == [DeleteCollaborator("owner1", "A", "bob"), DeleteInvitation("owner1", "C", 42)]
  {
    var items := [RepoItem("owner1", "A", "bob", "active", None),
                  RepoItem("owner1", "C", "bob", "invited", Some(42))];
    assert BatchCalls(items, 1) == [DeleteCollaborator("owner1", "A", "bob")];
  }
}
