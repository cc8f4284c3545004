/**
 * app/api/leases/proposals/route.ts: the GET, DELETE and PATCH handlers. Each
 * checks its required fields for JavaScript falsiness before touching the
 * proposals table, then dispatches to one store operation.
 */
module ProposalsRoute {
  import opened Wrappers
  import opened JsString
  import opened LeaseTypes
  import opened Queries

  const ProposalIdRequired: string := "Proposal ID is required"
  const MissingRequiredFields: string := "Missing required fields"
  const ProposalDeleted: string := "Proposal deleted"

  /** A JSON response body. */
  datatype Body =
    | ErrorBody(error: string)
    | MessageBody(message: string)
    | CheckBody(outcome: CheckOutcome)
    | UpdateBody(updated: Option<seq<Proposal>>)

  /** `NextResponse.json(body, { status })`; the default status is 200. */
  datatype Response = Response(status: nat, body: Body)

  /** A string parameter is truthy when present and non-empty. */
  predicate TruthyText(s: Option<string>) {
    s.Some? && s.value != ""
  }

  /** A number is truthy when present and non-zero (a JSON body cannot hold NaN). */
  predicate TruthyNumber(n: Option<real>) {
    n.Some? && n.value != 0.0
  }

  /** The `proposalId` query parameter, required by GET and DELETE. */
  function RequireProposalId(param: Option<string>): (r: Result<string, Response>)
    ensures r.Success? <==> TruthyText(param)
    ensures r.Success? ==> r.value == param.value && r.value != ""
    ensures r.Failure? ==> r.error == Response(400, ErrorBody(ProposalIdRequired))
  {
    if param.None? || param.value == "" then Failure(Response(400, ErrorBody(ProposalIdRequired)))
    else Success(param.value)
  }

  /** The JSON body of a PATCH request; an absent or `null` field is `None`. */
  datatype PatchBody = PatchBody(
    proposalId: Option<string>,
    termId: Option<string>,
    value: Option<real>,
    valueStr: Option<string>,
    strikethrough: Option<string>)

  /** The PATCH field check: all five fields truthy, forwarded unchanged. */
  function ValidatePatch(b: PatchBody): (r: Result<TermUpdate, Response>)
    ensures r.Success? <==>
      TruthyText(b.proposalId) && TruthyText(b.termId) && TruthyNumber(b.value)
      && TruthyText(b.valueStr) && TruthyText(b.strikethrough)
    ensures r.Failure? ==> r.error == Response(400, ErrorBody(MissingRequiredFields))
    ensures r.Success? ==>
      && Some(r.value.proposalId) == b.proposalId && Some(r.value.termId) == b.termId
      && Some(r.value.value) == b.value && Some(r.value.valueStr) == b.valueStr
      && Some(r.value.strikethrough) == b.strikethrough
      && r.value.value != 0.0
      && r.value.proposalId != "" && r.value.termId != "" && r.value.valueStr != "" && r.value.strikethrough != ""
  {
    if !TruthyText(b.proposalId) || !TruthyText(b.termId) || !TruthyNumber(b.value)
       || !TruthyText(b.valueStr) || !TruthyText(b.strikethrough)
    then Failure(Response(400, ErrorBody(MissingRequiredFields)))
    else Success(TermUpdate(b.proposalId.value, b.termId.value, b.value.value, b.valueStr.value, b.strikethrough.value))
  }

  /**
   * An accepted PATCH has a non-empty strikethrough text, so the search-text
   * replace only ever fires at a real occurrence of it: a snippet that does not
   * start with that text keeps its first character, and an empty snippet stays
   * empty. With the empty pattern (which the check rules out) the new text would
   * be put in front of any snippet.
   */
  lemma AcceptedPatchAvoidsEmptyPattern(b: PatchBody, s: string)
    requires ValidatePatch(b).Success?
    ensures var u := ValidatePatch(b).value;
      && u.strikethrough != ""
      && (|s| > 0 && !OccursAt(s, u.strikethrough, 0) ==>
            var r := ReplaceFirst(s, u.strikethrough, u.strikethrough + " " + u.valueStr);
            |r| > 0 && r[0] == s[0])
      && ReplaceFirst("", u.strikethrough, u.strikethrough + " " + u.valueStr) == ""
    ensures NoReplacementPatterns(ValidatePatch(b).value.valueStr) ==>
      ReplaceFirst("", "", ValidatePatch(b).value.valueStr) == ValidatePatch(b).value.valueStr
  {
    var u := ValidatePatch(b).value;
    assert !OccursAt("", u.strikethrough, 0);
    EmptyPatternInsertsAtStart("", u.valueStr);
  }

  /** A PATCH with `value` 0 is refused even when every other field is present. */
  lemma ZeroValueRefused(proposalId: string, termId: string, valueStr: string, strikethrough: string)
    ensures ValidatePatch(PatchBody(Some(proposalId), Some(termId), Some(0.0), Some(valueStr), Some(strikethrough)))
      == Failure(Response(400, ErrorBody(MissingRequiredFields)))
  {
  }

  /** `GET`: create-if-absent, then answer with what `checkLeaseProposal` returned. */
  method Get(store: ProposalStore, proposalId: Option<string>) returns (resp: Response)
    modifies store
    ensures !TruthyText(proposalId) ==>
      resp == Response(400, ErrorBody(ProposalIdRequired)) && store.proposals == old(store.proposals)
    ensures TruthyText(proposalId) ==>
      && store.proposals == AfterCheck(old(store.proposals), proposalId.value)
      && proposalId.value in store.proposals
      && resp.status == 200 && resp.body.CheckBody?
      && (resp.body.outcome.Inserted? <==> proposalId.value !in old(store.proposals))
    ensures TruthyText(proposalId) && proposalId.value in old(store.proposals) ==>
      resp == Response(200, CheckBody(Existing(Proposal(proposalId.value, old(store.proposals)[proposalId.value]))))
  {
    var id := RequireProposalId(proposalId);
    if id.Failure? {
      return id.error;
    }
    var outcome := store.CheckLeaseProposal(id.value);
    resp := Response(200, CheckBody(outcome));
  }

  /** `DELETE`: remove the proposal, whether or not it existed. */
  method Delete(store: ProposalStore, proposalId: Option<string>) returns (resp: Response)
    modifies store
    ensures !TruthyText(proposalId) ==>
      resp == Response(400, ErrorBody(ProposalIdRequired)) && store.proposals == old(store.proposals)
    ensures TruthyText(proposalId) ==>
      && store.proposals == AfterDelete(old(store.proposals), proposalId.value)
      && resp == Response(200, MessageBody(ProposalDeleted))
  {
    var id := RequireProposalId(proposalId);
    if id.Failure? {
      return id.error;
    }
    store.DeleteLeaseProposal(id.value);
    resp := Response(200, MessageBody(ProposalDeleted));
  }

  /** `PATCH`: revise one term, answering with the update's result (nothing for an unknown proposal). */
  method Patch(store: ProposalStore, body: PatchBody) returns (resp: Response)
    modifies store
    ensures ValidatePatch(body).Failure? ==>
      resp == Response(400, ErrorBody(MissingRequiredFields)) && store.proposals == old(store.proposals)
    ensures ValidatePatch(body).Success? ==>
      var u := ValidatePatch(body).value;
      && store.proposals == AfterUpdate(old(store.proposals), u)
      && resp.status == 200
      && resp.body == UpdateBody(
           if u.proposalId in old(store.proposals) then Some([Proposal(u.proposalId, store.proposals[u.proposalId])])
           else None)
  {
    var request := ValidatePatch(body);
    if request.Failure? {
      return request.error;
    }
    var updated := store.UpdateLeaseProposalTerm(request.value);
    resp := Response(200, UpdateBody(updated));
  }
}
