/**
 * The lease-proposal part of lib/db/queries.ts: the term revision rewrite, the
 * proposals table and its operations, and the session checks of `getUser`.
 */
module Queries {
  import opened Wrappers
  import opened JsString
  import opened Utils
  import opened LeaseTypes
  import LeaseData

  // ---------------------------------------------------------------------------
  // Term revision rewrite
  // ---------------------------------------------------------------------------

  /** The arguments of `updateLeaseProposalTerm`. */
  datatype TermUpdate = TermUpdate(
    proposalId: string,
    termId: string,
    value: real,
    valueStr: string,
    strikethrough: string)

  /**
   * The callback of the `.map`: a term with the target id gets the new value, the
   * strikethrough text, and a search text in which the first occurrence of the
   * strikethrough text is followed by the new value text; any other term is kept.
   */
  function RewriteTerm(t: Term, u: TermUpdate): (r: Term)
    ensures t.id != u.termId ==> r == t
    ensures r.id == t.id && r.name == t.name && r.unit == t.unit && r.updatedValue == t.updatedValue
    ensures r.comparables == t.comparables && r.metadata == t.metadata
    ensures t.id == u.termId ==>
      && r.value == u.value
      && r.documentEdit.strikethrough == u.strikethrough
      && r.documentEdit.searchText
         == ReplaceFirst(t.documentEdit.searchText, u.strikethrough, u.strikethrough + " " + u.valueStr)
  {
    if t.id == u.termId then
      t.(value := u.value,
         documentEdit := DocumentEdit(
           ReplaceFirst(t.documentEdit.searchText, u.strikethrough, u.strikethrough + " " + u.valueStr),
           u.strikethrough))
    else t
  }

  /** `terms.map(...)`: every term rewritten, in the same order. */
  function RewriteTerms(terms: seq<Term>, u: TermUpdate): (r: seq<Term>)
    ensures |r| == |terms|
    ensures forall i :: 0 <= i < |terms| && terms[i].id != u.termId ==> r[i] == terms[i]
    ensures forall i :: 0 <= i < |terms| && terms[i].id == u.termId ==>
      && r[i] == terms[i].(value := u.value, documentEdit := r[i].documentEdit)
      && r[i].documentEdit == DocumentEdit(
           ReplaceFirst(terms[i].documentEdit.searchText, u.strikethrough, u.strikethrough + " " + u.valueStr),
           u.strikethrough)
  {
    if terms == [] then []
    else [RewriteTerm(terms[0], u)] + RewriteTerms(terms[1..], u)
  }

  /** The rewrite keeps the ids and their order. */
  lemma RewriteKeepsIds(terms: seq<Term>, u: TermUpdate)
    ensures Ids(RewriteTerms(terms, u)) == Ids(terms)
  {
  }

  /** When no term carries the target id, the list comes back unchanged. */
  lemma RewriteWithoutMatch(terms: seq<Term>, u: TermUpdate)
    requires forall t :: t in terms ==> t.id != u.termId
    ensures RewriteTerms(terms, u) == terms
  {
  }

  /**
   * In a matching term whose search text holds the strikethrough text, the old text
   * stays where it was, the new value text follows it after one space, the rest is
   * kept, and the old text is still first found at the same index.
   */
  lemma RewriteKeepsAnchor(t: Term, u: TermUpdate)
    requires t.id == u.termId
    requires OccursIn(t.documentEdit.searchText, u.strikethrough)
    requires NoReplacementPatterns(u.strikethrough + " " + u.valueStr)
    ensures var s := t.documentEdit.searchText;
      var i := IndexOf(s, u.strikethrough).value;
      var s' := RewriteTerm(t, u).documentEdit.searchText;
      && s' == s[..i] + u.strikethrough + " " + u.valueStr + s[i + |u.strikethrough|..]
      && IndexOf(s', u.strikethrough) == Some(i)
  {
    ReplaceKeepsPattern(t.documentEdit.searchText, u.strikethrough, u.valueStr);
  }

  /** In a matching term whose search text lacks the strikethrough text, the search text is kept. */
  lemma RewriteWithoutAnchor(t: Term, u: TermUpdate)
    requires t.id == u.termId
    requires !OccursIn(t.documentEdit.searchText, u.strikethrough)
    ensures RewriteTerm(t, u).documentEdit.searchText == t.documentEdit.searchText
  {
    ReplaceAbsent(t.documentEdit.searchText, u.strikethrough, u.strikethrough + " " + u.valueStr);
  }

  // ---------------------------------------------------------------------------
  // The proposals table
  // ---------------------------------------------------------------------------

  /** The table after `checkLeaseProposal(id)`: seeded with the default terms when absent. */
  function AfterCheck(table: map<string, seq<Term>>, id: string): (r: map<string, seq<Term>>)
    ensures id in r
    ensures id in table ==> r == table
    ensures id !in table ==> r[id] == LeaseData.DefaultTerms() && r.Keys == table.Keys + {id}
    ensures forall k :: k in table ==> k in r && r[k] == table[k]
  {
    if id in table then table else table[id := LeaseData.DefaultTerms()]
  }

  /** The table after `deleteLeaseProposal(id)`: only `id` is gone. */
  function AfterDelete(table: map<string, seq<Term>>, id: string): (r: map<string, seq<Term>>)
    ensures id !in r && r.Keys == table.Keys - {id}
    ensures forall k :: k in r ==> r[k] == table[k]
  {
    table - {id}
  }

  /** The table after `updateLeaseProposalTerm(u)`. */
  function AfterUpdate(table: map<string, seq<Term>>, u: TermUpdate): (r: map<string, seq<Term>>)
    ensures r.Keys == table.Keys
    ensures u.proposalId !in table ==> r == table
    ensures u.proposalId in table ==> r[u.proposalId] == RewriteTerms(table[u.proposalId], u)
    ensures forall k :: k in table && k != u.proposalId ==> r[k] == table[k]
  {
    if u.proposalId in table then table[u.proposalId := RewriteTerms(table[u.proposalId], u)] else table
  }

  /** Creating-if-absent twice leaves the same table as doing it once. */
  lemma CheckIdempotent(table: map<string, seq<Term>>, id: string)
    ensures AfterCheck(AfterCheck(table, id), id) == AfterCheck(table, id)
  {
  }

  /** What `checkLeaseProposal` returns: the insert's result when it seeded, else the stored row. */
  datatype CheckOutcome = Inserted | Existing(proposal: Proposal)

  /** The `leaseProposals` table, keyed by proposal id. */
  class ProposalStore {
    var proposals: map<string, seq<Term>>

    constructor (table: map<string, seq<Term>>)
      ensures proposals == table
    {
      proposals := table;
    }

    /** `getLeaseProposal(id)`: the stored row, or nothing. */
    method GetLeaseProposal(id: string) returns (p: Option<Proposal>)
      ensures p.Some? <==> id in proposals
      ensures p.Some? ==> p.value.proposalId == id && p.value.terms == proposals[id]
    {
      if id in proposals {
        p := Some(Proposal(id, proposals[id]));
      } else {
        p := None;
      }
    }

    /** `checkLeaseProposal(id)`: insert the default terms under a new id, or return the stored row. */
    method CheckLeaseProposal(id: string) returns (r: CheckOutcome)
      modifies this
      ensures proposals == AfterCheck(old(proposals), id)
      ensures r.Inserted? <==> id !in old(proposals)
      ensures r.Existing? ==> r.proposal == Proposal(id, old(proposals)[id])
    {
      var p := GetLeaseProposal(id);
      if p.None? {
        proposals := proposals[id := LeaseData.DefaultTerms()];
        r := Inserted;
      } else {
        r := Existing(p.value);
      }
    }

    /** `deleteLeaseProposal(id)`. */
    method DeleteLeaseProposal(id: string)
      modifies this
      ensures proposals == AfterDelete(old(proposals), id)
    {
      proposals := proposals - {id};
    }

    /**
     * `updateLeaseProposalTerm(u)`: nothing is written and nothing returned for an
     * unknown proposal; otherwise the terms array is replaced wholesale by the
     * rewritten one, and `.returning()` gives the array of updated rows, which
     * holds exactly the one row with that id.
     */
    method UpdateLeaseProposalTerm(u: TermUpdate) returns (r: Option<seq<Proposal>>)
      modifies this
      ensures proposals == AfterUpdate(old(proposals), u)
      ensures r.None? <==> u.proposalId !in old(proposals)
      ensures r.Some? ==> r.value == [Proposal(u.proposalId, proposals[u.proposalId])]
    {
      var p := GetLeaseProposal(u.proposalId);
      if p.None? {
        return None;
      }
      var updatedTerms := RewriteTerms(p.value.terms, u);
      proposals := proposals[u.proposalId := updatedTerms];
      r := Some([Proposal(u.proposalId, updatedTerms)]);
    }
  }

  // ---------------------------------------------------------------------------
  // Session acceptance (`getUser`)
  // ---------------------------------------------------------------------------

  /** The `user` claim of a verified session token; `id` is whatever the payload held. */
  datatype SessionUser = SessionUser(id: JsValue)

  /**
   * A verified session payload. `expires` is the instant `new Date(expires)` denotes,
   * in milliseconds, or `None` when that date is invalid (its time value is NaN).
   */
  datatype SessionData = SessionData(user: Option<SessionUser>, expires: Option<int>)

  /** A row of the users table: its integer id and its soft-deletion time, if any. */
  datatype User = User(id: int, email: string, deletedAt: Option<int>)

  /** `eq(users.id, id)` and `isNull(users.deletedAt)`. */
  predicate LiveWithId(u: User, id: real) {
    u.id as real == id && u.deletedAt.None?
  }

  /** No row before position `k` matches the query. */
  predicate NoneLiveBefore(users: seq<User>, id: real, k: nat)
    requires k <= |users|
  {
    forall j :: 0 <= j < k ==> !LiveWithId(users[j], id)
  }

  /** The first row that is live with id `id`: the query with `.limit(1)`. */
  function FirstLiveUser(users: seq<User>, id: real): (r: Option<User>)
    ensures r.None? <==> forall u :: u in users ==> !LiveWithId(u, id)
    ensures r.Some? ==> LiveWithId(r.value, id)
    ensures r.Some? ==> exists k :: 0 <= k < |users| && users[k] == r.value && NoneLiveBefore(users, id, k)
  {
    if users == [] then None
    else if LiveWithId(users[0], id) then
      assert NoneLiveBefore(users, id, 0);
      Some(users[0])
    else
      var rest := FirstLiveUser(users[1..], id);
      assert forall u :: u in users ==> u == users[0] || u in users[1..];
      if rest.Some? then
        var k :| 0 <= k < |users[1..]| && users[1..][k] == rest.value && NoneLiveBefore(users[1..], id, k);
        assert users[k + 1] == rest.value;
        assert NoneLiveBefore(users, id, k + 1) by {
          forall j | 0 <= j < k + 1 ensures !LiveWithId(users[j], id) {
            if j > 0 { assert users[j] == users[1..][j - 1]; }
          }
        }
        rest
      else rest
  }

  /** `new Date(expires) < new Date()`: false for an invalid date, since NaN compares false. */
  predicate Expired(expires: Option<int>, now: int) {
    expires.Some? && expires.value < now
  }

  /**
   * `getUser()`: `cookie` is the value of the "session" cookie, `verify` stands for
   * the token verification (`None` when it throws, which `getUser` lets propagate),
   * `now` is the current time and `users` the users table.
   */
  function GetUser(cookie: Option<string>, verify: string -> Option<SessionData>, now: int, users: seq<User>)
    : (r: Result<Option<User>, string>)
    ensures cookie.None? || cookie.value == "" ==> r == Success(None)
    ensures r.Failure? <==> cookie.Some? && cookie.value != "" && verify(cookie.value).None?
    ensures r.Success? && r.value.Some? ==>
      && cookie.Some? && cookie.value != ""
      && var session := verify(cookie.value).value;
      && session.user.Some?
      && session.user.value.id == Num(r.value.value.id as real)
      && !Expired(session.expires, now)
      && r.value.value in users
      && LiveWithId(r.value.value, session.user.value.id.n)
  {
    if cookie.None? || cookie.value == "" then Success(None)
    else match verify(cookie.value)
      case None => Failure("session token could not be verified")
      case Some(session) =>
        if session.user.None? || !session.user.value.id.Num? then Success(None)
        else if Expired(session.expires, now) then Success(None)
        else Success(FirstLiveUser(users, session.user.value.id.n))
  }

  /** A session whose user id is not a number, or that has expired, yields no user. */
  lemma GetUserRejects(cookie: string, verify: string -> Option<SessionData>, now: int, users: seq<User>)
    requires cookie != "" && verify(cookie).Some?
    requires var session := verify(cookie).value;
      session.user.None? || session.user.value.id.NonNum? || Expired(session.expires, now)
    ensures GetUser(Some(cookie), verify, now, users) == Success(None)
  {
  }

  /** A session whose numeric user id matches no live user yields no user. */
  lemma GetUserUnknownId(cookie: string, verify: string -> Option<SessionData>, now: int, users: seq<User>)
    requires cookie != "" && verify(cookie).Some? && verify(cookie).value.user.Some?
    requires verify(cookie).value.user.value.id.Num?
    requires forall u :: u in users ==> u.id as real != verify(cookie).value.user.value.id.n || u.deletedAt.Some?
    ensures GetUser(Some(cookie), verify, now, users) == Success(None)
  {
  }

  /**
   * An accepted session yields the first live user with its id, wherever it sits in
   * the table; an `expires` that is not a valid date never rejects a session.
   */
  lemma GetUserAccepts(cookie: string, verify: string -> Option<SessionData>, now: int, users: seq<User>)
    requires cookie != "" && verify(cookie).Some? && verify(cookie).value.user.Some?
    requires verify(cookie).value.user.value.id.Num?
    requires !Expired(verify(cookie).value.expires, now)
    ensures GetUser(Some(cookie), verify, now, users)
      == Success(FirstLiveUser(users, verify(cookie).value.user.value.id.n))
  {
  }

  /** A live user anywhere in the table whose id the session names is found. */
  lemma GetUserFindsLiveUser(cookie: string, verify: string -> Option<SessionData>, now: int, users: seq<User>, u: User)
    requires cookie != "" && verify(cookie).Some?
    requires verify(cookie).value.user == Some(SessionUser(Num(u.id as real)))
    requires !Expired(verify(cookie).value.expires, now)
    requires u in users && u.deletedAt.None?
    ensures var r := GetUser(Some(cookie), verify, now, users);
      r.Success? && r.value.Some? && r.value.value.id == u.id && r.value.value.deletedAt.None?
  {
    GetUserAccepts(cookie, verify, now, users);
    assert LiveWithId(u, u.id as real);
  }

  // ---------------------------------------------------------------------------
  // Revisions of the default terms
  // ---------------------------------------------------------------------------

  /** Revising base_rent from $40.5 to 45 keeps "$40.5" in the snippet and appends " 45" after it. */
  lemma BaseRentRevision()
    ensures RewriteTerms(LeaseData.DefaultTerms(), TermUpdate("001", "base_rent", 45.0, "45", "$40.5"))
      == [LeaseData.BaseRent.(value := 45.0, documentEdit := DocumentEdit(
            "The tenant shall pay a base rent of " + ("$40.5" + " " + "45") + " per square foot per year.", "$40.5")),
          LeaseData.LeaseTerm,
          LeaseData.RenewalTerm]
  {
    BaseRentSnippetRevision();
  }

  /** Helper: the snippet rewrite of `BaseRentRevision`. */
  lemma BaseRentSnippetRevision()
    ensures ReplaceFirst(LeaseData.BaseRentSearchText, "$40.5", "$40.5" + " " + "45")
      == "The tenant shall pay a base rent of " + ("$40.5" + " " + "45") + " per square foot per year."
  {
    LeaseData.BaseRentAnchor();
    BaseRentTemplateIsLiteral();
    ReplaceKeepsPattern(LeaseData.BaseRentSearchText, "$40.5", "45");
    Regroup("The tenant shall pay a base rent of ", "$40.5", "$40.5", "45", " per square foot per year.");
    assert "$40.5"[5..] == [];
  }

  /** Helper: "$40.5 45" holds no replacement pattern; `$4` is literal. */
  lemma BaseRentTemplateIsLiteral()
    ensures NoReplacementPatterns("$40.5" + " " + "45")
  {
  }

  /**
   * Revising lease_term from 5 to 7 with strikethrough "5" rewrites the "5" of
   * "5 years" and leaves the date "January 1, 2025" alone.
   */
  lemma LeaseTermRevision()
    ensures ReplaceFirst(LeaseData.LeaseTermSearchText, "5", "5" + " " + "7")
      == "The lease term shall be for a period of " + "5 7" + " years" + " commencing on January 1, 2025."
  {
    LeaseData.LeaseTermAnchor();
    LeaseTermTemplateIsLiteral();
    ReplaceKeepsPattern(LeaseData.LeaseTermSearchText, "5", "7");
    Regroup("The lease term shall be for a period of ", "5", "5 years", "7", " commencing on January 1, 2025.");
    assert "5 years"[1..] == " years";
  }

  /** Helper: "5 7" holds no replacement pattern. */
  lemma LeaseTermTemplateIsLiteral()
    ensures NoReplacementPatterns("5" + " " + "7")
  {
  }

  /** Helper: regrouping a revised snippet `before + q + after` where `q` starts with `was`. */
  lemma Regroup(before: string, was: string, q: string, now: string, after: string)
    requires |was| <= |q| && q[..|was|] == was
    ensures (before + q + after)[..|before|] + was + " " + now + (before + q + after)[|before| + |was|..]
      == before + (was + " " + now) + q[|was|..] + after
  {
    var s := before + q + after;
    assert s[..|before|] == before;
    assert s[|before| + |was|..] == q[|was|..] + after;
  }
}
