/**
 * The default proposal of lib/data/lease-proposal.js: the three terms a new
 * proposal is seeded with, and the facts about them that the format rule and
 * the term rewrite rely on.
 */
module LeaseData {
  import opened Wrappers
  import opened JsString
  import opened Utils
  import opened LeaseTypes

  // The search texts are written as three pieces (before the value text, the value
  // text, after it) so that the lemmas below can see where the value text sits.
  const BaseRentSearchText: string :=
    "The tenant shall pay a base rent of " + "$40.5" + " per square foot per year."
  const LeaseTermSearchText: string :=
    "The lease term shall be for a period of " + "5 years" + " commencing on January 1, 2025."
  const RenewalTermSearchText: string :=
    "The tenant shall have the option to renew the lease for an additional term of " + "5 years" + " upon written notice."

  const BaseRent: Term := Term(
    "base_rent", "Base Rent", 40.5, "USD/sqft/year", None,
    [39.0, 40.0, 40.5, 41.0, 42.0],
    Metadata("Financial", None),
    DocumentEdit(BaseRentSearchText, "$40.5"))

  const LeaseTerm: Term := Term(
    "lease_term", "Lease Term", 5.0, "years", None,
    [3.0, 5.0, 5.0, 5.0, 7.0, 7.0, 10.0],
    Metadata("Duration", None),
    DocumentEdit(LeaseTermSearchText, "5"))

  const RenewalTerm: Term := Term(
    "renewal_term", "Renewal Term", 5.0, "years", None,
    [1.0, 3.0, 3.0, 5.0, 5.0, 5.0, 7.0],
    Metadata("Duration", Some("lease_term")),
    DocumentEdit(RenewalTermSearchText, "5"))

  /** The default proposal, `proposal_id` "001". */
  const DefaultProposal: Proposal := Proposal("001", [BaseRent, LeaseTerm, RenewalTerm])

  /** The terms a new proposal is seeded with. */
  function DefaultTerms(): (terms: seq<Term>)
    ensures |terms| == 3
  {
    DefaultProposal.terms
  }

  /** `render` agrees with JavaScript on the two numbers the defaults hold. */
  predicate RendersDefaults(render: real -> string) {
    render(40.5) == "40.5" && render(5.0) == "5"
  }

  /** The three default ids are pairwise distinct. */
  lemma DefaultIdsDistinct()
    ensures forall i, j :: 0 <= i < j < |DefaultTerms()| ==> DefaultTerms()[i].id != DefaultTerms()[j].id
  {
  }

  /** Every non-null parent names the id of another default term; only renewal_term has one. */
  lemma DefaultParentsResolve()
    ensures forall t :: t in DefaultTerms() && t.metadata.parent.Some? ==>
      exists u :: u in DefaultTerms() && u != t && u.id == t.metadata.parent.value
    ensures forall t :: t in DefaultTerms() && t.metadata.parent.Some? ==> t == RenewalTerm
  {
    assert LeaseTerm in DefaultTerms();
  }

  /** Each default term's strikethrough text occurs in its own search text, at these indices. */
  lemma DefaultStrikethroughsOccur()
    ensures IndexOf(BaseRent.documentEdit.searchText, BaseRent.documentEdit.strikethrough) == Some(36)
    ensures IndexOf(LeaseTerm.documentEdit.searchText, LeaseTerm.documentEdit.strikethrough) == Some(40)
    ensures IndexOf(RenewalTerm.documentEdit.searchText, RenewalTerm.documentEdit.strikethrough) == Some(78)
  {
    BaseRentAnchor();
    LeaseTermAnchor();
    RenewalTermAnchor();
  }

  /**
   * In lease_term's search text the first "5" is the one of "5 years", not the one
   * of the year "2025", so a rewrite of "5" touches the term value and not the date.
   */
  lemma LeaseTermFirstFiveIsTheValue()
    ensures IndexOf(LeaseTerm.documentEdit.searchText, "5") == IndexOf(LeaseTerm.documentEdit.searchText, "5 years")
    ensures OccursAt(LeaseTerm.documentEdit.searchText, "5", 76)
  {
    LeaseTermAnchor();
    LeaseTermDateHasFive();
  }

  /** With JavaScript's rendering of 40.5 and 5, the default terms format as "$40.5", "5 years", "5 years". */
  lemma DefaultFormattedValues(render: real -> string)
    requires RendersDefaults(render)
    ensures GetTermValue(render, Num(BaseRent.value), BaseRent.unit) == "$40.5"
    ensures GetTermValue(render, Num(LeaseTerm.value), LeaseTerm.unit) == "5 years"
    ensures GetTermValue(render, Num(RenewalTerm.value), RenewalTerm.unit) == "5 years"
  {
    assert "$" + "40.5" == "$40.5";
    assert "5" + " years" == "5 years";
  }

  /** The formatted value of each default term is found in that term's search text. */
  lemma DefaultFormattedValuesOccur(render: real -> string)
    requires RendersDefaults(render)
    ensures forall t :: t in DefaultTerms() ==>
      IndexOf(t.documentEdit.searchText, GetTermValue(render, Num(t.value), t.unit)).Some?
  {
    DefaultFormattedValues(render);
    forall t | t in DefaultTerms()
      ensures IndexOf(t.documentEdit.searchText, GetTermValue(render, Num(t.value), t.unit)).Some?
    {
      if t == BaseRent {
        BaseRentAnchor();
      } else if t == LeaseTerm {
        LeaseTermAnchor();
      } else {
        assert t == RenewalTerm;
        RenewalTermAnchor();
      }
    }
  }

  /**
   * base_rent stores its whole formatted value as strikethrough; the two duration
   * terms store only the bare number, without " years".
   */
  lemma DefaultStrikethroughForms(render: real -> string)
    requires RendersDefaults(render)
    ensures BaseRent.documentEdit.strikethrough == GetTermValue(render, Num(BaseRent.value), BaseRent.unit)
    ensures LeaseTerm.documentEdit.strikethrough == render(LeaseTerm.value)
    ensures LeaseTerm.documentEdit.strikethrough != GetTermValue(render, Num(LeaseTerm.value), LeaseTerm.unit)
    ensures RenewalTerm.documentEdit.strikethrough == render(RenewalTerm.value)
    ensures RenewalTerm.documentEdit.strikethrough != GetTermValue(render, Num(RenewalTerm.value), RenewalTerm.unit)
  {
  }

  /** No default term has an updated value yet, and every comparables list is non-decreasing. */
  lemma DefaultComparablesSorted()
    ensures forall t :: t in DefaultTerms() ==> t.updatedValue.None?
    ensures forall t, i, j :: t in DefaultTerms() && 0 <= i <= j < |t.comparables| ==>
      t.comparables[i] <= t.comparables[j]
  {
  }

  /** Where base_rent's value text is first found in its search text. */
  lemma BaseRentAnchor()
    ensures IndexOf(BaseRentSearchText, "$40.5") == Some(36)
  {
    BaseRentPrefix();
    FirstAfter("The tenant shall pay a base rent of ", "$40.5", "$40.5", " per square foot per year.");
  }

  /** Where lease_term's value text is first found in its search text. */
  lemma LeaseTermAnchor()
    ensures IndexOf(LeaseTermSearchText, "5") == Some(40)
    ensures IndexOf(LeaseTermSearchText, "5 years") == Some(40)
  {
    LeaseTermPrefix();
    FirstAfter("The lease term shall be for a period of ", "5", "5 years", " commencing on January 1, 2025.");
  }

  /** Where renewal_term's value text is first found in its search text. */
  lemma RenewalTermAnchor()
    ensures IndexOf(RenewalTermSearchText, "5") == Some(78)
    ensures IndexOf(RenewalTermSearchText, "5 years") == Some(78)
  {
    RenewalTermPrefix();
    FirstAfter("The tenant shall have the option to renew the lease for an additional term of ", "5", "5 years",
      " upon written notice.");
  }

  /** The year "2025" of lease_term's search text holds a second "5", at index 76. */
  lemma LeaseTermDateHasFive()
    ensures OccursAt(LeaseTermSearchText, "5", 76)
  {
    assert LeaseTermSearchText[76] == " commencing on January 1, 2025."[29] == '5';
  }

  lemma BaseRentPrefix()
    ensures '$' !in "The tenant shall pay a base rent of "
  {
  }

  lemma LeaseTermPrefix()
    ensures '5' !in "The lease term shall be for a period of "
  {
    assert "The lease term shall be for a period of " == "The lease term shall " + "be for a period of ";
    NotInEither('5', "The lease term shall ", "be for a period of ");
  }

  lemma RenewalTermPrefix()
    ensures '5' !in "The tenant shall have the option to renew the lease for an additional term of "
  {
    RenewalPrefixSplit();
    NotInEither('5', "The tenant shall have the option to ", "renew the lease for an additional term of ");
  }

  lemma RenewalPrefixSplit()
    ensures "The tenant shall have the option to renew the lease for an additional term of " ==
      "The tenant shall have the option to " + "renew the lease for an additional term of "
  {
  }

  lemma NotInEither(c: char, a: string, b: string)
    requires c !in a && c !in b
    ensures c !in a + b
  {
  }

  /**
   * Helper: in `prefix + q + rest`, where `q` starts with `p` and `prefix` lacks `p`'s
   * first character, both `p` and `q` are first found right after `prefix`.
   */
  lemma FirstAfter(prefix: string, p: string, q: string, rest: string)
    requires 0 < |p| <= |q| && q[..|p|] == p && p[0] !in prefix
    ensures IndexOf(prefix + q + rest, p) == Some(|prefix|)
    ensures IndexOf(prefix + q + rest, q) == Some(|prefix|)
  {
    var s := prefix + q + rest;
    assert OccursAt(s, q, |prefix|) by {
      assert s[|prefix|..|prefix| + |q|] == q;
    }
    assert OccursAt(s, p, |prefix|) by {
      assert s[|prefix|..|prefix| + |p|] == q[..|p|];
    }
    forall j | 0 <= j < |prefix| ensures !OccursAt(s, p, j) && !OccursAt(s, q, j) {
      assert s[j] == prefix[j];
    }
    FirstOccurrence(s, p, |prefix|);
    FirstOccurrence(s, q, |prefix|);
  }
}
