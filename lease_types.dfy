/** The record shapes of lib/types/lease-proposals.ts. */
module LeaseTypes {
  import opened Wrappers

  /** Classification of a term and an optional reference to another term's id. */
  datatype Metadata = Metadata(category: string, parent: Option<string>)

  /** The snippet that anchors a term in the document and the last superseded value text. */
  datatype DocumentEdit = DocumentEdit(searchText: string, strikethrough: string)

  /** One negotiable lease clause; `value` is a JavaScript number. */
  datatype Term = Term(
    id: string,
    name: string,
    value: real,
    unit: string,
    updatedValue: Option<real>,
    comparables: seq<real>,
    metadata: Metadata,
    documentEdit: DocumentEdit)

  /** A stored proposal row: its id and its ordered terms. */
  datatype Proposal = Proposal(proposalId: string, terms: seq<Term>)

  /** The ids of a term list, in order. */
  function Ids(terms: seq<Term>): (ids: seq<string>)
    ensures |ids| == |terms|
    ensures forall i :: 0 <= i < |terms| ==> ids[i] == terms[i].id
  {
    seq(|terms|, i requires 0 <= i < |terms| => terms[i].id)
  }
}
