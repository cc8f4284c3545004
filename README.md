# Lease-term bookkeeping of lease-dynamix, modelled in Dafny

This project models the part of the lease-dynamix application that sits between
the lease-proposal store and the lease text:

- **the format rule** `getTermValue` (`lib/utils.ts`). It turns a term's value and
  unit tag into the text that appears in the lease: `$40.5`, `5 years`, or the bare
  number;
- **the term revision rewrite** inside `updateLeaseProposalTerm` (`lib/db/queries.ts`).
  Every term with the target id gets the new value and the strikethrough text. In its
  search snippet, the first occurrence of the strikethrough text becomes
  `strikethrough + " " + valueStr`, so the old text stays in place and the new one
  follows it;
- **the proposals table** and its operations: get, create-if-absent (seeded with the
  default terms), delete, and the wholesale replacement of a proposal's terms array;
- **the session checks** of `getUser`;
- **the request checks** of the proposals route (`app/api/leases/proposals/route.ts`):
  falsy required fields are answered with 400 before any store call;
- **the default terms** (`lib/data/lease-proposal.js`) as constants, with lemmas that
  connect the format rule, the strikethrough text and the search snippet.

Modules, one per source file or concern:

| file | module | models |
|---|---|---|
| `wrappers.dfy` | `Wrappers` | `Option`, `Result` |
| `js_string.dfy` | `JsString` | `String.prototype.replace` with a string pattern: first-occurrence search, and the replacement-template expansion of section 22.1.3.19.1 (GetSubstitution) of ECMA-262 |
| `utils.dfy` | `Utils` | `getTermValue` |
| `lease_types.dfy` | `LeaseTypes` | the `Term` record and the stored proposal row |
| `lease_data.dfy` | `LeaseData` | the default proposal |
| `queries.dfy` | `Queries` | the term rewrite, the `ProposalStore` class, `getUser` |
| `proposals_route.dfy` | `ProposalsRoute` | the `GET`, `DELETE` and `PATCH` handlers |

The proposals table is a class, `Queries.ProposalStore`, with one field
`proposals: map<string, seq<Term>>`. Its methods change that field. Each method's
`ensures` ties the new table to a pure function of the old one (`AfterCheck`,
`AfterDelete`, `AfterUpdate`), and the lemmas are stated about those functions. The
route handlers are methods that take the store and modify it.

Modelling choices:

- JavaScript's number-to-string conversion is the parameter `render: real -> string`.
  No arithmetic is ever done on a term value. The fixture lemmas assume only
  `render(40.5) == "40.5"` and `render(5.0) == "5"` (`LeaseData.RendersDefaults`).
- `getTermValue` checks `typeof value === "number"`, so its argument is a `JsValue`:
  either a number or any other value, given by its `String(value)` text.
- `replace` is modelled in full for a string pattern. `$$`, `$&`, `` $` `` and `$'`
  are expanded. `$1` and `$<name>` stay literal, because a string pattern has no
  capture groups. `JsString.LiteralSubstitution` proves that a template without those
  four sequences is inserted literally. A strikethrough text such as `$40.5` is such
  a template.
- `getUser` takes its inputs as parameters: the cookie value, the token verification
  as a function (`None` means it threw), the current time and the users table.
  `new Date(expires)` is the instant in milliseconds, or `None` for an invalid date.
  An invalid date gives NaN, and NaN never compares as less than now, so such a
  session is not rejected as expired.
- Three behaviours of the code differ from what the operations' names suggest. The
  model keeps the code's behaviour in each:
  - `checkLeaseProposal` returns the insert's result, not the new proposal, when it
    seeds one. The model returns the marker `CheckOutcome.Inserted`, and `GET`
    answers with it.
  - `updateLeaseProposalTerm` returns drizzle's `.returning()`: an array of the
    updated rows, which here holds the one row with that id. It does not return a
    bare term list, and `PATCH` answers with that array.
  - The stored `strikethrough` is the text the client sends. The code does not
    recompute it from the old value.

## Model

| member | source | states |
|---|---|---|
| `Utils.GetTermValue` | lib/utils.ts:8-19 | The output is the value's rendering plus exactly 1, 6 or 0 characters. For a number, stripping the unit's `$` prefix or ` years` suffix gives the rendering back. |
| `Utils.TermValueCases` | lib/utils.ts:9-18 | Unit exactly `USD/sqft/year`: `"$" + v`. Unit exactly `years`: `v + " years"`. Any other unit, or a non-number value: the bare rendering `v`. |
| `Utils.TermValueContainsRendering` | lib/utils.ts:10-16 | The rendering appears in the output: right after the `$`, or at the start. The overhead is 0, 1 or 6. |
| `Utils.TermValueInjective` | lib/utils.ts:10-16 | For a fixed unit, different renderings give different formatted values. |
| `Utils.UnitMatchIsCaseSensitive` | lib/utils.ts:10-15 | `year`, `Years` and `usd/sqft/year` fall through to the bare rendering. |
| `JsString.IndexOfFrom` | lib/db/queries.ts:225-228 | The search that `replace` does. The result is an occurrence of the pattern at or after the start, with none between the start and it. `None` only when there is no occurrence at or after the start. |
| `JsString.IndexOf` | lib/db/queries.ts:225-228 | Some index exactly when the pattern occurs. That index is an occurrence, and no earlier one exists. |
| `JsString.FirstOccurrence` | lib/db/queries.ts:225-228 | An occurrence with no earlier occurrence is the index that `replace` uses. |
| `JsString.FirstOccurrenceExtends` | lib/db/queries.ts:225-228 | A longer text that starts with the pattern and occurs at the pattern's first index is also first found there. |
| `JsString.SubstitutionPatterns` | lib/db/queries.ts:226-227 | In a replacement, `$$` becomes `$`, `$&` the matched text, `` $` `` the text before the match and `$'` the text after it. A `$` followed by any other character, a digit included, is kept literally. |
| `JsString.LiteralSubstitution` | lib/db/queries.ts:226-227 | A replacement without `$$`, `$&`, `` $` `` or `$'` is inserted literally. |
| `JsString.ReplaceFirst` | lib/db/queries.ts:225-228 | When the pattern does not occur, the text is unchanged. |
| `JsString.ReplaceAbsent` | lib/db/queries.ts:225-228 | A search text without the strikethrough text is returned unchanged. |
| `JsString.EmptyPatternInsertsAtStart` | lib/db/queries.ts:225-228 | An empty pattern matches at index 0, so the replacement goes in front of the whole text. |
| `JsString.ReplaceAt` | lib/db/queries.ts:225-228 | Where the pattern is first found at `i`, a literal replacement is spliced in at `i` in place of the pattern. |
| `JsString.ReplaceKeepsPattern` | lib/db/queries.ts:225-228 | Replacing `p` by `p + " " + v` gives prefix + `p` + `" "` + `v` + suffix. `p` stays at its index, the text grows by `1 + |v|`, and `p` is still first found at that same index. |
| `LeaseData.DefaultTerms` | lib/data/lease-proposal.js:1-47 | The seed terms: base_rent, lease_term, renewal_term. There are three of them. |
| `LeaseData.DefaultIdsDistinct` | lib/data/lease-proposal.js:5-33 | The three default ids are pairwise distinct. |
| `LeaseData.DefaultParentsResolve` | lib/data/lease-proposal.js:11-39 | Only renewal_term has a parent, and that parent is the id of another default term (lease_term). |
| `LeaseData.DefaultStrikethroughsOccur` | lib/data/lease-proposal.js:13-43 | Each default strikethrough text is found in its own search text, at indices 36, 40 and 78. |
| `LeaseData.LeaseTermFirstFiveIsTheValue` | lib/data/lease-proposal.js:28-29 | In lease_term's snippet, the first `5` is the one of `5 years`. It is not the `5` of `2025`, which is another occurrence. |
| `LeaseData.DefaultFormattedValues` | lib/data/lease-proposal.js:7-36 | The default terms format as `$40.5`, `5 years` and `5 years`. |
| `LeaseData.DefaultFormattedValuesOccur` | lib/data/lease-proposal.js:13-42 | Each default term's formatted value is found in its search text. |
| `LeaseData.DefaultStrikethroughForms` | lib/data/lease-proposal.js:15-43 | base_rent's strikethrough equals its formatted value. The two `years` terms store only the bare number. |
| `LeaseData.DefaultComparablesSorted` | lib/data/lease-proposal.js:9-38 | Every default term has a null `updated_value` and non-decreasing `comparables`. |
| `LeaseData.BaseRentAnchor` | lib/data/lease-proposal.js:13-15 | `$40.5` is first found at index 36 of base_rent's snippet. |
| `LeaseData.LeaseTermAnchor` | lib/data/lease-proposal.js:27-29 | `5` and `5 years` are first found at index 40 of lease_term's snippet. |
| `LeaseData.RenewalTermAnchor` | lib/data/lease-proposal.js:41-43 | `5` and `5 years` are first found at index 78 of renewal_term's snippet. |
| `LeaseData.LeaseTermDateHasFive` | lib/data/lease-proposal.js:28 | The date `2025` holds a second `5`, at index 76. |
| `Queries.RewriteTerm` | lib/db/queries.ts:219-233 | A non-matching term is returned as it is. A matching term gets the new value, the given strikethrough, and its snippet with the first strikethrough occurrence replaced. id, name, unit, updated_value, comparables and metadata are always kept. |
| `Queries.RewriteTerms` | lib/db/queries.ts:219-233 | Same length and order. Every term with another id is unchanged. Every term with the target id (all of them) is revised. |
| `Queries.RewriteKeepsIds` | lib/db/queries.ts:219-233 | The ids of the rewritten list are the old ids, in the same order. |
| `Queries.RewriteWithoutMatch` | lib/db/queries.ts:219-233 | When no term has the target id, the list is unchanged. |
| `Queries.RewriteKeepsAnchor` | lib/db/queries.ts:225-228 | In a matching term, the old text stays at its index and is followed by `" " + valueStr`. The rest of the snippet is kept, and the old text is still first found at the same index. |
| `Queries.RewriteWithoutAnchor` | lib/db/queries.ts:225-228 | A matching term whose snippet lacks the strikethrough keeps its snippet. |
| `Queries.AfterCheck` | lib/db/queries.ts:185-197 | The id is present afterwards. An existing id leaves the table unchanged. An absent id is added with the default terms. Every other entry is kept. |
| `Queries.AfterDelete` | lib/db/queries.ts:199-201 | Exactly the given id is removed, and every other entry is kept. |
| `Queries.AfterUpdate` | lib/db/queries.ts:216-242 | The key set is unchanged. An unknown id changes nothing. A known id maps to exactly the rewritten list, and every other entry is kept. |
| `Queries.CheckIdempotent` | lib/db/queries.ts:185-197 | Create-if-absent twice gives the same table as once. |
| `Queries.ProposalStore.GetLeaseProposal` | lib/db/queries.ts:179-183 | The stored row when the id is present, otherwise nothing. The table is not changed. |
| `Queries.ProposalStore.CheckLeaseProposal` | lib/db/queries.ts:185-197 | The new table is `AfterCheck`. Absent id: it returns the insert marker. Present id: it returns the stored row. |
| `Queries.ProposalStore.DeleteLeaseProposal` | lib/db/queries.ts:199-201 | The new table is `AfterDelete`. |
| `Queries.ProposalStore.UpdateLeaseProposalTerm` | lib/db/queries.ts:203-243 | Unknown proposal: returns null and writes nothing. Otherwise the new table is `AfterUpdate`, and it returns `.returning()`'s array: exactly the one row, with the rewritten terms. |
| `Queries.FirstLiveUser` | lib/db/queries.ts:36-44 | The first row with the session's id and no `deletedAt`, or none when no row is like that. |
| `Queries.GetUser` | lib/db/queries.ts:17-47 | A missing or empty cookie gives null. A failed verification propagates as an error. A user is returned only for a numeric id that has not expired and belongs to a live row with that id. |
| `Queries.GetUserRejects` | lib/db/queries.ts:24-34 | No `user`, a non-number `user.id`, or `expires` before now: null. |
| `Queries.GetUserUnknownId` | lib/db/queries.ts:36-44 | No non-deleted user with that id: null. |
| `Queries.GetUserAccepts` | lib/db/queries.ts:17-47 | A numeric id and a session that is not expired, or whose `expires` is an invalid date, give `FirstLiveUser` of the whole table, for any users table. |
| `Queries.GetUserFindsLiveUser` | lib/db/queries.ts:36-46 | When a live row with the session's id sits anywhere in the table, a live user with that id is returned. |
| `Queries.BaseRentRevision` | lib/db/queries.ts:219-233 | Revising the default base_rent to 45 with strikethrough `$40.5` gives the snippet `... rent of $40.5 45 per square foot ...`. The other two terms are untouched. |
| `Queries.LeaseTermRevision` | lib/db/queries.ts:225-228 | Revising lease_term's snippet with strikethrough `5` and value `7` gives `... period of 5 7 years commencing on January 1, 2025.`. The date is untouched. |
| `ProposalsRoute.RequireProposalId` | app/api/leases/proposals/route.ts:10-17 | Accepted exactly when the parameter is present and non-empty. Otherwise the answer is 400 "Proposal ID is required". |
| `ProposalsRoute.ValidatePatch` | app/api/leases/proposals/route.ts:41-49 | Accepted exactly when all five fields are truthy: `value` non-zero, strings non-empty. The fields are forwarded unchanged. Otherwise the answer is 400 "Missing required fields". |
| `ProposalsRoute.AcceptedPatchAvoidsEmptyPattern` | app/api/leases/proposals/route.ts:44-58 | An accepted PATCH has a non-empty strikethrough. A snippet that does not start with that text keeps its first character, and an empty snippet stays empty. The excluded empty pattern would insert the replacement at index 0. |
| `ProposalsRoute.ZeroValueRefused` | app/api/leases/proposals/route.ts:44-49 | `value` 0 is refused even when every other field is present. |
| `ProposalsRoute.Get` | app/api/leases/proposals/route.ts:8-22 | No id: 400, and the table is untouched. Otherwise the new table is `AfterCheck`, so the proposal exists afterwards, and the answer is 200 with `checkLeaseProposal`'s result: the insert marker for a new id, or exactly the stored row for an existing one. |
| `ProposalsRoute.Delete` | app/api/leases/proposals/route.ts:24-38 | No id: 400, and nothing is deleted. Otherwise the new table is `AfterDelete`, and the answer is 200 "Proposal deleted". |
| `ProposalsRoute.Patch` | app/api/leases/proposals/route.ts:40-59 | Refused body: 400, and no update. Accepted body: the new table is `AfterUpdate` of the forwarded fields, and the answer is the update's result: the one-row array, or null for an unknown proposal. |

## Left out

- Number rendering (JavaScript's Number::toString) and floating point: values are
  exact `real`s rendered by a parameter. Infinities are not modelled. `JSON.parse`
  reads a PATCH `"value": 1e400` as Infinity, which is truthy and passes the check,
  and the model cannot express that request. `-0` is modelled as `0`, and both are
  refused. NaN cannot come from a JSON body.
- Strings are sequences of Unicode scalar values, while JavaScript strings are UTF-16
  code units. For well-formed text the first occurrence and the `replace` result
  agree. The default snippets are ASCII, so the indices 36, 40 and 78 are the same
  in both. A lone surrogate, which a JSON body can carry as `"\ud800"`, cannot be
  represented.
- PATCH body fields of a type other than the declared one (for example a number sent
  as `termId`) are not modelled. An absent or `null` field is `None`. The route does
  not type-check the body.
- `request.json()` failing on a malformed body, and any exception thrown by the
  database, are not modelled. The handlers then end in a 500 response.
- `updateLeaseProposalTerm` reads the proposal and then writes it, as two separate
  queries, and `checkLeaseProposal` likewise looks the id up and then inserts. The
  model runs each as one step and does not model a concurrent request between them.
  Two concurrent GETs for the same new id can both insert.
- The table is a map, so a proposal id names at most one row. The table's schema is
  not part of this model. Handled one at a time, requests cannot create rows with
  duplicate ids through `checkLeaseProposal`, which inserts only when the id is
  absent. With duplicates, `.returning()` would give more than one row.
- `createLeaseProposal` (lib/db/queries.ts:172-177) is a plain insert that no route
  uses. Without the schema its behaviour on a duplicate id is unknown, so it is left
  out.
- The timestamps `createdAt` and `updatedAt`, the driver's insert result, and the
  remaining queries are not modelled. The remaining queries are teams, subscriptions,
  activity logs and files: plain reads and writes with no logic.
- `getUser`: reading the cookie and verifying the JWT (jose) are external calls and
  become parameters. The user row keeps only `id`, `email` and `deletedAt`. The
  users table's row order, which decides `.limit(1)`, is taken as the sequence order.
- `cn` (lib/utils.ts:4-6) is a wrapper over clsx and tailwind-merge.
- The document annotation and the strikethrough rendering in the editor are not
  modelled. components/shared/editor.tsx only passes HTML to and from Quill. The
  term-annotation code over the document is not part of this model. Authentication
  (lib/auth/session.ts, app/api/auth/route.ts), file storage and the UI components
  are external calls or UI, and are left out too.
