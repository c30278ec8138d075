/** The records of src/types.ts. `updatedAt` and `deletedAt` are not read by
    the reconciliation logic and are not part of the model; `createdAt` is
    only ever compared, so an integer time stamp stands for the string. */
module Types {
  import opened Wrappers

  datatype LinkPrecedence = Primary | Secondary

  datatype Contact = Contact(
    id: int,
    phoneNumber: Option<string>,
    email: Option<string>,
    linkedId: Option<int>,
    linkPrecedence: LinkPrecedence,
    createdAt: int)

  /** The request body; a field absent from the JSON body is `None`. */
  datatype IdentifyRequest = IdentifyRequest(email: Option<string>, phoneNumber: Option<string>)

  datatype ConsolidatedContact = ConsolidatedContact(
    primaryContactId: int,
    emails: seq<string>,
    phoneNumbers: seq<string>,
    secondaryContactIds: seq<int>)

  datatype IdentifyResponse = IdentifyResponse(contact: ConsolidatedContact)

  /** The errors the service throws: an empty contact list handed to the
      consolidator, and a failed merge transaction. */
  datatype Error = EmptyContactSet | MergeTransactionFailed

  /** JavaScript truthiness of a nullable string: `null`, `undefined` and
      the empty string are all falsy. */
  predicate Truthy(s: Option<string>) {
    s.Some? && s.value != ""
  }

  /** The inbound guard of the `/identify` route: at least one identifier
      must be truthy. */
  predicate HasIdentifier(req: IdentifyRequest) {
    Truthy(req.email) || Truthy(req.phoneNumber)
  }
}
