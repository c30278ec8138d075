/** `identifyContact` (src/services/contactService.ts lines 5-69) over an
    in-memory contact store that stands for the database table. */
module ContactService {
  import opened Wrappers
  import opened Types
  import opened Collections
  import opened Matcher
  import opened MergePolicy
  import opened Consolidator

  /** The arguments of the `update_and_merge_contacts` call. */
  datatype MergeRequest = MergeRequest(
    primaryId: int,
    contactIds: seq<int>,
    newEmail: Option<string>,
    newPhoneNumber: Option<string>)

  /** What the merge transaction leaves behind: the new table and id
      counter with the contacts it returns, or a failure with no effect. */
  datatype MergeOutcome =
    | Merged(store: seq<Contact>, nextId: int, data: seq<Contact>)
    | MergeFailed

  /** The transaction's body is not part of this model: any function from
      the table, its id counter and the call's arguments to an outcome. */
  type MergeTransaction = (seq<Contact>, int, MergeRequest) -> MergeOutcome

  /** An assumption about the table's schema, which is not part of this
      model: its ids are a key handed out by a sequence and its linked ids
      refer to stored rows, so any transaction that commits leaves a valid
      table and never moves the id counter back. Nothing is said about
      which rows the transaction writes. */
  ghost predicate CommitsValidTable(rpc: MergeTransaction) {
    forall s, n, call :: StoreValid(s, n) && rpc(s, n, call).Merged? ==>
      StoreValid(rpc(s, n, call).store, rpc(s, n, call).nextId) && n <= rpc(s, n, call).nextId
  }

  /** Ids are distinct, positive and below the next id the table will hand
      out, and every linked id names a stored contact. */
  predicate StoreValid(store: seq<Contact>, nextId: int) {
    && 0 < nextId
    && (forall i, j :: 0 <= i < j < |store| ==> store[i].id != store[j].id)
    && (forall c :: c in store ==> 0 < c.id < nextId)
    && (forall c :: c in store && c.linkedId.Some? ==> exists d :: d in store && d.id == c.linkedId.value)
  }

  /** The row the insert of lines 20-28 creates: the request's identifiers,
      no link, marked primary. */
  function NewPrimary(id: int, req: IdentifyRequest, now: int): Contact {
    Contact(id, req.phoneNumber, req.email, None, Primary, now)
  }

  class ContactStore {
    var contacts: seq<Contact>
    var nextId: int

    ghost predicate Valid()
      reads this
    {
      StoreValid(contacts, nextId)
    }

    constructor ()
      ensures Valid()
      ensures contacts == [] && nextId == 1
    {
      contacts := [];
      nextId := 1;
    }

    /** The insert of a new primary: the table assigns the next id. */
    method CreatePrimary(req: IdentifyRequest, now: int) returns (c: Contact)
      modifies this
      ensures c == NewPrimary(old(nextId), req, now)
      ensures contacts == old(contacts) + [c]
      ensures nextId == old(nextId) + 1
      ensures old(Valid()) ==> Valid()
    {
      c := NewPrimary(nextId, req, now);
      CreateKeepsValid(contacts, nextId, req, now);
      contacts := contacts + [c];
      nextId := nextId + 1;
    }

    /** `handleUpdateAndMerge`: one call of the merge transaction. */
    method HandleUpdateAndMerge(primaryContact: Contact, relatedContacts: seq<Contact>,
                                req: IdentifyRequest, rpc: MergeTransaction)
      returns (result: Result<seq<Contact>, Error>)
      requires CommitsValidTable(rpc)
      modifies this
      ensures old(Valid()) ==> Valid()
      ensures var call := MergeRequest(primaryContact.id, Ids(relatedContacts), req.email, req.phoneNumber);
        var outcome := rpc(old(contacts), old(nextId), call);
        if outcome.Merged? then
          contacts == outcome.store && nextId == outcome.nextId && result == Ok(outcome.data)
        else
          contacts == old(contacts) && nextId == old(nextId) && result == Err(MergeTransactionFailed)
    {
      var call := MergeRequest(primaryContact.id, Ids(relatedContacts), req.email, req.phoneNumber);
      var outcome := rpc(contacts, nextId, call);
      match outcome
      case Merged(s, n, data) =>
        contacts, nextId := s, n;
        result := Ok(data);
      case MergeFailed =>
        result := Err(MergeTransactionFailed);
    }

    /** `identifyContact`. With no direct match it inserts one primary and
      reports it alone; otherwise it reports the closure as it is when no
      write is needed, and what the merge transaction returns when one is. */
    method IdentifyContact(req: IdentifyRequest, now: int, rpc: MergeTransaction)
      returns (r: Result<IdentifyResponse, Error>)
      requires HasIdentifier(req)
      requires CommitsValidTable(rpc)
      modifies this
      ensures old(Valid()) ==> Valid()
      ensures var matches := DirectMatches(old(contacts), req);
        if matches == [] then
          var c := NewPrimary(old(nextId), req, now);
          && contacts == old(contacts) + [c]
          && nextId == old(nextId) + 1
          && r == Consolidate([c])
        else
          var related := Closure(old(contacts), ChainIds(matches));
          && |related| > 0
          && if !NeedsUpdate(related, req) then
               contacts == old(contacts) && nextId == old(nextId) && r == Consolidate(related)
             else
               var call := MergeRequest(related[0].id, Ids(related), req.email, req.phoneNumber);
               var outcome := rpc(old(contacts), old(nextId), call);
               if outcome.Merged? then
                 contacts == outcome.store && nextId == outcome.nextId && r == Consolidate(outcome.data)
               else
                 contacts == old(contacts) && nextId == old(nextId) && r == Err(MergeTransactionFailed)
    {
      var matchingContacts := DirectMatches(contacts, req);
      if |matchingContacts| == 0 {
        var newContact := CreatePrimary(req, now);
        r := BuildResponse([newContact]);
        return;
      }
      var primaryIds := ChainIds(matchingContacts);
      var allRelatedContacts := Closure(contacts, primaryIds);
      ClosureContainsMatches(contacts, req);
      var primaryContact := allRelatedContacts[0];
      var needsUpdate := ScanForOtherPrimary(allRelatedContacts, primaryContact.id);
      var hasNewEmail := HasNewEmail(allRelatedContacts, req);
      var hasNewPhoneNumber := HasNewPhoneNumber(allRelatedContacts, req);
      if hasNewEmail || hasNewPhoneNumber {
        needsUpdate := true;
      }
      if needsUpdate {
        var updatedContacts := HandleUpdateAndMerge(primaryContact, allRelatedContacts, req, rpc);
        if updatedContacts.Ok? {
          r := BuildResponse(updatedContacts.value);
        } else {
          r := Err(updatedContacts.error);
        }
        return;
      }
      r := BuildResponse(allRelatedContacts);
    }
  }

  /** The guarantee can be met: a transaction that always fails, and one
      that commits the table as it found it, both satisfy it. */
  lemma TransactionsThatCommitValidTables()
    ensures CommitsValidTable((s, n, call) => MergeFailed)
    ensures CommitsValidTable((s, n, call) => Merged(s, n, s))
  {
  }

  /** Inserting a new primary under the next id keeps the table valid. */
  lemma CreateKeepsValid(store: seq<Contact>, nextId: int, req: IdentifyRequest, now: int)
    ensures StoreValid(store, nextId) ==> StoreValid(store + [NewPrimary(nextId, req, now)], nextId + 1)
  {
    if !StoreValid(store, nextId) { return; }
    var c := NewPrimary(nextId, req, now);
    var s := store + [c];
    forall i, j | 0 <= i < j < |s| ensures s[i].id != s[j].id {
      assert s[i] in store;
      if j < |store| {
        assert s[j] == store[j];
      }
    }
    forall x | x in s && x.linkedId.Some? ensures exists d :: d in s && d.id == x.linkedId.value {
      assert x in store;
      var d :| d in store && d.id == x.linkedId.value;
      assert d in s;
    }
  }

  /** The fresh-primary path reports the new contact alone: its id, its own
      truthy email and phone number, and no secondary ids. This holds for
      any lone contact, primary or not. */
  lemma FreshPrimaryResponse(c: Contact)
    ensures Consolidate([c]) == Ok(IdentifyResponse(ConsolidatedContact(
      c.id,
      if Truthy(c.email) then [c.email.value] else [],
      if Truthy(c.phoneNumber) then [c.phoneNumber.value] else [],
      [])))
  {
    assert PrimaryOf([c]) == c;
    assert [c] + [c] == [c, c];
    IdsSnoc([], c);
    assert [] + [c] == [c];
    EmailsTwice(c);
    PhoneNumbersTwice(c);
  }

  lemma EmailsTwice(c: Contact)
    ensures Dedup(TruthyValues(Emails([c, c]))) == if Truthy(c.email) then [c.email.value] else []
  {
    assert Emails([c, c]) == [c.email] + [c.email];
    assert [c.email] == [] + [c.email];
    TruthySnoc([], c.email);
    TruthySnoc([c.email], c.email);
    if Truthy(c.email) {
      var v := c.email.value;
      assert [v, v] == [v] + [v] && [v] == [] + [v];
      DedupSnoc([], v);
      DedupSnoc([v], v);
    }
  }

  lemma PhoneNumbersTwice(c: Contact)
    ensures Dedup(TruthyValues(PhoneNumbers([c, c]))) == if Truthy(c.phoneNumber) then [c.phoneNumber.value] else []
  {
    assert PhoneNumbers([c, c]) == [c.phoneNumber] + [c.phoneNumber];
    assert [c.phoneNumber] == [] + [c.phoneNumber];
    TruthySnoc([], c.phoneNumber);
    TruthySnoc([c.phoneNumber], c.phoneNumber);
    if Truthy(c.phoneNumber) {
      var v := c.phoneNumber.value;
      assert [v, v] == [v] + [v] && [v] == [] + [v];
      DedupSnoc([], v);
      DedupSnoc([v], v);
    }
  }

  /** Asking again with the identifiers of a contact that was just created
      finds that contact alone and needs no write, so the second call
      changes nothing and reports what the first did. */
  lemma IdentifyAgainAfterCreate(store: seq<Contact>, nextId: int, req: IdentifyRequest, now: int)
    requires StoreValid(store, nextId)
    requires HasIdentifier(req)
    requires DirectMatches(store, req) == []
    ensures var c := NewPrimary(nextId, req, now);
      var store' := store + [c];
      var matches := DirectMatches(store', req);
      && matches == [c]
      && Closure(store', ChainIds(matches)) == [c]
      && !NeedsUpdate([c], req)
  {
    var c := NewPrimary(nextId, req, now);
    var store' := store + [c];
    CreatedIsOnlyMatch(store, nextId, req, now);
    var ids := ChainIds(DirectMatches(store', req));
    assert ids == {nextId};
    CreatedChainIsAlone(store, nextId, req, now);
    assert Closure(store', ids) == [c];
    CreatedNeedsNoUpdate(c, req);
  }

  /** A contact alone in its group, carrying the request's identifiers. */
  lemma CreatedNeedsNoUpdate(c: Contact, req: IdentifyRequest)
    requires c.email == req.email && c.phoneNumber == req.phoneNumber
    ensures !NeedsUpdate([c], req)
  {
    assert c in [c];
  }

  lemma CreatedIsOnlyMatch(store: seq<Contact>, nextId: int, req: IdentifyRequest, now: int)
    requires HasIdentifier(req)
    requires DirectMatches(store, req) == []
    ensures var c := NewPrimary(nextId, req, now);
      var matches := DirectMatches(store + [c], req);
      matches == [c] && ChainIds(matches) == {nextId}
  {
    var c := NewPrimary(nextId, req, now);
    DirectMatchesMembers(store, req);
    DirectMatchesOfOnlyMember(store, c, req);
    assert c in [c];
    assert ChainId(c) == nextId;
  }

  /** In a valid table no contact has, or links to, the next id. */
  lemma NothingLinksToNextId(store: seq<Contact>, nextId: int)
    requires StoreValid(store, nextId)
    ensures forall x :: x in store ==> !InChain(x, {nextId})
  {
    forall x | x in store ensures !InChain(x, {nextId}) {
      if x.linkedId.Some? {
        var d :| d in store && d.id == x.linkedId.value;
      }
    }
  }

  lemma CreatedChainIsAlone(store: seq<Contact>, nextId: int, req: IdentifyRequest, now: int)
    requires StoreValid(store, nextId)
    ensures var c := NewPrimary(nextId, req, now);
      Closure(store + [c], {nextId}) == [c]
  {
    NothingLinksToNextId(store, nextId);
    ClosureOfOnlyMember(store, NewPrimary(nextId, req, now), {nextId});
  }
}
