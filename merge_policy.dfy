/** The decision of `identifyContact` whether the related contacts must be
    written (src/services/contactService.ts lines 47-61). */
module MergePolicy {
  import opened Wrappers
  import opened Types

  /** Some related contact other than the reference primary is marked
      `primary`; contacts are told apart by id, as in the source. */
  predicate OtherPrimary(related: seq<Contact>, primaryId: int) {
    exists c :: c in related && c.linkPrecedence == Primary && c.id != primaryId
  }

  /** The flag loop: `needsUpdate` is raised by any related primary whose id
      is not the reference primary's. */
  method ScanForOtherPrimary(related: seq<Contact>, primaryId: int) returns (needsUpdate: bool)
    ensures needsUpdate <==> OtherPrimary(related, primaryId)
  {
    needsUpdate := false;
    for i := 0 to |related|
      invariant needsUpdate <==> OtherPrimary(related[..i], primaryId)
    {
      assert related[..i + 1] == related[..i] + [related[i]];
      if related[i].linkPrecedence == Primary && related[i].id != primaryId {
        needsUpdate := true;
      }
    }
    assert related[..|related|] == related;
  }

  /** `email && !allRelatedContacts.some(c => c.email === email)` */
  predicate HasNewEmail(related: seq<Contact>, req: IdentifyRequest) {
    Truthy(req.email) && forall c :: c in related ==> c.email != req.email
  }

  /** `phoneNumber && !allRelatedContacts.some(c => c.phoneNumber === phoneNumber)` */
  predicate HasNewPhoneNumber(related: seq<Contact>, req: IdentifyRequest) {
    Truthy(req.phoneNumber) && forall c :: c in related ==> c.phoneNumber != req.phoneNumber
  }

  /** The final value of `needsUpdate`, with `allRelatedContacts[0]` as the
      reference primary. */
  predicate NeedsUpdate(related: seq<Contact>, req: IdentifyRequest)
    requires |related| > 0
  {
    OtherPrimary(related, related[0].id) || HasNewEmail(related, req) || HasNewPhoneNumber(related, req)
  }

  /** No write is needed exactly when every related primary is the oldest
      contact and the group already carries each truthy identifier of the
      request. */
  lemma NoUpdateIff(related: seq<Contact>, req: IdentifyRequest)
    requires |related| > 0
    ensures !NeedsUpdate(related, req) <==>
      && (forall i :: 0 <= i < |related| && related[i].linkPrecedence == Primary ==> related[i].id == related[0].id)
      && (Truthy(req.email) ==> exists i :: 0 <= i < |related| && related[i].email == req.email)
      && (Truthy(req.phoneNumber) ==> exists i :: 0 <= i < |related| && related[i].phoneNumber == req.phoneNumber)
  {
    if !NeedsUpdate(related, req) {
      if Truthy(req.email) {
        var c :| c in related && c.email == req.email;
      }
      if Truthy(req.phoneNumber) {
        var c :| c in related && c.phoneNumber == req.phoneNumber;
      }
    }
  }

  /** When the oldest related contact is itself a primary, the primary test
      fires exactly when two contacts with different ids are both marked
      primary, that is, when the group spans two chains. */
  lemma OtherPrimaryIffTwoPrimaries(related: seq<Contact>)
    requires |related| > 0 && related[0].linkPrecedence == Primary
    ensures OtherPrimary(related, related[0].id) <==>
      exists i, j :: 0 <= i < j < |related| && related[i].linkPrecedence == Primary
        && related[j].linkPrecedence == Primary && related[i].id != related[j].id
  {
    if OtherPrimary(related, related[0].id) {
      var c :| c in related && c.linkPrecedence == Primary && c.id != related[0].id;
      var j :| 0 <= j < |related| && related[j] == c;
      assert 0 < j;
    }
    if exists i, j :: 0 <= i < j < |related| && related[i].linkPrecedence == Primary
        && related[j].linkPrecedence == Primary && related[i].id != related[j].id {
      var i, j :| 0 <= i < j < |related| && related[i].linkPrecedence == Primary
        && related[j].linkPrecedence == Primary && related[i].id != related[j].id;
      if related[i].id != related[0].id {
        assert related[i] in related;
      } else {
        assert related[j] in related;
      }
    }
  }

  /** The reverse does not hold without that assumption: a single primary
      behind an older secondary also raises the flag. */
  lemma OtherPrimaryWithOnePrimary()
    ensures var older := Contact(2, None, Some("a@x.com"), Some(1), Secondary, 0);
      var primary := Contact(3, None, Some("b@x.com"), None, Primary, 1);
      OtherPrimary([older, primary], older.id)
  {
    var primary := Contact(3, None, Some("b@x.com"), None, Primary, 1);
    assert primary in [Contact(2, None, Some("a@x.com"), Some(1), Secondary, 0), primary];
  }
}
