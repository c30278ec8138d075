/** `buildResponse` (src/services/contactService.ts lines 97-128): the
    consolidated view of a list of contacts. */
module Consolidator {
  import opened Wrappers
  import opened Types
  import opened Collections

  /** `contacts.find(c => c.linkPrecedence === 'primary')`, as a position. */
  function FirstPrimaryIndex(cs: seq<Contact>): (r: Option<nat>)
    ensures r.Some? ==> r.value < |cs| && cs[r.value].linkPrecedence == Primary
    ensures r.Some? ==> forall k :: 0 <= k < r.value ==> cs[k].linkPrecedence != Primary
    ensures r.None? ==> forall k :: 0 <= k < |cs| ==> cs[k].linkPrecedence != Primary
  {
    if |cs| == 0 then None
    else if cs[0].linkPrecedence == Primary then Some(0)
    else match FirstPrimaryIndex(cs[1..])
      case Some(k) => Some(k + 1)
      case None => None
  }

  /** `contacts.find(...) || contacts[0]`: a found contact is always truthy. */
  function PrimaryOf(cs: seq<Contact>): (r: Contact)
    requires |cs| > 0
    ensures r in cs
    ensures r.linkPrecedence == Primary || forall c :: c in cs ==> c.linkPrecedence != Primary
  {
    match FirstPrimaryIndex(cs)
    case Some(k) => cs[k]
    case None => cs[0]
  }

  function Emails(cs: seq<Contact>): seq<Option<string>> {
    seq(|cs|, i requires 0 <= i < |cs| => cs[i].email)
  }

  function PhoneNumbers(cs: seq<Contact>): seq<Option<string>> {
    seq(|cs|, i requires 0 <= i < |cs| => cs[i].phoneNumber)
  }

  function Ids(cs: seq<Contact>): seq<int> {
    seq(|cs|, i requires 0 <= i < |cs| => cs[i].id)
  }

  /** The values `if (x) set.add(x)` inserts, in insertion order. */
  function TruthyValues(vs: seq<Option<string>>): seq<string> {
    if |vs| == 0 then []
    else TruthyValues(vs[..|vs| - 1]) + (if Truthy(vs[|vs| - 1]) then [vs[|vs| - 1].value] else [])
  }

  /** The ids pushed onto `secondaryContactIds`, in scan order. */
  function OtherIds(cs: seq<Contact>, primaryId: int): seq<int> {
    if |cs| == 0 then []
    else OtherIds(cs[..|cs| - 1], primaryId) + (if cs[|cs| - 1].id != primaryId then [cs[|cs| - 1].id] else [])
  }

  /** What `buildResponse` returns or throws. The email and phone sets are
      filled with the primary's value first and then with every contact's,
      front to back. */
  function Consolidate(cs: seq<Contact>): (r: Result<IdentifyResponse, Error>)
    ensures r.Err? <==> |cs| == 0
    ensures r.Err? ==> r.error == EmptyContactSet
  {
    if |cs| == 0 then Err(EmptyContactSet)
    else
      var p := PrimaryOf(cs);
      Ok(IdentifyResponse(ConsolidatedContact(
        p.id,
        Dedup(TruthyValues(Emails([p] + cs))),
        Dedup(TruthyValues(PhoneNumbers([p] + cs))),
        Dedup(OtherIds(cs, p.id)))))
  }

  /** `buildResponse`: it throws on an empty list, picks the primary, and
      scans the contacts. */
  method BuildResponse(contacts: seq<Contact>) returns (r: Result<IdentifyResponse, Error>)
    ensures r == Consolidate(contacts)
    ensures r.Err? <==> |contacts| == 0
  {
    if |contacts| == 0 {
      return Err(EmptyContactSet);
    }
    var primaryContact := match FirstPrimaryIndex(contacts)
      case Some(k) => contacts[k]
      case None => contacts[0];
    assert primaryContact == PrimaryOf(contacts);
    var emails, phoneNumbers, secondaryContactIds := ScanContacts(contacts, primaryContact);
    r := Ok(IdentifyResponse(ConsolidatedContact(
      primaryContact.id, emails, phoneNumbers, Dedup(secondaryContactIds))));
  }

  /** The `forEach` loop over the contacts, with the two sets and the
      `secondaryContactIds` array as its state; the sets start out holding
      the primary's own truthy email and phone number. */
  method ScanContacts(contacts: seq<Contact>, primaryContact: Contact)
    returns (emails: seq<string>, phoneNumbers: seq<string>, secondaryContactIds: seq<int>)
    ensures emails == Dedup(TruthyValues(Emails([primaryContact] + contacts)))
    ensures phoneNumbers == Dedup(TruthyValues(PhoneNumbers([primaryContact] + contacts)))
    ensures secondaryContactIds == OtherIds(contacts, primaryContact.id)
  {
    emails, phoneNumbers, secondaryContactIds := [], [], [];
    ScanStep([], primaryContact);
    assert [] + [primaryContact] == [primaryContact];
    if Truthy(primaryContact.email) { emails := SetAdd(emails, primaryContact.email.value); }
    if Truthy(primaryContact.phoneNumber) { phoneNumbers := SetAdd(phoneNumbers, primaryContact.phoneNumber.value); }
    ghost var seen := [primaryContact];
    for i := 0 to |contacts|
      invariant seen == [primaryContact] + contacts[..i]
      invariant emails == Dedup(TruthyValues(Emails(seen)))
      invariant phoneNumbers == Dedup(TruthyValues(PhoneNumbers(seen)))
      invariant secondaryContactIds == OtherIds(contacts[..i], primaryContact.id)
    {
      var contact := contacts[i];
      ScanStep(seen, contact);
      IdsSnoc(contacts[..i], contact);
      PrefixSnoc(primaryContact, contacts, i);
      seen := seen + [contact];
      if Truthy(contact.email) {
        emails := SetAdd(emails, contact.email.value);
      }
      if Truthy(contact.phoneNumber) {
        phoneNumbers := SetAdd(phoneNumbers, contact.phoneNumber.value);
      }
      if contact.id != primaryContact.id {
        secondaryContactIds := secondaryContactIds + [contact.id];
      }
    }
    assert contacts[..|contacts|] == contacts;
  }

  lemma PrefixSnoc(p: Contact, cs: seq<Contact>, i: nat)
    requires i < |cs|
    ensures cs[..i + 1] == cs[..i] + [cs[i]]
    ensures [p] + cs[..i + 1] == ([p] + cs[..i]) + [cs[i]]
  {
  }

  /** Scanning one more contact inserts its truthy email and phone number
      into the two sets. */
  lemma ScanStep(seen: seq<Contact>, c: Contact)
    ensures Dedup(TruthyValues(Emails(seen + [c]))) ==
      if Truthy(c.email) then SetAdd(Dedup(TruthyValues(Emails(seen))), c.email.value)
      else Dedup(TruthyValues(Emails(seen)))
    ensures Dedup(TruthyValues(PhoneNumbers(seen + [c]))) ==
      if Truthy(c.phoneNumber) then SetAdd(Dedup(TruthyValues(PhoneNumbers(seen))), c.phoneNumber.value)
      else Dedup(TruthyValues(PhoneNumbers(seen)))
  {
    assert Emails(seen + [c]) == Emails(seen) + [c.email];
    assert PhoneNumbers(seen + [c]) == PhoneNumbers(seen) + [c.phoneNumber];
    TruthySnoc(Emails(seen), c.email);
    TruthySnoc(PhoneNumbers(seen), c.phoneNumber);
    if Truthy(c.email) {
      DedupSnoc(TruthyValues(Emails(seen)), c.email.value);
      assert TruthyValues(Emails(seen + [c])) == TruthyValues(Emails(seen)) + [c.email.value];
    } else {
      assert TruthyValues(Emails(seen + [c])) == TruthyValues(Emails(seen));
    }
    if Truthy(c.phoneNumber) {
      DedupSnoc(TruthyValues(PhoneNumbers(seen)), c.phoneNumber.value);
      assert TruthyValues(PhoneNumbers(seen + [c])) == TruthyValues(PhoneNumbers(seen)) + [c.phoneNumber.value];
    } else {
      assert TruthyValues(PhoneNumbers(seen + [c])) == TruthyValues(PhoneNumbers(seen));
    }
  }

  lemma TruthySnoc(vs: seq<Option<string>>, v: Option<string>)
    ensures TruthyValues(vs + [v]) == TruthyValues(vs) + (if Truthy(v) then [v.value] else [])
  {
    assert (vs + [v])[..|vs|] == vs;
  }

  /** The truthy values are the non-empty present ones. */
  lemma {:induction false} TruthyValuesMembers(vs: seq<Option<string>>)
    ensures forall e :: e in TruthyValues(vs) <==> e != "" && Some(e) in vs
  {
    if |vs| > 0 {
      var init, v := vs[..|vs| - 1], vs[|vs| - 1];
      assert vs == init + [v];
      TruthyValuesMembers(init);
      TruthySnoc(init, v);
    }
  }

  /** A truthy first value is the first value inserted. */
  lemma {:induction false} TruthyValuesHead(vs: seq<Option<string>>)
    requires |vs| > 0 && Truthy(vs[0])
    ensures |TruthyValues(vs)| > 0 && TruthyValues(vs)[0] == vs[0].value
  {
    if |vs| > 1 {
      var init, v := vs[..|vs| - 1], vs[|vs| - 1];
      assert vs == init + [v];
      TruthyValuesHead(init);
      TruthySnoc(init, v);
    }
  }

  /** Leaving out the empty and absent values keeps the others in scan
      order. */
  lemma {:induction false} TruthyValuesOrder(vs: seq<Option<string>>, x: string, y: string)
    requires x != "" && y != "" && Some(x) in vs && Some(y) in vs
    ensures FirstIndex(TruthyValues(vs), x) < FirstIndex(TruthyValues(vs), y)
        <==> FirstIndex(vs, Some(x)) < FirstIndex(vs, Some(y))
  {
    var init, v := vs[..|vs| - 1], vs[|vs| - 1];
    assert vs == init + [v];
    TruthySnoc(init, v);
    TruthyValuesMembers(init);
    var t := TruthyValues(init);
    if Some(x) in init && Some(y) in init {
      TruthyValuesOrder(init, x, y);
      FirstIndexSnoc(init, v, Some(x));
      FirstIndexSnoc(init, v, Some(y));
      assert x in t && y in t;
      if Truthy(v) {
        assert TruthyValues(vs) == t + [v.value];
        FirstIndexSnoc(t, v.value, x);
        FirstIndexSnoc(t, v.value, y);
      } else {
        assert TruthyValues(vs) == t;
      }
    } else if Some(x) in init {
      assert v == Some(y) && y !in t;
      FirstIndexSnoc(init, v, Some(x));
      FirstIndexSnoc(t, y, x);
      assert (t + [y])[|t|] == y;
      assert (init + [v])[|init|] == v;
    } else if Some(y) in init {
      assert v == Some(x) && x !in t;
      FirstIndexSnoc(init, v, Some(y));
      FirstIndexSnoc(t, x, y);
      assert (t + [x])[|t|] == x;
      assert (init + [v])[|init|] == v;
    }
  }

  /** The scanned emails, read back from their set, keep the order in which
      the scan first meets them. */
  lemma EmailsOrder(cs: seq<Contact>)
    requires |cs| > 0
    ensures var vs := Emails([PrimaryOf(cs)] + cs);
      var r := Dedup(TruthyValues(vs));
      forall i, j :: 0 <= i < j < |r| ==> FirstIndex(vs, Some(r[i])) < FirstIndex(vs, Some(r[j]))
  {
    var vs := Emails([PrimaryOf(cs)] + cs);
    IdentifierListOrder(vs);
  }

  /** The same for the phone numbers. */
  lemma PhoneNumbersOrder(cs: seq<Contact>)
    requires |cs| > 0
    ensures var vs := PhoneNumbers([PrimaryOf(cs)] + cs);
      var r := Dedup(TruthyValues(vs));
      forall i, j :: 0 <= i < j < |r| ==> FirstIndex(vs, Some(r[i])) < FirstIndex(vs, Some(r[j]))
  {
    var vs := PhoneNumbers([PrimaryOf(cs)] + cs);
    IdentifierListOrder(vs);
  }

  /** A set filled from `vs` with `if (x) set.add(x)` yields its values in
      the order in which `vs` first holds them. */
  lemma IdentifierListOrder(vs: seq<Option<string>>)
    ensures var r := Dedup(TruthyValues(vs));
      forall i, j :: 0 <= i < j < |r| ==> FirstIndex(vs, Some(r[i])) < FirstIndex(vs, Some(r[j]))
  {
    var t := TruthyValues(vs);
    var r := Dedup(t);
    DedupSpec(t);
    TruthyValuesMembers(vs);
    forall i, j | 0 <= i < j < |r| ensures FirstIndex(vs, Some(r[i])) < FirstIndex(vs, Some(r[j])) {
      assert r[i] in t && r[j] in t;
      TruthyValuesOrder(vs, r[i], r[j]);
    }
  }

  /** What a set filled from `vs` with `if (x) set.add(x)` yields: no value
      twice, exactly the truthy values, a truthy first value in front, and
      first-insertion order. */
  lemma IdentifierList(vs: seq<Option<string>>)
    ensures var r := Dedup(TruthyValues(vs));
      && NoDuplicates(r)
      && (forall e :: e in r <==> e != "" && Some(e) in vs)
      && (|vs| > 0 && Truthy(vs[0]) ==> |r| > 0 && r[0] == vs[0].value)
      && (forall i, j :: 0 <= i < j < |r| ==> FirstIndex(TruthyValues(vs), r[i]) < FirstIndex(TruthyValues(vs), r[j]))
  {
    var t := TruthyValues(vs);
    DedupSpec(t);
    TruthyValuesMembers(vs);
    if |vs| > 0 && Truthy(vs[0]) {
      TruthyValuesHead(vs);
      DedupHead(t);
    }
  }

  /** `primaryContactId` is the id of the first contact marked primary, and
      that of `contacts[0]` when none is. */
  lemma ConsolidatePrimaryId(cs: seq<Contact>)
    requires |cs| > 0
    ensures Consolidate(cs).Ok?
    ensures var id := Consolidate(cs).value.contact.primaryContactId;
      || (exists k :: 0 <= k < |cs| && cs[k].linkPrecedence == Primary && id == cs[k].id
            && forall j :: 0 <= j < k ==> cs[j].linkPrecedence != Primary)
      || ((forall k :: 0 <= k < |cs| ==> cs[k].linkPrecedence != Primary) && id == cs[0].id)
  {
  }

  lemma EmailsMembers(cs: seq<Contact>, e: string)
    ensures Some(e) in Emails(cs) <==> exists c :: c in cs && c.email == Some(e)
  {
    if exists c :: c in cs && c.email == Some(e) {
      var c :| c in cs && c.email == Some(e);
      var k :| 0 <= k < |cs| && cs[k] == c;
      assert Emails(cs)[k] == Some(e);
    }
  }

  lemma PhoneNumbersMembers(cs: seq<Contact>, e: string)
    ensures Some(e) in PhoneNumbers(cs) <==> exists c :: c in cs && c.phoneNumber == Some(e)
  {
    if exists c :: c in cs && c.phoneNumber == Some(e) {
      var c :| c in cs && c.phoneNumber == Some(e);
      var k :| 0 <= k < |cs| && cs[k] == c;
      assert PhoneNumbers(cs)[k] == Some(e);
    }
  }

  /** `emails` lists every non-empty email of the contacts once, the
      primary's first, the others in the order of the scan. */
  lemma ConsolidateEmails(cs: seq<Contact>)
    requires |cs| > 0
    ensures Consolidate(cs).Ok?
    ensures var p, emails := PrimaryOf(cs), Consolidate(cs).value.contact.emails;
      && NoDuplicates(emails)
      && (forall e :: e in emails <==> e != "" && exists c :: c in cs && c.email == Some(e))
      && (Truthy(p.email) ==> |emails| > 0 && emails[0] == p.email.value)
      && (forall i, j :: 0 <= i < j < |emails| ==>
            FirstIndex(Emails([p] + cs), Some(emails[i])) < FirstIndex(Emails([p] + cs), Some(emails[j])))
  {
    var p := PrimaryOf(cs);
    EmailsOrder(cs);
    IdentifierList(Emails([p] + cs));
    forall e ensures (exists c :: c in [p] + cs && c.email == Some(e)) <==> (exists c :: c in cs && c.email == Some(e)) {
      if exists c :: c in [p] + cs && c.email == Some(e) {
        var c :| c in [p] + cs && c.email == Some(e);
        assert c in cs;
      }
    }
    forall e {
      EmailsMembers([p] + cs, e);
    }
  }

  /** `phoneNumbers` lists every non-empty phone number of the contacts once,
      the primary's first, the others in the order of the scan. */
  lemma ConsolidatePhoneNumbers(cs: seq<Contact>)
    requires |cs| > 0
    ensures Consolidate(cs).Ok?
    ensures var p, phones := PrimaryOf(cs), Consolidate(cs).value.contact.phoneNumbers;
      && NoDuplicates(phones)
      && (forall e :: e in phones <==> e != "" && exists c :: c in cs && c.phoneNumber == Some(e))
      && (Truthy(p.phoneNumber) ==> |phones| > 0 && phones[0] == p.phoneNumber.value)
      && (forall i, j :: 0 <= i < j < |phones| ==>
            FirstIndex(PhoneNumbers([p] + cs), Some(phones[i])) < FirstIndex(PhoneNumbers([p] + cs), Some(phones[j])))
  {
    var p := PrimaryOf(cs);
    PhoneNumbersOrder(cs);
    IdentifierList(PhoneNumbers([p] + cs));
    forall e ensures (exists c :: c in [p] + cs && c.phoneNumber == Some(e)) <==> (exists c :: c in cs && c.phoneNumber == Some(e)) {
      if exists c :: c in [p] + cs && c.phoneNumber == Some(e) {
        var c :| c in [p] + cs && c.phoneNumber == Some(e);
        assert c in cs;
      }
    }
    forall e {
      PhoneNumbersMembers([p] + cs, e);
    }
  }

  lemma IdsSnoc(cs: seq<Contact>, c: Contact)
    ensures Ids(cs + [c]) == Ids(cs) + [c.id]
    ensures OtherIds(cs + [c], c.id) == OtherIds(cs, c.id)
    ensures forall pid :: pid != c.id ==> OtherIds(cs + [c], pid) == OtherIds(cs, pid) + [c.id]
  {
    assert (cs + [c])[..|cs|] == cs;
  }

  /** The pushed ids are the ids other than the primary's. */
  lemma {:induction false} OtherIdsMembers(cs: seq<Contact>, pid: int)
    ensures forall x :: x in OtherIds(cs, pid) <==> x != pid && x in Ids(cs)
  {
    if |cs| > 0 {
      var init, c := cs[..|cs| - 1], cs[|cs| - 1];
      assert cs == init + [c];
      OtherIdsMembers(init, pid);
      IdsSnoc(init, c);
    }
  }

  /** Leaving out the primary's id keeps the other ids in scan order. */
  lemma {:induction false} OtherIdsOrder(cs: seq<Contact>, pid: int, x: int, y: int)
    requires x != pid && y != pid && x in Ids(cs) && y in Ids(cs)
    ensures FirstIndex(OtherIds(cs, pid), x) < FirstIndex(OtherIds(cs, pid), y)
        <==> FirstIndex(Ids(cs), x) < FirstIndex(Ids(cs), y)
  {
    var init, c := cs[..|cs| - 1], cs[|cs| - 1];
    assert cs == init + [c];
    IdsSnoc(init, c);
    OtherIdsMembers(init, pid);
    var o, ids := OtherIds(init, pid), Ids(init);
    if x in ids && y in ids {
      OtherIdsOrder(init, pid, x, y);
      FirstIndexSnoc(ids, c.id, x);
      FirstIndexSnoc(ids, c.id, y);
      if c.id != pid {
        FirstIndexSnoc(o, c.id, x);
        FirstIndexSnoc(o, c.id, y);
      }
    } else if x in ids {
      assert y == c.id;
      FirstIndexSnoc(ids, c.id, x);
      FirstIndexSnoc(o, c.id, x);
      assert (o + [c.id])[|o|] == y;
      assert (ids + [c.id])[|ids|] == y;
    } else if y in ids {
      assert x == c.id;
      FirstIndexSnoc(ids, c.id, y);
      FirstIndexSnoc(o, c.id, y);
      assert (o + [c.id])[|o|] == x;
      assert (ids + [c.id])[|ids|] == x;
    }
  }

  /** `secondaryContactIds` lists every id other than the primary's once, in
      the order the scan first meets it, and never the primary's own. */
  lemma ConsolidateSecondaryIds(cs: seq<Contact>)
    requires |cs| > 0
    ensures Consolidate(cs).Ok?
    ensures var r := Consolidate(cs).value.contact;
      var sec := r.secondaryContactIds;
      && NoDuplicates(sec)
      && r.primaryContactId !in sec
      && (forall x :: x in sec <==> x != r.primaryContactId && exists c :: c in cs && c.id == x)
      && (forall i, j :: 0 <= i < j < |sec| ==> FirstIndex(Ids(cs), sec[i]) < FirstIndex(Ids(cs), sec[j]))
  {
    var pid := PrimaryOf(cs).id;
    var pushed := OtherIds(cs, pid);
    var sec := Dedup(pushed);
    DedupSpec(pushed);
    OtherIdsMembers(cs, pid);
    forall x ensures x in Ids(cs) <==> exists c :: c in cs && c.id == x {
      if exists c :: c in cs && c.id == x {
        var c :| c in cs && c.id == x;
        var k :| 0 <= k < |cs| && cs[k] == c;
        assert Ids(cs)[k] == x;
      }
    }
    forall i, j | 0 <= i < j < |sec| ensures FirstIndex(Ids(cs), sec[i]) < FirstIndex(Ids(cs), sec[j]) {
      assert sec[i] in pushed && sec[j] in pushed;
      OtherIdsOrder(cs, pid, sec[i], sec[j]);
    }
  }
}
