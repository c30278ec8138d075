/** The two store queries of `identifyContact` (src/services/contactService.ts
    lines 8-12 and 35-43), written over an in-memory store in place of the
    database table: a filter followed by `.order('createdAt', ascending)`. */
module Matcher {
  import opened Wrappers
  import opened Types
  import opened Collections

  predicate SortedByCreatedAt(s: seq<Contact>) {
    forall i, j :: 0 <= i < j < |s| ==> s[i].createdAt <= s[j].createdAt
  }

  /** Inserts `c` in front of the first contact created no earlier than it. */
  function InsertByCreatedAt(c: Contact, s: seq<Contact>): (r: seq<Contact>)
    requires SortedByCreatedAt(s)
    ensures SortedByCreatedAt(r)
    ensures multiset(r) == multiset(s) + multiset{c}
    ensures forall x :: x in r ==> x == c || x in s
  {
    if |s| == 0 then [c]
    else if c.createdAt <= s[0].createdAt then [c] + s
    else
      assert s == [s[0]] + s[1..];
      var rest := InsertByCreatedAt(c, s[1..]);
      assert forall x :: x in rest ==> s[0].createdAt <= x.createdAt;
      LeastThenSorted(s[0], rest);
      [s[0]] + rest
  }

  lemma LeastThenSorted(first: Contact, rest: seq<Contact>)
    requires SortedByCreatedAt(rest)
    requires forall x :: x in rest ==> first.createdAt <= x.createdAt
    ensures SortedByCreatedAt([first] + rest)
  {
    var r := [first] + rest;
    forall i, j | 0 <= i < j < |r| ensures r[i].createdAt <= r[j].createdAt {
      assert r[j] == rest[j - 1];
      if i > 0 {
        assert r[i] == rest[i - 1];
      }
    }
  }

  /** The ordering clause of a query: ascending `createdAt`. The body keeps
      contacts created at the same time in their store order; the contract
      does not state that. */
  function SortByCreatedAt(s: seq<Contact>): (r: seq<Contact>)
    ensures SortedByCreatedAt(r)
    ensures multiset(r) == multiset(s)
  {
    if |s| == 0 then []
    else
      assert s == [s[0]] + s[1..];
      InsertByCreatedAt(s[0], SortByCreatedAt(s[1..]))
  }

  /** The direct-match filter `email.eq.<email>,phoneNumber.eq.<phone>`, on
      the identifiers the request carries. */
  predicate MatchesRequest(c: Contact, req: IdentifyRequest) {
    || (req.email.Some? && c.email == req.email)
    || (req.phoneNumber.Some? && c.phoneNumber == req.phoneNumber)
  }

  /** An absent identifier contributes nothing to the direct-match filter. */
  lemma AbsentIdentifierMatchesNothing(c: Contact, req: IdentifyRequest)
    ensures req.email.None? ==>
      (MatchesRequest(c, req) <==> req.phoneNumber.Some? && c.phoneNumber == req.phoneNumber)
    ensures req.phoneNumber.None? ==>
      (MatchesRequest(c, req) <==> req.email.Some? && c.email == req.email)
  {
  }

  /** The filter as the source writes it: both identifiers are interpolated
      into the filter text, and an absent one becomes the text "undefined". */
  function Interpolated(v: Option<string>): string {
    if v.Some? then v.value else "undefined"
  }

  predicate MatchesRequestAsWritten(c: Contact, req: IdentifyRequest) {
    c.email == Some(Interpolated(req.email)) || c.phoneNumber == Some(Interpolated(req.phoneNumber))
  }

  /** When the request carries both identifiers the two filters agree. */
  lemma AsWrittenAgreesWhenBothPresent(c: Contact, req: IdentifyRequest)
    requires req.email.Some? && req.phoneNumber.Some?
    ensures MatchesRequestAsWritten(c, req) <==> MatchesRequest(c, req)
  {
  }

  /** A request without a phone number directly matches, as written, any
      contact whose stored phone number is the text "undefined". */
  lemma AbsentPhoneMatchesUndefined()
    ensures var c := Contact(7, Some("undefined"), Some("b@y.com"), None, Primary, 0);
      var req := IdentifyRequest(Some("a@x.com"), None);
      MatchesRequestAsWritten(c, req) && !MatchesRequest(c, req)
  {
  }

  /** The first query: every stored contact sharing the request's email or
      phone number, oldest first. */
  function DirectMatches(store: seq<Contact>, req: IdentifyRequest): (r: seq<Contact>)
    ensures SortedByCreatedAt(r)
    ensures forall c :: multiset(r)[c] == if MatchesRequest(c, req) then multiset(store)[c] else 0
  {
    SortByCreatedAt(Filter(store, c => MatchesRequest(c, req)))
  }

  /** `c.linkedId || c.id`: the id of the chain a contact belongs to. A
      linked id of 0 is falsy and falls back to the contact's own id. */
  function ChainId(c: Contact): int {
    if c.linkedId.Some? && c.linkedId.value != 0 then c.linkedId.value else c.id
  }

  /** `new Set(matchingContacts.map(c => c.linkedId || c.id))` */
  function ChainIds(matches: seq<Contact>): set<int> {
    set c | c in matches :: ChainId(c)
  }

  /** The closure filter `id.in.(ids),linkedId.in.(ids)`; a null linked id
      is in no list. */
  predicate InChain(c: Contact, ids: set<int>) {
    c.id in ids || (c.linkedId.Some? && c.linkedId.value in ids)
  }

  /** The second query: every stored contact whose id or linked id is one of
      the chain ids, oldest first. */
  function Closure(store: seq<Contact>, ids: set<int>): (r: seq<Contact>)
    ensures SortedByCreatedAt(r)
    ensures forall c :: multiset(r)[c] == if InChain(c, ids) then multiset(store)[c] else 0
  {
    SortByCreatedAt(Filter(store, c => InChain(c, ids)))
  }

  /** The direct matches are the stored contacts that match the request. */
  lemma DirectMatchesMembers(store: seq<Contact>, req: IdentifyRequest)
    ensures forall c :: c in DirectMatches(store, req) <==> c in store && MatchesRequest(c, req)
  {
    forall c ensures c in DirectMatches(store, req) <==> c in store && MatchesRequest(c, req) {
      assert c in DirectMatches(store, req) <==> multiset(DirectMatches(store, req))[c] > 0;
      assert c in store <==> multiset(store)[c] > 0;
    }
  }

  /** The closure holds exactly the stored contacts of the given chains. */
  lemma ClosureMembers(store: seq<Contact>, ids: set<int>)
    ensures forall c :: c in Closure(store, ids) <==> c in store && InChain(c, ids)
  {
    forall c ensures c in Closure(store, ids) <==> c in store && InChain(c, ids) {
      assert c in Closure(store, ids) <==> multiset(Closure(store, ids))[c] > 0;
      assert c in store <==> multiset(store)[c] > 0;
    }
  }

  /** Every direct match lies in the closure of the matches' chain ids, so
      the closure is empty only when nothing matched. */
  lemma ClosureContainsMatches(store: seq<Contact>, req: IdentifyRequest)
    ensures var matches := DirectMatches(store, req);
      && (forall c :: c in matches ==> c in Closure(store, ChainIds(matches)))
      && (matches != [] ==> Closure(store, ChainIds(matches)) != [])
  {
    var matches := DirectMatches(store, req);
    var ids := ChainIds(matches);
    DirectMatchesMembers(store, req);
    ClosureMembers(store, ids);
    forall c | c in matches ensures c in Closure(store, ids) {
      assert ChainId(c) in ids;
    }
    if matches != [] {
      assert matches[0] in Closure(store, ids);
    }
  }

  /** The closure reaches past the direct matches: it takes in the contact
      each matched chain is named after (the primary a matched secondary
      points to) and every contact linked to that chain. */
  lemma ClosureIncludesChains(store: seq<Contact>, req: IdentifyRequest, m: Contact, d: Contact)
    requires m in DirectMatches(store, req)
    requires d in store
    requires d.id == ChainId(m) || d.linkedId == Some(ChainId(m))
    ensures d in Closure(store, ChainIds(DirectMatches(store, req)))
  {
    var ids := ChainIds(DirectMatches(store, req));
    assert ChainId(m) in ids;
    ClosureMembers(store, ids);
  }

  /** A contact added to a table none of whose contacts lies in the given
      chains is the whole closure of those chains when it lies in them. */
  lemma ClosureOfOnlyMember(store: seq<Contact>, c: Contact, ids: set<int>)
    requires forall x :: x in store ==> !InChain(x, ids)
    requires InChain(c, ids)
    ensures Closure(store + [c], ids) == [c]
  {
    var r := Closure(store + [c], ids);
    assert multiset(store + [c]) == multiset(store) + multiset{c};
    forall x ensures multiset(r)[x] == multiset{c}[x] {
      if x in store {
        assert !InChain(x, ids);
      } else {
        assert multiset(store)[x] == 0;
      }
    }
    assert multiset(r) == multiset{c};
    SingletonOfMultiset(r, c);
  }

  /** A contact added to a table none of whose contacts matches the request
      is the only direct match when it matches. */
  lemma DirectMatchesOfOnlyMember(store: seq<Contact>, c: Contact, req: IdentifyRequest)
    requires forall x :: x in store ==> !MatchesRequest(x, req)
    requires MatchesRequest(c, req)
    ensures DirectMatches(store + [c], req) == [c]
  {
    var r := DirectMatches(store + [c], req);
    assert multiset(store + [c]) == multiset(store) + multiset{c};
    forall x ensures multiset(r)[x] == multiset{c}[x] {
      if x in store {
        assert !MatchesRequest(x, req);
      } else {
        assert multiset(store)[x] == 0;
      }
    }
    assert multiset(r) == multiset{c};
    SingletonOfMultiset(r, c);
  }
}
