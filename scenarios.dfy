/** Worked requests against small tables: a first contact, a repeated
    request that needs no write, and a request that joins two chains. */
module Scenarios {
  import opened Wrappers
  import opened Types
  import opened Collections
  import opened Matcher
  import opened MergePolicy
  import opened Consolidator
  import opened ContactService

  /** An empty table: any request creates one primary with id 1, which is
      reported alone with the request's own truthy identifiers. */
  method FirstContact(store: ContactStore, req: IdentifyRequest, now: int, rpc: MergeTransaction)
    returns (r: Result<IdentifyResponse, Error>)
    requires store.contacts == [] && store.nextId == 1
    requires HasIdentifier(req)
    requires CommitsValidTable(rpc)
    modifies store
    ensures store.Valid()
    ensures store.contacts == [NewPrimary(1, req, now)] && store.nextId == 2
    ensures r == Ok(IdentifyResponse(ConsolidatedContact(1,
      if Truthy(req.email) then [req.email.value] else [],
      if Truthy(req.phoneNumber) then [req.phoneNumber.value] else [],
      [])))
  {
    assert store.Valid();
    assert DirectMatches(store.contacts, req) == [];
    FreshPrimaryResponse(NewPrimary(1, req, now));
    r := store.IdentifyContact(req, now, rpc);
  }

  /** The same request twice: the second call writes nothing and reports
      what the first did. */
  method SameRequestTwice(store: ContactStore, req: IdentifyRequest, now: int, later: int, rpc: MergeTransaction)
    returns (first: Result<IdentifyResponse, Error>, second: Result<IdentifyResponse, Error>)
    requires store.Valid()
    requires HasIdentifier(req)
    requires DirectMatches(store.contacts, req) == []
    requires CommitsValidTable(rpc)
    modifies store
    ensures |store.contacts| == |old(store.contacts)| + 1
    ensures store.Valid()
    ensures first == second
  {
    IdentifyAgainAfterCreate(store.contacts, store.nextId, req, now);
    first := store.IdentifyContact(req, now, rpc);
    second := store.IdentifyContact(req, later, rpc);
  }

  /** A request whose email and phone number are both already carried by
      the only chain: no write, and the chain is reported as it stands. */
  method ExactMatch(store: ContactStore, rpc: MergeTransaction) returns (r: Result<IdentifyResponse, Error>)
    requires store.contacts == [Contact(1, Some("111"), Some("a@x.com"), None, Primary, 0)]
    requires CommitsValidTable(rpc)
    modifies store
    ensures store.contacts == old(store.contacts) && store.nextId == old(store.nextId)
    ensures r == Ok(IdentifyResponse(ConsolidatedContact(1, ["a@x.com"], ["111"], [])))
  {
    var p := store.contacts[0];
    var req := IdentifyRequest(Some("a@x.com"), Some("111"));
    ExactMatchChain(p, req);
    FreshPrimaryResponse(p);
    var related := Closure(store.contacts, ChainIds(DirectMatches(store.contacts, req)));
    assert related == [p];
    r := store.IdentifyContact(req, 5, rpc);
  }

  lemma ExactMatchChain(p: Contact, req: IdentifyRequest)
    requires p == Contact(1, Some("111"), Some("a@x.com"), None, Primary, 0)
    requires req == IdentifyRequest(Some("a@x.com"), Some("111"))
    ensures DirectMatches([p], req) == [p]
    ensures Closure([p], ChainIds([p])) == [p]
    ensures !NeedsUpdate([p], req)
  {
    var m := DirectMatches([p], req);
    forall x ensures multiset(m)[x] == multiset{p}[x] { }
    SingletonOfMultiset(m, p);
    assert ChainIds([p]) == {1};
    var r := Closure([p], {1});
    forall x ensures multiset(r)[x] == multiset{p}[x] { }
    SingletonOfMultiset(r, p);
  }

  lemma Pair(s: seq<Contact>, a: Contact, b: Contact)
    requires multiset(s) == multiset{a, b}
    requires SortedByCreatedAt(s) && a.createdAt < b.createdAt
    ensures s == [a, b]
  {
    assert |s| == 2;
    assert s[0] in multiset(s) && s[1] in multiset(s);
  }

  /** Two separate primaries, one found by email and one by phone number:
      both chains are gathered, the older primary is the reference, and the
      merge transaction is called with both ids. */
  lemma TwoChains(a: Contact, b: Contact, req: IdentifyRequest)
    requires a == Contact(1, None, Some("a@x.com"), None, Primary, 1)
    requires b == Contact(2, Some("222"), None, None, Primary, 2)
    requires req == IdentifyRequest(Some("a@x.com"), Some("222"))
    ensures var related := Closure([a, b], ChainIds(DirectMatches([a, b], req)));
      && related == [a, b]
      && NeedsUpdate(related, req)
      && MergeRequest(related[0].id, Ids(related), req.email, req.phoneNumber)
           == MergeRequest(1, [1, 2], Some("a@x.com"), Some("222"))
  {
    TwoChainsMatches(a, b, req);
    ChainIdsPair(a, b);
    TwoChainsClosure(a, b);
    assert b in [a, b];
    IdsPair(a, b);
  }

  lemma ChainIdsPair(a: Contact, b: Contact)
    ensures ChainIds([a, b]) == {ChainId(a), ChainId(b)}
  {
  }

  lemma IdsPair(a: Contact, b: Contact)
    ensures Ids([a, b]) == [a.id, b.id]
  {
  }

  lemma TwoChainsMatches(a: Contact, b: Contact, req: IdentifyRequest)
    requires a == Contact(1, None, Some("a@x.com"), None, Primary, 1)
    requires b == Contact(2, Some("222"), None, None, Primary, 2)
    requires req == IdentifyRequest(Some("a@x.com"), Some("222"))
    ensures DirectMatches([a, b], req) == [a, b]
  {
    var m := DirectMatches([a, b], req);
    forall x ensures multiset(m)[x] == multiset{a, b}[x] { }
    Pair(m, a, b);
  }

  lemma TwoChainsClosure(a: Contact, b: Contact)
    requires a == Contact(1, None, Some("a@x.com"), None, Primary, 1)
    requires b == Contact(2, Some("222"), None, None, Primary, 2)
    ensures Closure([a, b], {1, 2}) == [a, b]
  {
    var r := Closure([a, b], {1, 2});
    forall x ensures multiset(r)[x] == multiset{a, b}[x] { }
    Pair(r, a, b);
  }
}
