/**
 * The browser-storage adapter: the whole contact list lives as one array under one storage key.
 * Every read parses the array afresh; every write stores the whole array back.
 */
module LocalStorage {
  import opened Common
  import opened Text
  import opened Seqs
  import opened Sorting
  import opened Contacts

  /** The sort key of `findAll` and `search`: `${firstName} ${lastName}`, lower-cased. */
  function SortKey(c: Contact): (r: string)
    ensures r == Lower(c.firstName) + " " + Lower(c.lastName)
  {
    LowerAppend(c.firstName, " ");
    LowerAppend(c.firstName + " ", c.lastName);
    Lower(c.FullName())
  }

  /**
   * The `search` filter for the query `q`: names and email case-insensitively, the phone as
   * stored; an empty query matches every contact.
   */
  predicate Matches(c: Contact, q: string)
    ensures q == "" ==> Matches(c, q)
  {
    assert OccursAt(c.phoneNumber, [], 0);
    var lq := Lower(q);
    || Contains(Lower(c.firstName), lq)
    || Contains(Lower(c.lastName), lq)
    || Contains(c.phoneNumber, q)
    || (c.email.Some? && c.email.value != "" && Contains(Lower(c.email.value), lq))
  }

  function MatchesQuery(q: string): Contact -> bool {
    (c: Contact) => Matches(c, q)
  }

  function HasId(id: string): Contact -> bool {
    (c: Contact) => c.id == id
  }

  function HasOtherId(id: string): Contact -> bool {
    (c: Contact) => c.id != id
  }

  function HasPhone(phone: string): Contact -> bool {
    (c: Contact) => c.phoneNumber == phone
  }

  /** `contacts.find(pred) || null`: the first element satisfying `f`. */
  function FindFirst(s: seq<Contact>, f: Contact -> bool): (r: Option<Contact>)
    ensures r.None? <==> forall c :: c in s ==> !f(c)
    ensures r.Some? ==> exists i :: 0 <= i < |s| && s[i] == r.value && f(s[i]) &&
                                    forall j :: 0 <= j < i ==> !f(s[j])
  {
    match FindIndex(s, f)
    case None => None
    case Some(i) => Some(s[i])
  }

  /** Sorting the matches of `s` equals filtering the sorted `s`; it holds exactly the matching elements, in order. */
  lemma SortedMatches(s: seq<Contact>, query: string)
    ensures SortBy(Filter(s, MatchesQuery(query)), SortKey) == Filter(SortBy(s, SortKey), MatchesQuery(query))
    ensures forall c :: c in SortBy(Filter(s, MatchesQuery(query)), SortKey) <==> c in s && Matches(c, query)
    ensures SortedBy(SortBy(Filter(s, MatchesQuery(query)), SortKey), SortKey)
  {
    var matching := Filter(s, MatchesQuery(query));
    FilterSortBy(s, SortKey, MatchesQuery(query));
    SortBySorted(matching, SortKey);
    FilterMembership(s, MatchesQuery(query));
    assert forall c :: c in SortBy(matching, SortKey) <==> c in multiset(matching);
  }

  class LocalStorageContactRepository {
    /** `typeof window !== 'undefined'`: without it reads see nothing and writes are dropped. */
    const windowPresent: bool
    /** The storage key holds a JSON array of contacts (it is not missing, empty or unparseable). */
    var readable: bool
    /** The contacts that array holds, when it is readable. */
    var stored: seq<Contact>

    /** `getContacts()`: the stored array, or the empty list when there is none to read. */
    function Contacts(): (r: seq<Contact>)
      reads this
      ensures windowPresent && readable ==> r == stored
      ensures !windowPresent || !readable ==> r == []
    {
      if windowPresent && readable then stored else []
    }

    /** A repository over a store that holds `initial`, or that is missing or corrupt when it is `None`. */
    constructor (windowPresent: bool, initial: Option<seq<Contact>>)
      ensures this.windowPresent == windowPresent
      ensures readable == initial.Some? && stored == (if initial.Some? then initial.value else [])
    {
      this.windowPresent := windowPresent;
      readable := initial.Some?;
      stored := if initial.Some? then initial.value else [];
    }

    /** `saveContacts(contacts)`: store the whole array; nothing happens without a window. */
    method SaveContacts(contacts: seq<Contact>)
      modifies this
      ensures windowPresent ==> readable && stored == contacts && Contacts() == contacts
      ensures !windowPresent ==> unchanged(this)
    {
      if windowPresent {
        stored := contacts;
        readable := true;
      }
    }

    /** `findAll()`: every stored contact, sorted by lower-cased full name. */
    function FindAll(): (r: seq<Contact>)
      reads this
      ensures multiset(r) == multiset(Contacts())
      ensures SortedBy(r, SortKey)
    {
      SortBySorted(Contacts(), SortKey);
      SortBy(Contacts(), SortKey)
    }

    /** `findById(id)`: the first stored contact with that id. */
    function FindById(id: string): (r: Option<Contact>)
      reads this
      ensures r.None? <==> forall c :: c in Contacts() ==> c.id != id
      ensures r.Some? ==> exists i :: 0 <= i < |Contacts()| && Contacts()[i] == r.value && r.value.id == id &&
                                      forall j :: 0 <= j < i ==> Contacts()[j].id != id
    {
      FindFirst(Contacts(), HasId(id))
    }

    /** `findByPhoneNumber(phone)`: the first stored contact whose phone is exactly `phone`. */
    function FindByPhoneNumber(phone: string): (r: Option<Contact>)
      reads this
      ensures r.None? <==> forall c :: c in Contacts() ==> c.phoneNumber != phone
      ensures r.Some? ==> exists i :: 0 <= i < |Contacts()| && Contacts()[i] == r.value && r.value.phoneNumber == phone &&
                                      forall j :: 0 <= j < i ==> Contacts()[j].phoneNumber != phone
    {
      FindFirst(Contacts(), HasPhone(phone))
    }

    /** `search(query)`: the contacts matching the query, in `findAll` order. */
    function Search(query: string): (r: seq<Contact>)
      reads this
      ensures r == Filter(FindAll(), MatchesQuery(query))
      ensures forall c :: c in r <==> c in Contacts() && Matches(c, query)
      ensures SortedBy(r, SortKey)
    {
      SortedMatches(Contacts(), query);
      SortBy(Filter(Contacts(), MatchesQuery(query)), SortKey)
    }

    /** `count()`. */
    function Count(): (r: nat)
      reads this
      ensures r == |Contacts()| == |FindAll()|
    {
      assert |FindAll()| == |multiset(FindAll())| == |multiset(Contacts())|;
      |Contacts()|
    }

    /** `save(contact)`: append the contact, with `freshId` (`crypto.randomUUID()`) when its id is empty. */
    method Save(contact: Contact, freshId: string) returns (r: Contact)
      requires freshId != ""
      modifies this
      ensures r == contact.(id := if contact.id == "" then freshId else contact.id)
      ensures r.id != ""
      ensures windowPresent ==> Contacts() == old(Contacts()) + [r]
      ensures !windowPresent ==> unchanged(this)
    {
      var contacts := Contacts();
      var id := if contact.id != "" then contact.id else freshId;
      r := contact.(id := id);
      contacts := contacts + [r];
      SaveContacts(contacts);
    }

    /** `update(id, data)`: merge the patch into the first contact with that id, by `??`. */
    method Update(id: string, data: Patch, now: Time) returns (r: Option<Contact>)
      modifies this
      ensures FindIndex(old(Contacts()), HasId(id)).None? ==> r.None? && unchanged(this)
      ensures FindIndex(old(Contacts()), HasId(id)).Some? ==>
        var i := FindIndex(old(Contacts()), HasId(id)).value;
        r == Some(MergeNullish(old(Contacts())[i], data, now)) &&
        Contacts() == old(Contacts())[i := r.value]
    {
      var contacts := Contacts();
      var index := FindIndex(contacts, HasId(id));
      if index.None? {
        return None;
      }
      var existing := contacts[index.value];
      var updated := MergeNullish(existing, data, now);
      contacts := contacts[index.value := updated];
      SaveContacts(contacts);
      r := Some(updated);
    }

    /** `delete(id)`: drop every contact with that id; the array is written back only if one was dropped. */
    method Delete(id: string) returns (deleted: bool)
      modifies this
      ensures deleted <==> exists c :: c in old(Contacts()) && c.id == id
      ensures deleted ==> Contacts() == Filter(old(Contacts()), HasOtherId(id))
      ensures !deleted ==> unchanged(this)
    {
      var contacts := Contacts();
      var filtered := Filter(contacts, HasOtherId(id));
      FilterShrinks(contacts, HasOtherId(id));
      if |filtered| < |contacts| {
        SaveContacts(filtered);
        return true;
      }
      return false;
    }
  }

  function IdOf(c: Contact): string {
    c.id
  }

  function PhoneOf(c: Contact): string {
    c.phoneNumber
  }

  /** Ids are pairwise distinct. */
  predicate UniqueIds(s: seq<Contact>) {
    DistinctBy(s, IdOf)
  }

  /** Phone numbers are pairwise distinct. */
  predicate UniquePhones(s: seq<Contact>) {
    DistinctBy(s, PhoneOf)
  }

  /** A store that is missing, corrupt, or out of reach of a window reads as empty everywhere. */
  lemma UnreadableStoreReadsEmpty(repo: LocalStorageContactRepository, id: string, phone: string, query: string)
    requires !repo.windowPresent || !repo.readable
    ensures repo.FindAll() == [] && repo.Search(query) == [] && repo.Count() == 0
    ensures repo.FindById(id).None? && repo.FindByPhoneNumber(phone).None?
  {
  }

  /** For a contact whose phone is all digits (as stored phones are), the search ignores the query's case. */
  lemma MatchesIgnoresCase(c: Contact, q: string)
    requires forall i :: 0 <= i < |c.phoneNumber| ==> '0' <= c.phoneNumber[i] <= '9'
    ensures Matches(c, q) == Matches(c, Lower(q))
  {
    assert Lower(Lower(q)) == Lower(q);
    if k :| 0 <= k < |q| && 'A' <= q[k] <= 'Z' {
      assert !Contains(c.phoneNumber, q) && !Contains(c.phoneNumber, Lower(q));
    } else {
      assert Lower(q) == q;
    }
  }

  /** A search never returns more contacts than `count()` reports. */
  lemma SearchWithinCount(repo: LocalStorageContactRepository, query: string)
    ensures |repo.Search(query)| <= repo.Count() == |repo.FindAll()|
  {
    assert |repo.FindAll()| == |multiset(repo.FindAll())| == |multiset(repo.Contacts())|;
  }

  /** After a successful `delete`, no contact carries the id and every other contact stays. */
  lemma DeleteKeepsOthers(s: seq<Contact>, id: string)
    ensures forall c :: c in Filter(s, HasOtherId(id)) ==> c.id != id
    ensures forall c :: c in s && c.id != id ==> c in Filter(s, HasOtherId(id))
  {
    FilterMembership(s, HasOtherId(id));
  }

  /** With distinct ids, deleting the id held at position `k` removes exactly one contact. */
  lemma DeleteRemovesOne(s: seq<Contact>, id: string, k: nat)
    requires UniqueIds(s) && k < |s| && s[k].id == id
    ensures |Filter(s, HasOtherId(id))| == |s| - 1
  {
    var f := HasOtherId(id);
    var a, b := s[..k], s[k + 1..];
    assert s == a + ([s[k]] + b);
    forall i | 0 <= i < |a| ensures f(a[i]) {
      assert a[i] == s[i] && IdOf(s[i]) != IdOf(s[k]);
    }
    forall i | 0 <= i < |b| ensures f(b[i]) {
      assert b[i] == s[k + 1 + i] && IdOf(s[k]) != IdOf(s[k + 1 + i]);
    }
    FilterShrinks(a, f);
    FilterShrinks(b, f);
    FilterAppend(a, [s[k]] + b, f);
    FilterCons(s[k], b, f);
  }
}
