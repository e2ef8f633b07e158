/**
 * The five use cases (create, update, delete, get, list), run against the browser-storage
 * repository. Each state-changing use case has a step function over the contact list, which
 * states its result and the list it leaves behind; the methods are proved against them.
 */
module UseCases {
  import opened Common
  import opened Seqs
  import opened Contacts
  import opened LocalStorage
  import PhoneNumbers

  const NamesRequired := "First name and last name are required"
  const PhoneTaken := "A contact with this phone number already exists"
  const PhoneTakenByAnother := "Another contact with this phone number already exists"
  const NotFound := "Contact not found"
  const UpdateFailed := "Failed to update contact"
  const DeleteFailed := "Failed to delete contact"

  /** The `data` argument of `CreateContactUseCase.execute`; a name may be missing at run time. */
  datatype CreateInput = CreateInput(
    firstName: Option<string>,
    lastName: Option<string>,
    phoneNumber: string,
    email: Option<string>,
    address: Option<string>,
    notes: Option<string>)

  /** JavaScript truthiness of a string that may be `undefined`. */
  predicate Truthy(s: Option<string>) {
    s.Some? && s.value != ""
  }

  /** A use case's result, with the contact list it leaves in a store whose writes persist. */
  datatype Step<+T> = Step(result: Result<T>, after: seq<Contact>)

  /**
   * What the program maintains for the stored list: `save` gives every contact a non-empty id
   * (LocalStorageContactRepository.ts:73), create requires both names (CreateContact.ts:16-18),
   * stores the normalised phone (PhoneNumber.ts:8) and refuses a phone already held
   * (CreateContact.ts:22-25), and `updatedAt` is stamped no earlier than `createdAt`.
   */
  predicate Consistent(s: seq<Contact>) {
    && UniqueIds(s)
    && UniquePhones(s)
    && forall c :: c in s ==>
         && c.id != ""
         && c.firstName != ""
         && c.lastName != ""
         && PhoneNumbers.IsCanonical(c.phoneNumber)
         && c.createdAt <= c.updatedAt
  }

  /** The clock does not run backwards: `now` is no earlier than any stored timestamp. */
  predicate NotBefore(s: seq<Contact>, now: Time) {
    forall c :: c in s ==> c.updatedAt <= now
  }

  // ---------------------------------------------------------------- create

  /** What `save` receives: empty id, the names, the normalised phone, the optional fields, both stamps `now`. */
  function NewRecord(input: CreateInput, phone: string, now: Time): Contact
    requires Truthy(input.firstName) && Truthy(input.lastName)
  {
    Contact("", input.firstName.value, input.lastName.value, phone,
            input.email, input.address, input.notes, now, now)
  }

  /** `CreateContactUseCase.execute` on the list `s`; `freshId` is the id `save` draws. */
  function CreateStep(s: seq<Contact>, input: CreateInput, now: Time, freshId: string): (step: Step<Contact>)
    ensures step.result == Err(NamesRequired) <==> !Truthy(input.firstName) || !Truthy(input.lastName)
    ensures step.result == Err(PhoneNumbers.InvalidFormat) <==>
      Truthy(input.firstName) && Truthy(input.lastName) && !PhoneNumbers.IsValid(input.phoneNumber)
    ensures step.result == Err(PhoneTaken) <==>
      Truthy(input.firstName) && Truthy(input.lastName) && PhoneNumbers.IsValid(input.phoneNumber) &&
      exists c :: c in s && c.phoneNumber == PhoneNumbers.Normalize(input.phoneNumber)
    ensures step.result.Ok? <==>
      && Truthy(input.firstName) && Truthy(input.lastName) && PhoneNumbers.IsValid(input.phoneNumber)
      && !exists c :: c in s && c.phoneNumber == PhoneNumbers.Normalize(input.phoneNumber)
    ensures step.result.Err? ==> step.after == s
    ensures step.result.Ok? ==>
      && Truthy(input.firstName) && Truthy(input.lastName)
      && step.result.value == NewRecord(input, PhoneNumbers.Normalize(input.phoneNumber), now).(id := freshId)
      && step.after == s + [step.result.value]
  {
    if !Truthy(input.firstName) || !Truthy(input.lastName) then Step(Err(NamesRequired), s)
    else match PhoneNumbers.Parse(input.phoneNumber)
      case Err(m) => Step(Err(m), s)
      case Ok(phone) =>
        if FindFirst(s, HasPhone(phone.ToString())).Some? then Step(Err(PhoneTaken), s)
        else
          var saved := NewRecord(input, phone.ToString(), now).(id := freshId);
          Step(Ok(saved), s + [saved])
  }

  /** A create keeps the list consistent, and a successful one adds exactly one contact. */
  lemma CreateKeepsConsistent(s: seq<Contact>, input: CreateInput, now: Time, freshId: string)
    requires Consistent(s)
    requires freshId != "" && forall c :: c in s ==> c.id != freshId
    ensures Consistent(CreateStep(s, input, now, freshId).after)
    ensures |CreateStep(s, input, now, freshId).after| == |s| + (if CreateStep(s, input, now, freshId).result.Ok? then 1 else 0)
  {
    var step := CreateStep(s, input, now, freshId);
    if step.result.Ok? {
      var c := step.result.value;
      var phone := PhoneNumbers.Parse(input.phoneNumber);
      assert phone.Ok? && c.phoneNumber == phone.value.ToString();
      forall i | 0 <= i < |s| ensures IdOf(s[i]) != IdOf(c) && PhoneOf(s[i]) != PhoneOf(c) {
        assert s[i] in s;
      }
      AppendKeepsDistinct(s, c, IdOf);
      AppendKeepsDistinct(s, c, PhoneOf);
    }
  }

  /** A create keeps phone numbers pairwise distinct on any list where they already are. */
  lemma CreateKeepsUniquePhones(s: seq<Contact>, input: CreateInput, now: Time, freshId: string)
    requires UniquePhones(s)
    ensures UniquePhones(CreateStep(s, input, now, freshId).after)
  {
    var step := CreateStep(s, input, now, freshId);
    if step.result.Ok? {
      var c := step.result.value;
      forall i | 0 <= i < |s| ensures PhoneOf(s[i]) != PhoneOf(c) {
        assert s[i] in s;
      }
      AppendKeepsDistinct(s, c, PhoneOf);
    }
  }

  /** `CreateContactUseCase.execute`: names, then phone format, then the duplicate lookup, then `save`. */
  method CreateContact(repo: LocalStorageContactRepository, input: CreateInput, now: Time, freshId: string)
    returns (r: Result<Contact>)
    requires freshId != ""
    modifies repo
    ensures r == CreateStep(old(repo.Contacts()), input, now, freshId).result
    ensures repo.windowPresent ==> repo.Contacts() == CreateStep(old(repo.Contacts()), input, now, freshId).after
    ensures r.Err? || !repo.windowPresent ==> unchanged(repo)
    ensures old(Consistent(repo.Contacts())) && (forall c :: c in old(repo.Contacts()) ==> c.id != freshId) ==>
      Consistent(repo.Contacts())
  {
    ghost var before := repo.Contacts();
    if Consistent(before) && forall c :: c in before ==> c.id != freshId {
      CreateKeepsConsistent(before, input, now, freshId);
    }
    if !Truthy(input.firstName) || !Truthy(input.lastName) {
      return Err(NamesRequired);
    }
    var phone := PhoneNumbers.Parse(input.phoneNumber);
    if phone.Err? {
      return Err(phone.message);
    }
    var existing := repo.FindByPhoneNumber(phone.value.ToString());
    if existing.Some? {
      return Err(PhoneTaken);
    }
    var contact := new ContactEntity("", input.firstName.value, input.lastName.value, phone.value.ToString(),
                                     input.email, input.address, input.notes, None, None, now);
    var saved := repo.Save(contact.Value(), freshId);
    return Ok(saved);
  }

  // ---------------------------------------------------------------- update

  /** `if (data.phoneNumber)`: the phone in the patch is validated only when it is a non-empty string. */
  predicate ChecksPhone(p: Patch) {
    p.phoneNumber.Value? && p.phoneNumber.value != ""
  }

  /** The patch handed to the repository: the input patch, its phone normalised when it was checked. */
  function Forwarded(p: Patch): Patch {
    if ChecksPhone(p) && PhoneNumbers.IsValid(p.phoneNumber.value)
    then p.(phoneNumber := Value(PhoneNumbers.Normalize(p.phoneNumber.value)))
    else p
  }

  /** The repository's `update` on the list: merge into the contact at `i`, by `??`. */
  function ApplyAt(s: seq<Contact>, i: nat, p: Patch, now: Time): Step<Contact>
    requires i < |s|
  {
    var updated := MergeNullish(s[i], p, now);
    Step(Ok(updated), s[i := updated])
  }

  /** `UpdateContactUseCase.execute` on the list `s`, as written. */
  function UpdateStep(s: seq<Contact>, id: string, p: Patch, now: Time): (step: Step<Contact>)
    ensures step.result == Err(NotFound) <==> forall c :: c in s ==> c.id != id
    ensures step.result == Err(PhoneNumbers.InvalidFormat) <==>
      (exists c :: c in s && c.id == id) && ChecksPhone(p) && !PhoneNumbers.IsValid(p.phoneNumber.value)
    ensures step.result == Err(PhoneTakenByAnother) <==>
      && (exists c :: c in s && c.id == id)
      && ChecksPhone(p) && PhoneNumbers.IsValid(p.phoneNumber.value)
      && var owner := FindFirst(s, HasPhone(PhoneNumbers.Normalize(p.phoneNumber.value)));
         owner.Some? && owner.value.id != id
    ensures step.result != Err(UpdateFailed)
    ensures (exists c :: c in s && c.id == id) &&
      (!ChecksPhone(p) ||
       (PhoneNumbers.IsValid(p.phoneNumber.value) &&
        forall c :: c in s && c.phoneNumber == PhoneNumbers.Normalize(p.phoneNumber.value) ==> c.id == id))
      ==> step.result.Ok?
    ensures step.result.Ok? <==>
      && (exists c :: c in s && c.id == id)
      && (!ChecksPhone(p) ||
          (PhoneNumbers.IsValid(p.phoneNumber.value) &&
           var owner := FindFirst(s, HasPhone(PhoneNumbers.Normalize(p.phoneNumber.value)));
           owner.None? || owner.value.id == id))
    ensures step.result.Err? ==> step.result.message in {NotFound, PhoneNumbers.InvalidFormat, PhoneTakenByAnother}
    ensures step.result.Err? ==> step.after == s
    ensures step.result.Ok? ==>
      var i := FindIndex(s, HasId(id));
      && i.Some?
      && step.result.value == MergeNullish(s[i.value], Forwarded(p), now)
      && step.after == s[i.value := step.result.value]
  {
    match FindIndex(s, HasId(id))
    case None => Step(Err(NotFound), s)
    case Some(i) =>
      if ChecksPhone(p) then
        match PhoneNumbers.Parse(p.phoneNumber.value)
        case Err(m) => Step(Err(m), s)
        case Ok(phone) =>
          var owner := FindFirst(s, HasPhone(phone.ToString()));
          if owner.Some? && owner.value.id != id then Step(Err(PhoneTakenByAnother), s)
          else ApplyAt(s, i, p.(phoneNumber := Value(phone.ToString())), now)
      else ApplyAt(s, i, p, now)
  }

  /** The patch sets a name or the phone to the empty string. */
  predicate BlanksAField(p: Patch) {
    p.firstName == Value("") || p.lastName == Value("") || p.phoneNumber == Value("")
  }

  /** An update whose patch blanks no field keeps the list consistent. */
  lemma UpdateKeepsConsistent(s: seq<Contact>, id: string, p: Patch, now: Time)
    requires Consistent(s) && NotBefore(s, now) && !BlanksAField(p)
    ensures Consistent(UpdateStep(s, id, p, now).after)
  {
    var step := UpdateStep(s, id, p, now);
    if step.result.Ok? {
      var i := FindIndex(s, HasId(id)).value;
      var u := step.result.value;
      assert s[i] in s;
      forall j | 0 <= j < |s| && j != i ensures IdOf(s[j]) != IdOf(u) && PhoneOf(s[j]) != PhoneOf(u) {
        assert IdOf(s[j]) != IdOf(s[i]);
        if ChecksPhone(p) {
          var v := PhoneNumbers.Normalize(p.phoneNumber.value);
          assert u.phoneNumber == v;
          var owner := FindFirst(s, HasPhone(v));
          if owner.Some? {
            var k :| 0 <= k < |s| && s[k] == owner.value && HasPhone(v)(s[k]);
            assert s[k].id == id;
            assert PhoneOf(s[j]) != PhoneOf(s[k]);
          } else {
            assert s[j] in s;
          }
        } else {
          assert PhoneOf(s[j]) != PhoneOf(s[i]);
        }
      }
      ReplaceKeepsDistinct(s, i, u, IdOf);
      ReplaceKeepsDistinct(s, i, u, PhoneOf);
      forall c | c in step.after
        ensures c.id != "" && c.firstName != "" && c.lastName != ""
        ensures PhoneNumbers.IsCanonical(c.phoneNumber) && c.createdAt <= c.updatedAt
      {
        var j :| 0 <= j < |step.after| && step.after[j] == c;
        if j != i {
          assert c == s[j] && c in s;
        }
      }
    }
  }

  /** Updating a contact to the phone it already holds, in any format, is allowed. */
  lemma UpdateToOwnPhone(s: seq<Contact>, k: nat, raw: string, now: Time)
    requires Consistent(s) && k < |s|
    requires PhoneNumbers.IsValid(raw) && PhoneNumbers.Normalize(raw) == s[k].phoneNumber
    ensures var step := UpdateStep(s, s[k].id, EmptyPatch.(phoneNumber := Value(raw)), now);
      step.result.Ok? && step.result.value.phoneNumber == s[k].phoneNumber
  {
    assert s[k] in s;
    forall c | c in s && c.phoneNumber == s[k].phoneNumber ensures c.id == s[k].id {
      var j :| 0 <= j < |s| && s[j] == c;
      assert PhoneOf(s[j]) == PhoneOf(s[k]);
    }
  }

  /** As written, an update whose phone is the empty string skips validation and empties the stored phone. */
  lemma UpdateBlanksPhone(s: seq<Contact>, id: string, now: Time)
    requires exists c :: c in s && c.id == id
    ensures var step := UpdateStep(s, id, EmptyPatch.(phoneNumber := Value("")), now);
      step.result.Ok? && step.result.value.phoneNumber == "" && !Consistent(step.after)
  {
    var step := UpdateStep(s, id, EmptyPatch.(phoneNumber := Value("")), now);
    var i := FindIndex(s, HasId(id)).value;
    assert step.after[i] in step.after;
  }

  /** As written, blanking the phones of two different contacts leaves them sharing the phone "". */
  lemma UpdateDuplicatesBlankPhone(s: seq<Contact>, id1: string, id2: string, now1: Time, now2: Time)
    requires id1 != id2
    requires (exists c :: c in s && c.id == id1) && (exists c :: c in s && c.id == id2)
    ensures var p := EmptyPatch.(phoneNumber := Value(""));
      var first := UpdateStep(s, id1, p, now1);
      var second := UpdateStep(first.after, id2, p, now2);
      first.result.Ok? && second.result.Ok? && !UniquePhones(second.after)
  {
    var p := EmptyPatch.(phoneNumber := Value(""));
    var first := UpdateStep(s, id1, p, now1);
    var i1 := FindIndex(s, HasId(id1)).value;
    var k :| 0 <= k < |s| && s[k].id == id2;
    assert first.after[k].id == id2 && first.after[k] in first.after;
    var second := UpdateStep(first.after, id2, p, now2);
    var i2 := FindIndex(first.after, HasId(id2)).value;
    assert i2 != i1;
    var t := second.after;
    assert PhoneOf(t[i1]) == "" == PhoneOf(t[i2]);
    if i1 < i2 {
      assert !(PhoneOf(t[i1]) != PhoneOf(t[i2]));
    } else {
      assert !(PhoneOf(t[i2]) != PhoneOf(t[i1]));
    }
  }

  /** As written, names are not checked again: an update can empty the first name. */
  lemma UpdateBlanksName(s: seq<Contact>, id: string, now: Time)
    requires exists c :: c in s && c.id == id
    ensures var step := UpdateStep(s, id, EmptyPatch.(firstName := Value("")), now);
      step.result.Ok? && step.result.value.firstName == "" && !Consistent(step.after)
  {
    var step := UpdateStep(s, id, EmptyPatch.(firstName := Value("")), now);
    var i := FindIndex(s, HasId(id)).value;
    assert step.after[i] in step.after;
  }

  /**
   * The update with the checks create applies: a patch may not empty a name
   * ("First name and last name are required", CreateContact.ts:16-18), and a phone present in
   * the patch is validated even when it is the empty string (PhoneNumber.ts:11-15).
   */
  function UpdateStepChecked(s: seq<Contact>, id: string, p: Patch, now: Time): (step: Step<Contact>)
    ensures step.result == Err(NotFound) <==> forall c :: c in s ==> c.id != id
    ensures step.result.Ok? ==> !BlanksAField(p) && step == UpdateStep(s, id, p, now)
    ensures (exists c :: c in s && c.id == id) && !BlanksAField(p) ==> step == UpdateStep(s, id, p, now)
    ensures step.result.Err? ==> step.after == s
  {
    if FindIndex(s, HasId(id)).None? then Step(Err(NotFound), s)
    else if p.firstName == Value("") || p.lastName == Value("") then Step(Err(NamesRequired), s)
    else if p.phoneNumber == Value("") then Step(Err(PhoneNumbers.InvalidFormat), s)
    else UpdateStep(s, id, p, now)
  }

  /** The checked update keeps the list consistent for every patch. */
  lemma UpdateCheckedKeepsConsistent(s: seq<Contact>, id: string, p: Patch, now: Time)
    requires Consistent(s) && NotBefore(s, now)
    ensures Consistent(UpdateStepChecked(s, id, p, now).after)
  {
    if UpdateStepChecked(s, id, p, now).result.Ok? {
      UpdateKeepsConsistent(s, id, p, now);
    }
  }

  /** `UpdateContactUseCase.execute`: lookup, phone check, the repository `update`, its result guard. */
  method UpdateContact(repo: LocalStorageContactRepository, id: string, data: Patch, now: Time)
    returns (r: Result<Contact>)
    modifies repo
    ensures r == UpdateStep(old(repo.Contacts()), id, data, now).result
    ensures repo.Contacts() == UpdateStep(old(repo.Contacts()), id, data, now).after
    ensures r.Err? ==> unchanged(repo)
  {
    var existing := repo.FindById(id);
    if existing.None? {
      return Err(NotFound);
    }
    var updateData := data;
    if data.phoneNumber.Value? && data.phoneNumber.value != "" {
      var phone := PhoneNumbers.Parse(data.phoneNumber.value);
      if phone.Err? {
        return Err(phone.message);
      }
      var withPhone := repo.FindByPhoneNumber(phone.value.ToString());
      if withPhone.Some? && withPhone.value.id != id {
        return Err(PhoneTakenByAnother);
      }
      updateData := updateData.(phoneNumber := Value(phone.value.ToString()));
    }
    var updated := repo.Update(id, updateData, now);
    if updated.None? {
      return Err(UpdateFailed);
    }
    return Ok(updated.value);
  }

  /** The update use case with the checks of `UpdateStepChecked`; it keeps the stored list consistent. */
  method UpdateContactChecked(repo: LocalStorageContactRepository, id: string, data: Patch, now: Time)
    returns (r: Result<Contact>)
    modifies repo
    ensures r == UpdateStepChecked(old(repo.Contacts()), id, data, now).result
    ensures repo.Contacts() == UpdateStepChecked(old(repo.Contacts()), id, data, now).after
    ensures r.Err? ==> unchanged(repo)
    ensures old(Consistent(repo.Contacts()) && NotBefore(repo.Contacts(), now)) ==> Consistent(repo.Contacts())
  {
    ghost var before := repo.Contacts();
    if Consistent(before) && NotBefore(before, now) {
      UpdateCheckedKeepsConsistent(before, id, data, now);
    }
    var existing := repo.FindById(id);
    if existing.None? {
      return Err(NotFound);
    }
    if data.firstName == Value("") || data.lastName == Value("") {
      return Err(NamesRequired);
    }
    if data.phoneNumber == Value("") {
      return Err(PhoneNumbers.InvalidFormat);
    }
    r := UpdateContact(repo, id, data, now);
  }

  // ---------------------------------------------------------------- delete

  /** `DeleteContactUseCase.execute` on the list `s`. */
  function DeleteStep(s: seq<Contact>, id: string): (step: Step<()>)
    ensures step.result == Err(NotFound) <==> forall c :: c in s ==> c.id != id
    ensures step.result != Err(DeleteFailed)
    ensures (exists c :: c in s && c.id == id) ==> step.result.Ok?
    ensures step.result.Err? ==> step.after == s
    ensures step.result.Ok? ==> step.after == Filter(s, HasOtherId(id)) && |step.after| < |s|
  {
    if FindFirst(s, HasId(id)).None? then Step(Err(NotFound), s)
    else
      var remaining := Filter(s, HasOtherId(id));
      FilterShrinks(s, HasOtherId(id));
      if |remaining| < |s| then Step(Ok(()), remaining) else Step(Err(DeleteFailed), s)
  }

  /** A delete keeps the list consistent and, when it succeeds, removes exactly the contact with that id. */
  lemma DeleteKeepsConsistent(s: seq<Contact>, id: string)
    requires Consistent(s)
    ensures Consistent(DeleteStep(s, id).after)
    ensures DeleteStep(s, id).result.Ok? ==>
      |DeleteStep(s, id).after| == |s| - 1 && forall c :: c in DeleteStep(s, id).after ==> c.id != id
  {
    var step := DeleteStep(s, id);
    if step.result.Ok? {
      var f := HasOtherId(id);
      FilterKeepsDistinct(s, f, IdOf);
      FilterKeepsDistinct(s, f, PhoneOf);
      FilterMembership(s, f);
      var k := FindIndex(s, HasId(id)).value;
      DeleteRemovesOne(s, id, k);
    }
  }

  /** `DeleteContactUseCase.execute`: lookup, then `delete`, then its result guard. */
  method DeleteContact(repo: LocalStorageContactRepository, id: string) returns (r: Result<()>)
    modifies repo
    ensures r == DeleteStep(old(repo.Contacts()), id).result
    ensures repo.Contacts() == DeleteStep(old(repo.Contacts()), id).after
    ensures r.Err? ==> unchanged(repo)
    ensures old(Consistent(repo.Contacts())) ==> Consistent(repo.Contacts())
  {
    ghost var before := repo.Contacts();
    if Consistent(before) {
      DeleteKeepsConsistent(before, id);
    }
    var contact := repo.FindById(id);
    if contact.None? {
      return Err(NotFound);
    }
    var deleted := repo.Delete(id);
    if !deleted {
      return Err(DeleteFailed);
    }
    return Ok(());
  }

  // ---------------------------------------------------------------- get and list

  /** `GetContactUseCase.execute`: the contact `findById` yields, or "Contact not found". */
  function GetContact(repo: LocalStorageContactRepository, id: string): (r: Result<Contact>)
    reads repo
    ensures r.Err? <==> forall c :: c in repo.Contacts() ==> c.id != id
    ensures r.Err? ==> r.message == NotFound
    ensures r.Ok? ==> r.value in repo.Contacts() && r.value.id == id
    ensures r.Ok? ==> repo.FindById(id) == Some(r.value)
  {
    match repo.FindById(id)
    case None => Err(NotFound)
    case Some(c) => Ok(c)
  }

  /** What `ListContactsUseCase.execute` returns. */
  datatype Listing = Listing(contacts: seq<Contact>, total: nat)

  /** `ListContactsUseCase.execute`: `search` for a non-empty query, `findAll` otherwise, and `count`. */
  function ListContacts(repo: LocalStorageContactRepository, searchQuery: Option<string>): (r: Listing)
    reads repo
    ensures r.total == |repo.Contacts()|
    ensures |r.contacts| <= r.total
    ensures Truthy(searchQuery) ==> r.contacts == Filter(repo.FindAll(), MatchesQuery(searchQuery.value))
    ensures !Truthy(searchQuery) ==> multiset(r.contacts) == multiset(repo.Contacts()) && |r.contacts| == r.total
    ensures !Truthy(searchQuery) ==> r.contacts == repo.FindAll()
  {
    var contacts := if Truthy(searchQuery) then repo.Search(searchQuery.value) else repo.FindAll();
    SearchWithinCount(repo, if searchQuery.Some? then searchQuery.value else "");
    Listing(contacts, repo.Count())
  }
}
