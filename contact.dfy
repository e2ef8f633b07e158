/**
 * The contact record, the partial update applied to it, and the `ContactEntity` class whose
 * `update` changes its fields in place.
 */
module Contacts {
  import opened Common

  /** A `Date`, as the milliseconds since the epoch it holds. */
  type Time = int

  /** The `Contact` interface: what the repository stores and returns. */
  datatype Contact = Contact(
    id: string,
    firstName: string,
    lastName: string,
    phoneNumber: string,
    email: Option<string>,
    address: Option<string>,
    notes: Option<string>,
    createdAt: Time,
    updatedAt: Time)
  {
    /** The `fullName` getter: the first name, one space, the last name. */
    function FullName(): (r: string)
      ensures |r| == |firstName| + 1 + |lastName|
      ensures r[..|firstName|] == firstName && r[|firstName|] == ' ' && r[|firstName| + 1..] == lastName
    {
      firstName + " " + lastName
    }
  }

  /** `Partial<Omit<Contact, 'id' | 'createdAt' | 'updatedAt'>>`, telling absent keys from `undefined` ones. */
  datatype Patch = Patch(
    firstName: Slot<string>,
    lastName: Slot<string>,
    phoneNumber: Slot<string>,
    email: Slot<string>,
    address: Slot<string>,
    notes: Slot<string>)
  {
    /** The patch does not set a required field to `undefined`. */
    predicate KeepsRequiredDefined() {
      !firstName.Undefined? && !lastName.Undefined? && !phoneNumber.Undefined?
    }
  }

  const EmptyPatch := Patch(Absent, Absent, Absent, Absent, Absent, Absent)

  /** `Object.assign` on one optional field: an absent key keeps, `undefined` clears, a value replaces. */
  function AssignOptional(prev: Option<string>, s: Slot<string>): Option<string> {
    match s
    case Absent => prev
    case Undefined => None
    case Value(v) => Some(v)
  }

  /** `s ?? prev` on a required field. */
  function Coalesce(prev: string, s: Slot<string>): string {
    if s.Value? then s.value else prev
  }

  /** `s ?? prev` on an optional field: `undefined` and an absent key both keep the old value. */
  function CoalesceOptional(prev: Option<string>, s: Slot<string>): Option<string> {
    if s.Value? then Some(s.value) else prev
  }

  /** The record after `ContactEntity.update(p)` at time `now`: `Object.assign`, then the new `updatedAt`. */
  function MergeAssign(c: Contact, p: Patch, now: Time): (r: Contact)
    requires p.KeepsRequiredDefined()
    ensures r.id == c.id && r.createdAt == c.createdAt && r.updatedAt == now
    ensures r.firstName == if p.firstName.Value? then p.firstName.value else c.firstName
    ensures r.lastName == if p.lastName.Value? then p.lastName.value else c.lastName
    ensures r.phoneNumber == if p.phoneNumber.Value? then p.phoneNumber.value else c.phoneNumber
    ensures p.email.Absent? ==> r.email == c.email
    ensures p.email.Undefined? ==> r.email.None?
    ensures p.email.Value? ==> r.email == Some(p.email.value)
    ensures p.address.Absent? ==> r.address == c.address
    ensures p.address.Undefined? ==> r.address.None?
    ensures p.address.Value? ==> r.address == Some(p.address.value)
    ensures p.notes.Absent? ==> r.notes == c.notes
    ensures p.notes.Undefined? ==> r.notes.None?
    ensures p.notes.Value? ==> r.notes == Some(p.notes.value)
  {
    c.(firstName := Coalesce(c.firstName, p.firstName),
       lastName := Coalesce(c.lastName, p.lastName),
       phoneNumber := Coalesce(c.phoneNumber, p.phoneNumber),
       email := AssignOptional(c.email, p.email),
       address := AssignOptional(c.address, p.address),
       notes := AssignOptional(c.notes, p.notes),
       updatedAt := now)
  }

  /** The record the browser-storage adapter's `update` builds: every field is `patch ?? existing`. */
  function MergeNullish(c: Contact, p: Patch, now: Time): (r: Contact)
    ensures r.id == c.id && r.createdAt == c.createdAt && r.updatedAt == now
    ensures r.firstName == if p.firstName.Value? then p.firstName.value else c.firstName
    ensures r.lastName == if p.lastName.Value? then p.lastName.value else c.lastName
    ensures r.phoneNumber == if p.phoneNumber.Value? then p.phoneNumber.value else c.phoneNumber
    ensures r.email == if p.email.Value? then Some(p.email.value) else c.email
    ensures r.address == if p.address.Value? then Some(p.address.value) else c.address
    ensures r.notes == if p.notes.Value? then Some(p.notes.value) else c.notes
  {
    c.(firstName := Coalesce(c.firstName, p.firstName),
       lastName := Coalesce(c.lastName, p.lastName),
       phoneNumber := Coalesce(c.phoneNumber, p.phoneNumber),
       email := CoalesceOptional(c.email, p.email),
       address := CoalesceOptional(c.address, p.address),
       notes := CoalesceOptional(c.notes, p.notes),
       updatedAt := now)
  }

  /** An empty patch changes nothing but `updatedAt`, under either merge rule. */
  lemma EmptyPatchOnlyStamps(c: Contact, now: Time)
    ensures MergeAssign(c, EmptyPatch, now) == c.(updatedAt := now)
    ensures MergeNullish(c, EmptyPatch, now) == c.(updatedAt := now)
  {
  }

  /**
   * The two merge rules agree exactly when no optional field that holds a value is set to
   * `undefined`: there `Object.assign` clears it and `??` keeps it.
   */
  lemma AssignVersusNullish(c: Contact, p: Patch, now: Time)
    requires p.KeepsRequiredDefined()
    ensures MergeAssign(c, p, now) == MergeNullish(c, p, now) <==>
      (p.email.Undefined? ==> c.email.None?) &&
      (p.address.Undefined? ==> c.address.None?) &&
      (p.notes.Undefined? ==> c.notes.None?)
  {
    var a, n := MergeAssign(c, p, now), MergeNullish(c, p, now);
    if a == n {
      assert a.email == n.email && a.address == n.address && a.notes == n.notes;
    }
  }

  /** `ContactEntity`: a contact object whose fields `update` changes in place. */
  class ContactEntity {
    var id: string
    var firstName: string
    var lastName: string
    var phoneNumber: string
    var email: Option<string>
    var address: Option<string>
    var notes: Option<string>
    var createdAt: Time
    var updatedAt: Time

    /** The record this object currently holds. */
    function Value(): Contact
      reads this
    {
      Contact(id, firstName, lastName, phoneNumber, email, address, notes, createdAt, updatedAt)
    }

    /** The constructor: an omitted timestamp defaults to `new Date()`, here `now`. */
    constructor (id: string, firstName: string, lastName: string, phoneNumber: string,
                 email: Option<string>, address: Option<string>, notes: Option<string>,
                 createdAt: Option<Time>, updatedAt: Option<Time>, now: Time)
      ensures Value() == Contact(id, firstName, lastName, phoneNumber, email, address, notes,
                                 if createdAt.Some? then createdAt.value else now,
                                 if updatedAt.Some? then updatedAt.value else now)
    {
      this.id := id;
      this.firstName := firstName;
      this.lastName := lastName;
      this.phoneNumber := phoneNumber;
      this.email := email;
      this.address := address;
      this.notes := notes;
      this.createdAt := if createdAt.Some? then createdAt.value else now;
      this.updatedAt := if updatedAt.Some? then updatedAt.value else now;
    }

    /** The `fullName` getter. */
    function FullName(): (r: string)
      reads this
      ensures |r| == |firstName| + 1 + |lastName|
      ensures r[..|firstName|] == firstName && r[|firstName|] == ' ' && r[|firstName| + 1..] == lastName
    {
      Value().FullName()
    }

    /** `update(data)`: `Object.assign(this, data)`, then `updatedAt` becomes `now`. */
    method Update(p: Patch, now: Time)
      requires p.KeepsRequiredDefined()
      modifies this
      ensures Value() == MergeAssign(old(Value()), p, now)
    {
      if p.firstName.Value? { firstName := p.firstName.value; }
      if p.lastName.Value? { lastName := p.lastName.value; }
      if p.phoneNumber.Value? { phoneNumber := p.phoneNumber.value; }
      if !p.email.Absent? { email := AssignOptional(email, p.email); }
      if !p.address.Absent? { address := AssignOptional(address, p.address); }
      if !p.notes.Absent? { notes := AssignOptional(notes, p.notes); }
      updatedAt := now;
    }
  }
}
