/**
 * `ContactService`: the caller's contacts in the `Contacts` table. The server picks every new
 * key, and every lookup is scoped to the caller, so no operation changes another user's rows.
 */
module ContactService {
  import opened Primitives
  import opened Results
  import opened Models
  import opened MappingProfiles

  const NullDto := "DTO контакта не может быть пустым."
  const MissingIdForDelete := "Id контакта должен быть указан для удаления."
  const NotFound := "Контакт не найден."
  const MissingIdForUpdate := "Id контакта должен быть указан для обновления."
  const NotFoundForUpdate := "Контакт для обновления не найден."

  function ContactIds(s: seq<Contact>): (r: seq<Guid>)
    ensures |r| == |s| && forall i :: 0 <= i < |s| ==> r[i] == s[i].id
  {
    seq(|s|, i requires 0 <= i < |s| => s[i].id)
  }

  predicate DistinctIds(s: seq<Contact>) {
    forall i, j :: 0 <= i < j < |s| ==> s[i].id != s[j].id
  }

  /** `FirstOrDefault(c => c.Id == id && c.UserId == userId)`. */
  function FindOwned(s: seq<Contact>, id: Guid, userId: Guid): (r: Option<Contact>)
    ensures r.Some? ==> r.value in s && r.value.id == id && r.value.userId == userId
    ensures r.None? <==> forall c :: c in s ==> c.id != id || c.userId != userId
  {
    if |s| == 0 then Option.None
    else if s[0].id == id && s[0].userId == userId then Some(s[0])
    else FindOwned(s[1..], id, userId)
  }

  /** The table without the row whose key is `id`. */
  function RemoveById(s: seq<Contact>, id: Guid): (r: seq<Contact>)
    ensures forall c :: c in r <==> c in s && c.id != id
  {
    if |s| == 0 then []
    else (if s[0].id == id then [] else [s[0]]) + RemoveById(s[1..], id)
  }

  lemma {:induction false} RemovePreservesDistinct(s: seq<Contact>, id: Guid)
    requires DistinctIds(s)
    ensures DistinctIds(RemoveById(s, id))
  {
    if |s| > 0 {
      assert DistinctIds(s[1..]);
      RemovePreservesDistinct(s[1..], id);
      var r := RemoveById(s[1..], id);
      forall j | 0 <= j < |r|
        ensures r[j].id != s[0].id
      {
        assert r[j] in r;
        var k :| 0 <= k < |s[1..]| && s[1..][k] == r[j];
        assert s[k + 1] == r[j];
      }
    }
  }

  /** Overwrites the row whose key is `id`. */
  function ReplaceById(s: seq<Contact>, id: Guid, row: Contact): (r: seq<Contact>)
    ensures |r| == |s|
    ensures forall i :: 0 <= i < |s| ==> r[i] == (if s[i].id == id then row else s[i])
  {
    seq(|s|, i requires 0 <= i < |s| => if s[i].id == id then row else s[i])
  }

  /** The contact `AddAsync` stores: the DTO's data, the caller as owner and a server-chosen key. */
  function NewContactFrom(dto: ContactDto, userId: Guid, freshId: Guid): (c: Contact)
    ensures c.id == freshId && c.userId == userId
    ensures c.contactType == dto.contactType && c.value == dto.value
    ensures c.description == dto.description && c.isPrimary == dto.isPrimary
  {
    ContactFromDto(dto, NewContact).(userId := userId).(id := freshId)
  }

  /** The owned contact after `UpdateAsync`: the DTO's data over the old row, owner reassigned to the caller. */
  function UpdatedContact(dto: ContactDto, existing: Contact, userId: Guid): Contact {
    ContactFromDto(dto, existing).(userId := userId)
  }

  /**
   * An update of an owned contact copies type, value, description and the primary flag, and
   * keeps both the key and the owner.
   */
  lemma UpdateCopiesData(dto: ContactDto, existing: Contact, userId: Guid)
    requires dto.id != EmptyGuid && existing.id == dto.id && existing.userId == userId
    ensures var c := UpdatedContact(dto, existing, userId);
      && c.id == existing.id && c.userId == existing.userId
      && c.contactType == dto.contactType && c.value == dto.value
      && c.description == dto.description && c.isPrimary == dto.isPrimary
  {
  }

  /** The caller's contacts, in table order. */
  function OwnedBy(s: seq<Contact>, userId: Guid): (r: seq<Contact>)
    ensures forall c :: c in r <==> c in s && c.userId == userId
    ensures |r| <= |s|
  {
    if |s| == 0 then []
    else (if s[0].userId == userId then [s[0]] else []) + OwnedBy(s[1..], userId)
  }

  function ContactDtos(s: seq<Contact>): (r: seq<ContactDto>)
    ensures |r| == |s| && forall i :: 0 <= i < |s| ==> r[i] == ContactToDto(s[i])
  {
    seq(|s|, i requires 0 <= i < |s| => ContactToDto(s[i]))
  }

  /** `GetByUserIdAsync`: always a success, listing exactly the caller's contacts. */
  function GetByUserId(s: seq<Contact>, userId: Guid): (r: Result<seq<ContactDto>, string>)
    ensures r.IsSuccess()
    ensures forall d :: d in r.Value() <==> exists c :: c in s && c.userId == userId && d == ContactToDto(c)
    ensures (forall c :: c in s ==> c.userId != userId) ==> r.Value() == []
  {
    var rows := OwnedBy(s, userId);
    if |rows| == 0 then Success([])
    else
      var dtos := ContactDtos(rows);
      assert rows[0] in rows;
      assert forall d :: d in dtos <==> exists i :: 0 <= i < |rows| && d == ContactToDto(rows[i]);
      Success(dtos)
  }

  class ContactTable {
    var contacts: seq<Contact>

    ghost predicate Valid()
      reads this
    {
      DistinctIds(contacts)
    }

    constructor ()
      ensures contacts == [] && Valid()
    {
      contacts := [];
    }

    /**
     * `AddAsync`. A null DTO fails and adds nothing. Otherwise the client's `Id` and `UserId`
     * are ignored: the row gets `freshId` and the caller as owner, and is appended.
     */
    method Add(userId: Guid, dto: Option<ContactDto>, freshId: Guid) returns (r: Result<ContactDto, string>)
      requires Valid() && freshId !in ContactIds(contacts)
      modifies this
      ensures Valid()
      ensures dto.None? ==> r == Failure(NullDto) && contacts == old(contacts)
      ensures dto.Some? ==> var c := NewContactFrom(dto.value, userId, freshId);
        r == Success(ContactToDto(c)) && contacts == old(contacts) + [c]
    {
      if dto.None? {
        return Failure(NullDto);
      }
      var contact := ContactFromDto(dto.value, NewContact);
      contact := contact.(userId := userId);
      contact := contact.(id := freshId);
      contacts := contacts + [contact];
      return Success(ContactToDto(contact));
    }

    /**
     * `DeleteAsync`. An empty key fails; a key that is missing or owned by someone else gives
     * the same "not found" failure; either way nothing changes. Otherwise that one row goes.
     */
    method Delete(userId: Guid, contactId: Guid) returns (r: EmptyResult)
      requires Valid()
      modifies this
      ensures Valid()
      ensures contactId == EmptyGuid ==> r == EmptyFailure(MissingIdForDelete) && contacts == old(contacts)
      ensures contactId != EmptyGuid && FindOwned(old(contacts), contactId, userId).None? ==>
        r == EmptyFailure(NotFound) && contacts == old(contacts)
      ensures contactId != EmptyGuid && FindOwned(old(contacts), contactId, userId).Some? ==>
        r == EmptySuccess() && contacts == RemoveById(old(contacts), contactId)
    {
      if contactId == EmptyGuid {
        return EmptyFailure(MissingIdForDelete);
      }
      var contact := FindOwned(contacts, contactId, userId);
      if contact.None? {
        return EmptyFailure(NotFound);
      }
      RemovePreservesDistinct(contacts, contactId);
      contacts := RemoveById(contacts, contactId);
      return EmptySuccess();
    }

    /**
     * `UpdateAsync`. A null DTO or an empty key fails; a contact the caller does not own gives
     * "not found"; either way nothing changes. Otherwise the owned row is overwritten.
     */
    method Update(userId: Guid, dto: Option<ContactDto>) returns (r: Result<ContactDto, string>)
      requires Valid()
      modifies this
      ensures Valid()
      ensures (dto.None? || dto.value.id == EmptyGuid) ==> r == Failure(MissingIdForUpdate) && contacts == old(contacts)
      ensures dto.Some? && dto.value.id != EmptyGuid && FindOwned(old(contacts), dto.value.id, userId).None? ==>
        r == Failure(NotFoundForUpdate) && contacts == old(contacts)
      ensures dto.Some? && dto.value.id != EmptyGuid && FindOwned(old(contacts), dto.value.id, userId).Some? ==>
        var c := UpdatedContact(dto.value, FindOwned(old(contacts), dto.value.id, userId).value, userId);
        r == Success(ContactToDto(c)) && contacts == ReplaceById(old(contacts), dto.value.id, c)
    {
      if dto.None? || dto.value.id == EmptyGuid {
        return Failure(MissingIdForUpdate);
      }
      var existing := FindOwned(contacts, dto.value.id, userId);
      if existing.None? {
        return Failure(NotFoundForUpdate);
      }
      var updated := ContactFromDto(dto.value, existing.value);
      updated := updated.(userId := userId);
      contacts := ReplaceById(contacts, dto.value.id, updated);
      assert ContactIds(contacts) == ContactIds(old(contacts));
      return Success(ContactToDto(updated));
    }
  }

  /** Removing a key the table does not hold keeps every row. */
  lemma {:induction false} RemoveAbsentKeepsAll(s: seq<Contact>, id: Guid)
    requires id !in ContactIds(s)
    ensures RemoveById(s, id) == s
  {
    if |s| > 0 {
      assert s[0].id == ContactIds(s)[0];
      assert id !in ContactIds(s[1..]) by {
        assert forall x :: 0 <= x < |s| - 1 ==> ContactIds(s[1..])[x] == ContactIds(s)[x + 1];
      }
      RemoveAbsentKeepsAll(s[1..], id);
      assert s == [s[0]] + s[1..];
    }
  }

  /** On a table with distinct keys, deleting a key it holds removes exactly one row. */
  lemma {:induction false} DeleteRemovesExactlyOne(s: seq<Contact>, id: Guid)
    requires DistinctIds(s) && id in ContactIds(s)
    ensures |RemoveById(s, id)| == |s| - 1
  {
    var x :| 0 <= x < |s| && ContactIds(s)[x] == id;
    assert DistinctIds(s[1..]);
    assert forall y :: 0 <= y < |s| - 1 ==> ContactIds(s[1..])[y] == s[y + 1].id;
    if s[0].id == id {
      assert id !in ContactIds(s[1..]);
      RemoveAbsentKeepsAll(s[1..], id);
    } else {
      assert ContactIds(s[1..])[x - 1] == id;
      DeleteRemovesExactlyOne(s[1..], id);
    }
  }

  /**
   * An update never moves a row to another owner: on a table with distinct keys every row keeps
   * its owner, and only the row with the DTO's key changes.
   */
  lemma UpdateNeverReassignsOwner(s: seq<Contact>, dto: ContactDto, userId: Guid, i: int)
    requires DistinctIds(s) && 0 <= i < |s| && dto.id != EmptyGuid
    requires FindOwned(s, dto.id, userId).Some?
    ensures var t := ReplaceById(s, dto.id, UpdatedContact(dto, FindOwned(s, dto.id, userId).value, userId));
      t[i].userId == s[i].userId && (s[i].id != dto.id ==> t[i] == s[i])
  {
    var e := FindOwned(s, dto.id, userId).value;
    if s[i].id == dto.id {
      var j :| 0 <= j < |s| && s[j] == e;
      assert j == i;
    }
  }

  /** An added contact shows up in its owner's listing, and only there. */
  lemma AddedContactListed(s: seq<Contact>, dto: ContactDto, userId: Guid, freshId: Guid, other: Guid)
    requires other != userId
    ensures ContactToDto(NewContactFrom(dto, userId, freshId)) in GetByUserId(s + [NewContactFrom(dto, userId, freshId)], userId).Value()
    ensures forall d ::
      (d in GetByUserId(s + [NewContactFrom(dto, userId, freshId)], other).Value() <==> d in GetByUserId(s, other).Value())
  {
    var c := NewContactFrom(dto, userId, freshId);
    assert c in s + [c];
    forall d
      ensures d in GetByUserId(s + [c], other).Value() <==> d in GetByUserId(s, other).Value()
    {
      assert forall x :: x in s + [c] && x.userId == other ==> x in s;
    }
  }
}
