/** What the member handlers promise, stated over their table functions. */
module MemberProperties {
  import opened Dates
  import opened Models
  import opened Schemas
  import opened Errors
  import opened Database
  import opened MemberRoutes

  /** No two members share an email. */
  ghost predicate UniqueEmails(members: map<MemberId, Member>) {
    forall a, b :: a in members && b in members && a != b ==> members[a].email != members[b].email
  }

  /**
   * Registration fails exactly when the email is already in use; otherwise
   * the member gets the given fields, today's date and status `active`.
   */
  lemma CreateMemberChecksEmail(t: Tables, p: MemberCreate, today: Date)
    ensures CreateMemberSpec(t, p, today).Err?
            <==> exists id :: id in t.members && t.members[id].email == p.email
    ensures CreateMemberSpec(t, p, today).Err? ==> CreateMemberSpec(t, p, today).error == EmailTaken
    ensures CreateMemberSpec(t, p, today).Ok? ==>
            var c := CreateMemberSpec(t, p, today).value;
            var (id, m) := c.value;
            && m == Member(p.firstName, p.lastName, p.email, p.phone, p.address, today, Active)
            && c.tables.members == t.members[id := m]
            && (WellFormed(t) ==> id !in t.members)
            && c.tables.books == t.books && c.tables.loans == t.loans
  {
  }

  /** Registration keeps emails unique. */
  lemma CreateMemberKeepsEmailsUnique(t: Tables, p: MemberCreate, today: Date)
    requires UniqueEmails(t.members)
    ensures CreateMemberSpec(t, p, today).Ok? ==> UniqueEmails(CreateMemberSpec(t, p, today).value.tables.members)
  {
  }

  /** An update keeps emails unique. */
  lemma UpdateMemberKeepsEmailsUnique(t: Tables, memberId: MemberId, p: MemberUpdate)
    requires UniqueEmails(t.members)
    ensures UpdateMemberSpec(t, memberId, p).Ok? ==>
            UniqueEmails(UpdateMemberSpec(t, memberId, p).value.tables.members)
  {
  }

  /** Sending the member's own current email is never refused. */
  lemma UpdateMemberOwnEmailAccepted(t: Tables, memberId: MemberId, p: MemberUpdate)
    requires memberId in t.members && p.email == Set(t.members[memberId].email)
    ensures UpdateMemberSpec(t, memberId, p).Ok?
  {
  }

  /** Asking for an email another member holds is refused, and nothing is written. */
  lemma UpdateMemberTakenEmailRefused(t: Tables, memberId: MemberId, other: MemberId, p: MemberUpdate)
    requires UniqueEmails(t.members)
    requires memberId in t.members && other in t.members && other != memberId
    requires p.email == Set(t.members[other].email)
    ensures UpdateMemberSpec(t, memberId, p) == Err(EmailTaken)
  {
  }

  /** A successful update changes only the supplied fields of that one member. */
  lemma UpdateMemberPatchesFields(t: Tables, memberId: MemberId, p: MemberUpdate)
    requires UpdateMemberSpec(t, memberId, p).Ok?
    ensures var c := UpdateMemberSpec(t, memberId, p).value;
            var stored := t.members[memberId];
            var m := c.value;
            && c.tables.members == t.members[memberId := m]
            && m.firstName == (if p.firstName.Set? then p.firstName.value else stored.firstName)
            && m.lastName == (if p.lastName.Set? then p.lastName.value else stored.lastName)
            && m.email == (if p.email.Set? then p.email.value else stored.email)
            && m.phone == (if p.phone.Set? then p.phone.value else stored.phone)
            && m.address == (if p.address.Set? then p.address.value else stored.address)
            && m.membershipStatus == (if p.membershipStatus.Set? then p.membershipStatus.value else stored.membershipStatus)
            && m.membershipDate == stored.membershipDate
            && c.tables.books == t.books && c.tables.loans == t.loans
  {
  }

  /** Update and delete fail with not-found exactly for a missing member. */
  lemma MissingMemberNotFound(t: Tables, memberId: MemberId, p: MemberUpdate)
    ensures UpdateMemberSpec(t, memberId, p) == Err(MemberNotFound) <==> memberId !in t.members
    ensures DeleteMemberSpec(t, memberId) == Err(MemberNotFound) <==> memberId !in t.members
    ensures DeleteMemberSpec(t, memberId).Ok? ==>
            var after := DeleteMemberSpec(t, memberId).value.tables;
            after.members.Keys == t.members.Keys - {memberId}
            && (forall k :: k in after.members ==> after.members[k] == t.members[k])
  {
  }
}
