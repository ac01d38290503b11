/**
 * The member handlers: creation (a unique email, status `active` by
 * default), lookup, the partial update (the email stays unique) and deletion.
 */
module MemberRoutes {
  import opened Dates
  import opened Models
  import opened Schemas
  import opened Errors
  import opened Database

  /** Whether some member already has the email `email`. */
  predicate EmailInUse(members: map<MemberId, Member>, email: string) {
    exists id :: id in members && members[id].email == email
  }

  /** A member just registered today, active. */
  function NewMember(p: MemberCreate, today: Date): Member {
    Member(p.firstName, p.lastName, p.email, p.phone, p.address, today, Active)
  }

  /** The member with every field the payload supplies written over it. */
  function ApplyMemberUpdate(m: Member, p: MemberUpdate): Member {
    m.(firstName := p.firstName.Or(m.firstName),
       lastName := p.lastName.Or(m.lastName),
       email := p.email.Or(m.email),
       phone := p.phone.Or(m.phone),
       address := p.address.Or(m.address),
       membershipStatus := p.membershipStatus.Or(m.membershipStatus))
  }

  /** Whether the update asks for an email that differs from the member's own. */
  predicate ChangesEmail(m: Member, p: MemberUpdate) {
    p.email.Set? && p.email.value != m.email
  }

  // ---------------------------------------------------------------------
  // What each handler does to the tables
  // ---------------------------------------------------------------------

  function CreateMemberSpec(t: Tables, p: MemberCreate, today: Date): Result<Committed<(MemberId, Member)>> {
    if EmailInUse(t.members, p.email) then Err(EmailTaken)
    else
      var id := t.nextMemberId;
      var m := NewMember(p, today);
      Ok(Committed(t.(members := t.members[id := m], nextMemberId := id + 1), (id, m)))
  }

  function UpdateMemberSpec(t: Tables, memberId: MemberId, p: MemberUpdate): Result<Committed<Member>> {
    if memberId !in t.members then Err(MemberNotFound)
    else if ChangesEmail(t.members[memberId], p) && EmailInUse(t.members, p.email.value) then Err(EmailTaken)
    else
      var updated := ApplyMemberUpdate(t.members[memberId], p);
      Ok(Committed(t.(members := t.members[memberId := updated]), updated))
  }

  function DeleteMemberSpec(t: Tables, memberId: MemberId): Result<Committed<()>> {
    if memberId !in t.members then Err(MemberNotFound)
    else Ok(Committed(t.(members := t.members - {memberId}), ()))
  }

  // ---------------------------------------------------------------------
  // The handlers
  // ---------------------------------------------------------------------

  /** Register a member unless the email is taken. */
  method CreateMember(db: Store, p: MemberCreate, today: Date) returns (r: Result<(MemberId, Member)>)
    modifies db
    ensures Persisted(old(db.Snapshot()), db.Snapshot(), r, CreateMemberSpec(old(db.Snapshot()), p, today))
  {
    if EmailInUse(db.members, p.email) {
      return Err(EmailTaken);
    }
    var m := Member(p.firstName, p.lastName, p.email, p.phone, p.address, today, Active);
    var id := db.nextMemberId;
    db.members := db.members[id := m];
    db.nextMemberId := id + 1;
    r := Ok((id, m));
  }

  /** Look a member up by id. */
  method ReadMember(db: Store, memberId: MemberId) returns (r: Result<Member>)
    ensures r.Err? <==> memberId !in db.members
    ensures r.Err? ==> r.error == MemberNotFound
    ensures r.Ok? ==> r.value == db.members[memberId]
  {
    if memberId !in db.members {
      return Err(MemberNotFound);
    }
    r := Ok(db.members[memberId]);
  }

  /** Refuse a new email some member already has, then write the supplied fields. */
  method UpdateMember(db: Store, memberId: MemberId, p: MemberUpdate) returns (r: Result<Member>)
    modifies db
    ensures Persisted(old(db.Snapshot()), db.Snapshot(), r, UpdateMemberSpec(old(db.Snapshot()), memberId, p))
  {
    if memberId !in db.members {
      return Err(MemberNotFound);
    }
    var m := db.members[memberId];
    if p.email.Set? && p.email.value != m.email {
      if EmailInUse(db.members, p.email.value) {
        return Err(EmailTaken);
      }
    }
    if p.firstName.Set? { m := m.(firstName := p.firstName.value); }
    if p.lastName.Set? { m := m.(lastName := p.lastName.value); }
    if p.email.Set? { m := m.(email := p.email.value); }
    if p.phone.Set? { m := m.(phone := p.phone.value); }
    if p.address.Set? { m := m.(address := p.address.value); }
    if p.membershipStatus.Set? { m := m.(membershipStatus := p.membershipStatus.value); }
    db.members := db.members[memberId := m];
    r := Ok(m);
  }

  /** Remove a member. */
  method DeleteMember(db: Store, memberId: MemberId) returns (r: Result<()>)
    modifies db
    ensures Persisted(old(db.Snapshot()), db.Snapshot(), r, DeleteMemberSpec(old(db.Snapshot()), memberId))
  {
    if memberId !in db.members {
      return Err(MemberNotFound);
    }
    db.members := db.members - {memberId};
    r := Ok(());
  }
}
