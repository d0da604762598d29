/**
 * MemberService: registration, login, listing, lookup and partial update of
 * member records, in front of a MemberRepository.
 */
module Service {

  import opened Wrappers
  import opened JavaString
  import opened Model
  import opened Repository

  /**
   * isMemberValid: a member is valid when it is present, its email, full name
   * and password each have a non-space character, its experience is not
   * negative and it has a registration date.
   */
  predicate IsMemberValid(newMember: Option<Member>)
    ensures IsMemberValid(newMember) <==>
      && newMember.Some?
      && newMember.value.email.Some? && HasNonSpace(newMember.value.email.value)
      && newMember.value.fullName.Some? && HasNonSpace(newMember.value.fullName.value)
      && newMember.value.password.Some? && HasNonSpace(newMember.value.password.value)
      && newMember.value.experienceMonths >= 0
      && newMember.value.registrationDate.Some?
  {
    if newMember.None? then false
    else if !NotNullOrEmpty(newMember.value.email) then false
    else if !NotNullOrEmpty(newMember.value.fullName) then false
    else if newMember.value.experienceMonths < 0 then false
    else if newMember.value.registrationDate.None? then false
    else if !NotNullOrEmpty(newMember.value.password) then false
    else true
  }

  /** The field value after a merge patch: the requested one when it is not blank. */
  function PatchField(current: Option<string>, requested: Option<string>): (r: Option<string>)
    ensures NotNullOrEmpty(requested) ==> r == requested
    ensures !NotNullOrEmpty(requested) ==> r == current
  {
    if NotNullOrEmpty(requested) then requested else current
  }

  /**
   * The record update persists: the loaded record with full name, password
   * and email patched from the request; id, experience and registration date
   * are never touched.
   */
  function Patched(found: Member, editMember: EditMemberRequest): (r: Member)
    ensures r.id == found.id
    ensures r.experienceMonths == found.experienceMonths
    ensures r.registrationDate == found.registrationDate
    ensures r.fullName == PatchField(found.fullName, editMember.fullName)
    ensures r.password == PatchField(found.password, editMember.password)
    ensures r.email == PatchField(found.email, editMember.email)
  {
    found.(
      fullName := PatchField(found.fullName, editMember.fullName),
      password := PatchField(found.password, editMember.password),
      email := PatchField(found.email, editMember.email))
  }

  /** Patching cannot make a valid record invalid: only non-blank values are written. */
  lemma PatchedPreservesValidity(found: Member, editMember: EditMemberRequest)
    requires IsMemberValid(Some(found))
    ensures IsMemberValid(Some(Patched(found, editMember)))
  {
  }

  /** Applying the same patch twice changes nothing more than applying it once. */
  lemma PatchedIdempotent(found: Member, editMember: EditMemberRequest)
    ensures Patched(Patched(found, editMember), editMember) == Patched(found, editMember)
  {
  }

  /** A request whose three fields are all null or blank leaves the record as loaded. */
  lemma BlankPatchKeepsRecord(found: Member, editMember: EditMemberRequest)
    requires !NotNullOrEmpty(editMember.fullName)
    requires !NotNullOrEmpty(editMember.password)
    requires !NotNullOrEmpty(editMember.email)
    ensures Patched(found, editMember) == found
  {
  }

  /** Every stored record passes isMemberValid. */
  ghost predicate AllMembersValid(table: map<string, Member>)
  {
    forall k :: k in table ==> IsMemberValid(Some(table[k]))
  }

  /** Storing a record that registration validated keeps every stored record valid. */
  lemma RegistrationKeepsMembersValid(table: map<string, Member>, created: Member)
    requires AllMembersValid(table)
    requires IsMemberValid(Some(created))
    ensures AllMembersValid(table[created.id := created])
  {
  }

  /** Replacing a stored record by its patched form keeps every stored record valid. */
  lemma UpdateKeepsMembersValid(table: map<string, Member>, editMember: EditMemberRequest)
    requires AllMembersValid(table)
    ensures editMember.id in table ==>
              AllMembersValid(table[editMember.id := Patched(table[editMember.id], editMember)])
  {
    if editMember.id in table {
      PatchedPreservesValidity(table[editMember.id], editMember);
    }
  }

  /** An edit with a new full name and a blank email and password changes the full name only. */
  lemma FullNameOnlyPatchExample()
    ensures Patched(Member("1", Some("a@x.com"), Some("Old"), Some("pw"), 3, Some(Date(0))),
                    EditMemberRequest("1", Some(""), Some("New Name"), Some("")))
         == Member("1", Some("a@x.com"), Some("New Name"), Some("pw"), 3, Some(Date(0)))
  {
  }

  /**
   * Concrete validator cases: padding spaces do not make an email blank, an
   * email of space and tab only is blank, and negative experience is rejected.
   */
  lemma RegistrationExampleIsValid(now: Date)
    ensures IsMemberValid(Some(Member("u", Some(" a@x.com "), Some("A B"), Some("p"), 3, Some(now))))
    ensures !IsMemberValid(Some(Member("u", Some(" \t "), Some("A B"), Some("p"), 3, Some(now))))
    ensures !IsMemberValid(Some(Member("u", Some("a@x.com"), Some("A B"), Some("p"), -1, Some(now))))
  {
    assert " a@x.com "[1] == 'a';
    assert "A B"[0] == 'A';
    assert "p"[0] == 'p';
  }

  /** The response projection of a list of rows, element by element and in order. */
  function Responses(rows: seq<Member>): (r: seq<MemberResponse>)
    ensures |r| == |rows|
    ensures forall i :: 0 <= i < |r| ==> r[i] == MemberResponse(rows[i])
  {
    seq(|rows|, i requires 0 <= i < |rows| => MemberResponse(rows[i]))
  }

  class MemberService {
    const memberRepository: MemberRepository
    /** The member the last login returned (null before any login). */
    var sessionMember: Option<Member>

    constructor (memberRepository: MemberRepository)
      ensures this.memberRepository == memberRepository
      ensures sessionMember == None
    {
      this.memberRepository := memberRepository;
      sessionMember := None;
    }

    /**
     * registerMember. The UUID and the current time are inputs. Validation
     * comes first, then the email check; either failure leaves the repository
     * untouched. Otherwise exactly one create is issued, for the request's
     * fields with the given id and date, and the response is built from what
     * create returned.
     */
    method RegisterMember(newRegistration: NewRegistrationRequest, uuid: string, now: Date)
      returns (r: Result<MemberResponse>)
      requires memberRepository.Valid()
      modifies memberRepository
      ensures memberRepository.Valid()
      ensures AllMembersValid(old(memberRepository.table)) ==> AllMembersValid(memberRepository.table)
      ensures var candidate := Member(uuid, newRegistration.email, newRegistration.fullName,
                                      newRegistration.password, newRegistration.experienceMonths, Some(now));
        if !IsMemberValid(Some(candidate)) then
          r == Err(InvalidUserInput) && unchanged(memberRepository)
        else if !memberRepository.checkEmail(old(memberRepository.table), candidate.email) then
          r == Err(ResourcePersistance) && unchanged(memberRepository)
        else
          && r == Ok(MemberResponse(candidate))
          && memberRepository.calls == old(memberRepository.calls) + [Created(candidate)]
          && memberRepository.table == old(memberRepository.table)[uuid := candidate]
          && memberRepository.order ==
               (if uuid in old(memberRepository.table) then old(memberRepository.order)
                else old(memberRepository.order) + [uuid])
    {
      var newMember := EmptyMember;
      newMember := newMember.(email := newRegistration.email);
      newMember := newMember.(fullName := newRegistration.fullName);
      newMember := newMember.(experienceMonths := newRegistration.experienceMonths);
      newMember := newMember.(password := newRegistration.password);
      newMember := newMember.(id := uuid);
      newMember := newMember.(registrationDate := Some(now));

      if !IsMemberValid(Some(newMember)) {
        return Err(InvalidUserInput);
      }
      var available := IsEmailAvailable(newMember.email);
      if !available {
        return Err(ResourcePersistance);
      }
      newMember := memberRepository.Create(newMember);
      if AllMembersValid(old(memberRepository.table)) {
        RegistrationKeepsMembersValid(old(memberRepository.table), newMember);
      }
      r := Ok(MemberResponse(newMember));
    }

    /**
     * login: the credential check's answer, which also replaces the session
     * member, whatever it was and even when the answer is null.
     */
    method Login(email: Option<string>, password: Option<string>) returns (member: Option<Member>)
      modifies this
      ensures member == memberRepository.loginCredentialCheck(memberRepository.table, email, password)
      ensures sessionMember == member
    {
      member := memberRepository.loginCredentialCheck(memberRepository.table, email, password);
      sessionMember := member;
    }

    /** getSessionMember: the member stored by the most recent login. */
    method GetSessionMember() returns (member: Option<Member>)
      ensures member == sessionMember
    {
      member := sessionMember;
    }

    /** readAll: one response per stored record, in the repository's order. */
    function ReadAll(): (members: seq<MemberResponse>)
      reads this, memberRepository
      requires memberRepository.Valid()
      ensures |members| == |memberRepository.order|
      ensures forall i :: 0 <= i < |members| ==>
                members[i] == MemberResponse(memberRepository.table[memberRepository.order[i]])
    {
      Responses(memberRepository.FindAll())
    }

    /** findById: the response for the record stored under key, or ResourceNotFound. */
    method FindById(key: Option<string>) returns (r: Result<MemberResponse>)
      ensures r.Err? <==> key.None? || key.value !in memberRepository.table
      ensures r.Err? ==> r.error == ResourceNotFound
      ensures r.Ok? ==> r.value == MemberResponse(memberRepository.table[key.value])
    {
      var member := memberRepository.FindById(key);
      if member.None? {
        return Err(ResourceNotFound);
      }
      r := Ok(MemberResponse(member.value));
    }

    /** isEmailAvailable: exactly the repository's checkEmail answer, with its polarity. */
    method IsEmailAvailable(email: Option<string>) returns (available: bool)
      ensures available == memberRepository.checkEmail(memberRepository.table, email)
    {
      available := memberRepository.checkEmail(memberRepository.table, email);
    }

    /**
     * update: loads the record, patches full name, password and email in that
     * order, and persists the result. A non-blank email the repository does
     * not report as available aborts with ResourcePersistance before anything
     * is written; otherwise exactly one update is issued, for Patched(found,
     * editMember), and its success flag is returned.
     */
    method Update(editMember: EditMemberRequest) returns (r: Result<bool>)
      requires memberRepository.Valid()
      requires editMember.id in memberRepository.table
      modifies memberRepository
      ensures memberRepository.Valid()
      ensures AllMembersValid(old(memberRepository.table)) ==> AllMembersValid(memberRepository.table)
      ensures var found := old(memberRepository.table)[editMember.id];
              var patched := Patched(found, editMember);
        if NotNullOrEmpty(editMember.email)
           && !memberRepository.checkEmail(old(memberRepository.table), editMember.email) then
          r == Err(ResourcePersistance) && unchanged(memberRepository)
        else
          && r == Ok(memberRepository.updateSucceeds(old(memberRepository.table), patched))
          && memberRepository.calls == old(memberRepository.calls) + [Updated(patched)]
          && memberRepository.table ==
               (if r.value then old(memberRepository.table)[editMember.id := patched]
                else old(memberRepository.table))
          && memberRepository.order == old(memberRepository.order)
    {
      var foundMember := memberRepository.FindById(Some(editMember.id)).value;

      if NotNullOrEmpty(editMember.fullName) {
        foundMember := foundMember.(fullName := editMember.fullName);
      }
      if NotNullOrEmpty(editMember.password) {
        foundMember := foundMember.(password := editMember.password);
      }
      if NotNullOrEmpty(editMember.email) {
        var available := IsEmailAvailable(editMember.email);
        if !available {
          return Err(ResourcePersistance);
        }
        foundMember := foundMember.(email := editMember.email);
      }

      var ok := memberRepository.Update(foundMember);
      if AllMembersValid(old(memberRepository.table)) {
        UpdateKeepsMembersValid(old(memberRepository.table), editMember);
      }
      r := Ok(ok);
    }
  }
}
