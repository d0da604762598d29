# MemberService, modelled in Dafny

A model of the member-record service of the nabnak application
(`src/main/java/com/revature/nabnak/member/MemberService.java`): registration
with field validation and an email-availability check, login with a shared
session member, listing, lookup by key, and partial ("merge patch") update of a
stored record, all in front of a member repository.

Layout:

- `wrappers.dfy` — `Option`, standing for a Java reference that may be null.
- `java_string.dfy` — `String.trim` (characters at or below U+0020 removed from
  both ends) and the `notNullOrEmpty` test built on it.
- `model.dfy` — `Member`, the two request forms, the response, the three
  exceptions and a `Result` that carries either a value or the exception.
- `repository.dfy` — the repository as the service consumes it: a class holding
  a table keyed by id, the order `findAll` lists the ids in, a ghost log of the
  writes requested (`Created`, `Updated`), and uninterpreted answers for
  `checkEmail`, `loginCredentialCheck` and the success flag of `update`. Each
  answer is a fixed function of the current table and the arguments, so it may
  depend on what is stored. In particular `checkEmail` is not tied to whether
  the email occurs in the table. Beyond these answers the modelled repository
  makes six assumptions, each listed under "## Left out": `create` returns the
  record it was given and overwrites a record already stored under the same
  id, `update` replaces the stored record exactly when it reports success,
  `create` lists a new id last and neither write moves the ids already listed,
  no record is stored under a null key, and no repository call throws.
- `service.dfy` — the `MemberService` class (the repository and the
  `sessionMember` field) with its methods, and the pure parts: the validator
  `IsMemberValid`, the patch specification `Patched` and the lemmas about them.

`Member` is a value. The Java setter chains in `registerMember` and `update`
become successive reassignments of a local `Member` in the class methods, in
the source's order, and the methods are proved against the specification
functions (`IsMemberValid`, `Patched`) and the repository's log and table.
`UUID.randomUUID()` and `System.currentTimeMillis()` are parameters of
`RegisterMember` (`uuid`, `now`).

## Model

| member | source | states |
|---|---|---|
| `JavaString.Trim` | src/main/java/com/revature/nabnak/member/MemberService.java:91 | `trim()`: for some start offset, the result is the slice of the input there, and every character of the input before or after that slice is space (at or below U+0020); it neither starts nor ends with space; it is empty exactly when the input has no non-space character |
| `JavaString.TrimIdempotent` | src/main/java/com/revature/nabnak/member/MemberService.java:91 | trimming an already trimmed string changes nothing |
| `JavaString.NotNullOrEmpty` | src/main/java/com/revature/nabnak/member/MemberService.java:113 | the `notNullOrEmpty` lambda holds exactly when the string is non-null and has a non-space character |
| `Service.IsMemberValid` | src/main/java/com/revature/nabnak/member/MemberService.java:88-97 | `isMemberValid` is true exactly when the member is non-null, email, full name and password are each non-null with a non-space character, experience months is not negative and the registration date is present; false in every other case |
| `Service.RegistrationExampleIsValid` | src/main/java/com/revature/nabnak/member/MemberService.java:88-97 | concrete cases: padding spaces do not make an email blank; an email of only space and tab is blank; experience -1 is rejected |
| `Service.PatchField` | src/main/java/com/revature/nabnak/member/MemberService.java:117-119 | one merge-patch step: the requested value replaces the current one exactly when it is non-null and non-blank |
| `Service.Patched` | src/main/java/com/revature/nabnak/member/MemberService.java:113-128 | the record `update` persists: full name, password and email are each the request's value when that is non-blank and the loaded value otherwise; id, experience months and registration date are the loaded ones |
| `Service.PatchedPreservesValidity` | src/main/java/com/revature/nabnak/member/MemberService.java:113-128 | patching a valid record yields a valid record, since only non-blank values are written |
| `Service.PatchedIdempotent` | src/main/java/com/revature/nabnak/member/MemberService.java:113-128 | applying the same edit request twice gives the same record as applying it once |
| `Service.BlankPatchKeepsRecord` | src/main/java/com/revature/nabnak/member/MemberService.java:113-128 | an edit whose three fields are all null or blank persists the record exactly as loaded |
| `Service.FullNameOnlyPatchExample` | src/main/java/com/revature/nabnak/member/MemberService.java:113-128 | concrete case: a new full name with blank email and password changes only the full name |
| `Service.RegistrationKeepsMembersValid` | src/main/java/com/revature/nabnak/member/MemberService.java:46-54 | storing a record that passed validation keeps every stored record valid; `RegisterMember` uses it to keep that invariant of the table |
| `Service.UpdateKeepsMembersValid` | src/main/java/com/revature/nabnak/member/MemberService.java:109-130 | replacing a stored record by its patched form keeps every stored record valid; `Update` uses it to keep that invariant of the table |
| `Service.Responses` | src/main/java/com/revature/nabnak/member/MemberService.java:70-75 | the stream map: same length as the rows, element i is the response built from row i |
| `Service.MemberService.constructor` | src/main/java/com/revature/nabnak/member/MemberService.java:23-31 | the service keeps the repository it is given and starts with no session member |
| `Service.MemberService.RegisterMember` | src/main/java/com/revature/nabnak/member/MemberService.java:33-58 | the candidate carries the request's email, full name, password and experience, the given id and date; invalid candidate: InvalidUserInput and the repository unchanged, whatever the email check would say; valid but `checkEmail` false: ResourcePersistance and the repository unchanged; otherwise exactly one create of the candidate is logged, the table maps the id to it, and the response is built from what create returned; if every stored record passed `isMemberValid` before the call, every one does after it |
| `Service.MemberService.Login` | src/main/java/com/revature/nabnak/member/MemberService.java:60-64 | returns the credential check's answer and sets the session member to it, null included, overwriting any earlier value; the repository is not changed |
| `Service.MemberService.GetSessionMember` | src/main/java/com/revature/nabnak/member/MemberService.java:133-135 | returns the session member the last login stored |
| `Service.MemberService.ReadAll` | src/main/java/com/revature/nabnak/member/MemberService.java:67-78 | one response per stored record, same count and order as `findAll`, element i built from the i-th listed record; reads only |
| `Service.MemberService.FindById` | src/main/java/com/revature/nabnak/member/MemberService.java:79-86 | ResourceNotFound exactly when the key is null or nothing is stored under it; otherwise the response built from the stored record |
| `Service.MemberService.IsEmailAvailable` | src/main/java/com/revature/nabnak/member/MemberService.java:100-102 | exactly the repository's `checkEmail` answer for the given, possibly null, email, polarity unchanged |
| `Service.MemberService.Update` | src/main/java/com/revature/nabnak/member/MemberService.java:107-131 | non-blank request email that `checkEmail` rejects: ResourcePersistance and the repository unchanged (no update issued); otherwise exactly one update of `Patched(loaded, request)` is logged, the result is the repository's success flag, the table changes only at that id and only on success, and the listing order is unchanged; if every stored record passed `isMemberValid` before the call, every one does after it |
| `Repository.MemberRepository.FindById` | src/main/java/com/revature/nabnak/member/MemberService.java:81 | the repository lookup: present exactly when the key is non-null and stored, and then the stored record |
| `Repository.MemberRepository.FindAll` | src/main/java/com/revature/nabnak/member/MemberService.java:70 | every stored record once, in listing order, each under its own id |
| `Repository.MemberRepository.Create` | src/main/java/com/revature/nabnak/member/MemberService.java:54 | stores the record under its id, lists a new id at the end, logs one create and returns the record; the table invariant is kept |
| `Repository.MemberRepository.Update` | src/main/java/com/revature/nabnak/member/MemberService.java:130 | logs one update, returns the repository's success flag and replaces the stored record only on success; the table invariant is kept |

## Left out

- `remove`: a bare delegation to the repository's `delete`, with nothing to state beyond that.
- The repository's implementation: how `checkEmail`, `loginCredentialCheck` and the success flags of `update` and `delete` are computed. They are uninterpreted functions of the table and the arguments.
- Logging (log4j) and the Spring annotations and injection: no behaviour.
- The DTO classes `MemberResponse`, `NewRegistrationRequest` and `EditMemberRequest` are not part of this model: requests are records of the fields the service reads, and a response is identified with the member it was built from.
- `UUID.randomUUID()` and the clock are inputs of `RegisterMember`; the uniqueness of the UUID is not modelled. If it collides with a stored id, the modelled `create` overwrites that record.
- `Service.MemberService.Update`: requires that a record is stored under the request's id. With no such record, `findById` returns null and the source does one of three things. If the full name, the password or an accepted email is to be patched, it dereferences null at the first setter (line 118, 121 or 127). If the email is non-blank and `checkEmail` rejects it, with no setter before it, it throws ResourcePersistance at line 125. If all three request fields are null or blank, it calls the repository's `update(null)` at line 130, whose outcome depends on the repository. The requires leaves all three cases out: the conflict on a missing id, the call of `update` with null, and the null dereference.
- `Repository.MemberRepository.Update`: assumed to replace the stored record under the member's id exactly when it reports success, and to write nothing when it reports failure. `Service.MemberService.Update`'s promise that the table changes only at that id and only on success rests on this assumption. It is also assumed to leave `findAll`'s listing order unchanged, which the source does not promise (a listing without an explicit ordering guarantees none); `Service.MemberService.Update`'s clause that the listing order is unchanged rests on that.
- The registration date's `toString().trim()` test is modelled as presence of the date alone; a `java.sql.Date` never prints as blank.
- `Member` is a value, not a shared object. If the repository handed out a live reference, the `fullName`/`password` setters in `update` would already touch the stored object before a later email conflict. That aliasing is not modelled.
- The key of `findById` (the source passes an email value to a lookup by id) is taken as given: the model looks the argument up in the id-keyed table.
- The ids are plain strings; a null id in an edit request is not modelled. Nor is a null request object: a null registration or edit request makes the source throw a NullPointerException at line 37 or line 109, and the model's request values cannot be null.
- `Repository.MemberRepository.Create`: assumed to return exactly the record it was given. The source builds the response from whatever `create` returns, so `RegisterMember`'s promise that the response carries the candidate rests on this assumption. It is also assumed to overwrite a record already stored under the same id, to list a new id last in `findAll`'s order, and to leave the ids already listed where they were. The source promises nothing about that order. `RegisterMember`'s clause on the listing order after a successful registration rests on these assumptions.
- `Repository.MemberRepository.FindById`: assumed to find nothing for a null key, since every stored record has a non-null id. The service's `FindById` and `IsEmailAvailable` accept a null argument, as the Java methods do.
- Exceptions thrown by the repository itself (`create`, `update`, `findAll`, `findById`, `checkEmail` or `loginCredentialCheck` failing) are not modelled. In the source they propagate to the caller unchanged; in the model every repository call returns normally.
- Concurrent use of the shared `sessionMember` field is not modelled; each operation runs to completion.
