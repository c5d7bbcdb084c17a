# Club membership core, modelled in Dafny

This project models the core of a small Swing club-membership application.

A manager (`NightClubMgmtApp`) keeps a list of club members. Each member is a Person, a Soldier or a Student, and has its own form window (`ClubAbstractEntity`). The window holds:

- the text the user types (the draft);
- the values committed by the last successful OK (the "belly", all `null` until then);
- a red asterisk on the field that last failed validation;
- a Cancel button, disabled until the first commit;
- a visibility flag.

The model covers these parts of the application:

- **Field patterns.** The six field patterns (`patterns.dfy`) are written as whole-string predicates over characters. The surname pattern `([A-Z][a-z]*['-]?)+` is proved equal to its character-level reading.
- **Validation order.** Validation checks id, name, surname and tel, then the variant's own field, stops at the first failure and marks that field.
- **Commit, roll-back and match.** These are pure functions on the committed and draft records (`members.dfy`), with lemmas: commit keeps the committed record all-unset or all-valid, roll-back after commit restores the form, and `match` means "the key is one of the member's credentials".
- **Member window.** `Club.Entity` (`club.dfy`) is a class with the member's fields and methods: the asterisk, the Cancel button, validation, commit, roll-back, the duplicate checks, and the OK and Cancel handlers.
- **Manager's list.** `Club.Registry` works on a list object, `Club.MemberList`, standing for the `ArrayList`. Members read back from the file keep their own serialized manager, and that manager shares the very list object the new manager installs, so every member's duplicate check scans the current list (`Registry.Shared`). The manager starts from the saved file, cleans empty entries in place, appends new members, runs `duplicateKeyCheck` and runs the search's first-match scan. Each loop is proved against a specification function: `KeyTaken` for the duplicate scan and `NonEmpty` for the clean-up. Their properties are proved in `club_facts.dfy`.
- **Concrete sessions.** `scenarios.dfy` walks through sessions and proves each one's exact outcome.

Java's `null` is `Option.None`. A call that may throw returns an `Answer`: either `Returns(v)` or `Throws(e)`.

The application as written has a defect, and the model shows it rather than hiding it:

1. Adding a Student places a never-committed Student in the list at once (NightClubMgmtApp.java:192).
2. That Student's `match` calls `substring(4)` on its `null` student id (Student.java:89).
3. So any duplicate check or search that reaches this Student with a key other than its id throws NullPointerException. That includes the OK of every other member whose id no earlier member holds.

The exception is part of each contract. See `KeyTakenReachesUnsetStudent`, `UnsetStudentBlocksCommit` and the scenario `FreshStudentBlocksCommit`.

### Behaviour worth noting

The model follows the code in each case:

- **Tel pattern.** The tel pattern at Person.java:140 requires a non-zero first digit in each of its three digit groups, so +(0)12-3456789 is rejected.
- **Error mark on commit.** The comment on `removeAsterisk` (ClubAbstractEntity.java:115) says it is also used after a successful commit, but no `commit` calls it (Person.java:160-166, Soldier.java:124-127). The validation that must pass before a commit has already removed the mark (Person.java:136), so after a successful OK no field is marked all the same.
- **Cancel on a fresh member.** The parameterless constructors disable Cancel on a new member (Person.java:49-57). The handler itself rolls back and hides the window unconditionally (ClubAbstractEntity.java:185-188). `OnCancel` is the handler; `ClickCancel` is a click, which a disabled button ignores.
- **Duplicate checks.** The Soldier and Student duplicate checks always run both lookups, and each lookup can throw, as explained above.

## Model

| member | source | states |
|---|---|---|
| Outcomes.Substring | Student.java:89 | `s.substring(n)` succeeds exactly when `n` is at most the length, and then returns the suffix that follows the first `n` characters |
| Patterns.IdShape | Person.java:137 | a valid id has length 11, `-` at index 1, `\|` at index 9 and digits everywhere else |
| Patterns.PersonalNumShape | Soldier.java:100 | a valid personal number has length 9, contains `/` at index 1, and is digits from index 2 on |
| Patterns.StudentIdSuffix | Student.java:100 | a valid student id has length 9 and its suffix from index 4 is five digits, the first non-zero |
| Patterns.StudentSuffixIsNoOtherCredential | Student.java:89-100 | the suffix of a valid student id is never a valid id, personal number or student id |
| Patterns.EmptyTextRejected | Person.java:137-140 | every field pattern rejects the empty text of a blank form |
| Patterns.SampleTelAccepted | Person.java:140 | the tel pattern accepts +(1)23-4567890 (one-digit and two-digit groups) |
| Patterns.ZeroCountryCodeRejected | Person.java:140 | the tel pattern rejects any number whose first bracketed digit is 0 |
| Patterns.SegmentsAreSurname | Person.java:139 | a concatenation of `[A-Z][a-z]*['-]?` groups satisfies the character-level surname predicate |
| Patterns.SurnameIsSegments | Person.java:139 | every string accepted by the surname predicate splits into such groups |
| Patterns.SurnameMeansSegments | Person.java:139 | the surname predicate holds exactly when the string is one or more repetitions of the group |
| Members.FirstFailingSpec | Person.java:146-151 | the scan over the patterns finds nothing exactly when every field passes; otherwise it returns the first failing field, and all fields before it pass |
| Members.FirstFailingAppend | Soldier.java:99-106 | checking base fields then an extra field fails at the first base failure, and reaches the extra field only when every base field passes |
| Members.SubtypeValidatesBaseFirst | Soldier.java:98-107 | a Soldier or Student form fails at the Person fields first, and at its own field only when they all pass |
| Members.PersonValidationOrder | Person.java:137-151 | id, name, surname and tel are checked in that order; the first one that fails is the one reported |
| Members.BlankFailsAtId | Person.java:55-58 | a blank form of any variant fails validation at the id field |
| Members.CommitKeepsStoredOk | ClubAbstractEntity.java:177-178 | committing a form that passed validation keeps the committed record all-unset or all-valid, and makes the id non-null |
| Members.CommitThenRollback | Person.java:160-180 | roll-back right after commit, with no edits in between, leaves the form unchanged |
| Members.RollbackThenCommit | Person.java:160-180 | committing right after a roll-back of a committed member leaves the committed record unchanged |
| Members.MatchCommitted | Soldier.java:88-90 | on a committed member, `match(key)` never throws and is true exactly when the key is one of its credentials: id, personal number, or the student id from index 4 |
| Members.MatchUnset | Student.java:89 | on a never-committed member, `match` is false for Person and Soldier, and throws NullPointerException for Student |
| Members.StudentMatchesSuffix | Student.java:88-90 | a Student committed with ABC/12345 answers to 12345 but not to ABC/12345 |
| Members.SuffixKeyMatchesOnlyStudents | Student.java:89 | a valid student id's suffix can match only a committed Student whose own suffix is that key |
| Club.Entity.constructor | Person.java:55-71 | a new member has all committed fields null, is empty, has a blank form and no mark, has Cancel disabled, and is visible |
| Club.Entity.AddAsterisk | ClubAbstractEntity.java:106-111 | the marked field becomes exactly the given one, replacing any earlier mark |
| Club.Entity.RemoveAsterisk | ClubAbstractEntity.java:117-123 | nothing happens when no field was ever marked; otherwise nothing is marked afterwards |
| Club.Entity.ToggleCancelButton | ClubAbstractEntity.java:137-139 | Cancel becomes enabled exactly when the argument is true |
| Club.Entity.DuplicateCredentialCheckKey | ClubAbstractEntity.java:149-151 | the answer is the manager's duplicate scan of the key, excluding this member |
| Club.Entity.DuplicateCredentialCheck | Soldier.java:71-80 | the answer is the id check and then the variant's credential check, both always made, with exceptions passed through |
| Club.Entity.ValidateBase | Person.java:135-152 | true exactly when the four base fields pass; the marked field is then exactly the first failing one, or none |
| Club.Entity.ValidateData | Soldier.java:98-107 | true exactly when every field of the variant passes; the marked field is exactly the first failing one, or none |
| Club.Entity.CommitBase | Person.java:160-166 | Cancel is enabled and the four base form fields are copied into the committed record |
| Club.Entity.Commit | Soldier.java:124-127 | Cancel is enabled and the committed record becomes the commit of the whole form |
| Club.Entity.RollBackBase | Person.java:174-180 | the mark is removed and the four base form fields show the committed values (null shows as empty) |
| Club.Entity.RollBack | Soldier.java:114-117 | the mark is removed and the whole form shows the committed values again |
| Club.Entity.OnOk | ClubAbstractEntity.java:176-183 | commits and hides only when validation passes and no duplicate is found; an invalid form is refused without a duplicate check and with its first failing field marked; a refused or throwing OK changes neither the committed record nor the visibility; the invariant (committed record all-unset or all-valid, Cancel enabled exactly once committed) is kept |
| Club.Entity.OnCancel | ClubAbstractEntity.java:185-188 | the form is rolled back to the committed values, nothing is marked, and the window is hidden |
| Club.Entity.ClickCancel | Person.java:57 | on a member never committed a click changes nothing; on a committed member it rolls back and hides |
| Club.Registry.Open | NightClubMgmtApp.java:124-143 | after start-up the manager works on the list object read back, cleaned of its empty members in place, or on a new empty list when no file could be read; when the saved members' managers share the saved list, every member of the installed list asks a manager working on that same list |
| Club.Registry.DuplicateKeyCheck | NightClubMgmtApp.java:82-87 | the read-only scan's answer is `KeyTaken`: the first member other than `c` that answers to the key decides |
| Club.Registry.FindFirst | NightClubMgmtApp.java:101-109 | returns the first member in list order whose match is true and no earlier one is; returns none only when no member matches; returns an exception only when a member throws before any match |
| Club.Registry.CleanEmptyEntries | NightClubMgmtApp.java:170-175 | the list object's contents become its non-empty members in their original order, and members that shared the list still do |
| Club.Registry.AddNewMember | NightClubMgmtApp.java:182-195 | exactly one new blank, empty member is appended and earlier entries stay; "Soldier" and "Student" pick those variants and every other name gives a Person; the new member asks this manager, so members that shared the list still do |
| ClubFacts.KeyTakenFalseIff | NightClubMgmtApp.java:82-87 | the duplicate scan answers false exactly when no member other than `c` answers to the key |
| ClubFacts.KeyTakenFirstDecisive | NightClubMgmtApp.java:83-85 | otherwise its answer is that of the first other member whose match is not false |
| ClubFacts.KeyTakenNoThrow | NightClubMgmtApp.java:82-87 | when no member throws, the scan is true exactly when some member other than `c` matches the key |
| ClubFacts.KeyTakenIgnoresSelf | NightClubMgmtApp.java:84 | a list holding only `c` gives false for every key |
| ClubFacts.KeyTakenReachesUnsetStudent | NightClubMgmtApp.java:192 | a never-committed Student reached by the scan before any matching member makes it throw NullPointerException |
| ClubFacts.CommittedScanNeverThrows | NightClubMgmtApp.java:82-87 | over committed members the scan never throws, and it is true exactly when another member holds the key as a credential |
| ClubFacts.CollidesWhenOthersCommitted | Student.java:71-80 | over committed members, a form collides exactly when another member holds its id, or its personal number (Soldier), or its student id from index 4 (Student) |
| ClubFacts.StudentKeyCollidesOnlyWithStudents | Student.java:73 | a valid student id's lookup collides only with a Student whose student id has the same suffix |
| ClubFacts.UnsetStudentBlocksCommit | ClubAbstractEntity.java:177 | while a never-committed Student precedes every holder of the form's id, the duplicate check of every form throws |
| Club.NonEmptyMembers | NightClubMgmtApp.java:171-174 | the cleaned list holds exactly the non-empty members, all of them non-empty, and is no longer than the original |
| ClubFacts.NonEmptyAppend | NightClubMgmtApp.java:170-175 | cleaning keeps relative order: cleaning a concatenation concatenates the cleaned parts |
| ClubFacts.NonEmptyKeepsFull | NightClubMgmtApp.java:170-175 | a list without empty members is left unchanged |
| ClubFacts.NonEmptyIdempotent | NightClubMgmtApp.java:170-175 | cleaning twice is cleaning once |
| Scenarios.DuplicateIdRejected | ClubAbstractEntity.java:177-182 | a second Person entering the committed id 1-2345678\|2 is refused and stays uncommitted |
| Scenarios.FreshStudentBlocksCommit | Student.java:89 | with a new uncommitted Student in the list, another member's valid OK throws NullPointerException |
| Scenarios.StudentFoundBySuffix | NightClubMgmtApp.java:101-109 | the search key 12345 finds the Student committed with ABC/12345 |
| Scenarios.CancelRestoresCommitted | ClubAbstractEntity.java:185-188 | Cancel after editing a committed member shows the committed form again and hides the window |
| Scenarios.CancelOnFreshMemberIgnored | Person.java:57 | clicking Cancel on a new member leaves the typed text and the open window as they were |
| Scenarios.LoadedMemberSeesLaterMembers | NightClubMgmtApp.java:124-153 | a member read back from the file is refused the id 2-3456789\|3 once a member added after start-up holds it, and keeps its committed id |

## Left out

- The Swing interface is not modelled: frames, panels, labels, sizes, titles, focus, `setLocationRelativeTo` and `toFront`. Visibility is a single flag.
- `JOptionPane` dialogs are not modelled. This covers the duplicate messages and the search prompt.
- The search's retry loop and its showing of the found member are not modelled. `FindFirst` is only the first-match scan inside it.
- Reading and writing `BKCustomers.dat` is I/O. What the read gives is a parameter of `Registry.Open`: missing, unreadable, or the saved list. Writing the file, the exit button and `System.exit` are left out.
- Club.Registry.Open: writing the file is not modelled, so that the saved members' managers share the saved list is assumed of the file rather than derived. Every list this manager writes has that property (NightClubMgmtApp.java:153): `AddNewMember` and `CleanEmptyEntries` keep it.
- The Person, Soldier and Student constructors that take field values are not modelled. The application calls them only with `null` values, through the parameterless constructors.
- The Java regex engine is not modelled. Each fixed pattern is a hand-written character predicate. `\d` is taken as the ASCII digits.
- `JTextField.setText(null)` is modelled as showing the empty string (`Shown`).
- A failure while closing the file happens after the list was read and cleaned, so it counts as `Saved`. `Unreadable` stands for a failure before the list is read, which leaves the list empty.
