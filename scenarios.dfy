/** Concrete sessions with the manager and its member windows, each with its
    exact outcome. */
module Scenarios {
  import opened Outcomes
  import opened Patterns
  import opened Members
  import opened Club
  import opened ClubFacts

  /** A sample person with id 1-2345678|2. */
  const SampleForm := Draft("1-2345678|2", "John", "Doe", "+(1)23-4567890", "")

  /** The sample id matches the id pattern. */
  lemma SampleIdAccepted()
    ensures IsId(SampleForm.id)
  {
    assert SampleForm.id[2..9] == "2345678";
  }

  /** The sample name and surname match their patterns. */
  lemma SampleNamesAccepted()
    ensures IsName(SampleForm.name) && IsSurname(SampleForm.surname)
  {
  }

  /** The sample form passes all four base patterns. */
  lemma SampleFormAccepted()
    ensures FirstInvalid(Person, SampleForm).None?
  {
    SampleIdAccepted();
    SampleNamesAccepted();
    SampleTelAccepted();
    PersonValidationOrder(SampleForm);
  }

  /** A member alone in the list collides with nobody. */
  lemma AloneCollidesWithNobody(kind: Kind, d: Draft, e: Entity)
    requires kind == Student ==> |d.extra| >= 4
    ensures Collides(kind, d, [e], e) == Returns(false)
  {
    assert [e][1..] == [];
    assert forall key :: KeyTaken([e], key, e) == KeyTaken([], key, e) == Returns(false);
  }

  /** A first member with the sample form is committed; a second member who
      enters the same id is refused and stays open and uncommitted. */
  method DuplicateIdRejected() returns (first: Answer<bool>, second: Answer<bool>, secondEmpty: bool)
    ensures first == Returns(true) && second == Returns(false) && secondEmpty
  {
    var club := new Registry.Open(Missing);
    club.AddNewMember("Person");
    var alice := club.clubbers.items[0];
    assert alice.kind == Person && alice.manager == club && club.clubbers.items == [alice];
    alice.draft := SampleForm;
    SampleFormAccepted();
    AloneCollidesWithNobody(Person, SampleForm, alice);
    first := alice.OnOk();
    assert alice.stored.id == Some(SampleForm.id);
    club.AddNewMember("Person");
    var bob := club.clubbers.items[1];
    assert bob.kind == Person && bob.manager == club && club.clubbers.items == [alice, bob];
    assert alice.Match(SampleForm.id) == Returns(true);
    assert KeyTaken(club.clubbers.items, SampleForm.id, bob) == Returns(true);
    bob.draft := SampleForm;
    second := bob.OnOk();
    secondEmpty := bob.IsEmpty();
  }

  /** A Student window left open without committing makes the next OK of any
      other member throw, because that member's id check reaches the
      Student's null student id. */
  method FreshStudentBlocksCommit() returns (r: Answer<bool>)
    ensures r == Throws(NullPointerException)
  {
    var club := new Registry.Open(Missing);
    club.AddNewMember("Student");
    club.AddNewMember("Person");
    var p := club.clubbers.items[1];
    p.draft := SampleForm;
    SampleFormAccepted();
    UnsetStudentBlocksCommit(Person, SampleForm, club.clubbers.items, p, 0);
    r := p.OnOk();
  }

  /** The sample form with student id ABC/12345. */
  const StudentForm := SampleForm.(extra := "ABC/12345")

  /** ABC/12345 matches the student-id pattern. */
  lemma SampleStudentIdAccepted()
    ensures IsStudentId(StudentForm.extra)
  {
    assert StudentForm.extra[4..][1..] == "2345";
  }

  /** The student form passes the four base patterns and the student-id pattern. */
  lemma StudentFormAccepted()
    ensures FirstInvalid(Student, StudentForm).None?
  {
    SampleFormAccepted();
    SampleStudentIdAccepted();
    SubtypeValidatesBaseFirst(Student, StudentForm);
  }

  /** A manager whose only member is a Student committed with the sample form
      and student id ABC/12345. */
  method CommittedStudent() returns (club: Registry, s: Entity)
    ensures fresh(club) && fresh(s) && club.clubbers.items == [s]
    ensures s.kind == Student && s.stored == CommitOf(Student, Unset, StudentForm)
  {
    club := new Registry.Open(Missing);
    club.AddNewMember("Student");
    s := club.clubbers.items[0];
    assert s.kind == Student && s.manager == club && club.clubbers.items == [s];
    s.draft := StudentForm;
    StudentFormAccepted();
    AloneCollidesWithNobody(Student, StudentForm, s);
    var ok := s.OnOk();
  }

  /** The committed Student is found by the search key 12345, the suffix of
      its student id. */
  method StudentFoundBySuffix() returns (r: Answer<Option<nat>>)
    ensures r == Returns(Some(0))
  {
    var club, s := CommittedStudent();
    StudentMatchesSuffix(SampleForm.id, s.stored);
    assert club.clubbers.items[0].Match("12345") == Returns(true);
    r := club.FindFirst("12345");
    assert r.Returns? && r.value.Some?;
    assert r.value == Some(0);
  }

  /** Cancel on a committed member throws away the edits and shows the
      committed values again. */
  method CancelRestoresCommitted() returns (restored: Draft, visible: bool)
    ensures restored == SampleForm && !visible
  {
    var club := new Registry.Open(Missing);
    club.AddNewMember("Person");
    var p := club.clubbers.items[0];
    assert p.kind == Person && p.manager == club && club.clubbers.items == [p];
    p.draft := SampleForm;
    SampleFormAccepted();
    AloneCollidesWithNobody(Person, SampleForm, p);
    var ok := p.OnOk();
    assert p.stored == CommitOf(Person, Unset, SampleForm);
    p.draft := p.draft.(name := "Jack");
    p.ClickCancel();
    restored, visible := p.draft, p.visible;
  }

  /** On a member never committed the Cancel button is disabled, so a click
      leaves the typed text and the open window as they were. */
  method CancelOnFreshMemberIgnored() returns (typed: Draft, visible: bool)
    ensures typed == SampleForm && visible
  {
    var club := new Registry.Open(Missing);
    club.AddNewMember("Student");
    var q := club.clubbers.items[0];
    q.draft := SampleForm;
    q.ClickCancel();
    typed, visible := q.draft, q.visible;
  }

  /** The sample person with id 2-3456789|3 instead. */
  const SecondForm := SampleForm.(id := "2-3456789|3")

  /** The second id matches the id pattern. */
  lemma SecondIdAccepted()
    ensures IsId(SecondForm.id)
  {
    assert SecondForm.id[2..9] == "3456789";
  }

  /** The second form passes all four base patterns. */
  lemma SecondFormAccepted()
    ensures FirstInvalid(Person, SecondForm).None?
  {
    SecondIdAccepted();
    SampleNamesAccepted();
    SampleTelAccepted();
    PersonValidationOrder(SecondForm);
  }

  /** A first run: a manager whose only member is a Person committed with an
      accepted form. */
  method CommittedPerson(form: Draft) returns (club: Registry, p: Entity)
    requires FirstInvalid(Person, form).None?
    ensures fresh(club) && fresh(club.clubbers) && fresh(p) && club.clubbers.items == [p]
    ensures p.kind == Person && p.manager == club && p.Valid()
    ensures p.stored == CommitOf(Person, Unset, form) && p.draft == form
  {
    club := new Registry.Open(Missing);
    club.AddNewMember("Person");
    p := club.clubbers.items[0];
    assert p.kind == Person && p.manager == club && club.clubbers.items == [p];
    p.draft := form;
    AloneCollidesWithNobody(Person, form, p);
    var ok := p.OnOk();
  }

  /** The next run reads that list back and adds a second, blank Person. */
  method ReopenAndAdd(saved: MemberList, alice: Entity) returns (club: Registry, bob: Entity)
    requires saved.items == [alice] && !alice.IsEmpty()
    modifies saved
    ensures fresh(club) && club.clubbers == saved && saved.items == [alice, bob] && fresh(bob)
    ensures bob.kind == Person && bob.manager == club && bob.Valid() && bob.stored == Unset
  {
    NonEmptyKeepsFull([alice]);
    club := new Registry.Open(Saved(saved));
    club.AddNewMember("Person");
    bob := club.clubbers.items[1];
  }

  /** The second member commits id 2-3456789|3, which nobody holds yet. */
  method ReopenedWithSecond(saved: MemberList, alice: Entity) returns (club: Registry, bob: Entity)
    requires saved.items == [alice] && alice.kind == Person
    requires alice.stored == CommitOf(Person, Unset, SampleForm)
    modifies saved
    ensures fresh(club) && club.clubbers == saved && saved.items == [alice, bob] && bob != alice
    ensures bob.kind == Person && bob.stored.id == Some(SecondForm.id)
  {
    club, bob := ReopenAndAdd(saved, alice);
    bob.draft := SecondForm;
    SecondFormAccepted();
    SecondIdFree(alice, bob);
    var ok := bob.OnOk();
  }

  /** Nobody but the first member holds an id yet, and it holds another one. */
  lemma SecondIdFree(alice: Entity, bob: Entity)
    requires alice != bob && alice.kind == Person
    requires alice.stored == CommitOf(Person, Unset, SampleForm)
    ensures Collides(Person, SecondForm, [alice, bob], bob) == Returns(false)
  {
    var key := SecondForm.id;
    assert alice.Match(key) == Returns(false);
    assert [alice, bob][1..] == [bob] && [bob][1..] == [];
    assert KeyTaken([bob], key, bob) == KeyTaken([], key, bob) == Returns(false);
    assert KeyTaken([alice, bob], key, bob) == KeyTaken([bob], key, bob);
  }

  /** The second member now holds id 2-3456789|3 against the first. */
  lemma SecondIdTaken(alice: Entity, bob: Entity)
    requires alice != bob && bob.kind == Person && bob.stored.id == Some(SecondForm.id)
    ensures Collides(Person, SecondForm, [alice, bob], alice) == Returns(true)
  {
    var key := SecondForm.id;
    assert bob.Match(key) == Returns(true);
    assert [alice, bob][1..] == [bob];
    assert KeyTaken([bob], key, alice) == Returns(true);
    assert KeyTaken([alice, bob], key, alice) == KeyTaken([bob], key, alice);
  }

  /** A member read back from the file still asks its own serialized manager,
      and that manager works on the list object the new manager installs: once
      a member added after start-up has committed id 2-3456789|3, the loaded
      member can no longer take that id. */
  method LoadedMemberSeesLaterMembers() returns (r: Answer<bool>, keptId: Option<string>)
    ensures r == Returns(false) && keptId == Some(SampleForm.id)
  {
    SampleFormAccepted();
    var earlier, alice := CommittedPerson(SampleForm);
    var club, bob := ReopenedWithSecond(earlier.clubbers, alice);
    alice.draft := SecondForm;
    SecondFormAccepted();
    assert alice.manager.clubbers.items == [alice, bob];
    SecondIdTaken(alice, bob);
    r := alice.OnOk();
    keptId := alice.stored.id;
  }
}
