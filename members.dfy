/** The data of one club member (Person, Soldier or Student) as values: the
    committed record kept "in the belly", the text of the form's fields, the
    order in which the fields are validated, what commit and roll-back copy,
    and which keys a committed record matches. */
module Members {
  import opened Outcomes
  import opened Patterns

  /** The three member variants; Soldier and Student extend Person with one field. */
  datatype Kind = Person | Soldier | Student

  /** The form's fields, each shown in its own panel where the error mark goes. */
  datatype Field = IdField | NameField | SurnameField | TelField | PersonalNumField | StudentIdField

  /** The committed fields; None is Java's null, the value before the first
      commit. `extra` is the soldier's personal number or the student's id, and
      stays None for a Person. */
  datatype Stored = Stored(id: Option<string>, name: Option<string>, surname: Option<string>,
                           tel: Option<string>, extra: Option<string>)

  /** The text currently in the form's fields; `extra` is the text of the
      personal-number or student-id field (a Person's form has none). */
  datatype Draft = Draft(id: string, name: string, surname: string, tel: string, extra: string)

  /** The committed record of a member that was never committed. */
  const Unset := Stored(None, None, None, None, None)

  /** The text of a blank form: a text field created from a null string is empty. */
  const Blank := Draft("", "", "", "", "")

  /** The fields Person checks, in the order it checks them. */
  function BaseFields(): seq<Field>
  {
    [IdField, NameField, SurnameField, TelField]
  }

  /** The field a subtype adds. */
  function ExtraField(kind: Kind): Field
    requires kind != Person
  {
    if kind == Soldier then PersonalNumField else StudentIdField
  }

  /** Every field of a variant, in validation order: Person's four, then the subtype's one. */
  function FieldsOf(kind: Kind): seq<Field>
  {
    if kind == Person then BaseFields() else BaseFields() + [ExtraField(kind)]
  }

  /** The text of field `f` in the form. */
  function TextOf(d: Draft, f: Field): string
  {
    match f
    case IdField => d.id
    case NameField => d.name
    case SurnameField => d.surname
    case TelField => d.tel
    case PersonalNumField => d.extra
    case StudentIdField => d.extra
  }

  /** The committed value of field `f`. */
  function StoredAt(s: Stored, f: Field): Option<string>
  {
    match f
    case IdField => s.id
    case NameField => s.name
    case SurnameField => s.surname
    case TelField => s.tel
    case PersonalNumField => s.extra
    case StudentIdField => s.extra
  }

  /** Whether `t` matches the fixed pattern of field `f`. */
  predicate Accepts(f: Field, t: string)
  {
    match f
    case IdField => IsId(t)
    case NameField => IsName(t)
    case SurnameField => IsSurname(t)
    case TelField => IsTel(t)
    case PersonalNumField => IsPersonalNum(t)
    case StudentIdField => IsStudentId(t)
  }

  // ---------------------------------------------------------------------------
  // Validation order

  /** The first of `fs` whose text fails its pattern, if any. */
  function FirstFailing(fs: seq<Field>, d: Draft): Option<Field>
  {
    if fs == [] then None
    else if !Accepts(fs[0], TextOf(d, fs[0])) then Some(fs[0])
    else FirstFailing(fs[1..], d)
  }

  /** The field a validation pass of this variant stops at, or None when it passes. */
  function FirstInvalid(kind: Kind, d: Draft): Option<Field>
  {
    FirstFailing(FieldsOf(kind), d)
  }

  /** Validation passes exactly when every field matches; when it fails, it
      names a field that fails and every field before it matches. */
  lemma {:induction false} FirstFailingSpec(fs: seq<Field>, d: Draft)
    ensures FirstFailing(fs, d).None? <==> forall i :: 0 <= i < |fs| ==> Accepts(fs[i], TextOf(d, fs[i]))
    ensures FirstFailing(fs, d).Some? ==>
      exists j :: 0 <= j < |fs| && fs[j] == FirstFailing(fs, d).value
        && !Accepts(fs[j], TextOf(d, fs[j]))
        && forall i :: 0 <= i < j ==> Accepts(fs[i], TextOf(d, fs[i]))
  {
    if fs != [] && Accepts(fs[0], TextOf(d, fs[0])) {
      FirstFailingSpec(fs[1..], d);
      if FirstFailing(fs[1..], d).Some? {
        var j :| 0 <= j < |fs[1..]| && fs[1..][j] == FirstFailing(fs[1..], d).value
          && !Accepts(fs[1..][j], TextOf(d, fs[1..][j]))
          && forall i :: 0 <= i < j ==> Accepts(fs[1..][i], TextOf(d, fs[1..][i]));
        assert fs[j + 1] == fs[1..][j];
        forall i | 0 <= i < j + 1 ensures Accepts(fs[i], TextOf(d, fs[i])) {
          if i > 0 {
            assert fs[i] == fs[1..][i - 1];
          }
        }
      } else {
        forall i | 0 <= i < |fs| ensures Accepts(fs[i], TextOf(d, fs[i])) {
          if i > 0 {
            assert fs[i] == fs[1..][i - 1];
          }
        }
      }
    }
  }

  /** Checking `a + b` checks `a` first and looks at `b` only when all of `a` passes. */
  lemma {:induction false} FirstFailingAppend(a: seq<Field>, b: seq<Field>, d: Draft)
    ensures FirstFailing(a + b, d) == if FirstFailing(a, d).Some? then FirstFailing(a, d) else FirstFailing(b, d)
  {
    if a != [] {
      assert (a + b)[0] == a[0];
      assert (a + b)[1..] == a[1..] + b;
      FirstFailingAppend(a[1..], b, d);
    } else {
      assert a + b == b;
    }
  }

  /** A subtype re-runs Person's validation first; its own field is checked
      only when Person's four pass, and is then the field named on failure. */
  lemma SubtypeValidatesBaseFirst(kind: Kind, d: Draft)
    requires kind != Person
    ensures FirstInvalid(kind, d) ==
      if FirstInvalid(Person, d).Some? then FirstInvalid(Person, d)
      else if Accepts(ExtraField(kind), d.extra) then None
      else Some(ExtraField(kind))
  {
    FirstFailingAppend(BaseFields(), [ExtraField(kind)], d);
    assert [ExtraField(kind)][1..] == [];
  }

  /** Person validates id, name, surname and tel in that order: it stops at the
      first that fails, and passes exactly when all four match. */
  lemma PersonValidationOrder(d: Draft)
    ensures FirstInvalid(Person, d) ==
      if !IsId(d.id) then Some(IdField)
      else if !IsName(d.name) then Some(NameField)
      else if !IsSurname(d.surname) then Some(SurnameField)
      else if !IsTel(d.tel) then Some(TelField)
      else None
  {
    var tel, surname, name := [TelField], [SurnameField, TelField], [NameField, SurnameField, TelField];
    assert tel[1..] == [] && surname[1..] == tel && name[1..] == surname && BaseFields()[1..] == name;
    assert FirstFailing(tel, d) == if !IsTel(d.tel) then Some(TelField) else None;
    assert FirstFailing(surname, d) == if !IsSurname(d.surname) then Some(SurnameField) else FirstFailing(tel, d);
    assert FirstFailing(name, d) == if !IsName(d.name) then Some(NameField) else FirstFailing(surname, d);
  }

  /** A blank form fails at the id field, whatever the variant. */
  lemma BlankFailsAtId(kind: Kind)
    ensures FirstInvalid(kind, Blank) == Some(IdField)
  {
    EmptyTextRejected();
    assert FieldsOf(kind)[0] == IdField;
  }

  // ---------------------------------------------------------------------------
  // Commit and roll-back

  /** The committed record after `commit`: every field of the variant takes the
      text of its form field; a Person has no extra field to copy. */
  function CommitOf(kind: Kind, s: Stored, d: Draft): Stored
  {
    Stored(Some(d.id), Some(d.name), Some(d.surname), Some(d.tel),
           if kind == Person then s.extra else Some(d.extra))
  }

  /** The text a field shows after `setText(v)`: a null value empties it. */
  function Shown(v: Option<string>): string
  {
    match v
    case None => ""
    case Some(t) => t
  }

  /** The form after `rollBack`: every field of the variant shows its committed
      value again, whatever was typed. */
  function RollbackOf(kind: Kind, s: Stored, d: Draft): Draft
  {
    Draft(Shown(s.id), Shown(s.name), Shown(s.surname), Shown(s.tel),
          if kind == Person then d.extra else Shown(s.extra))
  }

  /** The committed record is either wholly unset (never committed) or holds a
      value for every field of the variant that matches that field's pattern. */
  ghost predicate StoredOk(kind: Kind, s: Stored)
  {
    && (kind == Person ==> s.extra.None?)
    && (s == Unset
        || forall f :: f in FieldsOf(kind) ==> StoredAt(s, f).Some? && Accepts(f, StoredAt(s, f).value))
  }

  /** Committing a form that passed validation keeps the committed record
      well-formed, and the member is no longer empty. */
  lemma CommitKeepsStoredOk(kind: Kind, s: Stored, d: Draft)
    requires StoredOk(kind, s)
    requires FirstInvalid(kind, d).None?
    ensures StoredOk(kind, CommitOf(kind, s, d))
    ensures CommitOf(kind, s, d).id.Some?
  {
    FirstFailingSpec(FieldsOf(kind), d);
    var c := CommitOf(kind, s, d);
    forall f | f in FieldsOf(kind) ensures StoredAt(c, f).Some? && Accepts(f, StoredAt(c, f).value) {
      var i :| 0 <= i < |FieldsOf(kind)| && FieldsOf(kind)[i] == f;
      assert StoredAt(c, f) == Some(TextOf(d, f));
    }
  }

  /** Commit followed by roll-back, with no edit between, leaves the form as it was. */
  lemma CommitThenRollback(kind: Kind, s: Stored, d: Draft)
    ensures RollbackOf(kind, CommitOf(kind, s, d), d) == d
  {
  }

  /** Rolling back to a committed record and committing again restores that
      record: commit, roll-back, commit ends where the first commit did. */
  lemma RollbackThenCommit(kind: Kind, s: Stored, d: Draft)
    requires StoredOk(kind, s) && s.id.Some?
    ensures CommitOf(kind, s, RollbackOf(kind, s, d)) == s
  {
    assert IdField in FieldsOf(kind) && NameField in FieldsOf(kind);
    assert SurnameField in FieldsOf(kind) && TelField in FieldsOf(kind);
    if kind != Person {
      assert ExtraField(kind) in FieldsOf(kind);
    }
  }

  // ---------------------------------------------------------------------------
  // Matching a key against a committed record

  /** `match(key)`: Person compares the key with its id (`key.equals(id)`, false
      while id is null). Soldier also compares it with its personal number.
      Student also compares it with its student id from index 4, through
      `studentId.substring(4)`, which throws while the student id is null. */
  function MatchRecord(kind: Kind, s: Stored, key: string): Answer<bool>
  {
    if Some(key) == s.id then Returns(true)
    else match kind
      case Person => Returns(false)
      case Soldier => Returns(Some(key) == s.extra)
      case Student =>
        match SubstringOf(s.extra, 4)
        case Throws(x) => Throws(x)
        case Returns(suffix) => Returns(key == suffix)
  }

  /** The keys a committed record answers to: its id, and the soldier's personal
      number or the student id's suffix from index 4. */
  ghost function Credentials(kind: Kind, s: Stored): set<string>
  {
    (if s.id.Some? then {s.id.value} else {})
    + match kind
      case Person => {}
      case Soldier => if s.extra.Some? then {s.extra.value} else {}
      case Student => if s.extra.Some? && |s.extra.value| >= 4 then {s.extra.value[4..]} else {}
  }

  /** On a committed record `match` never throws, and it is true exactly for
      the record's credentials. */
  lemma MatchCommitted(kind: Kind, s: Stored, key: string)
    requires StoredOk(kind, s) && s.id.Some?
    ensures MatchRecord(kind, s, key) == Returns(key in Credentials(kind, s))
  {
    if kind == Student {
      assert StudentIdField in FieldsOf(kind);
      StudentIdSuffix(s.extra.value);
    } else if kind == Soldier {
      assert PersonalNumField in FieldsOf(kind);
    }
  }

  /** On a never-committed record, Person and Soldier match no key, and Student
      throws NullPointerException for every key. */
  lemma MatchUnset(kind: Kind, key: string)
    ensures kind != Student ==> MatchRecord(kind, Unset, key) == Returns(false)
    ensures kind == Student ==> MatchRecord(kind, Unset, key) == Throws(NullPointerException)
  {
  }

  /** A student whose student id is "ABC/12345" matches the key "12345", and
      not the key "ABC/12345" (unless that is its id). */
  lemma StudentMatchesSuffix(id: string, s: Stored)
    requires s.id == Some(id) && s.extra == Some("ABC/12345")
    ensures MatchRecord(Student, s, "12345") == Returns(true)
    ensures id != "ABC/12345" ==> MatchRecord(Student, s, "ABC/12345") == Returns(false)
  {
    assert "ABC/12345"[4..] == "12345";
  }

  /** A key taken from a valid student id's suffix matches a committed record
      only when that record is a Student whose own suffix is the same key. */
  lemma SuffixKeyMatchesOnlyStudents(kind: Kind, s: Stored, sid: string)
    requires StoredOk(kind, s) && s.id.Some?
    requires IsStudentId(sid)
    requires MatchRecord(kind, s, sid[4..]) == Returns(true)
    ensures kind == Student && s.extra.Some? && |s.extra.value| >= 4 && s.extra.value[4..] == sid[4..]
  {
    StudentSuffixIsNoOtherCredential(sid);
    assert IdField in FieldsOf(kind);
    if kind != Person {
      assert ExtraField(kind) in FieldsOf(kind);
    }
    if kind == Student {
      StudentIdSuffix(s.extra.value);
    }
  }
}
