/** The club's members as objects and the manager's list of them.

    `Entity` is one member's form window: the state that ClubAbstractEntity,
    Person, Soldier and Student keep and update (committed fields, form text,
    error mark, Cancel button, visibility), with the variant as a tag.
    `Registry` is the manager's list of members: creating, cleaning, duplicate
    scans and search. Every member object is compared by reference, as the
    Java `!=` on objects does. */
module Club {
  import opened Outcomes
  import opened Patterns
  import opened Members

  // ---------------------------------------------------------------------------
  // Specifications of the list scans

  /** `duplicateKeyCheck(key, c)`: scan the list in order, skipping `c` by
      reference; true at the first other member whose `match(key)` is true,
      false when none is, and the exception of the first `match` that throws. */
  function KeyTaken(es: seq<Entity>, key: string, c: Entity): Answer<bool>
    reads set e | e in es && e != c
  {
    if es == [] then Returns(false)
    else if es[0] == c then KeyTaken(es[1..], key, c)
    else match es[0].Match(key)
      case Returns(true) => Returns(true)
      case Returns(false) => KeyTaken(es[1..], key, c)
      case Throws(x) => Throws(x)
  }

  /** The parameterless `duplicateCredentialCheck()` of a member of this kind
      with form `d`. Person checks its id text. Soldier and Student first check
      the id text, then always their own credential: the personal-number text,
      or the student-id text from index 4; either collision makes it true. */
  function Collides(kind: Kind, d: Draft, es: seq<Entity>, c: Entity): Answer<bool>
    reads set e | e in es && e != c
  {
    var idCheck := KeyTaken(es, d.id, c);
    if kind == Person || idCheck.Throws? then idCheck
    else
      var credential := if kind == Soldier then Returns(d.extra) else Substring(d.extra, 4);
      match credential
      case Throws(x) => Throws(x)
      case Returns(key) =>
        match KeyTaken(es, key, c)
        case Throws(x) => Throws(x)
        case Returns(taken) => Returns(taken || idCheck.value)
  }

  /** The members of `es` that are not empty, in their original order. */
  function NonEmpty(es: seq<Entity>): seq<Entity>
    reads set e | e in es
  {
    if es == [] then []
    else
      var last := es[|es| - 1];
      NonEmpty(es[..|es| - 1]) + if last.IsEmpty() then [] else [last]
  }

  /** Cleaning keeps exactly the non-empty members and never lengthens the list. */
  lemma {:induction false} NonEmptyMembers(es: seq<Entity>)
    ensures |NonEmpty(es)| <= |es|
    ensures forall e :: e in NonEmpty(es) <==> e in es && !e.IsEmpty()
    ensures forall i :: 0 <= i < |NonEmpty(es)| ==> !NonEmpty(es)[i].IsEmpty()
  {
    if es != [] {
      var init, last := es[..|es| - 1], es[|es| - 1];
      NonEmptyMembers(init);
      assert es == init + [last];
    }
  }

  /** No member before index `j` matches `key`. */
  predicate NoMatchBefore(es: seq<Entity>, key: string, j: nat)
    requires j <= |es|
    reads set e | e in es
  {
    forall i :: 0 <= i < j ==> es[i].Match(key) == Returns(false)
  }

  // ---------------------------------------------------------------------------
  // One member's window

  class Entity {
    /** Which subclass the Java object is. */
    const kind: Kind
    /** The manager the member asks about duplicates (`clubManager`). */
    const manager: Registry
    /** The committed fields, the "belly". */
    var stored: Stored
    /** The text in the form's fields. */
    var draft: Draft
    /** `errorLocation`: the panel last marked, remembered even after the mark is removed. */
    var errorLocation: Option<Field>
    /** Whether the red asterisk is currently attached to `errorLocation`. */
    var asteriskShown: bool
    /** Whether the Cancel button is enabled. */
    var cancelEnabled: bool
    /** Whether the window is visible. */
    var visible: bool

    /** The object invariant: the committed fields are either all unset or all
        valid, Cancel is enabled exactly once something was committed, and the
        asterisk is only ever attached to the remembered panel. */
    ghost predicate Valid()
      reads this
    {
      && StoredOk(kind, stored)
      && (cancelEnabled <==> stored.id.Some?)
      && (asteriskShown ==> errorLocation.Some?)
    }

    /** The field the user sees marked with the asterisk, if any. */
    function Marked(): Option<Field>
      reads this
    {
      if asteriskShown then errorLocation else None
    }

    /** `isEmpty()`: the member was never committed (its id is null). */
    predicate IsEmpty()
      reads this
    {
      stored.id.None?
    }

    /** `match(key)` of this member's variant. */
    function Match(key: string): Answer<bool>
      reads this
    {
      MatchRecord(kind, stored, key)
    }

    /** `new Person(manager)`, `new Soldier(manager)`, `new Student(manager)`:
        all fields null, a blank form, Cancel disabled, the window shown. */
    constructor (kind: Kind, manager: Registry)
      ensures Valid()
      ensures this.kind == kind && this.manager == manager
      ensures stored == Unset && IsEmpty() && draft == Blank
      ensures !cancelEnabled && visible
      ensures errorLocation == None && Marked() == None
    {
      this.kind := kind;
      this.manager := manager;
      stored := Unset;
      draft := Blank;
      errorLocation := None;
      asteriskShown := false;
      cancelEnabled := false;
      visible := true;
    }

    /** `addAsterisk(panel)`: remember the panel and move the asterisk there,
        so that at most one field is marked. */
    method AddAsterisk(f: Field)
      modifies this`errorLocation, this`asteriskShown
      ensures errorLocation == Some(f) && Marked() == Some(f)
    {
      errorLocation := Some(f);
      asteriskShown := true;
    }

    /** `removeAsterisk()`: take the asterisk off the remembered panel; nothing
        happens when no panel was ever marked. The panel stays remembered. */
    method RemoveAsterisk()
      modifies this`asteriskShown
      ensures errorLocation.None? ==> asteriskShown == old(asteriskShown)
      ensures errorLocation.Some? ==> Marked() == None
    {
      if errorLocation == None {
        return;
      }
      asteriskShown := false;
    }

    /** `toggleCancelButton(safeToEnable)`. */
    method ToggleCancelButton(safeToEnable: bool)
      modifies this`cancelEnabled
      ensures cancelEnabled == safeToEnable
    {
      cancelEnabled := safeToEnable;
    }

    /** `duplicateCredentialCheck(key)`: ask the manager whether a member other
        than this one answers to `key`. */
    method DuplicateCredentialCheckKey(key: string) returns (r: Answer<bool>)
      ensures r == KeyTaken(manager.clubbers.items, key, this)
    {
      r := manager.DuplicateKeyCheck(key, this);
    }

    /** The parameterless `duplicateCredentialCheck()` of each variant; the
        message dialogs it shows are left out. Soldier and Student evaluate
        Person's id check first and keep its answer, then check their own
        credential. */
    method DuplicateCredentialCheck() returns (r: Answer<bool>)
      ensures r == Collides(kind, draft, manager.clubbers.items, this)
    {
      var idCheck := DuplicateCredentialCheckKey(draft.id);
      if kind == Person || idCheck.Throws? {
        return idCheck;
      }
      var key: string;
      if kind == Soldier {
        key := draft.extra;
      } else {
        var suffix := Substring(draft.extra, 4);
        if suffix.Throws? {
          return Throws(suffix.exception);
        }
        key := suffix.value;
      }
      var credentialCheck := DuplicateCredentialCheckKey(key);
      if credentialCheck.Throws? {
        return credentialCheck;
      }
      if credentialCheck.value {
        return Returns(true);
      }
      return idCheck;
    }

    /** Person's `validateData()`: clear the old mark, then check id, name,
        surname and tel in order; mark the first that fails and stop there. */
    method ValidateBase() returns (ok: bool)
      requires asteriskShown ==> errorLocation.Some?
      modifies this`errorLocation, this`asteriskShown
      ensures ok <==> FirstInvalid(Person, draft).None?
      ensures Marked() == FirstInvalid(Person, draft)
      ensures ok ==> errorLocation == old(errorLocation)
      ensures asteriskShown ==> errorLocation.Some?
    {
      RemoveAsterisk();
      var fields := BaseFields();
      var i := 0;
      while i < |fields|
        invariant 0 <= i <= |fields|
        invariant FirstFailing(fields[i..], draft) == FirstInvalid(Person, draft)
        invariant Marked() == None && errorLocation == old(errorLocation)
      {
        if !Accepts(fields[i], TextOf(draft, fields[i])) {
          AddAsterisk(fields[i]);
          return false;
        }
        assert fields[i..][1..] == fields[i + 1..];
        i := i + 1;
      }
      return true;
    }

    /** `validateData()` of the member's variant: Soldier and Student run
        Person's first and check their own field only when it passes. */
    method ValidateData() returns (ok: bool)
      requires asteriskShown ==> errorLocation.Some?
      modifies this`errorLocation, this`asteriskShown
      ensures ok <==> FirstInvalid(kind, draft).None?
      ensures Marked() == FirstInvalid(kind, draft)
      ensures asteriskShown ==> errorLocation.Some?
    {
      ok := ValidateBase();
      if kind == Person || !ok {
        if kind != Person {
          SubtypeValidatesBaseFirst(kind, draft);
        }
        return;
      }
      SubtypeValidatesBaseFirst(kind, draft);
      if !Accepts(ExtraField(kind), draft.extra) {
        AddAsterisk(ExtraField(kind));
        ok := false;
      }
    }

    /** Person's `commit()`: enable Cancel and copy the four form fields into
        the committed fields. */
    method CommitBase()
      modifies this`cancelEnabled, this`stored
      ensures cancelEnabled
      ensures stored == old(stored).(id := Some(draft.id), name := Some(draft.name),
                                     surname := Some(draft.surname), tel := Some(draft.tel))
    {
      ToggleCancelButton(true);
      stored := stored.(id := Some(draft.id), name := Some(draft.name),
                        surname := Some(draft.surname), tel := Some(draft.tel));
    }

    /** `commit()` of the member's variant: Soldier and Student also copy their
        own field after Person's four. */
    method Commit()
      modifies this`cancelEnabled, this`stored
      ensures cancelEnabled
      ensures stored == CommitOf(kind, old(stored), draft)
    {
      CommitBase();
      if kind != Person {
        stored := stored.(extra := Some(draft.extra));
      }
    }

    /** Person's `rollBack()`: clear the mark and put the four committed values
        back into the form (a null value empties its field). */
    method RollBackBase()
      modifies this`asteriskShown, this`draft
      ensures errorLocation.Some? ==> Marked() == None
      ensures errorLocation.None? ==> asteriskShown == old(asteriskShown)
      ensures draft == old(draft).(id := Shown(stored.id), name := Shown(stored.name),
                                   surname := Shown(stored.surname), tel := Shown(stored.tel))
    {
      RemoveAsterisk();
      draft := draft.(id := Shown(stored.id), name := Shown(stored.name),
                      surname := Shown(stored.surname), tel := Shown(stored.tel));
    }

    /** `rollBack()` of the member's variant: Soldier and Student also restore
        their own field. */
    method RollBack()
      modifies this`asteriskShown, this`draft
      ensures errorLocation.Some? ==> Marked() == None
      ensures errorLocation.None? ==> asteriskShown == old(asteriskShown)
      ensures draft == RollbackOf(kind, stored, old(draft))
    {
      RollBackBase();
      if kind != Person {
        draft := draft.(extra := Shown(stored.extra));
      }
    }

    /** The OK button's handler: commit and hide only when validation passes
        and no other member holds one of the credentials; the duplicate check
        is not run when validation fails. `r` is Returns(true) when the form
        was committed, Returns(false) when it was refused, and the exception
        when one escaped the handler. */
    method OnOk() returns (r: Answer<bool>)
      requires Valid()
      modifies this`errorLocation, this`asteriskShown, this`cancelEnabled, this`stored, this`visible
      ensures Valid()
      ensures old(cancelEnabled) ==> cancelEnabled
      ensures FirstInvalid(kind, draft).Some? ==> r == Returns(false) && Marked() == FirstInvalid(kind, draft)
      ensures FirstInvalid(kind, draft).None? ==>
        Marked() == None && r == Not(Collides(kind, draft, manager.clubbers.items, this))
      ensures r == Returns(true) ==> stored == CommitOf(kind, old(stored), draft) && !visible
      ensures r != Returns(true) ==>
        stored == old(stored) && visible == old(visible) && cancelEnabled == old(cancelEnabled)
    {
      var valid := ValidateData();
      if !valid {
        return Returns(false);
      }
      var duplicate := DuplicateCredentialCheck();
      if duplicate.Throws? {
        return Throws(duplicate.exception);
      }
      if duplicate.value {
        return Returns(false);
      }
      CommitKeepsStoredOk(kind, stored, draft);
      Commit();
      visible := false;
      return Returns(true);
    }

    /** The Cancel button's handler: roll back the form and hide the window. */
    method OnCancel()
      requires Valid()
      modifies this`asteriskShown, this`draft, this`visible
      ensures Valid()
      ensures draft == RollbackOf(kind, stored, old(draft))
      ensures Marked() == None && !visible
    {
      RollBack();
      visible := false;
    }

    /** A click on Cancel: a disabled button delivers no event, so a member
        that was never committed keeps its form and stays open. */
    method ClickCancel()
      requires Valid()
      modifies this`asteriskShown, this`draft, this`visible
      ensures Valid()
      ensures IsEmpty() ==> draft == old(draft) && Marked() == old(Marked()) && visible == old(visible)
      ensures !IsEmpty() ==> draft == RollbackOf(kind, stored, old(draft)) && Marked() == None && !visible
    {
      if cancelEnabled {
        OnCancel();
      }
    }
  }

  // ---------------------------------------------------------------------------
  // The manager's list

  /** The `ArrayList` object holding the members. Managers can share one: a
      member read back from the file asks a manager that was read back with
      it, and that manager's list is the very list object the new manager
      installs. */
  class MemberList {
    /** The elements, in insertion order. */
    var items: seq<Entity>

    constructor ()
      ensures items == []
    {
      items := [];
    }
  }

  /** What reading the saved file gives at start-up. */
  datatype SavedFile =
    | Missing                    // first run: no file yet
    | Unreadable                 // reading failed before the list was read
    | Saved(list: MemberList)    // the list object read back from the file last written

  class Registry {
    /** `clubbers`: the list object this manager works on. */
    var clubbers: MemberList

    /** Every member in the list asks a manager that works on this same list
        object, so every member's duplicate check scans this list. */
    ghost predicate Shared()
      reads this, clubbers, set e | e in clubbers.items, set e | e in clubbers.items :: e.manager
    {
      forall e :: e in clubbers.items ==> e.manager.clubbers == clubbers
    }

    /** The manager's start-up: a new empty list, replaced by the list object
        read back from the file, which is then cleaned of empty members in
        place. A missing or unreadable file leaves the new empty list. A file
        whose members' managers worked on the saved list, as every file this
        manager writes is, gives a list all of whose members share it. */
    constructor Open(file: SavedFile)
      modifies if file.Saved? then {file.list} else {}
      ensures file.Saved? ==> clubbers == file.list && clubbers.items == NonEmpty(old(file.list.items))
      ensures !file.Saved? ==> fresh(clubbers) && clubbers.items == [] && Shared()
      ensures file.Saved? && old(forall e :: e in file.list.items ==> e.manager.clubbers == file.list) ==>
        Shared()
    {
      clubbers := new MemberList();
      new;
      if file.Saved? {
        clubbers := file.list;
        CleanEmptyEntries();
      }
    }

    /** `duplicateKeyCheck(key, c)`: a read-only scan that stops at the first
        member other than `c` whose `match(key)` is true. */
    method DuplicateKeyCheck(key: string, c: Entity) returns (r: Answer<bool>)
      ensures r == KeyTaken(clubbers.items, key, c)
    {
      var members := clubbers.items;
      var i := 0;
      while i < |members|
        invariant 0 <= i <= |members|
        invariant KeyTaken(members[i..], key, c) == KeyTaken(members, key, c)
      {
        var clubber := members[i];
        assert members[i..][1..] == members[i + 1..];
        if clubber != c {
          var m := clubber.Match(key);
          if m.Throws? {
            return m;
          }
          if m.value {
            return Returns(true);
          }
        }
        i := i + 1;
      }
      return Returns(false);
    }

    /** The scan inside the search: the first member in list order whose
        `match(key)` is true, none when no member matches, or the exception of
        the first `match` that throws. */
    method FindFirst(key: string) returns (r: Answer<Option<nat>>)
      ensures r.Returns? && r.value.Some? ==>
        r.value.value < |clubbers.items| && clubbers.items[r.value.value].Match(key) == Returns(true)
        && NoMatchBefore(clubbers.items, key, r.value.value)
      ensures r == Returns(None) ==> NoMatchBefore(clubbers.items, key, |clubbers.items|)
      ensures r.Throws? ==>
        exists j :: 0 <= j < |clubbers.items| && clubbers.items[j].Match(key) == Throws(r.exception)
          && NoMatchBefore(clubbers.items, key, j)
    {
      var members := clubbers.items;
      var i := 0;
      while i < |members|
        invariant 0 <= i <= |members|
        invariant NoMatchBefore(members, key, i)
      {
        var m := members[i].Match(key);
        if m.Throws? {
          return Throws(m.exception);
        }
        if m.value {
          return Returns(Some(i));
        }
        i := i + 1;
      }
      return Returns(None);
    }

    /** `cleanEmptyEntries()`: walk the list and remove every empty member in
        place, keeping the others in order. */
    method CleanEmptyEntries()
      modifies clubbers
      ensures clubbers.items == NonEmpty(old(clubbers.items))
      ensures old(Shared()) ==> Shared()
    {
      ghost var original := clubbers.items;
      ghost var k := 0;
      var i := 0;
      while i < |clubbers.items|
        invariant 0 <= k <= |original|
        invariant 0 <= i <= |clubbers.items|
        invariant clubbers.items[..i] == NonEmpty(original[..k])
        invariant clubbers.items[i..] == original[k..]
        decreases |clubbers.items| - i
      {
        assert original[..k + 1][..k] == original[..k];
        assert clubbers.items[i] == original[k];
        if clubbers.items[i].IsEmpty() {
          clubbers.items := clubbers.items[..i] + clubbers.items[i + 1..];
        } else {
          i := i + 1;
        }
        k := k + 1;
      }
      assert original[..k] == original;
      NonEmptyMembers(original);
    }

    /** `addNewMember(memberType)`: append one new blank member asking this
        manager; "Soldier" and "Student" choose those variants and any other
        name falls through the switch's `default` to Person. */
    method AddNewMember(memberType: string)
      modifies clubbers
      ensures |clubbers.items| == |old(clubbers.items)| + 1
      ensures clubbers.items[..|old(clubbers.items)|] == old(clubbers.items)
      ensures var e := clubbers.items[|clubbers.items| - 1];
        && fresh(e) && e.Valid() && e.manager == this
        && (e.kind == Soldier <==> memberType == "Soldier")
        && (e.kind == Student <==> memberType == "Student")
        && e.stored == Unset && e.draft == Blank && !e.cancelEnabled && e.visible && e.Marked() == None
      ensures old(Shared()) ==> Shared()
    {
      var e: Entity;
      if memberType == "Soldier" {
        e := new Entity(Soldier, this);
      } else if memberType == "Student" {
        e := new Entity(Student, this);
      } else {
        e := new Entity(Person, this);
      }
      clubbers.items := clubbers.items + [e];
    }
  }
}
