/** Properties of the manager's list scans and of cleaning the list, stated
    over the specification functions of module Club. */
module ClubFacts {
  import opened Outcomes
  import opened Patterns
  import opened Members
  import opened Club

  /** No member before index `j`, other than `c`, answers to `key`. */
  ghost predicate OthersClearBefore(es: seq<Entity>, key: string, c: Entity, j: nat)
    requires j <= |es|
    reads set e | e in es
  {
    forall i :: 0 <= i < j && es[i] != c ==> es[i].Match(key) == Returns(false)
  }

  /** Every member other than `c` went through a successful OK. */
  ghost predicate OthersCommitted(es: seq<Entity>, c: Entity)
    reads set e | e in es
  {
    forall i :: 0 <= i < |es| && es[i] != c ==> es[i].Valid() && !es[i].IsEmpty()
  }

  /** Some member other than `c` holds `key` among its committed credentials. */
  ghost predicate HeldByOther(es: seq<Entity>, key: string, c: Entity)
    reads set e | e in es
  {
    exists i :: 0 <= i < |es| && es[i] != c && key in Credentials(es[i].kind, es[i].stored)
  }

  // ---------------------------------------------------------------------------
  // duplicateKeyCheck

  /** The scan answers false exactly when no member other than `c` answers
      to the key, and none throws. */
  lemma {:induction false} KeyTakenFalseIff(es: seq<Entity>, key: string, c: Entity)
    ensures KeyTaken(es, key, c) == Returns(false) <==> OthersClearBefore(es, key, c, |es|)
  {
    if es != [] {
      var rest := es[1..];
      KeyTakenFalseIff(rest, key, c);
      if OthersClearBefore(es, key, c, |es|) {
        forall i | 0 <= i < |rest| && rest[i] != c ensures rest[i].Match(key) == Returns(false) {
          assert rest[i] == es[i + 1];
        }
      }
      if (es[0] == c || es[0].Match(key) == Returns(false)) && OthersClearBefore(rest, key, c, |rest|) {
        forall i | 0 <= i < |es| && es[i] != c ensures es[i].Match(key) == Returns(false) {
          if i > 0 {
            assert es[i] == rest[i - 1];
          }
        }
      }
    }
  }

  /** Otherwise the scan's answer is that of the first member other than `c`
      whose `match` does not answer false: true, or the exception it throws. */
  lemma {:induction false} KeyTakenFirstDecisive(es: seq<Entity>, key: string, c: Entity)
    requires KeyTaken(es, key, c) != Returns(false)
    ensures
      exists j :: 0 <= j < |es| && es[j] != c && OthersClearBefore(es, key, c, j)
        && es[j].Match(key) != Returns(false) && KeyTaken(es, key, c) == es[j].Match(key)
  {
    var rest := es[1..];
    if es[0] != c && es[0].Match(key) != Returns(false) {
      assert OthersClearBefore(es, key, c, 0);
    } else {
      KeyTakenFirstDecisive(rest, key, c);
      var j :| 0 <= j < |rest| && rest[j] != c && OthersClearBefore(rest, key, c, j)
        && rest[j].Match(key) != Returns(false) && KeyTaken(rest, key, c) == rest[j].Match(key);
      assert es[j + 1] == rest[j];
      forall i | 0 <= i < j + 1 && es[i] != c ensures es[i].Match(key) == Returns(false) {
        if i > 0 {
          assert es[i] == rest[i - 1];
        }
      }
    }
  }

  /** When no member other than `c` throws on the key, the scan returns true
      exactly when some member other than `c` answers to it. */
  lemma {:induction false} KeyTakenNoThrow(es: seq<Entity>, key: string, c: Entity)
    requires forall i :: 0 <= i < |es| && es[i] != c ==> es[i].Match(key).Returns?
    ensures KeyTaken(es, key, c) ==
      Returns(exists i :: 0 <= i < |es| && es[i] != c && es[i].Match(key) == Returns(true))
  {
    KeyTakenFalseIff(es, key, c);
    if KeyTaken(es, key, c) != Returns(false) {
      KeyTakenFirstDecisive(es, key, c);
    }
  }

  /** A member is never reported against itself: a list holding only `c`
      (any number of times) gives false for every key. */
  lemma {:induction false} KeyTakenIgnoresSelf(es: seq<Entity>, key: string, c: Entity)
    requires forall i :: 0 <= i < |es| ==> es[i] == c
    ensures KeyTaken(es, key, c) == Returns(false)
  {
    KeyTakenFalseIff(es, key, c);
  }

  /** The defect: a never-committed Student in the list, reached by the scan
      before any other member answers to the key, makes the scan throw
      NullPointerException. */
  lemma KeyTakenReachesUnsetStudent(es: seq<Entity>, key: string, c: Entity, j: nat)
    requires j < |es| && es[j] != c
    requires es[j].kind == Student && es[j].Valid() && es[j].IsEmpty()
    requires OthersClearBefore(es, key, c, j)
    ensures KeyTaken(es, key, c) == Throws(NullPointerException)
  {
    assert es[j].stored == Unset by {
      assert IdField in FieldsOf(Student);
    }
    MatchUnset(Student, key);
    KeyTakenFalseIff(es, key, c);
    KeyTakenFirstDecisive(es, key, c);
    var k :| 0 <= k < |es| && es[k] != c && OthersClearBefore(es, key, c, k)
      && es[k].Match(key) != Returns(false) && KeyTaken(es, key, c) == es[k].Match(key);
  }

  /** Over members that were all committed, the scan never throws and returns
      whether another member holds the key as a credential. */
  lemma CommittedScanNeverThrows(es: seq<Entity>, key: string, c: Entity)
    requires OthersCommitted(es, c)
    ensures KeyTaken(es, key, c) == Returns(HeldByOther(es, key, c))
  {
    forall i | 0 <= i < |es| && es[i] != c
      ensures es[i].Match(key) == Returns(key in Credentials(es[i].kind, es[i].stored))
    {
      MatchCommitted(es[i].kind, es[i].stored, key);
    }
    KeyTakenNoThrow(es, key, c);
  }

  // ---------------------------------------------------------------------------
  // duplicateCredentialCheck()

  /** Over committed members, the duplicate check of a form is true exactly
      when another member holds its id text, or (Soldier) its personal-number
      text, or (Student) its student-id text from index 4: both checks are
      made and either collision counts. */
  lemma CollidesWhenOthersCommitted(kind: Kind, d: Draft, es: seq<Entity>, c: Entity)
    requires OthersCommitted(es, c)
    requires kind == Student ==> |d.extra| >= 4
    ensures Collides(kind, d, es, c) == Returns(
      || HeldByOther(es, d.id, c)
      || (kind == Soldier && HeldByOther(es, d.extra, c))
      || (kind == Student && HeldByOther(es, d.extra[4..], c)))
  {
    CommittedScanNeverThrows(es, d.id, c);
    if kind == Soldier {
      CommittedScanNeverThrows(es, d.extra, c);
    } else if kind == Student {
      CommittedScanNeverThrows(es, d.extra[4..], c);
    }
  }

  /** A validated student-id text can collide only with another Student whose
      committed student id has the same suffix. */
  lemma StudentKeyCollidesOnlyWithStudents(d: Draft, es: seq<Entity>, c: Entity)
    requires OthersCommitted(es, c)
    requires IsStudentId(d.extra)
    requires KeyTaken(es, d.extra[4..], c) == Returns(true)
    ensures
      exists i :: 0 <= i < |es| && es[i] != c && es[i].kind == Student
        && es[i].stored.extra.Some? && |es[i].stored.extra.value| >= 4
        && es[i].stored.extra.value[4..] == d.extra[4..]
  {
    CommittedScanNeverThrows(es, d.extra[4..], c);
    var i :| 0 <= i < |es| && es[i] != c && d.extra[4..] in Credentials(es[i].kind, es[i].stored);
    MatchCommitted(es[i].kind, es[i].stored, d.extra[4..]);
    SuffixKeyMatchesOnlyStudents(es[i].kind, es[i].stored, d.extra);
  }

  /** The defect seen from OK: while a never-committed Student sits in the
      list before any member holding the form's id, every form's duplicate
      check throws, so no OK can commit. */
  lemma UnsetStudentBlocksCommit(kind: Kind, d: Draft, es: seq<Entity>, c: Entity, j: nat)
    requires j < |es| && es[j] != c
    requires es[j].kind == Student && es[j].Valid() && es[j].IsEmpty()
    requires OthersClearBefore(es, d.id, c, j)
    ensures Collides(kind, d, es, c) == Throws(NullPointerException)
  {
    KeyTakenReachesUnsetStudent(es, d.id, c, j);
  }

  // ---------------------------------------------------------------------------
  // cleanEmptyEntries

  /** Cleaning keeps the relative order: cleaning a concatenation is
      concatenating the cleaned parts. */
  lemma {:induction false} NonEmptyAppend(a: seq<Entity>, b: seq<Entity>)
    ensures NonEmpty(a + b) == NonEmpty(a) + NonEmpty(b)
  {
    if b == [] {
      assert a + b == a;
    } else {
      var init := b[..|b| - 1];
      NonEmptyAppend(a, init);
      assert (a + b)[..|a + b| - 1] == a + init;
    }
  }

  /** A list without empty members is left as it is. */
  lemma {:induction false} NonEmptyKeepsFull(es: seq<Entity>)
    requires forall i :: 0 <= i < |es| ==> !es[i].IsEmpty()
    ensures NonEmpty(es) == es
  {
    if es != [] {
      NonEmptyKeepsFull(es[..|es| - 1]);
      assert es == es[..|es| - 1] + [es[|es| - 1]];
    }
  }

  /** Cleaning twice is cleaning once. */
  lemma NonEmptyIdempotent(es: seq<Entity>)
    ensures NonEmpty(NonEmpty(es)) == NonEmpty(es)
  {
    NonEmptyMembers(es);
    NonEmptyKeepsFull(NonEmpty(es));
  }
}
