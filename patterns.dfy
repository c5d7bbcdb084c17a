/** The fixed field patterns of the club's member forms. Each Java pattern is
    matched with `String.matches`, which accepts only when the whole string
    matches; each predicate below is that whole-string match written out over
    the characters, with Java's `\d` as the ASCII digits and `[A-Z]`, `[a-z]`
    as the ASCII letters. */
module Patterns {

  predicate IsDigit(c: char) { '0' <= c <= '9' }
  predicate IsNonZeroDigit(c: char) { '1' <= c <= '9' }
  predicate IsUpper(c: char) { 'A' <= c <= 'Z' }
  predicate IsLower(c: char) { 'a' <= c <= 'z' }
  /** `['-]` */
  predicate IsSeparator(c: char) { c == '\'' || c == '-' }

  predicate AllDigits(s: string)
  {
    forall i :: 0 <= i < |s| ==> IsDigit(s[i])
  }

  /** `[1-9]\d*`: a non-empty run of digits whose first digit is not zero. */
  predicate LeadingNonZero(s: string)
  {
    |s| >= 1 && IsNonZeroDigit(s[0]) && AllDigits(s[1..])
  }

  /** Id: `\d-\d{7}[|][1-9]` */
  predicate IsId(s: string)
  {
    && |s| == 11
    && IsDigit(s[0])
    && s[1] == '-'
    && AllDigits(s[2..9])
    && s[9] == '|'
    && IsNonZeroDigit(s[10])
  }

  /** Name: `[A-Z][a-z]+` */
  predicate IsName(s: string)
  {
    && |s| >= 2
    && IsUpper(s[0])
    && forall i :: 1 <= i < |s| ==> IsLower(s[i])
  }

  /** Surname: `([A-Z][a-z]*['-]?)+`, read character by character: it starts
      with an upper-case letter, uses only letters and separators, and every
      separator that is not last is followed by an upper-case letter (the
      start of the next repetition). SurnameMeansSegments proves that this is
      the language of the pattern. */
  predicate IsSurname(s: string)
  {
    && |s| >= 1
    && IsUpper(s[0])
    && (forall i :: 0 <= i < |s| ==> IsUpper(s[i]) || IsLower(s[i]) || IsSeparator(s[i]))
    && (forall i :: 0 <= i < |s| - 1 ==> IsSeparator(s[i]) ==> IsUpper(s[i + 1]))
  }

  /** Tel: `\+[(][1-9]\d{0,2}[)][1-9]\d{0,2}-[1-9]\d{6}`, where `a` and `b` are
      the lengths of the two bracketed-and-following digit groups. */
  predicate TelShape(s: string, a: nat, b: nat)
  {
    && |s| == 11 + a + b
    && s[0] == '+'
    && s[1] == '('
    && LeadingNonZero(s[2..2 + a])
    && s[2 + a] == ')'
    && LeadingNonZero(s[3 + a..3 + a + b])
    && s[3 + a + b] == '-'
    && LeadingNonZero(s[4 + a + b..])
  }

  predicate IsTel(s: string)
  {
    exists a: nat, b: nat | 1 <= a <= 3 && 1 <= b <= 3 :: TelShape(s, a, b)
  }

  /** Soldier's personal number: `[ROC]/[1-9]\d{6}` */
  predicate IsPersonalNum(s: string)
  {
    && |s| == 9
    && (s[0] == 'R' || s[0] == 'O' || s[0] == 'C')
    && s[1] == '/'
    && LeadingNonZero(s[2..])
  }

  /** Student id: `[A-Z]{3}/[1-9]\d{4}` */
  predicate IsStudentId(s: string)
  {
    && |s| == 9
    && IsUpper(s[0]) && IsUpper(s[1]) && IsUpper(s[2])
    && s[3] == '/'
    && LeadingNonZero(s[4..])
  }

  // ---------------------------------------------------------------------------
  // Shapes of accepted values

  /** A valid id has eleven characters, `-` at index 1 and `|` at index 9. */
  lemma IdShape(s: string)
    requires IsId(s)
    ensures |s| == 11 && s[1] == '-' && s[9] == '|'
    ensures forall i :: 0 <= i < |s| && i != 1 && i != 9 ==> IsDigit(s[i])
  {
    forall i | 2 <= i < 9 ensures IsDigit(s[i]) {
      assert s[i] == s[2..9][i - 2];
    }
  }

  /** A valid personal number has nine characters and a `/` at index 1. */
  lemma PersonalNumShape(s: string)
    requires IsPersonalNum(s)
    ensures |s| == 9 && s[1] == '/' && '/' in s
    ensures forall i :: 2 <= i < |s| ==> IsDigit(s[i])
  {
    forall i | 3 <= i < |s| ensures IsDigit(s[i]) {
      assert s[i] == s[2..][1..][i - 3];
    }
  }

  /** A valid student id has nine characters, and its suffix from index 4 is
      five digits with a non-zero first digit. */
  lemma StudentIdSuffix(s: string)
    requires IsStudentId(s)
    ensures |s| == 9 && |s[4..]| == 5 && LeadingNonZero(s[4..])
    ensures forall i :: 0 <= i < |s[4..]| ==> IsDigit(s[4..][i])
  {
    forall i | 1 <= i < 5 ensures IsDigit(s[4..][i]) {
      assert s[4..][i] == s[4..][1..][i - 1];
    }
  }

  /** The suffix of a valid student id (five digits) is never a valid id
      (eleven characters), a valid personal number (it holds a `/`) or a
      valid student id. */
  lemma StudentSuffixIsNoOtherCredential(s: string)
    requires IsStudentId(s)
    ensures !IsId(s[4..]) && !IsPersonalNum(s[4..]) && !IsStudentId(s[4..])
  {
    StudentIdSuffix(s);
    if IsPersonalNum(s[4..]) {
      PersonalNumShape(s[4..]);
      assert false;
    }
  }

  /** Every pattern rejects the empty text of a blank form. */
  lemma EmptyTextRejected()
    ensures !IsId("") && !IsName("") && !IsSurname("") && !IsTel("")
    ensures !IsPersonalNum("") && !IsStudentId("")
  {
  }

  // ---------------------------------------------------------------------------
  // The telephone pattern on sample values

  /** The sample number "+(1)23-4567890" is accepted: a one-digit country
      code and a two-digit area code. */
  lemma SampleTelAccepted()
    ensures IsTel("+(1)23-4567890")
  {
    var s := "+(1)23-4567890";
    assert s[2..3] == "1";
    assert s[4..6] == "23";
    assert s[7..] == "4567890";
    assert TelShape(s, 1, 2);
  }

  /** A code whose first digit is zero is rejected, whatever the group lengths. */
  lemma ZeroCountryCodeRejected(s: string)
    requires |s| >= 3 && s[2] == '0'
    ensures !IsTel(s)
  {
  }

  // ---------------------------------------------------------------------------
  // The surname pattern as a repetition of groups

  /** One repetition of the group `[A-Z][a-z]*['-]?`. */
  predicate Segment(t: string)
  {
    && |t| >= 1
    && IsUpper(t[0])
    && (forall i :: 1 <= i < |t| - 1 ==> IsLower(t[i]))
    && (|t| >= 2 ==> IsLower(t[|t| - 1]) || IsSeparator(t[|t| - 1]))
  }

  /** `s` is one or more repetitions of the group, concatenated. */
  ghost predicate Segments(s: string)
    decreases |s|
  {
    exists k :: 1 <= k <= |s| && Segment(s[..k]) && (k == |s| || Segments(s[k..]))
  }

  /** The end of the run of lower-case letters that starts at index `j`. */
  function LowerRunEnd(s: string, j: nat): (r: nat)
    requires j <= |s|
    ensures j <= r <= |s|
    ensures forall i :: j <= i < r ==> IsLower(s[i])
    ensures r < |s| ==> !IsLower(s[r])
    decreases |s| - j
  {
    if j == |s| || !IsLower(s[j]) then j else LowerRunEnd(s, j + 1)
  }

  lemma {:induction false} SegmentsAreSurname(s: string)
    requires Segments(s)
    ensures IsSurname(s)
    decreases |s|
  {
    var k :| 1 <= k <= |s| && Segment(s[..k]) && (k == |s| || Segments(s[k..]));
    var t, rest := s[..k], s[k..];
    if k < |s| {
      SegmentsAreSurname(rest);
    }
    assert s[0] == t[0];
    forall i | 0 <= i < |s| ensures IsUpper(s[i]) || IsLower(s[i]) || IsSeparator(s[i]) {
      if i < k {
        assert s[i] == t[i];
      } else {
        assert s[i] == rest[i - k];
      }
    }
    forall i | 0 <= i < |s| - 1 && IsSeparator(s[i]) ensures IsUpper(s[i + 1]) {
      if i == k - 1 {
        assert s[i + 1] == rest[0];
      } else if i >= k {
        assert s[i] == rest[i - k] && s[i + 1] == rest[i - k + 1];
      }
    }
  }

  lemma {:induction false} SurnameIsSegments(s: string)
    requires IsSurname(s)
    ensures Segments(s)
    decreases |s|
  {
    var l := LowerRunEnd(s, 1);
    var k := if l < |s| && IsSeparator(s[l]) then l + 1 else l;
    var t, rest := s[..k], s[k..];
    assert Segment(t) by {
      assert t[0] == s[0];
      forall i | 1 <= i < |t| - 1 ensures IsLower(t[i]) {
        assert t[i] == s[i];
      }
      if |t| >= 2 {
        assert t[|t| - 1] == s[k - 1];
      }
    }
    if k < |s| {
      assert IsUpper(rest[0]) by {
        assert rest[0] == s[k];
        if k == l + 1 {
          assert IsSeparator(s[l]) && l < |s| - 1;
        } else {
          assert !IsLower(s[l]) && !IsSeparator(s[l]);
        }
      }
      forall i | 0 <= i < |rest| ensures IsUpper(rest[i]) || IsLower(rest[i]) || IsSeparator(rest[i]) {
        assert rest[i] == s[k + i];
      }
      forall i | 0 <= i < |rest| - 1 && IsSeparator(rest[i]) ensures IsUpper(rest[i + 1]) {
        assert rest[i] == s[k + i] && rest[i + 1] == s[k + i + 1];
      }
      SurnameIsSegments(rest);
    }
    assert 1 <= k <= |s| && Segment(s[..k]) && (k == |s| || Segments(s[k..]));
  }

  /** The character-level predicate accepts exactly the strings made of one or
      more repetitions of `[A-Z][a-z]*['-]?`. */
  lemma SurnameMeansSegments(s: string)
    ensures IsSurname(s) <==> Segments(s)
  {
    if IsSurname(s) {
      SurnameIsSegments(s);
    }
    if Segments(s) {
      SegmentsAreSurname(s);
    }
  }
}
