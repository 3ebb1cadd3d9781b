/** Session codes: the 5-character codes a lecturer issues per course, their
    active flag, and the "at most one active code per course" invariant. */
module Codes {
  import opened Types
  import opened Text

  /** The 32 symbols a code is drawn from: no `0`/`O` and no `1`/`I`. */
  const Alphabet: string := "ABCDEFGHJKLMNPQRSTUVWXYZ23456789"

  const CodeLength: nat := 5

  /** What `Math.floor(Math.random() * 32)` can yield, once per character. */
  predicate ValidPicks(picks: seq<nat>) {
    |picks| == CodeLength && forall i :: 0 <= i < |picks| ==> picks[i] < |Alphabet|
  }

  /** A symbol a code may contain: an upper-case letter other than `O` and
      `I`, or a digit other than `0` and `1`. */
  predicate CodeSymbol(c: char) {
    ('A' <= c <= 'Z' && c != 'O' && c != 'I') || ('2' <= c <= '9')
  }

  lemma AlphabetHasNoAmbiguousSymbols()
    ensures |Alphabet| == 32
    ensures forall i :: 0 <= i < |Alphabet| ==> CodeSymbol(Alphabet[i])
  {
  }

  /** The code spelled by the random picks: character `i` is `Alphabet[picks[i]]`. */
  function CodeFromPicks(picks: seq<nat>): (code: string)
    requires ValidPicks(picks)
    ensures |code| == CodeLength
    ensures forall i :: 0 <= i < |code| ==> code[i] in Alphabet && CodeSymbol(code[i])
    ensures UpperAscii(code) == code
  {
    var code := seq(CodeLength, i requires 0 <= i < CodeLength => Alphabet[picks[i]]);
    AlphabetHasNoAmbiguousSymbols();
    UpperAsciiFixes(code);
    code
  }

  predicate ActiveFor(c: SessionCode, courseId: string) {
    c.courseId == courseId && c.active
  }

  function IsActiveFor(courseId: string): SessionCode -> bool {
    c => ActiveFor(c, courseId)
  }

  /** `codes.find(c => c.courseId === courseId && c.active)`: the first
      active code of the course, if there is one. */
  function ActiveCode(codes: seq<SessionCode>, courseId: string): (r: Option<SessionCode>)
    ensures r.None? <==> forall i :: 0 <= i < |codes| ==> !ActiveFor(codes[i], courseId)
    ensures r.Some? ==> r.value in codes && ActiveFor(r.value, courseId)
  {
    Find(codes, IsActiveFor(courseId))
  }

  /** At no point do two codes of the same course both have `active` set. */
  predicate AtMostOneActive(codes: seq<SessionCode>) {
    forall i, j :: 0 <= i < j < |codes| && codes[i].active && codes[j].active ==>
      codes[i].courseId != codes[j].courseId
  }

  /** Under the invariant, the code `ActiveCode` finds is the only active one. */
  lemma ActiveCodeIsUnique(codes: seq<SessionCode>, courseId: string, k: nat)
    requires AtMostOneActive(codes)
    requires k < |codes| && ActiveFor(codes[k], courseId)
    ensures ActiveCode(codes, courseId) == Some(codes[k])
  {
    FindOnly(codes, IsActiveFor(courseId), k);
  }

  function SwitchOff(c: SessionCode, courseId: string): SessionCode {
    if ActiveFor(c, courseId) then c.(active := false) else c
  }

  /** The code list after every active code of `courseId` is switched off. */
  function Deactivated(codes: seq<SessionCode>, courseId: string): (r: seq<SessionCode>)
    ensures |r| == |codes|
    ensures forall i :: 0 <= i < |r| ==> !ActiveFor(r[i], courseId)
    ensures forall i :: 0 <= i < |r| ==> r[i] == codes[i].(active := r[i].active)
    ensures forall i :: 0 <= i < |r| && codes[i].courseId != courseId ==> r[i] == codes[i]
  {
    seq(|codes|, i requires 0 <= i < |codes| => SwitchOff(codes[i], courseId))
  }

  /** Deactivating twice is deactivating once. */
  lemma DeactivateIdempotent(codes: seq<SessionCode>, courseId: string)
    ensures Deactivated(Deactivated(codes, courseId), courseId) == Deactivated(codes, courseId)
    ensures ActiveCode(Deactivated(codes, courseId), courseId).None?
  {
  }

  /** Deactivation keeps the invariant. */
  lemma DeactivatePreservesInvariant(codes: seq<SessionCode>, courseId: string)
    requires AtMostOneActive(codes)
    ensures AtMostOneActive(Deactivated(codes, courseId))
  {
  }

  /** `ActiveCode` of a list with one more code at its end. */
  lemma ActiveCodeAppend(codes: seq<SessionCode>, c: SessionCode, courseId: string)
    ensures ActiveCode(codes + [c], courseId) ==
      if ActiveCode(codes, courseId).Some? then ActiveCode(codes, courseId)
      else if ActiveFor(c, courseId) then Some(c)
      else None
  {
    FindAppend(codes, c, IsActiveFor(courseId));
  }

  /** Deactivating one course leaves what `ActiveCode` finds for every other course. */
  lemma {:induction false} DeactivateOtherCourse(codes: seq<SessionCode>, courseId: string, other: string)
    requires other != courseId
    ensures ActiveCode(Deactivated(codes, courseId), other) == ActiveCode(codes, other)
  {
    if codes != [] {
      assert Deactivated(codes, courseId)[1..] == Deactivated(codes[1..], courseId);
      DeactivateOtherCourse(codes[1..], courseId, other);
    }
  }

  /** The code list after `courseId` has been issued `issued`: every earlier code
      of the course is switched off and `issued` is appended. */
  function Issued(codes: seq<SessionCode>, courseId: string, issued: SessionCode): (r: seq<SessionCode>)
    ensures |r| == |codes| + 1 && r[|codes|] == issued
    ensures forall i :: 0 <= i < |codes| ==> r[i] == codes[i].(active := r[i].active) && !ActiveFor(r[i], courseId)
    ensures forall i :: 0 <= i < |codes| && codes[i].courseId != courseId ==> r[i] == codes[i]
  {
    Deactivated(codes, courseId) + [issued]
  }

  /** After issuing, the new code is the course's active code and the only
      active one among its codes; the invariant holds of the new list. */
  lemma IssueMakesSoleActive(codes: seq<SessionCode>, courseId: string, issued: SessionCode)
    requires ActiveFor(issued, courseId)
    requires AtMostOneActive(codes)
    ensures ActiveCode(Issued(codes, courseId, issued), courseId) == Some(issued)
    ensures forall i :: 0 <= i < |codes| ==> !ActiveFor(Issued(codes, courseId, issued)[i], courseId)
    ensures AtMostOneActive(Issued(codes, courseId, issued))
  {
    ActiveCodeAppend(Deactivated(codes, courseId), issued, courseId);
  }

  /** Issuing a code for one course does not change which code is active for another. */
  lemma IssueLeavesOtherCourses(codes: seq<SessionCode>, courseId: string, issued: SessionCode, other: string)
    requires issued.courseId == courseId && other != courseId
    ensures ActiveCode(Issued(codes, courseId, issued), other) == ActiveCode(codes, other)
  {
    ActiveCodeAppend(Deactivated(codes, courseId), issued, other);
    DeactivateOtherCourse(codes, courseId, other);
  }
}
