/**
 `checkFormValidity` of the attendee-info page: the student id, name and phone must be
 non-blank once trimmed, the trimmed e-mail (when the page has an e-mail field) must match
 `^[^\s@]+@[^\s@]+\.[^\s@]+$`, and the party size read by `parseInt` must lie between one and
 the slot capacity.
 */
module FormCheck {
  import opened Wrappers
  import opened JsText

  /** The raw contents of the form's input fields. `email` is `None` when the page has no
      e-mail field (`emailInput` is null). */
  datatype Form = Form(studentId: string, name: string, phone: string,
                       email: Option<string>, partySize: string)

  // ---------------------------------------------------------------------------------------
  // The e-mail pattern ^[^\s@]+@[^\s@]+\.[^\s@]+$
  // ---------------------------------------------------------------------------------------

  /** A character of the class `[^\s@]`. */
  predicate NameChar(c: char) {
    !IsSpace(c) && c != '@'
  }

  ghost predicate NameChars(s: string) {
    forall k :: 0 <= k < |s| ==> NameChar(s[k])
  }

  /** The meaning of the pattern, stated on positions: an '@' at `i` and a '.' at `j` with at
      least one character before the '@', at least one between it and the '.', at least one
      after the '.', and every character other than that '@' in `[^\s@]`. From `lo` on: the
      pattern itself is `AtThenDot(s, 1)`. */
  ghost predicate AtThenDot(s: string, lo: nat) {
    exists i, j :: lo <= i && i + 1 < j && j + 1 < |s| && s[i] == '@' && s[j] == '.'
                   && forall k :: 0 <= k < |s| && k != i ==> NameChar(s[k])
  }

  ghost predicate MatchesEmailPattern(s: string) {
    AtThenDot(s, 1)
  }

  /** A '.' at position `lo` or later with at least one character after it. */
  ghost predicate DotBeforeEnd(s: string, lo: nat) {
    exists j :: lo <= j && j + 1 < |s| && s[j] == '.'
  }

  /** The states of a left-to-right matcher for the pattern: in the local part, just past the
      '@', in the domain before the separating '.', just past that '.', and past at least one
      character after it (the accepting state). */
  datatype Scan = Start | Local | AfterAt | Domain | AfterDot | Tail | Reject

  function Step(st: Scan, c: char): Scan
  {
    if !NameChar(c) then
      if st == Local && c == '@' then AfterAt else Reject
    else
      match st
      case Start => Local
      case Local => Local
      case AfterAt => Domain
      case Domain => if c == '.' then AfterDot else Domain
      case AfterDot => Tail
      case Tail => Tail
      case Reject => Reject
  }

  function Run(st: Scan, s: string): Scan
    decreases |s|
  {
    if s == [] then st else Run(Step(st, s[0]), s[1..])
  }

  /** `emailRegex.test(email)`. */
  predicate EmailMatches(s: string)
  {
    Run(Start, s) == Tail
  }

  lemma {:induction false} RunReject(s: string)
    ensures Run(Reject, s) == Reject
  {
    if s != [] {
      RunReject(s[1..]);
    }
  }

  lemma {:induction false} RunTail(s: string)
    ensures Run(Tail, s) == Tail <==> NameChars(s)
  {
    if s != [] {
      if NameChar(s[0]) {
        RunTail(s[1..]);
        assert NameChars(s) <==> NameChars(s[1..]) by {
          if NameChars(s[1..]) {
            forall k | 0 <= k < |s| ensures NameChar(s[k]) {
              if k > 0 { assert s[k] == s[1..][k - 1]; }
            }
          }
        }
      } else {
        RunReject(s[1..]);
      }
    }
  }

  lemma RunAfterDot(s: string)
    ensures Run(AfterDot, s) == Tail <==> s != [] && NameChars(s)
  {
    if s != [] {
      if NameChar(s[0]) {
        RunTail(s[1..]);
        assert NameChars(s) <==> NameChars(s[1..]) by {
          if NameChars(s[1..]) {
            forall k | 0 <= k < |s| ensures NameChar(s[k]) {
              if k > 0 { assert s[k] == s[1..][k - 1]; }
            }
          }
        }
      } else {
        RunReject(s[1..]);
      }
    }
  }

  lemma {:induction false} RunDomain(s: string)
    ensures Run(Domain, s) == Tail <==> NameChars(s) && DotBeforeEnd(s, 0)
  {
    if s != [] {
      var r := s[1..];
      if !NameChar(s[0]) {
        RunReject(r);
      } else {
        assert NameChars(s) <==> NameChars(r) by {
          if NameChars(r) {
            forall k | 0 <= k < |s| ensures NameChar(s[k]) {
              if k > 0 { assert s[k] == r[k - 1]; }
            }
          }
        }
        if s[0] == '.' {
          RunAfterDot(r);
          if r != [] {
            assert DotBeforeEnd(s, 0) by { assert s[0] == '.'; }
          }
        } else {
          RunDomain(r);
          if DotBeforeEnd(s, 0) {
            var j :| 0 <= j && j + 1 < |s| && s[j] == '.';
            assert r[j - 1] == '.';
          }
          if DotBeforeEnd(r, 0) {
            var j :| 0 <= j && j + 1 < |r| && r[j] == '.';
            assert s[j + 1] == '.';
          }
        }
      }
    }
  }

  lemma RunAfterAt(s: string)
    ensures Run(AfterAt, s) == Tail <==> NameChars(s) && DotBeforeEnd(s, 1)
  {
    if s != [] {
      var r := s[1..];
      if !NameChar(s[0]) {
        RunReject(r);
      } else {
        RunDomain(r);
        assert NameChars(s) <==> NameChars(r) by {
          if NameChars(r) {
            forall k | 0 <= k < |s| ensures NameChar(s[k]) {
              if k > 0 { assert s[k] == r[k - 1]; }
            }
          }
        }
        if DotBeforeEnd(s, 1) {
          var j :| 1 <= j && j + 1 < |s| && s[j] == '.';
          assert r[j - 1] == '.';
        }
        if DotBeforeEnd(r, 0) {
          var j :| 0 <= j && j + 1 < |r| && r[j] == '.';
          assert s[j + 1] == '.';
        }
      }
    }
  }

  lemma {:induction false} RunLocal(s: string)
    ensures Run(Local, s) == Tail <==> AtThenDot(s, 0)
  {
    if s != [] {
      var r := s[1..];
      if s[0] == '@' {
        RunAfterAt(r);
        if AtThenDot(s, 0) {
          var i, j :| 0 <= i && i + 1 < j && j + 1 < |s| && s[i] == '@' && s[j] == '.'
                      && forall k :: 0 <= k < |s| && k != i ==> NameChar(s[k]);
          assert i == 0;
          assert r[j - 1] == '.';
          forall k | 0 <= k < |r| ensures NameChar(r[k]) { assert r[k] == s[k + 1]; }
        }
        if NameChars(r) && DotBeforeEnd(r, 1) {
          var j :| 1 <= j && j + 1 < |r| && r[j] == '.';
          assert s[j + 1] == '.';
          forall k | 0 <= k < |s| && k != 0 ensures NameChar(s[k]) { assert s[k] == r[k - 1]; }
        }
      } else if !NameChar(s[0]) {
        RunReject(r);
      } else {
        RunLocal(r);
        AtThenDotShift(s);
      }
    }
  }

  /** Past a leading `[^\s@]` character, the pattern's tail is the same question one position on. */
  lemma AtThenDotShift(s: string)
    requires s != [] && NameChar(s[0])
    ensures AtThenDot(s, 1) <==> AtThenDot(s[1..], 0)
    ensures AtThenDot(s, 0) <==> AtThenDot(s[1..], 0)
  {
    var r := s[1..];
    if AtThenDot(s, 0) {
      var i, j :| 0 <= i && i + 1 < j && j + 1 < |s| && s[i] == '@' && s[j] == '.'
                  && forall k :: 0 <= k < |s| && k != i ==> NameChar(s[k]);
      assert i != 0;
      assert r[i - 1] == '@' && r[j - 1] == '.';
      forall k | 0 <= k < |r| && k != i - 1 ensures NameChar(r[k]) { assert r[k] == s[k + 1]; }
    }
    if AtThenDot(r, 0) {
      var i, j :| 0 <= i && i + 1 < j && j + 1 < |r| && r[i] == '@' && r[j] == '.'
                  && forall k :: 0 <= k < |r| && k != i ==> NameChar(r[k]);
      assert s[i + 1] == '@' && s[j + 1] == '.';
      forall k | 0 <= k < |s| && k != i + 1 ensures NameChar(s[k]) {
        if k > 0 { assert s[k] == r[k - 1]; }
      }
    }
  }

  /** The matcher accepts exactly the strings the e-mail pattern describes. */
  lemma EmailMatchesPattern(s: string)
    ensures EmailMatches(s) <==> MatchesEmailPattern(s)
  {
    if s != [] {
      if NameChar(s[0]) {
        RunLocal(s[1..]);
        AtThenDotShift(s);
      } else {
        RunReject(s[1..]);
      }
    }
  }

  /** An address the pattern takes. */
  lemma EmailAccepted()
    ensures EmailMatches("u@s.kr")
  {
  }

  /** Addresses the pattern refuses: no '.' after the '@', and a space in the local part. */
  lemma EmailRefused()
    ensures !EmailMatches("u@s")
    ensures !EmailMatches("u s@c.d")
  {
  }

  // ---------------------------------------------------------------------------------------
  // The whole form
  // ---------------------------------------------------------------------------------------

  /** The party size as `parseInt(value, 10)` reads it; `None` for NaN. */
  function PartySize(f: Form): Option<int>
  {
    ParseInt(f.partySize)
  }

  /** `isValid` of `checkFormValidity`, against the slot capacity `maxCapacity`. */
  predicate FormValid(f: Form, maxCapacity: int)
  {
    && Trim(f.studentId) != []
    && Trim(f.name) != []
    && Trim(f.phone) != []
    && (f.email.None? || EmailMatches(Trim(f.email.value)))
    && PartySize(f).Some? && 1 <= PartySize(f).value <= maxCapacity
  }

  /** The form passes exactly when the three text fields each hold a non-white-space character,
      the trimmed e-mail (if there is an e-mail field) has the shape of the pattern, and the
      party size parses to a number from one to the capacity. */
  lemma FormValidMeaning(f: Form, maxCapacity: int)
    ensures FormValid(f, maxCapacity) <==>
              && !AllSpace(f.studentId) && !AllSpace(f.name) && !AllSpace(f.phone)
              && (f.email.None? || MatchesEmailPattern(Trim(f.email.value)))
              && PartySize(f).Some? && 1 <= PartySize(f).value <= maxCapacity
  {
    TrimEmptyIff(f.studentId);
    TrimEmptyIff(f.name);
    TrimEmptyIff(f.phone);
    if f.email.Some? {
      EmailMatchesPattern(Trim(f.email.value));
    }
  }

  /** No capacity below one admits any party. */
  lemma NoPartyFitsBelowOne(f: Form, maxCapacity: int)
    requires maxCapacity < 1
    ensures !FormValid(f, maxCapacity)
  {
  }
}
