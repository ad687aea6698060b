/**
 The submit pipeline of the attendee-info page. The database appears as the two things the
 pipeline touches: the seat ledger, keyed by `booths/{booth}/slots/{time}`, holding the seats
 a slot has LEFT (a slot with nothing stored counts as full capacity), and the list of
 reservation records. A submission passes the form check, then the student-id duplicate query,
 then one atomic transaction on the ledger, and only after a committed transaction pushes its
 record. Each failure of the database is an explicit flag.
 */
module Ledger {
  import opened Wrappers
  import opened JsText
  import opened FormCheck
  import opened ReservationId
  import opened Config

  /** `(boothId, timeSlot)`: the ledger path `booths/{boothId}/slots/{timeSlot}`. */
  type SlotKey = (string, string)

  /** A reservation record as pushed under `reservations/`; the server timestamp is left out. */
  datatype Record = Record(boothId: string, timeSlot: string, reservationId: int,
                           studentId: string, name: string, phone: string,
                           partySize: int, email: string)

  // ---------------------------------------------------------------------------------------
  // The transaction body and a serial run of transactions on one slot
  // ---------------------------------------------------------------------------------------

  /** Seats left in a slot: the stored value, or the full capacity when nothing is stored. */
  function Remaining(stored: Option<int>, maxCapacity: int): int
  {
    match stored
    case Some(v) => v
    case None => maxCapacity
  }

  /** The update function handed to the ledger transaction: the value to commit, or `None`
      for `undefined`, which aborts the transaction and leaves the stored value as it was. */
  function Transaction(stored: Option<int>, partySize: int, maxCapacity: int): (proposal: Option<int>)
    ensures proposal.Some? <==> partySize <= Remaining(stored, maxCapacity)
    ensures proposal.Some? ==> 0 <= proposal.value == Remaining(stored, maxCapacity) - partySize
  {
    var remaining := Remaining(stored, maxCapacity);
    var newRemaining := remaining - partySize;
    if newRemaining >= 0 then Some(newRemaining) else None
  }

  /** The stored value after one transaction: the proposal when it commits, else unchanged. */
  function Apply(stored: Option<int>, partySize: int, maxCapacity: int): Option<int>
  {
    var proposal := Transaction(stored, partySize, maxCapacity);
    if proposal.Some? then proposal else stored
  }

  /** The stored value after a run of transactions on one slot, serialised one after another
      as the database's atomic update orders them. */
  function Replay(stored: Option<int>, sizes: seq<int>, maxCapacity: int): Option<int>
    decreases |sizes|
  {
    if sizes == [] then stored
    else Replay(Apply(stored, sizes[0], maxCapacity), sizes[1..], maxCapacity)
  }

  /** The party sizes whose transactions committed in that run, in order. */
  function CommittedSizes(stored: Option<int>, sizes: seq<int>, maxCapacity: int): seq<int>
    decreases |sizes|
  {
    if sizes == [] then []
    else
      var took := if Transaction(stored, sizes[0], maxCapacity).Some? then [sizes[0]] else [];
      took + CommittedSizes(Apply(stored, sizes[0], maxCapacity), sizes[1..], maxCapacity)
  }

  function Sum(xs: seq<int>): int
  {
    if xs == [] then 0 else xs[0] + Sum(xs[1..])
  }

  /** Over any run of transactions, the seats left drop by exactly the committed party sizes
      and never fall below zero. */
  lemma {:induction false} ReplayAccounts(stored: Option<int>, sizes: seq<int>, maxCapacity: int)
    requires Remaining(stored, maxCapacity) >= 0
    decreases |sizes|
    ensures Remaining(Replay(stored, sizes, maxCapacity), maxCapacity)
            == Remaining(stored, maxCapacity) - Sum(CommittedSizes(stored, sizes, maxCapacity))
    ensures Remaining(Replay(stored, sizes, maxCapacity), maxCapacity) >= 0
  {
    if sizes != [] {
      var next := Apply(stored, sizes[0], maxCapacity);
      ReplayAccounts(next, sizes[1..], maxCapacity);
      var took := if Transaction(stored, sizes[0], maxCapacity).Some? then [sizes[0]] else [];
      SumConcat(took, CommittedSizes(next, sizes[1..], maxCapacity));
    }
  }

  lemma {:induction false} SumConcat(a: seq<int>, b: seq<int>)
    ensures Sum(a + b) == Sum(a) + Sum(b)
  {
    if a != [] {
      assert (a + b)[1..] == a[1..] + b;
      SumConcat(a[1..], b);
    } else {
      assert a + b == b;
    }
  }

  /** Starting from a slot with nothing stored: capacity minus seats left is the sum of the
      committed party sizes, which therefore never exceeds the capacity. */
  lemma FromUntouchedSlot(sizes: seq<int>, maxCapacity: int)
    requires maxCapacity >= 0
    ensures var left := Remaining(Replay(None, sizes, maxCapacity), maxCapacity);
            && 0 <= left
            && maxCapacity - left == Sum(CommittedSizes(None, sizes, maxCapacity))
            && Sum(CommittedSizes(None, sizes, maxCapacity)) <= maxCapacity
  {
    ReplayAccounts(None, sizes, maxCapacity);
  }

  /** Every committed party size is one of the requested ones. */
  lemma {:induction false} CommittedAmongRequested(stored: Option<int>, sizes: seq<int>, maxCapacity: int)
    decreases |sizes|
    ensures forall x :: x in CommittedSizes(stored, sizes, maxCapacity) ==> x in sizes
  {
    if sizes != [] {
      CommittedAmongRequested(Apply(stored, sizes[0], maxCapacity), sizes[1..], maxCapacity);
    }
  }

  /** Sizes of at least one seat each add up to at least their number. */
  lemma {:induction false} SumAtLeastCount(xs: seq<int>)
    requires forall x :: x in xs ==> x >= 1
    ensures Sum(xs) >= |xs|
  {
    if xs != [] {
      assert xs[0] in xs && forall x :: x in xs[1..] ==> x in xs;
      SumAtLeastCount(xs[1..]);
    }
  }

  /** When every request is for at least one seat, a slot that started untouched never shows
      more seats than the capacity, and no more reservations commit than there were seats. */
  lemma FromUntouchedSlotWithinCapacity(sizes: seq<int>, maxCapacity: int)
    requires maxCapacity >= 0
    requires forall x :: x in sizes ==> x >= 1
    ensures var left := Remaining(Replay(None, sizes, maxCapacity), maxCapacity);
            && 0 <= left <= maxCapacity
            && |CommittedSizes(None, sizes, maxCapacity)| <= maxCapacity - left
  {
    ReplayAccounts(None, sizes, maxCapacity);
    CommittedAmongRequested(None, sizes, maxCapacity);
    SumAtLeastCount(CommittedSizes(None, sizes, maxCapacity));
  }

  /** Two serialised requests for six and five seats against a fresh ten-seat slot: whichever
      goes first commits and the other is refused. */
  lemma TwoRequestsOneCommits()
    ensures CommittedSizes(None, [6, 5], 10) == [6] && Replay(None, [6, 5], 10) == Some(4)
    ensures CommittedSizes(None, [5, 6], 10) == [5] && Replay(None, [5, 6], 10) == Some(5)
  {
  }

  // ---------------------------------------------------------------------------------------
  // The duplicate guard
  // ---------------------------------------------------------------------------------------

  /** `reservations.orderByChild('studentId').equalTo(studentId)`: the records for that id, in
      their stored order. */
  function QueryByStudentId(records: seq<Record>, studentId: string): (found: seq<Record>)
    ensures forall r :: r in found <==> r in records && r.studentId == studentId
  {
    if records == [] then []
    else
      var last := records[|records| - 1];
      QueryByStudentId(records[..|records| - 1], studentId)
        + (if last.studentId == studentId then [last] else [])
  }

  /** `snapshot.exists()` on that query. */
  predicate HasReservation(records: seq<Record>, studentId: string)
  {
    QueryByStudentId(records, studentId) != []
  }

  lemma HasReservationMeaning(records: seq<Record>, studentId: string)
    ensures HasReservation(records, studentId) <==>
              exists i :: 0 <= i < |records| && records[i].studentId == studentId
  {
    var found := QueryByStudentId(records, studentId);
    if found != [] {
      assert found[0] in records;
    }
    if exists i :: 0 <= i < |records| && records[i].studentId == studentId {
      var i :| 0 <= i < |records| && records[i].studentId == studentId;
      assert records[i] in found;
    }
  }

  // ---------------------------------------------------------------------------------------
  // The submit handler
  // ---------------------------------------------------------------------------------------

  datatype Outcome =
    | Invalid                      // the form check failed; nothing was asked of the database
    | QueryFailed                  // the duplicate query errored
    | Duplicate                    // a reservation with this student id already exists
    | LedgerFailed                 // the ledger transaction reported an error
    | Rejected(seats: int)         // the transaction aborted; `seats` is what the slot has left
    | RecordWriteFailed            // seats taken, but the record could not be written
    | Committed(reservationId: int)

  /** Seats taken from `key` by a log of committed decrements. */
  function SeatsTaken(log: seq<(SlotKey, int)>, key: SlotKey): int
  {
    if log == [] then 0
    else SeatsTaken(log[..|log| - 1], key) + (if log[|log| - 1].0 == key then log[|log| - 1].1 else 0)
  }

  /** A log of decrements of at least one seat each never takes a negative number of seats. */
  lemma {:induction false} SeatsTakenNonNegative(log: seq<(SlotKey, int)>, key: SlotKey)
    requires forall c :: c in log ==> c.1 >= 1
    ensures SeatsTaken(log, key) >= 0
  {
    if log != [] {
      assert log[|log| - 1] in log;
      SeatsTakenNonNegative(log[..|log| - 1], key);
    }
  }

  /** The ledger half of the desk's invariant: seats left are never negative and are the
      seeded value (capacity when unseeded) less the committed party sizes, and a slot no
      transaction committed on keeps its seeded state. */
  ghost predicate LedgerAccounts(slots: map<SlotKey, int>, commits: seq<(SlotKey, int)>,
                                 seeded: map<SlotKey, int>, maxCapacity: int)
  {
    && seeded.Keys <= slots.Keys
    && (forall c :: c in commits ==> c.1 >= 1)
    && (forall k :: k in slots ==> 0 <= slots[k])
    && (forall k :: k in slots ==>
          slots[k] == (if k in seeded then seeded[k] else maxCapacity) - SeatsTaken(commits, k))
    && (forall k :: k !in slots ==> SeatsTaken(commits, k) == 0)
  }

  /** Under the ledger invariant no slot shows more seats than it was seeded with (the capacity
      when unseeded), nor fewer than none. */
  lemma LedgerWithinSeed(slots: map<SlotKey, int>, commits: seq<(SlotKey, int)>,
                         seeded: map<SlotKey, int>, maxCapacity: int, key: SlotKey)
    requires LedgerAccounts(slots, commits, seeded, maxCapacity)
    requires key in slots
    ensures 0 <= slots[key] <= (if key in seeded then seeded[key] else maxCapacity)
  {
    SeatsTakenNonNegative(commits, key);
  }

  /** The decrement a record stands for: its slot and its party size. */
  function Claim(r: Record): (SlotKey, int)
  {
    ((r.boothId, r.timeSlot), r.partySize)
  }

  function Claims(records: seq<Record>): (cs: seq<(SlotKey, int)>)
    ensures |cs| == |records|
    ensures forall i :: 0 <= i < |records| ==> cs[i] == Claim(records[i])
  {
    seq(|records|, i requires 0 <= i < |records| => Claim(records[i]))
  }

  /** The record half: each record is matched by a committed decrement of its slot by its party
      size of its own (no two records share one), and no two records share a student id. */
  ghost predicate RecordsAccounted(records: seq<Record>, commits: seq<(SlotKey, int)>)
  {
    && multiset(Claims(records)) <= multiset(commits)
    && (forall i, j :: 0 <= i < j < |records| ==> records[i].studentId != records[j].studentId)
  }

  /** Hence every record's decrement is in the log, and there are no more records than
      committed decrements. */
  lemma RecordsHaveCommits(records: seq<Record>, commits: seq<(SlotKey, int)>)
    requires RecordsAccounted(records, commits)
    ensures forall r :: r in records ==> Claim(r) in commits
    ensures |records| <= |commits|
  {
    forall r | r in records ensures Claim(r) in commits {
      var i :| 0 <= i < |records| && records[i] == r;
      assert Claims(records)[i] == Claim(r);
      assert Claim(r) in multiset(Claims(records));
    }
    assert |multiset(Claims(records))| <= |multiset(commits)| by {
      MultisetSubsetSize(multiset(Claims(records)), multiset(commits));
    }
  }

  lemma MultisetSubsetSize<T>(a: multiset<T>, b: multiset<T>)
    requires a <= b
    ensures |a| <= |b|
  {
    assert b == a + (b - a);
  }

  /** A committed decrement keeps the ledger's accounts. */
  lemma CommitKeepsAccounts(slots: map<SlotKey, int>, commits: seq<(SlotKey, int)>,
                            seeded: map<SlotKey, int>, maxCapacity: int,
                            key: SlotKey, partySize: int, left: int)
    requires LedgerAccounts(slots, commits, seeded, maxCapacity)
    requires partySize >= 1
    requires left == Remaining(if key in slots then Some(slots[key]) else None, maxCapacity)
    requires partySize <= left
    ensures LedgerAccounts(slots[key := left - partySize], commits + [(key, partySize)], seeded, maxCapacity)
  {
    var commits' := commits + [(key, partySize)];
    assert commits'[..|commits'| - 1] == commits;
    assert forall k :: k != key ==> SeatsTaken(commits', k) == SeatsTaken(commits, k);
  }

  /** A further committed decrement keeps every existing record accounted for, and a record
      for it with a student id no record holds yet keeps the records accounted for. */
  lemma PushKeepsRecords(records: seq<Record>, commits: seq<(SlotKey, int)>, c: (SlotKey, int),
                         record: Record)
    requires RecordsAccounted(records, commits)
    requires c == Claim(record)
    requires !HasReservation(records, record.studentId)
    ensures RecordsAccounted(records, commits + [c])
    ensures RecordsAccounted(records + [record], commits + [c])
  {
    HasReservationMeaning(records, record.studentId);
    assert Claims(records + [record]) == Claims(records) + [c];
    assert multiset(commits + [c]) == multiset(commits) + multiset{c};
  }

  /** The record the handler pushes for a form that passed the check. */
  function RecordFor(booth: string, time: string, form: Form, reservationId: int): Record
    requires PartySize(form).Some?
  {
    Record(booth, time, reservationId, Trim(form.studentId), Trim(form.name), Trim(form.phone),
           PartySize(form).value,
           if form.email.Some? then Trim(form.email.value) else "NO_EMAIL")
  }

  /** The outcome of the checks made before the ledger is touched, in the handler's order: the
      form check, the duplicate query's error, the duplicate guard; `None` lets the submission
      through. */
  function GuardOutcome(form: Form, maxCapacity: int, records: seq<Record>, queryFails: bool): Option<Outcome>
  {
    if !FormValid(form, maxCapacity) then Some(Invalid)
    else if queryFails then Some(QueryFailed)
    else if HasReservation(records, Trim(form.studentId)) then Some(Duplicate)
    else None
  }

  /** The outcome once the checks have let a party of `partySize` through: the transaction
      error, the transaction's abort (reporting the seats left), the record write. */
  function BookOutcome(stored: Option<int>, partySize: int, maxCapacity: int,
                       ledgerFails: bool, recordFails: bool, reservationId: int): Outcome
  {
    if ledgerFails then LedgerFailed
    else if Transaction(stored, partySize, maxCapacity).None? then Rejected(Remaining(stored, maxCapacity))
    else if recordFails then RecordWriteFailed
    else Committed(reservationId)
  }

  /** The outcome the submit handler reaches, branch by branch: the checks before the ledger,
      then the transaction and the record write. */
  function SubmitOutcome(form: Form, maxCapacity: int, records: seq<Record>, stored: Option<int>,
                         seconds: nat, random: nat,
                         queryFails: bool, ledgerFails: bool, recordFails: bool): Outcome
    requires random < 10000
  {
    match GuardOutcome(form, maxCapacity, records, queryFails)
    case Some(stop) => stop
    case None =>
      BookOutcome(stored, PartySize(form).value, maxCapacity, ledgerFails, recordFails,
                  CreateReservationId(seconds, random))
  }

  /** A submission commits exactly when the form passes, the duplicate query answers and finds
      no record for the student id, the transaction runs and the slot has at least the party's
      seats left, and the record is written; its number is then the last six digits of the
      seconds followed by the four-digit random number. */
  lemma SubmitCommitsIff(form: Form, maxCapacity: int, records: seq<Record>, stored: Option<int>,
                         seconds: nat, random: nat,
                         queryFails: bool, ledgerFails: bool, recordFails: bool)
    requires random < 10000
    ensures var o := SubmitOutcome(form, maxCapacity, records, stored, seconds, random,
                                   queryFails, ledgerFails, recordFails);
            o.Committed? <==>
              && FormValid(form, maxCapacity) && !queryFails
              && !HasReservation(records, Trim(form.studentId)) && !ledgerFails
              && PartySize(form).value <= Remaining(stored, maxCapacity) && !recordFails
    ensures var o := SubmitOutcome(form, maxCapacity, records, stored, seconds, random,
                                   queryFails, ledgerFails, recordFails);
            o.Committed? ==> o.reservationId == (seconds % 1000000) * 10000 + random
  {
    CreateReservationIdValue(seconds, random);
  }

  /** Every other outcome, exactly when it occurs: the form check, the query error and the
      duplicate guard stop a submission before the ledger; past them, a transaction error, a
      party larger than the seats left (which is then reported), and a failed record write
      after the seats were taken. */
  lemma SubmitRejectsIff(form: Form, maxCapacity: int, records: seq<Record>, stored: Option<int>,
                         seconds: nat, random: nat,
                         queryFails: bool, ledgerFails: bool, recordFails: bool)
    requires random < 10000
    ensures var o := SubmitOutcome(form, maxCapacity, records, stored, seconds, random,
                                   queryFails, ledgerFails, recordFails);
            var passed := FormValid(form, maxCapacity) && !queryFails
                          && !HasReservation(records, Trim(form.studentId));
            && (o.Invalid? <==> !FormValid(form, maxCapacity))
            && (o.QueryFailed? <==> FormValid(form, maxCapacity) && queryFails)
            && (o.Duplicate? <==> FormValid(form, maxCapacity) && !queryFails
                                  && HasReservation(records, Trim(form.studentId)))
            && (o.LedgerFailed? <==> passed && ledgerFails)
            && (o.Rejected? <==>
                  passed && !ledgerFails && PartySize(form).value > Remaining(stored, maxCapacity))
            && (o.Rejected? ==> o.seats == Remaining(stored, maxCapacity))
            && (o.RecordWriteFailed? <==>
                  passed && !ledgerFails && PartySize(form).value <= Remaining(stored, maxCapacity)
                  && recordFails)
  {
  }

  /** The outcomes after which the slot's seats have been taken. */
  predicate SeatsTakenBy(o: Outcome)
  {
    o.Committed? || o.RecordWriteFailed?
  }

  /** The ledger and the records after a submission that passed the checks and ended in `o`: the
      slot `key`, which had `left` seats, loses `partySize` of them exactly when the transaction
      committed, and `record` is appended exactly when the whole submission succeeded. */
  predicate BookedState(o: Outcome, key: SlotKey, partySize: int, left: int, record: Record,
                        slots0: map<SlotKey, int>, commits0: seq<(SlotKey, int)>, records0: seq<Record>,
                        slots1: map<SlotKey, int>, commits1: seq<(SlotKey, int)>, records1: seq<Record>)
  {
    && (SeatsTakenBy(o) ==> slots1 == slots0[key := left - partySize] && commits1 == commits0 + [(key, partySize)])
    && (!SeatsTakenBy(o) ==> slots1 == slots0 && commits1 == commits0)
    && (o.Committed? ==> records1 == records0 + [record])
    && (!o.Committed? ==> records1 == records0)
  }

  class ReservationDesk {
    const maxCapacity: int
    /** The ledger: seats left per slot that has a stored value. */
    var slots: map<SlotKey, int>
    /** The reservation records, in push order. */
    var reservations: seq<Record>
    /** `finalConfirmBtn.disabled`. */
    var confirmDisabled: bool

    /** The ledger as the administrator seeded it. */
    ghost const seeded: map<SlotKey, int>
    /** Every committed decrement, in commit order. */
    ghost var commits: seq<(SlotKey, int)>

    function Stored(key: SlotKey): Option<int>
      reads this`slots
    {
      if key in slots then Some(slots[key]) else None
    }

    /** The ledger keeps its accounts against the commit log. */
    ghost predicate LedgerValid()
      reads this`slots, this`commits
    {
      LedgerAccounts(slots, commits, seeded, maxCapacity)
    }

    /** The records are accounted for by the commit log. */
    ghost predicate RecordsValid()
      reads this`reservations, this`commits
    {
      RecordsAccounted(reservations, commits)
    }

    ghost predicate Valid()
      reads this`slots, this`commits, this`reservations
    {
      LedgerValid() && RecordsValid()
    }

    /** The page with the configured capacity (`configured` is the configuration's
        `maxCapacity`, `None` when absent or not loaded) over the ledger as seeded. */
    constructor (configured: Option<int>, seeded: map<SlotKey, int>)
      requires forall k :: k in seeded ==> 0 <= seeded[k]
      ensures Valid()
      ensures maxCapacity == MaxCapacity(configured) && slots == seeded && reservations == []
      ensures !confirmDisabled
    {
      maxCapacity := MaxCapacity(configured);
      confirmDisabled := false;
      this.seeded := seeded;
      slots := seeded;
      reservations := [];
      commits := [];
    }

    /** The click handler of the final confirm button: the outcome is the one the handler's
        branches pick; a submission stopped by the checks changes nothing; one that passes them
        changes the ledger only on a committed transaction, at that one slot, and adds its record
        only when the whole submission succeeds. The confirm button ends disabled after a form
        that fails the check and after a success, and enabled after every other outcome. */
    method Submit(booth: string, time: string, form: Form, seconds: nat, random: nat,
                  queryFails: bool, ledgerFails: bool, recordFails: bool) returns (o: Outcome)
      requires Valid() && random < 10000
      modifies this
      ensures Valid()
      ensures confirmDisabled == (o.Invalid? || o.Committed?)
      ensures o == SubmitOutcome(form, maxCapacity, old(reservations), old(Stored((booth, time))),
                                 seconds, random, queryFails, ledgerFails, recordFails)
      ensures GuardOutcome(form, maxCapacity, old(reservations), queryFails).Some? ==>
                slots == old(slots) && commits == old(commits) && reservations == old(reservations)
      ensures GuardOutcome(form, maxCapacity, old(reservations), queryFails).None? ==>
                BookedState(o, (booth, time), PartySize(form).value,
                            Remaining(old(Stored((booth, time))), maxCapacity),
                            RecordFor(booth, time, form, CreateReservationId(seconds, random)),
                            old(slots), old(commits), old(reservations), slots, commits, reservations)
    {
      var valid := CheckFormValidity(form);
      if !valid {
        return Invalid;
      }
      o := Proceed(booth, time, form, seconds, random, queryFails, ledgerFails, recordFails);
    }

    /** The handler past the form check: the confirm button locked, then the duplicate query,
        the transaction and the record write, with the same outcome and state as `Submit`
        for a form that passes. */
    method Proceed(booth: string, time: string, form: Form, seconds: nat, random: nat,
                   queryFails: bool, ledgerFails: bool, recordFails: bool) returns (o: Outcome)
      requires Valid() && random < 10000 && FormValid(form, maxCapacity)
      modifies this
      ensures Valid()
      ensures confirmDisabled == o.Committed?
      ensures o == SubmitOutcome(form, maxCapacity, old(reservations), old(Stored((booth, time))),
                                 seconds, random, queryFails, ledgerFails, recordFails)
      ensures GuardOutcome(form, maxCapacity, old(reservations), queryFails).Some? ==>
                slots == old(slots) && commits == old(commits) && reservations == old(reservations)
      ensures GuardOutcome(form, maxCapacity, old(reservations), queryFails).None? ==>
                BookedState(o, (booth, time), PartySize(form).value,
                            Remaining(old(Stored((booth, time))), maxCapacity),
                            RecordFor(booth, time, form, CreateReservationId(seconds, random)),
                            old(slots), old(commits), old(reservations), slots, commits, reservations)
    {
      // Locked while the database is asked; every stop but success unlocks it again.
      confirmDisabled := true;
      var stop := Screen(form, queryFails);
      if stop.Some? {
        confirmDisabled := false;
        return stop.value;
      }
      var reservationId := CreateReservationId(seconds, random);
      var record := RecordFor(booth, time, form, reservationId);
      o := Book((booth, time), PartySize(form).value, record, ledgerFails, recordFails);
    }

    /** `checkFormValidity`: the form's verdict, and the confirm button disabled exactly when the
        form fails it. */
    method CheckFormValidity(form: Form) returns (valid: bool)
      modifies this`confirmDisabled
      ensures valid == FormValid(form, maxCapacity)
      ensures confirmDisabled == !valid
    {
      valid := FormValid(form, maxCapacity);
      confirmDisabled := !valid;
    }

    /** The transaction on the record's slot and then the record write, for a record whose
        student id holds no reservation yet, while the confirm button is locked: the outcome is
        `BookOutcome`; the slot loses the party's seats exactly when the transaction committed
        (the failed record write included), and the record is appended exactly on success; the
        button stays locked only after a success. */
    method Book(key: SlotKey, partySize: int, record: Record, ledgerFails: bool, recordFails: bool)
        returns (o: Outcome)
      requires Valid() && partySize >= 1
      requires record.partySize == partySize && key == (record.boothId, record.timeSlot)
      requires !HasReservation(reservations, record.studentId)
      requires confirmDisabled
      modifies this
      ensures Valid()
      ensures o == BookOutcome(old(Stored(key)), partySize, maxCapacity, ledgerFails, recordFails,
                               record.reservationId)
      ensures BookedState(o, key, partySize, Remaining(old(Stored(key)), maxCapacity), record,
                          old(slots), old(commits), old(reservations), slots, commits, reservations)
      ensures confirmDisabled == o.Committed?
    {
      // Each completion but success unlocks the confirm button again.
      if ledgerFails {
        confirmDisabled := false;
        return LedgerFailed;
      }
      var left := Remaining(Stored(key), maxCapacity);
      var proposal := Transaction(Stored(key), partySize, maxCapacity);
      if proposal.None? {
        confirmDisabled := false;
        return Rejected(left);
      }
      o := TakeSeats(key, partySize, left, record, recordFails);
    }

    /** The transaction's committed branch: the seats are taken, then the record is written;
        the outcome is success or a failed record write, with the state `BookedState` gives. */
    method TakeSeats(key: SlotKey, partySize: int, left: int, record: Record, recordFails: bool)
        returns (o: Outcome)
      requires Valid() && partySize >= 1
      requires left == Remaining(Stored(key), maxCapacity) && partySize <= left
      requires record.partySize == partySize && key == (record.boothId, record.timeSlot)
      requires !HasReservation(reservations, record.studentId)
      requires confirmDisabled
      modifies this
      ensures Valid()
      ensures o == if recordFails then RecordWriteFailed else Committed(record.reservationId)
      ensures BookedState(o, key, partySize, left, record,
                          old(slots), old(commits), old(reservations), slots, commits, reservations)
      ensures confirmDisabled == o.Committed?
    {
      Commit(key, partySize, left, record);
      // The record, only after the seats are taken.
      o := WriteRecord(record, recordFails);
    }

    /** The record write once the transaction has committed: on success the record is appended
        and the confirm button stays locked; on failure nothing is written and the button is
        unlocked. The ledger is not touched either way. */
    method WriteRecord(record: Record, recordFails: bool) returns (o: Outcome)
      requires Valid() && RecordsAccounted(reservations + [record], commits)
      requires confirmDisabled
      modifies this`reservations, this`confirmDisabled
      ensures Valid()
      ensures o == if recordFails then RecordWriteFailed else Committed(record.reservationId)
      ensures reservations == if recordFails then old(reservations) else old(reservations) + [record]
      ensures confirmDisabled == !recordFails
    {
      if recordFails {
        confirmDisabled := false;
        return RecordWriteFailed;
      }
      reservations := reservations + [record];
      o := Committed(record.reservationId);
    }

    /** The form check and then the duplicate query, strictly before the ledger is touched:
        the outcome that stops the submission, if any. */
    method Screen(form: Form, queryFails: bool) returns (stop: Option<Outcome>)
      ensures stop == GuardOutcome(form, maxCapacity, reservations, queryFails)
      ensures stop.None? ==> FormValid(form, maxCapacity)
                             && !HasReservation(reservations, Trim(form.studentId))
    {
      if !FormValid(form, maxCapacity) {
        return Some(Invalid);
      }
      if queryFails {
        return Some(QueryFailed);
      }
      if QueryByStudentId(reservations, Trim(form.studentId)) != [] {
        return Some(Duplicate);
      }
      stop := None;
    }

    /** The committed transaction: the slot's seats left drop by the party size. */
    method Commit(key: SlotKey, partySize: int, left: int, record: Record)
      requires Valid() && partySize >= 1
      requires left == Remaining(Stored(key), maxCapacity) && partySize <= left
      requires record.partySize == partySize && key == (record.boothId, record.timeSlot)
      requires !HasReservation(reservations, record.studentId)
      modifies this
      ensures Valid() && RecordsAccounted(reservations + [record], commits)
      ensures slots == old(slots)[key := left - partySize]
      ensures commits == old(commits) + [(key, partySize)]
      ensures reservations == old(reservations) && confirmDisabled == old(confirmDisabled)
    {
      var slots' := slots[key := left - partySize];
      ghost var commits' := commits + [(key, partySize)];
      CommitKeepsAccounts(slots, commits, seeded, maxCapacity, key, partySize, left);
      PushKeepsRecords(reservations, commits, (key, partySize), record);
      slots, commits := slots', commits';
    }
  }
}
