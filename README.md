# Booth reservation flow — a verified model

This project models the client-side logic of a booth reservation site. A visitor picks a time slot at a
booth, accepts the terms, fills in the attendee form and submits. Accounts are handled on a separate
sign-up / log-in page. The hosted realtime database appears as the plain data the scripts touch:

- the seat ledger `booths/{booth}/slots/{time}`, which holds the seats a slot has LEFT (a slot with
  nothing stored counts as `MAX_CAPACITY`);
- the list of reservation records under `reservations/`;
- the account map `users/{reserveId}`;
- the browser's local storage.

Modules, one per script or concern:

- `Wrappers`: `Option`, standing for JavaScript `null`/`undefined`/NaN.
- `JsText`: the JavaScript built-ins the decisions rest on. These are `trim` and the class `\s`,
  `String(n)`, `padStart`, `slice(-k)`, `parseInt(s, 10)`, `substring` and ASCII `toUpperCase`.
  Two of them see a string as UTF-16 code units, and the model does too: `length` counts code units
  (`Length`), and the default order of `sort` compares code units (`LexLess`, proved equal to
  code-unit comparison).
- `Config` (`script/info.js`, `script/reserve.js`): the slot capacity `maxCapacity || 10`. Both page
  classes are built from the configured value through it.
- `ReservationId` (`script/info.js`): the reservation number.
- `FormCheck` (`script/info.js`): `checkFormValidity`. The e-mail regular expression is a small
  automaton, proved equal to a position-based description of the pattern.
- `Ledger` (`script/info.js`): the transaction body and serial runs of it, the student-id duplicate
  query, and the class `ReservationDesk`. Its `Submit` method is the confirm button's click handler:
  form check → duplicate query → atomic decrement → record push. A ghost log of committed decrements
  carries the invariant: seats left are never negative, and equal the seeded value (capacity when
  unseeded) minus the committed party sizes. Each record is matched by a committed decrement of its
  own slot by its own party size, with no decrement matched twice (multiset inclusion). No two records
  share a student id.
- `SlotView` (`script/reserve.js`): the class `SlotBoard`. It covers the live `value` listener (one
  button per key in sorted order, open/full status, label, count of open slots, retention of the
  earlier selection), the slot click and the proceed button.
- `Accounts` (`script/login.js`): the class `AccountStore`, with sign-up, log-in and the sign-up → log-in
  round trip.
- `Terms` (`script/terms.js`): the class `TermsPage` over an array of checkbox states, plus the page's
  set-up.

Database failures (query error, transaction error, write error, lookup error) are boolean parameters
of the methods. The clock and the random draws are parameters too.

Where the scripts' own comments and their code disagree, the model follows the code:

- `script/info.js:7-8` and `:20` promise a 10-digit reservation number. The number is `parseInt` of the
  glued digit text, so leading zeros vanish and it lies in `[0, 9999999999]`, not only in
  `[1000000000, 9999999999]` (`ReservationId.ReservationIdCanBeShort`). The random part ranges over
  `0..9999` inclusive.
- `script/login.js:36` and `:78` call both the sign-up password and the log-in secret the student id.
  The account record keeps `password` and `studentId` as separate fields. Sign-up checks the length of
  `password`. Log-in compares the typed value with the stored `studentId`, never with `password`.
- The account key is `RES-` followed by at most six upper-cased characters (`script/login.js:50`).

## Model

| member | source | states |
|---|---|---|
| `ReservationId.CreateReservationIdValue` | script/info.js:10-22 | the number is `(seconds mod 10^6) * 10000 + random` |
| `ReservationId.ReservationIdFields` | script/info.js:12-21 | `id mod 10000` is the random draw, `id / 10000` is the clock mod 10^6, and `0 <= id <= 9999999999` |
| `ReservationId.ReservationIdCanBeShort` | script/info.js:21 | when the clock's sixth-last digit is 0, `parseInt` drops the leading zeros and the number has fewer than ten digits |
| `ReservationId.ShortTimestampValue` | script/info.js:15 | `String(seconds).slice(-6)` is a non-empty digit string spelling `seconds mod 10^6` |
| `ReservationId.PaddedRandomValue` | script/info.js:18 | `String(r).padStart(4, '0')` is exactly four digits spelling `r` |
| `Config.MaxCapacity` | script/info.js:61 | a configured non-zero capacity is kept; a missing one or a configured 0 becomes 10 |
| `JsText.TrimEmptyIff` | script/info.js:117-119 | a trimmed field is empty iff the raw field is all white space |
| `JsText.TrimIsInnerSlice` | script/info.js:117-119 | `trim` returns a contiguous slice with only white space cut off around it and none at its own ends |
| `JsText.ParseIntOfDigits` | script/info.js:120 | `parseInt` of a non-empty digit string is the number the digits spell |
| `JsText.SortedKeys` | script/reserve.js:139 | `Object.keys(o).sort()` lists every key exactly once, in strictly ascending default string order |
| `JsText.LexLessIsUtf16Order` | script/reserve.js:139 | the character-by-character order holds between two strings iff their UTF-16 code units compare less (prefix first, then first differing unit) |
| `JsText.SortedIsUtf16Order` | script/reserve.js:139 | sorted keys ascend strictly in their UTF-16 code units |
| `JsText.SortIsNotCodePointOrder` | script/reserve.js:139 | U+10000 sorts before U+E000 although its code point is larger |
| `FormCheck.EmailMatchesPattern` | script/info.js:123-124 | the matcher accepts a string iff it has an '@' after at least one character, a later '.' with at least one character between and one after, and no other '@' or white space |
| `FormCheck.FormValidMeaning` | script/info.js:141-146 | the form is valid iff student id, name and phone each hold a non-white-space character, the trimmed e-mail (when the field exists) fits the pattern, and the parsed party size lies in `[1, MAX_CAPACITY]` |
| `FormCheck.NoPartyFitsBelowOne` | script/info.js:145-146 | with a capacity below one, no form is valid |
| `Ledger.Transaction` | script/info.js:225-233 | the update commits iff `partySize <= remaining` (absent reads as capacity), and the proposal is then exactly `remaining - partySize >= 0` |
| `Ledger.ReplayAccounts` | script/info.js:225-233 | over any serialised run of transactions, seats left drop by exactly the sum of the committed party sizes and never go negative |
| `Ledger.FromUntouchedSlot` | script/info.js:225-233 | from an absent slot, `MAX_CAPACITY - remaining` equals the committed party sizes' sum, which never exceeds `MAX_CAPACITY` |
| `Ledger.CommittedAmongRequested` | script/info.js:225-233 | every committed party size is one of the requested ones |
| `Ledger.FromUntouchedSlotWithinCapacity` | script/info.js:225-233 | with every request for at least one seat, an untouched slot ends with `0 <= remaining <= MAX_CAPACITY`, and at most `MAX_CAPACITY - remaining` requests commit |
| `Ledger.TwoRequestsOneCommits` | script/info.js:225-233 | requests for 6 and 5 seats on a fresh 10-seat slot: exactly the first commits, in either order |
| `Ledger.QueryByStudentId` | script/info.js:199-202 | the query returns exactly the records whose student id equals the one asked |
| `Ledger.HasReservationMeaning` | script/info.js:199-204 | the duplicate guard fires iff some stored record has that student id |
| `Ledger.SeatsTakenNonNegative` | script/info.js:225-233 | a log of decrements of at least one seat each takes no negative number of seats from any slot |
| `Ledger.LedgerWithinSeed` | script/info.js:225-233 | under the ledger invariant, a slot's seats left lie between 0 and its seeded value (capacity when unseeded) |
| `Ledger.RecordsHaveCommits` | script/info.js:245-253 | under the record invariant, each record's (slot, party size) is in the commit log, and there are no more records than commits |
| `Ledger.CommitKeepsAccounts` | script/info.js:225-233 | a committed decrement keeps the ledger invariant: non-negative seats, equal to seeded minus committed |
| `Ledger.PushKeepsRecords` | script/info.js:199-253 | a record pushed after its decrement, for an id the guard found free, keeps every record accounted and the ids distinct |
| `Ledger.SubmitCommitsIff` | script/info.js:164-268 | a submission commits iff the form is valid, the query answers with no duplicate, the transaction runs with enough seats left, and the record is written; its number is then `(seconds mod 10^6)*10000 + random` |
| `Ledger.SubmitRejectsIff` | script/info.js:164-265 | each failure outcome iff its cause: `Invalid` iff the form fails; `QueryFailed` iff valid and the query errs; `Duplicate` iff valid, answered and a record exists; `LedgerFailed` iff past the checks and the transaction errs; `Rejected` iff past the checks, no error and the party exceeds the seats left, which it reports; `RecordWriteFailed` iff the seats sufficed and the write fails |
| `Ledger.ReservationDesk.Submit` | script/info.js:164-268 | the outcome is `SubmitOutcome`; a submission stopped before the ledger leaves ledger, log and records unchanged; past the checks, the slot loses the party's seats only on commit, and the record is appended only on full success (a failed write keeps the seats taken); the button ends disabled only after `Invalid` or success; the invariant is kept |
| `Ledger.ReservationDesk.Proceed` | script/info.js:170-268 | for a valid form, the same outcome and state as `Submit`, with the button disabled only after success |
| `Ledger.ReservationDesk.CheckFormValidity` | script/info.js:116-150 | returns the form's verdict and disables the confirm button iff the form fails |
| `Ledger.ReservationDesk.Screen` | script/info.js:164-220 | the form check, then the query error, then the duplicate guard, with the ledger untouched; passing means valid and no duplicate |
| `Ledger.ReservationDesk.Book` | script/info.js:225-266 | with the button locked: the outcome is `BookOutcome`; transaction error and abort leave everything unchanged and unlock; commit decrements that one slot; the record is appended only if the write succeeds; the button stays locked only after success |
| `Ledger.ReservationDesk.TakeSeats` | script/info.js:229-266 | the committed branch: the slot drops by the party size and the decrement is logged, then success appends the record, a failed write appends nothing; the invariant is kept |
| `Ledger.ReservationDesk.WriteRecord` | script/info.js:247-265 | success appends the record and keeps the button locked; failure writes nothing and unlocks it; the ledger is untouched |
| `Ledger.ReservationDesk.Commit` | script/info.js:229-230 | the stored value becomes `remaining - partySize`, logged as a commit, with the invariant kept |
| `SlotView.RetainMeaning` | script/reserve.js:117-128 | a picked time survives a non-null snapshot iff the snapshot holds it with more than 0 seats (null = capacity); an absent key clears it; otherwise the selection becomes null |
| `SlotView.LabelTellsStatus` | script/reserve.js:146 | the label is `(마감)` iff remaining `<= 0` |
| `SlotView.ButtonForMeaning` | script/reserve.js:143-163 | open iff remaining > 0 (null = capacity); disabled iff full; label `(remaining/MAX_CAPACITY)` or `(마감)`; only the kept open time is selected |
| `SlotView.SlotBoard.OnValue` | script/reserve.js:107-168 | selection kept per `Retain`; null data gives no buttons and a disabled proceed button; otherwise one button per key in sorted order, `availableCount` = number of open keys, proceed enabled iff the kept time is open |
| `SlotView.BuildButtons` | script/reserve.js:138-166 | the listener's pass builds one button per key, in ascending order, counts the open slots and reports whether the kept time met an open slot |
| `SlotView.ButtonsFor` | script/reserve.js:139-163 | the loop builds one `ButtonFor` button per listed time, in order; the count is the open buttons; the flag is set iff some button is selected |
| `SlotView.BoardFacts` | script/reserve.js:138-157 | a board built from the sorted keys lists those keys, and its open-button count equals the open times |
| `SlotView.SelectionFacts` | script/reserve.js:154-162 | some button is selected iff the kept selection is an open slot of the snapshot |
| `SlotView.OneTimeOneButton` | script/reserve.js:139-162 | at most one button carries the selection |
| `SlotView.CountAvailableIsOpen` | script/reserve.js:154-157 | the running count equals the number of distinct open times seen |
| `SlotView.SlotBoard.Click` | script/reserve.js:67-82 | a click missing every slot, or on a disabled or full slot, changes nothing; otherwise that slot alone is selected, its time picked and proceed enabled |
| `SlotView.SlotBoard.Proceed` | script/reserve.js:88-99 | refused iff no time is picked; otherwise the terms page URL with time and booth |
| `Accounts.GenerateKeyShape` | script/login.js:50 | the key is `RES-` followed by the upper-cased characters at positions 2..7 of the random text, at most six |
| `Accounts.GenerateKeyNonEmpty` | script/login.js:50 | a generated key is never empty |
| `Accounts.LoginSucceedsIff` | script/login.js:81-116 | log-in succeeds iff both fields are filled, the key names an account and its stored student id equals the typed one |
| `Accounts.SignupThenLogin` | script/login.js:50-106 | after a sign-up under key k with non-empty student id s, log-in with (k, s) succeeds |
| `Accounts.PasswordLengthInUnits` | script/login.js:41 | `length` counts UTF-16 code units: two characters above U+FFFF pass the four-unit minimum, three ASCII digits do not |
| `Accounts.AccountStore.Signup` | script/login.js:34-72 | a password under 4 UTF-16 code units writes nothing; otherwise `users[key]` is set (overwriting) with `reserveId == key`, and nothing else changes |
| `Accounts.AccountStore.Login` | script/login.js:76-122 | the outcome is the log-in decision; accounts are only read; success sets `isAuthenticated='true'` and `userReserveId=key`; every other outcome leaves storage unchanged |
| `Accounts.SignupThenLoginOnStore` | script/login.js:34-116 | on one store, a successful sign-up followed by log-in with its key and student id logs in and sets both flags |
| `Terms.TermsPage.CheckRequiredTerm` | script/terms.js:82-92 | next disabled iff the required term is unchecked; "agree all" checked iff every individual term is |
| `Terms.TermsPage.ChangeIndividual` | script/terms.js:99-102 | a term's change flips that box only, then `checkRequiredTerm` runs |
| `Terms.TermsPage.ChangeSeparateRequired` | script/terms.js:67-71 | a required box outside the individual terms has no listener: only the box changes |
| `Terms.TermsPage.ToggleAgreeAll` | script/terms.js:105-117 | every individual term takes the new state c and next-disabled becomes `!c`; if the required term is an individual term, consistency is kept |
| `Terms.TermsPage.Next` | script/terms.js:120-128 | refused iff the next button is disabled; otherwise the info page URL with time and booth |
| `Terms.Load` | script/terms.js:51-60 | a missing or empty time parameter aborts set-up; otherwise the page runs `checkRequiredTerm` once and starts consistent |

## Left out

- Accounts.AccountStore.Login and Ledger.ReservationDesk.Submit: a database location is modelled as a
  whole map key: the typed reservation number in `users`, and the (booth, time) pair in the ledger.
  The scripts build a path by joining strings (`script/login.js:90`, `script/info.js:190`), and the
  database parses that path. It drops empty segments, so `RES-ABC123/` reads `users/RES-ABC123` and a
  time `10:00/` decrements the `10:00` counter, where the model finds no account or a fresh slot. It
  rejects `.`, `#`, `$`, `[` and `]` by throwing. At log-in the throw lands in the error branch
  (`script/login.js:118-121`), where the model reports an unknown number. At submit the throw is outside
  any `try`, so the handler stops with the button locked and reaches no outcome at all. Path parsing is
  not modelled, so these cases are outside what the contracts describe.
- Configuration loading and database set-up (`initializeFirebase` in three scripts, the config fetch in
  `script/login.js`) are network I/O. Only the rule `maxCapacity || 10` is kept, over an integer
  capacity. A non-integer configured capacity is not modelled.
- The database SDK's compare-and-retry inside `transaction` is concurrency machinery. Each transaction
  is one serialised atomic step; runs of them are serialised sequences (`Ledger.Replay`).
- The race between one tab's duplicate query and another tab's ledger update is concurrent behaviour.
  It is outside this sequential model, so the "distinct student ids" invariant holds only for
  serialised submissions.
- The update function passed to `transaction` is declared `async` in the source, so the SDK receives a
  Promise. The model captures the decision the body computes; it does not model how the SDK treats a
  Promise.
- `Date.now`, `Math.random` and `Math.random().toString(36)` are host clock and randomness. They are
  parameters: whole seconds, an integer draw below 10000, and a text.
- The server timestamp field of a reservation record is left out of `Ledger.Record`.
- The info page's missing `time`/`booth` check only raises an alert, since its redirect is commented out.
  The model takes the booth and time strings as given.
- DOM manipulation, alerts, console output, e-mail guide texts and colours, button captions, CSS
  classes other than `selected`, and page navigation are left out. Navigation appears only as the URL
  a handler would go to.
- A click is modelled by the index of the button it lands on, or none. The browser's refusal to fire a
  click on a disabled button is not modelled.
- Accounts.GenerateKey: `toUpperCase` is modelled on ASCII letters only, which covers the base-36
  alphabet `Math.random().toString(36)` produces. `substring` indexes UTF-16 code units; the model
  indexes characters, which is the same thing on that ASCII text.
- `script/mypage.js` (authentication listeners and display strings) and `script/script.js` (a nav-bar
  class toggle) are presentation only, and are not part of this model.
- Terms.TermsPage.ToggleAgreeAll: the comment claims unticking "agree all" disables the next button
  because the required term is one of the individual terms. The page markup is not part of this model,
  so the model proves that claim only when the required term is an individual term. Otherwise the next
  button follows "agree all", whatever the required box shows.
