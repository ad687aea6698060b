/**
 The sign-up and log-in page. Accounts live in the database under `users/{reserveId}`; a
 successful log-in leaves two flags in the browser's local storage. The random base-36 text
 (`Math.random().toString(36)`) and the database's failures are passed in.
 */
module Accounts {
  import opened Wrappers
  import opened JsText

  /** The record stored under `users/{reserveId}`. */
  datatype User = User(email: string, name: string, studentId: string, reserveId: string,
                       password: string)

  datatype SignupOutcome =
    | TooShort              // the password is under four UTF-16 code units; nothing is written
    | SignupFailed          // the database write failed
    | SignedUp(reserveId: string)

  datatype LoginOutcome =
    | Missing               // the reservation number or the student id field is empty
    | LoginFailed           // the lookup failed
    | UnknownReserveId      // no account is stored under that number
    | Mismatch              // the stored student id differs from the one typed
    | LoggedIn(name: string)

  const KeyPrefix: string := "RES-"
  const MinPasswordLength: nat := 4
  const AuthFlag: string := "isAuthenticated"
  const ReserveIdFlag: string := "userReserveId"

  /** `'RES-' + random36.substring(2, 8).toUpperCase()`. */
  function GenerateKey(random36: string): string
  {
    KeyPrefix + ToUpperAscii(Substring(random36, 2, 8))
  }

  /** The key is `RES-` followed by the upper-cased characters of the random text from position
      two up to (not including) position eight: six of them, or fewer when the text is shorter. */
  lemma GenerateKeyShape(random36: string)
    ensures var key := GenerateKey(random36);
            var n := if |random36| <= 2 then 0 else if |random36| >= 8 then 6 else |random36| - 2;
            && key[..4] == KeyPrefix
            && |key| == 4 + n <= 10
            && forall k :: 4 <= k < |key| ==> key[k] == UpperAscii(random36[k - 2])
  {
  }

  /** No key is the empty string, so a generated key always passes the log-in's empty check. */
  lemma GenerateKeyNonEmpty(random36: string)
    ensures GenerateKey(random36) != []
  {
    assert GenerateKey(random36)[0] == 'R';
  }

  /** The decision of `handleLogin` against the accounts `users`. */
  function LoginResult(users: map<string, User>, reserveId: string, studentId: string,
                       lookupFails: bool): LoginOutcome
  {
    if reserveId == [] || studentId == [] then Missing
    else if lookupFails then LoginFailed
    else if reserveId !in users then UnknownReserveId
    else if users[reserveId].studentId == studentId then LoggedIn(users[reserveId].name)
    else Mismatch
  }

  /** A log-in that reaches the database succeeds exactly when both fields are filled, the
      number names an account and that account's student id is the one typed; it then greets
      the account's name. */
  lemma LoginSucceedsIff(users: map<string, User>, reserveId: string, studentId: string)
    ensures LoginResult(users, reserveId, studentId, false).LoggedIn? <==>
              reserveId != [] && studentId != [] && reserveId in users
              && users[reserveId].studentId == studentId
    ensures LoginResult(users, reserveId, studentId, false).LoggedIn? ==>
              LoginResult(users, reserveId, studentId, false).name == users[reserveId].name
  {
  }

  /** Signing up with a non-empty student id and then logging in with the number handed out and
      that student id succeeds, whatever accounts existed before. */
  lemma SignupThenLogin(users: map<string, User>, email: string, password: string, name: string,
                        studentId: string, random36: string)
    requires studentId != []
    ensures var key := GenerateKey(random36);
            var users' := users[key := User(email, name, studentId, key, password)];
            LoginResult(users', key, studentId, false) == LoggedIn(name)
  {
    GenerateKeyNonEmpty(random36);
  }

  /** `password.length` counts UTF-16 code units: two characters above U+FFFF already pass the
      four-unit minimum, while three ASCII characters do not. */
  lemma PasswordLengthInUnits()
    ensures Length("\U{1F600}\U{1F600}") == 4 >= MinPasswordLength
    ensures Length("123") == 3 < MinPasswordLength
  {
  }

  class AccountStore {
    /** The `users` subtree of the database. */
    var users: map<string, User>
    /** The browser's local storage. */
    var storage: map<string, string>

    constructor (users: map<string, User>, storage: map<string, string>)
      ensures this.users == users && this.storage == storage
    {
      this.users := users;
      this.storage := storage;
    }

    /** `handleSignup`: a password whose `length` (UTF-16 code units) is under four is refused
        with nothing written; otherwise the account is written under a freshly generated key,
        replacing whatever was stored there, and no other account changes. Local storage is
        untouched. */
    method Signup(email: string, password: string, name: string, studentId: string,
                  random36: string, writeFails: bool) returns (r: SignupOutcome)
      modifies this
      ensures storage == old(storage)
      ensures Length(password) < MinPasswordLength ==> r == TooShort && users == old(users)
      ensures Length(password) >= MinPasswordLength && writeFails ==>
                r == SignupFailed && users == old(users)
      ensures Length(password) >= MinPasswordLength && !writeFails ==>
                var key := GenerateKey(random36);
                && r == SignedUp(key)
                && users == old(users)[key := User(email, name, studentId, key, password)]
    {
      if Length(password) < MinPasswordLength {
        return TooShort;
      }
      var reserveId := GenerateKey(random36);
      if writeFails {
        return SignupFailed;
      }
      users := users[reserveId := User(email, name, studentId, reserveId, password)];
      r := SignedUp(reserveId);
    }

    /** `handleLogin`: the outcome is `LoginResult` on the stored accounts, which are only read;
        a successful log-in sets `isAuthenticated` to `true` and `userReserveId` to the number,
        and every other outcome leaves local storage as it was. */
    method Login(reserveId: string, studentId: string, lookupFails: bool) returns (r: LoginOutcome)
      modifies this
      ensures users == old(users)
      ensures r == LoginResult(old(users), reserveId, studentId, lookupFails)
      ensures r.LoggedIn? ==> storage == old(storage)[AuthFlag := "true"][ReserveIdFlag := reserveId]
      ensures !r.LoggedIn? ==> storage == old(storage)
    {
      if reserveId == [] || studentId == [] {
        return Missing;
      }
      if lookupFails {
        return LoginFailed;
      }
      if reserveId !in users {
        return UnknownReserveId;
      }
      var user := users[reserveId];
      if user.studentId == studentId {
        storage := storage[AuthFlag := "true"];
        storage := storage[ReserveIdFlag := reserveId];
        r := LoggedIn(user.name);
      } else {
        r := Mismatch;
      }
    }
  }

  /** The round trip on one store: a sign-up that goes through, followed by a log-in with the
      number it hands out and the same non-empty student id, logs in and marks the browser as
      authenticated for that number. */
  method SignupThenLoginOnStore(store: AccountStore, email: string, password: string, name: string,
                                studentId: string, random36: string)
      returns (signup: SignupOutcome, login: LoginOutcome)
    requires Length(password) >= MinPasswordLength && studentId != []
    modifies store
    ensures signup == SignedUp(GenerateKey(random36))
    ensures login == LoggedIn(name)
    ensures AuthFlag in store.storage && store.storage[AuthFlag] == "true"
    ensures ReserveIdFlag in store.storage && store.storage[ReserveIdFlag] == GenerateKey(random36)
  {
    signup := store.Signup(email, password, name, studentId, random36, false);
    SignupThenLogin(old(store.users), email, password, name, studentId, random36);
    login := store.Login(signup.reserveId, studentId, false);
  }
}
