/** The browser session kept after a signed login: one record under one
    `localStorage` key, valid for 24 hours counted from the login time.
    The storage is a map from keys to stored items; the clock is the
    parameter `now` (milliseconds, as `Date.now()` returns them). */
module Session {
  import opened Wrappers
  import opened JsStrings

  const AUTH_STORAGE_KEY: string := "nft_app_auth"

  const SIGNATURE_MESSAGE: string :=
    "Welcome to Minimal NFT Mint DApp!\n\nSign this message to authenticate your session.\n\nTimestamp: "

  /** 24 hours in milliseconds. */
  const SESSION_TTL: int := 24 * 60 * 60 * 1000

  /** The record `saveLocalSession` writes. */
  datatype Session = Session(address: string, signature: string, timestamp: int, expiresAt: int)

  /** What can sit under the key: the empty string (falsy, read as "no
      session"), a session record, or text `JSON.parse` rejects. */
  datatype Item = Blank | Stored(session: Session) | Malformed

  type Storage = map<string, Item>

  /** What `getLocalSession` returns together with the storage it leaves. */
  datatype Loaded = Loaded(session: Option<Session>, storage: Storage)

  // ---------------------------------------------------------------------
  // The sign-in message
  // ---------------------------------------------------------------------

  /** `generateSignMessage(timestamp)` */
  function GenerateSignMessage(timestamp: int): (msg: string)
    ensures StartsWith(msg, SIGNATURE_MESSAGE)
  {
    SIGNATURE_MESSAGE + IntToDecimal(timestamp)
  }

  /** The timestamp can be read back from the message, so distinct
      timestamps give distinct messages. */
  lemma SignMessageTimestamp(timestamp: int)
    ensures var msg := GenerateSignMessage(timestamp);
      ParseInt(msg[|SIGNATURE_MESSAGE|..]) == Some(timestamp)
  {
    var msg := GenerateSignMessage(timestamp);
    assert msg[|SIGNATURE_MESSAGE|..] == IntToDecimal(timestamp) + [];
    ParseIntOfDecimal(timestamp, []);
  }

  lemma SignMessageInjective(t1: int, t2: int)
    requires GenerateSignMessage(t1) == GenerateSignMessage(t2)
    ensures t1 == t2
  {
    SignMessageTimestamp(t1);
    SignMessageTimestamp(t2);
  }

  // ---------------------------------------------------------------------
  // The storage rules as functions
  // ---------------------------------------------------------------------

  /** A session has expired once `now` is past its timestamp plus 24 hours;
      `expiresAt` is not consulted. */
  predicate Expired(s: Session, now: int) {
    now > s.timestamp + SESSION_TTL
  }

  /** `getLocalSession()`: nothing stored (or the empty string) gives
      `null` and leaves the storage alone; unreadable text and an expired
      session give `null` and remove the key. */
  function Load(storage: Storage, now: int): (r: Loaded)
    ensures r.session.Some? ==>
      (AUTH_STORAGE_KEY in storage
       && storage[AUTH_STORAGE_KEY] == Stored(r.session.value)
       && !Expired(r.session.value, now))
    ensures r.storage == storage || r.storage == storage - {AUTH_STORAGE_KEY}
    ensures AUTH_STORAGE_KEY !in storage || storage[AUTH_STORAGE_KEY] == Blank ==> r == Loaded(None, storage)
    ensures AUTH_STORAGE_KEY in storage && storage[AUTH_STORAGE_KEY] == Malformed ==>
      r == Loaded(None, storage - {AUTH_STORAGE_KEY})
    ensures AUTH_STORAGE_KEY in storage && storage[AUTH_STORAGE_KEY].Stored? ==>
      var s := storage[AUTH_STORAGE_KEY].session;
      (r.session == Some(s) <==> !Expired(s, now))
      && (Expired(s, now) ==> r == Loaded(None, storage - {AUTH_STORAGE_KEY}))
      && (!Expired(s, now) ==> r.storage == storage)
  {
    if AUTH_STORAGE_KEY !in storage then Loaded(None, storage)
    else match storage[AUTH_STORAGE_KEY]
      case Blank => Loaded(None, storage)
      case Malformed => Loaded(None, storage - {AUTH_STORAGE_KEY})
      case Stored(s) =>
        if Expired(s, now) then Loaded(None, storage - {AUTH_STORAGE_KEY})
        else Loaded(Some(s), storage)
  }

  /** The record `saveLocalSession(address, signature, timestamp)` writes. */
  function NewSession(address: string, signature: string, timestamp: int): (s: Session)
    ensures s.address == Lower(address) && s.signature == signature && s.timestamp == timestamp
    ensures IsLowerCase(s.address) && |s.address| == |address|
    ensures s.expiresAt - s.timestamp == SESSION_TTL
  {
    Session(Lower(address), signature, timestamp, timestamp + SESSION_TTL)
  }

  function Save(storage: Storage, address: string, signature: string, timestamp: int): Storage {
    storage[AUTH_STORAGE_KEY := Stored(NewSession(address, signature, timestamp))]
  }

  function Clear(storage: Storage): Storage {
    storage - {AUTH_STORAGE_KEY}
  }

  /** `isSessionValid(currentAddress)`, with the storage the lookup leaves
      behind; the empty string stands for any falsy address. */
  function Validate(storage: Storage, now: int, currentAddress: string): (r: (bool, Storage))
    ensures r.1 == Load(storage, now).storage
    ensures r.0 <==> (currentAddress != [] && AUTH_STORAGE_KEY in storage
      && storage[AUTH_STORAGE_KEY].Stored?
      && !Expired(storage[AUTH_STORAGE_KEY].session, now)
      && storage[AUTH_STORAGE_KEY].session.address == Lower(currentAddress))
  {
    var loaded := Load(storage, now);
    (loaded.session.Some? && currentAddress != [] && loaded.session.value.address == Lower(currentAddress),
     loaded.storage)
  }

  /** `checkLoginStatus(currentAddress)`: a falsy address is refused before
      the storage is read. */
  function LoginStatus(storage: Storage, now: int, currentAddress: string): (r: (bool, Storage))
    ensures currentAddress == [] ==> r == (false, storage)
    ensures currentAddress != [] ==> r == Validate(storage, now, currentAddress)
  {
    if currentAddress == [] then (false, storage) else Validate(storage, now, currentAddress)
  }

  // ---------------------------------------------------------------------
  // Properties
  // ---------------------------------------------------------------------

  /** Reading right after a save gives the saved record while it is live,
      and removes it once it has expired. */
  lemma LoadAfterSave(storage: Storage, address: string, signature: string, timestamp: int, now: int)
    ensures var saved := Save(storage, address, signature, timestamp);
      var s := NewSession(address, signature, timestamp);
      Load(saved, now) ==
        if now <= timestamp + SESSION_TTL then Loaded(Some(s), saved) else Loaded(None, Clear(storage))
  {
    var saved := Save(storage, address, signature, timestamp);
    assert saved - {AUTH_STORAGE_KEY} == Clear(storage);
  }

  /** After a clear there is no session, and the storage stays cleared. */
  lemma LoadAfterClear(storage: Storage, now: int)
    ensures Load(Clear(storage), now) == Loaded(None, Clear(storage))
  {
  }

  /** A second read at the same time changes nothing and gives the same
      answer. */
  lemma LoadIdempotent(storage: Storage, now: int)
    ensures Load(Load(storage, now).storage, now) == Load(storage, now)
  {
    var r := Load(storage, now);
    if r.storage != storage {
      assert AUTH_STORAGE_KEY !in r.storage;
    }
  }

  /** A session live now was live at every earlier time. */
  lemma LoadEarlier(storage: Storage, now: int, earlier: int)
    requires Load(storage, now).session.Some? && earlier <= now
    ensures Load(storage, earlier) == Load(storage, now)
  {
  }

  /** Expiry is decided by `timestamp` alone: two records that differ only
      in `expiresAt` live and die together. */
  lemma ExpiryIgnoresExpiresAt(storage: Storage, s: Session, e: int, now: int)
    ensures var a := storage[AUTH_STORAGE_KEY := Stored(s)];
      var b := storage[AUTH_STORAGE_KEY := Stored(s.(expiresAt := e))];
      Load(a, now).session.Some? <==> Load(b, now).session.Some?
  {
  }

  /** Only the session key is ever written or removed. */
  lemma OtherKeysUntouched(storage: Storage, now: int, address: string, signature: string, timestamp: int, k: string)
    requires k != AUTH_STORAGE_KEY
    ensures k in Load(storage, now).storage <==> k in storage
    ensures k in storage ==> Load(storage, now).storage[k] == storage[k]
    ensures k in Save(storage, address, signature, timestamp) <==> k in storage
    ensures k in storage ==> Save(storage, address, signature, timestamp)[k] == storage[k]
    ensures k in Clear(storage) <==> k in storage
  {
  }

  /** After a save, the session is valid for an address exactly when that
      address is not empty, matches the saved one ignoring case, and the
      session is still live. */
  lemma ValidAfterSave(storage: Storage, address: string, signature: string, timestamp: int, now: int, current: string)
    ensures Validate(Save(storage, address, signature, timestamp), now, current).0 <==>
      now <= timestamp + SESSION_TTL && current != [] && Lower(current) == Lower(address)
  {
    LoadAfterSave(storage, address, signature, timestamp, now);
  }

  /** `checkLoginStatus` agrees with `isSessionValid` on the answer; on a
      falsy address it alone leaves an expired session in place. */
  lemma LoginStatusAgrees(storage: Storage, now: int, current: string)
    ensures LoginStatus(storage, now, current).0 == Validate(storage, now, current).0
    ensures current == [] ==> LoginStatus(storage, now, current).1 == storage
  {
  }

  // ---------------------------------------------------------------------
  // The store
  // ---------------------------------------------------------------------

  /** The page's `localStorage`, as far as the session functions use it. */
  class SessionStore {
    var storage: Storage

    constructor()
      ensures storage == map[]
    {
      storage := map[];
    }

    /** `getLocalSession()` */
    method GetLocalSession(now: int) returns (session: Option<Session>)
      modifies this
      ensures Loaded(session, storage) == Load(old(storage), now)
    {
      if AUTH_STORAGE_KEY !in storage {
        return None;
      }
      var stored := storage[AUTH_STORAGE_KEY];
      match stored {
        case Blank =>
          return None;
        case Malformed =>
          ClearLocalSession();
          return None;
        case Stored(s) =>
          var expiry := s.timestamp + SESSION_TTL;
          if now > expiry {
            ClearLocalSession();
            return None;
          }
          return Some(s);
      }
    }

    /** `saveLocalSession(address, signature, timestamp)` */
    method SaveLocalSession(address: string, signature: string, timestamp: int) returns (session: Session)
      modifies this
      ensures session == NewSession(address, signature, timestamp)
      ensures storage == Save(old(storage), address, signature, timestamp)
    {
      session := Session(Lower(address), signature, timestamp, timestamp + SESSION_TTL);
      storage := storage[AUTH_STORAGE_KEY := Stored(session)];
    }

    /** `clearLocalSession()` */
    method ClearLocalSession()
      modifies this
      ensures storage == Clear(old(storage))
    {
      storage := storage - {AUTH_STORAGE_KEY};
    }

    /** `isSessionValid(currentAddress)` */
    method IsSessionValid(now: int, currentAddress: string) returns (valid: bool)
      modifies this
      ensures (valid, storage) == Validate(old(storage), now, currentAddress)
    {
      var session := GetLocalSession(now);
      if session.None? || currentAddress == [] {
        return false;
      }
      return session.value.address == Lower(currentAddress);
    }

    /** `signLogout()`: the key is removed and the call reports success;
      a check that follows finds no session. */
    method SignLogout() returns (success: bool)
      modifies this
      ensures success && storage == Clear(old(storage))
      ensures forall now, current :: !LoginStatus(storage, now, current).0
    {
      ClearLocalSession();
      success := true;
      forall now, current
        ensures !LoginStatus(storage, now, current).0
      {
        LoadAfterClear(old(storage), now);
      }
    }

    /** `checkLoginStatus(currentAddress)` */
    method CheckLoginStatus(now: int, currentAddress: string) returns (loggedIn: bool)
      modifies this
      ensures (loggedIn, storage) == LoginStatus(old(storage), now, currentAddress)
      ensures currentAddress == [] ==> !loggedIn && storage == old(storage)
    {
      if currentAddress == [] {
        return false;
      }
      loggedIn := IsSessionValid(now, currentAddress);
    }
  }
}
