// The persistent auth store: users and recovery tokens in one file, every request
// under one mutex, each load and save able to fail.

module AuthStore {
  import opened FileTree
  import opened Pbkdf2
  import opened PasswordHash

  datatype User = User(id: int, email: string, hash: string, status: string, lastVisit: int)

  // usedAt is 0, the zero time, until the token is used.
  datatype Token = Token(user: int, hash: string, expiresAt: int, usedAt: int)

  datatype Group = Group(id: int, owner: int, name: string)

  datatype Membership = Membership(user: int, group: int)

  datatype Auth = Auth(users: seq<User>, groups: seq<Group>, memberships: seq<Membership>, tokens: seq<Token>)

  predicate Active(u: User) {
    u.status == "" || u.status == "active"
  }

  // len(activeUsers(users)) > 0
  predicate HasActive(users: seq<User>) {
    exists i :: 0 <= i < |users| && Active(users[i])
  }

  // The only user there is owns the superuser group and is its only member.
  predicate IsSuperuser(a: Auth) {
    && |a.users| == 1
    && a.groups == [Group(1, a.users[0].id, "Superuser")] && a.memberships == [Membership(a.users[0].id, 1)]
  }

  // ---- addresses ----

  predicate White(c: char) {
    c in {' ', '\t', '\n', '\r', 0xB as char, 0xC as char}
  }

  function Lower(c: char): char {
    if 'A' <= c <= 'Z' then (c as int + 32) as char else c
  }

  // strings.TrimSpace
  function Trim(s: string): (r: string)
    ensures |r| <= |s| && (r != "" ==> !White(r[0]) && !White(r[|r| - 1]))
  {
    if s == "" then s
    else if White(s[0]) then Trim(s[1..])
    else if White(s[|s| - 1]) then Trim(s[..|s| - 1])
    else s
  }

  // normalizeEmail
  function NormalizeEmail(email: string): string {
    var trimmed := Trim(email);
    seq(|trimmed|, i requires 0 <= i < |trimmed| => Lower(trimmed[i]))
  }

  // What is stored is its own normal form, so the search finds it.
  lemma NormalOnce(email: string)
    ensures NormalizeEmail(NormalizeEmail(email)) == NormalizeEmail(email)
  {
    var trimmed, normal := Trim(email), NormalizeEmail(email);
    if normal != "" {
      assert normal[0] == Lower(trimmed[0]) && normal[|normal| - 1] == Lower(trimmed[|trimmed| - 1]);
      assert !White(normal[0]) && !White(normal[|normal| - 1]);
    }
    assert Trim(normal) == normal;
    assert forall i :: 0 <= i < |normal| ==> Lower(normal[i]) == normal[i];
  }

  // strings.LastIndex
  function LastIndex(s: string, c: char): (i: int)
    ensures -1 <= i < |s| && (i >= 0 ==> s[i] == c) && forall k :: i < k < |s| ==> s[k] != c
  {
    if s == "" then -1 else if s[|s| - 1] == c then |s| - 1 else LastIndex(s[..|s| - 1], c)
  }

  predicate ValidEmail(email: string) {
    && email != "" && |email| <= 254
    && (forall c :: c in " \t\r\n" ==> c !in email)
    && var at := LastIndex(email, '@'); 0 < at < |email| - 1 && '.' in email[at + 1..]
  }

  // ---- the state machine ----

  datatype Event = Quiet | AdminCreated | Accepted(token: nat, at: int)

  // The first admin takes the place of whoever was stored, with a group of its own.
  function WithAdmin(a: Auth, u: User): Auth {
    Auth([u], [Group(1, u.id, "Superuser")], [Membership(u.id, 1)], a.tokens)
  }

  ghost predicate AdminStep(a: Auth, a': Auth, u: User) {
    !HasActive(a.users) && Active(u) && a' == WithAdmin(a, u)
  }

  // A login or a password change.
  ghost predicate UserStep(a: Auth, a': Auth, i: nat, hash: string, lastVisit: int) {
    && i < |a.users| && Active(a.users[i])
    && a' == a.(users := a.users[i := a.users[i].(hash := hash, lastVisit := lastVisit)])
  }

  ghost predicate TokenStep(a: Auth, a': Auth, t: Token) {
    t.usedAt == 0 && a' == a.(tokens := a.tokens + [t])
  }

  ghost predicate UseStep(a: Auth, a': Auth, i: nat, now: int) {
    && i < |a.tokens| && a.tokens[i].usedAt == 0 && now != 0 && now <= a.tokens[i].expiresAt
    && a' == a.(tokens := a.tokens[i := a.tokens[i].(usedAt := now)])
  }

  // A request may change the store and still report failure, if the save took effect
  // before its error; then the event is Quiet.
  ghost predicate Step(a: Auth, a': Auth, e: Event) {
    || (a' == a && e == Quiet)
    || ((e == AdminCreated || e == Quiet) && exists u :: AdminStep(a, a', u))
    || (e == Quiet && exists i, hash, lastVisit :: UserStep(a, a', i, hash, lastVisit))
    || (e == Quiet && exists t :: TokenStep(a, a', t))
    || (e == Quiet && exists i, now :: UseStep(a, a', i, now))
    || (e.Accepted? && UseStep(a, a', e.token, e.at))
  }

  lemma AdminIsStep(a: Auth, u: User)
    requires !HasActive(a.users) && Active(u)
    ensures var a' := WithAdmin(a, u); Step(a, a', Quiet) && Step(a, a', AdminCreated)
  {
    assert AdminStep(a, WithAdmin(a, u), u);
  }

  // ---- the requests ----

  ghost predicate FirstByEmail(users: seq<User>, i: nat, email: string) {
    && i < |users| && NormalizeEmail(users[i].email) == email && Active(users[i])
    && forall k :: 0 <= k < i ==> NormalizeEmail(users[k].email) != email || !Active(users[k])
  }

  ghost predicate FirstById(users: seq<User>, i: nat, id: int) {
    && i < |users| && users[i].id == id && Active(users[i])
    && forall k :: 0 <= k < i ==> users[k].id != id || !Active(users[k])
  }

  // A token of that user and hash, not used and not expired.
  ghost predicate Usable(tokens: seq<Token>, i: nat, id: int, hash: string, now: int) {
    i < |tokens| && tokens[i].user == id && tokens[i].hash == hash && tokens[i].usedAt == 0 && now <= tokens[i].expiresAt
  }

  ghost predicate Redeemable(tokens: seq<Token>, id: int, hash: string, now: int) {
    exists i: nat :: Usable(tokens, i, id, hash, now)
  }

  // The first active user of the address has this password.
  ghost predicate Admits(prf: Prf, users: seq<User>, email: string, password: Bytes)
    requires Yields32(prf)
  {
    exists i: nat :: FirstByEmail(users, i, email) && Accepts(prf, password, users[i].hash)
  }

  lemma OnlyFirstDecides(prf: Prf, users: seq<User>, i: nat, email: string, password: Bytes)
    requires Yields32(prf) && FirstByEmail(users, i, email)
    ensures Admits(prf, users, email, password) <==> Accepts(prf, password, users[i].hash)
  {
  }

  ghost predicate Knows(prf: Prf, users: seq<User>, id: int, password: Bytes)
    requires Yields32(prf)
  {
    exists i: nat :: FirstById(users, i, id) && Accepts(prf, password, users[i].hash)
  }

  lemma OnlyFirstKnows(prf: Prf, users: seq<User>, i: nat, id: int, password: Bytes)
    requires Yields32(prf) && FirstById(users, i, id)
    ensures Knows(prf, users, id, password) <==> Accepts(prf, password, users[i].hash)
  {
  }

  lemma UserIsStep(a: Auth, i: nat, hash: string, lastVisit: int)
    requires i < |a.users| && Active(a.users[i])
    ensures Step(a, a.(users := a.users[i := a.users[i].(hash := hash, lastVisit := lastVisit)]), Quiet)
  {
    assert UserStep(a, a.(users := a.users[i := a.users[i].(hash := hash, lastVisit := lastVisit)]), i, hash, lastVisit);
  }

  ghost predicate Changed(prf: Prf, a: Auth, a': Auth, id: int, current: Bytes, replacement: Bytes)
    requires Yields32(prf)
  {
    exists i: nat :: PasswordChanged(prf, a, a', i, id, current, replacement)
  }

  // The first active user of that id, who knew the old password, has the new one;
  // nothing else is different.
  ghost predicate PasswordChanged(prf: Prf, a: Auth, a': Auth, i: nat, id: int, current: Bytes, replacement: Bytes)
    requires Yields32(prf)
  {
    && i < |a.users| == |a'.users| && FirstById(a.users, i, id)
    && Accepts(prf, current, a.users[i].hash) && Accepts(prf, replacement, a'.users[i].hash)
    && a' == a.(users := a.users[i := a.users[i].(hash := a'.users[i].hash)])
  }

  class Store {
    const prf: Prf
    var auth: Auth
    ghost var faults: nat  // loads and saves that failed

    constructor (prf: Prf)
      ensures this.prf == prf && auth == Auth([], [], [], []) && faults == 0
    {
      this.prf := prf;
      auth, faults := Auth([], [], [], []), 0;
    }

    // Ask the environment whether the next call breaks.
    method Fault() returns (bad: bool)
      modifies this`faults
      ensures faults == old(faults) + if bad then 1 else 0
    {
      bad := *;
      if bad { faults := faults + 1; }
    }

    // saveAuthStore: the last sync may fail after the file is in place.
    method Save(next: Auth) returns (ok: bool)
      modifies this`auth, this`faults
      ensures auth == next || auth == old(auth)
      ensures ok ==> auth == next
      ensures faults == old(faults) + if ok then 0 else 1
    {
      var bad := Fault();
      if bad { return false; }
      auth := next;
      bad := Fault();
      ok := !bad;
    }

    // createFirstAdmin; `salt` is what the random source gave, if it did.  The new admin
    // can log in at once.
    method CreateFirstAdmin(email: string, password: Bytes, salt: Option<Bytes>, now: int)
      returns (ok: bool, ghost event: Event)
      requires Yields32(prf) && (salt.Some? ==> |salt.value| == SALT_BYTES)
      modifies this`auth, this`faults
      ensures Step(old(auth), auth, event) && (ok <==> event == AdminCreated)
      ensures ok ==> ValidEmail(NormalizeEmail(email)) && IsSuperuser(auth) && auth.tokens == old(auth).tokens
      ensures ok ==> auth.users[0].email == NormalizeEmail(email) && auth.users[0].id == 1
      ensures ok ==> Active(auth.users[0]) && Accepts(prf, password, auth.users[0].hash)
      ensures ok ==> Admits(prf, auth.users, NormalizeEmail(email), password)
      ensures HasActive(old(auth).users) ==> !ok && auth == old(auth)
      ensures old(faults) <= faults
      ensures faults == old(faults) ==>
        (ok <==> ValidEmail(NormalizeEmail(email)) && |password| >= 8 && !HasActive(old(auth).users) && salt.Some?)
    {
      event := Quiet;
      var address := NormalizeEmail(email);
      if !ValidEmail(address) || |password| < 8 { return false, event; }
      var unloaded := Fault();
      if unloaded { return false, event; }
      if HasActive(auth.users) { return false, event; }
      if salt == None { return false, event; }
      var hash := HashPassword(prf, password, salt.value);
      var user := User(1, address, hash, "active", now);
      AdminIsStep(auth, user);
      ok := Save(WithAdmin(auth, user));
      if ok {
        event := AdminCreated;
        NormalOnce(email);
        assert FirstByEmail(auth.users, 0, address);
      }
    }

    // The search loops of the two methods below.
    method FindByEmail(email: string) returns (i: int)
      ensures i >= 0 ==> FirstByEmail(auth.users, i, email)
      ensures i < 0 ==> forall k: nat :: !FirstByEmail(auth.users, k, email)
    {
      for k := 0 to |auth.users|
        invariant forall j :: 0 <= j < k ==> NormalizeEmail(auth.users[j].email) != email || !Active(auth.users[j])
      {
        if NormalizeEmail(auth.users[k].email) == email && Active(auth.users[k]) { return k; }
      }
      i := -1;
    }

    method FindById(id: int) returns (i: int)
      ensures i >= 0 ==> FirstById(auth.users, i, id)
      ensures i < 0 ==> forall k: nat :: !FirstById(auth.users, k, id)
    {
      for k := 0 to |auth.users|
        invariant forall j :: 0 <= j < k ==> auth.users[j].id != id || !Active(auth.users[j])
      {
        if auth.users[k].id == id && Active(auth.users[k]) { return k; }
      }
      i := -1;
    }

    // authenticatePersistentUser, for a normalised address: the first active user of that
    // address decides.
    method Authenticate(email: string, password: Bytes, now: int) returns (ok: bool, user: Option<User>)
      requires Yields32(prf)
      modifies this`auth, this`faults
      ensures Step(old(auth), auth, Quiet)
      ensures ok ==> user.Some? && user.value in auth.users && NormalizeEmail(user.value.email) == email && Active(user.value)
      ensures old(faults) <= faults && (ok ==> Admits(prf, old(auth).users, email, password))
      ensures faults == old(faults) && Admits(prf, old(auth).users, email, password) ==> ok
    {
      user := None;
      var unloaded := Fault();
      if unloaded { return false, user; }
      var i := FindByEmail(email);
      if i < 0 { return false, user; }
      OnlyFirstDecides(prf, auth.users, i, email, password);
      var u := auth.users[i];
      var matches, failed := VerifyPassword(prf, password, u.hash);
      if failed || !matches { return false, user; }
      var next := auth.(users := auth.users[i := u.(lastVisit := now)]);
      UserIsStep(auth, i, u.hash, now);
      ok := Save(next);
      if ok {
        user := Some(u.(lastVisit := now));
        assert auth.users[i] == user.value;
      }
    }

    // changePersistentPassword
    method ChangePassword(id: int, current: Bytes, replacement: Bytes, salt: Option<Bytes>) returns (ok: bool)
      requires Yields32(prf) && (salt.Some? ==> |salt.value| == SALT_BYTES)
      modifies this`auth, this`faults
      ensures Step(old(auth), auth, Quiet)
      ensures auth != old(auth) || ok ==> Changed(prf, old(auth), auth, id, current, replacement)
      ensures old(faults) <= faults
      ensures faults == old(faults) && |replacement| >= 8 && salt.Some? && Knows(prf, old(auth).users, id, current) ==> ok
    {
      if |replacement| < 8 { return false; }
      var unloaded := Fault();
      if unloaded { return false; }
      var i := FindById(id);
      if i < 0 { return false; }
      OnlyFirstKnows(prf, auth.users, i, id, current);
      var u := auth.users[i];
      var matches, failed := VerifyPassword(prf, current, u.hash);
      if failed || !matches || salt == None { return false; }
      var hash := HashPassword(prf, replacement, salt.value);
      var next := auth.(users := auth.users[i := u.(hash := hash)]);
      UserIsStep(auth, i, hash, u.lastVisit);
      assert PasswordChanged(prf, auth, next, i, id, current, replacement);
      ok := Save(next);
    }

    // createRecoveryToken, for the hash of a fresh random token.
    method CreateRecoveryToken(id: int, hash: string, expiresAt: int) returns (ok: bool)
      modifies this`auth, this`faults
      ensures Step(old(auth), auth, Quiet)
      ensures ok ==> auth.tokens == old(auth).tokens + [Token(id, hash, expiresAt, 0)]
      ensures old(faults) <= faults && (ok <==> faults == old(faults))
    {
      var unloaded := Fault();
      if unloaded { return false; }
      var token := Token(id, hash, expiresAt, 0);
      var next := auth.(tokens := auth.tokens + [token]);
      assert TokenStep(auth, next, token);
      ok := Save(next);
    }

    // verifyRecoveryToken; `clock` is the time now, used when the caller gives none.
    method VerifyRecoveryToken(id: int, hash: string, given: int, clock: int) returns (ok: bool, ghost event: Event)
      requires clock != 0
      modifies this`auth, this`faults
      ensures Step(old(auth), auth, event) && (ok <==> event.Accepted?)
      ensures ok ==> event.token < |old(auth).tokens| && event.at == if given == 0 then clock else given
      ensures ok ==> old(auth).tokens[event.token].user == id && old(auth).tokens[event.token].hash == hash
      ensures old(faults) <= faults
      ensures faults == old(faults) ==>
        (ok <==> Redeemable(old(auth).tokens, id, hash, if given == 0 then clock else given))
    {
      var now := if given == 0 then clock else given;
      event := Quiet;
      var unloaded := Fault();
      if unloaded { return false, event; }
      for i := 0 to |auth.tokens|
        invariant auth == old(auth) && faults == old(faults)
        invariant forall k :: 0 <= k < i ==> !Usable(auth.tokens, k, id, hash, now)
      {
        var t := auth.tokens[i];
        if t.user == id && t.usedAt == 0 && now <= t.expiresAt && t.hash == hash {
          var next := auth.(tokens := auth.tokens[i := t.(usedAt := now)]);
          assert UseStep(auth, next, i, now) && Usable(auth.tokens, i, id, hash, now);
          ok := Save(next);
          if ok { event := Accepted(i, now); }
          return;
        }
      }
      ok := false;
    }
  }

  // ---- runs ----

  ghost predicate StepAt(run: seq<Auth>, events: seq<Event>, i: int)
    requires 0 <= i < |events| && |run| == |events| + 1
  {
    Step(run[i], run[i + 1], events[i])
  }

  ghost predicate IsRun(run: seq<Auth>, events: seq<Event>) {
    && |run| == |events| + 1 && run[0] == Auth([], [], [], [])
    && forall i :: 0 <= i < |events| ==> StepAt(run, events, i)
  }

  // No user at all, or exactly one, who is active and has all rights.
  ghost predicate AtMostOneUser(a: Auth) {
    a.users == [] || (|a.users| == 1 && Active(a.users[0]) && IsSuperuser(a))
  }

  ghost predicate SameUser(u: User, u': User) {
    u'.id == u.id && u'.email == u.email && Active(u')
  }

  lemma StepKeepsUser(a: Auth, a': Auth, e: Event)
    requires Step(a, a', e) && AtMostOneUser(a)
    ensures AtMostOneUser(a')
    ensures a.users != [] ==> e != AdminCreated && a'.users != [] && SameUser(a.users[0], a'.users[0])
    ensures e == AdminCreated ==> a'.users != []
  {
    assert a.users != [] ==> Active(a.users[0]);
  }

  lemma {:induction false} OneUser(run: seq<Auth>, events: seq<Event>, i: nat)
    requires IsRun(run, events) && i < |run|
    ensures AtMostOneUser(run[i])
  {
    if i > 0 {
      OneUser(run, events, i - 1);
      assert StepAt(run, events, i - 1);
      StepKeepsUser(run[i - 1], run[i], events[i - 1]);
    }
  }

  lemma {:induction false} UserStays(run: seq<Auth>, events: seq<Event>, i: nat, j: nat)
    requires IsRun(run, events) && i <= j < |run| && run[i].users != []
    ensures AtMostOneUser(run[i]) && AtMostOneUser(run[j])
    ensures run[j].users != [] && SameUser(run[i].users[0], run[j].users[0])
    decreases j
  {
    OneUser(run, events, i);
    if i < j {
      UserStays(run, events, i, j - 1);
      assert StepAt(run, events, j - 1);
      StepKeepsUser(run[j - 1], run[j], events[j - 1]);
    }
  }

  // From an empty store a first admin is created at most once, and from then on
  // exactly that user exists, active and the owner and member of the superuser group.
  lemma FirstAdminIsOnlyOne(run: seq<Auth>, events: seq<Event>, i: nat, j: nat)
    requires IsRun(run, events) && i < |events| && events[i] == AdminCreated
    requires j < |events| && events[j] == AdminCreated
    ensures i == j && |run[i + 1].users| == 1
    ensures forall k :: i < k < |run| ==>
      |run[k].users| == 1 && SameUser(run[i + 1].users[0], run[k].users[0]) && IsSuperuser(run[k])
  {
    AdminExcludesLater(run, events, i, j);
    AdminExcludesLater(run, events, j, i);
    OneUser(run, events, i + 1);
    forall k | i < k < |run|
      ensures |run[k].users| == 1 && SameUser(run[i + 1].users[0], run[k].users[0]) && IsSuperuser(run[k])
    {
      UserStays(run, events, i + 1, k);
    }
  }

  lemma AdminExcludesLater(run: seq<Auth>, events: seq<Event>, i: nat, j: nat)
    requires IsRun(run, events) && i < |events| && events[i] == AdminCreated && j < |events|
    ensures run[i + 1].users != []
    ensures i < j ==> events[j] != AdminCreated
  {
    OneUser(run, events, i);
    assert StepAt(run, events, i);
    StepKeepsUser(run[i], run[i + 1], events[i]);
    if i < j {
      UserStays(run, events, i + 1, j);
      assert StepAt(run, events, j);
      StepKeepsUser(run[j], run[j + 1], events[j]);
    }
  }

  // Tokens stay in place, and a used mark stays as it is.
  ghost predicate TokensKept(a: Auth, a': Auth) {
    |a.tokens| <= |a'.tokens| && forall x :: 0 <= x < |a.tokens| ==>
      && a'.tokens[x].(usedAt := 0) == a.tokens[x].(usedAt := 0)
      && (a.tokens[x].usedAt != 0 ==> a'.tokens[x].usedAt == a.tokens[x].usedAt)
  }

  lemma {:induction false} UsedMarksStay(run: seq<Auth>, events: seq<Event>, i: nat, j: nat)
    requires IsRun(run, events) && i <= j < |run|
    ensures TokensKept(run[i], run[j])
    decreases j
  {
    if i < j {
      UsedMarksStay(run, events, i, j - 1);
      assert StepAt(run, events, j - 1);
      assert TokensKept(run[j - 1], run[j]);
    }
  }

  // A stored token is accepted at most once, and never after it expired.
  lemma TokenAcceptedOnce(run: seq<Auth>, events: seq<Event>, i: nat, j: nat)
    requires IsRun(run, events) && i < |events| && events[i].Accepted?
    requires j < |events| && events[j].Accepted? && events[j].token == events[i].token
    ensures i == j
    ensures events[i].token < |run[i].tokens| && events[i].at <= run[i].tokens[events[i].token].expiresAt
  {
    assert StepAt(run, events, i) && StepAt(run, events, j);
    if i < j { UsedMarksStay(run, events, i + 1, j); }
    if j < i { UsedMarksStay(run, events, j + 1, i); }
  }
}
