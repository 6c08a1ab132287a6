/** The user accounts: four cells of which the first `userCount` are in use. A change
    is made on a copy and taken over only if an enabled administrator remains. */
module UserTable {
  import opened Bytes

  const MAXIMUM_USERS := 4
  const USERNAME_SIZE := 32
  const ADMIN: byte := 1
  const VIEWER: byte := 2
  const PBKDF2_HMAC_SHA256: byte := 1
  const MINIMUM_PBKDF2_ITERATIONS: uint32 := 10000
  const MAXIMUM_PBKDF2_ITERATIONS: uint32 := 2000000
  const UINT32_MAX: uint32 := 0xFFFF_FFFF

  type Username = s: seq<byte> | |s| == 32 witness Fill(32, 0)
  type Salt = s: seq<byte> | |s| == 16 witness Fill(16, 0)
  type Hash = s: seq<byte> | |s| == 32 witness Fill(32, 0)

  datatype UserRecord = UserRecord(
    id: uint32, usernameLength: byte, username: Username, role: byte, enabled: bool, hashAlgorithm: byte,
    pbkdf2Iterations: uint32, salt: Salt, passwordHash: Hash)

  const BLANK := UserRecord(0, 0, Fill(32, 0), 0, false, 0, 0, Fill(16, 0), Fill(32, 0))

  type Users = s: seq<UserRecord> | |s| == 4 witness [BLANK, BLANK, BLANK, BLANK]

  datatype Accounts = Accounts(users: Users, userCount: byte, nextUserId: uint32)

  const DEFAULT_ACCOUNTS := Accounts([BLANK, BLANK, BLANK, BLANK], 0, 1)

  datatype Credential = Credential(algorithm: byte, iterations: uint32, salt: Salt, hash: Hash)

  datatype Status = Ok | InvalidValue | NotFound | UsernameExists | CapacityReached | LastAdminRequired

  // ---------------------------------------------------------------- validators

  predicate UsernameCharacter(c: byte) {
    0x61 <= c <= 0x7A || 0x30 <= c <= 0x39 || c == 0x2E || c == 0x5F || c == 0x2D
  }

  predicate ValidUsername(name: seq<byte>) {
    0 < |name| <= USERNAME_SIZE && forall i :: 0 <= i < |name| ==> UsernameCharacter(name[i])
  }

  predicate ValidRole(role: byte) {
    role == ADMIN || role == VIEWER
  }

  predicate ValidCredential(c: Credential) {
    && c.algorithm == PBKDF2_HMAC_SHA256
    && MINIMUM_PBKDF2_ITERATIONS <= c.iterations <= MAXIMUM_PBKDF2_ITERATIONS
    && !AllZero(c.salt) && !AllZero(c.hash)
  }

  predicate NamedAs(user: UserRecord, name: seq<byte>) {
    user.usernameLength == |name| <= USERNAME_SIZE && user.username[..|name|] == name
  }

  predicate EnabledAdmin(user: UserRecord) {
    user.enabled && user.role == ADMIN
  }

  function Live(a: Accounts): (s: seq<UserRecord>)
    requires a.userCount <= MAXIMUM_USERS
    ensures |s| == a.userCount && forall i :: 0 <= i < |s| ==> s[i] == a.users[i]
  {
    a.users[..a.userCount]
  }

  /** What the storage validator checks of a user in use. */
  predicate ValidUser(user: UserRecord) {
    && user.id != 0 && user.usernameLength <= USERNAME_SIZE
    && ValidUsername(user.username[..user.usernameLength]) && AllZero(user.username[user.usernameLength..])
    && ValidRole(user.role)
    && ValidCredential(Credential(user.hashAlgorithm, user.pbkdf2Iterations, user.salt, user.passwordHash))
  }

  predicate SameName(a: UserRecord, b: UserRecord) {
    a.usernameLength == b.usernameLength <= USERNAME_SIZE && a.username[..a.usernameLength] == b.username[..a.usernameLength]
  }

  predicate Distinct(s: seq<UserRecord>) {
    forall i, j :: 0 <= i < j < |s| ==> s[i].id != s[j].id && !SameName(s[i], s[j])
  }

  predicate HasEnabledAdmin(s: seq<UserRecord>) {
    exists i :: 0 <= i < |s| && EnabledAdmin(s[i])
  }

  /** The storage validator, as far as it concerns users. */
  predicate Valid(a: Accounts) {
    && a.userCount <= MAXIMUM_USERS
    && (forall i :: a.userCount <= i < MAXIMUM_USERS ==> a.users[i] == BLANK)
    && (forall i :: 0 <= i < a.userCount ==> ValidUser(a.users[i]))
    && Distinct(Live(a))
    && (a.userCount != 0 ==> HasEnabledAdmin(Live(a)))
    && (forall i :: 0 <= i < a.userCount ==> a.users[i].id < a.nextUserId)
  }

  // ---------------------------------------------------------------- operations

  function IndexFrom(s: seq<UserRecord>, id: uint32, from: nat): (index: nat)
    requires from <= |s|
    ensures from <= index <= |s| && (index < |s| ==> s[index].id == id)
    ensures forall i :: from <= i < index ==> s[i].id != id
    decreases |s| - from
  {
    if from == |s| || s[from].id == id then from else IndexFrom(s, id, from + 1)
  }

  predicate NameTaken(s: seq<UserRecord>, name: seq<byte>, except: uint32) {
    exists i :: 0 <= i < |s| && s[i].id != except && NamedAs(s[i], name)
  }

  function WithCredential(user: UserRecord, c: Credential): UserRecord {
    user.(hashAlgorithm := c.algorithm, pbkdf2Iterations := c.iterations, salt := c.salt, passwordHash := c.hash)
  }

  /** Only the name's own bytes are written; the rest is what the cell holds. */
  function NewUser(cell: UserRecord, id: uint32, name: seq<byte>, role: byte, enabled: bool, c: Credential): UserRecord
    requires |name| <= USERNAME_SIZE
  {
    WithCredential(
      cell.(id := id, usernameLength := |name|, username := name + cell.username[|name|..], role := role,
            enabled := enabled), c)
  }

  function Changed(
    user: UserRecord, name: seq<byte>, role: byte, enabled: bool, c: seq<Credential>): UserRecord
    requires |name| <= USERNAME_SIZE && |c| <= 1
  {
    var renamed := user.(
      username := name + Fill(USERNAME_SIZE - |name|, 0), usernameLength := |name|, role := role, enabled := enabled);
    if |c| == 1 then WithCredential(renamed, c[0]) else renamed
  }

  function Create(a: Accounts, name: seq<byte>, role: byte, enabled: bool, c: Credential)
    : (r: (Status, uint32, Accounts))
    requires a.userCount <= MAXIMUM_USERS
  {
    if !ValidUsername(name) || !ValidRole(role) || !ValidCredential(c) then (InvalidValue, 0, a)
    else if a.userCount >= MAXIMUM_USERS || a.nextUserId == UINT32_MAX then (CapacityReached, 0, a)
    else if NameTaken(Live(a), name, 0) then (UsernameExists, 0, a)
    else
      var id: uint32 := if a.nextUserId == 0 then 1 else a.nextUserId;
      var candidate := Accounts(
        a.users[a.userCount := NewUser(a.users[a.userCount], id, name, role, enabled, c)], a.userCount + 1, id + 1);
      if !HasEnabledAdmin(Live(candidate)) then (LastAdminRequired, 0, a) else (Ok, id, candidate)
  }

  /** `c` is empty when the password stays. */
  function Update(a: Accounts, id: uint32, name: seq<byte>, role: byte, enabled: bool, c: seq<Credential>)
    : (r: (Status, Accounts))
    requires a.userCount <= MAXIMUM_USERS && |c| <= 1
  {
    if !ValidUsername(name) || !ValidRole(role) || (|c| == 1 && !ValidCredential(c[0])) then (InvalidValue, a)
    else
      var index := IndexFrom(Live(a), id, 0);
      if index == a.userCount then (NotFound, a)
      else if NameTaken(Live(a), name, id) then (UsernameExists, a)
      else
        var candidate := a.(users := a.users[index := Changed(a.users[index], name, role, enabled, c)]);
        if !HasEnabledAdmin(Live(candidate)) then (LastAdminRequired, a) else (Ok, candidate)
  }

  function Without(users: Users, count: nat, index: nat): (r: Users)
    requires index < count <= MAXIMUM_USERS
    ensures forall i :: 0 <= i < 4 ==>
              r[i] == if i < index then users[i] else if i < count - 1 then users[i + 1]
                      else if i == count - 1 then BLANK else users[i]
  {
    users[..index] + users[index + 1..count] + [BLANK] + users[count..]
  }

  function Remove(a: Accounts, id: uint32): (r: (Status, Accounts))
    requires a.userCount <= MAXIMUM_USERS
  {
    var index := IndexFrom(Live(a), id, 0);
    if index == a.userCount then (NotFound, a)
    else
      var candidate := a.(users := Without(a.users, a.userCount, index), userCount := a.userCount - 1);
      if !HasEnabledAdmin(Live(candidate)) then (LastAdminRequired, a) else (Ok, candidate)
  }

  // ---------------------------------------------------------------- what they keep

  lemma CreatedUserValid(id: uint32, name: seq<byte>, role: byte, enabled: bool, c: Credential)
    requires ValidUsername(name) && ValidRole(role) && ValidCredential(c) && id != 0
    ensures ValidUser(NewUser(BLANK, id, name, role, enabled, c)) && NamedAs(NewUser(BLANK, id, name, role, enabled, c), name)
  {
    var user := NewUser(BLANK, id, name, role, enabled, c);
    assert user.username[..|name|] == name;
    assert user.username[|name|..] == BLANK.username[|name|..];
  }

  lemma ChangedUserValid(user: UserRecord, name: seq<byte>, role: byte, enabled: bool, c: seq<Credential>)
    requires ValidUser(user) && |c| <= 1
    requires ValidUsername(name) && ValidRole(role) && (|c| == 1 ==> ValidCredential(c[0]))
    ensures
      var after := Changed(user, name, role, enabled, c);
      ValidUser(after) && after.id == user.id && NamedAs(after, name)
  {
    var after := Changed(user, name, role, enabled, c);
    assert after.username[..|name|] == name;
    assert after.username[|name|..] == Fill(USERNAME_SIZE - |name|, 0);
  }

  /** A created user gets an ID above every earlier one; creation is refused exactly for
      an invalid value, a full table or exhausted IDs, a taken name, or a table that
      would be left without an enabled administrator. */
  lemma CreateKeepsValid(a: Accounts, name: seq<byte>, role: byte, enabled: bool, c: Credential)
    requires Valid(a)
    ensures
      var (status, id, after) := Create(a, name, role, enabled, c);
      && Valid(after)
      && (status != Ok ==> after == a && id == 0)
      && (status == Ok ==>
            && id != 0 && id >= a.nextUserId && after.nextUserId == id + 1 && after.userCount == a.userCount + 1
            && Live(after)[..a.userCount] == Live(a)
            && |name| <= USERNAME_SIZE
            && after.users[a.userCount] == UserRecord(
                 id, |name|, name + Fill(USERNAME_SIZE - |name|, 0), role, enabled, c.algorithm, c.iterations, c.salt, c.hash))
      && (status == LastAdminRequired <==>
            && ValidUsername(name) && ValidRole(role) && ValidCredential(c)
            && a.userCount == 0 && a.nextUserId != UINT32_MAX && !(enabled && role == ADMIN))
  {
    hide ValidUser, ValidUsername, ValidCredential, NewUser, Distinct, NameTaken;
    if ValidUsername(name) && ValidRole(role) && ValidCredential(c) && a.userCount < MAXIMUM_USERS &&
       a.nextUserId != UINT32_MAX && !NameTaken(Live(a), name, 0)
    {
      var id: uint32 := if a.nextUserId == 0 then 1 else a.nextUserId;
      NameFits(name);
      var user := NewUser(a.users[a.userCount], id, name, role, enabled, c);
      CreatedUserValid(id, name, role, enabled, c);
      NewUserFields(a.users[a.userCount], id, name, role, enabled, c);
      var candidate := Accounts(a.users[a.userCount := user], a.userCount + 1, id + 1);
      assert Live(candidate) == Live(a) + [user];
      AppendDistinct(a, user, name);
      AppendAdmin(Live(a), user);
    }
    if a.userCount == 0 {
      assert !NameTaken([], name, 0) by { NobodyTaken(name); }
      assert Live(a) == [];
    }
  }

  lemma NobodyTaken(name: seq<byte>)
    ensures !NameTaken([], name, 0)
  {
  }

  lemma AppendDistinct(a: Accounts, user: UserRecord, name: seq<byte>)
    requires Valid(a) && NamedAs(user, name) && !NameTaken(Live(a), name, 0)
    requires user.id >= a.nextUserId
    ensures Distinct(Live(a) + [user])
  {
    hide ValidUsername, ValidCredential, NamedAs, SameName, HasEnabledAdmin;
    forall i | 0 <= i < a.userCount
      ensures a.users[i].id != user.id && !SameName(a.users[i], user)
    {
      assert !NamedAs(Live(a)[i], name) by { assert ValidUser(a.users[i]); }
      NamedSame(a.users[i], user, name);
    }
  }

  lemma AppendAdmin(s: seq<UserRecord>, user: UserRecord)
    ensures HasEnabledAdmin(s + [user]) <==> HasEnabledAdmin(s) || EnabledAdmin(user)
  {
    var t := s + [user];
    assert t[|s|] == user && forall i :: 0 <= i < |s| ==> t[i] == s[i];
  }

  lemma NameFits(name: seq<byte>)
    requires ValidUsername(name)
    ensures 0 < |name| <= USERNAME_SIZE
  {
  }

  lemma NewUserFields(cell: UserRecord, id: uint32, name: seq<byte>, role: byte, enabled: bool, c: Credential)
    requires |name| <= USERNAME_SIZE
    ensures
      var user := NewUser(cell, id, name, role, enabled, c);
      && user.id == id && user.role == role && user.enabled == enabled
      && (cell == BLANK ==> user == UserRecord(
            id, |name|, name + Fill(USERNAME_SIZE - |name|, 0), role, enabled, c.algorithm, c.iterations, c.salt, c.hash))
  {
    if cell == BLANK {
      assert cell.username[|name|..] == Fill(USERNAME_SIZE - |name|, 0);
    }
  }

  lemma NamedSame(a: UserRecord, b: UserRecord, name: seq<byte>)
    requires NamedAs(b, name)
    ensures SameName(a, b) <==> NamedAs(a, name)
  {
  }

  /** A user after an update: everything but the ID, and the password only if given. */
  function Edited(user: UserRecord, name: seq<byte>, role: byte, enabled: bool, c: seq<Credential>): UserRecord
    requires |name| <= USERNAME_SIZE && |c| <= 1
  {
    UserRecord(
      user.id, |name|, name + Fill(USERNAME_SIZE - |name|, 0), role, enabled,
      if |c| == 1 then c[0].algorithm else user.hashAlgorithm,
      if |c| == 1 then c[0].iterations else user.pbkdf2Iterations,
      if |c| == 1 then c[0].salt else user.salt,
      if |c| == 1 then c[0].hash else user.passwordHash)
  }

  lemma UpdateKeepsValid(a: Accounts, id: uint32, name: seq<byte>, role: byte, enabled: bool, c: seq<Credential>)
    requires Valid(a) && |c| <= 1
    ensures
      var (status, after) := Update(a, id, name, role, enabled, c);
      && Valid(after) && after.userCount == a.userCount && after.nextUserId == a.nextUserId
      && (status != Ok ==> after == a)
      && (forall i :: 0 <= i < a.userCount ==> after.users[i].id == a.users[i].id)
      && (forall i :: 0 <= i < a.userCount && a.users[i].id != id ==> after.users[i] == a.users[i])
      && (status == Ok ==>
            && |name| <= USERNAME_SIZE
            && forall i :: 0 <= i < a.userCount && a.users[i].id == id ==>
                 after.users[i] == Edited(a.users[i], name, role, enabled, c))
      && (status == NotFound ==> forall i :: 0 <= i < a.userCount ==> a.users[i].id != id)
  {
    hide ValidUser, ValidUsername, ValidCredential, Changed, IndexFrom, Distinct, NameTaken, HasEnabledAdmin;
    var index := IndexFrom(Live(a), id, 0);
    var (status, after) := Update(a, id, name, role, enabled, c);
    if status == Ok {
      NameFits(name);
      var user := Changed(a.users[index], name, role, enabled, c);
      ChangedUserValid(a.users[index], name, role, enabled, c);
      assert Live(a)[index].id == id;
      assert Live(after) == Live(a)[index := user];
      ReplaceDistinct(a, index, user, name);
      ChangedFields(a.users[index], name, role, enabled, c);
      forall i | 0 <= i < a.userCount && a.users[i].id == id
        ensures i == index
      {
        if i != index { OtherId(Live(a), i, index); }
      }
    }
  }

  lemma ReplaceDistinct(a: Accounts, index: nat, user: UserRecord, name: seq<byte>)
    requires Valid(a) && index < a.userCount as int && user.id == a.users[index].id
    requires NamedAs(user, name) && !NameTaken(Live(a), name, user.id)
    ensures Distinct(Live(a)[index := user])
  {
    hide ValidUser, NamedAs, SameName, HasEnabledAdmin;
    forall i | 0 <= i < a.userCount && i != index
      ensures a.users[i].id != user.id && !SameName(a.users[i], user) && !SameName(user, a.users[i])
    {
      OtherId(Live(a), i, index);
      assert !NamedAs(Live(a)[i], name);
      NamedSame(a.users[i], user, name);
      SameNameSymmetric(a.users[i], user);
    }
  }

  lemma OtherId(s: seq<UserRecord>, i: nat, j: nat)
    requires Distinct(s) && i < |s| && j < |s| && i != j
    ensures s[i].id != s[j].id && !SameName(s[i], s[j])
  {
    SameNameSymmetric(s[i], s[j]);
    assert i < j || j < i;
  }

  lemma SameNameSymmetric(a: UserRecord, b: UserRecord)
    ensures SameName(a, b) <==> SameName(b, a)
  {
  }

  lemma RemoveKeepsValid(a: Accounts, id: uint32)
    requires Valid(a)
    ensures
      var (status, after) := Remove(a, id);
      && Valid(after) && after.nextUserId == a.nextUserId
      && (status != Ok ==> after == a)
      && (status == Ok ==>
            && after.userCount == a.userCount - 1
            && forall i :: 0 <= i < after.userCount ==> after.users[i].id != id && after.users[i] in Live(a))
  {
    hide ValidUser, IndexFrom, SameName, HasEnabledAdmin, Distinct;
    var index := IndexFrom(Live(a), id, 0);
    var (status, after) := Remove(a, id);
    if status == Ok {
      assert Live(a)[index].id == id;
      assert forall i :: 0 <= i < after.userCount ==> after.users[i] == Live(a)[if i < index then i else i + 1];
      RemainDistinct(Live(a), Live(after), index);
    }
  }

  lemma RemainDistinct(s: seq<UserRecord>, rest: seq<UserRecord>, index: nat)
    requires Distinct(s) && index < |s| == |rest| + 1
    requires forall i :: 0 <= i < |rest| ==> rest[i] == s[if i < index then i else i + 1]
    ensures Distinct(rest) && forall i :: 0 <= i < |rest| ==> rest[i].id != s[index].id
  {
    hide SameName;
    forall i | 0 <= i < |rest|
      ensures rest[i].id != s[index].id
    {
      OtherId(s, if i < index then i else i + 1, index);
    }
    forall i, j | 0 <= i < j < |rest|
      ensures rest[i].id != rest[j].id && !SameName(rest[i], rest[j])
    {
      OtherId(s, if i < index then i else i + 1, if j < index then j else j + 1);
    }
  }

  /** Whether another user is an enabled administrator. */
  predicate OtherAdmin(a: Accounts, id: uint32)
    requires a.userCount <= MAXIMUM_USERS
  {
    exists i :: 0 <= i < a.userCount && a.users[i].id != id && EnabledAdmin(a.users[i])
  }

  lemma IndexOnly(a: Accounts, id: uint32)
    requires Valid(a) && IndexFrom(Live(a), id, 0) < a.userCount
    ensures
      var index := IndexFrom(Live(a), id, 0);
      a.users[index].id == id && forall i :: 0 <= i < a.userCount && i != index ==> a.users[i].id != id
  {
    hide ValidUser, IndexFrom, SameName, HasEnabledAdmin;
    var index := IndexFrom(Live(a), id, 0);
    forall i | 0 <= i < a.userCount && i != index
      ensures a.users[i].id != id
    {
      OtherId(Live(a), i, index);
    }
  }

  /** A removal is refused for the administrator rule exactly when no other user is an
      enabled administrator. */
  lemma RemovalKeepsAdmin(a: Accounts, id: uint32)
    requires Valid(a) && IndexFrom(Live(a), id, 0) < a.userCount
    ensures Remove(a, id).0 == LastAdminRequired <==> !OtherAdmin(a, id)
  {
    IndexOnly(a, id);
    CountFits(a);
    hide Valid, IndexFrom, EnabledAdmin, HasEnabledAdmin;
    RestAdmins(a, IndexFrom(Live(a), id, 0));
  }

  lemma RestAdmins(a: Accounts, index: nat)
    requires index < a.userCount as int <= MAXIMUM_USERS
    ensures
      var rest := a.(users := Without(a.users, a.userCount, index), userCount := a.userCount - 1);
      HasEnabledAdmin(Live(rest)) <==> exists i :: 0 <= i < a.userCount && i != index && EnabledAdmin(a.users[i])
  {
    hide EnabledAdmin;
    var rest := a.(users := Without(a.users, a.userCount, index), userCount := a.userCount - 1);
    forall i | 0 <= i < a.userCount && i != index && EnabledAdmin(a.users[i])
      ensures HasEnabledAdmin(Live(rest))
    {
      assert Live(rest)[if i < index then i else i - 1] == a.users[i];
    }
    forall i | 0 <= i < a.userCount - 1 && EnabledAdmin(Live(rest)[i])
      ensures exists k :: 0 <= k < a.userCount && k != index && EnabledAdmin(a.users[k])
    {
      var k := if i < index then i else i + 1;
      assert EnabledAdmin(a.users[k]);
    }
  }

  /** An otherwise valid update is refused for it exactly when no other user is one and
      this one does not remain one. */
  lemma UpdateKeepsAdmin(a: Accounts, id: uint32, name: seq<byte>, role: byte, enabled: bool, c: seq<Credential>)
    requires Valid(a) && |c| <= 1 && IndexFrom(Live(a), id, 0) < a.userCount
    ensures
      Update(a, id, name, role, enabled, c).0 == LastAdminRequired <==>
        && ValidUsername(name) && ValidRole(role) && (|c| == 1 ==> ValidCredential(c[0]))
        && !NameTaken(Live(a), name, id) && !OtherAdmin(a, id) && !(enabled && role == ADMIN)
  {
    IndexOnly(a, id);
    hide Valid, IndexFrom, ValidUsername, ValidCredential, NameTaken;
    var index := IndexFrom(Live(a), id, 0);
    if ValidUsername(name) {
      NameFits(name);
      ChangedFields(a.users[index], name, role, enabled, c);
      var user := Changed(a.users[index], name, role, enabled, c);
      var candidate := a.(users := a.users[index := user]);
      assert Live(candidate)[index] == user;
      assert forall i :: 0 <= i < a.userCount && i != index ==> Live(candidate)[i] == a.users[i];
    }
  }

  lemma ChangedFields(user: UserRecord, name: seq<byte>, role: byte, enabled: bool, c: seq<Credential>)
    requires |name| <= USERNAME_SIZE && |c| <= 1
    ensures
      var after := Changed(user, name, role, enabled, c);
      after == Edited(user, name, role, enabled, c)
  {
  }

  // ---------------------------------------------------------------- every answer

  /** Another user has the name. */
  predicate NameInUse(a: Accounts, name: seq<byte>, except: uint32)
    requires a.userCount <= MAXIMUM_USERS
  {
    exists i :: 0 <= i < a.userCount && a.users[i].id != except && NamedAs(a.users[i], name)
  }

  predicate HasUser(a: Accounts, id: uint32)
    requires a.userCount <= MAXIMUM_USERS
  {
    exists i :: 0 <= i < a.userCount && a.users[i].id == id
  }

  lemma TakenInUse(a: Accounts, name: seq<byte>, except: uint32)
    requires a.userCount <= MAXIMUM_USERS
    ensures NameTaken(Live(a), name, except) <==> NameInUse(a, name, except)
  {
    hide NamedAs;
    if NameInUse(a, name, except) {
      var i :| 0 <= i < a.userCount && a.users[i].id != except && NamedAs(a.users[i], name);
      assert Live(a)[i] == a.users[i];
    }
  }

  lemma FoundUser(a: Accounts, id: uint32)
    requires a.userCount <= MAXIMUM_USERS
    ensures IndexFrom(Live(a), id, 0) < a.userCount <==> HasUser(a, id)
  {
    hide IndexFrom;
    if HasUser(a, id) {
      var i :| 0 <= i < a.userCount && a.users[i].id == id;
      assert Live(a)[i].id == id;
    }
  }

  /** Every answer to a creation, in the order they are given; a creation none of whose
      refusals applies is made. */
  lemma CreateAnswers(a: Accounts, name: seq<byte>, role: byte, enabled: bool, c: Credential)
    requires Valid(a)
    ensures a.userCount <= MAXIMUM_USERS
    ensures
      var status := Create(a, name, role, enabled, c).0;
      var valid := ValidUsername(name) && (role == ADMIN || role == VIEWER) && ValidCredential(c);
      var room := a.userCount < MAXIMUM_USERS && a.nextUserId != UINT32_MAX;
      && (status == InvalidValue <==> !valid)
      && (status == CapacityReached <==> valid && !room)
      && (status == UsernameExists <==> valid && room && NameInUse(a, name, 0))
      && (status == LastAdminRequired <==> valid && room && a.userCount == 0 && !(enabled && role == ADMIN))
      && status != NotFound
  {
    CreateKeepsValid(a, name, role, enabled, c);
    CountFits(a);
    TakenInUse(a, name, 0);
    hide Valid, ValidUsername, ValidCredential, NameTaken, HasEnabledAdmin, NewUser;
  }

  /** Every answer to an update. */
  lemma UpdateAnswers(a: Accounts, id: uint32, name: seq<byte>, role: byte, enabled: bool, c: seq<Credential>)
    requires Valid(a) && |c| <= 1
    ensures a.userCount <= MAXIMUM_USERS
    ensures
      var status := Update(a, id, name, role, enabled, c).0;
      var valid := ValidUsername(name) && (role == ADMIN || role == VIEWER) && (|c| == 1 ==> ValidCredential(c[0]));
      && (status == InvalidValue <==> !valid)
      && (status == NotFound <==> valid && !HasUser(a, id))
      && (status == UsernameExists <==> valid && HasUser(a, id) && NameInUse(a, name, id))
      && (status == LastAdminRequired <==>
            valid && HasUser(a, id) && !NameInUse(a, name, id) && !OtherAdmin(a, id) && !(enabled && role == ADMIN))
      && status != CapacityReached
  {
    CountFits(a);
    TakenInUse(a, name, id);
    FoundUser(a, id);
    if HasUser(a, id) {
      UpdateKeepsAdmin(a, id, name, role, enabled, c);
    }
    hide Valid, ValidUsername, ValidCredential, NameTaken, HasEnabledAdmin, Changed, IndexFrom;
  }

  /** Every answer to a removal; what remains keeps its order. */
  lemma RemoveAnswers(a: Accounts, id: uint32)
    requires Valid(a)
    ensures a.userCount <= MAXIMUM_USERS
    ensures
      var (status, after) := Remove(a, id);
      && (status == NotFound <==> !HasUser(a, id))
      && (status == LastAdminRequired <==> HasUser(a, id) && !OtherAdmin(a, id))
      && (status == Ok <==> HasUser(a, id) && OtherAdmin(a, id))
      && (status == Ok ==> exists index :: 0 <= index < a.userCount && a.users[index].id == id && ClosedUp(a, after, index))
  {
    hide Valid, HasEnabledAdmin, IndexFrom, OtherAdmin, ClosedUp;
    CountFits(a);
    FoundUser(a, id);
    if Remove(a, id).0 == Ok {
      RemovedCloses(a, id);
    }
    if HasUser(a, id) {
      RemovalKeepsAdmin(a, id);
    }
  }

  lemma RemovedCloses(a: Accounts, id: uint32)
    requires a.userCount <= MAXIMUM_USERS && Remove(a, id).0 == Ok
    ensures exists index :: 0 <= index < a.userCount && a.users[index].id == id && ClosedUp(a, Remove(a, id).1, index)
  {
    hide HasEnabledAdmin, IndexFrom;
    var index := IndexFrom(Live(a), id, 0);
    assert Live(a)[index].id == id;
    assert ClosedUp(a, Remove(a, id).1, index);
  }

  /** The users behind `index` have moved up by one. */
  predicate ClosedUp(a: Accounts, after: Accounts, index: nat)
    requires index < a.userCount as int <= MAXIMUM_USERS
  {
    after.userCount == a.userCount - 1 &&
    forall i :: 0 <= i < after.userCount ==> after.users[i] == a.users[if i < index then i else i + 1]
  }

  // ---------------------------------------------------------------- whole runs

  datatype Op =
    | DoCreate(name: seq<byte>, role: byte, enabled: bool, credential: Credential)
    | DoUpdate(id: uint32, name: seq<byte>, role: byte, enabled: bool, credentials: seq<Credential>)
    | DoRemove(id: uint32)

  function Perform(a: Accounts, op: Op): (after: Accounts)
    requires a.userCount <= MAXIMUM_USERS
    ensures after.userCount <= MAXIMUM_USERS
  {
    match op
    case DoCreate(name, role, enabled, credential) => Create(a, name, role, enabled, credential).2
    case DoUpdate(id, name, role, enabled, credentials) =>
      if |credentials| <= 1 then Update(a, id, name, role, enabled, credentials).1 else a
    case DoRemove(id) => Remove(a, id).1
  }

  function Run(a: Accounts, ops: seq<Op>): (after: Accounts)
    requires a.userCount <= MAXIMUM_USERS
    ensures after.userCount <= MAXIMUM_USERS
  {
    if ops == [] then a else Perform(Run(a, ops[..|ops| - 1]), ops[|ops| - 1])
  }

  /** The ID an operation hands out, if any. */
  function NewIds(a: Accounts, op: Op): seq<uint32>
    requires a.userCount <= MAXIMUM_USERS
  {
    if op.DoCreate? && Create(a, op.name, op.role, op.enabled, op.credential).0 == Ok
    then [Create(a, op.name, op.role, op.enabled, op.credential).1] else []
  }

  /** The IDs a run hands out, in order. */
  function Created(a: Accounts, ops: seq<Op>): seq<uint32>
    requires a.userCount <= MAXIMUM_USERS
  {
    if ops == [] then []
    else Created(a, ops[..|ops| - 1]) + NewIds(Run(a, ops[..|ops| - 1]), ops[|ops| - 1])
  }

  lemma PerformKeepsValid(a: Accounts, op: Op)
    requires Valid(a)
    ensures Valid(Perform(a, op)) && a.nextUserId <= Perform(a, op).nextUserId
  {
    hide Valid, Create, Update, Remove;
    match op {
      case DoCreate(name, role, enabled, credential) => CreateKeepsValid(a, name, role, enabled, credential);
      case DoUpdate(id, name, role, enabled, credentials) =>
        if |credentials| <= 1 {
          UpdateKeepsValid(a, id, name, role, enabled, credentials);
        }
      case DoRemove(id) => RemoveKeepsValid(a, id);
    }
  }

  lemma CountFits(a: Accounts)
    requires Valid(a)
    ensures a.userCount <= MAXIMUM_USERS
  {
  }

  /** Strictly increasing, and all in [low, high). */
  predicate Increasing(ids: seq<uint32>, low: int, high: int) {
    && (forall k :: 0 <= k < |ids| ==> low <= ids[k] < high)
    && forall k, l :: 0 <= k < l < |ids| ==> ids[k] < ids[l]
  }

  lemma IncreasingAppend(ids: seq<uint32>, more: seq<uint32>, low: int, middle: int, high: int)
    requires Increasing(ids, low, middle) && low <= middle <= high
    requires |more| <= 1 && forall id :: id in more ==> middle <= id < high
    ensures Increasing(ids + more, low, high)
  {
    if |more| == 1 {
      assert more[0] in more;
      assert ids + more == ids + [more[0]];
    } else {
      assert ids + more == ids;
    }
  }

  /** Over any run from a valid table, the table stays valid and no user ID is handed out
      twice, nor one that a user had at the start. */
  lemma {:induction false} IdsAreNeverReused(a: Accounts, ops: seq<Op>)
    requires Valid(a)
    ensures a.userCount <= MAXIMUM_USERS
    ensures Valid(Run(a, ops)) && a.nextUserId <= Run(a, ops).nextUserId
    ensures Increasing(Created(a, ops), a.nextUserId, Run(a, ops).nextUserId)
  {
    CountFits(a);
    if ops == [] {
    } else {
      hide Valid, Perform, NewIds, Increasing;
      var front, last := ops[..|ops| - 1], ops[|ops| - 1];
      IdsAreNeverReused(a, front);
      var before := Run(a, front);
      PerformKeepsValid(before, last);
      NewIdsAreNew(before, last);
      IncreasingAppend(
        Created(a, front), NewIds(before, last), a.nextUserId, before.nextUserId, Perform(before, last).nextUserId);
    }
  }

  lemma NewIdsAreNew(a: Accounts, op: Op)
    requires Valid(a)
    ensures a.userCount <= MAXIMUM_USERS && |NewIds(a, op)| <= 1
    ensures forall id :: id in NewIds(a, op) ==> a.nextUserId <= id < Perform(a, op).nextUserId
  {
    CountFits(a);
    hide Valid, Create;
    if op.DoCreate? {
      CreateKeepsValid(a, op.name, op.role, op.enabled, op.credential);
    }
  }

  lemma DefaultIsValid()
    ensures Valid(DEFAULT_ACCOUNTS)
  {
  }

  // ---------------------------------------------------------------- the table in place

  class Table {
    const users: array<UserRecord>
    var userCount: byte
    var nextUserId: uint32

    ghost predicate Shape()
      reads this
    {
      users.Length == MAXIMUM_USERS && userCount <= MAXIMUM_USERS
    }

    ghost function View(): Accounts
      requires Shape()
      reads this, users
    {
      Accounts(users[..], userCount, nextUserId)
    }

    constructor ()
      ensures Shape() && fresh(users) && View() == DEFAULT_ACCOUNTS
    {
      users := new UserRecord[MAXIMUM_USERS](_ => BLANK);
      userCount, nextUserId := 0, 1;
      new;
      assert users[..] == DEFAULT_ACCOUNTS.users;
    }

    method CopyFrom(other: Table)
      requires users.Length == MAXIMUM_USERS && other.Shape() && other != this && other.users != users
      modifies this, users
      ensures Shape() && View() == other.View()
    {
      for i := 0 to MAXIMUM_USERS
        invariant forall j :: 0 <= j < i ==> users[j] == other.users[j]
      {
        users[i] := other.users[i];
      }
      userCount, nextUserId := other.userCount, other.nextUserId;
      assert users[..] == other.users[..];
    }

    method FindId(id: uint32) returns (index: nat)
      requires Shape()
      ensures index == IndexFrom(users[..userCount], id, 0)
    {
      index := 0;
      while index < userCount as int && users[index].id != id
        invariant index <= userCount as int
        invariant IndexFrom(users[..userCount], id, 0) == IndexFrom(users[..userCount], id, index)
      {
        index := index + 1;
      }
    }

    method NameExists(name: seq<byte>, except: uint32) returns (exists_: bool)
      requires Shape()
      ensures exists_ == NameTaken(users[..userCount], name, except)
    {
      for index := 0 to userCount as int
        invariant forall i :: 0 <= i < index ==> users[i].id == except || !NamedAs(users[i], name)
      {
        if users[index].id != except && NamedAs(users[index], name) {
          assert users[..userCount][index] == users[index];
          return true;
        }
      }
      exists_ := false;
    }

    method AdminRemains() returns (remains: bool)
      requires Shape()
      ensures remains == HasEnabledAdmin(users[..userCount])
    {
      for index := 0 to userCount as int
        invariant forall i :: 0 <= i < index ==> !EnabledAdmin(users[i])
      {
        if EnabledAdmin(users[index]) {
          assert users[..userCount][index] == users[index];
          return true;
        }
      }
      remains := false;
    }

    method Add(name: seq<byte>, role: byte, enabled: bool, credential: Credential)
      returns (status: Status, createdId: uint32)
      requires Shape()
      modifies this, users
      ensures Shape() && (status, createdId, View()) == Create(old(View()), name, role, enabled, credential)
    {
      hide ValidUsername, ValidCredential, NewUser, NameTaken, HasEnabledAdmin;
      createdId := 0;
      if !ValidUsername(name) || !ValidRole(role) || !ValidCredential(credential) {
        return InvalidValue, 0;
      }
      if userCount >= MAXIMUM_USERS || nextUserId == UINT32_MAX {
        return CapacityReached, 0;
      }
      assert Live(View()) == users[..userCount];
      var taken := NameExists(name, 0);
      if taken {
        return UsernameExists, 0;
      }
      NameFits(name);
      var candidate := new Table();
      candidate.CopyFrom(this);
      var id := if candidate.nextUserId == 0 then 1 else candidate.nextUserId;
      candidate.nextUserId := id + 1;
      candidate.users[candidate.userCount] :=
        NewUser(candidate.users[candidate.userCount], id, name, role, enabled, credential);
      candidate.userCount := candidate.userCount + 1;
      assert candidate.View().users == old(View()).users[userCount := candidate.users[userCount]];
      assert Live(candidate.View()) == candidate.users[..candidate.userCount];
      var remains := candidate.AdminRemains();
      if !remains {
        return LastAdminRequired, 0;
      }
      CopyFrom(candidate);
      return Ok, id;
    }

    method Edit(id: uint32, name: seq<byte>, role: byte, enabled: bool, credentials: seq<Credential>)
      returns (status: Status)
      requires Shape() && |credentials| <= 1
      modifies this, users
      ensures Shape() && (status, View()) == Update(old(View()), id, name, role, enabled, credentials)
    {
      hide ValidUsername, ValidCredential, Changed, NameTaken, HasEnabledAdmin, IndexFrom;
      if !ValidUsername(name) || !ValidRole(role) || (|credentials| == 1 && !ValidCredential(credentials[0])) {
        return InvalidValue;
      }
      assert Live(View()) == users[..userCount];
      var index := FindId(id);
      if index == userCount as int {
        return NotFound;
      }
      var taken := NameExists(name, id);
      if taken {
        return UsernameExists;
      }
      NameFits(name);
      var candidate := new Table();
      candidate.CopyFrom(this);
      candidate.users[index] := Changed(candidate.users[index], name, role, enabled, credentials);
      assert candidate.View().users == old(View()).users[index := candidate.users[index]];
      assert Live(candidate.View()) == candidate.users[..candidate.userCount];
      var remains := candidate.AdminRemains();
      if !remains {
        return LastAdminRequired;
      }
      CopyFrom(candidate);
      return Ok;
    }

    method Delete(id: uint32) returns (status: Status)
      requires Shape()
      modifies this, users
      ensures Shape() && (status, View()) == Remove(old(View()), id)
    {
      hide HasEnabledAdmin, IndexFrom;
      assert Live(View()) == users[..userCount];
      var index := FindId(id);
      if index == userCount as int {
        return NotFound;
      }
      var candidate := new Table();
      candidate.CopyFrom(this);
      candidate.EraseAt(index);
      assert Live(candidate.View()) == candidate.users[..candidate.userCount];
      var remains := candidate.AdminRemains();
      if !remains {
        return LastAdminRequired;
      }
      CopyFrom(candidate);
      return Ok;
    }

    method EraseAt(index: nat)
      requires Shape() && index < userCount as int
      modifies this, users
      ensures Shape()
      ensures View() == old(View()).(users := Without(old(View()).users, old(userCount), index), userCount := old(userCount) - 1)
    {
      for move := index + 1 to userCount as int
        invariant userCount == old(userCount) && nextUserId == old(nextUserId)
        invariant forall i :: 0 <= i < index ==> users[i] == old(users[i])
        invariant forall i :: index <= i < move - 1 ==> users[i] == old(users[i + 1])
        invariant forall i :: move - 1 <= i < MAXIMUM_USERS ==> users[i] == old(users[i])
      {
        users[move - 1] := users[move];
      }
      userCount := userCount - 1;
      users[userCount] := BLANK;
      assert users[..] == Without(old(users[..]), old(userCount), index);
    }
  }
}
