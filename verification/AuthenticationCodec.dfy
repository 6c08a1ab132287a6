/** The authentication snapshot: user accounts and API tokens in fixed cells of which
    the unused ones are zero. */
module AuthenticationCodec {
  import opened Bytes
  import opened Options
  import opened Snapshots
  import opened UserTable
  import Utf8
  import Slots = DualSlotStore

  const AUTH_SNAPSHOT_SIZE: uint16 := 1036
  const STORED_USER_SIZE := 92
  const STORED_TOKEN_SIZE := 80
  const USERS_OFFSET := 24
  const TOKENS_OFFSET := 392
  const BODY_SIZE := 1032
  const MAXIMUM_TOKENS := 8
  const KNOWN_TOKEN_SCOPES: uint16 := 1
  const AUTH_MAGIC: Magic := [0x52, 0x53, 0x41, 0x55]

  datatype ApiToken = ApiToken(
    id: uint32, nameLength: byte, name: Username, enabled: bool, scopes: uint16, createdAtUnixMs: uint64, tokenHash: Hash)

  const NO_TOKEN := ApiToken(0, 0, Fill(32, 0), false, 0, 0, Fill(32, 0))

  function NoTokens(n: nat): (s: seq<ApiToken>)
    ensures |s| == n && forall i :: 0 <= i < n ==> s[i] == NO_TOKEN
  {
    seq(n, _ => NO_TOKEN)
  }

  type Tokens = s: seq<ApiToken> | |s| == 8 witness NoTokens(8)

  datatype Authentication = Authentication(accounts: Accounts, tokens: Tokens, tokenCount: byte, nextTokenId: uint32)

  // ---------------------------------------------------------------- validity

  /** One scope is known; no other bit may be set. */
  predicate ValidToken(t: ApiToken) {
    && t.id != 0 && 0 < t.nameLength <= USERNAME_SIZE
    && Utf8.ValidFrom(false, t.name[..t.nameLength], 0) && AllZero(t.name[t.nameLength..])
    && t.scopes == KNOWN_TOKEN_SCOPES && !AllZero(t.tokenHash)
  }

  predicate ValidTokens(a: Authentication) {
    && a.tokenCount <= MAXIMUM_TOKENS
    && (forall i :: a.tokenCount <= i < MAXIMUM_TOKENS ==> a.tokens[i] == NO_TOKEN)
    && (forall i :: 0 <= i < a.tokenCount ==> ValidToken(a.tokens[i]) && a.tokens[i].id < a.nextTokenId)
    && (forall i, j :: 0 <= i < j < a.tokenCount ==> a.tokens[i].id != a.tokens[j].id)
  }

  predicate ValidAuthentication(a: Authentication) {
    Valid(a.accounts) && ValidTokens(a)
  }

  // ---------------------------------------------------------------- records

  function Flag(b: bool): byte {
    if b then 1 else 0
  }

  function EncodeUser(u: UserRecord): (b: seq<byte>)
    ensures |b| == STORED_USER_SIZE
  {
    Write32(u.id) + [u.usernameLength] + u.username + [u.role, Flag(u.enabled), u.hashAlgorithm] +
    Write32(u.pbkdf2Iterations) + u.salt + u.passwordHash
  }

  /** Any other bit in the flag byte is refused. */
  function DecodeUser(b: seq<byte>): Option<UserRecord>
    requires |b| == STORED_USER_SIZE
  {
    if b[38] > 1 then None
    else Some(UserRecord(
        Read32(b[..4]), b[4], b[5..37], b[37], b[38] == 1, b[39], Read32(b[40..44]), b[44..60], b[60..]))
  }

  function EncodeToken(t: ApiToken): (b: seq<byte>)
    ensures |b| == STORED_TOKEN_SIZE
  {
    Write32(t.id) + [t.nameLength] + t.name + [Flag(t.enabled)] + Write16(t.scopes) + Write64(t.createdAtUnixMs) +
    t.tokenHash
  }

  function DecodeToken(b: seq<byte>): Option<ApiToken>
    requires |b| == STORED_TOKEN_SIZE
  {
    if b[37] > 1 then None
    else Some(ApiToken(
        Read32(b[..4]), b[4], b[5..37], b[37] == 1, Read16(b[38..40]), Read64(b[40..48]), b[48..]))
  }

  lemma UserRoundTrip(u: UserRecord)
    ensures DecodeUser(EncodeUser(u)) == Some(u)
  {
    hide Write32, Read32;
    var b := EncodeUser(u);
    assert b[..4] == Write32(u.id) && b[5..37] == u.username && b[40..44] == Write32(u.pbkdf2Iterations);
    assert b[44..60] == u.salt && b[60..] == u.passwordHash;
    ReadWrite32(u.id);
    ReadWrite32(u.pbkdf2Iterations);
  }

  lemma TokenRoundTrip(t: ApiToken)
    ensures DecodeToken(EncodeToken(t)) == Some(t)
  {
    hide Write16, Write32, Write64, Read16, Read32, Read64;
    var b := EncodeToken(t);
    assert b[..4] == Write32(t.id) && b[5..37] == t.name && b[38..40] == Write16(t.scopes);
    assert b[40..48] == Write64(t.createdAtUnixMs) && b[48..] == t.tokenHash;
    ReadWrite16(t.scopes);
    ReadWrite32(t.id);
    ReadWrite64(t.createdAtUnixMs);
  }

  // ---------------------------------------------------------------- regions

  function EncodeUsers(s: seq<UserRecord>): (b: seq<byte>)
    ensures |b| == STORED_USER_SIZE * |s|
  {
    if s == [] then [] else EncodeUsers(s[..|s| - 1]) + EncodeUser(s[|s| - 1])
  }

  function EncodeTokens(s: seq<ApiToken>): (b: seq<byte>)
    ensures |b| == STORED_TOKEN_SIZE * |s|
  {
    if s == [] then [] else EncodeTokens(s[..|s| - 1]) + EncodeToken(s[|s| - 1])
  }

  function UserCell(region: seq<byte>, i: nat): seq<byte>
    requires STORED_USER_SIZE * (i + 1) <= |region|
  {
    region[STORED_USER_SIZE * i..STORED_USER_SIZE * (i + 1)]
  }

  function TokenCell(region: seq<byte>, i: nat): seq<byte>
    requires STORED_TOKEN_SIZE * (i + 1) <= |region|
  {
    region[STORED_TOKEN_SIZE * i..STORED_TOKEN_SIZE * (i + 1)]
  }

  lemma {:induction false} UserAt(s: seq<UserRecord>, i: nat, rest: seq<byte>)
    requires i < |s|
    ensures UserCell(EncodeUsers(s) + rest, i) == EncodeUser(s[i])
  {
    hide EncodeUser;
    var front := s[..|s| - 1];
    if i < |front| {
      UserAt(front, i, EncodeUser(s[|s| - 1]) + rest);
      assert EncodeUsers(s) + rest == EncodeUsers(front) + (EncodeUser(s[|s| - 1]) + rest);
    }
  }

  lemma {:induction false} TokenAt(s: seq<ApiToken>, i: nat, rest: seq<byte>)
    requires i < |s|
    ensures TokenCell(EncodeTokens(s) + rest, i) == EncodeToken(s[i])
  {
    hide EncodeToken;
    var front := s[..|s| - 1];
    if i < |front| {
      TokenAt(front, i, EncodeToken(s[|s| - 1]) + rest);
      assert EncodeTokens(s) + rest == EncodeTokens(front) + (EncodeToken(s[|s| - 1]) + rest);
    }
  }

  function UserRegion(a: Accounts): (b: seq<byte>)
    requires a.userCount <= MAXIMUM_USERS
    ensures |b| == STORED_USER_SIZE * MAXIMUM_USERS
  {
    EncodeUsers(Live(a)) + Fill(STORED_USER_SIZE * (MAXIMUM_USERS - a.userCount), 0)
  }

  function TokenRegion(a: Authentication): (b: seq<byte>)
    requires a.tokenCount <= MAXIMUM_TOKENS
    ensures |b| == STORED_TOKEN_SIZE * MAXIMUM_TOKENS
  {
    EncodeTokens(a.tokens[..a.tokenCount]) + Fill(STORED_TOKEN_SIZE * (MAXIMUM_TOKENS - a.tokenCount), 0)
  }

  /** The users of a region with `count` in use and a zero rest. */
  function StoredUsers(region: seq<byte>, count: nat): Option<Users>
    requires |region| == STORED_USER_SIZE * MAXIMUM_USERS && count <= MAXIMUM_USERS
  {
    if AllZero(region[STORED_USER_SIZE * count..]) &&
       forall i :: 0 <= i < count ==> DecodeUser(UserCell(region, i)).Some?
    then
      Some(seq(MAXIMUM_USERS, i requires 0 <= i < MAXIMUM_USERS =>
        if i < count && DecodeUser(UserCell(region, i)).Some? then DecodeUser(UserCell(region, i)).value else BLANK))
    else None
  }

  function StoredTokens(region: seq<byte>, count: nat): Option<Tokens>
    requires |region| == STORED_TOKEN_SIZE * MAXIMUM_TOKENS && count <= MAXIMUM_TOKENS
  {
    if AllZero(region[STORED_TOKEN_SIZE * count..]) &&
       forall i :: 0 <= i < count ==> DecodeToken(TokenCell(region, i)).Some?
    then
      Some(seq(MAXIMUM_TOKENS, i requires 0 <= i < MAXIMUM_TOKENS =>
        if i < count && DecodeToken(TokenCell(region, i)).Some? then DecodeToken(TokenCell(region, i)).value else NO_TOKEN))
    else None
  }

  /** Unused cells are blank, so what the region does not store is restored too. */
  lemma UsersRead(a: Accounts)
    requires Valid(a)
    ensures StoredUsers(UserRegion(a), a.userCount) == Some(a.users)
  {
    hide ValidUser, Distinct, HasEnabledAdmin, EncodeUser, DecodeUser, EncodeUsers;
    var region, rest := UserRegion(a), Fill(STORED_USER_SIZE * (MAXIMUM_USERS - a.userCount), 0);
    assert region[STORED_USER_SIZE * a.userCount..] == rest;
    forall i | 0 <= i < a.userCount
      ensures DecodeUser(UserCell(region, i)) == Some(a.users[i])
    {
      UserAt(Live(a), i, rest);
      UserRoundTrip(a.users[i]);
    }
    assert StoredUsers(region, a.userCount).value == a.users;
  }

  lemma TokensRead(a: Authentication)
    requires ValidTokens(a)
    ensures StoredTokens(TokenRegion(a), a.tokenCount) == Some(a.tokens)
  {
    hide ValidToken, EncodeToken, DecodeToken, EncodeTokens;
    var live, region := a.tokens[..a.tokenCount], TokenRegion(a);
    var rest := Fill(STORED_TOKEN_SIZE * (MAXIMUM_TOKENS - a.tokenCount), 0);
    assert region[STORED_TOKEN_SIZE * a.tokenCount..] == rest;
    forall i | 0 <= i < a.tokenCount
      ensures DecodeToken(TokenCell(region, i)) == Some(a.tokens[i])
    {
      TokenAt(live, i, rest);
      TokenRoundTrip(live[i]);
    }
    assert StoredTokens(region, a.tokenCount).value == a.tokens;
  }

  // ---------------------------------------------------------------- the snapshot

  function Start(a: Authentication, generation: uint32): (b: seq<byte>)
    ensures |b| == USERS_OFFSET
  {
    Header(AUTH_MAGIC, generation, AUTH_SNAPSHOT_SIZE) + [a.accounts.userCount, a.tokenCount, 0, 0] +
    Write32(a.accounts.nextUserId) + Write32(a.nextTokenId)
  }

  function Body(a: Authentication, generation: uint32): (b: seq<byte>)
    requires a.accounts.userCount <= MAXIMUM_USERS && a.tokenCount <= MAXIMUM_TOKENS
    ensures |b| == BODY_SIZE
  {
    Start(a, generation) + UserRegion(a.accounts) + TokenRegion(a)
  }

  function Encode(a: Authentication, generation: uint32): Option<seq<byte>> {
    if ValidAuthentication(a) then Some(Sealed(Body(a, generation))) else None
  }

  function Decode(data: seq<byte>): Option<(Authentication, uint32)> {
    if |data| != AUTH_SNAPSHOT_SIZE || !ValidHeader(data, AUTH_MAGIC, AUTH_SNAPSHOT_SIZE) || !Intact(data) ||
       data[14] != 0 || data[15] != 0 || data[12] > MAXIMUM_USERS || data[13] > MAXIMUM_TOKENS
    then None
    else
      var users := StoredUsers(data[USERS_OFFSET..TOKENS_OFFSET], data[12]);
      var tokens := StoredTokens(data[TOKENS_OFFSET..BODY_SIZE], data[13]);
      if users.None? || tokens.None? then None
      else
        var a := Authentication(
          Accounts(users.value, data[12], Read32(data[16..20])), tokens.value, data[13], Read32(data[20..24]));
        if ValidAuthentication(a) then Some((a, GenerationOf(data))) else None
  }

  lemma StartRead(a: Authentication, generation: uint32, rest: seq<byte>)
    ensures
      var data := Start(a, generation) + rest;
      && ValidHeader(data, AUTH_MAGIC, AUTH_SNAPSHOT_SIZE) && GenerationOf(data) == generation
      && data[12] == a.accounts.userCount && data[13] == a.tokenCount && data[14] == 0 && data[15] == 0
      && Read32(data[16..20]) == a.accounts.nextUserId && Read32(data[20..24]) == a.nextTokenId
  {
    hide Header, ValidHeader, GenerationOf, Write32, Read32;
    var header := Header(AUTH_MAGIC, generation, AUTH_SNAPSHOT_SIZE);
    var data := Start(a, generation) + rest;
    HeaderRead(AUTH_MAGIC, generation, AUTH_SNAPSHOT_SIZE, data[12..]);
    assert data == header + data[12..];
    assert data[16..20] == Write32(a.accounts.nextUserId) && data[20..24] == Write32(a.nextTokenId);
    ReadWrite32(a.accounts.nextUserId);
    ReadWrite32(a.nextTokenId);
  }

  lemma BodyParts(a: Authentication, generation: uint32, rest: seq<byte>)
    requires a.accounts.userCount <= MAXIMUM_USERS && a.tokenCount <= MAXIMUM_TOKENS
    ensures
      var data := Body(a, generation) + rest;
      && data == Start(a, generation) + data[USERS_OFFSET..]
      && data[USERS_OFFSET..TOKENS_OFFSET] == UserRegion(a.accounts)
      && data[TOKENS_OFFSET..BODY_SIZE] == TokenRegion(a)
  {
    hide Start, UserRegion, TokenRegion;
    var data := Body(a, generation) + rest;
    assert data[..USERS_OFFSET] == Start(a, generation);
  }

  /** Valid accounts and tokens decode to themselves with their generation. */
  lemma SnapshotRoundTrip(a: Authentication, generation: uint32)
    requires ValidAuthentication(a)
    ensures Encode(a, generation).Some? && Decode(Encode(a, generation).value) == Some((a, generation))
  {
    UsersRead(a.accounts);
    TokensRead(a);
    CountFits(a.accounts);
    hide Valid, ValidTokens, Start, Body, UserRegion, TokenRegion, StoredUsers, StoredTokens, ValidHeader, GenerationOf,
         Intact, Sealed, Read32;
    assert a.tokenCount <= MAXIMUM_TOKENS by { TokensFit(a); }
    var body := Body(a, generation);
    SealedIsIntact(body);
    var data := Sealed(body);
    assert data == body + data[BODY_SIZE..];
    BodyParts(a, generation, data[BODY_SIZE..]);
    StartRead(a, generation, data[USERS_OFFSET..]);
  }

  lemma TokensFit(a: Authentication)
    requires ValidTokens(a)
    ensures a.tokenCount <= MAXIMUM_TOKENS
  {
  }

  /** A snapshot with exactly one altered byte, checksum bytes included, is rejected. */
  lemma AlteredByteRejected(data: seq<byte>, i: nat, x: byte)
    requires Decode(data).Some? && i < |data| && x != data[i]
    ensures Decode(data[i := x]).None?
  {
    hide Intact, ValidHeader, ValidAuthentication, StoredUsers, StoredTokens;
    AlteredNotIntact(data, i, x);
  }

  const AUTHENTICATION_CODEC: Slots.Codec<Authentication> :=
    Slots.Codec(Encode, Decode, Authentication(DEFAULT_ACCOUNTS, NoTokens(8), 0, 1))

  /** The authentication codec meets the dual-slot store's one assumption. */
  lemma AuthenticationCodecIsFaithful()
    ensures Slots.Faithful(AUTHENTICATION_CODEC)
  {
    hide Encode, Decode, ValidAuthentication;
    forall a: Authentication, g: uint32 | AUTHENTICATION_CODEC.encode(a, g).Some?
      ensures AUTHENTICATION_CODEC.decode(AUTHENTICATION_CODEC.encode(a, g).value) == Some((a, g))
    {
      EncodesOnlyValid(a, g);
      SnapshotRoundTrip(a, g);
    }
  }

  lemma EncodesOnlyValid(a: Authentication, g: uint32)
    requires Encode(a, g).Some?
    ensures ValidAuthentication(a)
  {
  }

  /** Changing the accounts never endangers the tokens: after any successful or refused
      operation on a stored table the snapshot still encodes and decodes back. */
  lemma OperationsStayStorable(a: Authentication, op: Op, generation: uint32)
    requires ValidAuthentication(a)
    ensures a.accounts.userCount <= MAXIMUM_USERS
    ensures
      var after := a.(accounts := Perform(a.accounts, op));
      Encode(after, generation).Some? && Decode(Encode(after, generation).value) == Some((after, generation))
  {
    CountFits(a.accounts);
    PerformKeepsValid(a.accounts, op);
    hide Valid, Encode, Decode, ValidToken, Perform;
    SnapshotRoundTrip(a.(accounts := Perform(a.accounts, op)), generation);
  }
}
