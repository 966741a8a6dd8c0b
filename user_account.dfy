/** The decision rules of the user service (backend/app/services/system/user.py):
    the checks of `login`, the password rule of `save_or_update`, the check order
    of `reset_password`, and the row clean-up of the user and login-record
    listings. Store lookups arrive as parameters (`found`); bcrypt hashing and
    verification are the function parameters `hash` and `verify`. */
module Users {
  import opened Base
  import opened Text

  /** A user row as the store hands it over. `password` holds the stored hash;
      `status`, `roles` and `tags` are untyped JSON columns. */
  datatype User = User(
    id: int, username: string, nickname: string, password: string,
    status: Json, userType: int, roles: Json, tags: Json)

  /** A request field Python treats as true: present and non-empty. */
  predicate Provided(s: Option<string>)
  {
    s.Some? && s.value != ""
  }

  // ------------------------------------------------------------------- login

  datatype LoginError = ParamsFail | WrongCredentials | Disabled

  /** `status in [0, False, '0', None]`; in Python `False == 0`, and a missing
      status reads as None. */
  predicate IsDisabledStatus(status: Json)
  {
    status == JInt(0) || status == JBool(false) || status == JStr("0") || status == JNull
  }

  /** The cached session of a successful login. */
  datatype Session = Session(
    id: int, token: string, loginTime: string, username: string, nickname: string,
    roles: Json, tags: Json)

  /** `v if v else []`. */
  function OrEmptyList(v: Json): Json
  {
    if Truthy(v) then v else JList([])
  }

  /** `UserService.login`. In order: both fields empty is a parameter error;
      an unknown name and then (after the status check) a wrong password are
      the same credentials error; a disabled account is refused before its
      password is looked at. `token` and `loginTime` stand for the fresh UUID
      and the clock. */
  function Login(
    username: Option<string>, password: Option<string>, found: Option<User>,
    verify: (Option<string>, string) -> bool, token: string, loginTime: string)
    : (r: Result<Session, LoginError>)
    ensures r == Err(ParamsFail) <==> !Provided(username) && !Provided(password)
    ensures r == Err(Disabled) <==>
      && (Provided(username) || Provided(password))
      && found.Some? && IsDisabledStatus(found.value.status)
    ensures r == Err(WrongCredentials) <==>
      && (Provided(username) || Provided(password))
      && (found.None? || (!IsDisabledStatus(found.value.status) && !verify(password, found.value.password)))
    ensures r.Ok? ==>
      && found.Some? && !IsDisabledStatus(found.value.status) && verify(password, found.value.password)
      && r.value.id == found.value.id && r.value.token == token && r.value.loginTime == loginTime
      && r.value.username == found.value.username && r.value.nickname == found.value.nickname
      && (Truthy(found.value.roles) ==> r.value.roles == found.value.roles)
      && (!Truthy(found.value.roles) ==> r.value.roles == JList([]))
      && (Truthy(found.value.tags) ==> r.value.tags == found.value.tags)
      && (!Truthy(found.value.tags) ==> r.value.tags == JList([]))
  {
    if !Provided(username) && !Provided(password) then Err(ParamsFail)
    else if found.None? then Err(WrongCredentials)
    else
      var u := found.value;
      if IsDisabledStatus(u.status) then Err(Disabled)
      else if !verify(password, u.password) then Err(WrongCredentials)
      else Ok(Session(u.id, token, loginTime, u.username, u.nickname, OrEmptyList(u.roles), OrEmptyList(u.tags)))
  }

  /** The session's roles and tags are never falsy: a missing or empty column
      becomes an empty list, which is the only falsy value left. */
  lemma LoginSessionLists(
    username: Option<string>, password: Option<string>, u: User,
    verify: (Option<string>, string) -> bool, token: string, loginTime: string)
    requires Login(username, password, Some(u), verify, token, loginTime).Ok?
    ensures var s := Login(username, password, Some(u), verify, token, loginTime).value;
      (Truthy(s.roles) || s.roles == JList([])) && (Truthy(s.tags) || s.tags == JList([]))
  {
  }

  // ---------------------------------------------------------- save_or_update

  datatype SaveError = NicknameTaken | UserMissing

  const DefaultPassword: string := "123456"
  const BcryptPrefix: string := "$2b$"

  /** The update path keeps the stored hash for a blank password or one that
      already looks like a bcrypt hash. */
  predicate KeepsStoredHash(password: Option<string>)
  {
    password.None? || IsBlank(password.value) || StartsWith(password.value, BcryptPrefix)
  }

  /** The password value `save_or_update` writes. A new user (id missing or 0)
      is refused when the nickname is taken, and otherwise gets the hash of the
      given password, or of "123456" when none is given. An update of a user
      that does not exist fails (the code subscripts the missing row); a
      changed nickname that another user holds is refused; then a blank or
      "$2b$"-prefixed password keeps the stored hash and any other is hashed.
      `nicknameTaken` answers `User.get_user_by_nickname`. */
  function SavePassword(
    id: Option<int>, nickname: string, password: Option<string>, stored: Option<User>,
    nicknameTaken: string -> bool, hash: string -> string)
    : (r: Result<string, SaveError>)
    ensures (id.None? || id == Some(0)) ==>
      && (nicknameTaken(nickname) <==> r == Err(NicknameTaken))
      && (r.Ok? ==> r.value == hash(if Provided(password) then password.value else DefaultPassword))
    ensures (id.None? || id == Some(0)) && !nicknameTaken(nickname) ==>
      r == Ok(hash(if Provided(password) then password.value else DefaultPassword))
    ensures (id.Some? && id != Some(0)) ==>
      && (stored.None? <==> r == Err(UserMissing))
      && (r == Err(NicknameTaken) <==>
            stored.Some? && stored.value.nickname != nickname && nicknameTaken(nickname))
      && (r.Ok? && KeepsStoredHash(password) ==> r.value == stored.value.password)
      && (r.Ok? && !KeepsStoredHash(password) ==> r.value == hash(password.value))
  {
    if id.None? || id == Some(0) then
      if nicknameTaken(nickname) then Err(NicknameTaken)
      else Ok(hash(if Provided(password) then password.value else DefaultPassword))
    else if stored.None? then Err(UserMissing)
    else
      var u := stored.value;
      if u.nickname != nickname && nicknameTaken(nickname) then Err(NicknameTaken)
      else if password.None? then Ok(u.password)
      else
        var p := password.value;
        StripEmptyIffBlank(p);
        if p != "" && Strip(p) != "" then
          if StartsWith(p, BcryptPrefix) then Ok(u.password) else Ok(hash(p))
        else Ok(u.password)
  }

  /** An edit form that sends back the stored bcrypt hash, or leaves the field
      blank, leaves the password as it was. */
  lemma ResubmittedHashIsKept(
    u: User, nickname: string, password: Option<string>, nicknameTaken: string -> bool, hash: string -> string)
    requires u.id != 0
    requires password == Some(u.password) || password == None || password == Some("")
    requires StartsWith(u.password, BcryptPrefix)
    requires u.nickname == nickname || !nicknameTaken(nickname)
    ensures SavePassword(Some(u.id), nickname, password, Some(u), nicknameTaken, hash) == Ok(u.password)
  {
  }

  /** A white-space-only password is hashed as given for a new user, but keeps
      the stored hash on update. */
  lemma BlankPasswordNewVersusUpdate(
    u: User, nickname: string, nicknameTaken: string -> bool, hash: string -> string)
    requires u.id != 0 && !nicknameTaken(nickname)
    ensures SavePassword(None, nickname, Some(" "), None, nicknameTaken, hash) == Ok(hash(" "))
    ensures SavePassword(Some(u.id), nickname, Some(" "), Some(u), nicknameTaken, hash) == Ok(u.password)
  {
    assert IsBlank(" ");
  }

  // ---------------------------------------------------------- reset_password

  datatype ResetError = Mismatch | NotFound | OldPasswordWrong | SameAsOld

  /** `UserService.reset_password`: the new hash to store, after four checks in
      this order: the two new passwords differ, the user is missing, the old
      password does not verify, the new one verifies against the stored hash. */
  function ResetPassword(
    newPwd: string, reNewPwd: string, oldPwd: string, found: Option<User>,
    verify: (string, string) -> bool, hash: string -> string)
    : (r: Result<string, ResetError>)
    ensures r == Err(Mismatch) <==> newPwd != reNewPwd
    ensures r == Err(NotFound) <==> newPwd == reNewPwd && found.None?
    ensures r == Err(OldPasswordWrong) <==>
      newPwd == reNewPwd && found.Some? && !verify(oldPwd, found.value.password)
    ensures r == Err(SameAsOld) <==>
      && newPwd == reNewPwd && found.Some? && verify(oldPwd, found.value.password)
      && verify(newPwd, found.value.password)
    ensures r.Ok? <==>
      && newPwd == reNewPwd && found.Some? && verify(oldPwd, found.value.password)
      && !verify(newPwd, found.value.password)
    ensures r.Ok? ==> r.value == hash(newPwd)
  {
    if newPwd != reNewPwd then Err(Mismatch)
    else if found.None? then Err(NotFound)
    else if !verify(oldPwd, found.value.password) then Err(OldPasswordWrong)
    else if verify(newPwd, found.value.password) then Err(SameAsOld)
    else Ok(hash(newPwd))
  }

  // ------------------------------------------------------- the user listing

  /** A row of the user listing. */
  datatype UserRow = UserRow(id: int, username: string, roles: Json, tags: Json)

  /** One row of `UserService.list` as written: both `roles` and `tags` are
      read from the row's roles (line 129 reads "roles" into `tags`). */
  function ListedRowAsWritten(row: UserRow): (r: UserRow)
    ensures r.id == row.id && r.username == row.username
    ensures Truthy(row.roles) ==> r.roles == row.roles
    ensures !Truthy(row.roles) ==> r.roles == JList([])
    ensures r.tags == r.roles
  {
    var roles := row.roles;
    var tags := row.roles;
    row.(roles := OrEmptyList(roles), tags := OrEmptyList(tags))
  }

  /** The evidently intended clean-up: a falsy roles or tags column becomes an
      empty list, a truthy one is kept; the other fields are untouched. */
  function ListedRow(row: UserRow): (r: UserRow)
    ensures r.id == row.id && r.username == row.username
    ensures Truthy(row.roles) ==> r.roles == row.roles
    ensures !Truthy(row.roles) ==> r.roles == JList([])
    ensures Truthy(row.tags) ==> r.tags == row.tags
    ensures !Truthy(row.tags) ==> r.tags == JList([])
  {
    row.(roles := OrEmptyList(row.roles), tags := OrEmptyList(row.tags))
  }

  /** A user with roles [1] and tags ["vip"] is listed, as written, with tags
      [1]; the intended clean-up keeps ["vip"]. */
  lemma TagsOverwrittenByRoles()
    ensures var row := UserRow(1, "admin", JList([JInt(1)]), JList([JStr("vip")]));
      && ListedRowAsWritten(row).tags == JList([JInt(1)])
      && ListedRow(row).tags == JList([JStr("vip")])
  {
  }

  /** Cleaning a listed row again changes nothing. */
  lemma ListedRowIdempotent(row: UserRow)
    ensures ListedRow(ListedRow(row)) == ListedRow(row)
  {
  }

  /** The loop of `UserService.list` as written, updating each row of the page
      in place: every listed row ends up with its tags equal to its roles. */
  method ListUserRowsAsWritten(rows: array<UserRow>)
    modifies rows
    ensures forall k :: 0 <= k < rows.Length ==> rows[k] == ListedRowAsWritten(old(rows[k]))
    ensures forall k :: 0 <= k < rows.Length ==> rows[k].tags == rows[k].roles
  {
    for i := 0 to rows.Length
      invariant forall k :: 0 <= k < i ==> rows[k] == ListedRowAsWritten(old(rows[k]))
      invariant forall k :: i <= k < rows.Length ==> rows[k] == old(rows[k])
    {
      rows[i] := ListedRowAsWritten(rows[i]);
    }
  }

  /** The same loop with line 129 corrected to read "tags", the intended
      listing the rest of the model uses. */
  method ListUserRows(rows: array<UserRow>)
    modifies rows
    ensures forall k :: 0 <= k < rows.Length ==> rows[k] == ListedRow(old(rows[k]))
  {
    for i := 0 to rows.Length
      invariant forall k :: 0 <= k < i ==> rows[k] == ListedRow(old(rows[k]))
      invariant forall k :: i <= k < rows.Length ==> rows[k] == old(rows[k])
    {
      rows[i] := ListedRow(rows[i]);
    }
  }

  // ---------------------------------------------- the login-record listing

  /** A row of the login-record listing; `roles` is the comma-separated role
      ids as stored. */
  datatype RecordRow = RecordRow(id: int, code: string, userName: string, loginIp: string, roles: Json)

  /** `int(x)` failing is a ValueError; `.split` on a value that is not a
      string is an AttributeError. */
  datatype RolesError = ValueError | AttributeError

  /** `list(map(int, pieces))`: every piece parsed, or the first failure. */
  function ParseInts(pieces: seq<string>): (r: Option<seq<int>>)
    ensures r.Some? <==> forall i :: 0 <= i < |pieces| ==> ParseInt(pieces[i]).Some?
    ensures r.Some? ==> |r.value| == |pieces|
    ensures r.Some? ==> forall i :: 0 <= i < |pieces| ==> Some(r.value[i]) == ParseInt(pieces[i])
  {
    if pieces == [] then Some([])
    else
      var head := ParseInt(pieces[0]);
      var rest := ParseInts(pieces[1..]);
      if head.None? then None
      else if rest.None? then
        assert !(forall i :: 0 <= i < |pieces| ==> ParseInt(pieces[i]).Some?) by {
          var i :| 0 <= i < |pieces| - 1 && ParseInt(pieces[1..][i]).None?;
          assert pieces[1..][i] == pieces[i + 1];
        }
        None
      else Some([head.value] + rest.value)
  }

  function IntList(xs: seq<int>): (r: seq<Json>)
    ensures |r| == |xs| && forall i :: 0 <= i < |xs| ==> r[i] == JInt(xs[i])
  {
    if xs == [] then [] else [JInt(xs[0])] + IntList(xs[1..])
  }

  /** The new value of a record's roles: a falsy value becomes [], a string
      becomes its comma-separated pieces as integers, and anything else fails. */
  function ParsedRoles(roles: Json): (r: Result<Json, RolesError>)
    ensures !Truthy(roles) ==> r == Ok(JList([]))
    ensures Truthy(roles) && !roles.JStr? ==> r == Err(AttributeError)
    ensures roles.JStr? && roles.s != "" ==>
      (r.Ok? <==> forall i :: 0 <= i < |Split(roles.s, ',')| ==> ParseInt(Split(roles.s, ',')[i]).Some?)
    ensures r.Ok? ==> r.value.JList? && forall i :: 0 <= i < |r.value.items| ==> r.value.items[i].JInt?
    ensures r.Ok? && roles.JStr? && roles.s != "" ==>
      && |r.value.items| == |Split(roles.s, ',')|
      && forall i :: 0 <= i < |r.value.items| ==> Some(r.value.items[i].i) == ParseInt(Split(roles.s, ',')[i])
  {
    if !Truthy(roles) then Ok(JList([]))
    else if !roles.JStr? then Err(AttributeError)
    else match ParseInts(Split(roles.s, ','))
      case None => Err(ValueError)
      case Some(ids) => Ok(JList(IntList(ids)))
  }

  /** Roles written as the decimal ids joined by ',' are read back as those ids. */
  lemma ParsedRolesOfJoin(ids: seq<nat>)
    requires |ids| >= 1
    ensures ParsedRoles(JStr(Join(Decimals(ids), ','))) == Ok(JList(IntList(ids)))
  {
    var pieces := Decimals(ids);
    DecimalsSplit(ids);
    JoinNonEmpty(pieces, ',');
    ParseIntsOfDecimals(ids);
  }

  /** The joined decimals split back into the decimals. */
  lemma DecimalsSplit(ids: seq<nat>)
    requires |ids| >= 1
    ensures Split(Join(Decimals(ids), ','), ',') == Decimals(ids)
  {
    var pieces := Decimals(ids);
    forall i | 0 <= i < |pieces| ensures ',' !in pieces[i] {
      NoCommaInDecimal(ids[i]);
    }
    SplitJoin(pieces, ',');
  }

  /** Every decimal parses back to its id. */
  lemma ParseIntsOfDecimals(ids: seq<nat>)
    ensures ParseInts(Decimals(ids)) == Some(ids)
  {
    var pieces := Decimals(ids);
    forall i | 0 <= i < |pieces| ensures ParseInt(pieces[i]) == Some(ids[i] as int) {
      ParseIntOfNat(ids[i]);
    }
    var parsed := ParseInts(pieces);
    assert parsed.value == ids;
  }

  /** `[str(n) for n in ids]`. */
  function Decimals(ids: seq<nat>): (r: seq<string>)
    ensures |r| == |ids| && forall i :: 0 <= i < |ids| ==> r[i] == NatToString(ids[i])
  {
    if ids == [] then [] else [NatToString(ids[0])] + Decimals(ids[1..])
  }

  lemma NoCommaInDecimal(n: nat)
    ensures ',' !in NatToString(n)
  {
    var s := NatToString(n);
    assert forall i :: 0 <= i < |s| ==> s[i] != ',';
  }

  lemma {:induction false} JoinNonEmpty(pieces: seq<string>, c: char)
    requires |pieces| >= 1 && pieces[0] != ""
    ensures Join(pieces, c) != ""
  {
    if |pieces| > 1 {
      assert |Join(pieces, c)| >= |pieces[0]|;
    }
  }

  /** A record row rewritten by the listing: its roles parsed, nothing else changed. */
  predicate Rewritten(before: RecordRow, after: RecordRow)
  {
    ParsedRoles(before.roles).Ok? && after == before.(roles := ParsedRoles(before.roles).value)
  }

  /** The loop of `LoginRecordService.list`, rewriting each row's roles in
      place. A row whose roles cannot be parsed raises: the rows before it are
      already rewritten and it and the rows after it are untouched. */
  method ListRecordRows(rows: array<RecordRow>) returns (r: Result<(), RolesError>)
    modifies rows
    ensures r.Ok? ==> forall k :: 0 <= k < rows.Length ==> Rewritten(old(rows[k]), rows[k])
    ensures r.Err? ==> exists e :: (
      && 0 <= e < rows.Length && ParsedRoles(old(rows[e].roles)) == Err(r.error)
      && (forall k :: 0 <= k < e ==> Rewritten(old(rows[k]), rows[k]))
      && (forall k :: e <= k < rows.Length ==> rows[k] == old(rows[k])))
  {
    var i := 0;
    while i < rows.Length
      invariant 0 <= i <= rows.Length
      invariant forall k :: 0 <= k < i ==> Rewritten(old(rows[k]), rows[k])
      invariant forall k :: i <= k < rows.Length ==> rows[k] == old(rows[k])
    {
      var row := rows[i];
      match ParsedRoles(row.roles)
      case Err(e) =>
        return Err(e);
      case Ok(v) =>
        rows[i] := row.(roles := v);
      i := i + 1;
    }
    return Ok(());
  }
}
