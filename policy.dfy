/** The access-control policy as values: the module's constants, the entries
    of the role and user tables, what one configuration line contributes,
    the tables a configuration text yields, the current-user lookup and the
    allow/deny decision. The class in RbacLsm runs the same steps as loops
    over the global arrays and is specified by these functions. */
module Policy {
  import opened Wrappers
  import opened CStrings
  import opened Atoui

  const USERS_NMAX := 10
  const ROLES_NMAX := 5
  /** Role names are stored truncated to this many characters. */
  const ROLE_NAME_LEN_MAX := 20
  /** sizeof(ROLE.name), the bound of the name comparison in the users loader. */
  const ROLE_NAME_SIZE := 50
  const PERM_NAME_LEN_MAX := 20
  const PERM_RMDIR_NAME := "RMDIR"
  const PERM_MKDIR_NAME := "MKDIR"
  const PERM_RMDIR_VAL: bv32 := 0x01
  const PERM_MKDIR_VAL: bv32 := 0x02
  /** The Linux errno EACCES: the decision's "deny". 0 is "allow". */
  const EACCES := 13
  /** sizeof(buf) - 1: the most bytes the first read of a file delivers. */
  const CHUNK_MAX := 1023

  /** An entry of roles[]: the (truncated) name and the permission bitmask. */
  datatype Role = Role(name: string, perms: bv32)

  /** An entry of users[]: a uid and the index of its role in roles[];
      get_curr_user reports "no such user" with roleInd -1. */
  datatype User = User(uid: UInt, roleInd: int)

  /** The text a loader parses from a configuration file: the first read of
      at most CHUNK_MAX bytes into a zero-filled buffer, taken as a C string.
      Later reads parse nothing: the line cursor is NULL by then. */
  function FirstChunk(file: string): (chunk: string)
    ensures |chunk| <= CHUNK_MAX && '\0' !in chunk
    ensures chunk <= file
    ensures |file| <= CHUNK_MAX && '\0' !in file ==> chunk == file
    ensures |chunk| < |file| && |chunk| < CHUNK_MAX ==> file[|chunk|] == '\0'
  {
    var buf := Take(file, CHUNK_MAX);
    buf[..Strcspn(buf, '\0')]
  }

  /** The lines of a chunk, as the loaders' strsep(&ptr, "\n") loops yield them. */
  function Lines(chunk: string): seq<string>
  {
    Split(chunk, '\n')
  }

  /** A line cut at its first carriage return. */
  function StripCr(line: string): (l: string)
    ensures l <= line && '\r' !in l
    ensures |l| < |line| ==> line[|l|] == '\r'
  {
    line[..Strcspn(line, '\r')]
  }

  /** A line of either file is a record when, cut at its first '\r', it
      contains '='. Empty lines and lines without '=' are skipped. */
  predicate IsRecord(line: string)
  {
    '=' in StripCr(line)
  }

  /** The text of a record before its first '=' (a role name or a uid). */
  function Key(line: string): (k: string)
    requires IsRecord(line)
    ensures '=' !in k
  {
    var l := StripCr(line);
    l[..Strcspn(l, '=')]
  }

  /** The text of a record after its first '=' (a permission list or a role name). */
  function Value(line: string): string
    requires IsRecord(line)
  {
    var l := StripCr(line);
    l[Strcspn(l, '=') + 1..]
  }

  /** A record line splits back into its two sides around the first '='. */
  lemma RecordParts(line: string)
    requires IsRecord(line)
    ensures StripCr(line) == Key(line) + "=" + Value(line)
  {
  }

  /** Writing a record as key=value and reading it back recovers both
      sides, when the key has no '=' and neither side a '\r'. */
  lemma RecordRoundTrip(k: string, v: string)
    requires '=' !in k && '\r' !in k && '\r' !in v
    ensures IsRecord(k + "=" + v) && Key(k + "=" + v) == k && Value(k + "=" + v) == v
  {
    var line := k + "=" + v;
    assert '\r' !in line;
    assert StripCr(line) == line;
    StrcspnOfJoin(k, '=', v);
    assert line[|k|] == '=';
  }

  /** The bit one permission token grants: strncmp against the known names. */
  function PermValue(tok: string): bv32
  {
    if StrnEq(tok, PERM_RMDIR_NAME, PERM_NAME_LEN_MAX) then PERM_RMDIR_VAL
    else if StrnEq(tok, PERM_MKDIR_NAME, PERM_NAME_LEN_MAX) then PERM_MKDIR_VAL
    else 0
  }

  /** `perms |= ...` over the tokens of a permission list, in order. */
  function PermsOf(toks: seq<string>): bv32
  {
    if toks == [] then 0 else PermValue(toks[0]) | PermsOf(toks[1..])
  }

  /** A permission list grants RMDIR exactly when one of its tokens is
      exactly "RMDIR", MKDIR exactly when one is exactly "MKDIR", and
      nothing else: every other token, the empty one included, is ignored. */
  lemma {:induction false} PermsOfBits(toks: seq<string>)
    ensures PermsOf(toks) & PERM_RMDIR_VAL != 0 <==> PERM_RMDIR_NAME in toks
    ensures PermsOf(toks) & PERM_MKDIR_VAL != 0 <==> PERM_MKDIR_NAME in toks
    ensures PermsOf(toks) <= 3
  {
    if toks != [] {
      var first, tail := toks[0], toks[1..];
      PermsOfBits(tail);
      assert toks == [first] + tail;
      StrnEqExact(first, PERM_RMDIR_NAME, PERM_NAME_LEN_MAX);
      StrnEqExact(first, PERM_MKDIR_NAME, PERM_NAME_LEN_MAX);
    }
  }

  /** One step of the permission loop: the strncmp chain that ORs in the
      bit of a recognised name and ignores any other token. */
  method AddPerm(perms: bv32, permName: string) returns (r: bv32)
    ensures r == perms | PermValue(permName)
  {
    r := perms;
    if StrnEq(permName, PERM_RMDIR_NAME, PERM_NAME_LEN_MAX) {
      r := r | PERM_RMDIR_VAL;
    } else if StrnEq(permName, PERM_MKDIR_NAME, PERM_NAME_LEN_MAX) {
      r := r | PERM_MKDIR_VAL;
    }
  }

  /** The permission loop's accumulator after the tokens `toks`, starting
      from `perms`. */
  function PermsFrom(perms: bv32, toks: seq<string>): bv32
    decreases |toks|
  {
    if toks == [] then perms else PermsFrom(perms | PermValue(toks[0]), toks[1..])
  }

  lemma OrAssoc(a: bv32, b: bv32, c: bv32)
    ensures (a | b) | c == a | (b | c)
  {
  }

  /** Accumulating from `perms` ORs the bits of the tokens into it; from 0
      it yields the permissions of the list. */
  lemma {:induction false} PermsFromOf(perms: bv32, toks: seq<string>)
    ensures PermsFrom(perms, toks) == perms | PermsOf(toks)
    decreases |toks|
  {
    if toks != [] {
      PermsFromOf(perms | PermValue(toks[0]), toks[1..]);
      OrAssoc(perms, PermValue(toks[0]), PermsOf(toks[1..]));
    }
  }

  lemma PermsFromCons(perms: bv32, tok: string, toks: seq<string>)
    ensures PermsFrom(perms, [tok] + toks) == PermsFrom(perms | PermValue(tok), toks)
  {
    assert ([tok] + toks)[1..] == toks;
  }

  /** One turn of the permission loop: OR in the bit of the current token
      and fetch the next one with strsep; what remains to accumulate is the
      tokens after the current one. */
  method PermStep(perms: bv32, permName: string, ptr: Option<string>)
    returns (perms': bv32, permName': Option<string>, ptr': Option<string>)
    ensures permName'.None? ==> ptr'.None?
    ensures ToSeq(permName') + Tokens(ptr', ',') == Tokens(ptr, ',')
    ensures PermsFrom(perms', Tokens(ptr, ',')) == PermsFrom(perms, [permName] + Tokens(ptr, ','))
  {
    PermsFromCons(perms, permName, Tokens(ptr, ','));
    perms' := AddPerm(perms, permName);
    permName', ptr' := StrsepCall(ptr, ',');
  }

  /** The inner loop of the roles loader: strsep(&ptr_perm_names, ",")
      until NULL, accumulating the bits of the recognised names. */
  method ParsePerms(permNames: string) returns (perms: bv32)
    ensures perms == PermsOf(Split(permNames, ','))
  {
    perms := 0;
    var ptr: Option<string> := Some(permNames);
    var permName: Option<string>;
    permName, ptr := StrsepCall(ptr, ',');
    ghost var rest := ToSeq(permName) + Tokens(ptr, ',');
    ghost var all := rest;
    while permName.Some?
      invariant rest == ToSeq(permName) + Tokens(ptr, ',')
      invariant permName.None? ==> ptr.None?
      invariant PermsFrom(perms, rest) == PermsFrom(0, all)
      decreases |rest|
    {
      perms, permName, ptr := PermStep(perms, permName.value, ptr);
      rest := rest[1..];
    }
    PermsFromOf(0, all);
  }

  /** What one line of the roles file adds: for a record, one role named by
      the first ROLE_NAME_LEN_MAX characters before the first '=' (possibly
      none) with the permissions of the comma-separated list after it. */
  function RoleOfLine(line: string): (r: Option<Role>)
    ensures r.Some? <==> IsRecord(line)
    ensures r.Some? ==> r.value.name == Take(Key(line), ROLE_NAME_LEN_MAX)
    ensures r.Some? ==> r.value.perms == PermsOf(Split(Value(line), ','))
    ensures r.Some? ==> r.value.perms <= 3
  {
    var l := StripCr(line);
    if l == [] then None
    else
      var (roleName, rest) := Strsep(Some(l), '=');
      if roleName.Some? && rest.Some? then
        PermsOfBits(Split(rest.value, ','));
        Some(Role(Take(roleName.value, ROLE_NAME_LEN_MAX), PermsOf(Split(rest.value, ','))))
      else None
  }

  /** A role line written as name=PERM,...,PERM parses to the truncated
      name and the permissions of the listed tokens. */
  lemma RoleLineRoundTrip(name: string, permNames: seq<string>)
    requires '=' !in name && '\r' !in name
    requires permNames != []
    requires forall t :: t in permNames ==> ',' !in t && '\r' !in t
    ensures RoleOfLine(name + "=" + Join(permNames, ',')) ==
      Some(Role(Take(name, ROLE_NAME_LEN_MAX), PermsOf(permNames)))
  {
    JoinAvoids(permNames, ',', '\r');
    RecordRoundTrip(name, Join(permNames, ','));
    SplitJoin(permNames, ',');
  }

  /** The values `parse` yields over the lines, in order, skipping the lines
      it yields nothing for: the entries a loader's line loop appends. */
  function Collect<T>(lines: seq<string>, parse: string -> Option<T>): (r: seq<T>)
    ensures |r| <= |lines|
  {
    if lines == [] then []
    else Collect(lines[..|lines| - 1], parse) + ToSeq(parse(lines[|lines| - 1]))
  }

  lemma ConcatAssoc<T>(x: seq<T>, y: seq<T>, z: seq<T>)
    ensures (x + y) + z == x + (y + z)
  {
  }

  lemma {:induction false} CollectAppend<T>(a: seq<string>, b: seq<string>, parse: string -> Option<T>)
    ensures Collect(a + b, parse) == Collect(a, parse) + Collect(b, parse)
    decreases |b|
  {
    if b == [] {
      assert a + b == a;
    } else {
      var init, last := b[..|b| - 1], b[|b| - 1];
      CollectAppend(a, init, parse);
      var ab := a + b;
      assert ab[..|ab| - 1] == a + init && ab[|ab| - 1] == last;
      var x, y, z := Collect(a, parse), Collect(init, parse), ToSeq(parse(last));
      calc {
        Collect(ab, parse);
        Collect(a + init, parse) + z;
        (x + y) + z;
        { ConcatAssoc(x, y, z); }
        x + (y + z);
        x + Collect(b, parse);
      }
    }
  }

  /** Every collected value comes from one of the lines. */
  lemma {:induction false} CollectFrom<T>(lines: seq<string>, parse: string -> Option<T>, i: nat)
    requires i < |Collect(lines, parse)|
    ensures exists line :: line in lines && parse(line) == Some(Collect(lines, parse)[i])
  {
    var init, last := lines[..|lines| - 1], lines[|lines| - 1];
    assert lines == init + [last];
    if i < |Collect(init, parse)| {
      CollectFrom(init, parse, i);
      var line :| line in init && parse(line) == Some(Collect(init, parse)[i]);
      assert line in lines;
    } else {
      assert parse(last) == Some(Collect(lines, parse)[i]);
    }
  }

  /** When every line yields a value, there is one entry per line. */
  lemma {:induction false} CollectEvery<T>(lines: seq<string>, parse: string -> Option<T>)
    requires forall line :: line in lines ==> parse(line).Some?
    ensures |Collect(lines, parse)| == |lines|
  {
    if lines != [] {
      var init := lines[..|lines| - 1];
      assert forall line :: line in init ==> line in lines;
      CollectEvery(init, parse);
      assert lines[|lines| - 1] in lines;
    }
  }

  /** The roles the lines yield, in order and with no bound on their number:
      the entries the source's line loop writes to roles[0], roles[1], ... */
  function RoleRecords(lines: seq<string>): (rs: seq<Role>)
    ensures forall i :: 0 <= i < |rs| ==> |rs[i].name| <= ROLE_NAME_LEN_MAX && rs[i].perms <= 3
  {
    var rs := Collect(lines, RoleOfLine);
    forall i | 0 <= i < |rs|
      ensures |rs[i].name| <= ROLE_NAME_LEN_MAX && rs[i].perms <= 3
    {
      CollectFrom(lines, RoleOfLine, i);
    }
    rs
  }

  /** The role table a roles chunk yields: its first ROLES_NMAX roles. */
  function LoadedRoles(chunk: string): (rs: seq<Role>)
    ensures |rs| <= ROLES_NMAX && rs <= RoleRecords(Lines(chunk))
    ensures |RoleRecords(Lines(chunk))| >= ROLES_NMAX ==> |rs| == ROLES_NMAX
    ensures |RoleRecords(Lines(chunk))| <= ROLES_NMAX ==> rs == RoleRecords(Lines(chunk))
    ensures forall i :: 0 <= i < |rs| ==> |rs[i].name| <= ROLE_NAME_LEN_MAX && rs[i].perms <= 3
  {
    Take(RoleRecords(Lines(chunk)), ROLES_NMAX)
  }

  /** The role lookup loop of the users loader: the lowest index whose name
      compares equal to `name` under strncmp over sizeof(name), or -1. */
  function FindRole(roles: seq<Role>, name: string): (j: int)
    ensures -1 <= j < |roles|
    ensures j >= 0 ==> StrnEq(roles[j].name, name, ROLE_NAME_SIZE)
    ensures j >= 0 ==> forall k :: 0 <= k < j ==> !StrnEq(roles[k].name, name, ROLE_NAME_SIZE)
    ensures j == -1 ==> forall k :: 0 <= k < |roles| ==> !StrnEq(roles[k].name, name, ROLE_NAME_SIZE)
  {
    if roles == [] then -1
    else if StrnEq(roles[0].name, name, ROLE_NAME_SIZE) then 0
    else
      var j := FindRole(roles[1..], name);
      if j == -1 then -1 else j + 1
  }

  /** Stored role names are at most ROLE_NAME_LEN_MAX long, shorter than the
      comparison bound, so the lookup is by exact name. */
  lemma FindRoleExact(roles: seq<Role>, name: string)
    requires forall r :: r in roles ==> |r.name| <= ROLE_NAME_LEN_MAX
    ensures var j := FindRole(roles, name);
      (j >= 0 ==> roles[j].name == name && forall k :: 0 <= k < j ==> roles[k].name != name) &&
      (j == -1 ==> forall k :: 0 <= k < |roles| ==> roles[k].name != name)
  {
    forall k | 0 <= k < |roles|
      ensures StrnEq(roles[k].name, name, ROLE_NAME_SIZE) <==> roles[k].name == name
    {
      assert roles[k] in roles;
      StrnEqExact(name, roles[k].name, ROLE_NAME_SIZE);
    }
  }

  /** What one line of the users file adds: for a record whose text after
      the first '=' names a role of `roles`, one user with uid atoui(text
      before the '=') bound to the lowest index of that role. */
  function UserOfLine(line: string, roles: seq<Role>): (u: Option<User>)
    ensures u.Some? <==> IsRecord(line) && FindRole(roles, Value(line)) >= 0
    ensures u.Some? ==> u.value == User(AtouiValue(Key(line)), FindRole(roles, Value(line)))
    ensures u.Some? ==> 0 <= u.value.roleInd < |roles|
  {
    var l := StripCr(line);
    if l == [] then None
    else
      var (uidStr, rest) := Strsep(Some(l), '=');
      if uidStr.Some? && rest.Some? then
        var j := FindRole(roles, rest.value);
        if j == -1 then None else Some(User(AtouiValue(uidStr.value), j))
      else None
  }

  /** A user line written as uid=role parses to atoui of the uid and the
      lowest index of that role, and is dropped when the role is unknown. */
  lemma UserLineRoundTrip(uidStr: string, roleName: string, roles: seq<Role>)
    requires '=' !in uidStr && '\r' !in uidStr && '\r' !in roleName
    ensures var j := FindRole(roles, roleName);
      UserOfLine(uidStr + "=" + roleName, roles) ==
        if j == -1 then None else Some(User(AtouiValue(uidStr), j))
  {
    RecordRoundTrip(uidStr, roleName);
  }

  /** The users the lines yield against a role table, in order and with no
      bound on their number: the entries the source's line loop writes to
      users[0], users[1], ... */
  function UserRecords(lines: seq<string>, roles: seq<Role>): (us: seq<User>)
    ensures RoleIndicesBelow(us, |roles|)
  {
    var parse := line => UserOfLine(line, roles);
    var us := Collect(lines, parse);
    forall i | 0 <= i < |us|
      ensures 0 <= us[i].roleInd < |roles|
    {
      CollectFrom(lines, parse, i);
    }
    us
  }

  /** The user table a users chunk yields against a role table: its first
      USERS_NMAX users. */
  function LoadedUsers(chunk: string, roles: seq<Role>): (us: seq<User>)
    ensures |us| <= USERS_NMAX && us <= UserRecords(Lines(chunk), roles)
    ensures |UserRecords(Lines(chunk), roles)| >= USERS_NMAX ==> |us| == USERS_NMAX
    ensures |UserRecords(Lines(chunk), roles)| <= USERS_NMAX ==> us == UserRecords(Lines(chunk), roles)
    ensures RoleIndicesBelow(us, |roles|)
  {
    Take(UserRecords(Lines(chunk), roles), USERS_NMAX)
  }

  /** The enable flag after load_switch: unchanged when the switch file does
      not open; otherwise on, unless the file has a first byte and it is not '1'. */
  function SwitchAfter(prev: bool, switchFile: Option<string>): bool
  {
    match switchFile
    case None => prev
    case Some(content) => |content| == 0 || content[0] == '1'
  }

  /** A table after its first |recs| slots are overwritten; the later slots
      keep what an earlier load left there. */
  function Overlay<T>(table: seq<T>, recs: seq<T>): (r: seq<T>)
    requires |recs| <= |table|
    ensures |r| == |table|
  {
    recs + table[|recs|..]
  }

  /** The position of the first entry with this uid, or -1. */
  function FirstUid(users: seq<User>, uid: UInt): (i: int)
    ensures -1 <= i < |users|
  {
    if users == [] then -1
    else if users[0].uid == uid then 0
    else
      var j := FirstUid(users[1..], uid);
      if j == -1 then -1 else j + 1
  }

  /** FirstUid finds the first entry with the uid, and -1 means that no
      entry has it. */
  lemma {:induction false} FirstUidSpec(users: seq<User>, uid: UInt)
    ensures var i := FirstUid(users, uid);
      (i == -1 <==> forall k :: 0 <= k < |users| ==> users[k].uid != uid) &&
      (i >= 0 ==> users[i].uid == uid && forall k :: 0 <= k < i ==> users[k].uid != uid)
  {
    if users != [] && users[0].uid != uid {
      FirstUidSpec(users[1..], uid);
      forall k | 1 <= k < |users|
        ensures users[k] == users[1..][k - 1]
      {
      }
    }
  }

  /** The role index get_curr_user reports for `uid`: that of the first
      entry with this uid, or -1 when there is none. */
  function UserRole(users: seq<User>, uid: UInt): int
  {
    var i := FirstUid(users, uid);
    if i == -1 then -1 else users[i].roleInd
  }

  /** Every entry of the table has a role index below `n`. */
  ghost predicate RoleIndicesBelow(users: seq<User>, n: int)
  {
    forall i :: 0 <= i < |users| ==> 0 <= users[i].roleInd < n
  }

  /** A permission mask grants an action when they share a bit. */
  predicate Grants(perms: bv32, action: bv32)
  {
    perms & action != 0
  }

  /** check_permission once the tables are loaded: allow (0) an unknown
      user; otherwise allow exactly when the user's role grants a bit of
      `action`, and deny with EACCES if not. */
  function Decision(roleTable: seq<Role>, users: seq<User>, uid: UInt, action: bv32): int
    requires RoleIndicesBelow(users, |roleTable|)
  {
    var ind := UserRole(users, uid);
    if ind == -1 then 0
    else if Grants(roleTable[ind].perms, action) then 0
    else EACCES
  }

  /** When all three files are read, the decision depends on the two
      configuration texts alone: the role a managed user gets is one loaded
      in this cycle, never an entry left over in roles[] from an earlier one. */
  lemma FreshCycleDecision(oldRoles: seq<Role>, rolesChunk: string, usersChunk: string, uid: UInt, action: bv32)
    requires |oldRoles| == ROLES_NMAX
    ensures var rs := LoadedRoles(rolesChunk);
      var us := LoadedUsers(usersChunk, rs);
      RoleIndicesBelow(us, |rs|) && RoleIndicesBelow(us, |Overlay(oldRoles, rs)|) &&
      Decision(Overlay(oldRoles, rs), us, uid, action) == Decision(rs, us, uid, action)
  {
    var rs := LoadedRoles(rolesChunk);
    var us := LoadedUsers(usersChunk, rs);
    assert forall i :: 0 <= i < |us| ==> us[i] in us;
    var ind := UserRole(us, uid);
    if ind != -1 {
      assert Overlay(oldRoles, rs)[ind] == rs[ind];
    }
  }

  /** For a user listed in the users text, removing a directory is allowed
      exactly when the role line its role comes from lists RMDIR, and
      creating one exactly when it lists MKDIR. */
  lemma ManagedUserDecision(rolesChunk: string, usersChunk: string, uid: UInt)
    requires UserRole(LoadedUsers(usersChunk, LoadedRoles(rolesChunk)), uid) != -1
    ensures var rs := LoadedRoles(rolesChunk);
      var us := LoadedUsers(usersChunk, rs);
      RoleIndicesBelow(us, |rs|) &&
      exists line :: line in Lines(rolesChunk) && IsRecord(line) &&
        RoleOfLine(line) == Some(rs[UserRole(us, uid)]) &&
        (Decision(rs, us, uid, PERM_RMDIR_VAL) == 0 <==> PERM_RMDIR_NAME in Split(Value(line), ',')) &&
        (Decision(rs, us, uid, PERM_MKDIR_VAL) == 0 <==> PERM_MKDIR_NAME in Split(Value(line), ','))
  {
    var rs := LoadedRoles(rolesChunk);
    var us := LoadedUsers(usersChunk, rs);
    var ind := UserRole(us, uid);
    var all := RoleRecords(Lines(rolesChunk));
    assert rs[ind] == all[ind];
    CollectFrom(Lines(rolesChunk), RoleOfLine, ind);
    var line :| line in Lines(rolesChunk) && RoleOfLine(line) == Some(all[ind]);
    var toks := Split(Value(line), ',');
    assert rs[ind].perms == PermsOf(toks);
    PermsOfBits(toks);
    assert Decision(rs, us, uid, PERM_RMDIR_VAL) == 0 <==> Grants(rs[ind].perms, PERM_RMDIR_VAL);
    assert Decision(rs, us, uid, PERM_MKDIR_VAL) == 0 <==> Grants(rs[ind].perms, PERM_MKDIR_VAL);
  }

  lemma OverlaySnoc<T>(table: seq<T>, recs: seq<T>, x: T)
    requires |recs| < |table|
    ensures Overlay(table, recs + [x]) == Overlay(table, recs)[|recs| := x]
  {
  }

  /** One more line adds what it parses to, if anything, at the end. */
  lemma RoleRecordsSnoc(done: seq<string>, line: string)
    ensures RoleRecords(done + [line]) == RoleRecords(done) + ToSeq(RoleOfLine(line))
  {
    assert (done + [line])[..|done|] == done;
  }

  /** Once the lines read so far have filled roles[], the rest of the chunk
      adds nothing to the loaded table. */
  lemma LoadedRolesStop(chunk: string, done: seq<string>, rest: seq<string>)
    requires Lines(chunk) == done + rest
    requires |RoleRecords(done)| == ROLES_NMAX
    ensures LoadedRoles(chunk) == RoleRecords(done)
  {
    CollectAppend(done, rest, RoleOfLine);
    assert RoleRecords(Lines(chunk)) == RoleRecords(done) + Collect(rest, RoleOfLine);
  }

  /** When the line loop ends, by running out of lines or by stopping at
      a full table, the records it stored are the loaded table. */
  lemma LoadedRolesEnd(chunk: string, done: seq<string>, rest: seq<string>)
    requires Lines(chunk) == done + rest
    requires rest == [] || |RoleRecords(done)| == ROLES_NMAX
    requires |RoleRecords(done)| <= ROLES_NMAX
    ensures LoadedRoles(chunk) == RoleRecords(done)
  {
    if rest == [] {
      assert done + rest == done;
    } else {
      LoadedRolesStop(chunk, done, rest);
    }
  }

  /** One more line adds the user it parses to, if any, at the end. */
  lemma UserRecordsSnoc(done: seq<string>, roles: seq<Role>, line: string)
    ensures UserRecords(done + [line], roles) == UserRecords(done, roles) + ToSeq(UserOfLine(line, roles))
  {
    assert (done + [line])[..|done|] == done;
  }

  /** When the users loop ends, by running out of lines or by stopping at
      a full table, the users it stored are the loaded table. */
  lemma LoadedUsersEnd(chunk: string, roles: seq<Role>, done: seq<string>, rest: seq<string>)
    requires Lines(chunk) == done + rest
    requires rest == [] || |UserRecords(done, roles)| == USERS_NMAX
    requires |UserRecords(done, roles)| <= USERS_NMAX
    ensures LoadedUsers(chunk, roles) == UserRecords(done, roles)
  {
    if rest == [] {
      assert done + rest == done;
    } else {
      LoadedUsersStop(chunk, roles, done, rest);
    }
  }

  /** Once the lines read so far have filled users[], the rest of the chunk
      adds nothing to the loaded table. */
  lemma LoadedUsersStop(chunk: string, roles: seq<Role>, done: seq<string>, rest: seq<string>)
    requires Lines(chunk) == done + rest
    requires |UserRecords(done, roles)| == USERS_NMAX
    ensures LoadedUsers(chunk, roles) == UserRecords(done, roles)
  {
    var parse := line => UserOfLine(line, roles);
    CollectAppend(done, rest, parse);
    assert UserRecords(Lines(chunk), roles) == UserRecords(done, roles) + Collect(rest, parse);
  }
}
