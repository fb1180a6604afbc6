/** Worked configurations: the decisions the policy yields for small
    configuration texts, what the loaders do with one-line files, the
    table overflow of the loaders as written, and a user whose role index
    outlives the roles file it was loaded against. */
module Scenarios {
  import opened Wrappers
  import opened CStrings
  import opened Atoui
  import opened Policy
  import opened RbacLsm

  /** A text without a newline is a single line. */
  lemma OneLine(text: string)
    requires '\n' !in text
    ensures Lines(text) == [text]
  {
    SplitJoin([text], '\n');
  }

  /** A configuration text the first read delivers whole, as one line. */
  predicate SingleLine(text: string)
  {
    '\n' !in text && '\0' !in text && |text| <= CHUNK_MAX
  }

  /** A roles file of one short line loads the role that line yields, if any. */
  lemma RolesOfOneLine(text: string)
    requires SingleLine(text)
    ensures LoadedRoles(FirstChunk(text)) == ToSeq(RoleOfLine(text))
  {
    OneLine(text);
    assert [text][..0] == [];
  }

  /** A users file of one short line loads the user that line yields, if any. */
  lemma UsersOfOneLine(text: string, roles: seq<Role>)
    requires SingleLine(text)
    ensures LoadedUsers(FirstChunk(text), roles) == ToSeq(UserOfLine(text, roles))
  {
    OneLine(text);
    assert [text][..0] == [];
  }

  /** A one-role, one-user configuration, name=P1,...,Pk and uid=name: the
      role is stored under its name with the permissions of the listed
      tokens, the user is bound to it, and the decision refuses that uid
      exactly the actions the role lacks while allowing every other uid. */
  lemma SingleRoleSingleUser(name: string, permNames: seq<string>, uidStr: string, uid: UInt, action: bv32)
    requires '=' !in name && '\r' !in name && |name| <= ROLE_NAME_LEN_MAX
    requires permNames != [] && forall t :: t in permNames ==> ',' !in t && '\r' !in t
    requires '=' !in uidStr && '\r' !in uidStr
    requires SingleLine(name + "=" + Join(permNames, ',')) && SingleLine(uidStr + "=" + name)
    ensures var rs := LoadedRoles(FirstChunk(name + "=" + Join(permNames, ',')));
      var us := LoadedUsers(FirstChunk(uidStr + "=" + name), rs);
      rs == [Role(name, PermsOf(permNames))] && us == [User(AtouiValue(uidStr), 0)] &&
      RoleIndicesBelow(us, |rs|) &&
      Decision(rs, us, uid, action) ==
        if uid == AtouiValue(uidStr) && !Grants(PermsOf(permNames), action) then EACCES else 0
  {
    RoleLineRoundTrip(name, permNames);
    RolesOfOneLine(name + "=" + Join(permNames, ','));
    var rs := [Role(name, PermsOf(permNames))];
    assert FindRole(rs, name) == 0;
    UserLineRoundTrip(uidStr, name, rs);
    UsersOfOneLine(uidStr + "=" + name, rs);
    var us := [User(AtouiValue(uidStr), 0)];
    assert UserRole(us, uid) == if uid == AtouiValue(uidStr) then 0 else -1;
  }

  /** The characters of the guest configuration, as the one-role,
      one-user lemma needs them. */
  lemma GuestText()
    ensures "guest=RMDIR" == "guest" + "=" + Join(["RMDIR"], ',')
    ensures "42=guest" == "42" + "=" + "guest"
    ensures '=' !in "guest" && '\r' !in "guest" && '=' !in "42" && '\r' !in "42"
    ensures forall t :: t in ["RMDIR"] ==> ',' !in t && '\r' !in t
    ensures SingleLine("guest=RMDIR") && SingleLine("42=guest")
    ensures AtouiValue("42") == 42
  {
    assert forall t :: t in ["RMDIR"] <==> t == "RMDIR";
    assert "42"[..1] == "4";
  }

  /** Roles guest=RMDIR and user 42=guest: user 42 may remove but not
      create a directory, and user 99, who is not listed, may do both. */
  lemma GuestScenario()
    ensures var rs := LoadedRoles(FirstChunk("guest=RMDIR"));
      var us := LoadedUsers(FirstChunk("42=guest"), rs);
      RoleIndicesBelow(us, |rs|) &&
      Decision(rs, us, 42, PERM_MKDIR_VAL) == EACCES &&
      Decision(rs, us, 42, PERM_RMDIR_VAL) == 0 &&
      Decision(rs, us, 99, PERM_RMDIR_VAL) == 0
  {
    GuestText();
    PermissionTokens();
    SingleRoleSingleUser("guest", ["RMDIR"], "42", 42, PERM_MKDIR_VAL);
    SingleRoleSingleUser("guest", ["RMDIR"], "42", 42, PERM_RMDIR_VAL);
    SingleRoleSingleUser("guest", ["RMDIR"], "42", 99, PERM_RMDIR_VAL);
  }

  /** The guest configuration through the hooks of an enabled module: user
      42 is refused mkdir and allowed rmdir. */
  method GuestHooks() returns (mkdir: int, rmdir: int)
    ensures mkdir == EACCES && rmdir == 0
  {
    GuestScenario();
    var m := new Rbac();
    mkdir := m.HookInodeMkdir(42, Some("1"), Some("guest=RMDIR"), Some("42=guest"));
    rmdir := m.HookInodeRmdir(42, Some("1"), Some("guest=RMDIR"), Some("42=guest"));
  }

  /** The permission tokens are matched exactly and case-sensitively: RMDIR
      and MKDIR set their bits, any other token sets none. */
  lemma PermissionTokens()
    ensures PermsOf(["RMDIR"]) == PERM_RMDIR_VAL
    ensures PermsOf(["RMDIR", "MKDIR"]) == PERM_RMDIR_VAL | PERM_MKDIR_VAL
    ensures PermsOf(["rmdir", "WRITE", ""]) == 0
  {
    assert !StrnEq("rmdir", PERM_RMDIR_NAME, PERM_NAME_LEN_MAX);
  }

  /** A role name longer than ROLE_NAME_LEN_MAX is stored truncated, and a
      user line is matched against the stored name: naming the role in
      full leaves the user out, naming its first ROLE_NAME_LEN_MAX
      characters binds the user to it. */
  lemma LongRoleName(name: string, permNames: seq<string>, uidStr: string)
    requires '=' !in name && '\r' !in name && |name| > ROLE_NAME_LEN_MAX
    requires permNames != [] && forall t :: t in permNames ==> ',' !in t && '\r' !in t
    requires '=' !in uidStr && '\r' !in uidStr
    requires SingleLine(name + "=" + Join(permNames, ','))
    requires SingleLine(uidStr + "=" + name)
    requires SingleLine(uidStr + "=" + Take(name, ROLE_NAME_LEN_MAX))
    ensures var rs := LoadedRoles(FirstChunk(name + "=" + Join(permNames, ',')));
      rs == [Role(Take(name, ROLE_NAME_LEN_MAX), PermsOf(permNames))] &&
      LoadedUsers(FirstChunk(uidStr + "=" + name), rs) == [] &&
      LoadedUsers(FirstChunk(uidStr + "=" + Take(name, ROLE_NAME_LEN_MAX)), rs) == [User(AtouiValue(uidStr), 0)]
  {
    var short := Take(name, ROLE_NAME_LEN_MAX);
    RoleLineRoundTrip(name, permNames);
    RolesOfOneLine(name + "=" + Join(permNames, ','));
    var rs := [Role(short, PermsOf(permNames))];
    assert |Take(name, ROLE_NAME_SIZE)| > ROLE_NAME_LEN_MAX;
    assert FindRole(rs, name) == -1;
    assert FindRole(rs, short) == 0;
    assert '\r' !in short by { assert short <= name; }
    UserLineRoundTrip(uidStr, name, rs);
    UserLineRoundTrip(uidStr, short, rs);
    UsersOfOneLine(uidStr + "=" + name, rs);
    UsersOfOneLine(uidStr + "=" + short, rs);
  }

  /** The switch: a file that does not open leaves the flag as it was, an
      empty file or one starting with '1' enables, any other first byte
      (such as '0') disables. */
  lemma SwitchCases(prev: bool)
    ensures SwitchAfter(prev, None) == prev
    ensures SwitchAfter(prev, Some(""))
    ensures SwitchAfter(prev, Some("1"))
    ensures !SwitchAfter(prev, Some("0"))
  {
  }

  /** A switch file holding '0' turns the module off: a freshly loaded
      module then allows creating a directory whatever the two
      configuration files say. */
  method SwitchOffAllows(uid: UInt, rolesFile: Option<string>, usersFile: Option<string>) returns (res: int)
    ensures res == 0
  {
    var m := new Rbac();
    res := m.HookInodeMkdir(uid, Some("0"), rolesFile, usersFile);
  }

  /** The flag starts false and a switch file that does not open leaves it
      so: at boot, without a switch file, the module is off and removing a
      directory is allowed whatever the two configuration files say. */
  method MissingSwitchAtBootAllows(uid: UInt, rolesFile: Option<string>, usersFile: Option<string>) returns (res: int)
    ensures res == 0
  {
    var m := new Rbac();
    res := m.HookInodeRmdir(uid, None, rolesFile, usersFile);
  }

  /** Pieces of at most nine characters joined with a delimiter make a text
      of at most ten characters per piece. */
  lemma {:induction false} JoinBound(ts: seq<string>, delim: char)
    requires forall t :: t in ts ==> |t| <= 9
    ensures |Join(ts, delim)| <= 10 * |ts|
  {
    if |ts| > 1 {
      assert ts[0] in ts;
      assert forall t :: t in ts[1..] ==> t in ts;
      JoinBound(ts[1..], delim);
    } else if |ts| == 1 {
      assert ts[0] in ts;
    }
  }

  /** A text made of the same short line repeated: the first read delivers
      all of it, and its lines are those copies. */
  lemma RepeatedLines(line: string, n: nat)
    requires 1 <= n <= 100 && |line| <= 9
    requires '\n' !in line && '\0' !in line
    ensures FirstChunk(Join(seq(n, _ => line), '\n')) == Join(seq(n, _ => line), '\n')
    ensures Lines(Join(seq(n, _ => line), '\n')) == seq(n, _ => line)
  {
    var lines := seq(n, _ => line);
    assert forall t :: t in lines ==> t == line;
    JoinAvoids(lines, '\n', '\0');
    JoinBound(lines, '\n');
    SplitJoin(lines, '\n');
  }

  /** Six role records, one more than roles[] holds. */
  function SixRoles(): string
  {
    Join(seq(ROLES_NMAX + 1, _ => "r=RMDIR"), '\n')
  }

  /** As written, the roles loop stores record k at roles[k] for every
      record of the chunk, so six records reach roles[5], one past the end
      of the array; the capacity test before the loop cannot stop it. The
      corrected loader keeps the first five. */
  lemma RolesOverflowAsWritten()
    ensures |RoleRecords(Lines(FirstChunk(SixRoles())))| == ROLES_NMAX + 1
    ensures |LoadedRoles(FirstChunk(SixRoles()))| == ROLES_NMAX
  {
    var lines := seq(ROLES_NMAX + 1, _ => "r=RMDIR");
    assert forall t :: t in lines ==> t == "r=RMDIR";
    assert '\n' !in "r=RMDIR" && '\0' !in "r=RMDIR";
    RepeatedLines("r=RMDIR", ROLES_NMAX + 1);
    assert "r=RMDIR" == "r" + "=" + "RMDIR";
    RecordRoundTrip("r", "RMDIR");
    CollectEvery(lines, RoleOfLine);
  }

  /** Eleven user records for a known role, one more than users[] holds. */
  function ElevenUsers(): string
  {
    Join(seq(USERS_NMAX + 1, _ => "7=r"), '\n')
  }

  /** As written, the users loop stores user k at users[k] for every record
      whose role is known, so eleven records reach users[10], one past the
      end of the array. The corrected loader keeps the first ten. */
  lemma UsersOverflowAsWritten()
    ensures |UserRecords(Lines(FirstChunk(ElevenUsers())), [Role("r", 1)])| == USERS_NMAX + 1
    ensures |LoadedUsers(FirstChunk(ElevenUsers()), [Role("r", 1)])| == USERS_NMAX
  {
    var lines := seq(USERS_NMAX + 1, _ => "7=r");
    var roles := [Role("r", 1)];
    assert forall t :: t in lines ==> t == "7=r";
    assert '\n' !in "7=r" && '\0' !in "7=r";
    RepeatedLines("7=r", USERS_NMAX + 1);
    assert "7=r" == "7" + "=" + "r";
    UserLineRoundTrip("7", "r", roles);
    assert FindRole(roles, "r") == 0;
    CollectEvery(lines, line => UserOfLine(line, roles));
  }

  /** A cycle whose roles file loads a single role but whose users file
      does not open keeps the users of an earlier cycle: a user bound to
      role index 3 then is still bound to index 3, beyond the one role
      loaded now, and the decision for that user is made by whatever an
      earlier load left in roles[3]. */
  lemma StaleRoleReference(oldRoles: seq<Role>, line: string, uid: UInt, action: bv32)
    requires |oldRoles| == ROLES_NMAX
    requires SingleLine(line) && IsRecord(line)
    ensures var loaded := LoadedRoles(FirstChunk(line));
      var roles := Overlay(oldRoles, loaded);
      var users := [User(uid, 3)];
      loaded == [RoleOfLine(line).value] &&
      !RoleIndicesBelow(users, |loaded|) && RoleIndicesBelow(users, |roles|) &&
      Decision(roles, users, uid, action) ==
        if Grants(oldRoles[3].perms, action) then 0 else EACCES
  {
    RolesOfOneLine(line);
    var loaded := [RoleOfLine(line).value];
    var users := [User(uid, 3)];
    assert UserRole(users, uid) == 3;
    assert Overlay(oldRoles, loaded)[3] == oldRoles[3];
  }

  /** After a one-role load over a table whose first entries are `rs`, a
      user table bound against `rs` still decides by rs[3] for a user at
      index 3. */
  lemma StaleDecision(table: seq<Role>, rs: seq<Role>, us: seq<User>, loaded: seq<Role>, uid: UInt, action: bv32)
    requires |table| == ROLES_NMAX && |loaded| == 1 && |rs| <= ROLES_NMAX
    requires table[..|rs|] == rs
    requires RoleIndicesBelow(us, |rs|) && UserRole(us, uid) == 3
    ensures |rs| > 3 && RoleIndicesBelow(us, |Overlay(table, loaded)|)
    ensures Decision(Overlay(table, loaded), us, uid, action) == if Grants(rs[3].perms, action) then 0 else EACCES
  {
    assert us[FirstUid(us, uid)].roleInd == 3;
    assert Overlay(table, loaded)[3] == table[3] == rs[3];
  }

  /** The stale index end to end, over two hooked calls of an enabled
      module. The first call loads a roles file and a users file that binds
      `uid` to role index 3. The second loads a roles file of one line while
      the users file does not open: the user keeps index 3, beyond the one
      role now loaded, and is judged by the role the first roles file put
      at index 3. */
  method StaleRoleAcrossCycles(rolesText: string, usersText: string, line: string, uid: UInt, action: bv32)
    returns (first: int, second: int)
    requires SingleLine(line) && IsRecord(line)
    requires UserRole(LoadedUsers(FirstChunk(usersText), LoadedRoles(FirstChunk(rolesText))), uid) == 3
    ensures |LoadedRoles(FirstChunk(line))| == 1
    ensures |LoadedRoles(FirstChunk(rolesText))| > 3
    ensures var old3 := LoadedRoles(FirstChunk(rolesText))[3];
      first == second == if Grants(old3.perms, action) then 0 else EACCES
  {
    ghost var rs := LoadedRoles(FirstChunk(rolesText));
    ghost var us := LoadedUsers(FirstChunk(usersText), rs);
    ghost var loaded := LoadedRoles(FirstChunk(line));
    RolesOfOneLine(line);
    var m := new Rbac();
    first := m.CheckPermission(action, uid, Some("1"), Some(rolesText), Some(usersText));
    ghost var table := m.roles[..];
    assert table[..|rs|] == rs;
    StaleDecision(table, rs, us, loaded, uid, action);
    assert m.users[..m.numUsers] == us;
    second := m.CheckPermission(action, uid, Some("1"), Some(line), None);
    assert m.users[..m.numUsers] == us;
  }
}
