/** The kernel module's global state and the operations that update it:
    the switch, role and user loaders, the current-user lookup and
    check_permission with its two hooks. A configuration file is passed in
    as its content, None when it cannot be opened; the current credential
    is passed in as a uid. */
module RbacLsm {
  import opened Wrappers
  import opened CStrings
  import opened Atoui
  import opened Policy

  class Rbac {
    /** The static tables users[USERS_NMAX] and roles[ROLES_NMAX]. */
    const users: array<User>
    const roles: array<Role>
    var numUsers: nat
    var numRoles: nat
    var moduleEnabled: bool

    /** The tables have their fixed sizes, the counters stay within them,
        every user entry (also one left from an earlier cycle) points into
        roles[], and stored role names are truncated. */
    ghost predicate Valid()
      reads this, users, roles
    {
      users.Length == USERS_NMAX && roles.Length == ROLES_NMAX &&
      numUsers <= USERS_NMAX && numRoles <= ROLES_NMAX &&
      (forall i :: 0 <= i < users.Length ==> 0 <= users[i].roleInd < ROLES_NMAX) &&
      (forall i :: 0 <= i < roles.Length ==> |roles[i].name| <= ROLE_NAME_LEN_MAX)
    }

    /** The zero-initialised statics at boot: the module starts disabled. */
    constructor ()
      ensures Valid() && fresh(users) && fresh(roles)
      ensures forall i :: 0 <= i < USERS_NMAX ==> users[i] == User(0, 0)
      ensures forall i :: 0 <= i < ROLES_NMAX ==> roles[i] == Role("", 0)
      ensures numUsers == 0 && numRoles == 0 && !moduleEnabled
    {
      users := new User[USERS_NMAX](_ => User(0, 0));
      roles := new Role[ROLES_NMAX](_ => Role("", 0));
      numUsers, numRoles, moduleEnabled := 0, 0, false;
    }

    /** load_switch. When the file opens the module is enabled, then
        switched off if a first byte is read and it is not '1'; when the
        file does not open the flag keeps its value. */
    method LoadSwitch(switchFile: Option<string>)
      modifies this`moduleEnabled
      ensures switchFile.None? ==> moduleEnabled == old(moduleEnabled)
      ensures switchFile.Some? ==> (moduleEnabled <==> switchFile.value == [] || switchFile.value[0] == '1')
      ensures moduleEnabled == SwitchAfter(old(moduleEnabled), switchFile)
    {
      if switchFile.None? {
        return;
      }
      moduleEnabled := true;
      var content := switchFile.value;
      if |content| > 0 {
        moduleEnabled := content[0] == '1';
      }
    }

    /** The body of the roles loader's line loop up to the store: cut the
        line at its first '\r', skip it when empty, split it at the first
        '=' and parse the permission list. */
    static method ParseRoleLine(line: string) returns (role: Option<Role>)
      ensures role == RoleOfLine(line)
    {
      role := None;
      var l := StripCr(line);
      if l != [] {
        var roleName, permNames := StrsepCall(Some(l), '=');
        if roleName.Some? && permNames.Some? {
          var perms := ParsePerms(permNames.value);
          role := Some(Role(Take(roleName.value, ROLE_NAME_LEN_MAX), perms));
        }
      }
    }

    /** The store at the end of the roles loader's loop body: the next slot
        of roles[] receives `role` and num_roles moves past it. `orig` is the
        table before the load and `recs` the records stored so far. */
    method AppendRole(ghost orig: seq<Role>, ghost recs: seq<Role>, role: Role)
      requires Valid() && |orig| == ROLES_NMAX
      requires numRoles == |recs| < ROLES_NMAX
      requires roles[..] == Overlay(orig, recs)
      requires |role.name| <= ROLE_NAME_LEN_MAX
      modifies this`numRoles, roles
      ensures Valid()
      ensures numRoles == |recs| + 1
      ensures roles[..] == Overlay(orig, recs + [role])
    {
      roles[numRoles] := role;
      OverlaySnoc(orig, recs, role);
      numRoles := numRoles + 1;
    }

    /** One pass of the roles loader's line loop on `line`: a record is
        stored in the next slot, unless roles[] is already full, in which
        case `full` is set and nothing is stored. `orig` is the table before
        the load, `recs` the records stored so far and `recs'` after `line`. */
    method RoleLineStep(ghost orig: seq<Role>, ghost recs: seq<Role>, line: string)
      returns (full: bool, ghost recs': seq<Role>)
      requires Valid() && |orig| == ROLES_NMAX
      requires numRoles == |recs| <= ROLES_NMAX
      requires roles[..] == Overlay(orig, recs)
      modifies this`numRoles, roles
      ensures Valid()
      ensures full ==> numRoles == |recs| == ROLES_NMAX && RoleOfLine(line).Some?
      ensures full ==> recs' == recs && roles[..] == old(roles[..])
      ensures !full ==> recs' == recs + ToSeq(RoleOfLine(line))
      ensures !full ==> numRoles == |recs'| && roles[..] == Overlay(orig, recs')
    {
      full, recs' := false, recs;
      var role := ParseRoleLine(line);
      if role.Some? {
        if numRoles == ROLES_NMAX {
          full := true;
          return;
        }
        AppendRole(orig, recs, role.value);
        recs' := recs + [role.value];
      } else {
        assert recs + ToSeq(role) == recs;
      }
    }

    /** One turn of the roles loader's line loop: handle the current line
        and, unless the table is full, fetch the next one with strsep. The
        lines handled so far are `done`; the entries they yield are stored. */
    method RolesLoopTurn(ghost chunk: string, ghost orig: seq<Role>, ghost done: seq<string>,
                         ghost recs: seq<Role>, line: string, ptr: Option<string>)
      returns (full: bool, line': Option<string>, ptr': Option<string>,
               ghost done': seq<string>, ghost recs': seq<Role>)
      requires Valid() && |orig| == ROLES_NMAX
      requires Lines(chunk) == done + ([line] + Tokens(ptr, '\n'))
      requires recs == RoleRecords(done)
      requires numRoles == |recs| <= ROLES_NMAX
      requires roles[..] == Overlay(orig, recs)
      modifies this`numRoles, roles
      ensures Valid()
      ensures line'.None? ==> ptr'.None?
      ensures Lines(chunk) == done' + (ToSeq(line') + Tokens(ptr', '\n'))
      ensures recs' == RoleRecords(done')
      ensures numRoles == |recs'| <= ROLES_NMAX
      ensures roles[..] == Overlay(orig, recs')
      ensures full ==> numRoles == ROLES_NMAX && done' == done
      ensures !full ==> |done'| == |done| + 1
    {
      full, recs' := RoleLineStep(orig, recs, line);
      done', line', ptr' := done, Some(line), ptr;
      if !full {
        RoleRecordsSnoc(done, line);
        done' := done + [line];
        ConcatAssoc(done, [line], Tokens(ptr, '\n'));
        line', ptr' := StrsepCall(ptr, '\n');
      }
    }

    /** load_roles_config. When the file opens, roles[] is refilled from
        the records of its first chunk and num_roles counts them; the slots
        after them keep older entries. When it does not open, nothing
        changes. Unlike the source, loading stops once the table is full. */
    method LoadRolesConfig(rolesFile: Option<string>)
      requires Valid()
      modifies this`numRoles, roles
      ensures Valid()
      ensures rolesFile.None? ==> numRoles == old(numRoles) && roles[..] == old(roles[..])
      ensures rolesFile.Some? ==>
        var loaded := LoadedRoles(FirstChunk(rolesFile.value));
        numRoles == |loaded| && roles[..] == Overlay(old(roles[..]), loaded)
    {
      if rolesFile.None? {
        return;
      }
      ghost var orig := roles[..];
      var chunk := FirstChunk(rolesFile.value);
      var ptr: Option<string> := Some(chunk);
      numRoles := 0;
      var line: Option<string>;
      line, ptr := StrsepCall(ptr, '\n');
      ghost var done: seq<string> := [];
      ghost var recs: seq<Role> := [];
      assert roles[..] == Overlay(orig, recs);
      var full := false;
      while line.Some? && !full
        invariant line.None? ==> ptr.None?
        invariant Lines(chunk) == done + (ToSeq(line) + Tokens(ptr, '\n'))
        invariant recs == RoleRecords(done)
        invariant numRoles == |recs| <= ROLES_NMAX
        invariant full ==> numRoles == ROLES_NMAX
        invariant roles[..] == Overlay(orig, recs)
        invariant Valid()
        decreases |Lines(chunk)| - |done|, !full
      {
        full, line, ptr, done, recs := RolesLoopTurn(chunk, orig, done, recs, line.value, ptr);
      }
      LoadedRolesEnd(chunk, done, ToSeq(line) + Tokens(ptr, '\n'));
    }

    /** The role lookup of the users loader: the first of roles[0 ..
        num_roles) whose name compares equal to `name` under strncmp over
        the name buffer's size, or -1. */
    method FindRoleIndex(name: string) returns (roleInd: int)
      requires Valid()
      ensures roleInd == FindRole(roles[..numRoles], name)
    {
      roleInd := -1;
      var j := 0;
      while j < numRoles
        invariant 0 <= j <= numRoles
        invariant var r := FindRole(roles[j..numRoles], name);
          FindRole(roles[..numRoles], name) == if r == -1 then -1 else j + r
      {
        assert roles[j..numRoles][1..] == roles[j + 1..numRoles];
        if StrnEq(roles[j].name, name, ROLE_NAME_SIZE) {
          roleInd := j;
          return;
        }
        j := j + 1;
      }
    }

    /** The body of the users loader's line loop up to the store: cut the
        line at its first '\r', skip it when empty, split it at the first
        '=', convert the uid with atoui and look the role up. */
    method ParseUserLine(line: string) returns (user: Option<User>)
      requires Valid()
      ensures user == UserOfLine(line, roles[..numRoles])
    {
      user := None;
      var l := StripCr(line);
      if l != [] {
        var uidStr, roleName := StrsepCall(Some(l), '=');
        if uidStr.Some? && roleName.Some? {
          var uid := Atoui.Atoui(uidStr.value);
          var roleInd := FindRoleIndex(roleName.value);
          if roleInd != -1 {
            user := Some(User(uid, roleInd));
          }
        }
      }
    }

    /** The store of the users loader: users[num_users] receives `user` and
        num_users moves past it. */
    method AppendUser(ghost orig: seq<User>, ghost recs: seq<User>, user: User)
      requires Valid() && |orig| == USERS_NMAX
      requires numUsers == |recs| < USERS_NMAX
      requires users[..] == Overlay(orig, recs)
      requires 0 <= user.roleInd < ROLES_NMAX
      modifies this`numUsers, users
      ensures Valid()
      ensures numUsers == |recs| + 1
      ensures users[..] == Overlay(orig, recs + [user])
    {
      users[numUsers] := user;
      OverlaySnoc(orig, recs, user);
      numUsers := numUsers + 1;
    }

    /** One pass of the users loader's line loop on `line`: a user whose
        role is known is stored in the next slot, unless users[] is already
        full, in which case `full` is set and nothing is stored. */
    method UserLineStep(ghost orig: seq<User>, ghost recs: seq<User>, line: string)
      returns (full: bool, ghost recs': seq<User>)
      requires Valid() && |orig| == USERS_NMAX
      requires numUsers == |recs| <= USERS_NMAX
      requires users[..] == Overlay(orig, recs)
      modifies this`numUsers, users
      ensures Valid()
      ensures full ==> numUsers == |recs| == USERS_NMAX && UserOfLine(line, roles[..numRoles]).Some?
      ensures full ==> recs' == recs && users[..] == old(users[..])
      ensures !full ==> recs' == recs + ToSeq(UserOfLine(line, roles[..numRoles]))
      ensures !full ==> numUsers == |recs'| && users[..] == Overlay(orig, recs')
    {
      full, recs' := false, recs;
      var user := ParseUserLine(line);
      ghost var known := roles[..numRoles];
      if user.Some? {
        if numUsers == USERS_NMAX {
          full := true;
          return;
        }
        AppendUser(orig, recs, user.value);
        assert roles[..numRoles] == known;
        recs' := recs + [user.value];
      } else {
        assert recs + ToSeq(user) == recs;
      }
    }

    /** One turn of the users loader's line loop: handle the current line
        and, unless the table is full, fetch the next one with strsep. The
        lines handled so far are `done`; the entries they yield are stored. */
    method UsersLoopTurn(ghost chunk: string, ghost orig: seq<User>, ghost done: seq<string>,
                         ghost recs: seq<User>, line: string, ptr: Option<string>)
      returns (full: bool, line': Option<string>, ptr': Option<string>,
               ghost done': seq<string>, ghost recs': seq<User>)
      requires Valid() && |orig| == USERS_NMAX
      requires Lines(chunk) == done + ([line] + Tokens(ptr, '\n'))
      requires recs == UserRecords(done, roles[..numRoles])
      requires numUsers == |recs| <= USERS_NMAX
      requires users[..] == Overlay(orig, recs)
      modifies this`numUsers, users
      ensures Valid()
      ensures line'.None? ==> ptr'.None?
      ensures Lines(chunk) == done' + (ToSeq(line') + Tokens(ptr', '\n'))
      ensures recs' == UserRecords(done', roles[..numRoles])
      ensures numUsers == |recs'| <= USERS_NMAX
      ensures users[..] == Overlay(orig, recs')
      ensures full ==> numUsers == USERS_NMAX && done' == done
      ensures !full ==> |done'| == |done| + 1
    {
      ghost var known := roles[..numRoles];
      full, recs' := UserLineStep(orig, recs, line);
      done', line', ptr' := done, Some(line), ptr;
      if !full {
        UserRecordsSnoc(done, known, line);
        done' := done + [line];
        ConcatAssoc(done, [line], Tokens(ptr, '\n'));
        line', ptr' := StrsepCall(ptr, '\n');
      }
    }

    /** load_users_config. When the file opens, users[] is refilled from the
        records of its first chunk whose role is among roles[0 .. num_roles),
        and num_users counts them; the slots after them keep older entries.
        When it does not open, nothing changes. Unlike the source, loading
        stops once the table is full. */
    method LoadUsersConfig(usersFile: Option<string>)
      requires Valid()
      modifies this`numUsers, users
      ensures Valid()
      ensures usersFile.None? ==> numUsers == old(numUsers) && users[..] == old(users[..])
      ensures usersFile.Some? ==>
        var loaded := LoadedUsers(FirstChunk(usersFile.value), roles[..numRoles]);
        numUsers == |loaded| && users[..] == Overlay(old(users[..]), loaded)
    {
      if usersFile.None? {
        return;
      }
      ghost var orig := users[..];
      var chunk := FirstChunk(usersFile.value);
      var ptr: Option<string> := Some(chunk);
      numUsers := 0;
      var line: Option<string>;
      line, ptr := StrsepCall(ptr, '\n');
      ghost var done: seq<string> := [];
      ghost var recs: seq<User> := [];
      assert users[..] == Overlay(orig, recs);
      var full := false;
      while line.Some? && !full
        invariant line.None? ==> ptr.None?
        invariant Lines(chunk) == done + (ToSeq(line) + Tokens(ptr, '\n'))
        invariant recs == UserRecords(done, roles[..numRoles])
        invariant numUsers == |recs| <= USERS_NMAX
        invariant full ==> numUsers == USERS_NMAX
        invariant users[..] == Overlay(orig, recs)
        invariant Valid()
        decreases |Lines(chunk)| - |done|, !full
      {
        full, line, ptr, done, recs := UsersLoopTurn(chunk, orig, done, recs, line.value, ptr);
      }
      LoadedUsersEnd(chunk, roles[..numRoles], done, ToSeq(line) + Tokens(ptr, '\n'));
    }

    /** get_curr_user for the credential's uid: the role index of the first
        of users[0 .. num_users) with this uid, or -1 when there is none. */
    method GetCurrUser(uid: UInt) returns (user: User)
      requires Valid()
      ensures user == User(uid, UserRole(users[..numUsers], uid))
    {
      user := User(uid, -1);
      var i := 0;
      while i < numUsers
        invariant 0 <= i <= numUsers
        invariant var f := FirstUid(users[i..numUsers], uid);
          FirstUid(users[..numUsers], uid) == if f == -1 then -1 else i + f
      {
        assert users[i..numUsers][1..] == users[i + 1..numUsers];
        if users[i].uid == uid {
          user := User(uid, users[i].roleInd);
          return;
        }
        i := i + 1;
      }
    }

    /** has_permission: the role the user points at grants a bit of `action`. */
    predicate HasPermission(user: User, action: bv32)
      reads roles
      requires 0 <= user.roleInd < roles.Length
    {
      Grants(roles[user.roleInd].perms, action)
    }

    /** check_permission for the credential `uid`, given the contents of the
        switch, roles and users files (None for a file that does not open).
        A disabled module allows without reading the tables; an enabled one
        reloads both tables, allows an unknown user and otherwise allows
        exactly when the user's role grants `action`. */
    method CheckPermission(action: bv32, uid: UInt, switchFile: Option<string>,
                           rolesFile: Option<string>, usersFile: Option<string>) returns (res: int)
      requires Valid()
      modifies this`moduleEnabled, this`numRoles, this`numUsers, roles, users
      ensures Valid()
      ensures moduleEnabled == SwitchAfter(old(moduleEnabled), switchFile)
      ensures !moduleEnabled ==> res == 0
      ensures !moduleEnabled ==> numRoles == old(numRoles) && roles[..] == old(roles[..])
      ensures !moduleEnabled ==> numUsers == old(numUsers) && users[..] == old(users[..])
      ensures moduleEnabled && rolesFile.None? ==> numRoles == old(numRoles) && roles[..] == old(roles[..])
      ensures moduleEnabled && rolesFile.Some? ==>
        var loaded := LoadedRoles(FirstChunk(rolesFile.value));
        numRoles == |loaded| && roles[..] == Overlay(old(roles[..]), loaded)
      ensures moduleEnabled && usersFile.None? ==> numUsers == old(numUsers) && users[..] == old(users[..])
      ensures moduleEnabled && usersFile.Some? ==>
        var loaded := LoadedUsers(FirstChunk(usersFile.value), roles[..numRoles]);
        numUsers == |loaded| && users[..] == Overlay(old(users[..]), loaded)
      ensures moduleEnabled ==> res == Decision(roles[..], users[..numUsers], uid, action)
      ensures moduleEnabled && rolesFile.Some? && usersFile.Some? ==>
        var rs := LoadedRoles(FirstChunk(rolesFile.value));
        var us := LoadedUsers(FirstChunk(usersFile.value), rs);
        RoleIndicesBelow(us, |rs|) && res == Decision(rs, us, uid, action)
      ensures res == 0 || res == EACCES
    {
      LoadSwitch(switchFile);
      if !moduleEnabled {
        return 0;
      }
      LoadRolesConfig(rolesFile);
      LoadUsersConfig(usersFile);
      res := Decide(uid, action);
      if rolesFile.Some? && usersFile.Some? {
        var rs := LoadedRoles(FirstChunk(rolesFile.value));
        var us := LoadedUsers(FirstChunk(usersFile.value), rs);
        assert users[..numUsers] == us;
        FreshCycleDecision(old(roles[..]), FirstChunk(rolesFile.value), FirstChunk(usersFile.value), uid, action);
      }
    }

    /** The tail of check_permission once the tables are loaded: look the
        user up, allow an unknown one, otherwise allow exactly when the role
        grants `action` and deny with EACCES when it does not. */
    method Decide(uid: UInt, action: bv32) returns (res: int)
      requires Valid()
      ensures RoleIndicesBelow(users[..numUsers], roles.Length)
      ensures res == Decision(roles[..], users[..numUsers], uid, action)
      ensures res == 0 || res == EACCES
    {
      assert RoleIndicesBelow(users[..numUsers], roles.Length) by {
        forall i | 0 <= i < numUsers
          ensures 0 <= users[..numUsers][i].roleInd < roles.Length
        {
          assert users[..numUsers][i] == users[i];
        }
      }
      var user := GetCurrUser(uid);
      if user.roleInd == -1 {
        res := 0;
      } else if HasPermission(user, action) {
        res := 0;
      } else {
        res := EACCES;
      }
    }

    /** hook_inode_rmdir: check_permission for removing a directory. */
    method HookInodeRmdir(uid: UInt, switchFile: Option<string>,
                          rolesFile: Option<string>, usersFile: Option<string>) returns (res: int)
      requires Valid()
      modifies this`moduleEnabled, this`numRoles, this`numUsers, roles, users
      ensures Valid()
      ensures moduleEnabled == SwitchAfter(old(moduleEnabled), switchFile)
      ensures !moduleEnabled ==> res == 0
      ensures !moduleEnabled ==> numRoles == old(numRoles) && roles[..] == old(roles[..])
      ensures !moduleEnabled ==> numUsers == old(numUsers) && users[..] == old(users[..])
      ensures moduleEnabled && rolesFile.None? ==> numRoles == old(numRoles) && roles[..] == old(roles[..])
      ensures moduleEnabled && rolesFile.Some? ==>
        var loaded := LoadedRoles(FirstChunk(rolesFile.value));
        numRoles == |loaded| && roles[..] == Overlay(old(roles[..]), loaded)
      ensures moduleEnabled && usersFile.None? ==> numUsers == old(numUsers) && users[..] == old(users[..])
      ensures moduleEnabled && usersFile.Some? ==>
        var loaded := LoadedUsers(FirstChunk(usersFile.value), roles[..numRoles]);
        numUsers == |loaded| && users[..] == Overlay(old(users[..]), loaded)
      ensures moduleEnabled ==> res == Decision(roles[..], users[..numUsers], uid, PERM_RMDIR_VAL)
      ensures moduleEnabled && rolesFile.Some? && usersFile.Some? ==>
        var rs := LoadedRoles(FirstChunk(rolesFile.value));
        var us := LoadedUsers(FirstChunk(usersFile.value), rs);
        RoleIndicesBelow(us, |rs|) && res == Decision(rs, us, uid, PERM_RMDIR_VAL)
      ensures res == 0 || res == EACCES
    {
      res := CheckPermission(PERM_RMDIR_VAL, uid, switchFile, rolesFile, usersFile);
    }

    /** hook_inode_mkdir: check_permission for creating a directory. */
    method HookInodeMkdir(uid: UInt, switchFile: Option<string>,
                          rolesFile: Option<string>, usersFile: Option<string>) returns (res: int)
      requires Valid()
      modifies this`moduleEnabled, this`numRoles, this`numUsers, roles, users
      ensures Valid()
      ensures moduleEnabled == SwitchAfter(old(moduleEnabled), switchFile)
      ensures !moduleEnabled ==> res == 0
      ensures !moduleEnabled ==> numRoles == old(numRoles) && roles[..] == old(roles[..])
      ensures !moduleEnabled ==> numUsers == old(numUsers) && users[..] == old(users[..])
      ensures moduleEnabled && rolesFile.None? ==> numRoles == old(numRoles) && roles[..] == old(roles[..])
      ensures moduleEnabled && rolesFile.Some? ==>
        var loaded := LoadedRoles(FirstChunk(rolesFile.value));
        numRoles == |loaded| && roles[..] == Overlay(old(roles[..]), loaded)
      ensures moduleEnabled && usersFile.None? ==> numUsers == old(numUsers) && users[..] == old(users[..])
      ensures moduleEnabled && usersFile.Some? ==>
        var loaded := LoadedUsers(FirstChunk(usersFile.value), roles[..numRoles]);
        numUsers == |loaded| && users[..] == Overlay(old(users[..]), loaded)
      ensures moduleEnabled ==> res == Decision(roles[..], users[..numUsers], uid, PERM_MKDIR_VAL)
      ensures moduleEnabled && rolesFile.Some? && usersFile.Some? ==>
        var rs := LoadedRoles(FirstChunk(rolesFile.value));
        var us := LoadedUsers(FirstChunk(usersFile.value), rs);
        RoleIndicesBelow(us, |rs|) && res == Decision(rs, us, uid, PERM_MKDIR_VAL)
      ensures res == 0 || res == EACCES
    {
      res := CheckPermission(PERM_MKDIR_VAL, uid, switchFile, rolesFile, usersFile);
    }
  }
}
