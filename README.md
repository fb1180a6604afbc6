# RBAC Linux security module: a Dafny model of its policy engine

`rbac/rbac_lsm.c` is a small Linux security module. It hooks directory removal (`inode_rmdir`) and creation (`inode_mkdir`). On every hooked call it re-reads a switch file whose first byte turns the module on or off. Only while the module is on does it go on to re-read two configuration files:
- a roles file of `role=PERM,PERM,...` lines;
- a users file of `uid=role` lines.

It loads them into the static tables `roles[5]` and `users[10]`, looks up the caller's uid and decides:
- allow (0) when the module is off or the user is not listed;
- otherwise allow exactly when the user's role holds the permission bit of the action;
- deny with `EACCES` when it does not.

The project models that engine in five modules.

- `Wrappers`: `Option`.
- `CStrings`: the C string routines the loaders rely on, modelled on NUL-free strings.
  - `strcspn` and `strsep`. A `char *` cursor that may be NULL is an `Option<string>`.
  - The token sequence repeated `strsep` calls produce, with split/join round trips.
  - `strncpy` into a zero-filled buffer, as `Take`.
  - `strncmp(...) == 0`, as `StrnEq`.
- `Atoui`: the module's own `atoui`, with its silent wrap-around modulo 2^32.
- `Policy`: the policy as values.
  - What one line of each file contributes (`RoleOfLine`, `UserOfLine`).
  - The tables a configuration text yields: `LoadedRoles` and `LoadedUsers`, capped at the table sizes.
  - The same tables before the cap: `RoleRecords` and `UserRecords`, what the source's loops actually store.
  - The current-user lookup (`UserRole`) and the decision (`Decision`).
- `RbacLsm`: class `Rbac` holds the global state.
  - Fields: the two arrays, `num_roles`, `num_users` and `module_enabled`.
  - Methods: `load_switch`, `load_roles_config`, `load_users_config`, `get_curr_user`, `check_permission` and the two hooks.
  - `has_permission` is the predicate `HasPermission` over `roles`; `Decide`, the tail of `check_permission`, calls it.
  - The loaders are `strsep` loops over the arrays. Each is proved to leave `Overlay(old table, loaded entries)` in its array: the first `n` slots are refilled and later slots keep what an earlier cycle left there.
- `Scenarios`: worked configurations.
  - A one-role, one-user configuration in general.
  - The `guest=RMDIR` / `42=guest` configuration, through the hooks.
  - The switch cases and truncated role names.
  - The capacity overflow and stale role indices described below.

A configuration file enters the model as its content, or `None` when it cannot be opened. The caller's credential enters as its uid.

Four behaviours of the code are easy to misread. The model follows the code in each:
- **Switch file that cannot be opened.** `load_switch` returns before touching `module_enabled`, so the flag keeps its previous value. That value is `false` at boot, because the static is zero-initialised. A freshly loaded module without a switch file therefore allows everything, rather than enforcing the policy (`Scenarios.MissingSwitchAtBootAllows`).
- **Roles or users file that cannot be opened.** The loader returns before resetting its counter, so the table of the previous cycle stays in force. It is not emptied.
- **Stale role indices.** When the roles file loads but the users file does not open, the users of an earlier cycle keep role indices that may lie beyond the new `num_roles`. `has_permission` then reads whatever an earlier load left in that slot (`Scenarios.StaleRoleAcrossCycles`, `Scenarios.StaleRoleReference`). When both files open, the decision depends on this cycle's two texts alone (`Policy.FreshCycleDecision`).
- **Capacity.** The "Too many roles" and "Too many users" messages show that loading is meant to stop at the table size. The code does not stop (see Findings). The model's loaders stop once the table is full.

## Model

| member | source | states |
|---|---|---|
| CStrings.Strcspn | rbac/rbac_lsm.c:199 | strcspn(s, "\r"): no character before the result is the reject character, and the one at the result (if any) is |
| CStrings.Strsep | rbac/rbac_lsm.c:204-205 | strsep: a NULL cursor gives NULL; otherwise the token holds no delimiter and token + delimiter + new cursor (or the token alone, when the cursor becomes NULL) rebuild the old text |
| CStrings.Tokens | rbac/rbac_lsm.c:209-219 | the tokens a strsep loop yields until NULL: at least one for a non-NULL cursor, none containing the delimiter |
| CStrings.StrsepStep | rbac/rbac_lsm.c:219 | one strsep call consumes exactly the first remaining token; a NULL token leaves a NULL cursor |
| CStrings.StrsepCall | rbac/rbac_lsm.c:196 | a strsep call site returns the token and cursor of Strsep and advances the token sequence by one |
| CStrings.SplitJoin | rbac/rbac_lsm.c:196-233 | splitting at the delimiter recovers pieces joined with it (pieces without the delimiter) |
| CStrings.JoinSplit | rbac/rbac_lsm.c:196-233 | joining the strsep tokens with the delimiter gives back the whole text |
| CStrings.Take | rbac/rbac_lsm.c:222 | strncpy(dst, s, n) into a zeroed buffer: a prefix of s, of length min(\|s\|, n) |
| CStrings.StrnEqExact | rbac/rbac_lsm.c:212-214 | strncmp(a, b, n) == 0 with b shorter than n is exact equality |
| Atoui.Atoui | rbac/rbac_lsm.c:45-53 | the accumulator loop computes AtouiValue: res*10 + c - '0' per character, modulo 2^32 |
| Atoui.AtouiIsDecimal | rbac/rbac_lsm.c:45-53 | on a string of digits atoui is its decimal value modulo 2^32 |
| Policy.FirstChunk | rbac/rbac_lsm.c:183-188 | the text parsed is a NUL-free prefix of the file of at most 1023 bytes; when it stops short of both the file's end and 1023 bytes, the file has a NUL there; a short NUL-free file is parsed whole |
| Policy.StripCr | rbac/rbac_lsm.c:199 | the line cut at its first '\r': a prefix without '\r', followed in the line by '\r' when shorter |
| Policy.Key | rbac/rbac_lsm.c:204 | the text before the first '=' holds no '=' |
| Policy.RecordParts | rbac/rbac_lsm.c:199-205 | a record is key, '=', value |
| Policy.RecordRoundTrip | rbac/rbac_lsm.c:199-205 | a line written key=value is a record whose key and value read back unchanged |
| Policy.PermsOfBits | rbac/rbac_lsm.c:208-220 | the mask has the RMDIR bit iff a token is exactly "RMDIR", the MKDIR bit iff one is exactly "MKDIR", and no other bit |
| Policy.AddPerm | rbac/rbac_lsm.c:212-218 | the strncmp chain ORs in the bit of a recognised name and leaves the mask unchanged otherwise |
| Policy.PermsFromOf | rbac/rbac_lsm.c:208-220 | accumulating the tokens into a mask ORs their bits into it |
| Policy.PermStep | rbac/rbac_lsm.c:211-219 | one turn of the permission loop moves the current token into the mask and fetches the next token |
| Policy.ParsePerms | rbac/rbac_lsm.c:208-220 | the permission loop yields the OR of the bits of all comma-separated tokens |
| Policy.RoleOfLine | rbac/rbac_lsm.c:199-226 | a line adds a role iff it is a record; the role's name is the key truncated to 20 characters and its mask is the permissions of the value, at most 3 |
| Policy.RoleLineRoundTrip | rbac/rbac_lsm.c:199-226 | the line name=P1,...,Pk loads the role (truncated name, permissions of P1..Pk) |
| Policy.RoleRecords | rbac/rbac_lsm.c:196-233 | the roles the line loop stores, unbounded: each with a name of at most 20 characters and a mask of at most 3 |
| Policy.LoadedRoles | rbac/rbac_lsm.c:187-233 | the loaded roles: at most 5, a prefix of the records, exactly 5 when there are at least 5 records, and all of the records when there are at most 5 |
| Policy.FindRole | rbac/rbac_lsm.c:131-140 | the lowest index whose stored name strncmp-matches (bound 50), or -1 when none matches |
| Policy.FindRoleExact | rbac/rbac_lsm.c:131-140 | over stored names of at most 20 characters the match is exact string equality |
| Policy.UserOfLine | rbac/rbac_lsm.c:119-149 | a line adds a user iff it is a record whose value names a loaded role; the user is (atoui(key), lowest index of that role) |
| Policy.UserLineRoundTrip | rbac/rbac_lsm.c:119-149 | the line uid=role loads (atoui(uid), index of role), or nothing when the role is unknown |
| Policy.UserRecords | rbac/rbac_lsm.c:117-153 | the users the line loop stores, unbounded, every role index within the role table |
| Policy.LoadedUsers | rbac/rbac_lsm.c:110-153 | the loaded users: at most 10, a prefix of the records, exactly 10 when there are at least 10 records, all of the records when there are at most 10, role indices within the roles |
| Policy.FirstUidSpec | rbac/rbac_lsm.c:240-252 | -1 iff no entry has the uid; otherwise the entry found has it and no earlier entry does |
| Policy.FreshCycleDecision | rbac/rbac_lsm.c:261-289 | when both files open, the decision over the arrays (stale slots included) equals the decision over this cycle's loaded roles and users |
| Policy.ManagedUserDecision | rbac/rbac_lsm.c:255-289 | for a listed user there is a role line its role comes from; rmdir is allowed iff that line lists RMDIR and mkdir iff it lists MKDIR |
| RbacLsm.Rbac.constructor | rbac/rbac_lsm.c:38-43 | the statics at boot: zeroed tables of sizes 10 and 5, zero counters, module disabled |
| RbacLsm.Rbac.LoadSwitch | rbac/rbac_lsm.c:55-85 | an unopened file keeps the flag; an opened one enables the module unless its first byte exists and is not '1' |
| RbacLsm.Rbac.ParseRoleLine | rbac/rbac_lsm.c:199-221 | the role-line body (cut '\r', skip empty, strsep '=', permission loop) computes RoleOfLine |
| RbacLsm.Rbac.AppendRole | rbac/rbac_lsm.c:222-226 | the store writes roles[num_roles] and increments num_roles: the array becomes Overlay(old, records + [role]) |
| RbacLsm.Rbac.RoleLineStep | rbac/rbac_lsm.c:199-230 | a line's role is stored when there is room; when the table is full and the line holds a role, nothing changes and the step reports full |
| RbacLsm.Rbac.RolesLoopTurn | rbac/rbac_lsm.c:196-233 | one turn of the line loop keeps "stored = Overlay(old, RoleRecords(lines read))" and advances the cursor by one line |
| RbacLsm.Rbac.LoadRolesConfig | rbac/rbac_lsm.c:164-238 | unopened file: nothing changes; otherwise num_roles == \|LoadedRoles(chunk)\| and roles[] == Overlay(old roles[], LoadedRoles(chunk)) |
| RbacLsm.Rbac.FindRoleIndex | rbac/rbac_lsm.c:131-140 | the lookup loop over roles[0..num_roles) returns FindRole on that prefix |
| RbacLsm.Rbac.ParseUserLine | rbac/rbac_lsm.c:119-143 | the user-line body (cut '\r', skip empty, strsep '=', atoui, role lookup) computes UserOfLine against this cycle's roles |
| RbacLsm.Rbac.AppendUser | rbac/rbac_lsm.c:144-148 | the store writes users[num_users] and increments num_users: Overlay(old, records + [user]) |
| RbacLsm.Rbac.UserLineStep | rbac/rbac_lsm.c:119-152 | a line's user is stored when there is room; when the table is full and the line holds a user, nothing changes and the step reports full |
| RbacLsm.Rbac.UsersLoopTurn | rbac/rbac_lsm.c:117-153 | one turn of the line loop keeps "stored = Overlay(old, UserRecords(lines read))" and advances the cursor by one line |
| RbacLsm.Rbac.LoadUsersConfig | rbac/rbac_lsm.c:87-162 | unopened file: nothing changes; otherwise num_users == \|LoadedUsers(chunk, roles[..num_roles])\| and users[] == Overlay(old users[], those users) |
| RbacLsm.Rbac.GetCurrUser | rbac/rbac_lsm.c:240-252 | the first of users[0..num_users) with the uid gives the role index, else -1 |
| RbacLsm.Rbac.Decide | rbac/rbac_lsm.c:255-288 | get_curr_user, then has_permission (roles[role_ind].perms & action != 0): unknown user: 0; otherwise 0 iff the role's mask shares a bit with the action, else EACCES |
| RbacLsm.Rbac.CheckPermission | rbac/rbac_lsm.c:261-289 | switch reloaded; disabled: 0 with the tables untouched; enabled: both tables reloaded and the result is Decision over them, which with both files open is the decision over this cycle's texts alone; result 0 or EACCES |
| RbacLsm.Rbac.HookInodeRmdir | rbac/rbac_lsm.c:291-301 | check_permission for RMDIR: the switch reloaded; disabled: 0 with both tables untouched; enabled: each table reloaded from its file (untouched when the file does not open) and the RMDIR decision over them |
| RbacLsm.Rbac.HookInodeMkdir | rbac/rbac_lsm.c:303-313 | check_permission for MKDIR: the switch reloaded; disabled: 0 with both tables untouched; enabled: each table reloaded from its file (untouched when the file does not open) and the MKDIR decision over them |
| Scenarios.RolesOfOneLine | rbac/rbac_lsm.c:196-233 | a roles file of one short line loads exactly the role that line yields |
| Scenarios.UsersOfOneLine | rbac/rbac_lsm.c:117-153 | a users file of one short line loads exactly the user that line yields |
| Scenarios.SingleRoleSingleUser | rbac/rbac_lsm.c:261-289 | with name=P1,...,Pk and uid=name, that uid is refused exactly the actions the role lacks and every other uid is allowed |
| Scenarios.GuestScenario | rbac/rbac_lsm.c:261-289 | guest=RMDIR and 42=guest: uid 42 is denied mkdir and allowed rmdir; uid 99 is allowed |
| Scenarios.GuestHooks | rbac/rbac_lsm.c:291-313 | the same configuration through the two hooks of an enabled module gives EACCES for mkdir and 0 for rmdir |
| Scenarios.PermissionTokens | rbac/rbac_lsm.c:212-218 | RMDIR and MKDIR set bits 1 and 2; other tokens (lower case, unknown, empty) set none |
| Scenarios.LongRoleName | rbac/rbac_lsm.c:131-140 | a role name over 20 characters is stored truncated; a user naming it in full is dropped, one naming the first 20 characters is bound to it |
| Scenarios.SwitchCases | rbac/rbac_lsm.c:55-85 | unopened keeps the flag; empty or '1' enables; '0' disables |
| Scenarios.SwitchOffAllows | rbac/rbac_lsm.c:261-268 | a switch file holding '0' makes mkdir allowed whatever the configuration |
| Scenarios.MissingSwitchAtBootAllows | rbac/rbac_lsm.c:261-268 | at boot without a switch file the module is off and rmdir is allowed |
| Scenarios.RolesOverflowAsWritten | rbac/rbac_lsm.c:188-226 | a roles file of six short lines, read whole by the first read, makes the source's loop store six roles (one past roles[5]); the corrected loader keeps five |
| Scenarios.UsersOverflowAsWritten | rbac/rbac_lsm.c:111-148 | a users file of eleven short lines, read whole by the first read, makes the source's loop store eleven users (one past users[10]); the corrected loader keeps ten |
| Scenarios.StaleRoleReference | rbac/rbac_lsm.c:270-281 | after a one-role load with the users file unopened, a user bound to index 3 is decided by the old roles[3] |
| Scenarios.StaleRoleAcrossCycles | rbac/rbac_lsm.c:261-289 | two calls of an enabled module: a users file binding the uid to role index 3, then a one-line roles file with the users file unopened; the second call still decides by the role the first roles file put at index 3 |

## Left out

- File access: `filp_open`, `kernel_read`, `set_fs`/`get_fs` and `filp_close` are not modelled. A file is its content, or `None` when it does not open. Reads after the first change nothing: the line cursor is NULL by then, and the capacity test they repeat only breaks out. Only the first read is modelled.
- `printk` diagnostics and the `linei` line counter are left out: they only feed log messages.
- `prepare_creds` is not modelled; the uid is a parameter. The credential reference it leaks is out of scope.
- Module registration (`security_add_hooks`, `rbac_init`) and the unused `inode`/`dentry` hook arguments are not modelled.
- Concurrency: calls run one at a time. Two hooked calls interleaving their reloads over the shared tables is not modelled.
- Atoui.Atoui: characters are taken as unsigned bytes. Where `char` is signed, bytes 0x80-0xFF would contribute negative values before the wrap-around.
- RbacLsm.Rbac.LoadRolesConfig: stops storing once five roles are held, where the source writes past the array (see Findings).
- RbacLsm.Rbac.LoadUsersConfig: stops storing once ten users are held, where the source writes past the array (see Findings).
- `num_roles`, `num_users` and role indices are unbounded integers; they never approach the C `int` range here.

## Findings

| source | as written | input that shows it | evidently intended | confidence | as-written member | corrected member |
|---|---|---|---|---|---|---|
| rbac/rbac_lsm.c:191-226 | the test `num_roles >= ROLES_NMAX` runs once per read, before the line loop, which then stores `roles[num_roles]` for every record | a roles file of six lines `r=RMDIR` | stop storing once five roles are held | high; not executed | Policy.RoleRecords, Scenarios.RolesOverflowAsWritten | Policy.LoadedRoles, RbacLsm.Rbac.LoadRolesConfig |
| rbac/rbac_lsm.c:114-148 | the test `num_users >= USERS_NMAX` runs once per read, before the line loop, which then stores `users[num_users]` for every known-role record | a users file of eleven lines `7=r` with a role `r` loaded | stop storing once ten users are held | high; not executed | Policy.UserRecords, Scenarios.UsersOverflowAsWritten | Policy.LoadedUsers, RbacLsm.Rbac.LoadUsersConfig |
