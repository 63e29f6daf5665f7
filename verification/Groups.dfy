/**
  Group membership in the user service (`user/usergroup/groupuser.go`, the group part of
  `Put` in `user/controllers/user.go`, `GetUserGroup` in `user/user/user.go`).
 */
module Groups {
  import opened Wrappers
  import opened Etcd

  /** What the store holds under the group tree: a group's details, a user's role in a group. */
  datatype Value = Info(name: string) | Role(role: string) | Unrelated

  const BASE: Path := ["", "ufleet", "usergroup"]
  const GROUP_ADMIN := "group_admin"
  const GROUP_USER := "group_user"

  function GroupDir(g: string): Path { BASE + [g] }
  function InfoKey(g: string): Path { BASE + [g, "info"] }
  function UsersDir(g: string): Path { BASE + [g, "user"] }
  function MemberDir(g: string, uid: string): Path { BASE + [g, "user", uid] }
  function RoleKey(g: string, uid: string): Path { BASE + [g, "user", uid, "role"] }

  /** User IDs are 32 random bytes in hexadecimal. */
  predicate IsId(uid: string) { |uid| == 64 }

  predicate IsInfoKey(key: Path) {
    |key| == 5 && key == InfoKey(key[3]) && key[3] != ""
  }

  predicate IsRoleKey(key: Path) {
    |key| == 7 && key == RoleKey(key[3], key[5]) && key[3] != "" && IsId(key[5])
  }

  /** The group tree holds group details and roles only, and roles only in groups that have details. */
  ghost predicate WellFormed(kvs: map<Path, Value>) {
    forall key :: key in kvs && Under(BASE, key) ==>
      || (IsInfoKey(key) && kvs[key] == Info(key[3]))
      || (IsRoleKey(key) && kvs[key].Role? && InfoKey(key[3]) in kvs)
  }

  predicate Member(kvs: map<Path, Value>, g: string, uid: string) {
    RoleKey(g, uid) in kvs
  }

  // ---------- what the listings show ----------

  function Existing(kvs: map<Path, Value>): set<string> {
    set p | p in Listing(kvs, BASE) :: BaseName(p)
  }

  predicate Exists(kvs: map<Path, Value>, g: string) {
    g != "" && g in Existing(kvs)
  }

  predicate Visible(kvs: map<Path, Value>, g: string, uid: string) {
    MemberDir(g, uid) in Listing(kvs, UsersDir(g))
  }

  /** `GetUserGroup` and `GetAllGroupname`. */
  function GroupsOf(kvs: map<Path, Value>, uid: string): set<string> {
    set gk, uk | gk in Listing(kvs, BASE) && uk in Listing(kvs, gk + ["user"]) && BaseName(uk) == uid :: BaseName(gk)
  }

  lemma EntryOfGroupKey(key: Path)
    requires IsInfoKey(key) || IsRoleKey(key)
    ensures Under(BASE, key) && Entry(key, "usergroup") == Some(GroupDir(key[3]))
  {
    assert key[..3] == BASE;
    assert BASE[..2] == key[..2];
    assert key[2] == "usergroup" && key[0] != "usergroup" && key[1] != "usergroup";
    assert FirstAt(key, "usergroup") == 2;
    assert key[..4] == GroupDir(key[3]);
  }

  lemma NamesOfDirs(g: string, uid: string)
    ensures BaseName(BASE) == "usergroup" && BaseName(UsersDir(g)) == "user"
    ensures g != "" ==> BaseName(GroupDir(g)) == g
    ensures uid != "" ==> BaseName(MemberDir(g, uid)) == uid
  {
  }

  lemma ListedGroup(kvs: map<Path, Value>, p: Path)
    requires WellFormed(kvs)
    ensures p in Listing(kvs, BASE) <==> |p| == 4 && p == GroupDir(p[3]) && p[3] != "" && InfoKey(p[3]) in kvs
  {
    NamesOfDirs("", "");
    if p in Listing(kvs, BASE) {
      var key :| key in kvs && Under(BASE, key) && Entry(key, "usergroup") == Some(p);
      EntryOfGroupKey(key);
    } else if |p| == 4 && p == GroupDir(p[3]) && p[3] != "" && InfoKey(p[3]) in kvs {
      EntryOfGroupKey(InfoKey(p[3]));
      assert false;
    }
  }

  lemma GroupExists(kvs: map<Path, Value>, g: string)
    requires WellFormed(kvs)
    ensures Exists(kvs, g) <==> g != "" && InfoKey(g) in kvs
  {
    if g != "" {
      NamesOfDirs(g, "");
      ListedGroup(kvs, GroupDir(g));
      forall p | p in Listing(kvs, BASE) ensures p == GroupDir(BaseName(p)) && InfoKey(BaseName(p)) in kvs {
        ListedGroup(kvs, p);
        NamesOfDirs(p[3], "");
      }
      if InfoKey(g) in kvs { assert GroupDir(g) in Listing(kvs, BASE); }
    }
  }

  /** A member key shows up in the listing of its group's users, unless the group is called like the directory. */
  lemma EntryOfRoleKey(g: string, uid: string)
    ensures Under(UsersDir(g), RoleKey(g, uid))
    ensures g != "user" ==> Entry(RoleKey(g, uid), "user") == Some(MemberDir(g, uid))
    ensures g == "user" ==> Entry(RoleKey(g, uid), "user") == Some(UsersDir(g))
  {
    var key := RoleKey(g, uid);
    assert key[..4] == UsersDir(g)[..4] && key[4] == "user";
    assert key[0] != "user" && key[1] != "user" && key[2] != "user" && key[3] == g;
    if g == "user" {
      assert FirstAt(key, "user") == 3;
      assert key[..5] == UsersDir(g);
    } else {
      assert FirstAt(key, "user") == 4;
      assert key[..6] == MemberDir(g, uid);
    }
  }

  /** Only member keys of the group are fetched with its users. */
  lemma UnderUsers(kvs: map<Path, Value>, g: string, key: Path)
    requires WellFormed(kvs) && key in kvs && Under(UsersDir(g), key)
    ensures IsRoleKey(key) && key == RoleKey(g, key[5])
  {
    assert key[..4] == UsersDir(g)[..4];
    assert key[0] == "" && key[1] == "ufleet" && key[2] == "usergroup" && key[3] == g;
    assert key[..2] == BASE[..2];
    assert Under(BASE, key);
    assert key[4][0] == 'u' && "info"[0] == 'i';
  }

  lemma ListedUser(kvs: map<Path, Value>, g: string, p: Path)
    requires WellFormed(kvs)
    ensures g != "user" ==>
      (p in Listing(kvs, UsersDir(g)) <==> |p| == 6 && p == MemberDir(g, p[5]) && Member(kvs, g, p[5]))
    ensures g == "user" && p in Listing(kvs, UsersDir(g)) ==> p == UsersDir(g)
  {
    NamesOfDirs(g, "");
    if p in Listing(kvs, UsersDir(g)) {
      var key :| key in kvs && Under(UsersDir(g), key) && Entry(key, "user") == Some(p);
      UnderUsers(kvs, g, key);
      EntryOfRoleKey(g, key[5]);
    }
    if g != "user" && |p| == 6 && p == MemberDir(g, p[5]) && Member(kvs, g, p[5]) {
      EntryOfRoleKey(g, p[5]);
    }
  }

  /** A member is seen in every group but one called "user". */
  lemma VisibleMembers(kvs: map<Path, Value>, g: string, uid: string)
    requires WellFormed(kvs)
    ensures Visible(kvs, g, uid) <==> g != "user" && Member(kvs, g, uid)
  {
    ListedUser(kvs, g, MemberDir(g, uid));
  }

  /** A group found with the user's directory in it is one the user is seen in. */
  lemma FoundGroup(kvs: map<Path, Value>, uid: string, gk: Path, uk: Path)
    requires WellFormed(kvs) && IsId(uid)
    requires gk in Listing(kvs, BASE) && uk in Listing(kvs, gk + ["user"]) && BaseName(uk) == uid
    ensures BaseName(gk) != "user" && Member(kvs, BaseName(gk), uid)
  {
    hide WellFormed, Listing;
    ListedGroup(kvs, gk);
    var g := gk[3];
    NamesOfDirs(g, "");
    assert gk + ["user"] == UsersDir(g);
    ListedUser(kvs, g, uk);
    if g != "user" { NamesOfDirs(g, uk[5]); }
  }

  lemma MemberIsFound(kvs: map<Path, Value>, uid: string, g: string)
    requires WellFormed(kvs) && IsId(uid) && g != "user" && Member(kvs, g, uid)
    ensures GroupDir(g) in Listing(kvs, BASE) && MemberDir(g, uid) in Listing(kvs, GroupDir(g) + ["user"])
    ensures BaseName(MemberDir(g, uid)) == uid && BaseName(GroupDir(g)) == g
  {
    EntryOfGroupKeyOf(kvs, g, uid);
    hide WellFormed, Listing;
    ListedGroup(kvs, GroupDir(g));
    NamesOfDirs(g, uid);
    ListedUser(kvs, g, MemberDir(g, uid));
    assert GroupDir(g) + ["user"] == UsersDir(g);
  }

  lemma EntryOfGroupKeyOf(kvs: map<Path, Value>, g: string, uid: string)
    requires WellFormed(kvs) && Member(kvs, g, uid)
    ensures g != "" && InfoKey(g) in kvs
  {
    var key := RoleKey(g, uid);
    assert key[..2] == BASE[..2] && key[2] == "usergroup" && key[3] == g;
    assert Under(BASE, key);
  }

  lemma GroupsOfMember(kvs: map<Path, Value>, uid: string, g: string)
    requires WellFormed(kvs) && IsId(uid)
    ensures g in GroupsOf(kvs, uid) <==> g != "user" && Member(kvs, g, uid)
  {
    hide WellFormed, Listing, BaseName, Member;
    if g in GroupsOf(kvs, uid) {
      var gk, uk :| gk in Listing(kvs, BASE) && uk in Listing(kvs, gk + ["user"])
                    && BaseName(uk) == uid && BaseName(gk) == g;
      FoundGroup(kvs, uid, gk, uk);
    }
    if g != "user" && Member(kvs, g, uid) {
      MemberIsFound(kvs, uid, g);
    }
  }

  // ---------- the store after adding and removing members ----------

  function RoleKeys(groups: set<string>, uid: string): set<Path> {
    set g | g in groups :: RoleKey(g, uid)
  }

  function Assigned(kvs: map<Path, Value>, groups: set<string>, uid: string, role: string): map<Path, Value> {
    map key | key in kvs.Keys + RoleKeys(groups, uid) ::
      if key in RoleKeys(groups, uid) then Role(role) else kvs[key]
  }

  /** The store after a successful update of the user's groups to `listed`. */
  function Reconciled(kvs: map<Path, Value>, uid: string, listed: set<string>, role: string): map<Path, Value> {
    var before := GroupsOf(kvs, uid);
    Assigned(kvs - RoleKeys(before - listed, uid), listed - before, uid, role)
  }

  lemma RoleKeyIsInjective(g: string, u: string, h: string, v: string)
    ensures RoleKey(g, u) == RoleKey(h, v) <==> g == h && u == v
  {
    assert RoleKey(g, u)[3] == g && RoleKey(g, u)[5] == u;
    assert RoleKey(h, v)[3] == h && RoleKey(h, v)[5] == v;
  }

  lemma InRoleKeys(groups: set<string>, uid: string, g: string, v: string)
    ensures RoleKey(g, v) in RoleKeys(groups, uid) <==> v == uid && g in groups
  {
    forall h ensures RoleKey(h, uid) == RoleKey(g, v) <==> h == g && v == uid {
      RoleKeyIsInjective(h, uid, g, v);
    }
  }

  lemma InfoIsNoRole(groups: set<string>, uid: string, g: string)
    ensures InfoKey(g) !in RoleKeys(groups, uid)
  {
    forall h ensures RoleKey(h, uid) != InfoKey(g) {
      assert |RoleKey(h, uid)| == 7 && |InfoKey(g)| == 5;
    }
  }

  lemma UnderMember(kvs: map<Path, Value>, g: string, uid: string, key: Path)
    requires WellFormed(kvs) && IsId(uid) && key in kvs && Under(MemberDir(g, uid), key)
    ensures key == RoleKey(g, uid)
  {
    var dir := MemberDir(g, uid);
    assert key[..5] == dir[..5];
    assert key[..4] == key[..5][..4] && dir[..4] == dir[..5][..4] == UsersDir(g)[..4];
    assert key[4] == key[..5][4] == dir[..5][4] == "user";
    UnderUsers(kvs, g, key);
    assert key[5] == key[5][..64] == uid;
  }

  /** As IDs have one length, removing a member's directory removes that member only. */
  lemma RemovedMember(kvs: map<Path, Value>, g: string, uid: string)
    requires WellFormed(kvs) && IsId(uid)
    ensures WithoutDir(kvs, MemberDir(g, uid)) == kvs - {RoleKey(g, uid)}
  {
    var dir := MemberDir(g, uid);
    assert RoleKey(g, uid)[..5] == dir[..5] && Under(dir, RoleKey(g, uid));
    hide Under, WellFormed;
    forall key | key in kvs && Under(dir, key) ensures key == RoleKey(g, uid) {
      UnderMember(kvs, g, uid, key);
    }
  }

  lemma RemovalKeepsWellFormed(kvs: map<Path, Value>, groups: set<string>, uid: string)
    requires WellFormed(kvs)
    ensures WellFormed(kvs - RoleKeys(groups, uid))
  {
    forall g ensures InfoKey(g) !in RoleKeys(groups, uid) { InfoIsNoRole(groups, uid, g); }
    hide Under;
  }

  lemma AssignmentKeepsWellFormed(kvs: map<Path, Value>, groups: set<string>, uid: string, role: string)
    requires WellFormed(kvs) && IsId(uid)
    requires forall g :: g in groups ==> g != "" && InfoKey(g) in kvs
    ensures WellFormed(Assigned(kvs, groups, uid, role))
  {
    hide Under;
    forall g | g in groups ensures IsRoleKey(RoleKey(g, uid)) && RoleKey(g, uid)[3] == g {
      assert RoleKey(g, uid)[3] == g && RoleKey(g, uid)[5] == uid;
    }
    forall g | InfoKey(g) in kvs ensures InfoKey(g) in Assigned(kvs, groups, uid, role) {
      InfoIsNoRole(groups, uid, g);
    }
  }

  // ---------- a user in a group ----------

  class GroupUser {
    var role: Option<string>
    var group: string
    var user: string

    constructor ()
      ensures role == None && group == "" && user == ""
    {
      role, group, user := None, "", "";
    }

    method CheckGroupExist(etcd: Client<Value>) returns (exist: bool)
      ensures exist == Exists(etcd.kvs, group)
    {
      if |group| == 0 { return false; }
      var keys := etcd.ListDir(BASE);
      for i := 0 to |keys|
        invariant forall j :: 0 <= j < i ==> BaseName(keys[j]) != group
      {
        if BaseName(keys[i]) == group { return true; }
      }
      return false;
    }

    method CheckGroupExistUser(etcd: Client<Value>) returns (exist: bool)
      ensures exist == Visible(etcd.kvs, group, user)
    {
      var keys := etcd.ListDir(UsersDir(group));
      for i := 0 to |keys|
        invariant forall j :: 0 <= j < i ==> keys[j] != MemberDir(group, user)
      {
        if keys[i] == MemberDir(group, user) { return true; }
      }
      return false;
    }

    method CheckSelfExistInGroup(etcd: Client<Value>) returns (exist: bool)
      ensures exist == (Exists(etcd.kvs, group) && Visible(etcd.kvs, group, user))
    {
      exist := CheckGroupExist(etcd);
      if !exist { return false; }
      exist := CheckGroupExistUser(etcd);
    }

    method AddToGroup(etcd: Client<Value>) returns (ok: bool)
      modifies etcd
      ensures ok <==> !(Exists(old(etcd.kvs), group) && Visible(old(etcd.kvs), group, user)) && role.Some?
      ensures etcd.kvs == if ok then old(etcd.kvs)[RoleKey(group, user) := Role(role.value)] else old(etcd.kvs)
    {
      var exist := CheckSelfExistInGroup(etcd);
      if exist { return false; }
      if role.None? { return false; }
      etcd.SetKV(RoleKey(group, user), Role(role.value));
      return true;
    }

    method DeleteFromGroup(etcd: Client<Value>) returns (ok: bool)
      modifies etcd
      ensures ok <==> Exists(old(etcd.kvs), group) && Visible(old(etcd.kvs), group, user)
      ensures etcd.kvs == if ok then WithoutDir(old(etcd.kvs), MemberDir(group, user)) else old(etcd.kvs)
    {
      var exist := CheckSelfExistInGroup(etcd);
      if !exist { return false; }
      etcd.RemoveDir(MemberDir(group, user));
      return true;
    }

    /** `GetByID` for a user that exists: the group's details, the membership and the role must be there. */
    method GetByID(etcd: Client<Value>, uid: string, groupname: string, admin: bool) returns (ok: bool)
      modifies this
      ensures ok ==> user == uid
      ensures forall name :: InfoKey(groupname) in etcd.kvs && etcd.kvs[InfoKey(groupname)] == Info(name) ==>
        && (ok <==> Exists(etcd.kvs, name) && Visible(etcd.kvs, name, uid) && (admin || RoleKey(name, uid) in etcd.kvs))
        && group == name
    {
      var info := etcd.GetKV(InfoKey(groupname));
      if info.None? || !info.value.Info? { return false; }
      group := info.value.name;
      user := uid;
      ok := CheckSelfExistInGroup(etcd);
      if !ok { return false; }
      if admin { return true; }
      var r := etcd.GetKV(RoleKey(group, user));
      if r.None? { return false; }
      role := if r.value.Role? then Some(r.value.role) else role;
    }

    /** `GetAllGroupname`, and `GetUserGroup` of the user package. */
    method GetAllGroupname(etcd: Client<Value>) returns (groups: seq<string>)
      requires WellFormed(etcd.kvs) && IsId(user)
      ensures forall g :: g in groups <==> g in GroupsOf(etcd.kvs, user)
      ensures Distinct(groups)
    {
      hide Listing, BaseName, WellFormed;
      groups := [];
      var groupKeys := etcd.ListDir(BASE);
      for i := 0 to |groupKeys|
        invariant forall g :: g in groups <==> FoundBefore(etcd.kvs, user, groupKeys, i, g)
        invariant Distinct(groups)
      {
        var inGroup := InGroupDir(etcd, groupKeys[i]);
        if |inGroup| > 0 { NewName(etcd.kvs, user, groupKeys, i); }
        groups := groups + inGroup;
      }
    }

    /** The inner loop: the group's name for each of its user directories that is this user's. */
    method InGroupDir(etcd: Client<Value>, groupKey: Path) returns (names: seq<string>)
      requires WellFormed(etcd.kvs) && IsId(user) && groupKey in Listing(etcd.kvs, BASE)
      ensures names == if Found(etcd.kvs, user, groupKey) then [BaseName(groupKey)] else []
    {
      hide Listing, BaseName, WellFormed;
      names := [];
      var userKeys := etcd.ListDir(groupKey + ["user"]);
      for j := 0 to |userKeys|
        invariant names == if exists k :: 0 <= k < j && BaseName(userKeys[k]) == user then [BaseName(groupKey)] else []
      {
        if user == BaseName(userKeys[j]) {
          forall k | 0 <= k < j ensures BaseName(userKeys[k]) != user {
            if BaseName(userKeys[k]) == user { SameUser(etcd.kvs, user, groupKey, userKeys[k], userKeys[j]); }
          }
          names := names + [BaseName(groupKey)];
        }
      }
    }
  }

  ghost predicate Distinct(a: seq<string>) {
    forall i, j :: 0 <= i < j < |a| ==> a[i] != a[j]
  }

  lemma SameUser(kvs: map<Path, Value>, uid: string, gk: Path, p: Path, q: Path)
    requires WellFormed(kvs) && IsId(uid) && gk in Listing(kvs, BASE)
    requires p in Listing(kvs, gk + ["user"]) && q in Listing(kvs, gk + ["user"])
    requires BaseName(p) == uid && BaseName(q) == uid
    ensures p == q
  {
    hide WellFormed, Listing;
    ListedGroup(kvs, gk);
    var g := gk[3];
    assert gk + ["user"] == UsersDir(g);
    ListedUser(kvs, g, p);
    ListedUser(kvs, g, q);
    if g != "user" {
      NamesOfDirs(g, p[5]);
      NamesOfDirs(g, q[5]);
    }
  }

  lemma SameGroup(kvs: map<Path, Value>, p: Path, q: Path)
    requires WellFormed(kvs) && p in Listing(kvs, BASE) && q in Listing(kvs, BASE) && BaseName(p) == BaseName(q)
    ensures p == q
  {
    hide WellFormed, Listing;
    ListedGroup(kvs, p);
    ListedGroup(kvs, q);
    NamesOfDirs(p[3], "");
    NamesOfDirs(q[3], "");
  }

  /** The next group key has a name not met before. */
  lemma NewName(kvs: map<Path, Value>, uid: string, groupKeys: seq<Path>, i: nat)
    requires WellFormed(kvs) && i < |groupKeys|
    requires forall p :: p in groupKeys ==> p in Listing(kvs, BASE)
    requires forall a, b :: 0 <= a < b < |groupKeys| ==> groupKeys[a] != groupKeys[b]
    ensures !FoundBefore(kvs, uid, groupKeys, i, BaseName(groupKeys[i]))
  {
    hide WellFormed, Listing, BaseName;
    forall a | 0 <= a < i ensures BaseName(groupKeys[a]) != BaseName(groupKeys[i]) {
      assert groupKeys[a] in groupKeys;
      if BaseName(groupKeys[a]) == BaseName(groupKeys[i]) { SameGroup(kvs, groupKeys[a], groupKeys[i]); }
    }
  }

  /** The user's directory is listed in this group. */
  ghost predicate Found(kvs: map<Path, Value>, uid: string, groupKey: Path) {
    exists uk :: uk in Listing(kvs, groupKey + ["user"]) && BaseName(uk) == uid
  }

  ghost predicate FoundBefore(kvs: map<Path, Value>, uid: string, groupKeys: seq<Path>, n: nat, g: string) {
    exists i :: 0 <= i < n && i < |groupKeys| && BaseName(groupKeys[i]) == g && Found(kvs, uid, groupKeys[i])
  }

  // ---------- updating a user's groups ----------

  /** The diff loops of `Put`: the elements of `a` that match none of `b`. */
  method Unmatched(a: seq<string>, b: seq<string>) returns (r: seq<string>)
    ensures forall g :: g in r <==> g in a && g !in b
    ensures Distinct(a) ==> Distinct(r)
  {
    r := [];
    for i := 0 to |a|
      invariant forall g :: g in r <==> g in a[..i] && g !in b
      invariant Distinct(a) ==> Distinct(r)
    {
      var match_ := 0;
      for j := 0 to |b|
        invariant match_ == 0 <==> a[i] !in b[..j]
      {
        if a[i] == b[j] { match_ := 1; }
      }
      assert Distinct(a) ==> a[i] !in a[..i];
      if match_ == 0 { r := r + [a[i]]; }
    }
  }

  function SetOf(groups: seq<string>): set<string> {
    set g | g in groups
  }

  /** A member of a group is found by `GetByID`. */
  lemma MemberIsKnown(kvs: map<Path, Value>, g: string, uid: string)
    requires WellFormed(kvs) && g != "user" && Member(kvs, g, uid)
    ensures InfoKey(g) in kvs && kvs[InfoKey(g)] == Info(g) && Exists(kvs, g) && Visible(kvs, g, uid)
  {
    VisibleMembers(kvs, g, uid);
    EntryOfGroupKeyOf(kvs, g, uid);
    GroupExists(kvs, g);
    InfoNamesGroup(kvs, g);
  }

  lemma InfoNamesGroup(kvs: map<Path, Value>, g: string)
    requires WellFormed(kvs) && InfoKey(g) in kvs
    ensures kvs[InfoKey(g)] == Info(g) && g != ""
  {
    var key := InfoKey(g);
    assert key[..2] == BASE[..2] && key[2] == "usergroup" && key[3] == g && Under(BASE, key);
  }

  lemma StillMember(kvs: map<Path, Value>, groups: seq<string>, i: nat, uid: string)
    requires i < |groups| && Distinct(groups) && Member(kvs, groups[i], uid)
    ensures Member(kvs - RoleKeys(SetOf(groups[..i]), uid), groups[i], uid)
  {
    InRoleKeys(SetOf(groups[..i]), uid, groups[i], uid);
  }

  lemma OneMoreKey(groups: seq<string>, i: nat, uid: string)
    requires i < |groups|
    ensures RoleKeys(SetOf(groups[..i + 1]), uid) == RoleKeys(SetOf(groups[..i]), uid) + {RoleKey(groups[i], uid)}
  {
    assert groups[..i + 1] == groups[..i] + [groups[i]];
    assert SetOf(groups[..i + 1]) == SetOf(groups[..i]) + {groups[i]};
  }

  /** The loop over `del_groups`. */
  method DeleteAll(etcd: Client<Value>, uid: string, admin: bool, groups: seq<string>) returns (ok: bool)
    requires WellFormed(etcd.kvs) && IsId(uid)
    requires forall g :: g in groups ==> g != "user" && Member(etcd.kvs, g, uid)
    requires Distinct(groups)
    modifies etcd
    ensures ok && WellFormed(etcd.kvs) && etcd.kvs == old(etcd.kvs) - RoleKeys(SetOf(groups), uid)
  {
    hide WellFormed, Exists, Visible, Under;
    ghost var before := etcd.kvs;
    for i := 0 to |groups|
      invariant etcd.kvs == before - RoleKeys(SetOf(groups[..i]), uid)
      invariant WellFormed(etcd.kvs)
    {
      var dgu := new GroupUser();
      StillMember(before, groups, i, uid);
      MemberIsKnown(etcd.kvs, groups[i], uid);
      var found := dgu.GetByID(etcd, uid, groups[i], admin);
      if !found { return false; }
      var deleted := dgu.DeleteFromGroup(etcd);
      if !deleted { return false; }
      RemovedMember(before - RoleKeys(SetOf(groups[..i]), uid), groups[i], uid);
      OneMoreKey(groups, i, uid);
      RemovalKeepsWellFormed(before, SetOf(groups[..i + 1]), uid);
    }
    assert groups[..|groups|] == groups;
    return true;
  }

  lemma AddedKey(before: map<Path, Value>, groups: seq<string>, i: nat, uid: string, role: string)
    requires i < |groups|
    ensures Assigned(before, SetOf(groups[..i + 1]), uid, role)
         == Assigned(before, SetOf(groups[..i]), uid, role)[RoleKey(groups[i], uid) := Role(role)]
  {
    OneMoreKey(groups, i, uid);
    hide RoleKeys, RoleKey;
  }

  /** Only a group met earlier in the list already shows the user as a member. */
  lemma MetBefore(before: map<Path, Value>, groups: seq<string>, i: nat, uid: string, role: string)
    requires i < |groups| && WellFormed(before) && IsId(uid)
    requires WellFormed(Assigned(before, SetOf(groups[..i]), uid, role))
    requires !Visible(before, groups[i], uid)
    requires Visible(Assigned(before, SetOf(groups[..i]), uid, role), groups[i], uid)
    ensures Assigned(before, SetOf(groups[..i]), uid, role)[RoleKey(groups[i], uid) := Role(role)]
         == Assigned(before, SetOf(groups[..i]), uid, role)
  {
    var g := groups[i];
    VisibleMembers(before, g, uid);
    VisibleMembers(Assigned(before, SetOf(groups[..i]), uid, role), g, uid);
    hide WellFormed, Visible, RoleKeys, RoleKey;
  }

  lemma GroupsAreKnown(kvs: map<Path, Value>, groups: seq<string>, i: nat)
    requires WellFormed(kvs) && i <= |groups| && forall g :: g in groups ==> InfoKey(g) in kvs
    ensures forall g :: g in SetOf(groups[..i]) ==> g != "" && InfoKey(g) in kvs
  {
    hide WellFormed, InfoKey;
    forall g | g in SetOf(groups[..i]) ensures g != "" && InfoKey(g) in kvs {
      assert g in groups;
      InfoNamesGroup(kvs, g);
    }
  }

  /** The loop over `add_groups`. */
  method AddAll(etcd: Client<Value>, uid: string, role: string, groups: seq<string>, groupMap: map<string, string>)
    requires WellFormed(etcd.kvs) && IsId(uid)
    requires forall g :: g in groups ==> InfoKey(g) in etcd.kvs && !Visible(etcd.kvs, g, uid)
    requires forall g :: g in groups ==> g in groupMap && groupMap[g] == g
    modifies etcd
    ensures WellFormed(etcd.kvs) && etcd.kvs == Assigned(old(etcd.kvs), SetOf(groups), uid, role)
  {
    hide WellFormed, Exists, Visible, Assigned, RoleKey, InfoKey;
    ghost var before := etcd.kvs;
    NothingAssigned(before, uid, role);
    for i := 0 to |groups|
      invariant etcd.kvs == Assigned(before, SetOf(groups[..i]), uid, role)
      invariant WellFormed(etcd.kvs)
    {
      var gu := new GroupUser();
      gu.user := uid;
      gu.role := Some(role);
      if groups[i] in groupMap {
        gu.group := groupMap[groups[i]];
        assert groups[i] in groups;
        AddedKey(before, groups, i, uid, role);
        var added := gu.AddToGroup(etcd);
        if !added { MetBefore(before, groups, i, uid, role); }
        GroupsAreKnown(before, groups, i + 1);
        AssignmentKeepsWellFormed(before, SetOf(groups[..i + 1]), uid, role);
      }
    }
    assert groups[..|groups|] == groups;
  }

  lemma NothingAssigned(kvs: map<Path, Value>, uid: string, role: string)
    ensures Assigned(kvs, SetOf([]), uid, role) == kvs
  {
  }

  /** The check that every listed group exists; it collects their details by name. */
  method FetchGroups(etcd: Client<Value>, listed: seq<string>) returns (ok: bool, groupMap: map<string, string>)
    requires WellFormed(etcd.kvs)
    ensures ok <==> forall g :: g in listed ==> InfoKey(g) in etcd.kvs
    ensures ok ==> forall g :: g in listed ==> g in groupMap && groupMap[g] == g
  {
    hide WellFormed, InfoKey;
    groupMap := map[];
    for i := 0 to |listed|
      invariant forall g :: g in listed[..i] ==> InfoKey(g) in etcd.kvs && g in groupMap && groupMap[g] == g
    {
      var info := etcd.GetKV(InfoKey(listed[i]));
      if info.None? { return false, groupMap; }
      InfoNamesGroup(etcd.kvs, listed[i]);
      groupMap := groupMap[listed[i] := info.value.name];
    }
    assert listed[..|listed|] == listed;
    return true, groupMap;
  }

  function RoleFor(admin: bool): string {
    if admin then GROUP_ADMIN else GROUP_USER
  }

  /** The store after a successful `Put`. */
  function AfterPut(kvs: map<Path, Value>, uid: string, admin: bool, listed: set<string>): map<Path, Value> {
    Reconciled(kvs, uid, listed, RoleFor(admin))
  }

  /**
    The group part of `Put` for an existing user; `saved` says whether the user's own details
    could be updated.
   */
  method Put(etcd: Client<Value>, uid: string, admin: bool, listed: seq<string>, saved: bool) returns (ok: bool)
    requires WellFormed(etcd.kvs) && IsId(uid)
    modifies etcd
    ensures WellFormed(etcd.kvs)
    ensures ok <==> saved && forall g :: g in listed ==> InfoKey(g) in old(etcd.kvs)
    ensures etcd.kvs == if ok then AfterPut(old(etcd.kvs), uid, admin, SetOf(listed)) else old(etcd.kvs)
  {
    hide WellFormed, GroupsOf, Assigned, RoleKeys, RoleKey, InfoKey, Member, Visible;
    ghost var before := etcd.kvs;
    var groupMap;
    ok, groupMap := FetchGroups(etcd, listed);
    if !ok || !saved { return false; }
    var gu := new GroupUser();
    gu.user := uid;
    var oldGroup := gu.GetAllGroupname(etcd);
    var delGroups := Unmatched(oldGroup, listed);
    var addGroups := Unmatched(listed, oldGroup);
    forall g ensures g in oldGroup <==> g != "user" && Member(before, g, uid) { GroupsOfMember(before, uid, g); }
    ok := DeleteAll(etcd, uid, admin, delGroups);
    forall g | g in addGroups ensures InfoKey(g) in etcd.kvs && !Visible(etcd.kvs, g, uid) {
      NotYetVisible(before, SetOf(delGroups), g, uid);
    }
    AddAll(etcd, uid, RoleFor(admin), addGroups, groupMap);
    assert SetOf(delGroups) == GroupsOf(before, uid) - SetOf(listed);
    assert SetOf(addGroups) == SetOf(listed) - GroupsOf(before, uid);
  }

  lemma NotYetVisible(kvs: map<Path, Value>, groups: set<string>, g: string, uid: string)
    requires WellFormed(kvs) && InfoKey(g) in kvs && (g == "user" || !Member(kvs, g, uid))
    ensures InfoKey(g) in kvs - RoleKeys(groups, uid) && !Visible(kvs - RoleKeys(groups, uid), g, uid)
  {
    InfoIsNoRole(groups, uid, g);
    RemovalKeepsWellFormed(kvs, groups, uid);
    hide WellFormed, Visible, RoleKeys;
    VisibleMembers(kvs - RoleKeys(groups, uid), g, uid);
  }

  // ---------- what a successful update means ----------

  lemma ReconciledKey(kvs: map<Path, Value>, uid: string, listed: set<string>, role: string, g: string)
    requires WellFormed(kvs) && IsId(uid)
    ensures var r := Reconciled(kvs, uid, listed, role);
      && (Member(r, g, uid) <==> g in listed || (g == "user" && Member(kvs, g, uid)))
      && (Member(r, g, uid) ==>
            r[RoleKey(g, uid)] ==
              if Member(kvs, g, uid) && (g != "user" || g !in listed) then kvs[RoleKey(g, uid)] else Role(role))
  {
    var before := GroupsOf(kvs, uid);
    GroupsOfMember(kvs, uid, g);
    InRoleKeys(before - listed, uid, g, uid);
    InRoleKeys(listed - before, uid, g, uid);
    hide WellFormed, GroupsOf, RoleKeys;
  }

  /** All other keys of the store, other users' memberships among them, stay as they are. */
  lemma OtherKeysStay(kvs: map<Path, Value>, uid: string, listed: set<string>, role: string, key: Path)
    requires forall g :: key != RoleKey(g, uid)
    ensures var r := Reconciled(kvs, uid, listed, role); key in r <==> key in kvs
    ensures var r := Reconciled(kvs, uid, listed, role); key in kvs ==> r[key] == kvs[key]
  {
    hide GroupsOf, RoleKey;
  }

  /**
    After a successful update the user belongs to exactly the listed groups, with its role
    kept where it was a member already and the default role elsewhere, and nobody else's
    membership changes; a group called "user" is the only exception.
   */
  lemma PutReconciles(kvs: map<Path, Value>, uid: string, listed: set<string>, role: string, g: string, v: string)
    requires WellFormed(kvs) && IsId(uid) && !Member(kvs, "user", uid)
    ensures var r := Reconciled(kvs, uid, listed, role);
      && (Member(r, g, uid) <==> g in listed)
      && (g in listed ==> r[RoleKey(g, uid)] == if Member(kvs, g, uid) then kvs[RoleKey(g, uid)] else Role(role))
      && (v != uid ==> (Member(r, g, v) <==> Member(kvs, g, v)))
      && (v != uid && Member(kvs, g, v) ==> r[RoleKey(g, v)] == kvs[RoleKey(g, v)])
  {
    ReconciledKey(kvs, uid, listed, role, g);
    if v != uid {
      forall h ensures RoleKey(h, uid) != RoleKey(g, v) { RoleKeyIsInjective(h, uid, g, v); }
      OtherKeysStay(kvs, uid, listed, role, RoleKey(g, v));
    }
  }

  /** A new member is a "group_admin" exactly when the user is an administrator, else a "group_user". */
  lemma NewMembersGetTheirRole(kvs: map<Path, Value>, uid: string, admin: bool, listed: set<string>, g: string)
    requires WellFormed(kvs) && IsId(uid) && g in listed && !Member(kvs, g, uid)
    ensures Member(AfterPut(kvs, uid, admin, listed), g, uid)
    ensures AfterPut(kvs, uid, admin, listed)[RoleKey(g, uid)] == Role(if admin then "group_admin" else "group_user")
  {
    ReconciledKey(kvs, uid, listed, RoleFor(admin), g);
  }

  /** The user holds this role in the group. */
  predicate Holds(kvs: map<Path, Value>, g: string, uid: string, role: string) {
    Member(kvs, g, uid) && kvs[RoleKey(g, uid)] == Role(role)
  }

  /**
    A user who is no administrator is "group_admin" afterwards exactly in the kept groups where it was
    before; a group called "user" is kept when it is not listed.
   */
  lemma NobodyBecomesGroupAdmin(kvs: map<Path, Value>, uid: string, listed: set<string>, g: string)
    requires WellFormed(kvs) && IsId(uid)
    ensures Holds(AfterPut(kvs, uid, false, listed), g, uid, "group_admin") <==>
      Holds(kvs, g, uid, "group_admin") && (if g == "user" then "user" !in listed else g in listed)
  {
    ReconciledKey(kvs, uid, listed, RoleFor(false), g);
    hide Reconciled;
  }

  /** An administrator is "group_user" afterwards in those of these groups where it was before. */
  lemma NoAdministratorIsDemoted(kvs: map<Path, Value>, uid: string, listed: set<string>, g: string)
    requires WellFormed(kvs) && IsId(uid)
    ensures Holds(AfterPut(kvs, uid, true, listed), g, uid, "group_user") <==>
      Holds(kvs, g, uid, "group_user") && (if g == "user" then "user" !in listed else g in listed)
  {
    ReconciledKey(kvs, uid, listed, RoleFor(true), g);
    hide Reconciled;
  }

  /** Where a role and a group's details are stored. */
  lemma RoleKeyText(g: string, uid: string)
    ensures PathJoin(RoleKey(g, uid)) == "/ufleet/usergroup/" + g + "/user/" + uid + "/role"
    ensures PathJoin(InfoKey(g)) == "/ufleet/usergroup/" + g + "/info"
  {
    assert RoleKey(g, uid) == ["", "ufleet", "usergroup", g, "user", uid, "role"];
    assert InfoKey(g) == ["", "ufleet", "usergroup", g, "info"];
    JoinSeven("", "ufleet", "usergroup", g, "user", uid, "role");
    JoinFive("", "ufleet", "usergroup", g, "info");
    hide PathJoin, RoleKey, InfoKey;
    var start := "" + "/" + "ufleet" + "/" + "usergroup" + "/";
    assert start == "/ufleet/usergroup/";
    Enclosed(start + g, "user", uid);
    Slash(start + g + "/user/" + uid, "role");
    Slash(start + g, "info");
  }

  lemma Slash(a: string, b: string)
    ensures a + "/" + b == a + ("/" + b)
  {
  }

  lemma Enclosed(a: string, b: string, c: string)
    ensures a + "/" + b + "/" + c == a + ("/" + b + "/") + c
  {
  }

  lemma JoinFive(a: string, b: string, c: string, d: string, e: string)
    ensures PathJoin([a, b, c, d, e]) == a + "/" + b + "/" + c + "/" + d + "/" + e
  {
    assert PathJoin([e]) == e;
    assert PathJoin([d, e]) == d + "/" + e;
    assert PathJoin([c, d, e]) == c + "/" + (d + "/" + e);
    assert PathJoin([b, c, d, e]) == b + "/" + (c + "/" + (d + "/" + e));
    assert PathJoin([a, b, c, d, e]) == a + "/" + (b + "/" + (c + "/" + (d + "/" + e)));
  }

  lemma JoinSeven(a: string, b: string, c: string, d: string, e: string, f: string, h: string)
    ensures PathJoin([a, b, c, d, e, f, h]) == a + "/" + b + "/" + c + "/" + d + "/" + e + "/" + f + "/" + h
  {
    JoinFive(c, d, e, f, h);
    assert PathJoin([b, c, d, e, f, h]) == b + "/" + PathJoin([c, d, e, f, h]);
    assert PathJoin([a, b, c, d, e, f, h]) == a + "/" + (b + "/" + PathJoin([c, d, e, f, h]));
  }

  /** Membership comes out as listed exactly when the user is in no unlisted group called "user". */
  lemma ListedExactlyWhen(kvs: map<Path, Value>, uid: string, listed: set<string>, role: string)
    requires WellFormed(kvs) && IsId(uid)
    ensures (forall g :: Member(Reconciled(kvs, uid, listed, role), g, uid) <==> g in listed)
       <==> (Member(kvs, "user", uid) ==> "user" in listed)
  {
    hide Reconciled, Member, WellFormed;
    forall g ensures Member(Reconciled(kvs, uid, listed, role), g, uid) <==>
      g in listed || (g == "user" && Member(kvs, g, uid))
    {
      ReconciledKey(kvs, uid, listed, role, g);
    }
  }

  /** Roles in kept groups survive exactly when a kept group called "user" does not hold another role. */
  lemma RolesKeptExactlyWhen(kvs: map<Path, Value>, uid: string, listed: set<string>, role: string)
    requires WellFormed(kvs) && IsId(uid)
    ensures (forall g :: g in listed && Member(kvs, g, uid) ==>
               RoleKey(g, uid) in Reconciled(kvs, uid, listed, role)
               && Reconciled(kvs, uid, listed, role)[RoleKey(g, uid)] == kvs[RoleKey(g, uid)])
       <==> ("user" in listed && Member(kvs, "user", uid) ==> kvs[RoleKey("user", uid)] == Role(role))
  {
    hide Reconciled, WellFormed;
    forall g | g in listed
      ensures Member(Reconciled(kvs, uid, listed, role), g, uid)
      ensures Reconciled(kvs, uid, listed, role)[RoleKey(g, uid)] ==
        if Member(kvs, g, uid) && g != "user" then kvs[RoleKey(g, uid)] else Role(role)
    {
      ReconciledKey(kvs, uid, listed, role, g);
    }
  }

  function Somebody(): string { seq(64, _ => 'a') }

  /** A store with one group, called "user", and one member in it. */
  function HiddenMember(): map<Path, Value> {
    map[InfoKey("user") := Info("user"), RoleKey("user", Somebody()) := Role(GROUP_USER)]
  }

  lemma HiddenMemberIs()
    ensures IsId(Somebody()) && WellFormed(HiddenMember()) && Member(HiddenMember(), "user", Somebody())
    ensures HiddenMember()[RoleKey("user", Somebody())] == Role(GROUP_USER)
  {
    var info, role := InfoKey("user"), RoleKey("user", Somebody());
    assert |info| == 5 && |role| == 7;
    assert info[3] == "user" && role[3] == "user" && role[5] == Somebody();
  }

  /** Leaving every group leaves this member in, and listing its group overwrites its role. */
  lemma HiddenMemberIsMissed()
    ensures Member(Reconciled(HiddenMember(), Somebody(), {}, GROUP_ADMIN), "user", Somebody())
    ensures Member(Reconciled(HiddenMember(), Somebody(), {"user"}, GROUP_ADMIN), "user", Somebody())
    ensures Reconciled(HiddenMember(), Somebody(), {"user"}, GROUP_ADMIN)[RoleKey("user", Somebody())]
         == Role(GROUP_ADMIN)
  {
    hide Reconciled, WellFormed, HiddenMember;
    HiddenMemberIs();
    ReconciledKey(HiddenMember(), Somebody(), {}, GROUP_ADMIN, "user");
    ReconciledKey(HiddenMember(), Somebody(), {"user"}, GROUP_ADMIN, "user");
  }

  // ---------- leaving all groups ----------

  lemma ListedMemberDir(kvs: map<Path, Value>, uid: string, gk: Path, uk: Path)
    requires WellFormed(kvs) && IsId(uid) && gk in Listing(kvs, BASE)
    requires uk in Listing(kvs, gk + ["user"]) && BaseName(uk) == uid
    ensures BaseName(gk) != "user" && uk == MemberDir(BaseName(gk), uid)
  {
    hide WellFormed, Listing;
    ListedGroup(kvs, gk);
    var g := gk[3];
    NamesOfDirs(g, "");
    assert gk + ["user"] == UsersDir(g);
    ListedUser(kvs, g, uk);
    if g != "user" { NamesOfDirs(g, uk[5]); }
  }

  lemma UnlistedIsNoMember(kvs: map<Path, Value>, uid: string, gk: Path)
    requires WellFormed(kvs) && IsId(uid) && gk in Listing(kvs, BASE) && !Found(kvs, uid, gk)
    ensures BaseName(gk) != "user" ==> !Member(kvs, BaseName(gk), uid)
  {
    hide WellFormed, Listing;
    ListedGroup(kvs, gk);
    var g := gk[3];
    NamesOfDirs(g, uid);
    if g != "user" && Member(kvs, g, uid) {
      MemberIsFound(kvs, uid, g);
    }
  }

  /** The inner loop: remove the user's directories in one group. */
  method CleanInGroup(etcd: Client<Value>, uid: string, groupKey: Path)
    requires WellFormed(etcd.kvs) && IsId(uid) && groupKey in Listing(etcd.kvs, BASE)
    modifies etcd
    ensures WellFormed(etcd.kvs)
    ensures etcd.kvs == old(etcd.kvs) - RoleKeys({BaseName(groupKey)} - {"user"}, uid)
  {
    hide WellFormed, Listing, BaseName, RoleKeys, Member, RoleKey, MemberDir;
    ghost var before, g := etcd.kvs, BaseName(groupKey);
    OneRoleKey(g, uid);
    var userKeys := etcd.ListDir(groupKey + ["user"]);
    for j := 0 to |userKeys|
      invariant WellFormed(etcd.kvs)
      invariant etcd.kvs ==
        if exists k :: 0 <= k < j && BaseName(userKeys[k]) == uid then before - {RoleKey(g, uid)} else before
    {
      if uid == BaseName(userKeys[j]) {
        ListedMemberDir(before, uid, groupKey, userKeys[j]);
        RemovedMember(etcd.kvs, g, uid);
        RemovalKeepsWellFormed(before, {g}, uid);
        etcd.RemoveDir(userKeys[j]);
        assert etcd.kvs == before - {RoleKey(g, uid)};
      }
    }
    if !Found(before, uid, groupKey) {
      UnlistedIsNoMember(before, uid, groupKey);
      NonMemberHasNoKey(before, g, uid);
    } else {
      var uk :| uk in Listing(before, groupKey + ["user"]) && BaseName(uk) == uid;
      ListedMemberDir(before, uid, groupKey, uk);
      assert uk in userKeys;
    }
  }

  lemma NonMemberHasNoKey(kvs: map<Path, Value>, g: string, uid: string)
    ensures Member(kvs, g, uid) <==> RoleKey(g, uid) in kvs
  {
  }

  lemma OneRoleKey(g: string, uid: string)
    ensures RoleKeys({g} - {"user"}, uid) == if g == "user" then {} else {RoleKey(g, uid)}
    ensures RoleKeys({g}, uid) == {RoleKey(g, uid)}
  {
  }

  function Names(groupKeys: seq<Path>): set<string> {
    set i | 0 <= i < |groupKeys| :: BaseName(groupKeys[i])
  }

  lemma OneMoreName(groupKeys: seq<Path>, i: nat, uid: string)
    requires i < |groupKeys|
    ensures RoleKeys(Names(groupKeys[..i + 1]) - {"user"}, uid)
         == RoleKeys(Names(groupKeys[..i]) - {"user"}, uid) + RoleKeys({BaseName(groupKeys[i])} - {"user"}, uid)
  {
    assert groupKeys[..i + 1] == groupKeys[..i] + [groupKeys[i]];
    assert Names(groupKeys[..i + 1]) == Names(groupKeys[..i]) + {BaseName(groupKeys[i])};
  }

  lemma StillListed(kvs: map<Path, Value>, groups: set<string>, uid: string, gk: Path)
    requires WellFormed(kvs) && gk in Listing(kvs, BASE)
    ensures gk in Listing(kvs - RoleKeys(groups, uid), BASE)
  {
    RemovalKeepsWellFormed(kvs, groups, uid);
    hide WellFormed, Listing, RoleKeys;
    ListedGroup(kvs, gk);
    ListedGroup(kvs - RoleKeys(groups, uid), gk);
    InfoIsNoRole(groups, uid, gk[3]);
  }

  /** `CleanInAllGroup`: the user leaves every group, but for one called "user". */
  method CleanInAllGroup(etcd: Client<Value>, uid: string)
    requires WellFormed(etcd.kvs) && IsId(uid)
    modifies etcd
    ensures WellFormed(etcd.kvs) && etcd.kvs == old(etcd.kvs) - RoleKeys(GroupsOf(old(etcd.kvs), uid), uid)
  {
    hide WellFormed, Listing, BaseName, RoleKeys, GroupsOf, Names;
    ghost var before := etcd.kvs;
    var groupKeys := etcd.ListDir(BASE);
    NoNames(uid);
    for i := 0 to |groupKeys|
      invariant WellFormed(etcd.kvs)
      invariant etcd.kvs == before - RoleKeys(Names(groupKeys[..i]) - {"user"}, uid)
    {
      assert groupKeys[i] in groupKeys;
      StillListed(before, Names(groupKeys[..i]) - {"user"}, uid, groupKeys[i]);
      OneMoreName(groupKeys, i, uid);
      CleanInGroup(etcd, uid, groupKeys[i]);
    }
    assert groupKeys[..|groupKeys|] == groupKeys;
    AllNames(before, uid, groupKeys);
  }

  lemma NoNames(uid: string)
    ensures RoleKeys(Names([]) - {"user"}, uid) == {}
  {
  }

  lemma AllNames(kvs: map<Path, Value>, uid: string, groupKeys: seq<Path>)
    requires WellFormed(kvs) && IsId(uid)
    requires forall p :: p in groupKeys <==> p in Listing(kvs, BASE)
    ensures kvs - RoleKeys(Names(groupKeys) - {"user"}, uid) == kvs - RoleKeys(GroupsOf(kvs, uid), uid)
  {
    hide WellFormed, Listing, BaseName, GroupsOf, RoleKey;
    forall g ensures g in GroupsOf(kvs, uid) <==> g != "user" && RoleKey(g, uid) in kvs {
      GroupsOfMember(kvs, uid, g);
    }
    forall g | g != "user" && RoleKey(g, uid) in kvs ensures g in Names(groupKeys) {
      MemberIsFound(kvs, uid, g);
    }
  }

  /** Afterwards the user is in no group, and nobody else has left one. */
  lemma NobodyElseLeaves(kvs: map<Path, Value>, uid: string, g: string, v: string)
    requires WellFormed(kvs) && IsId(uid)
    ensures Member(kvs - RoleKeys(GroupsOf(kvs, uid), uid), g, v) <==> Member(kvs, g, v) && (v != uid || g == "user")
  {
    GroupsOfMember(kvs, uid, g);
    InRoleKeys(GroupsOf(kvs, uid), uid, g, v);
    hide GroupsOf, WellFormed, RoleKeys;
  }
}
