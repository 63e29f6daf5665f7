/**
  The docker registries of the user service (`user/registry/registry.go`), kept under
  `/ufleet/registry/<group>/<id>`.
 */
module Registry {
  import opened Wrappers
  import opened Etcd
  import opened Texts
  import Base64

  datatype Record = Record(
    id: string, name: string, address: string, user: string, password: Bytes,
    email: string, extend: string, updateTime: int, belong: string)

  /** A stored value: a registry, or a text that is none. */
  datatype Value = Stored(record: Record) | Blank

  type KVs = map<Path, Value>

  const BASE: Path := ["", "ufleet", "registry"]

  function GroupDir(g: string): Path { BASE + [g] }
  function Key(g: string, id: string): Path { BASE + [g, id] }

  predicate IsKey(key: Path) { |key| == 5 && key == Key(key[3], key[4]) }

  /** Under the registry tree there are registries filed under their own IDs, and the tree's blank root. */
  ghost predicate WellFormed(kvs: KVs) {
    forall key :: key in kvs && Under(BASE, key) ==>
      || (key == BASE && kvs[key] == Blank)
      || (IsKey(key) && kvs[key].Stored? && kvs[key].record.id == key[4])
  }

  /** Group names for which the listing of a group shows the group's registries. */
  predicate Plain(g: string) { g != "" && g != "ufleet" && g != "registry" }

  // ---------- listings ----------

  lemma KeyParts(g: string, id: string)
    ensures Under(BASE, Key(g, id)) && IsKey(Key(g, id)) && Key(g, id)[3] == g && Key(g, id)[4] == id
    ensures Entry(Key(g, id), "registry") == Some(GroupDir(g))
  {
    var key := Key(g, id);
    assert key[..2] == BASE[..2] && key[2] == "registry" && key[3] == g && key[4] == id;
    assert key[0] != "registry" && key[1] != "registry";
    assert FirstAt(key, "registry") == 2;
    assert key[..4] == GroupDir(g);
  }

  lemma NameOfDir(g: string)
    ensures BaseName(BASE) == "registry"
    ensures BaseName(GroupDir(g)) == if g == "" then "registry" else g
  {
    assert GroupDir(g)[..3] == BASE;
  }

  /** The keys fetched with a group's directory: those of all groups whose name starts with the group's. */
  lemma UnderGroup(g: string, h: string, id: string)
    ensures Under(GroupDir(g), Key(h, id)) <==> g <= h
  {
    assert GroupDir(g)[..3] == BASE && Key(h, id)[..3] == BASE;
    assert GroupDir(g)[3] == g && Key(h, id)[3] == h;
  }

  lemma FetchedIsKey(kvs: KVs, g: string, key: Path)
    requires WellFormed(kvs) && key in kvs && Under(GroupDir(g), key)
    ensures IsKey(key) && kvs[key].Stored? && g <= key[3]
  {
    assert key[..3] == BASE && BASE[..2] == key[..3][..2] == key[..2] && key[2] == key[..3][2];
  }

  lemma EntryInGroup(g: string, h: string, id: string)
    ensures Plain(g) && g == h ==> Entry(Key(h, id), g) == Some(Key(h, id))
    ensures Plain(g) && g != h ==> Entry(Key(h, id), g) == None
  {
    var key := Key(h, id);
    assert key[0] == "" && key[1] == "ufleet" && key[2] == "registry" && key[3] == h;
    if Plain(g) {
      assert g == h ==> FirstAt(key, g) == 3;
      assert key[..5] == key;
    }
  }

  /** The listing of a group with a plain name is the set of its registries' keys. */
  lemma ListedInGroup(kvs: KVs, g: string, p: Path)
    requires WellFormed(kvs) && Plain(g)
    ensures p in Listing(kvs, GroupDir(g)) <==> p in kvs && IsKey(p) && p[3] == g
  {
    NameOfDir(g);
    if p in Listing(kvs, GroupDir(g)) {
      var key :| key in kvs && Under(GroupDir(g), key) && Entry(key, g) == Some(p);
      FetchedIsKey(kvs, g, key);
      EntryInGroup(g, key[3], key[4]);
    } 
    if p in kvs && IsKey(p) && p[3] == g {
      UnderGroup(g, g, p[4]);
      EntryInGroup(g, g, p[4]);
    }
  }

  /** The listing of a group with another name shows no registry. */
  lemma NothingListed(kvs: KVs, g: string, p: Path)
    requires WellFormed(kvs) && !Plain(g) && p in Listing(kvs, GroupDir(g))
    ensures p !in kvs || kvs[p] == Blank
  {
    NameOfDir(g);
    var name := if g == "" then "registry" else g;
    var key :| key in kvs && Under(GroupDir(g), key) && Entry(key, name) == Some(p);
    FetchedIsKey(kvs, g, key);
    KeyParts(key[3], key[4]);
    if name == "registry" {
      assert p == GroupDir(key[3]) && |p| == 4;
      assert p[..2] == BASE[..2] && p[2] == BASE[2] && Under(BASE, p);
    } else {
      assert key[0] == "" && key[1] == "ufleet";
      assert FirstAt(key, name) == 1;
      assert p == key[..3] == BASE;
      assert Under(BASE, BASE);
    }
  }

  // ---------- the operations, on the store ----------

  /** `GetGroupRegistry`. */
  function GroupRegistries(kvs: KVs, g: string): set<Record> {
    set p | p in Listing(kvs, GroupDir(g)) && p in kvs && kvs[p].Stored? :: kvs[p].record
  }

  predicate Clashes(k: Record, id: string, address: string, name: string) {
    k.id != id && (address == k.address || name == k.name)
  }

  /** `repeat`. */
  predicate Repeats(kvs: KVs, g: string, id: string, address: string, name: string) {
    exists k :: k in GroupRegistries(kvs, g) && Clashes(k, id, address, name)
  }

  function Saved(kvs: KVs, g: string, r: Record, now: int): KVs {
    kvs[Key(g, r.id) := Stored(r.(updateTime := now))]
  }

  /** `Add`, with the ID it generates and the clock. */
  function Added(kvs: KVs, g: string, r: Record, id: string, now: int): KVs {
    if Repeats(kvs, g, r.id, r.address, r.name) then kvs
    else Saved(kvs, g, r.(id := id, belong := g, password := Base64.StdEncode(r.password)), now)
  }

  function Merged(stored: string, given: string): string {
    if given != "" then given else stored
  }

  /** The fields of `r` after `Update` with those of `u`. */
  function MergedRecord(r: Record, u: Record): Record {
    r.(name := Merged(r.name, u.name), address := Merged(r.address, u.address), user := Merged(r.user, u.user),
       password := if u.password != [] then Base64.StdEncode(u.password) else r.password,
       email := Merged(r.email, u.email), extend := Merged(r.extend, u.extend))
  }

  /** `Get` and `Update` of the registry `id`. */
  function Updated(kvs: KVs, g: string, id: string, u: Record, now: int): KVs {
    if Key(g, id) !in kvs || kvs[Key(g, id)].Blank? then kvs
    else
      var r := kvs[Key(g, id)].record.(id := id);
      if Repeats(kvs, g, id, u.address, u.name) then kvs else Saved(kvs, g, MergedRecord(r, u), now)
  }

  predicate ListedId(kvs: KVs, g: string, id: string) {
    exists p :: p in Listing(kvs, GroupDir(g)) && BaseName(p) == id
  }

  /** `Remove`. */
  function Dropped(kvs: KVs, g: string, id: string): KVs {
    if ListedId(kvs, g, id) then kvs - {Key(g, id)} else kvs
  }

  /** A registry object, as the controllers use it. */
  class Registry {
    var record: Record

    constructor (record: Record)
      ensures this.record == record
    {
      this.record := record;
    }

    method GetGroupRegistry(etcd: Client<Value>, group: string) returns (list: seq<Record>)
      ensures forall k :: k in list <==> k in GroupRegistries(etcd.kvs, group)
    {
      list := [];
      var keys := etcd.ListDir(GroupDir(group));
      for i := 0 to |keys|
        invariant forall k :: k in list <==>
          exists j :: 0 <= j < i && keys[j] in etcd.kvs && etcd.kvs[keys[j]] == Stored(k)
      {
        var info := etcd.GetKV(keys[i]);
        if info.Some? && info.value.Stored? { list := list + [info.value.record]; }
      }
    }

    method Repeat(etcd: Client<Value>, group: string, address: string, name: string) returns (found: bool)
      ensures found == Repeats(etcd.kvs, group, record.id, address, name)
    {
      hide GroupRegistries;
      var list := GetGroupRegistry(etcd, group);
      for i := 0 to |list|
        invariant forall j :: 0 <= j < i ==> !Clashes(list[j], record.id, address, name)
      {
        assert list[i] in list;
        if record.id != list[i].id {
          if address == list[i].address { return true; }
          if name == list[i].name { return true; }
        }
      }
      return false;
    }

    method Save(etcd: Client<Value>, group: string, now: int)
      modifies this, etcd
      ensures record == old(record).(updateTime := now) && etcd.kvs == Saved(old(etcd.kvs), group, old(record), now)
    {
      record := record.(updateTime := now);
      etcd.SetKV(Key(group, record.id), Stored(record));
    }

    method Add(etcd: Client<Value>, group: string, id: string, now: int) returns (ok: bool)
      modifies this, etcd
      ensures ok == !Repeats(old(etcd.kvs), group, old(record.id), old(record.address), old(record.name))
      ensures etcd.kvs == Added(old(etcd.kvs), group, old(record), id, now)
    {
      hide Repeats;
      var repeated := Repeat(etcd, group, record.address, record.name);
      if repeated { return false; }
      record := record.(id := id);
      record := record.(belong := group);
      record := record.(password := Base64.StdEncode(record.password));
      Save(etcd, group, now);
      return true;
    }

    /** `Get`, then `Update` with the fields of `u`. */
    method Update(etcd: Client<Value>, group: string, id: string, u: Record, now: int)
      returns (ok: bool)
      modifies this, etcd
      ensures etcd.kvs == Updated(old(etcd.kvs), group, id, u, now)
      ensures ok == (&& Key(group, id) in old(etcd.kvs)
                     && old(etcd.kvs)[Key(group, id)].Stored?
                     && !Repeats(old(etcd.kvs), group, id, u.address, u.name))
    {
      hide Repeats;
      var info := etcd.GetKV(Key(group, id));
      if info.None? || info.value.Blank? { return false; }
      record := info.value.record.(id := id);
      var repeated := Repeat(etcd, group, u.address, u.name);
      if repeated { return false; }
      if u.name != "" { record := record.(name := u.name); }
      if u.address != "" { record := record.(address := u.address); }
      if u.user != "" { record := record.(user := u.user); }
      if u.password != [] { record := record.(password := Base64.StdEncode(u.password)); }
      if u.email != "" { record := record.(email := u.email); }
      if u.extend != "" { record := record.(extend := u.extend); }
      Save(etcd, group, now);
      return true;
    }

    method Exist(etcd: Client<Value>, group: string) returns (exist: bool)
      ensures exist == ListedId(etcd.kvs, group, record.id)
    {
      hide Listing, BaseName;
      var keys := etcd.ListDir(GroupDir(group));
      for i := 0 to |keys|
        invariant forall j :: 0 <= j < i ==> BaseName(keys[j]) != record.id
      {
        assert keys[i] in keys;
        if BaseName(keys[i]) == record.id { return true; }
      }
      return false;
    }

    method Remove(etcd: Client<Value>, group: string) returns (ok: bool)
      modifies etcd
      ensures ok == ListedId(old(etcd.kvs), group, record.id)
      ensures etcd.kvs == Dropped(old(etcd.kvs), group, record.id)
    {
      hide ListedId;
      var exist := Exist(etcd, group);
      if !exist { return false; }
      etcd.RemoveKey(Key(group, record.id));
      return true;
    }

    method RemoveGroupReg(etcd: Client<Value>, group: string)
      modifies etcd
      ensures etcd.kvs == WithoutDir(old(etcd.kvs), GroupDir(group))
    {
      etcd.RemoveDir(GroupDir(group));
    }
  }

  // ---------- uniqueness ----------

  /** No two registries of the group share a name or an address. */
  ghost predicate Unique(kvs: KVs, g: string) {
    forall a, b ::
      Key(g, a) in kvs && Key(g, b) in kvs && a != b && kvs[Key(g, a)].Stored? && kvs[Key(g, b)].Stored? ==>
      Differ(kvs[Key(g, a)].record, kvs[Key(g, b)].record)
  }

  predicate Differ(r: Record, q: Record) { r.name != q.name && r.address != q.address }

  lemma KeyIsInjective(g: string, a: string, h: string, b: string)
    ensures Key(g, a) == Key(h, b) <==> g == h && a == b
  {
    KeyParts(g, a);
    KeyParts(h, b);
  }

  /** In a plain group `repeat` looks at exactly the group's other registries. */
  lemma RepeatsMeans(kvs: KVs, g: string, id: string, address: string, name: string)
    requires WellFormed(kvs) && Plain(g)
    ensures Repeats(kvs, g, id, address, name) <==>
      exists a :: Key(g, a) in kvs && kvs[Key(g, a)].Stored? && Clashes(kvs[Key(g, a)].record, id, address, name)
  {
    forall p ensures p in Listing(kvs, GroupDir(g)) <==> p in kvs && IsKey(p) && p[3] == g { ListedInGroup(kvs, g, p); }
    hide WellFormed, Listing, Key;
    if Repeats(kvs, g, id, address, name) {
      var k :| k in GroupRegistries(kvs, g) && Clashes(k, id, address, name);
      var p :| p in Listing(kvs, GroupDir(g)) && p in kvs && kvs[p].Stored? && kvs[p].record == k;
      assert p == Key(g, p[4]);
    }
    if exists a :: Key(g, a) in kvs && kvs[Key(g, a)].Stored? && Clashes(kvs[Key(g, a)].record, id, address, name) {
      var a :| Key(g, a) in kvs && kvs[Key(g, a)].Stored? && Clashes(kvs[Key(g, a)].record, id, address, name);
      KeyParts(g, a);
      assert kvs[Key(g, a)].record in GroupRegistries(kvs, g);
    }
  }

  /** In the other groups `repeat` sees nothing. */
  lemma NeverRepeats(kvs: KVs, g: string, id: string, address: string, name: string)
    requires WellFormed(kvs) && !Plain(g)
    ensures !Repeats(kvs, g, id, address, name)
  {
    forall p | p in Listing(kvs, GroupDir(g)) ensures p !in kvs || kvs[p] == Blank { NothingListed(kvs, g, p); }
    hide Listing, WellFormed;
  }

  lemma KeyHoldsOwnId(kvs: KVs, g: string, id: string)
    requires WellFormed(kvs) && Key(g, id) in kvs
    ensures kvs[Key(g, id)].Stored? && kvs[Key(g, id)].record.id == id
  {
    KeyParts(g, id);
  }

  lemma SaveKeepsWellFormed(kvs: KVs, g: string, r: Record, now: int)
    requires WellFormed(kvs)
    ensures WellFormed(Saved(kvs, g, r, now))
  {
    KeyParts(g, r.id);
    hide Under;
  }

  /** Saving one registry changes uniqueness only through that registry. */
  lemma SavedUnique(kvs: KVs, g: string, r: Record, now: int)
    requires WellFormed(kvs) && Unique(kvs, g)
    ensures Unique(Saved(kvs, g, r, now), g) <==>
      forall a :: a != r.id && Key(g, a) in kvs && kvs[Key(g, a)].Stored? ==> Differ(kvs[Key(g, a)].record, r)
  {
    hide WellFormed, Key;
    var s := Saved(kvs, g, r, now);
    forall a ensures Key(g, a) == Key(g, r.id) <==> a == r.id { KeyIsInjective(g, a, g, r.id); }
    if Unique(s, g) {
      forall a | a != r.id && Key(g, a) in kvs && kvs[Key(g, a)].Stored?
        ensures Differ(kvs[Key(g, a)].record, r)
      {
        assert s[Key(g, a)] == kvs[Key(g, a)] && Key(g, r.id) in s;
      }
    }
  }

  lemma OtherGroupUnique(kvs: KVs, g: string, r: Record, now: int, h: string)
    requires Unique(kvs, h) && h != g
    ensures Unique(Saved(kvs, g, r, now), h)
  {
    forall a ensures Key(h, a) != Key(g, r.id) { KeyIsInjective(h, a, g, r.id); }
    hide Key;
  }

  /**
    A successful `Add` under a new ID keeps the group unique exactly when the registry handed in does
    not carry the ID of a stored registry whose name or address it repeats.
   */
  lemma AddKeepsUniqueExactlyWhen(kvs: KVs, g: string, r: Record, id: string, now: int)
    requires WellFormed(kvs) && Plain(g) && Unique(kvs, g) && Key(g, id) !in kvs
    requires !Repeats(kvs, g, r.id, r.address, r.name)
    ensures Unique(Added(kvs, g, r, id, now), g) <==>
      (Key(g, r.id) in kvs ==> Differ(kvs[Key(g, r.id)].record, r))
  {
    RepeatsMeans(kvs, g, r.id, r.address, r.name);
    SavedUnique(kvs, g, r.(id := id, belong := g, password := Base64.StdEncode(r.password)), now);
    forall a | Key(g, a) in kvs ensures kvs[Key(g, a)].Stored? && kvs[Key(g, a)].record.id == a {
      KeyHoldsOwnId(kvs, g, a);
    }
    hide WellFormed, Repeats, Unique, Key;
  }

  lemma UpdateKeepsUnique(kvs: KVs, g: string, id: string, u: Record, now: int)
    requires WellFormed(kvs) && Plain(g) && Unique(kvs, g)
    ensures Unique(Updated(kvs, g, id, u, now), g)
  {
    if Key(g, id) in kvs && kvs[Key(g, id)].Stored? && !Repeats(kvs, g, id, u.address, u.name) {
      var r := kvs[Key(g, id)].record.(id := id);
      RepeatsMeans(kvs, g, id, u.address, u.name);
      SavedUnique(kvs, g, MergedRecord(r, u), now);
      hide Key, Repeats;
      forall a | a != id && Key(g, a) in kvs && kvs[Key(g, a)].Stored?
        ensures Differ(kvs[Key(g, a)].record, MergedRecord(r, u))
      {
        KeyHoldsOwnId(kvs, g, a);
      }
    }
  }

  lemma FewerStillUnique(kvs: KVs, fewer: KVs, g: string)
    requires Unique(kvs, g) && forall key :: key in fewer ==> key in kvs && fewer[key] == kvs[key]
    ensures Unique(fewer, g)
  {
    hide Key;
  }

  lemma FewerStillWellFormed(kvs: KVs, fewer: KVs)
    requires WellFormed(kvs) && forall key :: key in fewer ==> key in kvs && fewer[key] == kvs[key]
    ensures WellFormed(fewer)
  {
    hide Under;
  }

  // ---------- every run of operations ----------

  datatype Op =
    | AddOp(group: string, record: Record, id: string, now: int)
    | UpdateOp(group: string, id: string, fields: Record, now: int)
    | RemoveOp(group: string, id: string)
    | RemoveGroupOp(group: string)

  function Apply(kvs: KVs, op: Op): KVs {
    match op
    case AddOp(g, r, id, now) => Added(kvs, g, r, id, now)
    case UpdateOp(g, id, u, now) => Updated(kvs, g, id, u, now)
    case RemoveOp(g, id) => Dropped(kvs, g, id)
    case RemoveGroupOp(g) => WithoutDir(kvs, GroupDir(g))
  }

  function After(kvs: KVs, ops: seq<Op>): KVs {
    if ops == [] then kvs else Apply(After(kvs, ops[..|ops| - 1]), ops[|ops| - 1])
  }

  /** The generated ID is new in the group, and the registry handed in does not carry a stored one. */
  predicate FreshIds(kvs: KVs, op: Op) {
    op.AddOp? ==> Key(op.group, op.id) !in kvs && Key(op.group, op.record.id) !in kvs
  }

  ghost predicate FreshAlong(kvs: KVs, ops: seq<Op>) {
    forall k :: 0 <= k < |ops| ==> FreshIds(After(kvs, ops[..k]), ops[k])
  }

  ghost predicate AllUnique(kvs: KVs) {
    forall g :: Plain(g) ==> Unique(kvs, g)
  }

  lemma AddStep(kvs: KVs, h: string, op: Op)
    requires op.AddOp? && WellFormed(kvs) && Plain(h) && Unique(kvs, h) && FreshIds(kvs, op)
    ensures WellFormed(Apply(kvs, op)) && Unique(Apply(kvs, op), h)
  {
    hide WellFormed, Unique, Repeats, Key;
    var AddOp(g, r, id, now) := op;
    var q := r.(id := id, belong := g, password := Base64.StdEncode(r.password));
    SaveKeepsWellFormed(kvs, g, q, now);
    if !Repeats(kvs, g, r.id, r.address, r.name) {
      if h == g {
        AddKeepsUniqueExactlyWhen(kvs, g, r, id, now);
      } else {
        OtherGroupUnique(kvs, g, q, now, h);
      }
    }
  }

  lemma UpdateStep(kvs: KVs, h: string, op: Op)
    requires op.UpdateOp? && WellFormed(kvs) && Plain(h) && Unique(kvs, h)
    ensures WellFormed(Apply(kvs, op)) && Unique(Apply(kvs, op), h)
  {
    hide WellFormed, Unique, Repeats, Key;
    var UpdateOp(g, id, u, now) := op;
    if Key(g, id) in kvs && kvs[Key(g, id)].Stored? {
      var q := MergedRecord(kvs[Key(g, id)].record.(id := id), u);
      SaveKeepsWellFormed(kvs, g, q, now);
      if h == g { UpdateKeepsUnique(kvs, g, id, u, now); } else { OtherGroupUnique(kvs, g, q, now, h); }
    }
  }

  lemma StepKeepsUnique(kvs: KVs, op: Op)
    requires WellFormed(kvs) && AllUnique(kvs) && FreshIds(kvs, op)
    ensures WellFormed(Apply(kvs, op)) && AllUnique(Apply(kvs, op))
  {
    hide WellFormed, Unique, Added, Updated, Listing, ListedId;
    if op.RemoveOp? || op.RemoveGroupOp? { FewerStillWellFormed(kvs, Apply(kvs, op)); }
    if op.AddOp? { AddStep(kvs, "-", op); }
    if op.UpdateOp? { UpdateStep(kvs, "-", op); }
    forall h | Plain(h) ensures Unique(Apply(kvs, op), h) {
      match op {
        case AddOp(_, _, _, _) => AddStep(kvs, h, op);
        case UpdateOp(_, _, _, _) => UpdateStep(kvs, h, op);
        case _ => FewerStillUnique(kvs, Apply(kvs, op), h);
      }
    }
  }

  /** Over every run of operations with fresh IDs, no two registries of a plain group share a name or address. */
  lemma {:induction false} UniqueInEveryRun(kvs: KVs, ops: seq<Op>)
    requires WellFormed(kvs) && AllUnique(kvs) && FreshAlong(kvs, ops)
    ensures WellFormed(After(kvs, ops)) && AllUnique(After(kvs, ops))
    decreases |ops|
  {
    hide WellFormed, AllUnique, Apply;
    if ops != [] {
      var init := ops[..|ops| - 1];
      forall k | 0 <= k < |init| ensures FreshIds(After(kvs, init[..k]), init[k]) {
        assert init[..k] == ops[..k] && init[k] == ops[k];
      }
      UniqueInEveryRun(kvs, init);
      StepKeepsUnique(After(kvs, init), ops[|ops| - 1]);
    }
  }

  // ---------- what is stored ----------

  /** The stores agree on every key but this one. */
  ghost predicate SameBut(kvs: KVs, after: KVs, changed: Path) {
    forall key :: key != changed ==> (key in after <==> key in kvs) && (key in kvs ==> after[key] == kvs[key])
  }

  /** The password comes back from the stored one, which is its standard base64 text. */
  ghost predicate IsEncoded(stored: Bytes, password: Bytes) {
    Base64.Encodes(Base64.STANDARD, true, password, stored) && Base64.StdDecode(stored) == Some(password)
  }

  /** An add that repeats nothing files every field that was handed in under the new ID, and changes no other key. */
  lemma AddStores(kvs: KVs, g: string, r: Record, id: string, now: int)
    requires !Repeats(kvs, g, r.id, r.address, r.name)
    ensures var after, key := Apply(kvs, AddOp(g, r, id, now)), ["", "ufleet", "registry", g, id];
      && key in after && after[key].Stored?
      && IsEncoded(after[key].record.password, r.password)
      && after[key].record
         == Record(id, r.name, r.address, r.user, after[key].record.password, r.email, r.extend, now, g)
      && SameBut(kvs, after, key)
  {
    Base64.EncodesAsRfc4648(r.password);
    Base64.StdRoundTrip(r.password);
    hide Base64.StdEncode, Base64.StdDecode, Base64.Encodes, Repeats;
    assert Key(g, id) == ["", "ufleet", "registry", g, id];
  }

  /** An update that repeats nothing takes each given field that is not empty, and keeps the stored ones else. */
  lemma UpdateStores(kvs: KVs, g: string, id: string, u: Record, now: int)
    requires Key(g, id) in kvs && kvs[Key(g, id)].Stored? && !Repeats(kvs, g, id, u.address, u.name)
    ensures var after, key := Apply(kvs, UpdateOp(g, id, u, now)), ["", "ufleet", "registry", g, id];
      && key in kvs && kvs[key].Stored? && key in after && after[key].Stored? && SameBut(kvs, after, key)
      && var old_, new_ := kvs[key].record, after[key].record;
         && new_.id == id && new_.updateTime == now && new_.belong == old_.belong
         && (u.name != "" ==> new_.name == u.name) && (u.name == "" ==> new_.name == old_.name)
         && (u.address != "" ==> new_.address == u.address) && (u.address == "" ==> new_.address == old_.address)
         && (u.user != "" ==> new_.user == u.user) && (u.user == "" ==> new_.user == old_.user)
         && (u.email != "" ==> new_.email == u.email) && (u.email == "" ==> new_.email == old_.email)
         && (u.extend != "" ==> new_.extend == u.extend) && (u.extend == "" ==> new_.extend == old_.extend)
         && (u.password != [] ==> IsEncoded(new_.password, u.password))
         && (u.password == [] ==> new_.password == old_.password)
  {
    Base64.EncodesAsRfc4648(u.password);
    Base64.StdRoundTrip(u.password);
    hide Base64.StdEncode, Base64.StdDecode, Base64.Encodes, Repeats;
    assert Key(g, id) == ["", "ufleet", "registry", g, id];
  }

  /** What repeats, and an update of what is not there, change nothing. */
  lemma RejectedChangesNothing(kvs: KVs, g: string, r: Record, id: string, now: int)
    ensures Repeats(kvs, g, r.id, r.address, r.name) ==> Apply(kvs, AddOp(g, r, id, now)) == kvs
    ensures Repeats(kvs, g, id, r.address, r.name) ==> Apply(kvs, UpdateOp(g, id, r, now)) == kvs
    ensures Key(g, id) !in kvs ==> Apply(kvs, UpdateOp(g, id, r, now)) == kvs
  {
    hide Repeats;
  }

  /** In a plain group a removal takes exactly the registry with this ID. */
  lemma RemoveTakes(kvs: KVs, g: string, id: string)
    requires WellFormed(kvs) && Plain(g)
    ensures Apply(kvs, RemoveOp(g, id)) == if id == "" then kvs else kvs - {["", "ufleet", "registry", g, id]}
  {
    var key := Key(g, id);
    assert key == ["", "ufleet", "registry", g, id];
    KeyParts(g, id);
    forall p ensures p in Listing(kvs, GroupDir(g)) <==> p in kvs && IsKey(p) && p[3] == g { ListedInGroup(kvs, g, p); }
    NameOfKey(g, id);
    if id == "" {
      forall p | p in Listing(kvs, GroupDir(g)) ensures BaseName(p) != "" { NameOfKey(g, p[4]); }
    } else if key in kvs {
      assert ListedId(kvs, g, id);
    }
  }

  lemma NameOfKey(g: string, id: string)
    requires g != ""
    ensures BaseName(Key(g, id)) == if id == "" then g else id
  {
    assert Key(g, id)[..4] == GroupDir(g);
  }

  /** `InitRegistry` leaves a store the runs can start from. */
  lemma InitialStore()
    ensures WellFormed(map[BASE := Blank]) && AllUnique(map[BASE := Blank])
  {
    forall g, a ensures Key(g, a) != BASE { assert |Key(g, a)| == 5; }
    hide Key;
  }

  /** `Add` protects exactly the plain groups: in the others it stores any registry twice. */
  lemma AddProtectsExactlyPlainGroups(g: string)
    ensures Plain(g) <==>
      forall kvs: KVs, r: Record, id, now ::
        WellFormed(kvs) && Unique(kvs, g) && Key(g, id) !in kvs && Key(g, r.id) !in kvs ==>
          Unique(Added(kvs, g, r, id, now), g)
  {
    if Plain(g) {
      forall kvs: KVs, r: Record, id, now |
        WellFormed(kvs) && Unique(kvs, g) && Key(g, id) !in kvs && Key(g, r.id) !in kvs
        ensures Unique(Added(kvs, g, r, id, now), g)
      {
        AddStep(kvs, g, AddOp(g, r, id, now));
      }
    } else {
      StoredTwice(g);
    }
  }

  lemma StoredTwice(g: string)
    requires !Plain(g)
    ensures exists kvs: KVs, r: Record, id, now ::
      WellFormed(kvs) && Unique(kvs, g) && Key(g, id) !in kvs && Key(g, r.id) !in kvs
      && !Unique(Added(kvs, g, r, id, now), g)
  {
    var r := Record("", "n", "a", "", [], "", "", 0, g);
    var first := r.(id := "1");
    var empty: KVs := map[];
    var kvs := Saved(empty, g, first, 0);
    SaveKeepsWellFormed(empty, g, first, 0);
    KeyIsInjective(g, "1", g, "2");
    KeyIsInjective(g, "1", g, "");
    forall a | Key(g, a) in kvs ensures a == "1" { KeyIsInjective(g, a, g, "1"); }
    NeverRepeats(kvs, g, r.id, r.address, r.name);
    var after := Added(kvs, g, r, "2", 0);
    assert Key(g, "1") in after && Key(g, "2") in after;
  }

  /** Removing a group's registries also removes those of every group whose name continues its name. */
  lemma RemoveGroupRegRemoves(kvs: KVs, g: string, h: string, id: string)
    ensures Key(h, id) in WithoutDir(kvs, GroupDir(g)) <==> Key(h, id) in kvs && !(g <= h)
  {
    UnderGroup(g, h, id);
  }

  /** A store with one registry, in the group `g`. */
  function OneRegistry(g: string): KVs {
    Saved(map[], g, Record("1", "n", "a", "", [], "", "", 0, g), 0)
  }

  lemma OneRegistryIs(g: string)
    ensures WellFormed(OneRegistry(g)) && OneRegistry(g).Keys == {Key(g, "1")}
    ensures forall h :: Unique(OneRegistry(g), h)
  {
    SaveKeepsWellFormed(map[], g, Record("1", "n", "a", "", [], "", "", 0, g), 0);
    forall h, a | Key(h, a) in OneRegistry(g) ensures h == g && a == "1" { KeyIsInjective(h, a, g, "1"); }
    hide Key;
  }

  /** An `Add` whose body carries the ID of the stored registry repeats it. */
  lemma ReusedIdBreaksAdd()
    ensures exists kvs: KVs, r: Record, id, now ::
      WellFormed(kvs) && AllUnique(kvs) && Key("g", id) !in kvs && !Repeats(kvs, "g", r.id, r.address, r.name)
      && !Unique(Added(kvs, "g", r, id, now), "g")
  {
    var kvs, r := OneRegistry("g"), Record("1", "n", "a", "", [], "", "", 0, "g");
    OneRegistryIs("g");
    KeyIsInjective("g", "1", "g", "2");
    RepeatsMeans(kvs, "g", r.id, r.address, r.name);
    hide WellFormed, Unique, Repeats, Key;
    forall a | Key("g", a) in kvs ensures a == "1" { KeyIsInjective("g", a, "g", "1"); }
    AddKeepsUniqueExactlyWhen(kvs, "g", r, "2", 0);
    assert !Unique(Added(kvs, "g", r, "2", 0), "g");
  }

  /** Removing group "team" empties group "team2". */
  lemma TeamTakesTeam2()
    ensures exists kvs: KVs, id: string ::
      WellFormed(kvs) && Key("team2", id) in kvs && Key("team2", id) !in WithoutDir(kvs, GroupDir("team"))
  {
    OneRegistryIs("team2");
    assert "team2"[..4] == "team";
    hide WellFormed, Key, WithoutDir;
    RemoveGroupRegRemoves(OneRegistry("team2"), "team", "team2", "1");
  }

  // ---------- counting ----------

  function RegistryKeys(kvs: KVs): set<Path> {
    set key | key in kvs && IsKey(key)
  }

  function KeysOf(kvs: KVs, groups: set<string>): set<Path> {
    set key | key in kvs && IsKey(key) && key[3] in groups
  }

  /** The groups that hold a registry. */
  function GroupNames(kvs: KVs): set<string> {
    set key | key in kvs && IsKey(key) :: key[3]
  }

  function NamesFrom(kvs: KVs, prefix: string): set<string> {
    set g | g in GroupNames(kvs) && prefix <= g
  }

  /** What counting the listing of a group amounts to: in a plain group its registries, else group names. */
  function GroupCount(kvs: KVs, g: string): nat {
    if Plain(g) then |KeysOf(kvs, {g})|
    else if g == "ufleet" then if NamesFrom(kvs, "ufleet") == {} then 0 else 1
    else |NamesFrom(kvs, g)|
  }

  function Elements(s: seq<Path>): set<Path> {
    set p | p in s
  }

  lemma {:induction false} DistinctCount(s: seq<Path>)
    requires forall i, j :: 0 <= i < j < |s| ==> s[i] != s[j]
    ensures |Elements(s)| == |s|
  {
    if s != [] {
      var init, last := s[..|s| - 1], s[|s| - 1];
      DistinctCount(init);
      assert Elements(s) == Elements(init) + {last};
      assert last !in Elements(init);
    }
  }

  function Dirs(names: set<string>): set<Path> {
    set g | g in names :: GroupDir(g)
  }

  lemma {:induction false} DirsCount(names: set<string>)
    ensures |Dirs(names)| == |names|
    decreases |names|
  {
    if names != {} {
      var g :| g in names;
      DirsCount(names - {g});
      forall h ensures GroupDir(h) == GroupDir(g) <==> h == g { assert GroupDir(h)[3] == h && GroupDir(g)[3] == g; }
      assert Dirs(names) == Dirs(names - {g}) + {GroupDir(g)};
    }
  }

  lemma InGroupNames(kvs: KVs, g: string)
    ensures g in GroupNames(kvs) <==> exists id :: Key(g, id) in kvs
  {
    if g in GroupNames(kvs) {
      var key :| key in kvs && IsKey(key) && key[3] == g;
      assert Key(g, key[4]) in kvs;
    }
    if exists id :: Key(g, id) in kvs {
      var id :| Key(g, id) in kvs;
      KeyParts(g, id);
    }
  }

  /** The listings of "" and "registry" are group directories. */
  lemma ListedAsDirs(kvs: KVs, g: string, p: Path)
    requires WellFormed(kvs) && (g == "" || g == "registry")
    ensures p in Listing(kvs, GroupDir(g)) <==> p in Dirs(NamesFrom(kvs, g))
  {
    NameOfDir(g);
    if p in Listing(kvs, GroupDir(g)) {
      var key :| key in kvs && Under(GroupDir(g), key) && Entry(key, "registry") == Some(p);
      FetchedIsKey(kvs, g, key);
      KeyParts(key[3], key[4]);
    }
    if p in Dirs(NamesFrom(kvs, g)) {
      var h :| h in NamesFrom(kvs, g) && GroupDir(h) == p;
      InGroupNames(kvs, h);
      var id :| Key(h, id) in kvs;
      KeyParts(h, id);
      UnderGroup(g, h, id);
    }
  }

  /** The listing of "ufleet" is the root of the tree, if a group with that prefix holds anything. */
  lemma ListedAsRoot(kvs: KVs, p: Path)
    requires WellFormed(kvs)
    ensures p in Listing(kvs, GroupDir("ufleet")) <==> p == BASE && NamesFrom(kvs, "ufleet") != {}
  {
    NameOfDir("ufleet");
    if p in Listing(kvs, GroupDir("ufleet")) {
      var key :| key in kvs && Under(GroupDir("ufleet"), key) && Entry(key, "ufleet") == Some(p);
      FetchedIsKey(kvs, "ufleet", key);
      UfleetEntry(key);
      assert key[3] in NamesFrom(kvs, "ufleet");
    }
    if p == BASE && NamesFrom(kvs, "ufleet") != {} {
      var h :| h in NamesFrom(kvs, "ufleet");
      InGroupNames(kvs, h);
      var id :| Key(h, id) in kvs;
      UnderGroup("ufleet", h, id);
      KeyParts(h, id);
      UfleetEntry(Key(h, id));
    }
  }

  lemma GroupCountIsListing(kvs: KVs, g: string)
    requires WellFormed(kvs)
    ensures |Listing(kvs, GroupDir(g))| == GroupCount(kvs, g)
  {
    hide WellFormed, Listing, NamesFrom, Key;
    if Plain(g) {
      forall p ensures p in Listing(kvs, GroupDir(g)) <==> p in KeysOf(kvs, {g}) { ListedInGroup(kvs, g, p); }
      assert Listing(kvs, GroupDir(g)) == KeysOf(kvs, {g});
    } else if g == "ufleet" {
      forall p ensures p in Listing(kvs, GroupDir(g)) <==> p == BASE && NamesFrom(kvs, "ufleet") != {} {
        ListedAsRoot(kvs, p);
      }
      assert Listing(kvs, GroupDir(g)) == if NamesFrom(kvs, "ufleet") == {} then {} else {BASE};
    } else {
      forall p ensures p in Listing(kvs, GroupDir(g)) <==> p in Dirs(NamesFrom(kvs, g)) { ListedAsDirs(kvs, g, p); }
      assert Listing(kvs, GroupDir(g)) == Dirs(NamesFrom(kvs, g));
      DirsCount(NamesFrom(kvs, g));
    }
  }

  /** A group called "ufleet" counts as one, whatever it holds. */
  lemma UfleetCountsOne(kvs: KVs, id: string)
    requires WellFormed(kvs) && Key("ufleet", id) in kvs
    ensures Listing(kvs, GroupDir("ufleet")) == {BASE}
  {
    InGroupNames(kvs, "ufleet");
    assert "ufleet" in NamesFrom(kvs, "ufleet");
    hide WellFormed, Listing, NamesFrom;
    forall p ensures p in Listing(kvs, GroupDir("ufleet")) <==> p == BASE { ListedAsRoot(kvs, p); }
  }

  /** `CountByGroup`. */
  method CountByGroup(etcd: Client<Value>, group: string) returns (n: nat)
    ensures n == |Listing(etcd.kvs, GroupDir(group))|
    ensures WellFormed(etcd.kvs) ==> n == GroupCount(etcd.kvs, group)
  {
    var keys := etcd.ListDir(GroupDir(group));
    DistinctCount(keys);
    assert Elements(keys) == Listing(etcd.kvs, GroupDir(group));
    if WellFormed(etcd.kvs) { GroupCountIsListing(etcd.kvs, group); }
    n := |keys|;
  }

  lemma ListedGroup(kvs: KVs, p: Path)
    requires WellFormed(kvs)
    ensures p in Listing(kvs, BASE) <==> p in Dirs(GroupNames(kvs))
  {
    NameOfDir("");
    if p in Listing(kvs, BASE) {
      var key :| key in kvs && Under(BASE, key) && Entry(key, "registry") == Some(p);
      if key != BASE { KeyParts(key[3], key[4]); }
    }
    if p in Dirs(GroupNames(kvs)) {
      var h :| h in GroupNames(kvs) && GroupDir(h) == p;
      InGroupNames(kvs, h);
      var id :| Key(h, id) in kvs;
      KeyParts(h, id);
    }
  }

  function PlainOf(names: set<string>): set<string> {
    set g | g in names && Plain(g)
  }

  /**
    The total over these groups: the registries of the plain ones, one for "ufleet", and for
    "" and "registry", whose directories both look like "registry", the groups with that prefix.
   */
  function TotalOver(kvs: KVs, names: set<string>): nat {
    |KeysOf(kvs, PlainOf(names))| + OddTotal(kvs, names)
  }

  function OddTotal(kvs: KVs, names: set<string>): nat {
    (if "ufleet" in names then 1 else 0)
    + (if "" in names then |NamesFrom(kvs, "registry")| else 0)
    + (if "registry" in names then |NamesFrom(kvs, "registry")| else 0)
  }

  lemma OneMoreGroup(kvs: KVs, names: set<string>, g: string)
    requires g !in names
    ensures |KeysOf(kvs, names + {g})| == |KeysOf(kvs, names)| + |KeysOf(kvs, {g})|
  {
    hide IsKey;
    assert KeysOf(kvs, names + {g}) == KeysOf(kvs, names) + KeysOf(kvs, {g});
    assert KeysOf(kvs, names) !! KeysOf(kvs, {g});
  }

  lemma TotalStep(kvs: KVs, names: set<string>, g: string)
    requires g !in names && g in GroupNames(kvs)
    ensures TotalOver(kvs, names + {g})
         == TotalOver(kvs, names) + GroupCount(kvs, if g == "" then "registry" else g)
  {
    hide KeysOf, GroupNames;
    if Plain(g) {
      assert PlainOf(names + {g}) == PlainOf(names) + {g};
      OneMoreGroup(kvs, PlainOf(names), g);
    } else {
      assert PlainOf(names + {g}) == PlainOf(names);
      if g == "ufleet" { assert g in NamesFrom(kvs, g); }
    }
  }

  /** `CountTotal`. */
  method CountTotal(etcd: Client<Value>) returns (total: nat)
    ensures WellFormed(etcd.kvs) ==> total == TotalOver(etcd.kvs, GroupNames(etcd.kvs))
  {
    hide Listing, WellFormed, KeysOf, BaseName, TotalOver, GroupCount, GroupNames;
    total := 0;
    var keys := etcd.ListDir(BASE);
    ghost var names: set<string> := {};
    NothingCounted(etcd.kvs);
    for i := 0 to |keys|
      invariant WellFormed(etcd.kvs) ==> total == TotalOver(etcd.kvs, names)
      invariant WellFormed(etcd.kvs) ==> Dirs(names) == Elements(keys[..i])
    {
      var n := CountByGroup(etcd, BaseName(keys[i]));
      if WellFormed(etcd.kvs) {
        var g := NextGroup(etcd.kvs, keys, i, names);
        TotalStep(etcd.kvs, names, g);
        names := names + {g};
      }
      total := total + n;
    }
    if WellFormed(etcd.kvs) {
      assert keys[..|keys|] == keys;
      AllGroups(etcd.kvs, keys, names);
    }
  }

  lemma NothingCounted(kvs: KVs)
    ensures TotalOver(kvs, {}) == 0
  {
  }

  lemma SameDir(g: string, h: string)
    ensures GroupDir(g) == GroupDir(h) <==> g == h
  {
    assert GroupDir(g)[3] == g && GroupDir(h)[3] == h;
  }

  lemma NextGroup(kvs: KVs, keys: seq<Path>, i: nat, names: set<string>) returns (g: string)
    requires WellFormed(kvs) && i < |keys| && Dirs(names) == Elements(keys[..i])
    requires forall p :: p in keys ==> p in Listing(kvs, BASE)
    requires forall a, b :: 0 <= a < b < |keys| ==> keys[a] != keys[b]
    ensures g in GroupNames(kvs) && g !in names && Dirs(names + {g}) == Elements(keys[..i + 1])
    ensures BaseName(keys[i]) == if g == "" then "registry" else g
  {
    hide WellFormed, Listing, GroupNames;
    assert keys[i] in keys;
    ListedGroup(kvs, keys[i]);
    g :| g in GroupNames(kvs) && GroupDir(g) == keys[i];
    NameOfDir(g);
    hide BaseName, GroupDir;
    assert keys[..i + 1] == keys[..i] + [keys[i]];
    assert keys[i] !in keys[..i];
    assert Dirs(names + {g}) == Dirs(names) + {GroupDir(g)};
  }

  lemma AllGroups(kvs: KVs, keys: seq<Path>, names: set<string>)
    requires WellFormed(kvs) && Dirs(names) == Elements(keys)
    requires forall p :: p in keys <==> p in Listing(kvs, BASE)
    ensures names == GroupNames(kvs)
  {
    forall p ensures p in Dirs(names) <==> p in Dirs(GroupNames(kvs)) {
      ListedGroup(kvs, p);
      assert p in Elements(keys) <==> p in keys;
    }
    hide WellFormed, Listing, GroupNames, GroupDir;
    forall g ensures g in names <==> g in GroupNames(kvs) {
      forall h ensures GroupDir(g) == GroupDir(h) <==> g == h { SameDir(g, h); }
      assert GroupDir(g) in Dirs(names) <==> GroupDir(g) in Dirs(GroupNames(kvs));
    }
  }

  // ---------- when the counts are right ----------

  const ODD := {"", "ufleet", "registry"}

  ghost predicate AllPlain(kvs: KVs) {
    forall g :: g in GroupNames(kvs) ==> Plain(g)
  }

  /** The registries are those of the plain groups and those of the others. */
  lemma KeysSplit(kvs: KVs)
    ensures |RegistryKeys(kvs)| == |KeysOf(kvs, PlainOf(GroupNames(kvs)))| + |KeysOf(kvs, ODD)|
  {
    var plain, odd := KeysOf(kvs, PlainOf(GroupNames(kvs))), KeysOf(kvs, ODD);
    forall key | key in RegistryKeys(kvs) ensures key in plain || key in odd {
      assert key[3] in GroupNames(kvs);
    }
    assert RegistryKeys(kvs) == plain + odd;
    assert plain !! odd;
  }

  /**
    `CountTotal` gives the number of stored registries exactly when the groups that are not
    plain happen to hold as many as the total puts down for them.
   */
  lemma TotalRightExactlyWhen(kvs: KVs)
    ensures TotalOver(kvs, GroupNames(kvs)) == |RegistryKeys(kvs)|
       <==> |KeysOf(kvs, ODD)| == OddTotal(kvs, GroupNames(kvs))
  {
    KeysSplit(kvs);
  }

  lemma PlainTotal(kvs: KVs)
    requires AllPlain(kvs)
    ensures TotalOver(kvs, GroupNames(kvs)) == |RegistryKeys(kvs)|
  {
    KeysSplit(kvs);
    forall key ensures key !in KeysOf(kvs, ODD) {
      if key in kvs && IsKey(key) { assert key[3] in GroupNames(kvs); }
    }
    assert KeysOf(kvs, ODD) == {};
  }

  /** A stored registry more in a group of another kind leaves the total as it is. */
  lemma OneMoreRegistry(kvs: KVs, g: string, a: string, b: string, more: KVs)
    requires WellFormed(kvs) && !Plain(g) && Key(g, a) in kvs && Key(g, b) !in kvs
    requires more == Saved(kvs, g, Record(b, b, b, "", [], "", "", 0, g), 0)
    ensures WellFormed(more) && GroupNames(more) == GroupNames(kvs)
    ensures TotalOver(more, GroupNames(more)) == TotalOver(kvs, GroupNames(kvs))
    ensures |RegistryKeys(more)| == |RegistryKeys(kvs)| + 1
  {
    SaveKeepsWellFormed(kvs, g, Record(b, b, b, "", [], "", "", 0, g), 0);
    KeyParts(g, a);
    KeyParts(g, b);
    hide WellFormed, Key, Plain;
    assert RegistryKeys(more) == RegistryKeys(kvs) + {Key(g, b)};
    assert forall h :: h in GroupNames(kvs) ==> h in GroupNames(more) by {
      forall h | h in GroupNames(kvs) ensures h in GroupNames(more) {
        var key :| key in kvs && IsKey(key) && key[3] == h;
        assert key in more;
      }
    }
    assert g in GroupNames(kvs);
    assert GroupNames(more) == GroupNames(kvs);
    assert KeysOf(more, PlainOf(GroupNames(kvs))) == KeysOf(kvs, PlainOf(GroupNames(kvs)));
  }

  lemma {:induction false} LongerThanAll(ids: set<string>) returns (n: nat)
    ensures forall id :: id in ids ==> |id| < n
    decreases |ids|
  {
    if ids == {} {
      n := 0;
    } else {
      var id :| id in ids;
      var m := LongerThanAll(ids - {id});
      n := if |id| < m then m else |id| + 1;
    }
  }

  lemma UnusedId(kvs: KVs, g: string) returns (id: string)
    ensures Key(g, id) !in kvs
  {
    var ids := set key | key in kvs && IsKey(key) :: key[4];
    var n := LongerThanAll(ids);
    id := seq(n, _ => '0');
    KeyParts(g, id);
    assert Key(g, id) in kvs ==> id in ids;
  }

  /**
    `CountTotal` is right for every store with the same group names exactly when these are
    all plain.
   */
  lemma TotalRightExactlyForPlainNames(kvs: KVs)
    requires WellFormed(kvs)
    ensures AllPlain(kvs) <==>
      forall other: KVs :: WellFormed(other) && GroupNames(other) == GroupNames(kvs) ==>
        TotalOver(other, GroupNames(other)) == |RegistryKeys(other)|
  {
    hide TotalOver, RegistryKeys, WellFormed;
    if AllPlain(kvs) {
      forall other: KVs | WellFormed(other) && GroupNames(other) == GroupNames(kvs)
        ensures TotalOver(other, GroupNames(other)) == |RegistryKeys(other)|
      {
        PlainTotal(other);
      }
    } else {
      var g :| g in GroupNames(kvs) && !Plain(g);
      InGroupNames(kvs, g);
      var a :| Key(g, a) in kvs;
      var b := UnusedId(kvs, g);
      var more := Saved(kvs, g, Record(b, b, b, "", [], "", "", 0, g), 0);
      OneMoreRegistry(kvs, g, a, b, more);
    }
  }

  lemma PlainCount(kvs: KVs, g: string)
    requires WellFormed(kvs) && Plain(g)
    ensures |Listing(kvs, GroupDir(g))| == |KeysOf(kvs, {g})|
  {
    GroupCountIsListing(kvs, g);
  }

  lemma TwoInOneGroup(kvs: KVs, g: string)
    requires kvs.Keys == {Key(g, "1"), Key(g, "2")}
    ensures |KeysOf(kvs, {g})| == 2 && (g == "" || g == "ufleet" || g == "registry" ==> NamesFrom(kvs, g) == {g})
  {
    KeyIsInjective(g, "1", g, "2");
    KeyParts(g, "1");
    KeyParts(g, "2");
    hide Key;
    assert KeysOf(kvs, {g}) == {Key(g, "1"), Key(g, "2")};
    assert GroupNames(kvs) == {g};
  }

  /** Two registries in a group of another kind count as one. */
  lemma TwoCountAsOne(g: string) returns (kvs: KVs)
    requires !Plain(g)
    ensures WellFormed(kvs) && |Listing(kvs, GroupDir(g))| == 1 && |KeysOf(kvs, {g})| == 2
  {
    hide WellFormed, Listing, Key, KeysOf, NamesFrom, OneRegistry;
    var r := Record("2", "n", "a", "", [], "", "", 0, g);
    kvs := Saved(OneRegistry(g), g, r, 0);
    OneRegistryIs(g);
    SaveKeepsWellFormed(OneRegistry(g), g, r, 0);
    GroupCountIsListing(kvs, g);
    TwoInOneGroup(kvs, g);
  }

  /** `CountByGroup` counts a group's registries in every store exactly when the group is plain. */
  lemma CountRightExactlyInPlainGroups(g: string)
    ensures Plain(g) <==>
      forall kvs: KVs :: WellFormed(kvs) ==> |Listing(kvs, GroupDir(g))| == |KeysOf(kvs, {g})|
  {
    hide WellFormed, Listing, KeysOf, Plain;
    if Plain(g) {
      forall kvs: KVs | WellFormed(kvs) ensures |Listing(kvs, GroupDir(g))| == |KeysOf(kvs, {g})| {
        PlainCount(kvs, g);
      }
    } else {
      var kvs := TwoCountAsOne(g);
    }
  }

  lemma UfleetEntry(key: Path)
    requires IsKey(key)
    ensures Entry(key, "ufleet") == Some(BASE)
  {
    assert key[0] == "" && key[1] == "ufleet" && key[2] == "registry";
    assert FirstAt(key, "ufleet") == 1;
    assert key[..3] == BASE;
  }
}
