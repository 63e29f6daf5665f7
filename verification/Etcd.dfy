/**
  The key-value store client of the user service (`user/util/etcdclientv3/etcdclient.go`)
  over a plain map. Keys are kept as the lists of their path components.
 */
module Etcd {
  import opened Wrappers

  /** A key, split at the separator; no component contains the separator. */
  type Path = seq<string>

  const SEP := '/'

  ghost predicate NoSeparators(p: Path) {
    forall k :: 0 <= k < |p| ==> SEP !in p[k]
  }

  /** `EtcdPathJoin`. */
  function PathJoin(p: Path): string {
    if |p| == 0 then ""
    else if |p| == 1 then p[0]
    else p[0] + [SEP] + PathJoin(p[1..])
  }

  /** The joined key starts with the joined directory, as a string: the last component may go on. */
  predicate Under(dir: Path, key: Path) {
    0 < |dir| <= |key| && key[..|dir| - 1] == dir[..|dir| - 1] && dir[|dir| - 1] <= key[|dir| - 1]
  }

  /** `filepath.Base`: the last component that is not empty. */
  function BaseName(p: Path): string
    decreases |p|
  {
    if p == [] then [SEP]
    else if p[|p| - 1] != "" then p[|p| - 1]
    else BaseName(p[..|p| - 1])
  }

  /** The position of the first component `name`, or the length if there is none. */
  function FirstAt(key: Path, name: string): (i: nat)
    ensures i <= |key|
    ensures i < |key| ==> key[i] == name
    ensures forall k :: 0 <= k < i ==> key[k] != name
  {
    if key == [] then 0 else if key[0] == name then 0 else 1 + FirstAt(key[1..], name)
  }

  /** The entry a key contributes to the listing of a directory called `name`. */
  function Entry(key: Path, name: string): Option<Path> {
    var i := FirstAt(key, name);
    if i + 1 < |key| then Some(key[..i + 2]) else None
  }

  /** What `ListDir` lists, in some order. */
  function Listing<V>(kvs: map<Path, V>, dir: Path): set<Path> {
    set key | key in kvs && Under(dir, key) && Entry(key, BaseName(dir)).Some? :: Entry(key, BaseName(dir)).value
  }

  /** What `RemoveDir` leaves. */
  function WithoutDir<V>(kvs: map<Path, V>, dir: Path): map<Path, V> {
    map key | key in kvs && !Under(dir, key) :: kvs[key]
  }

  class Client<V> {
    var kvs: map<Path, V>

    constructor ()
      ensures kvs == map[]
    {
      kvs := map[];
    }

    method SetKV(k: Path, v: V)
      modifies this
      ensures kvs == old(kvs)[k := v]
    {
      kvs := kvs[k := v];
    }

    method GetKV(k: Path) returns (r: Option<V>)
      ensures r == if k in kvs then Some(kvs[k]) else None
    {
      if k in kvs { return Some(kvs[k]); }
      return None;
    }

    method RemoveDir(k: Path)
      modifies this
      ensures kvs == WithoutDir(old(kvs), k)
    {
      kvs := map key | key in kvs && !Under(k, key) :: kvs[key];
    }

    method RemoveKey(k: Path)
      modifies this
      ensures kvs == old(kvs) - {k}
    {
      kvs := kvs - {k};
    }

    /** The first component equal to the base name, with the one after it, ends the entry. */
    method Collect(key: Path, basedir: string) returns (r: Option<Path>)
      ensures r == Entry(key, basedir)
    {
      for i := 0 to |key|
        invariant forall k :: 0 <= k < i ==> key[k] != basedir || k + 1 == |key|
        invariant forall k :: 0 <= k < i && k + 1 < |key| ==> key[k] != basedir
      {
        if key[i] == basedir && i + 1 < |key| {
          return Some(key[0..i + 2]);
        }
      }
      return None;
    }

    method ListDir(k: Path) returns (r: seq<Path>)
      ensures forall p :: p in r <==> p in Listing(kvs, k)
      ensures forall i, j :: 0 <= i < j < |r| ==> r[i] != r[j]
    {
      var basedir := BaseName(k);
      var todo := kvs.Keys;
      r := [];
      ghost var done: set<Path> := {};
      while todo != {}
        invariant done + todo == kvs.Keys
        invariant forall p :: p in r <==> exists key :: key in done && Under(k, key) && Entry(key, basedir) == Some(p)
        invariant forall i, j :: 0 <= i < j < |r| ==> r[i] != r[j]
        decreases |todo|
      {
        var key :| key in todo;
        if Under(k, key) {
          var entry := Collect(key, basedir);
          if entry.Some? && entry.value !in r { r := r + [entry.value]; }
        }
        todo := todo - {key};
        done := done + {key};
      }
    }
  }

  // ---------- prefixes of joined keys ----------

  lemma PrefixOfParts(a: string, s: string, b: string, t: string)
    requires |a| == |b| && a + [SEP] + s <= b + [SEP] + t
    ensures a == b && s <= t
  {
    var x, y := a + [SEP] + s, b + [SEP] + t;
    assert forall i :: 0 <= i < |a| ==> a[i] == x[i] == y[i] == b[i];
    assert forall i :: 0 <= i < |s| ==> s[i] == x[|a| + 1 + i] == y[|a| + 1 + i] == t[i];
  }

  lemma PartsOfPrefix(a: string, s: string, t: string)
    requires s <= t
    ensures a + [SEP] + s <= a + [SEP] + t
  {
    assert t == s + t[|s|..];
    assert a + [SEP] + t == (a + [SEP] + s) + t[|s|..];
  }

  lemma OtherLength(a: string, s: string, b: string, t: string)
    requires SEP !in a && SEP !in b && |a| != |b|
    ensures !(a + [SEP] + s <= b + [SEP] + t)
  {
    var x, y := a + [SEP] + s, b + [SEP] + t;
    assert x[|a|] == SEP && y[|b|] == SEP;
    if |a| < |b| {
      assert y[|a|] == b[|a|] && b[|a|] in b;
    } else {
      assert x[|b|] == a[|b|] && a[|b|] in a;
    }
  }

  /** A separator cannot stand inside a component, so joined texts are compared component by component. */
  lemma FirstComponents(a: string, s: string, b: string, t: string)
    requires SEP !in a && SEP !in b
    ensures a + [SEP] + s <= b + [SEP] + t <==> a == b && s <= t
  {
    if |a| != |b| {
      OtherLength(a, s, b, t);
    } else {
      if a + [SEP] + s <= b + [SEP] + t { PrefixOfParts(a, s, b, t); }
      if a == b && s <= t { PartsOfPrefix(a, s, t); }
    }
  }

  lemma LastComponent(a: string, b: string, t: string)
    requires SEP !in a
    ensures a <= b + [SEP] + t <==> a <= b
  {
    var y := b + [SEP] + t;
    if |b| < |a| {
      assert a[|b|] in a && y[|b|] == SEP;
    } else {
      assert b == y[..|b|];
      assert forall i :: 0 <= i < |a| ==> b[i] == y[i];
    }
  }

  lemma NotLonger(a: string, s: string, b: string)
    requires SEP !in b
    ensures !(a + [SEP] + s <= b)
  {
    var x := a + [SEP] + s;
    assert x[|a|] == SEP;
    if |a| < |b| { assert b[|a|] in b; }
  }

  lemma FirstAndRest(p: Path, n: nat)
    requires 1 <= n <= |p|
    ensures p[..n] == [p[0]] + p[1..][..n - 1]
  {
  }

  lemma UnderRest(dir: Path, key: Path)
    requires |dir| > 1 && |key| > 0
    ensures Under(dir, key) <==> |key| > 1 && dir[0] == key[0] && Under(dir[1..], key[1..])
  {
    if |dir| <= |key| {
      FirstAndRest(key, |dir| - 1);
      FirstAndRest(dir, |dir| - 1);
    }
  }

  /** A key is fetched or removed with a directory exactly when its joined text starts with the directory's. */
  lemma {:induction false} UnderIsStringPrefix(dir: Path, key: Path)
    requires |dir| > 0 && |key| > 0 && NoSeparators(dir) && NoSeparators(key)
    ensures Under(dir, key) <==> PathJoin(dir) <= PathJoin(key)
    decreases |dir|
  {
    if |dir| == 1 {
      if |key| > 1 { LastComponent(dir[0], key[0], PathJoin(key[1..])); }
    } else {
      UnderRest(dir, key);
      if |key| == 1 {
        NotLonger(dir[0], PathJoin(dir[1..]), key[0]);
      } else {
        UnderIsStringPrefix(dir[1..], key[1..]);
        FirstComponents(dir[0], PathJoin(dir[1..]), key[0], PathJoin(key[1..]));
      }
    }
  }
}
