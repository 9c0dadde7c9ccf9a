/** The cluster's secret (or config) store, as the controller sees it: a list of artifacts
    with distinct ids and distinct names, from which artifacts are removed by id and to which
    they are added by name. */
module Artifacts {
  import opened Wrappers

  newtype byte = x: int | 0 <= x < 256

  datatype Artifact = Artifact(id: string, name: string, data: seq<byte>)

  predicate UniqueIds(s: seq<Artifact>) {
    forall i, j :: 0 <= i < j < |s| ==> s[i].id != s[j].id
  }

  predicate UniqueNames(s: seq<Artifact>) {
    forall i, j :: 0 <= i < j < |s| ==> s[i].name != s[j].name
  }

  /** The artifacts whose id is not in `ids`, in their order. */
  function Without(s: seq<Artifact>, ids: set<string>): (r: seq<Artifact>)
    ensures |r| <= |s|
    ensures forall a :: a in r <==> a in s && a.id !in ids
  {
    if s == [] then []
    else
      var init := Without(s[..|s| - 1], ids);
      var last := s[|s| - 1];
      assert s == s[..|s| - 1] + [last];
      if last.id in ids then init else init + [last]
  }

  /** Removing never breaks uniqueness. */
  lemma {:induction false} WithoutKeepsUnique(s: seq<Artifact>, ids: set<string>)
    requires UniqueIds(s) && UniqueNames(s)
    ensures UniqueIds(Without(s, ids)) && UniqueNames(Without(s, ids))
  {
    if s != [] {
      var init := s[..|s| - 1];
      var last := s[|s| - 1];
      assert UniqueIds(init) && UniqueNames(init);
      WithoutKeepsUnique(init, ids);
      if last.id !in ids {
        var w := Without(init, ids);
        forall i | 0 <= i < |w| ensures w[i].id != last.id && w[i].name != last.name {
          assert w[i] in w;
          var p :| 0 <= p < |init| && init[p] == w[i];
          assert s[p] == w[i];
        }
      }
    }
  }

  /** Removing in two rounds removes the union. */
  lemma {:induction false} WithoutTwice(s: seq<Artifact>, ids1: set<string>, ids2: set<string>)
    ensures Without(Without(s, ids1), ids2) == Without(s, ids1 + ids2)
  {
    if s != [] {
      var init := s[..|s| - 1];
      WithoutTwice(init, ids1, ids2);
      var last := s[|s| - 1];
      if last.id !in ids1 {
        assert Without(s, ids1)[..|Without(s, ids1)| - 1] == Without(init, ids1);
      }
    }
  }

  /** Removing ids that no artifact has removes nothing. */
  lemma {:induction false} WithoutAbsent(s: seq<Artifact>, ids: set<string>)
    requires forall a :: a in s ==> a.id !in ids
    ensures Without(s, ids) == s
  {
    if s != [] {
      var init, last := s[..|s| - 1], s[|s| - 1];
      assert s == init + [last];
      assert forall a :: a in init ==> a in s;
      WithoutAbsent(init, ids);
    }
  }

  /** The ids of the artifacts called `name`. */
  function NamedIds(s: seq<Artifact>, name: string): set<string> {
    set a | a in s && a.name == name :: a.id
  }

  /** With unique names, the artifact `a` is the only one called `a.name`. */
  lemma NamedIdsOfUnique(s: seq<Artifact>, a: Artifact)
    requires UniqueNames(s) && a in s
    ensures NamedIds(s, a.name) == {a.id}
    ensures forall b :: b in s && b.name == a.name ==> b == a
  {
    forall b | b in s && b.name == a.name ensures b == a {
      var i :| 0 <= i < |s| && s[i] == b;
      var j :| 0 <= j < |s| && s[j] == a;
      assert i == j;
    }
  }

  /** The artifact called `name`, if there is one. */
  function FindByName(s: seq<Artifact>, name: string): (r: Option<Artifact>)
    ensures r.Some? ==> r.value in s && r.value.name == name
    ensures r.None? ==> forall a :: a in s ==> a.name != name
  {
    if s == [] then None
    else if s[0].name == name then Some(s[0])
    else FindByName(s[1..], name)
  }


  class Store {
    var items: seq<Artifact>

    ghost predicate Valid()
      reads this
    {
      UniqueIds(items) && UniqueNames(items)
    }

    constructor ()
      ensures Valid() && items == []
    {
      items := [];
    }

    /** Removes the artifact with that id, if any. */
    method Remove(id: string)
      requires Valid()
      modifies this
      ensures Valid()
      ensures items == Without(old(items), {id})
    {
      WithoutKeepsUnique(items, {id});
      items := Without(items, {id});
    }

    /** Adds an artifact; the store gives it an id no artifact has, and refuses a duplicate name. */
    method Create(name: string, data: seq<byte>, freshId: string) returns (created: bool)
      requires Valid()
      requires forall a :: a in items ==> a.id != freshId
      modifies this
      ensures Valid()
      ensures created <==> forall a :: a in old(items) ==> a.name != name
      ensures items == if created then old(items) + [Artifact(freshId, name, data)] else old(items)
    {
      created := FindByName(items, name).None?;
      if created {
        items := items + [Artifact(freshId, name, data)];
      }
    }
  }

  /** Publishes `data` under `name`: an artifact of that name is removed first, then the new
      one is created. Afterwards exactly one artifact has that name, it is last and holds `data`,
      and before it every artifact of another name is still there, in its old order. */
  method CreateOrReplace(store: Store, name: string, data: seq<byte>, freshId: string) returns (id: string)
    requires store.Valid()
    requires forall a :: a in store.items ==> a.id != freshId
    modifies store
    ensures store.Valid()
    ensures id == freshId && |store.items| >= 1
    ensures store.items[|store.items| - 1] == Artifact(id, name, data)
    ensures forall a :: a in store.items[..|store.items| - 1] <==> a in old(store.items) && a.name != name
    ensures store.items[..|store.items| - 1] == Without(old(store.items), NamedIds(old(store.items), name))
  {
    var existing := FindByName(store.items, name);
    if existing.Some? {
      NamedIdsOfUnique(store.items, existing.value);
      store.Remove(existing.value.id);
    } else {
      assert NamedIds(store.items, name) == {};
      WithoutAbsent(store.items, {});
    }
    ghost var kept := store.items;
    var created := store.Create(name, data, freshId);
    assert store.items[..|store.items| - 1] == kept;
    id := freshId;
  }
}
