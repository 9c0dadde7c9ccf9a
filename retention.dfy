/** Garbage collection of old certificate secrets and old configuration documents. The
    artifacts the collector considers are put in buckets (one per kind and group for secrets,
    one for configs), each bucket is sorted by its timestamp label, and all but the `retain`
    newest of each bucket are removed. Artifacts that the service references, that are outside
    the controller's namespace, or whose name does not parse, are never touched. */
module Retention {
  import opened GoStrings
  import opened Naming
  import opened Wrappers
  import opened Rewrite
  import opened Artifacts

  /** One artifact the collector may remove: its id, its name and its timestamp label. */
  datatype Candidate = Candidate(id: string, name: string, ts: string)

  datatype Keyed = Keyed(key: string, cand: Candidate)

  function IdsOf(s: seq<Candidate>): set<string> {
    set c | c in s :: c.id
  }

  predicate DistinctIds(s: seq<Candidate>) {
    forall i, j :: 0 <= i < j < |s| ==> s[i].id != s[j].id
  }

  /** Ordered by label, as the byte-wise `<` on strings orders them. */
  predicate SortedByTs(s: seq<Candidate>) {
    forall i, j :: 0 <= i < j < |s| ==> LexLeq(s[i].ts, s[j].ts)
  }

  predicate AdjacentSorted(s: seq<Candidate>) {
    forall i :: 0 < i < |s| ==> LexLeq(s[i - 1].ts, s[i].ts)
  }

  function Max0(x: int): nat {
    if x < 0 then 0 else x
  }

  /** What the collector guarantees for one bucket `b` once the ids in `removed` are gone:
      exactly `|b| - retain` of its members (none when `retain >= |b|`) were removed, and no
      removed member carries a later label than a member that stays. The sort is not stable,
      so among members with equal labels which one goes is left open. */
  predicate Retained(b: seq<Candidate>, removed: set<string>, retain: nat) {
    && |IdsOf(b) * removed| == Max0(|b| - retain)
    && forall i, j :: 0 <= i < |b| && 0 <= j < |b| && b[i].id in removed && b[j].id !in removed ==>
         LexLeq(b[i].ts, b[j].ts)
  }

  // ---------------------------------------------------------------------------------------
  // Facts about candidate lists

  lemma {:induction false} AdjacentToSorted(s: seq<Candidate>)
    requires AdjacentSorted(s)
    ensures SortedByTs(s)
  {
    if |s| > 1 {
      var init := s[..|s| - 1];
      assert AdjacentSorted(init);
      AdjacentToSorted(init);
      forall i | 0 <= i < |s| - 2 ensures LexLeq(s[i].ts, s[|s| - 1].ts) {
        assert LexLeq(init[i].ts, init[|s| - 2].ts);
        LexLeqTransitive(s[i].ts, s[|s| - 2].ts, s[|s| - 1].ts);
      }
    }
  }

  lemma {:induction false} DistinctIdsCard(s: seq<Candidate>)
    requires DistinctIds(s)
    ensures |IdsOf(s)| == |s|
  {
    if s != [] {
      var init := s[..|s| - 1];
      var last := s[|s| - 1];
      assert s == init + [last];
      DistinctIdsCard(init);
      assert IdsOf(s) == IdsOf(init) + {last.id};
      assert last.id !in IdsOf(init);
    }
  }

  lemma {:induction false} DistinctIdsMultiplicity(s: seq<Candidate>, c: Candidate)
    requires DistinctIds(s)
    ensures multiset(s)[c] <= 1
  {
    if s != [] {
      var init := s[..|s| - 1];
      var last := s[|s| - 1];
      assert s == init + [last];
      DistinctIdsMultiplicity(init, c);
      if last == c {
        assert c !in init;
      }
    }
  }

  lemma TwoPositions(s: seq<Candidate>, i: int, j: int)
    requires 0 <= i < j < |s| && multiset(s)[s[i]] <= 1
    ensures s[i] != s[j]
  {
    assert s == s[..j] + [s[j]] + s[j + 1..];
    assert s[i] in s[..j];
  }

  /** Reordering keeps ids distinct. */
  lemma DistinctIdsPermutation(x: seq<Candidate>, y: seq<Candidate>)
    requires multiset(x) == multiset(y) && DistinctIds(x)
    ensures DistinctIds(y)
  {
    forall i, j | 0 <= i < j < |y| ensures y[i].id != y[j].id {
      DistinctIdsMultiplicity(x, y[i]);
      TwoPositions(y, i, j);
      assert y[i] in multiset(x) && y[j] in multiset(x);
      var p :| 0 <= p < |x| && x[p] == y[i];
      var q :| 0 <= q < |x| && x[q] == y[j];
      assert p != q;
    }
  }

  lemma SameIdSameCandidate(s: seq<Candidate>, c: Candidate, d: Candidate)
    requires DistinctIds(s) && c in s && d in s
    ensures c.id == d.id ==> c == d
  {
    var p :| 0 <= p < |s| && s[p] == c;
    var q :| 0 <= q < |s| && s[q] == d;
  }

  /** Removing the first `n` of a sorted reordering of a bucket meets the retention contract. */
  lemma RetainedOfSortedPrefix(group: seq<Candidate>, sorted: seq<Candidate>, n: nat, retain: nat)
    requires DistinctIds(group) && multiset(sorted) == multiset(group) && SortedByTs(sorted)
    requires |sorted| == |group| && n == Max0(|group| - retain)
    ensures IdsOf(sorted[..n]) <= IdsOf(group)
    ensures Retained(group, IdsOf(sorted[..n]), retain)
  {
    var v := IdsOf(sorted[..n]);
    DistinctIdsPermutation(group, sorted);
    assert DistinctIds(sorted[..n]);
    DistinctIdsCard(sorted[..n]);
    forall id | id in v ensures id in IdsOf(group) {
      var c :| c in sorted[..n] && c.id == id;
      assert c in multiset(sorted);
    }
    assert IdsOf(group) * v == v;
    forall q | 0 <= q < n ensures sorted[q].id in v {
      assert sorted[q] in sorted[..n];
    }
    forall i, j | 0 <= i < |group| && 0 <= j < |group| && group[i].id in v && group[j].id !in v
      ensures LexLeq(group[i].ts, group[j].ts)
    {
      var c :| c in sorted[..n] && c.id == group[i].id;
      var q :| 0 <= q < n && sorted[q] == c;
      assert c in multiset(group);
      SameIdSameCandidate(group, c, group[i]);
      assert group[j] in multiset(sorted);
      var p :| 0 <= p < |sorted| && sorted[p] == group[j];
    }
  }

  /** A member that stays keeps it: adding ids outside the bucket changes nothing. */
  lemma RetainedUnion(b: seq<Candidate>, removed: set<string>, extra: set<string>, retain: nat)
    requires Retained(b, removed, retain) && IdsOf(b) !! extra
    ensures Retained(b, removed + extra, retain)
  {
    assert IdsOf(b) * (removed + extra) == IdsOf(b) * removed;
    forall i | 0 <= i < |b| ensures b[i].id in removed + extra <==> b[i].id in removed {
      assert b[i].id in IdsOf(b);
    }
  }

  // ---------------------------------------------------------------------------------------
  // Consequences of the retention contract

  /** With at least one generation kept, a member strictly newer than all others of its bucket
      is never removed: the certificate just published survives even though it is not among
      the references that protect artifacts. */
  lemma NewestSurvives(b: seq<Candidate>, removed: set<string>, retain: nat, i: int)
    requires DistinctIds(b) && Retained(b, removed, retain) && retain >= 1
    requires 0 <= i < |b|
    requires forall j :: 0 <= j < |b| && j != i ==> LexLess(b[j].ts, b[i].ts)
    ensures b[i].id !in removed
  {
    DistinctIdsCard(b);
    assert IdsOf(b) * removed != IdsOf(b);
    var id :| id in IdsOf(b) && id !in removed;
    var c :| c in b && c.id == id;
    var j :| 0 <= j < |b| && b[j] == c;
    if j != i {
      LexLessAsymmetric(b[j].ts, b[i].ts);
      assert !LexLeq(b[i].ts, b[j].ts);
    }
  }

  /** The first index of `b` whose id was not removed, or `|b|`. */
  function FirstKept(b: seq<Candidate>, removed: set<string>): (k: nat)
    ensures k <= |b|
    ensures forall i :: 0 <= i < k ==> b[i].id in removed
    ensures k < |b| ==> b[k].id !in removed
  {
    if b == [] || b[0].id !in removed then 0 else 1 + FirstKept(b[1..], removed)
  }

  /** With strictly increasing labels, nothing after the first member that stays is removed. */
  lemma KeptAfterFirst(b: seq<Candidate>, removed: set<string>, retain: nat, k: nat)
    requires Retained(b, removed, retain)
    requires forall i, j :: 0 <= i < j < |b| ==> LexLess(b[i].ts, b[j].ts)
    requires k <= |b| && (k < |b| ==> b[k].id !in removed)
    ensures forall i :: k <= i < |b| ==> b[i].id !in removed
  {
    forall i | k <= i < |b| ensures b[i].id !in removed {
      if k < i {
        LexLessAsymmetric(b[k].ts, b[i].ts);
        assert !LexLeq(b[i].ts, b[k].ts);
      }
    }
  }

  /** When removal stops at index `k`, the removed ids of `b` are the ids of `b[..k]`. */
  lemma RemovedIdsArePrefix(b: seq<Candidate>, removed: set<string>, k: nat)
    requires k <= |b|
    requires forall i :: 0 <= i < k ==> b[i].id in removed
    requires forall i :: k <= i < |b| ==> b[i].id !in removed
    ensures IdsOf(b) * removed == IdsOf(b[..k])
  {
    forall id | id in IdsOf(b) * removed ensures id in IdsOf(b[..k]) {
      var c :| c in b && c.id == id;
      var i :| 0 <= i < |b| && b[i] == c;
      assert b[i] in b[..k];
    }
    forall id | id in IdsOf(b[..k]) ensures id in IdsOf(b) * removed {
      var c :| c in b[..k] && c.id == id;
      var i :| 0 <= i < k && b[..k][i] == c;
      assert b[i] == c;
    }
  }

  /** When the labels of a bucket are all different, the removed members are exactly its
      `|b| - retain` oldest. */
  lemma RetainKeepsNewest(b: seq<Candidate>, removed: set<string>, retain: nat)
    requires DistinctIds(b) && Retained(b, removed, retain)
    requires forall i, j :: 0 <= i < j < |b| ==> LexLess(b[i].ts, b[j].ts)
    ensures forall i :: 0 <= i < |b| ==> (b[i].id in removed <==> i < Max0(|b| - retain))
  {
    var k := FirstKept(b, removed);
    KeptAfterFirst(b, removed, retain, k);
    RemovedIdsArePrefix(b, removed, k);
    assert |IdsOf(b[..k])| == k by {
      assert DistinctIds(b[..k]);
      DistinctIdsCard(b[..k]);
    }
  }

  // ---------------------------------------------------------------------------------------
  // The buckets

  /** The bucket a secret falls in, if the collector considers it: a managed name that the
      service does not reference and that parses, keyed by kind and group. */
  function SecretEntry(a: Artifact, cur: set<string>): (e: Option<Keyed>)
    ensures e.Some? <==> IsManaged(a.name) && a.name !in cur && SplitSecretName(a.name).ok
    ensures e.Some? ==> e.value.cand.id == a.id && e.value.cand.name == a.name
  {
    if !IsManaged(a.name) then None
    else if a.name in cur then None
    else
      var p := SplitSecretName(a.name);
      if !p.ok then None
      else Some(Keyed(p.kind + "/" + p.group, Candidate(a.id, a.name, p.ts)))
  }

  /** The members of bucket `key`, in listing order. */
  function SecretBucket(arts: seq<Artifact>, cur: set<string>, key: string): seq<Candidate> {
    if arts == [] then []
    else
      var init := SecretBucket(arts[..|arts| - 1], cur, key);
      var e := SecretEntry(arts[|arts| - 1], cur);
      if e.Some? && e.value.key == key then init + [e.value.cand] else init
  }

  /** A bucket holds exactly the candidates, under its key, of the listed secrets. */
  lemma {:induction false} SecretBucketMembers(arts: seq<Artifact>, cur: set<string>, key: string)
    ensures forall c :: c in SecretBucket(arts, cur, key) ==>
              exists a :: a in arts && SecretEntry(a, cur) == Some(Keyed(key, c))
    ensures forall a :: a in arts && SecretEntry(a, cur).Some? && SecretEntry(a, cur).value.key == key ==>
              SecretEntry(a, cur).value.cand in SecretBucket(arts, cur, key)
  {
    if arts != [] {
      var init, last := arts[..|arts| - 1], arts[|arts| - 1];
      assert arts == init + [last];
      SecretBucketMembers(init, cur, key);
    }
  }

  /** The config a collection considers, if any: a name under `prefix + "_"` that the service
      does not reference; its label is the rest of the name. */
  function ConfigEntry(a: Artifact, prefix: string, cur: set<string>): (e: Option<Candidate>)
    ensures e.Some? <==> HasPrefix(a.name, prefix + "_") && a.name !in cur
    ensures e.Some? ==> e.value.id == a.id && e.value.name == a.name
  {
    if !HasPrefix(a.name, prefix + "_") then None
    else if a.name in cur then None
    else Some(Candidate(a.id, a.name, ConfigTs(prefix, a.name)))
  }

  function ConfigBucket(arts: seq<Artifact>, prefix: string, cur: set<string>): seq<Candidate> {
    if arts == [] then []
    else
      var init := ConfigBucket(arts[..|arts| - 1], prefix, cur);
      var e := ConfigEntry(arts[|arts| - 1], prefix, cur);
      if e.Some? then init + [e.value] else init
  }

  /** The config bucket holds exactly the candidates of the listed configs. */
  lemma {:induction false} ConfigBucketMembers(arts: seq<Artifact>, prefix: string, cur: set<string>)
    ensures forall c :: c in ConfigBucket(arts, prefix, cur) ==>
              exists a :: a in arts && ConfigEntry(a, prefix, cur) == Some(c)
    ensures forall a :: a in arts && ConfigEntry(a, prefix, cur).Some? ==>
              ConfigEntry(a, prefix, cur).value in ConfigBucket(arts, prefix, cur)
  {
    if arts != [] {
      var init, last := arts[..|arts| - 1], arts[|arts| - 1];
      assert arts == init + [last];
      ConfigBucketMembers(init, prefix, cur);
    }
  }

  /** A bucket member comes from an artifact at some position of the listing. */
  lemma {:induction false} SecretBucketOrigin(arts: seq<Artifact>, cur: set<string>, key: string)
    ensures forall c :: c in SecretBucket(arts, cur, key) ==>
      exists i :: 0 <= i < |arts| && SecretEntry(arts[i], cur) == Some(Keyed(key, c))
  {
    if arts != [] {
      var init := arts[..|arts| - 1];
      SecretBucketOrigin(init, cur, key);
      forall c | c in SecretBucket(arts, cur, key)
        ensures exists i :: 0 <= i < |arts| && SecretEntry(arts[i], cur) == Some(Keyed(key, c))
      {
        if c in SecretBucket(init, cur, key) {
          var i :| 0 <= i < |init| && SecretEntry(init[i], cur) == Some(Keyed(key, c));
          assert arts[i] == init[i];
        } else {
          assert SecretEntry(arts[|arts| - 1], cur) == Some(Keyed(key, c));
        }
      }
    }
  }

  lemma {:induction false} ConfigBucketOrigin(arts: seq<Artifact>, prefix: string, cur: set<string>)
    ensures forall c :: c in ConfigBucket(arts, prefix, cur) ==>
      exists i :: 0 <= i < |arts| && ConfigEntry(arts[i], prefix, cur) == Some(c)
  {
    if arts != [] {
      var init := arts[..|arts| - 1];
      ConfigBucketOrigin(init, prefix, cur);
      forall c | c in ConfigBucket(arts, prefix, cur)
        ensures exists i :: 0 <= i < |arts| && ConfigEntry(arts[i], prefix, cur) == Some(c)
      {
        if c in ConfigBucket(init, prefix, cur) {
          var i :| 0 <= i < |init| && ConfigEntry(init[i], prefix, cur) == Some(c);
          assert arts[i] == init[i];
        } else {
          assert ConfigEntry(arts[|arts| - 1], prefix, cur) == Some(c);
        }
      }
    }
  }

  /** With distinct artifact ids, the members of a bucket have distinct ids. */
  lemma {:induction false} SecretBucketDistinct(arts: seq<Artifact>, cur: set<string>, key: string)
    requires UniqueIds(arts)
    ensures DistinctIds(SecretBucket(arts, cur, key))
  {
    if arts != [] {
      var init := arts[..|arts| - 1];
      var last := arts[|arts| - 1];
      SecretBucketDistinct(init, cur, key);
      SecretBucketOrigin(init, cur, key);
      forall c | c in SecretBucket(init, cur, key) ensures c.id != last.id {
        var i :| 0 <= i < |init| && SecretEntry(init[i], cur) == Some(Keyed(key, c));
        assert arts[i] == init[i];
      }
    }
  }

  lemma {:induction false} ConfigBucketDistinct(arts: seq<Artifact>, prefix: string, cur: set<string>)
    requires UniqueIds(arts)
    ensures DistinctIds(ConfigBucket(arts, prefix, cur))
  {
    if arts != [] {
      var init := arts[..|arts| - 1];
      var last := arts[|arts| - 1];
      ConfigBucketDistinct(init, prefix, cur);
      ConfigBucketOrigin(init, prefix, cur);
      forall c | c in ConfigBucket(init, prefix, cur) ensures c.id != last.id {
        var i :| 0 <= i < |init| && ConfigEntry(init[i], prefix, cur) == Some(c);
        assert arts[i] == init[i];
      }
    }
  }

  /** Two different buckets share no id. */
  lemma SecretBucketsDisjoint(arts: seq<Artifact>, cur: set<string>, k1: string, k2: string)
    requires UniqueIds(arts) && k1 != k2
    ensures IdsOf(SecretBucket(arts, cur, k1)) !! IdsOf(SecretBucket(arts, cur, k2))
  {
    SecretBucketOrigin(arts, cur, k1);
    SecretBucketOrigin(arts, cur, k2);
    forall c1, c2 | c1 in SecretBucket(arts, cur, k1) && c2 in SecretBucket(arts, cur, k2)
      ensures c1.id != c2.id
    {
      var i :| 0 <= i < |arts| && SecretEntry(arts[i], cur) == Some(Keyed(k1, c1));
      var j :| 0 <= j < |arts| && SecretEntry(arts[j], cur) == Some(Keyed(k2, c2));
      assert i != j;
    }
  }

  /** The ids of all members of all secret buckets. */
  function SecretCandidateIds(arts: seq<Artifact>, cur: set<string>): set<string> {
    set a | a in arts && SecretEntry(a, cur).Some? :: a.id
  }

  function ConfigCandidateIds(arts: seq<Artifact>, prefix: string, cur: set<string>): set<string> {
    set a | a in arts && ConfigEntry(a, prefix, cur).Some? :: a.id
  }

  lemma SecretBucketIds(arts: seq<Artifact>, cur: set<string>, key: string)
    ensures IdsOf(SecretBucket(arts, cur, key)) <= SecretCandidateIds(arts, cur)
  {
    SecretBucketOrigin(arts, cur, key);
    forall id | id in IdsOf(SecretBucket(arts, cur, key)) ensures id in SecretCandidateIds(arts, cur) {
      var c :| c in SecretBucket(arts, cur, key) && c.id == id;
      var i :| 0 <= i < |arts| && SecretEntry(arts[i], cur) == Some(Keyed(key, c));
      assert arts[i] in arts;
    }
  }

  lemma ConfigBucketIds(arts: seq<Artifact>, prefix: string, cur: set<string>)
    ensures IdsOf(ConfigBucket(arts, prefix, cur)) <= ConfigCandidateIds(arts, prefix, cur)
  {
    ConfigBucketOrigin(arts, prefix, cur);
    forall id | id in IdsOf(ConfigBucket(arts, prefix, cur)) ensures id in ConfigCandidateIds(arts, prefix, cur) {
      var c :| c in ConfigBucket(arts, prefix, cur) && c.id == id;
      var i :| 0 <= i < |arts| && ConfigEntry(arts[i], prefix, cur) == Some(c);
      assert arts[i] in arts;
    }
  }

  /** An artifact whose id is another artifact's is that artifact. */
  lemma SameIdSameArtifact(arts: seq<Artifact>, a: Artifact, b: Artifact)
    requires UniqueIds(arts) && a in arts && b in arts
    ensures a.id == b.id ==> a == b
  {
    var p :| 0 <= p < |arts| && arts[p] == a;
    var q :| 0 <= q < |arts| && arts[q] == b;
  }

  /** Buckets under different keys share no id. */
  predicate DisjointBuckets(groups: map<string, seq<Candidate>>) {
    forall k1, k2 :: k1 in groups && k2 in groups && k1 != k2 ==> IdsOf(groups[k1]) !! IdsOf(groups[k2])
  }

  lemma GroupsDisjoint(lst: seq<Artifact>, cur: set<string>, groups: map<string, seq<Candidate>>)
    requires UniqueIds(lst)
    requires forall key :: key in groups ==> groups[key] == SecretBucket(lst, cur, key)
    ensures DisjointBuckets(groups)
  {
    forall k1, k2 | k1 in groups && k2 in groups && k1 != k2 ensures IdsOf(groups[k1]) !! IdsOf(groups[k2]) {
      SecretBucketsDisjoint(lst, cur, k1, k2);
    }
  }

  /** Ids taken from one bucket are in no other. */
  lemma DisjointFromKey(groups: map<string, seq<Candidate>>, key: string, v: set<string>)
    requires DisjointBuckets(groups) && key in groups && v <= IdsOf(groups[key])
    ensures forall k :: k in groups && k != key ==> IdsOf(groups[k]) !! v
  {
    forall k | k in groups && k != key ensures IdsOf(groups[k]) !! v {
      assert IdsOf(groups[k]) !! IdsOf(groups[key]);
    }
  }

  /** One round of the collection loop keeps the buckets collected earlier within the
      contract: the ids it removes belong to none of them. */
  lemma DoneBucketsKeep(groups: map<string, seq<Candidate>>, pending: set<string>, key: string,
                        removed: set<string>, v: set<string>, retain: nat)
    requires key in pending
    requires forall k :: k in groups && k != key ==> IdsOf(groups[k]) !! v
    requires forall k :: k in groups && k !in pending ==> Retained(groups[k], removed, retain)
    ensures forall k :: k in groups && k !in pending ==> Retained(groups[k], removed + v, retain)
  {
    forall k | k in groups && k !in pending ensures Retained(groups[k], removed + v, retain) {
      RetainedUnion(groups[k], removed, v, retain);
    }
  }

  /** The bucket just collected joins the collected ones. */
  lemma CollectedStep(groups: map<string, seq<Candidate>>, pending: set<string>, key: string,
                      removed: set<string>, retain: nat)
    requires forall k :: k in groups && k !in pending ==> Retained(groups[k], removed, retain)
    requires key in groups && Retained(groups[key], removed, retain)
    ensures forall k :: k in groups && k !in pending - {key} ==> Retained(groups[k], removed, retain)
  {
  }

  /** The pending buckets stay untouched by the ids just removed. */
  lemma PendingStep(groups: map<string, seq<Candidate>>, pending: set<string>, key: string,
                    removed: set<string>, v: set<string>)
    requires pending <= groups.Keys
    requires forall k :: k in pending ==> IdsOf(groups[k]) !! removed
    requires forall k :: k in groups && k != key ==> IdsOf(groups[k]) !! v
    ensures forall k :: k in pending - {key} ==> IdsOf(groups[k]) !! removed + v
  {
  }

  /** One round of the collection loop keeps its invariant: the bucket just collected meets
      the contract, the buckets collected earlier still do, and the pending ones are untouched. */
  lemma GcStep(groups: map<string, seq<Candidate>>, pending: set<string>, key: string,
               removed: set<string>, v: set<string>, retain: nat)
    requires DisjointBuckets(groups) && key in pending && pending <= groups.Keys
    requires forall k :: k in groups && k !in pending ==> Retained(groups[k], removed, retain)
    requires forall k :: k in pending ==> IdsOf(groups[k]) !! removed
    requires v <= IdsOf(groups[key]) && Retained(groups[key], v, retain)
    ensures forall k :: k in groups && k !in pending - {key} ==> Retained(groups[k], removed + v, retain)
    ensures forall k :: k in pending - {key} ==> IdsOf(groups[k]) !! removed + v
  {
    DisjointFromKey(groups, key, v);
    DoneBucketsKeep(groups, pending, key, removed, v, retain);
    assert Retained(groups[key], removed + v, retain) by {
      RetainedUnion(groups[key], v, removed, retain);
      assert v + removed == removed + v;
    }
    CollectedStep(groups, pending, key, removed + v, retain);
    PendingStep(groups, pending, key, removed, v);
  }

  /** The contract holds vacuously for a bucket with no members. */
  lemma RetainedEmpty(removed: set<string>, retain: nat)
    ensures Retained([], removed, retain)
  {
    assert IdsOf([]) == {};
  }

  /** Removing only ids of considered secrets leaves every other secret in place. */
  lemma SecretNonCandidatesSurvive(lst: seq<Artifact>, cur: set<string>, removed: set<string>)
    requires UniqueIds(lst) && removed <= SecretCandidateIds(lst, cur)
    ensures forall a :: a in lst && SecretEntry(a, cur).None? ==> a in Without(lst, removed)
  {
    forall a | a in lst && SecretEntry(a, cur).None? ensures a.id !in removed {
      forall b | b in lst && SecretEntry(b, cur).Some? ensures b.id != a.id {
        SameIdSameArtifact(lst, a, b);
      }
    }
  }

  lemma ConfigNonCandidatesSurvive(lst: seq<Artifact>, prefix: string, cur: set<string>, removed: set<string>)
    requires UniqueIds(lst) && removed <= ConfigCandidateIds(lst, prefix, cur)
    ensures forall a :: a in lst && ConfigEntry(a, prefix, cur).None? ==> a in Without(lst, removed)
  {
    forall a | a in lst && ConfigEntry(a, prefix, cur).None? ensures a.id !in removed {
      forall b | b in lst && ConfigEntry(b, prefix, cur).Some? ensures b.id != a.id {
        SameIdSameArtifact(lst, a, b);
      }
    }
  }

  // ---------------------------------------------------------------------------------------
  // The collector

  method SwapWithPrevious(a: array<Candidate>, j: int)
    requires 0 < j < a.Length
    modifies a
    ensures a[..] == old(a[..])[j - 1 := old(a[j])][j := old(a[j - 1])]
    ensures multiset(a[..]) == multiset(old(a[..]))
  {
    a[j - 1], a[j] := a[j], a[j - 1];
  }

  /** While `a[i]` moves down to position `j`: the elements before it and the elements after
      it are each in order, and skipping over it keeps order too. */
  predicate Sifting(s: seq<Candidate>, j: int, i: int)
    requires 0 <= j <= i < |s|
  {
    && (forall k :: 0 < k < j ==> LexLeq(s[k - 1].ts, s[k].ts))
    && (forall k :: j + 1 < k <= i ==> LexLeq(s[k - 1].ts, s[k].ts))
    && (0 < j < i ==> LexLeq(s[j - 1].ts, s[j + 1].ts))
    && (j < i ==> LexLeq(s[j].ts, s[j + 1].ts))
  }

  lemma SiftStep(s: seq<Candidate>, j: int, i: int)
    requires 0 < j <= i < |s| && Sifting(s, j, i) && LexLess(s[j].ts, s[j - 1].ts)
    ensures Sifting(s[j - 1 := s[j]][j := s[j - 1]], j - 1, i)
  {
    LexLessAsymmetric(s[j].ts, s[j - 1].ts);
  }

  lemma SiftDone(s: seq<Candidate>, j: int, i: int)
    requires 0 <= j <= i < |s| && Sifting(s, j, i)
    requires j == 0 || !LexLess(s[j].ts, s[j - 1].ts)
    ensures AdjacentSorted(s[..i + 1])
  {
  }

  /** Moves `a[i]` down past every element of the sorted prefix `a[..i]` with a later label. */
  method SiftDown(a: array<Candidate>, i: int)
    requires 0 <= i < a.Length && AdjacentSorted(a[..i])
    modifies a
    ensures AdjacentSorted(a[..i + 1])
    ensures multiset(a[..]) == multiset(old(a[..]))
  {
    var j := i;
    while j > 0 && LexLess(a[j].ts, a[j - 1].ts)
      invariant 0 <= j <= i
      invariant multiset(a[..]) == multiset(old(a[..]))
      invariant Sifting(a[..], j, i)
    {
      SiftStep(a[..], j, i);
      SwapWithPrevious(a, j);
      j := j - 1;
    }
    SiftDone(a[..], j, i);
  }

  /** `sort.Slice` by label: an insertion sort by adjacent swaps. */
  method SortByTs(a: array<Candidate>)
    modifies a
    ensures SortedByTs(a[..])
    ensures multiset(a[..]) == multiset(old(a[..]))
  {
    var i := 0;
    while i < a.Length
      invariant 0 <= i <= a.Length
      invariant AdjacentSorted(a[..i])
      invariant multiset(a[..]) == multiset(old(a[..]))
    {
      SiftDown(a, i);
      i := i + 1;
    }
    assert a[..] == a[..a.Length];
    AdjacentToSorted(a[..]);
  }

  /** The bucket as `sort.Slice` leaves it. */
  method SortedCopy(group: seq<Candidate>) returns (sorted: seq<Candidate>)
    ensures |sorted| == |group| && multiset(sorted) == multiset(group) && SortedByTs(sorted)
  {
    var arr := new Candidate[|group|](i requires 0 <= i < |group| => group[i]);
    assert arr[..] == group;
    SortByTs(arr);
    sorted := arr[..];
    assert |multiset(sorted)| == |multiset(group)|;
  }

  lemma IdsOfPrefix(s: seq<Candidate>, i: int)
    requires 0 <= i < |s|
    ensures IdsOf(s[..i + 1]) == IdsOf(s[..i]) + {s[i].id}
  {
    assert s[..i + 1] == s[..i] + [s[i]];
    assert forall d :: d in s[..i + 1] <==> d in s[..i] || d == s[i];
  }

  /** Sorts one bucket and removes all members but the `retain` newest. */
  method RemoveOldest(store: Store, group: seq<Candidate>, retain: nat) returns (ghost victims: set<string>)
    requires store.Valid() && DistinctIds(group)
    modifies store
    ensures store.Valid()
    ensures store.items == Without(old(store.items), victims)
    ensures victims <= IdsOf(group)
    ensures Retained(group, victims, retain)
  {
    var sorted := SortedCopy(group);
    victims := {};
    WithoutAbsent(store.items, {});
    var i := 0;
    while i < |sorted| - retain
      invariant 0 <= i <= Max0(|sorted| - retain)
      invariant victims == IdsOf(sorted[..i])
      invariant store.Valid() && store.items == Without(old(store.items), victims)
    {
      store.Remove(sorted[i].id);
      WithoutTwice(old(store.items), victims, {sorted[i].id});
      IdsOfPrefix(sorted, i);
      victims := victims + {sorted[i].id};
      i := i + 1;
    }
    RetainedOfSortedPrefix(group, sorted, i, retain);
  }

  function SecretNames(refs: seq<SecretReference>): set<string> {
    set r | r in refs :: r.secretName
  }

  function ConfigNames(refs: seq<ConfigReference>): set<string> {
    set r | r in refs :: r.configName
  }

  /** The secret names the service references: these are protected. */
  method ProtectedSecretNames(refs: seq<SecretReference>) returns (cur: set<string>)
    ensures cur == SecretNames(refs)
  {
    cur := {};
    var i := 0;
    while i < |refs|
      invariant 0 <= i <= |refs|
      invariant cur == SecretNames(refs[..i])
    {
      assert refs[..i + 1] == refs[..i] + [refs[i]];
      cur := cur + {refs[i].secretName};
      i := i + 1;
    }
    assert refs[..i] == refs;
  }

  method ProtectedConfigNames(refs: seq<ConfigReference>) returns (cur: set<string>)
    ensures cur == ConfigNames(refs)
  {
    cur := {};
    var i := 0;
    while i < |refs|
      invariant 0 <= i <= |refs|
      invariant cur == ConfigNames(refs[..i])
    {
      assert refs[..i + 1] == refs[..i] + [refs[i]];
      cur := cur + {refs[i].configName};
      i := i + 1;
    }
    assert refs[..i] == refs;
  }

  /** `groups` holds exactly the non-empty buckets of `arts`. */
  ghost predicate GroupsOf(groups: map<string, seq<Candidate>>, arts: seq<Artifact>, cur: set<string>) {
    && (forall key :: key in groups ==> groups[key] == SecretBucket(arts, cur, key))
    && (forall key :: key !in groups ==> SecretBucket(arts, cur, key) == [])
  }

  /** Appending the entry of one more artifact to its bucket keeps `GroupsOf`. */
  lemma GroupsStep(lst: seq<Artifact>, i: int, cur: set<string>, groups: map<string, seq<Candidate>>)
    requires 0 <= i < |lst| && GroupsOf(groups, lst[..i], cur)
    ensures var e := SecretEntry(lst[i], cur);
      GroupsOf(if e.None? then groups
               else groups[e.value.key := (if e.value.key in groups then groups[e.value.key] else []) + [e.value.cand]],
               lst[..i + 1], cur)
  {
    assert lst[..i + 1][..i] == lst[..i];
    assert lst[..i + 1][i] == lst[i];
  }

  /** One pass over the secret listing, appending every considered secret to its bucket. */
  method GroupSecrets(lst: seq<Artifact>, cur: set<string>) returns (groups: map<string, seq<Candidate>>)
    ensures forall key :: key in groups ==> groups[key] == SecretBucket(lst, cur, key)
    ensures forall key :: key !in groups ==> SecretBucket(lst, cur, key) == []
  {
    groups := map[];
    var i := 0;
    while i < |lst|
      invariant 0 <= i <= |lst|
      invariant GroupsOf(groups, lst[..i], cur)
    {
      var s := lst[i];
      GroupsStep(lst, i, cur, groups);
      if IsManaged(s.name) && s.name !in cur {
        var p := SplitSecretName(s.name);
        if p.ok {
          var key := p.kind + "/" + p.group;
          var members := if key in groups then groups[key] else [];
          groups := groups[key := members + [Candidate(s.id, s.name, p.ts)]];
        }
      }
      i := i + 1;
    }
    assert lst[..i] == lst;
  }

  /** One pass over the config listing, collecting every considered config. */
  method CollectConfigs(lst: seq<Artifact>, prefix: string, cur: set<string>) returns (arr: seq<Candidate>)
    ensures arr == ConfigBucket(lst, prefix, cur)
  {
    arr := [];
    var i := 0;
    while i < |lst|
      invariant 0 <= i <= |lst|
      invariant arr == ConfigBucket(lst[..i], prefix, cur)
    {
      var c := lst[i];
      assert lst[..i + 1][..i] == lst[..i];
      if HasPrefix(c.name, prefix + "_") && c.name !in cur {
        arr := arr + [Candidate(c.id, c.name, c.name[|prefix| + 1..])];
      }
      i := i + 1;
    }
    assert lst[..i] == lst;
  }

  /** Collects old certificate secrets. Afterwards the store holds the old listing less the
      `removed` ids; every removed id belongs to a considered secret, so referenced, foreign and
      unparsable secrets all survive; and every (kind, group) bucket meets the retention
      contract. */
  method GcOldSecrets(store: Store, live: seq<SecretReference>, retain: nat) returns (ghost removed: set<string>)
    requires store.Valid()
    modifies store
    ensures store.Valid()
    ensures store.items == Without(old(store.items), removed)
    ensures removed <= SecretCandidateIds(old(store.items), SecretNames(live))
    ensures forall a :: a in old(store.items) && (a.name in SecretNames(live) || !SplitSecretName(a.name).ok) ==>
      a in store.items
    ensures forall key :: Retained(SecretBucket(old(store.items), SecretNames(live), key), removed, retain)
  {
    var cur := ProtectedSecretNames(live);
    var lst := store.items;
    var groups := GroupSecrets(lst, cur);
    var pending := groups.Keys;
    removed := {};
    WithoutAbsent(lst, {});
    GroupsDisjoint(lst, cur, groups);
    while pending != {}
      invariant pending <= groups.Keys
      invariant store.Valid() && store.items == Without(lst, removed)
      invariant removed <= SecretCandidateIds(lst, cur)
      invariant forall k :: k in groups && k !in pending ==> Retained(groups[k], removed, retain)
      invariant forall k :: k in pending ==> IdsOf(groups[k]) !! removed
      decreases pending
    {
      var key :| key in pending;
      SecretBucketDistinct(lst, cur, key);
      ghost var v := RemoveOldest(store, groups[key], retain);
      WithoutTwice(lst, removed, v);
      SecretBucketIds(lst, cur, key);
      GcStep(groups, pending, key, removed, v, retain);
      removed := removed + v;
      pending := pending - {key};
    }
    SecretNonCandidatesSurvive(lst, cur, removed);
    forall key ensures Retained(SecretBucket(lst, cur, key), removed, retain) {
      if key !in groups {
        RetainedEmpty(removed, retain);
      }
    }
  }

  /** Collects old configuration documents under `prefix`: the same guarantees for the one
      bucket of configs named `prefix + "_" + label`. */
  method GcOldConfigs(store: Store, live: seq<ConfigReference>, prefix: string, retain: nat)
    returns (ghost removed: set<string>)
    requires store.Valid()
    modifies store
    ensures store.Valid()
    ensures store.items == Without(old(store.items), removed)
    ensures removed <= ConfigCandidateIds(old(store.items), prefix, ConfigNames(live))
    ensures forall a :: a in old(store.items) && (a.name in ConfigNames(live) || !HasPrefix(a.name, prefix + "_")) ==>
      a in store.items
    ensures Retained(ConfigBucket(old(store.items), prefix, ConfigNames(live)), removed, retain)
  {
    var cur := ProtectedConfigNames(live);
    var lst := store.items;
    var arr := CollectConfigs(lst, prefix, cur);
    ConfigBucketDistinct(lst, prefix, cur);
    removed := RemoveOldest(store, arr, retain);
    ConfigBucketIds(lst, prefix, cur);
    ConfigNonCandidatesSurvive(lst, prefix, cur, removed);
  }
}
