/** The service-spec rewrite: every managed secret reference is dropped and the new ones are
    appended, optionally every config reference under the configuration prefix is replaced by
    the new one, the update order is forced to start-first and the force-update counter is
    bumped. Foreign references keep their place and their order. */
module Rewrite {
  import opened GoStrings
  import opened Naming
  import opened Wrappers

  /** The file a reference is mounted as inside the container. */
  datatype FileTarget = FileTarget(name: string, mode: int)

  datatype SecretReference = SecretReference(secretId: string, secretName: string, file: FileTarget)

  datatype ConfigReference = ConfigReference(configId: string, configName: string, file: FileTarget)

  /** The rolling-update policy; `order` is "" when unset. */
  datatype UpdateConfig = UpdateConfig(parallelism: int, order: string)


  const StartFirst: string := "start-first"
  /** `ForceUpdate` is a uint64. */
  const Uint64Limit: int := 0x1_0000_0000_0000_0000

  /** Secret files are mounted read-only for the owner (0400), config files read-only for all (0444). */
  const SecretMode: int := 0x100
  const ConfigMode: int := 0x124

  /** The two secret references of one group in split mode; each is mounted under its own name. */
  function GroupReferences(crtId: string, keyId: string, safe: string, ts: string): seq<SecretReference> {
    var crt, key := GroupSecretName(Crt, safe, ts), GroupSecretName(Key, safe, ts);
    [SecretReference(crtId, crt, FileTarget(crt, SecretMode)),
     SecretReference(keyId, key, FileTarget(key, SecretMode))]
  }

  /** The two secret references in san mode, mounted at the fixed names the config document uses. */
  function SanReferences(crtId: string, keyId: string, ts: string): seq<SecretReference> {
    [SecretReference(crtId, SanSecretName(Crt, ts), FileTarget("edge_tls_crt", SecretMode)),
     SecretReference(keyId, SanSecretName(Key, ts), FileTarget("edge_tls_key", SecretMode))]
  }

  predicate AllManaged(refs: seq<SecretReference>) {
    forall i :: 0 <= i < |refs| ==> IsManaged(refs[i].secretName)
  }

  /** The references the controller publishes are all in its namespace. */
  lemma PublishedReferencesAreManaged(crtId: string, keyId: string, safe: string, ts: string)
    ensures AllManaged(GroupReferences(crtId, keyId, safe, ts))
    ensures AllManaged(SanReferences(crtId, keyId, ts))
  {
    ManagedNames(Crt, safe, ts);
    ManagedNames(Key, safe, ts);
  }

  /** The drop test of the rewrite loop: managed names and the two placeholder names. */
  predicate DroppedSecret(name: string) {
    IsManaged(name) || name == CrtPlaceholder || name == KeyPlaceholder
  }

  /** The placeholder test never decides anything: the placeholders are managed names. */
  lemma PlaceholderTestIsRedundant(name: string)
    ensures DroppedSecret(name) <==> IsManaged(name)
  {
    ManagedNames(Crt, "", "");
  }

  /** The secret references outside the controller's namespace, in their order. */
  function ForeignSecrets(refs: seq<SecretReference>): (r: seq<SecretReference>)
    ensures |r| <= |refs|
    ensures forall x :: x in r <==> x in refs && !IsManaged(x.secretName)
  {
    if refs == [] then []
    else
      var init := ForeignSecrets(refs[..|refs| - 1]);
      var last := refs[|refs| - 1];
      assert refs == refs[..|refs| - 1] + [last];
      if IsManaged(last.secretName) then init else init + [last]
  }

  /** The managed secret references, in their order. */
  function ManagedSecrets(refs: seq<SecretReference>): (r: seq<SecretReference>)
    ensures forall x :: x in r <==> x in refs && IsManaged(x.secretName)
  {
    if refs == [] then []
    else
      var init := ManagedSecrets(refs[..|refs| - 1]);
      var last := refs[|refs| - 1];
      assert refs == refs[..|refs| - 1] + [last];
      if IsManaged(last.secretName) then init + [last] else init
  }

  /** The new secret list: the foreign references, then the new ones. */
  function RewriteSecrets(refs: seq<SecretReference>, newSecrets: seq<SecretReference>): seq<SecretReference> {
    ForeignSecrets(refs) + newSecrets
  }

  /** The filter splits over concatenation: it keeps order. */
  lemma {:induction false} ForeignSecretsAppend(a: seq<SecretReference>, b: seq<SecretReference>)
    ensures ForeignSecrets(a + b) == ForeignSecrets(a) + ForeignSecrets(b)
    decreases |b|
  {
    if b != [] {
      var b' := b[..|b| - 1];
      assert (a + b)[..|a + b| - 1] == a + b';
      ForeignSecretsAppend(a, b');
    } else {
      assert a + b == a;
    }
  }

  lemma {:induction false} ManagedSecretsAppend(a: seq<SecretReference>, b: seq<SecretReference>)
    ensures ManagedSecrets(a + b) == ManagedSecrets(a) + ManagedSecrets(b)
    decreases |b|
  {
    if b != [] {
      var b' := b[..|b| - 1];
      assert (a + b)[..|a + b| - 1] == a + b';
      ManagedSecretsAppend(a, b');
    } else {
      assert a + b == a;
    }
  }

  lemma {:induction false} ForeignOfManaged(refs: seq<SecretReference>)
    requires AllManaged(refs)
    ensures ForeignSecrets(refs) == [] && ManagedSecrets(refs) == refs
  {
    if refs != [] {
      ForeignOfManaged(refs[..|refs| - 1]);
      assert refs == refs[..|refs| - 1] + [refs[|refs| - 1]];
    }
  }

  lemma {:induction false} ForeignOfForeign(refs: seq<SecretReference>)
    ensures ForeignSecrets(ForeignSecrets(refs)) == ForeignSecrets(refs)
    ensures ManagedSecrets(ForeignSecrets(refs)) == []
  {
    if refs != [] {
      var init := refs[..|refs| - 1];
      ForeignOfForeign(init);
      var last := refs[|refs| - 1];
      if !IsManaged(last.secretName) {
        ForeignSecretsAppend(ForeignSecrets(init), [last]);
        ManagedSecretsAppend(ForeignSecrets(init), [last]);
      }
    }
  }

  /** After the rewrite the foreign references are the old foreign references, in the same
      order, and the managed references are exactly the new ones. */
  lemma RewritePartition(refs: seq<SecretReference>, newSecrets: seq<SecretReference>)
    requires AllManaged(newSecrets)
    ensures ForeignSecrets(RewriteSecrets(refs, newSecrets)) == ForeignSecrets(refs)
    ensures ManagedSecrets(RewriteSecrets(refs, newSecrets)) == newSecrets
  {
    ForeignSecretsAppend(ForeignSecrets(refs), newSecrets);
    ManagedSecretsAppend(ForeignSecrets(refs), newSecrets);
    ForeignOfForeign(refs);
    ForeignOfManaged(newSecrets);
  }

  /** Rewriting again with the same managed references changes nothing: no duplication and no
      accumulation across cycles. */
  lemma RewriteSecretsIdempotent(refs: seq<SecretReference>, newSecrets: seq<SecretReference>)
    requires AllManaged(newSecrets)
    ensures RewriteSecrets(RewriteSecrets(refs, newSecrets), newSecrets) == RewriteSecrets(refs, newSecrets)
  {
    RewritePartition(refs, newSecrets);
  }

  /** The config references whose name does not start with `prefix`, in their order. */
  function OtherConfigs(cfgs: seq<ConfigReference>, prefix: string): (r: seq<ConfigReference>)
    ensures forall x :: x in r <==> x in cfgs && !HasPrefix(x.configName, prefix)
  {
    if cfgs == [] then []
    else
      var init := OtherConfigs(cfgs[..|cfgs| - 1], prefix);
      var last := cfgs[|cfgs| - 1];
      assert cfgs == cfgs[..|cfgs| - 1] + [last];
      if HasPrefix(last.configName, prefix) then init else init + [last]
  }

  /** The one config reference the rewrite adds, mounted under the base name of the target path. */
  function NewConfigReference(cfgId: string, cfgName: string, cfgTarget: string): ConfigReference {
    ConfigReference(cfgId, cfgName, FileTarget(Base(cfgTarget), ConfigMode))
  }

  function RewriteConfigs(cfgs: seq<ConfigReference>, cfgId: string, cfgName: string,
                          cfgPrefix: string, cfgTarget: string): seq<ConfigReference> {
    OtherConfigs(cfgs, cfgPrefix) + [NewConfigReference(cfgId, cfgName, cfgTarget)]
  }

  lemma {:induction false} OtherConfigsAppend(a: seq<ConfigReference>, b: seq<ConfigReference>, prefix: string)
    ensures OtherConfigs(a + b, prefix) == OtherConfigs(a, prefix) + OtherConfigs(b, prefix)
    decreases |b|
  {
    if b != [] {
      var b' := b[..|b| - 1];
      assert (a + b)[..|a + b| - 1] == a + b';
      OtherConfigsAppend(a, b', prefix);
    } else {
      assert a + b == a;
    }
  }

  lemma {:induction false} OtherConfigsIdempotent(cfgs: seq<ConfigReference>, prefix: string)
    ensures OtherConfigs(OtherConfigs(cfgs, prefix), prefix) == OtherConfigs(cfgs, prefix)
  {
    if cfgs != [] {
      var init := cfgs[..|cfgs| - 1];
      OtherConfigsIdempotent(init, prefix);
      var last := cfgs[|cfgs| - 1];
      if !HasPrefix(last.configName, prefix) {
        OtherConfigsAppend(OtherConfigs(init, prefix), [last], prefix);
      }
    }
  }

  /** With a config name under the prefix (as every minted one is), exactly one reference
      under the prefix remains, it is the new one, and it is the last; the other references are
      the old ones outside the prefix; and a second rewrite with the same arguments changes
      nothing. */
  lemma RewriteConfigsSpec(cfgs: seq<ConfigReference>, cfgId: string, cfgName: string,
                           cfgPrefix: string, cfgTarget: string)
    requires HasPrefix(cfgName, cfgPrefix)
    ensures var r := RewriteConfigs(cfgs, cfgId, cfgName, cfgPrefix, cfgTarget);
      && r[|r| - 1] == NewConfigReference(cfgId, cfgName, cfgTarget)
      && (forall i :: 0 <= i < |r| - 1 ==> !HasPrefix(r[i].configName, cfgPrefix))
      && OtherConfigs(r, cfgPrefix) == OtherConfigs(cfgs, cfgPrefix)
      && RewriteConfigs(r, cfgId, cfgName, cfgPrefix, cfgTarget) == r
  {
    var others := OtherConfigs(cfgs, cfgPrefix);
    var added := [NewConfigReference(cfgId, cfgName, cfgTarget)];
    OtherConfigsAppend(others, added, cfgPrefix);
    OtherConfigsIdempotent(cfgs, cfgPrefix);
    assert OtherConfigs(added, cfgPrefix) == [] by {
      assert added[..0] == [];
    }
    forall i | 0 <= i < |others| ensures !HasPrefix(others[i].configName, cfgPrefix) {
      assert others[i] in others;
    }
  }

  /** The update policy after the rewrite: start-first, the rest kept or zero when unset. */
  function StartFirstPolicy(u: Option<UpdateConfig>): (r: UpdateConfig)
    ensures r.order == StartFirst
    ensures u.Some? ==> r.parallelism == u.value.parallelism
    ensures u.None? ==> r.parallelism == 0
  {
    var base := if u.None? then UpdateConfig(0, "") else u.value;
    base.(order := StartFirst)
  }

  /** The part of a service spec the controller edits, as fetched before the update. */
  class ServiceSpec {
    var secrets: seq<SecretReference>
    var configs: seq<ConfigReference>
    var updateConfig: Option<UpdateConfig>
    var forceUpdate: int

    ghost predicate Valid()
      reads this
    {
      0 <= forceUpdate < Uint64Limit
    }

    constructor (secrets: seq<SecretReference>, configs: seq<ConfigReference>,
                 updateConfig: Option<UpdateConfig>, forceUpdate: int)
      requires 0 <= forceUpdate < Uint64Limit
      ensures Valid()
      ensures this.secrets == secrets && this.configs == configs
      ensures this.updateConfig == updateConfig && this.forceUpdate == forceUpdate
    {
      this.secrets := secrets;
      this.configs := configs;
      this.updateConfig := updateConfig;
      this.forceUpdate := forceUpdate;
    }
  }

  /** The first loop of the rewrite: the references that are neither managed nor a
      placeholder, in their order. */
  method KeepForeignSecrets(refs: seq<SecretReference>) returns (kept: seq<SecretReference>)
    ensures kept == ForeignSecrets(refs)
  {
    kept := [];
    var i := 0;
    while i < |refs|
      invariant 0 <= i <= |refs|
      invariant kept == ForeignSecrets(refs[..i])
    {
      var r := refs[i];
      assert refs[..i + 1][..i] == refs[..i];
      PlaceholderTestIsRedundant(r.secretName);
      if !DroppedSecret(r.secretName) {
        kept := kept + [r];
      }
      i := i + 1;
    }
    assert refs[..i] == refs;
  }

  /** The second loop of the rewrite: the config references outside `prefix`, in their order. */
  method KeepOtherConfigs(cfgs: seq<ConfigReference>, prefix: string) returns (kept: seq<ConfigReference>)
    ensures kept == OtherConfigs(cfgs, prefix)
  {
    kept := [];
    var j := 0;
    while j < |cfgs|
      invariant 0 <= j <= |cfgs|
      invariant kept == OtherConfigs(cfgs[..j], prefix)
    {
      var c := cfgs[j];
      assert cfgs[..j + 1][..j] == cfgs[..j];
      if !HasPrefix(c.configName, prefix) {
        kept := kept + [c];
      }
      j := j + 1;
    }
    assert cfgs[..j] == cfgs;
  }

  /** The edit the controller applies to the inspected spec before it sends the update: the
      secret list becomes the foreign references followed by `newSecrets`; with `withCfg` the
      config list becomes the configs outside `cfgPrefix` followed by the new reference; the
      order is start-first; the force-update counter goes up by one, wrapping at 2^64. */
  method UpdateServiceSecretsAndConfigs(spec: ServiceSpec, newSecrets: seq<SecretReference>,
                                        withCfg: bool, cfgId: string, cfgName: string,
                                        cfgPrefix: string, cfgTarget: string)
    requires spec.Valid()
    modifies spec
    ensures spec.Valid()
    ensures spec.secrets == RewriteSecrets(old(spec.secrets), newSecrets)
    ensures withCfg ==> spec.configs == RewriteConfigs(old(spec.configs), cfgId, cfgName, cfgPrefix, cfgTarget)
    ensures !withCfg ==> spec.configs == old(spec.configs)
    ensures spec.updateConfig == Some(StartFirstPolicy(old(spec.updateConfig)))
    ensures spec.forceUpdate == (old(spec.forceUpdate) + 1) % Uint64Limit
  {
    var kept := KeepForeignSecrets(spec.secrets);
    spec.secrets := kept + newSecrets;

    if withCfg {
      var cfgs := KeepOtherConfigs(spec.configs, cfgPrefix);
      spec.configs := cfgs + [NewConfigReference(cfgId, cfgName, cfgTarget)];
    }

    if spec.updateConfig.None? {
      spec.updateConfig := Some(UpdateConfig(0, ""));
    }
    spec.updateConfig := Some(spec.updateConfig.value.(order := StartFirst));
    spec.forceUpdate := (spec.forceUpdate + 1) % Uint64Limit;
  }
}
