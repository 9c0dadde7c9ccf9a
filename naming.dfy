/** The names the controller mints for Docker Swarm secrets and configs, and their parse.
    A secret name is `edge_tls_<kind>_<group>_<ts>` (one certificate per domain) or
    `edge_tls_<kind>_<ts>` (one certificate for all domains, group "san"); a config name is
    `<prefix>_<ts>.yml`. The `edge_tls_crt_` and `edge_tls_key_` prefixes mark the names the
    controller owns: the reference rewrite and the garbage collector both classify with
    `IsManaged`. */
module Naming {
  import opened GoStrings

  const CrtPrefix: string := "edge_tls_crt_"
  const KeyPrefix: string := "edge_tls_key_"
  /** The group a secret without a group segment belongs to. */
  const SanGroup: string := "san"
  /** Placeholder secret names the reference rewrite also drops. */
  const CrtPlaceholder: string := "edge_tls_crt_00000000"
  const KeyPlaceholder: string := "edge_tls_key_00000000"

  datatype Kind = Crt | Key

  function Prefix(k: Kind): string {
    match k
    case Crt => CrtPrefix
    case Key => KeyPrefix
  }

  function KindLabel(k: Kind): string {
    match k
    case Crt => "crt"
    case Key => "key"
  }

  /** A name in the controller's namespace. */
  predicate IsManaged(name: string) {
    HasPrefix(name, CrtPrefix) || HasPrefix(name, KeyPrefix)
  }

  // ---- domain transliteration --------------------------------------------------------

  function SafeChar(c: char): string {
    if c == '*' then "star" else if c == '.' then "-" else [c]
  }

  /** The group segment for one domain: every `*` becomes "star" and every `.` becomes "-". */
  function Safe(domain: string): (r: string)
    ensures '*' !in r && '.' !in r
    ensures '_' in r <==> '_' in domain
  {
    if domain == [] then []
    else
      assert domain == [domain[0]] + domain[1..];
      SafeChar(domain[0]) + Safe(domain[1..])
  }

  /** A domain with neither `*` nor `.` is its own group segment. */
  lemma {:induction false} SafeIdentity(domain: string)
    requires '*' !in domain && '.' !in domain
    ensures Safe(domain) == domain
  {
    if domain != [] {
      assert domain == [domain[0]] + domain[1..];
      SafeIdentity(domain[1..]);
    }
  }

  /** Transliterating twice changes nothing more. */
  lemma SafeIdempotent(domain: string)
    ensures Safe(Safe(domain)) == Safe(domain)
  {
    SafeIdentity(Safe(domain));
  }

  /** Transliteration works character by character, so it distributes over concatenation. */
  lemma {:induction false} SafeConcat(a: string, b: string)
    ensures Safe(a + b) == Safe(a) + Safe(b)
  {
    if a == [] {
      assert a + b == b;
    } else {
      assert (a + b)[0] == a[0] && (a + b)[1..] == a[1..] + b;
      SafeConcat(a[1..], b);
    }
  }

  /** Group segments can collide: a `.` and a `-` give the same segment, and so do a `*` and
      the text "star". */
  lemma SafeCollisions(a: string, b: string)
    ensures Safe(a + "." + b) == Safe(a + "-" + b)
    ensures Safe(a + "*" + b) == Safe(a + "star" + b)
  {
    SafeConcat(a + ".", b);
    SafeConcat(a, ".");
    SafeConcat(a + "-", b);
    SafeConcat(a, "-");
    SafeConcat(a + "*", b);
    SafeConcat(a, "*");
    SafeConcat(a + "star", b);
    SafeConcat(a, "star");
    assert Safe(".") == "-" == Safe("-") && Safe("*") == "star";
    SafeIdentity("star");
  }

  /** Two different domains of one cycle can mint the same secret names: one with a `.` where
      the other has a `-` (such as "a.b.com" and "a-b.com"), or one with a `*` where the other
      has "star" (such as "*.x.com" and "star.x.com"). */
  lemma DomainsCollide(k: Kind, ts: string, a: string, b: string)
    ensures a + "." + b != a + "-" + b
    ensures GroupSecretName(k, Safe(a + "." + b), ts) == GroupSecretName(k, Safe(a + "-" + b), ts)
    ensures a + "*" + b != a + "star" + b
    ensures GroupSecretName(k, Safe(a + "*" + b), ts) == GroupSecretName(k, Safe(a + "star" + b), ts)
  {
    SafeCollisions(a, b);
    assert (a + "." + b)[|a|] != (a + "-" + b)[|a|];
    assert (a + "*" + b)[|a|] != (a + "star" + b)[|a|];
  }

  /** Without `*`, transliteration only turns each `.` into `-`. */
  lemma {:induction false} SafeOfStarless(domain: string)
    requires '*' !in domain
    ensures |Safe(domain)| == |domain|
    ensures forall i :: 0 <= i < |domain| ==>
              Safe(domain)[i] == if domain[i] == '.' then '-' else domain[i]
  {
    if domain != [] {
      var rest := domain[1..];
      assert '*' !in rest by { assert forall i :: 0 <= i < |rest| ==> rest[i] == domain[i + 1]; }
      SafeOfStarless(rest);
      assert |SafeChar(domain[0])| == 1;
    }
  }

  /** The segment does tell domains apart when they hold neither `*` nor `-`. */
  lemma SafeInjective(d1: string, d2: string)
    requires '*' !in d1 && '-' !in d1 && '*' !in d2 && '-' !in d2
    ensures Safe(d1) == Safe(d2) <==> d1 == d2
  {
    if Safe(d1) == Safe(d2) {
      SafeOfStarless(d1);
      SafeOfStarless(d2);
      forall i | 0 <= i < |d1| ensures d1[i] == d2[i] {
        assert Safe(d1)[i] == Safe(d2)[i];
      }
    }
  }

  // ---- generation timestamps -----------------------------------------------------------

  /** A wall-clock minute, as Go's layout "200601021504" prints it. */
  datatype Stamp = Stamp(year: int, month: int, day: int, hour: int, minute: int)

  predicate ValidStamp(t: Stamp) {
    0 <= t.year <= 9999 && 1 <= t.month <= 12 && 1 <= t.day <= 31
    && 0 <= t.hour <= 23 && 0 <= t.minute <= 59
  }

  /** Chronological order of two minutes. */
  predicate Before(a: Stamp, b: Stamp) {
    a.year < b.year
    || (a.year == b.year && (a.month < b.month
    || (a.month == b.month && (a.day < b.day
    || (a.day == b.day && (a.hour < b.hour
    || (a.hour == b.hour && a.minute < b.minute)))))))
  }

  /** The 12-digit generation label YYYYMMDDhhmm. */
  function FormatStamp(t: Stamp): (ts: string)
    requires ValidStamp(t)
    ensures |ts| == 12
    ensures forall i :: 0 <= i < |ts| ==> IsDigit(ts[i])
  {
    Pad(t.year, 4) + (Pad(t.month, 2) + (Pad(t.day, 2) + (Pad(t.hour, 2) + Pad(t.minute, 2))))
  }

  lemma PadInjective(x: nat, y: nat, w: nat)
    requires x < Pow10(w) && y < Pow10(w)
    ensures Pad(x, w) == Pad(y, w) <==> x == y
  {
    PadValue(x, w);
    PadValue(y, w);
  }

  /** One level of the timestamp comparison: a padded field, then the rest. */
  lemma FieldThenRest(x: nat, y: nat, w: nat, rx: string, ry: string)
    requires x < Pow10(w) && y < Pow10(w)
    ensures LexLess(Pad(x, w) + rx, Pad(y, w) + ry) <==> x < y || (x == y && LexLess(rx, ry))
  {
    LexLessConcat(Pad(x, w), rx, Pad(y, w), ry);
    PadOrder(x, y, w);
    PadInjective(x, y, w);
  }

  /** Lexical order of the labels is chronological order of the minutes: the reason the
      garbage collector may sort generations as strings. */
  lemma FormatStampOrder(a: Stamp, b: Stamp)
    requires ValidStamp(a) && ValidStamp(b)
    ensures Before(a, b) <==> LexLess(FormatStamp(a), FormatStamp(b))
  {
    FieldThenRest(a.hour, b.hour, 2, Pad(a.minute, 2), Pad(b.minute, 2));
    PadOrder(a.minute, b.minute, 2);
    var ha, hb := Pad(a.hour, 2) + Pad(a.minute, 2), Pad(b.hour, 2) + Pad(b.minute, 2);
    FieldThenRest(a.day, b.day, 2, ha, hb);
    var da, db := Pad(a.day, 2) + ha, Pad(b.day, 2) + hb;
    FieldThenRest(a.month, b.month, 2, da, db);
    var ma, mb := Pad(a.month, 2) + da, Pad(b.month, 2) + db;
    FieldThenRest(a.year, b.year, 4, ma, mb);
  }

  /** Different minutes get different labels. */
  lemma FormatStampInjective(a: Stamp, b: Stamp)
    requires ValidStamp(a) && ValidStamp(b) && a != b
    ensures FormatStamp(a) != FormatStamp(b)
  {
    FormatStampOrder(a, b);
    FormatStampOrder(b, a);
    LexLessIrreflexive(FormatStamp(a));
    assert Before(a, b) || Before(b, a);
  }

  // ---- names -------------------------------------------------------------------------

  /** A secret name in split mode, one certificate per domain. */
  function GroupSecretName(k: Kind, safe: string, ts: string): string {
    Prefix(k) + safe + "_" + ts
  }

  /** A secret name in san mode, one certificate for all domains. */
  function SanSecretName(k: Kind, ts: string): string {
    Prefix(k) + ts
  }

  /** The name of the dynamic-configuration config of one cycle. */
  function ConfigName(prefix: string, ts: string): string {
    prefix + "_" + ts + ".yml"
  }

  /** The generation part the config collector sorts by: everything after `prefix_`. */
  function ConfigTs(prefix: string, name: string): (ts: string)
    requires HasPrefix(name, prefix + "_")
    ensures name == prefix + "_" + ts
  {
    name[|prefix| + 1..]
  }

  lemma ManagedNames(k: Kind, safe: string, ts: string)
    ensures IsManaged(GroupSecretName(k, safe, ts)) && IsManaged(SanSecretName(k, ts))
    ensures IsManaged(CrtPlaceholder) && IsManaged(KeyPlaceholder)
  {
    assert GroupSecretName(k, safe, ts)[..13] == Prefix(k);
    assert SanSecretName(k, ts)[..13] == Prefix(k);
  }

  // ---- parse ---------------------------------------------------------------------------

  /** The parse of a secret name; `ok` is false, and every other field empty, when the
      name is not one the controller minted. */
  datatype Parsed = Parsed(kind: string, group: string, ts: string, ok: bool)

  const NotParsed: Parsed := Parsed("", "", "", false)

  /** The parse of what follows the kind prefix: the group is everything before the last `_`
      ("san" when there is none), the label the text after it; a label shorter than 8
      characters is refused. */
  function SplitRest(kind: string, rest: string): (r: Parsed)
    requires kind != ""
    ensures !r.ok ==> r == NotParsed
    ensures r.ok ==> r.kind == kind && |r.ts| >= 8 && '_' !in r.ts
  {
    var parts := Split(rest, '_');
    var group := if |parts| == 1 then SanGroup else Join(parts[..|parts| - 1], '_');
    var ts := parts[|parts| - 1];
    if |ts| < 8 then NotParsed else Parsed(kind, group, ts, true)
  }

  /** Splits a managed secret name into kind ("crt" or "key"), group and generation label. */
  function SplitSecretName(name: string): (r: Parsed)
    ensures !IsManaged(name) ==> r == NotParsed
    ensures !r.ok ==> r == NotParsed
    ensures r.ok ==> IsManaged(name) && |r.ts| >= 8 && '_' !in r.ts
    ensures r.ok ==> (r.kind == "crt" <==> HasPrefix(name, CrtPrefix))
    ensures r.ok ==> (r.kind == "key" <==> !HasPrefix(name, CrtPrefix))
  {
    var kind := if HasPrefix(name, CrtPrefix) then "crt"
                else if HasPrefix(name, KeyPrefix) then "key"
                else "";
    if kind == "" then NotParsed
    else SplitRest(kind, TrimPrefix(TrimPrefix(name, CrtPrefix), KeyPrefix))
  }

  /** The parse of a name the controller built with `Prefix(k)` is the parse of its tail. */
  lemma ParseOfPrefixed(k: Kind, tail: string)
    requires k == Crt ==> !HasPrefix(tail, KeyPrefix)
    ensures SplitSecretName(Prefix(k) + tail) == SplitRest(KindLabel(k), tail)
  {
    RestAfterPrefixes(k, tail);
  }

  lemma CrtIsNotKey(s: string)
    requires HasPrefix(s, CrtPrefix)
    ensures !HasPrefix(s, KeyPrefix)
  {
    assert s[10] == CrtPrefix[10] != KeyPrefix[10];
  }

  /** A label without `_` cannot complete a key prefix unless the group already does. */
  lemma NoKeyPrefixAfterGroup(safe: string, ts: string)
    requires '_' !in ts
    requires !HasPrefix(safe + "_", KeyPrefix)
    ensures !HasPrefix(safe + "_" + ts, KeyPrefix)
  {
    var s := safe + "_" + ts;
    if |s| >= 13 {
      if |safe| < 12 {
        assert s[12] == ts[11 - |safe|];
        assert s[..13][12] != KeyPrefix[12];
      } else {
        assert s[..13] == (safe + "_")[..13];
      }
    }
  }

  /** A string without `_` never starts with the key prefix. */
  lemma NoKeyPrefixWithoutUnderscore(ts: string)
    requires '_' !in ts
    ensures !HasPrefix(ts, KeyPrefix)
  {
    if |ts| >= 13 {
      assert ts[..13][4] != KeyPrefix[4];
    }
  }

  /** What the two prefix trims leave of a name the controller built with `Prefix(k)`. */
  lemma RestAfterPrefixes(k: Kind, tail: string)
    requires k == Crt ==> !HasPrefix(tail, KeyPrefix)
    ensures TrimPrefix(TrimPrefix(Prefix(k) + tail, CrtPrefix), KeyPrefix) == tail
    ensures HasPrefix(Prefix(k) + tail, CrtPrefix) <==> k == Crt
    ensures HasPrefix(Prefix(k) + tail, KeyPrefix) <==> k == Key
  {
    var name := Prefix(k) + tail;
    assert name[..13] == Prefix(k);
    assert name[13..] == tail;
    if k == Crt {
      CrtIsNotKey(name);
    } else {
      assert name[..13][10] != CrtPrefix[10];
    }
  }

  /** The parse of a group tail: the group and the label come back, or the label is refused
      when it is shorter than 8 characters. */
  lemma SplitRestOfGroup(kind: string, safe: string, ts: string)
    requires kind != "" && '_' !in ts
    ensures SplitRest(kind, safe + "_" + ts) == if |ts| < 8 then NotParsed else Parsed(kind, safe, ts, true)
  {
    var parts := Split(safe + "_" + ts, '_');
    assert parts == Split(safe, '_') + [ts] by {
      SplitAround(safe, '_', ts);
      SplitNoSeparator(ts, '_');
    }
    assert parts[..|parts| - 1] == Split(safe, '_');
    JoinSplit(safe, '_');
  }

  /** Round trip in split mode: a group name parses back to its kind, group and label,
      provided the label has no `_` and at least 8 characters, and for a certificate the group
      does not itself begin the key prefix. */
  lemma GroupNameRoundTrip(k: Kind, safe: string, ts: string)
    requires '_' !in ts && |ts| >= 8
    requires k == Crt ==> !HasPrefix(safe + "_", KeyPrefix)
    ensures SplitSecretName(GroupSecretName(k, safe, ts)) == Parsed(KindLabel(k), safe, ts, true)
  {
    var tail := safe + "_" + ts;
    assert GroupSecretName(k, safe, ts) == Prefix(k) + tail;
    if k == Crt {
      NoKeyPrefixAfterGroup(safe, ts);
    }
    ParseOfPrefixed(k, tail);
    SplitRestOfGroup(KindLabel(k), safe, ts);
  }

  /** Round trip in san mode: the name parses to group "san". */
  lemma SanNameRoundTrip(k: Kind, ts: string)
    requires '_' !in ts && |ts| >= 8
    ensures SplitSecretName(SanSecretName(k, ts)) == Parsed(KindLabel(k), SanGroup, ts, true)
  {
    NoKeyPrefixWithoutUnderscore(ts);
    ParseOfPrefixed(k, ts);
    SplitNoSeparator(ts, '_');
  }

  /** A label shorter than 8 characters makes the name unparsable, in either mode and for
      every group: the label is the last `_`-separated piece whatever the prefix trims cut. */
  lemma ShortLabelRejected(k: Kind, safe: string, ts: string)
    requires '_' !in ts && |ts| < 8
    ensures SplitSecretName(GroupSecretName(k, safe, ts)) == NotParsed
    ensures SplitSecretName(SanSecretName(k, ts)) == NotParsed
  {
    if k == Crt && HasPrefix(safe + "_", KeyPrefix) {
      if |safe| >= |KeyPrefix| {
        var inner := safe[|KeyPrefix|..];
        assert safe == KeyPrefix + inner by {
          assert safe[..|KeyPrefix|] == (safe + "_")[..|KeyPrefix|];
        }
        KeyPrefixedGroupLosesPrefix(inner, ts);
      } else {
        KeyPrefixGroupIsSan(safe, ts);
      }
    } else {
      assert SplitSecretName(GroupSecretName(k, safe, ts)) == NotParsed by {
        var tail := safe + "_" + ts;
        assert GroupSecretName(k, safe, ts) == Prefix(k) + tail;
        if k == Crt {
          NoKeyPrefixAfterGroup(safe, ts);
        }
        ParseOfPrefixed(k, tail);
        SplitRestOfGroup(KindLabel(k), safe, ts);
      }
    }
    assert SplitSecretName(Prefix(k) + ts) == NotParsed by {
      NoKeyPrefixWithoutUnderscore(ts);
      ParseOfPrefixed(k, ts);
      SplitNoSeparator(ts, '_');
    }
  }

  /** The certificate of group "edge_tls_key": both trims cut, only the label is left, and the
      name parses as a san-mode certificate. */
  lemma KeyPrefixGroupIsSan(safe: string, ts: string)
    requires '_' !in ts
    requires HasPrefix(safe + "_", KeyPrefix) && |safe| < |KeyPrefix|
    ensures safe == "edge_tls_key"
    ensures SplitSecretName(GroupSecretName(Crt, safe, ts))
            == if |ts| < 8 then NotParsed else Parsed("crt", SanGroup, ts, true)
  {
    assert safe + "_" == KeyPrefix;
    assert safe == (safe + "_")[..|safe|] == KeyPrefix[..12];
    var name := GroupSecretName(Crt, safe, ts);
    assert name == CrtPrefix + (KeyPrefix + ts);
    TrimPrefixOfConcat(CrtPrefix, KeyPrefix + ts);
    TrimPrefixOfConcat(KeyPrefix, ts);
    SplitNoSeparator(ts, '_');
  }

  /** A generation label holds digits only. */
  lemma StampHasNoUnderscore(t: Stamp)
    requires ValidStamp(t)
    ensures '_' !in FormatStamp(t)
  {
    var ts := FormatStamp(t);
    forall i | 0 <= i < |ts| ensures ts[i] != '_' {
      assert IsDigit(ts[i]);
    }
  }

  /** A group segment without `_` cannot begin the key prefix. */
  lemma PlainGroupIsNotKeyPrefixed(safe: string)
    requires '_' !in safe
    ensures !HasPrefix(safe + "_", KeyPrefix)
  {
    if |safe| >= 12 {
      assert (safe + "_")[..13][4] == safe[4] != KeyPrefix[4];
    }
  }

  /** The names the controller mints for a domain and a clock minute parse back, as long as
      the domain has no `_` (host names do not). */
  lemma MintedNameRoundTrip(k: Kind, domain: string, t: Stamp)
    requires ValidStamp(t) && '_' !in domain
    ensures SplitSecretName(GroupSecretName(k, Safe(domain), FormatStamp(t)))
            == Parsed(KindLabel(k), Safe(domain), FormatStamp(t), true)
    ensures SplitSecretName(SanSecretName(k, FormatStamp(t)))
            == Parsed(KindLabel(k), SanGroup, FormatStamp(t), true)
  {
    StampHasNoUnderscore(t);
    PlainGroupIsNotKeyPrefixed(Safe(domain));
    GroupNameRoundTrip(k, Safe(domain), FormatStamp(t));
    SanNameRoundTrip(k, FormatStamp(t));
  }

  /** The prefix trims are applied one after the other, so a certificate whose group itself
      starts with the key prefix parses with that prefix cut off its group. */
  lemma KeyPrefixedGroupLosesPrefix(safe: string, ts: string)
    requires '_' !in ts
    ensures SplitSecretName(GroupSecretName(Crt, KeyPrefix + safe, ts))
            == if |ts| < 8 then NotParsed else Parsed("crt", safe, ts, true)
  {
    var tail := safe + "_" + ts;
    var name := GroupSecretName(Crt, KeyPrefix + safe, ts);
    assert name == CrtPrefix + (KeyPrefix + tail);
    TrimPrefixOfConcat(CrtPrefix, KeyPrefix + tail);
    TrimPrefixOfConcat(KeyPrefix, tail);
    SplitRestOfGroup("crt", safe, ts);
  }

  /** The config collector's generation part of a minted config name is the label plus ".yml". */
  lemma ConfigNameTs(prefix: string, ts: string)
    ensures HasPrefix(ConfigName(prefix, ts), prefix + "_")
    ensures ConfigTs(prefix, ConfigName(prefix, ts)) == ts + ".yml"
  {
    assert ConfigName(prefix, ts) == (prefix + "_") + (ts + ".yml");
  }

  /** The ".yml" suffix does not disturb the order of labels of one width. */
  lemma ConfigTsOrder(t1: string, t2: string)
    requires |t1| == |t2|
    ensures LexLess(t1 + ".yml", t2 + ".yml") <==> LexLess(t1, t2)
  {
    LexLessConcat(t1, ".yml", t2, ".yml");
    LexLessIrreflexive(".yml");
  }
}
