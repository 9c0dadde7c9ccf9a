/** The small parsers that read the controller's settings: comma-separated lists, the
    service label filter, and positive integers with a default. */
module Settings {
  import opened GoStrings
  import opened Wrappers

  // ---------------------------------------------------------------------------------------
  // Comma-separated lists

  /** The fields of a split list, each trimmed, the empty ones dropped, in order. */
  function CsvItems(fields: seq<string>): (items: seq<string>)
    ensures |items| <= |fields|
    ensures forall k :: 0 <= k < |items| ==> items[k] != [] && IsTrimmed(items[k])
  {
    if fields == [] then []
    else
      var init := CsvItems(fields[..|fields| - 1]);
      var t := TrimSpace(fields[|fields| - 1]);
      if t == [] then init else init + [t]
  }

  lemma TrimSpaceKeepsOut(s: string, c: char)
    requires c !in s
    ensures c !in TrimSpace(s)
  {
    var i, j :| 0 <= i <= j <= |s| && TrimSpace(s) == s[i..j];
    forall k | 0 <= k < j - i ensures s[i..j][k] != c {
      assert s[i..j][k] == s[i + k];
    }
  }

  /** A trimmed item holds no separator when no field does. */
  lemma {:induction false} CsvItemsKeepOut(fields: seq<string>, c: char)
    requires forall k :: 0 <= k < |fields| ==> c !in fields[k]
    ensures forall k :: 0 <= k < |CsvItems(fields)| ==> c !in CsvItems(fields)[k]
  {
    if fields != [] {
      CsvItemsKeepOut(fields[..|fields| - 1], c);
      TrimSpaceKeepsOut(fields[|fields| - 1], c);
    }
  }

  /** The step of the parse loop for one field. */
  lemma CsvStep(fields: seq<string>, i: int)
    requires 0 <= i < |fields|
    ensures var t := TrimSpace(fields[i]);
      CsvItems(fields[..i + 1]) == CsvItems(fields[..i]) + (if t == [] then [] else [t])
  {
    assert fields[..i + 1][..i] == fields[..i];
  }

  /** `parseCSV`: the non-empty trimmed fields between commas, in order. */
  method ParseCsv(csv: string) returns (out: seq<string>)
    ensures out == CsvItems(Split(csv, ','))
    ensures forall k :: 0 <= k < |out| ==> out[k] != [] && IsTrimmed(out[k]) && ',' !in out[k]
  {
    var fields := Split(csv, ',');
    out := [];
    var i := 0;
    while i < |fields|
      invariant 0 <= i <= |fields|
      invariant out == CsvItems(fields[..i])
    {
      CsvStep(fields, i);
      var s := TrimSpace(fields[i]);
      if s != [] {
        out := out + [s];
      }
      i := i + 1;
    }
    assert fields[..i] == fields;
    CsvItemsKeepOut(fields, ',');
  }

  lemma {:induction false} CsvItemsOfItems(items: seq<string>)
    requires forall k :: 0 <= k < |items| ==> items[k] != [] && IsTrimmed(items[k])
    ensures CsvItems(items) == items
  {
    if items != [] {
      CsvItemsOfItems(items[..|items| - 1]);
      TrimSpaceOfTrimmed(items[|items| - 1]);
      assert items == items[..|items| - 1] + [items[|items| - 1]];
    }
  }

  /** Joining parsed items with commas and parsing again gives the same items: the parse
      loses only blanks around items and empty items. */
  lemma CsvRoundTrip(items: seq<string>)
    requires forall k :: 0 <= k < |items| ==> items[k] != [] && IsTrimmed(items[k]) && ',' !in items[k]
    ensures CsvItems(Split(Join(items, ','), ',')) == items
  {
    if items == [] {
      SplitNoSeparator([], ',');
      assert TrimSpace([]) == [];
    } else {
      SplitJoin(items, ',');
      CsvItemsOfItems(items);
    }
  }

  // ---------------------------------------------------------------------------------------
  // The service label filter

  /** The labels of the filter: the items that contain `=`. A label filter is a set of values,
      so a repeated item counts once. */
  function Labels(csv: string): set<string> {
    LabelsOf(CsvItems(Split(csv, ',')))
  }

  function LabelsOf(items: seq<string>): set<string> {
    set kv | kv in items && '=' in kv
  }

  lemma LabelsOfAppend(items: seq<string>, kv: string)
    ensures LabelsOf(items + [kv]) == LabelsOf(items) + (if '=' in kv then {kv} else {})
  {
  }

  lemma LabelsShape(fields: seq<string>)
    requires forall k :: 0 <= k < |fields| ==> ',' !in fields[k]
    ensures forall l :: l in LabelsOf(CsvItems(fields)) ==> '=' in l && l != [] && IsTrimmed(l) && ',' !in l
  {
    CsvItemsKeepOut(fields, ',');
    forall l | l in LabelsOf(CsvItems(fields)) ensures l != [] && IsTrimmed(l) && ',' !in l {
      var k :| 0 <= k < |CsvItems(fields)| && CsvItems(fields)[k] == l;
    }
  }

  /** `buildLabelFilter`: every item is split at its first `=`; items without one are skipped,
      and the label added is the two halves joined again by `=`. */
  method BuildLabelFilter(csv: string) returns (f: set<string>)
    ensures f == Labels(csv)
    ensures forall l :: l in f ==> '=' in l && l != [] && IsTrimmed(l) && ',' !in l
  {
    var fields := Split(csv, ',');
    f := {};
    var i := 0;
    while i < |fields|
      invariant 0 <= i <= |fields|
      invariant f == LabelsOf(CsvItems(fields[..i]))
    {
      CsvStep(fields, i);
      LabelsOfAppend(CsvItems(fields[..i]), TrimSpace(fields[i]));
      var kv := TrimSpace(fields[i]);
      if kv != [] {
        var parts := SplitN2(kv, '=');
        if |parts| == 2 {
          assert parts[0] + "=" + parts[1] == kv;
          f := f + {parts[0] + "=" + parts[1]};
        }
      }
      i := i + 1;
    }
    assert fields[..i] == fields;
    LabelsShape(fields);
  }

  /** The labels are the items that contain `=`, each once. */
  lemma LabelsOfItems(items: seq<string>)
    requires forall k :: 0 <= k < |items| ==> items[k] != [] && IsTrimmed(items[k]) && ',' !in items[k]
    ensures Labels(Join(items, ',')) == LabelsOf(items)
  {
    assert CsvItems(Split(Join(items, ','), ',')) == items by {
      CsvRoundTrip(items);
    }
  }

  // ---------------------------------------------------------------------------------------
  // Integers

  /** `int` is 64 bits wide: the values lie in [-Int64Limit, Int64Limit). */
  const Int64Limit: int := 0x8000_0000_0000_0000

  /** The blanks `Sscanf` skips before a number: white space other than a newline. */
  function SkipBlanks(s: string): (r: string)
    ensures |r| <= |s| && r == s[|s| - |r|..]
    ensures r == [] || !IsSpace(r[0]) || r[0] == '\n'
  {
    if s != [] && IsSpace(s[0]) && s[0] != '\n' then SkipBlanks(s[1..]) else s
  }

  /** The longest prefix of decimal digits. */
  function LeadingDigits(s: string): (ds: string)
    ensures |ds| <= |s| && ds == s[..|ds|]
    ensures forall i :: 0 <= i < |ds| ==> IsDigit(ds[i])
    ensures |ds| < |s| ==> !IsDigit(s[|ds|])
  {
    if s == [] || !IsDigit(s[0]) then [] else [s[0]] + LeadingDigits(s[1..])
  }

  /** A value that fits in 64 bits, or None. */
  function InInt64(v: int): (r: Option<int>)
    ensures r.Some? <==> -Int64Limit <= v < Int64Limit
    ensures r.Some? ==> r.value == v
  {
    if v < -Int64Limit || v >= Int64Limit then None else Some(v)
  }

  /** The number at the start of `t`: an optional sign, then at least one digit. */
  function ScanNumber(t: string): (r: Option<int>)
    ensures r.Some? ==> -Int64Limit <= r.value < Int64Limit
  {
    var signed := t != [] && (t[0] == '+' || t[0] == '-');
    var ds := LeadingDigits(if signed then t[1..] else t);
    if ds == [] then None
    else
      var m: int := DigitsValue(ds);
      InInt64(if signed && t[0] == '-' then -m else m)
  }

  /** What `fmt.Sscanf(s, "%d", &n)` stores in `n`, or None when it reports an error: blanks
      are skipped (a newline is an error), then an optional sign and at least one decimal digit
      are read, and the value must fit in 64 bits; whatever follows the digits is ignored. */
  function ScanDecimal(s: string): (r: Option<int>)
    ensures r.Some? ==> -Int64Limit <= r.value < Int64Limit
  {
    var t := SkipBlanks(s);
    if t == [] || t[0] == '\n' then None else ScanNumber(t)
  }

  /** `parseInt`: the value scanned from `s` when there is one and it is positive, `def`
      otherwise; so a positive default always gives a positive result. */
  function ParseInt(s: string, def: int): (r: int)
    ensures s == [] ==> r == def
    ensures s != [] && ScanDecimal(s).Some? && ScanDecimal(s).value > 0 ==> r == ScanDecimal(s).value
    ensures r == def || (r > 0 && ScanDecimal(s) == Some(r))
    ensures def > 0 ==> r > 0
  {
    if s == [] then def
    else
      var n := ScanDecimal(s);
      if n.Some? && n.value > 0 then n.value else def
  }

  /** The decimal digits of `n`, without leading zeros. */
  function Decimal(n: nat): (r: string)
    ensures r != [] && forall i :: 0 <= i < |r| ==> IsDigit(r[i])
  {
    if n < 10 then [DigitChar(n)] else Decimal(n / 10) + [DigitChar(n % 10)]
  }

  lemma {:induction false} DecimalValue(n: nat)
    ensures DigitsValue(Decimal(n)) == n
  {
    if n >= 10 {
      DecimalValue(n / 10);
      assert Decimal(n)[..|Decimal(n)| - 1] == Decimal(n / 10);
    }
  }

  lemma {:induction false} LeadingDigitsOfDigits(ds: string, rest: string)
    requires forall i :: 0 <= i < |ds| ==> IsDigit(ds[i])
    requires rest == [] || !IsDigit(rest[0])
    ensures LeadingDigits(ds + rest) == ds
  {
    if ds != [] {
      assert (ds + rest)[1..] == ds[1..] + rest;
      LeadingDigitsOfDigits(ds[1..], rest);
    }
  }

  /** Input that starts with a digit is read as an unsigned number. */
  lemma ScanOfUnsigned(s: string)
    requires s != [] && IsDigit(s[0])
    ensures ScanDecimal(s) == InInt64(DigitsValue(LeadingDigits(s)))
  {
    assert !IsSpace(s[0]) && s[0] != '\n' && s[0] != '+' && s[0] != '-' by {
      assert 48 <= s[0] as int <= 57;
    }
    assert SkipBlanks(s) == s;
    assert ScanNumber(s) == InInt64(DigitsValue(LeadingDigits(s)));
  }

  /** A positive number written in decimal, possibly followed by a non-digit suffix such as a
      unit, reads back as itself. */
  lemma ParseIntOfDecimal(n: nat, rest: string, def: int)
    requires 0 < n < Int64Limit
    requires rest == [] || !IsDigit(rest[0])
    ensures ParseInt(Decimal(n) + rest, def) == n
  {
    var s := Decimal(n) + rest;
    assert IsDigit(s[0]) by {
      assert s[0] == Decimal(n)[0];
    }
    ScanOfUnsigned(s);
    LeadingDigitsOfDigits(Decimal(n), rest);
    DecimalValue(n);
  }

  /** Zero and negative numbers fall back to the default. */
  lemma ParseIntOfNonPositive(n: nat, def: int)
    ensures ParseInt("-" + Decimal(n), def) == def
  {
    var s := "-" + Decimal(n);
    assert SkipBlanks(s) == s;
    assert s[1..] == Decimal(n);
    LeadingDigitsOfDigits(Decimal(n), []);
    assert Decimal(n) + [] == Decimal(n);
  }

  /** Input that does not start with a number (after blanks and a sign) falls back to the
      default. */
  lemma ParseIntOfNonNumber(s: string, def: int)
    requires s != [] && !IsSpace(s[0]) && !IsDigit(s[0]) && s[0] != '+' && s[0] != '-'
    ensures ParseInt(s, def) == def
  {
    assert SkipBlanks(s) == s;
  }
}
