/**
 * The property-list side of the NFC configuration plugin: the set-union
 * merge of a list of strings into one key of a plist dictionary
 * (`addValuesToArray`) and the field mutators the plugin builds on it
 * for Info.plist and the entitlements file.
 */
module Plist {
  import opened Wrappers

  /** Default text of the NFC usage description. */
  const NFC_READER := "Interact with nearby NFC devices"

  const USAGE_DESCRIPTION_KEY := "NFCReaderUsageDescription"
  const FORMATS_KEY := "com.apple.developer.nfc.readersession.formats"
  const SELECT_IDENTIFIERS_KEY := "com.apple.developer.nfc.readersession.iso7816.select-identifiers"
  const SYSTEM_CODES_KEY := "com.apple.developer.nfc.readersession.felica.systemcodes"

  /** A plist value as the JavaScript host holds it. Arrays are arrays of strings. */
  datatype Value =
    | Str(s: string)
    | Arr(items: seq<string>)
    | Bool(b: bool)
    | Num(n: int)
    | Dict(fields: map<string, Value>)

  /** JavaScript truthiness of a plist value: arrays and objects are always truthy. */
  predicate Truthy(v: Value) {
    match v
    case Str(s) => s != ""
    case Arr(_) => true
    case Bool(b) => b
    case Num(n) => n != 0
    case Dict(_) => true
  }

  /** The `nfcPermission` option: absent, explicitly `false`, or a string. */
  datatype NfcPermission = PermissionUnset | PermissionDisabled | PermissionText(text: string)

  predicate NoDuplicates(s: seq<string>) {
    forall i, j :: 0 <= i < j < |s| ==> s[i] != s[j]
  }

  /** Index of the first occurrence of `x` in `s`. */
  function IndexOf(s: seq<string>, x: string): (i: nat)
    requires x in s
    ensures i < |s| && s[i] == x && x !in s[..i]
  {
    if s[0] == x then 0 else 1 + IndexOf(s[1..], x)
  }

  /**
   * `[...new Set(s)]`: the distinct elements of `s`. A JavaScript Set keeps
   * the position of the first insertion of each element, so appending the
   * last element only when it is new gives the same order.
   */
  function Dedupe(s: seq<string>): (r: seq<string>)
    ensures NoDuplicates(r)
    ensures forall x :: x in r <==> x in s
    ensures |r| <= |s|
    decreases |s|
  {
    if s == [] then []
    else
      var d := Dedupe(s[..|s| - 1]);
      var x := s[|s| - 1];
      assert forall y :: y in s <==> y in s[..|s| - 1] || y == x;
      if x in d then d else d + [x]
  }

  /** The array already held at `key`, or the empty array the merge starts from. */
  function PriorItems(m: map<string, Value>, key: string): seq<string> {
    if key in m && m[key].Arr? then m[key].items else []
  }

  /**
   * `addValuesToArray(obj, key, values)` on a plist dictionary. `values` is
   * `None` when the argument is not an array.
   */
  function Merged(m: map<string, Value>, key: string, values: Option<seq<string>>): (r: map<string, Value>)
    ensures values.None? || values.value == [] ==> r == m
    ensures values.Some? && values.value != [] ==>
      && key in r && r[key].Arr?
      && r[key].items != []
      && NoDuplicates(r[key].items)
      && (forall x :: x in r[key].items <==> x in PriorItems(m, key) || x in values.value)
    ensures forall k :: k != key ==> (k in r <==> k in m) && (k in m ==> r[k] == m[k])
  {
    if values.None? || values.value == [] then m
    else
      var items := Dedupe(PriorItems(m, key) + values.value);
      assert values.value[0] in items;
      // The array cannot be empty here, so the key is never deleted.
      if items == [] then m - {key} else m[key := Arr(items)]
  }

  /** The usage-description fallback chain: override, else a truthy existing value, else the default. */
  function Described(m: map<string, Value>, permission: NfcPermission): (r: map<string, Value>)
    ensures r.Keys == m.Keys + {USAGE_DESCRIPTION_KEY}
    ensures forall k :: k in m && k != USAGE_DESCRIPTION_KEY ==> r[k] == m[k]
    ensures Truthy(r[USAGE_DESCRIPTION_KEY])
    ensures permission.PermissionText? && permission.text != "" ==> r[USAGE_DESCRIPTION_KEY] == Str(permission.text)
    ensures !(permission.PermissionText? && permission.text != "") ==>
      if USAGE_DESCRIPTION_KEY in m && Truthy(m[USAGE_DESCRIPTION_KEY])
      then r == m
      else r[USAGE_DESCRIPTION_KEY] == Str(NFC_READER)
  {
    var description :=
      if permission.PermissionText? && permission.text != "" then Str(permission.text)
      else if USAGE_DESCRIPTION_KEY in m && Truthy(m[USAGE_DESCRIPTION_KEY]) then m[USAGE_DESCRIPTION_KEY]
      else Str(NFC_READER);
    m[USAGE_DESCRIPTION_KEY := description]
  }

  /** The reader-session formats to require: only TAG when NDEF is explicitly excluded. */
  function NfcFormats(includeNdefEntitlement: Option<bool>): (r: seq<string>)
    ensures "TAG" in r
    ensures "NDEF" in r <==> includeNdefEntitlement != Some(false)
    ensures forall x :: x in r ==> x == "TAG" || x == "NDEF"
    ensures r[|r| - 1] == "TAG"
    ensures NoDuplicates(r)
  {
    if includeNdefEntitlement == Some(false) then ["TAG"] else ["NDEF", "TAG"]
  }

  /** One plist document (Info.plist or the entitlements file), edited in place. */
  class PlistDocument {
    var entries: map<string, Value>

    constructor (entries: map<string, Value>)
      ensures this.entries == entries
    {
      this.entries := entries;
    }

    /** `addValuesToArray`: push the values onto the array at `key`, then drop repeats. */
    method AddValuesToArray(key: string, values: Option<seq<string>>)
      modifies this
      ensures entries == Merged(old(entries), key, values)
    {
      if values.None? || values.value == [] {
        return;
      }
      if !(key in entries && entries[key].Arr?) {
        entries := entries[key := Arr([])];
      }
      entries := entries[key := Arr(entries[key].items + values.value)];
      entries := entries[key := Arr(Dedupe(entries[key].items))];
      if entries[key].items == [] {
        entries := entries - {key};
      }
    }

    /** The Info.plist callback of `withIosPermission`. */
    method SetUsageDescription(permission: NfcPermission)
      modifies this
      ensures entries == Described(old(entries), permission)
    {
      var existing := if USAGE_DESCRIPTION_KEY in entries then Some(entries[USAGE_DESCRIPTION_KEY]) else None;
      if permission.PermissionText? && permission.text != "" {
        entries := entries[USAGE_DESCRIPTION_KEY := Str(permission.text)];
      } else if existing.Some? && Truthy(existing.value) {
        entries := entries[USAGE_DESCRIPTION_KEY := existing.value];
      } else {
        entries := entries[USAGE_DESCRIPTION_KEY := Str(NFC_READER)];
      }
    }

    /** The entitlements callback of `withIosNfcEntitlement`. */
    method AddNfcFormats(includeNdefEntitlement: Option<bool>)
      modifies this
      ensures entries == Merged(old(entries), FORMATS_KEY, Some(NfcFormats(includeNdefEntitlement)))
    {
      var formats := ["NDEF", "TAG"];
      if includeNdefEntitlement == Some(false) {
        formats := ["TAG"];
      }
      AddValuesToArray(FORMATS_KEY, Some(formats));
    }

    /** The Info.plist callback of `withIosNfcSelectIdentifiers`; an absent list counts as empty. */
    method AddSelectIdentifiers(selectIdentifiers: Option<seq<string>>)
      modifies this
      ensures entries == Merged(old(entries), SELECT_IDENTIFIERS_KEY, Some(selectIdentifiers.GetOr([])))
    {
      AddValuesToArray(SELECT_IDENTIFIERS_KEY, Some(selectIdentifiers.GetOr([])));
    }

    /** The Info.plist callback of `withIosNfcSystemCodes`; an absent list counts as empty. */
    method AddSystemCodes(systemCodes: Option<seq<string>>)
      modifies this
      ensures entries == Merged(old(entries), SYSTEM_CODES_KEY, Some(systemCodes.GetOr([])))
    {
      AddValuesToArray(SYSTEM_CODES_KEY, Some(systemCodes.GetOr([])));
    }
  }

  // ---------------------------------------------------------------------
  // Properties of the set-union merge
  // ---------------------------------------------------------------------

  lemma {:induction false} IndexOfInPrefix(s: seq<string>, t: seq<string>, x: string)
    requires x in s
    ensures x in s + t && IndexOf(s + t, x) == IndexOf(s, x)
  {
    if s[0] != x {
      assert (s + t)[1..] == s[1..] + t;
      IndexOfInPrefix(s[1..], t, x);
    }
  }

  lemma IndexOfAfterPrefix(s: seq<string>, x: string)
    requires x !in s
    ensures x in s + [x] && IndexOf(s + [x], x) == |s|
  {
  }

  /** The elements of `r` occur in `s`, in the order of their first occurrence there. */
  predicate FirstOccurrenceOrdered(s: seq<string>, r: seq<string>) {
    forall i, j :: 0 <= i < j < |r| ==> r[i] in s && r[j] in s && IndexOf(s, r[i]) < IndexOf(s, r[j])
  }

  /** The distinct elements come out in the order of their first occurrence in the input. */
  lemma {:induction false} DedupeKeepsFirstOccurrenceOrder(s: seq<string>)
    ensures FirstOccurrenceOrdered(s, Dedupe(s))
    decreases |s|
  {
    if s != [] {
      var p := s[..|s| - 1];
      var x := s[|s| - 1];
      assert s == p + [x];
      DedupeKeepsFirstOccurrenceOrder(p);
      var d := Dedupe(p);
      forall y | y in d ensures IndexOf(s, y) == IndexOf(p, y) {
        IndexOfInPrefix(p, [x], y);
      }
      if x !in d {
        IndexOfAfterPrefix(p, x);
        forall y | y in d ensures IndexOf(p, y) < |p| { }
      }
    }
  }

  /** Two such lists start with the same element: the one that occurs first in `s`. */
  lemma FirstOccurrenceHeadsAgree(s: seq<string>, r: seq<string>, d: seq<string>)
    requires r != [] && d != []
    requires forall x :: x in r <==> x in d
    requires forall x :: x in r ==> x in s
    requires FirstOccurrenceOrdered(s, r) && FirstOccurrenceOrdered(s, d)
    ensures r[0] == d[0]
  {
    assert r[0] in d && d[0] in r;
    var j :| 0 <= j < |d| && d[j] == r[0];
    var i :| 0 <= i < |r| && r[i] == d[0];
    var first, other := IndexOf(s, r[0]), IndexOf(s, d[0]);
    assert i > 0 ==> first < other;
    assert j > 0 ==> other < first;
  }

  /** Two repeat-free lists with the same elements, both in first-occurrence order of `s`, are equal. */
  lemma {:induction false} FirstOccurrenceOrderUnique(s: seq<string>, r: seq<string>, d: seq<string>)
    requires NoDuplicates(r) && NoDuplicates(d)
    requires forall x :: x in r <==> x in d
    requires forall x :: x in r ==> x in s
    requires FirstOccurrenceOrdered(s, r) && FirstOccurrenceOrdered(s, d)
    ensures r == d
    decreases |r|
  {
    assert d != [] ==> d[0] in d;
    if r != [] {
      assert r[0] in d;
      FirstOccurrenceHeadsAgree(s, r, d);
      forall x ensures x in r[1..] <==> x in d[1..] {
        assert x in r[1..] <==> x in r && x != r[0];
        assert x in d[1..] <==> x in d && x != d[0];
      }
      FirstOccurrenceOrderUnique(s, r[1..], d[1..]);
      assert r == [r[0]] + r[1..] && d == [d[0]] + d[1..];
    }
  }

  /**
   * `Dedupe` is the only list without repeats that holds exactly the
   * elements of `s` in the order of their first occurrence.
   */
  lemma DedupeCharacterized(s: seq<string>, r: seq<string>)
    ensures r == Dedupe(s) <==>
      NoDuplicates(r) && (forall x :: x in r <==> x in s) && FirstOccurrenceOrdered(s, r)
  {
    DedupeKeepsFirstOccurrenceOrder(s);
    if NoDuplicates(r) && (forall x :: x in r <==> x in s) && FirstOccurrenceOrdered(s, r) {
      FirstOccurrenceOrderUnique(s, r, Dedupe(s));
    }
  }

  /** A list without repeats is its own deduplication. */
  lemma {:induction false} DedupeOfDistinct(s: seq<string>)
    requires NoDuplicates(s)
    ensures Dedupe(s) == s
    decreases |s|
  {
    if s != [] {
      var p := s[..|s| - 1];
      assert NoDuplicates(p);
      DedupeOfDistinct(p);
      assert s[|s| - 1] !in p;
      assert s == p + [s[|s| - 1]];
    }
  }

  /** Appending only elements already present changes nothing. */
  lemma {:induction false} DedupeAbsorbs(a: seq<string>, b: seq<string>)
    requires forall x :: x in b ==> x in a
    ensures Dedupe(a + b) == Dedupe(a)
    decreases |b|
  {
    if b == [] {
      assert a + b == a;
    } else {
      var b' := b[..|b| - 1];
      assert (a + b)[..|a + b| - 1] == a + b';
      DedupeAbsorbs(a, b');
      assert b[|b| - 1] in b && b[|b| - 1] in a + b';
    }
  }

  /** Deduplicating a longer list never reorders what the shorter list already produced. */
  lemma {:induction false} DedupePrefix(a: seq<string>, b: seq<string>)
    ensures |Dedupe(a)| <= |Dedupe(a + b)| && Dedupe(a + b)[..|Dedupe(a)|] == Dedupe(a)
    decreases |b|
  {
    if b == [] {
      assert a + b == a;
    } else {
      var b' := b[..|b| - 1];
      assert (a + b)[..|a + b| - 1] == a + b';
      DedupePrefix(a, b');
    }
  }

  /** After a non-empty merge into a repeat-free array, the array starts with the old array unchanged. */
  lemma MergeKeepsPriorArray(m: map<string, Value>, key: string, values: seq<string>)
    requires key in m && m[key].Arr? && NoDuplicates(m[key].items)
    requires values != []
    ensures var r := Merged(m, key, Some(values));
      |m[key].items| <= |r[key].items| && r[key].items[..|m[key].items|] == m[key].items
  {
    DedupeOfDistinct(m[key].items);
    DedupePrefix(m[key].items, values);
  }

  /** After a non-empty merge the array holds the prior elements and the values in first-occurrence order. */
  lemma MergedOrder(m: map<string, Value>, key: string, values: seq<string>)
    requires values != []
    ensures FirstOccurrenceOrdered(PriorItems(m, key) + values, Merged(m, key, Some(values))[key].items)
  {
    DedupeKeepsFirstOccurrenceOrder(PriorItems(m, key) + values);
  }

  /** Merging values that are all already present in a repeat-free array is a no-op. */
  lemma MergeAlreadyPresent(m: map<string, Value>, key: string, values: seq<string>)
    requires key in m && m[key].Arr? && NoDuplicates(m[key].items)
    requires forall x :: x in values ==> x in m[key].items
    ensures Merged(m, key, Some(values)) == m
  {
    if values != [] {
      DedupeAbsorbs(m[key].items, values);
      DedupeOfDistinct(m[key].items);
      assert m[key := Arr(m[key].items)] == m;
    }
  }

  /** Merging the same values twice gives the same dictionary as merging them once. */
  lemma MergeIdempotent(m: map<string, Value>, key: string, values: Option<seq<string>>)
    ensures Merged(Merged(m, key, values), key, values) == Merged(m, key, values)
  {
    if values.Some? && values.value != [] {
      MergeAlreadyPresent(Merged(m, key, values), key, values.value);
    }
  }

  /** Merges into two different keys commute. */
  lemma MergedCommute(m: map<string, Value>, k1: string, v1: Option<seq<string>>, k2: string, v2: Option<seq<string>>)
    requires k1 != k2
    ensures Merged(Merged(m, k1, v1), k2, v2) == Merged(Merged(m, k2, v2), k1, v1)
  {
    assert PriorItems(Merged(m, k1, v1), k2) == PriorItems(m, k2);
    assert PriorItems(Merged(m, k2, v2), k1) == PriorItems(m, k1);
  }

  /** A merge into any key but the usage description's commutes with setting the description. */
  lemma DescribedAfterMerged(m: map<string, Value>, key: string, values: Option<seq<string>>, permission: NfcPermission)
    requires key != USAGE_DESCRIPTION_KEY
    ensures Described(Merged(m, key, values), permission) == Merged(Described(m, permission), key, values)
  {
    assert PriorItems(Described(m, permission), key) == PriorItems(m, key);
  }

  /** Re-running the usage-description mutator with the same option changes nothing. */
  lemma DescribedIdempotent(m: map<string, Value>, permission: NfcPermission)
    ensures Described(Described(m, permission), permission) == Described(m, permission)
  {
  }

  /** On an entitlements file without a formats array, the array becomes exactly the selected formats. */
  lemma FormatsOnFreshEntitlements(m: map<string, Value>, includeNdefEntitlement: Option<bool>)
    requires FORMATS_KEY !in m || !m[FORMATS_KEY].Arr?
    ensures var r := Merged(m, FORMATS_KEY, Some(NfcFormats(includeNdefEntitlement)));
      r[FORMATS_KEY] == if includeNdefEntitlement == Some(false) then Arr(["TAG"]) else Arr(["NDEF", "TAG"])
  {
  }
}
