/**
 * The Android-manifest side of the NFC configuration plugin: rendering
 * intent-filter specifications into manifest nodes that carry the
 * `data-generated` sentinel, and replacing the previously generated
 * filters of the main activity with freshly rendered ones.
 */
module Manifest {
  import opened Wrappers

  /** The sentinel attribute marking nodes this plugin generated. */
  const GENERATED_TAG := "data-generated"
  const AUTO_VERIFY := "android:autoVerify"
  const ANDROID_NAME := "android:name"
  const ATTRIBUTE_PREFIX := "android:"
  const NFC_ACTION_PREFIX := "android.nfc.action."
  const CATEGORY_PREFIX := "android.intent.category."

  /**
   * A manifest node in the host's parsed-XML form: an optional attribute
   * object (the `$` key) and named lists of child nodes.
   */
  datatype Element = Element(attrs: Option<map<string, string>>, children: map<string, seq<Element>>)

  /** A field that accepts one item or an array of items. */
  datatype OneOrMany<T> = One(item: T) | Many(items: seq<T>)

  /**
   * One entry of the `intentFilters` option. A `None` data entry is a falsy
   * value (`undefined`, `null`); a `None` or empty category is falsy too.
   */
  datatype IntentFilterSpec = IntentFilterSpec(
    action: string,
    autoVerify: bool,
    data: OneOrMany<Option<map<string, string>>>,
    category: OneOrMany<Option<string>>)

  /** `value.$?.[GENERATED_TAG] === 'true'`. */
  predicate IsGenerated(e: Element) {
    e.attrs.Some? && GENERATED_TAG in e.attrs.value && e.attrs.value[GENERATED_TAG] == "true"
  }

  /** `Array.isArray(x) ? x : [x]`. */
  function AsList<T>(x: OneOrMany<T>): seq<T> {
    match x
    case One(item) => [item]
    case Many(items) => items
  }

  /** A node with attributes and no children. */
  function Leaf(attrs: map<string, string>): Element {
    Element(Some(attrs), map[])
  }

  // ---------------------------------------------------------------------
  // Rendering
  // ---------------------------------------------------------------------

  /** `.filter(Boolean)` on data entries: the objects, in order. */
  function PresentData(entries: seq<Option<map<string, string>>>): (r: seq<map<string, string>>)
    ensures |r| == |entries| - multiset(entries)[None]
    ensures forall d :: d in r <==> Some(d) in entries
  {
    if entries == [] then []
    else
      assert entries == [entries[0]] + entries[1..];
      var rest := PresentData(entries[1..]);
      match entries[0]
      case None => rest
      case Some(d) => [d] + rest
  }

  /** `.filter(Boolean)` on categories: the non-empty strings, in order. */
  function PresentCategories(entries: seq<Option<string>>): (r: seq<string>)
    ensures |r| == |entries| - multiset(entries)[None] - multiset(entries)[Some("")]
    ensures forall c :: c in r <==> c != "" && Some(c) in entries
  {
    if entries == [] then []
    else
      assert entries == [entries[0]] + entries[1..];
      var rest := PresentCategories(entries[1..]);
      if entries[0].None? || entries[0].value == "" then rest else [entries[0].value] + rest
  }

  /** `filter(Boolean)` on data entries distributes over concatenation: order and repeats are kept. */
  lemma {:induction false} PresentDataAppend(a: seq<Option<map<string, string>>>, b: seq<Option<map<string, string>>>)
    ensures PresentData(a + b) == PresentData(a) + PresentData(b)
  {
    if a == [] {
      assert a + b == b;
    } else {
      assert (a + b)[1..] == a[1..] + b;
      PresentDataAppend(a[1..], b);
    }
  }

  /** On one entry, `filter(Boolean)` drops a falsy entry and keeps an object. */
  lemma PresentDataSingle(x: Option<map<string, string>>)
    ensures PresentData([x]) == if x.None? then [] else [x.value]
  {
  }

  /** `filter(Boolean)` on categories distributes over concatenation: order and repeats are kept. */
  lemma {:induction false} PresentCategoriesAppend(a: seq<Option<string>>, b: seq<Option<string>>)
    ensures PresentCategories(a + b) == PresentCategories(a) + PresentCategories(b)
  {
    if a == [] {
      assert a + b == b;
    } else {
      assert (a + b)[1..] == a[1..] + b;
      PresentCategoriesAppend(a[1..], b);
    }
  }

  /** On one entry, `filter(Boolean)` drops `undefined` and `""` and keeps any other string. */
  lemma PresentCategoriesSingle(x: Option<string>)
    ensures PresentCategories([x]) == if x.None? || x.value == "" then [] else [x.value]
  {
  }

  lemma PrefixInjective(a: string, b: string)
    requires ATTRIBUTE_PREFIX + a == ATTRIBUTE_PREFIX + b
    ensures a == b
  {
    assert a == (ATTRIBUTE_PREFIX + a)[|ATTRIBUTE_PREFIX|..];
    assert b == (ATTRIBUTE_PREFIX + b)[|ATTRIBUTE_PREFIX|..];
  }

  /** The `reduce` that renames every key `k` of a data entry to `android:k`. */
  function PrefixAttributes(datum: map<string, string>): (r: map<string, string>)
    ensures r.Keys == set k | k in datum :: ATTRIBUTE_PREFIX + k
    ensures forall k :: k in datum ==> r[ATTRIBUTE_PREFIX + k] == datum[k]
  {
    forall a, b | a in datum && b in datum && ATTRIBUTE_PREFIX + a == ATTRIBUTE_PREFIX + b
      ensures a == b
    {
      PrefixInjective(a, b);
    }
    map k | k in datum :: ATTRIBUTE_PREFIX + k := datum[k]
  }

  /** `renderIntentFilterData`: one `<data>` node per truthy entry. */
  function RenderIntentFilterData(data: OneOrMany<Option<map<string, string>>>): (r: seq<Element>)
    ensures |r| == |AsList(data)| - multiset(AsList(data))[None]
    ensures forall k :: 0 <= k < |r| ==>
      var datum := PresentData(AsList(data))[k];
      && Some(datum) in AsList(data)
      && r[k].children == map[]
      && r[k].attrs.Some?
      && r[k].attrs.value.Keys == (set key | key in datum :: ATTRIBUTE_PREFIX + key)
      && forall key :: key in datum ==> r[k].attrs.value[ATTRIBUTE_PREFIX + key] == datum[key]
  {
    var present := PresentData(AsList(data));
    seq(|present|, k requires 0 <= k < |present| => Leaf(PrefixAttributes(present[k])))
  }

  /** `renderIntentFilterCategory`: one `<category>` node per truthy entry. */
  function RenderIntentFilterCategory(category: OneOrMany<Option<string>>): (r: seq<Element>)
    ensures |r| == |AsList(category)| - multiset(AsList(category))[None] - multiset(AsList(category))[Some("")]
    ensures forall k :: 0 <= k < |r| ==>
      var name := PresentCategories(AsList(category))[k];
      && name != "" && Some(name) in AsList(category)
      && r[k] == Leaf(map[ANDROID_NAME := CATEGORY_PREFIX + name])
  {
    var present := PresentCategories(AsList(category));
    seq(|present|, k requires 0 <= k < |present| => Leaf(map[ANDROID_NAME := CATEGORY_PREFIX + present[k]]))
  }

  /** The `<intent-filter>` node for one specification. */
  function RenderNfcIntentFilter(spec: IntentFilterSpec): (e: Element)
    ensures IsGenerated(e)
    ensures AUTO_VERIFY in e.attrs.value <==> spec.autoVerify
    ensures AUTO_VERIFY in e.attrs.value ==> e.attrs.value[AUTO_VERIFY] == "true"
    ensures e.attrs.value.Keys <= {AUTO_VERIFY, GENERATED_TAG}
    ensures e.children.Keys == {"action", "data", "category"}
    ensures e.children["action"] == [Leaf(map[ANDROID_NAME := NFC_ACTION_PREFIX + spec.action])]
    ensures e.children["data"] == RenderIntentFilterData(spec.data)
    ensures e.children["category"] == RenderIntentFilterCategory(spec.category)
  {
    var attrs := if spec.autoVerify then map[AUTO_VERIFY := "true", GENERATED_TAG := "true"]
                 else map[GENERATED_TAG := "true"];
    Element(Some(attrs), map[
      "action" := [Leaf(map[ANDROID_NAME := NFC_ACTION_PREFIX + spec.action])],
      "data" := RenderIntentFilterData(spec.data),
      "category" := RenderIntentFilterCategory(spec.category)])
  }

  /** `renderNfcIntentFilters`: one tagged node per specification, in order. */
  function RenderNfcIntentFilters(specs: seq<IntentFilterSpec>): (r: seq<Element>)
    ensures |r| == |specs|
    ensures forall i :: 0 <= i < |r| ==>
      && IsGenerated(r[i])
      && (AUTO_VERIFY in r[i].attrs.value <==> specs[i].autoVerify)
      && (AUTO_VERIFY in r[i].attrs.value ==> r[i].attrs.value[AUTO_VERIFY] == "true")
      && r[i].attrs.value.Keys <= {AUTO_VERIFY, GENERATED_TAG}
      && r[i].children.Keys == {"action", "data", "category"}
      && r[i].children["action"] == [Leaf(map[ANDROID_NAME := NFC_ACTION_PREFIX + specs[i].action])]
      && r[i].children["data"] == RenderIntentFilterData(specs[i].data)
      && r[i].children["category"] == RenderIntentFilterCategory(specs[i].category)
  {
    seq(|specs|, i requires 0 <= i < |specs| => RenderNfcIntentFilter(specs[i]))
  }

  // ---------------------------------------------------------------------
  // Strip and replace
  // ---------------------------------------------------------------------

  /** The `filter` that drops every node tagged as generated, keeping the rest in order. */
  function Strip(filters: seq<Element>): (r: seq<Element>)
    ensures |r| <= |filters|
    ensures forall e :: e in r <==> e in filters && !IsGenerated(e)
  {
    if filters == [] then []
    else
      assert filters == [filters[0]] + filters[1..];
      var rest := Strip(filters[1..]);
      if IsGenerated(filters[0]) then rest else [filters[0]] + rest
  }

  /**
   * The new `intent-filter` list of the main activity (`None` when the key
   * is absent), given the list before, the host's own rendered filters and
   * the NFC filter specifications.
   */
  function UpdatedIntentFilters(list: Option<seq<Element>>, foreign: seq<Element>, specs: seq<IntentFilterSpec>)
    : (r: Option<seq<Element>>)
    ensures list.None? ==> r.None?
    ensures list.Some? && |foreign| + |specs| == 0 ==> r == Some(Strip(list.value))
    ensures list.Some? && |foreign| + |specs| != 0 ==>
      r == Some(Strip(list.value) + foreign + RenderNfcIntentFilters(specs))
  {
    var stripped := if list.Some? && |list.value| > 0 then Some(Strip(list.value)) else list;
    if |foreign| + |specs| == 0 then stripped
    else match stripped
      case None => None
      case Some(kept) => Some(kept + foreign + RenderNfcIntentFilters(specs))
  }

  datatype ManifestError = MainActivityNotFound

  /** The main activity node of the manifest; only its `intent-filter` list is edited. */
  class ActivityNode {
    var intentFilters: Option<seq<Element>>

    constructor (intentFilters: Option<seq<Element>>)
      ensures this.intentFilters == intentFilters
    {
      this.intentFilters := intentFilters;
    }
  }

  /**
   * `addNfcIntentFilters`. `mainActivity` is the result of the host's
   * main-activity lookup, `None` when the lookup throws.
   */
  method AddNfcIntentFilters(mainActivity: Option<ActivityNode>, foreign: seq<Element>, specs: seq<IntentFilterSpec>)
    returns (outcome: Outcome<ManifestError>)
    modifies if mainActivity.Some? then {mainActivity.value} else {}
    ensures outcome == if mainActivity.None? then Fail(MainActivityNotFound) else Pass
    ensures mainActivity.Some? ==>
      mainActivity.value.intentFilters == UpdatedIntentFilters(old(mainActivity.value.intentFilters), foreign, specs)
  {
    if mainActivity.None? {
      return Fail(MainActivityNotFound);
    }
    var activity := mainActivity.value;
    if activity.intentFilters.Some? && |activity.intentFilters.value| > 0 {
      activity.intentFilters := Some(Strip(activity.intentFilters.value));
    }
    if |foreign| + |specs| == 0 {
      return Pass;
    }
    if activity.intentFilters.Some? {
      activity.intentFilters := Some(activity.intentFilters.value + foreign + RenderNfcIntentFilters(specs));
    }
    return Pass;
  }

  // ---------------------------------------------------------------------
  // Properties of strip and replace
  // ---------------------------------------------------------------------

  /** Stripping distributes over concatenation, so it keeps the relative order of what it keeps. */
  lemma {:induction false} StripAppend(a: seq<Element>, b: seq<Element>)
    ensures Strip(a + b) == Strip(a) + Strip(b)
  {
    if a == [] {
      assert a + b == b;
    } else {
      assert (a + b)[1..] == a[1..] + b;
      StripAppend(a[1..], b);
    }
  }

  /** A list with no generated node is left as it is. */
  lemma {:induction false} StripKeepsUserFilters(s: seq<Element>)
    requires forall e :: e in s ==> !IsGenerated(e)
    ensures Strip(s) == s
  {
    if s != [] {
      assert s == [s[0]] + s[1..];
      StripKeepsUserFilters(s[1..]);
    }
  }

  /** A list of generated nodes is removed entirely. */
  lemma {:induction false} StripRemovesGenerated(s: seq<Element>)
    requires forall e :: e in s ==> IsGenerated(e)
    ensures Strip(s) == []
  {
    if s != [] {
      assert s == [s[0]] + s[1..];
      StripRemovesGenerated(s[1..]);
    }
  }

  /** Stripping twice is stripping once. */
  lemma StripIdempotent(s: seq<Element>)
    ensures Strip(Strip(s)) == Strip(s)
  {
  }

  /** Every rendered NFC filter is removed by the next run's strip. */
  lemma StripRemovesRenderedFilters(specs: seq<IntentFilterSpec>)
    ensures Strip(RenderNfcIntentFilters(specs)) == []
  {
    var r := RenderNfcIntentFilters(specs);
    forall e | e in r ensures IsGenerated(e) {
      var i :| 0 <= i < |r| && r[i] == e;
    }
    StripRemovesGenerated(r);
  }

  /**
   * The user's own filters survive a run: the untagged entries of the old
   * list open the new list, unchanged and in their old order.
   */
  lemma UserFiltersPreserved(list: seq<Element>, foreign: seq<Element>, specs: seq<IntentFilterSpec>)
    ensures var r := UpdatedIntentFilters(Some(list), foreign, specs);
      && r.Some?
      && |Strip(list)| <= |r.value|
      && r.value[..|Strip(list)|] == Strip(list)
      && forall e :: e in list && !IsGenerated(e) ==> e in r.value
  {
  }

  /** What the next run strips from a list is exactly what a run added: the NFC filters all go. */
  lemma RerunRemovesPreviousNfcFilters(list: seq<Element>, foreign: seq<Element>, specs: seq<IntentFilterSpec>)
    ensures Strip(UpdatedIntentFilters(Some(list), foreign, specs).value) == Strip(list) + Strip(foreign)
  {
    StripIdempotent(list);
    if |foreign| + |specs| == 0 {
      assert foreign == [] && Strip(foreign) == [];
      assert Strip(list) + Strip(foreign) == Strip(list);
    } else {
      StripAppend(Strip(list) + foreign, RenderNfcIntentFilters(specs));
      StripAppend(Strip(list), foreign);
      StripRemovesRenderedFilters(specs);
    }
  }

  /** Running the edit twice with the same input equals running it once, when the host's filters are tagged. */
  lemma RerunIdempotent(list: Option<seq<Element>>, foreign: seq<Element>, specs: seq<IntentFilterSpec>)
    requires forall e :: e in foreign ==> IsGenerated(e)
    ensures var once := UpdatedIntentFilters(list, foreign, specs);
      UpdatedIntentFilters(once, foreign, specs) == once
  {
    if list.Some? {
      StripRemovesGenerated(foreign);
      if |foreign| + |specs| == 0 {
        StripIdempotent(list.value);
      } else {
        var rendered := RenderNfcIntentFilters(specs);
        RerunRemovesPreviousNfcFilters(list.value, foreign, specs);
        assert Strip(list.value) + Strip(foreign) == Strip(list.value);
      }
    }
  }

  /** If some host filter is untagged, every further run appends another copy of it. */
  lemma UntaggedForeignFiltersAccumulate(list: seq<Element>, foreign: seq<Element>, specs: seq<IntentFilterSpec>)
    requires exists e :: e in foreign && !IsGenerated(e)
    ensures var once := UpdatedIntentFilters(Some(list), foreign, specs);
      |UpdatedIntentFilters(once, foreign, specs).value| > |once.value|
  {
    RerunRemovesPreviousNfcFilters(list, foreign, specs);
    var e :| e in foreign && !IsGenerated(e);
    assert e in Strip(foreign);
  }

  /** A later run with nothing to add removes the NFC filters of the earlier run and adds none. */
  lemma ClearingRunRemovesNfcFilters(list: seq<Element>, foreign: seq<Element>, specs: seq<IntentFilterSpec>)
    requires forall e :: e in foreign ==> IsGenerated(e)
    ensures var once := UpdatedIntentFilters(Some(list), foreign, specs);
      UpdatedIntentFilters(once, [], []) == Some(Strip(list))
  {
    StripRemovesGenerated(foreign);
    var once := UpdatedIntentFilters(Some(list), foreign, specs);
    if |foreign| + |specs| == 0 {
      StripIdempotent(list);
      assert once == Some(Strip(list));
    } else {
      RerunRemovesPreviousNfcFilters(list, foreign, specs);
      assert Strip(once.value) == Strip(list);
    }
    assert Strip([]) == [];
  }

  /** An `NDEF_DISCOVERED` filter with category `DEFAULT`, added to an empty list. */
  lemma NdefDiscoveredScenario()
    ensures var spec := IntentFilterSpec("NDEF_DISCOVERED", false, One(None), One(Some("DEFAULT")));
      UpdatedIntentFilters(Some([]), [], [spec]) == Some([Element(
        Some(map[GENERATED_TAG := "true"]),
        map[
          "action" := [Leaf(map[ANDROID_NAME := "android.nfc.action.NDEF_DISCOVERED"])],
          "data" := [],
          "category" := [Leaf(map[ANDROID_NAME := "android.intent.category.DEFAULT"])]])])
  {
    var spec := IntentFilterSpec("NDEF_DISCOVERED", false, One(None), One(Some("DEFAULT")));
    assert AsList(spec.data) == [None] && PresentData([None]) == [];
    assert AsList(spec.category) == [Some("DEFAULT")];
    assert PresentCategories([Some("DEFAULT")]) == ["DEFAULT"];
    assert CATEGORY_PREFIX + "DEFAULT" == "android.intent.category.DEFAULT";
    assert NFC_ACTION_PREFIX + "NDEF_DISCOVERED" == "android.nfc.action.NDEF_DISCOVERED";
    var categories := RenderIntentFilterCategory(spec.category);
    assert |categories| == 1 && categories[0] == Leaf(map[ANDROID_NAME := "android.intent.category.DEFAULT"]);
    assert categories == [Leaf(map[ANDROID_NAME := "android.intent.category.DEFAULT"])];
    var node := Element(
      Some(map[GENERATED_TAG := "true"]),
      map[
        "action" := [Leaf(map[ANDROID_NAME := "android.nfc.action.NDEF_DISCOVERED"])],
        "data" := [],
        "category" := categories]);
    assert RenderNfcIntentFilter(spec) == node;
    assert RenderNfcIntentFilters([spec]) == [node];
    assert [] + [] + [node] == [node];
    assert UpdatedIntentFilters(Some([]), [], [spec]) == Some([node]);
  }
}
