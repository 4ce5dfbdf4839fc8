/**
 * Packing recommendations from similar trips: the LIKE pattern built from a
 * weather description, the item names read from a packing-list document, the
 * per-trip merge of those names, the trip counts and the ranked
 * recommendations, and their keyword categories.
 *
 * The warehouse queries are replaced by their results: the rows of the
 * packing-list table become a parameter, with each document already decoded.
 */
module PackingRecommender {
  import opened Text
  import opened Json

  // ---------------------------------------------------------------------------
  // The LIKE pattern for the weather description (find_similar_trips)
  // ---------------------------------------------------------------------------

  /** `'%' + '%'.join(words) + '%'`, or `'%'` alone when the description has no words. */
  function DescriptionPattern(description: string): (p: string)
    ensures |p| >= 1 && p[0] == '%' && p[|p| - 1] == '%'
    ensures p == "%" <==> forall k :: 0 <= k < |description| ==> IsSpace(description[k])
  {
    SplitSpec(description);
    var words := Split(description);
    if words != [] then
      assert |Join("%", words)| >= 1 by {
        JoinNonEmpty("%", words);
      }
      "%" + Join("%", words) + "%"
    else "%"
  }

  lemma {:induction false} JoinNonEmpty(sep: string, ws: seq<string>)
    requires ws != [] && ws[0] != []
    ensures |Join(sep, ws)| >= |ws[0]|
  {
  }

  /** Every character of a word is a character of the concatenation. */
  lemma {:induction false} ConcatHolds(ws: seq<string>, i: nat, k: nat)
    requires i < |ws| && k < |ws[i]|
    ensures ws[i][k] in Concat(ws)
  {
    if i > 0 {
      ConcatHolds(ws[1..], i - 1, k);
      assert ws[1..][i - 1] == ws[i];
    } else {
      assert Concat(ws) == ws[0] + Concat(ws[1..]);
      assert Concat(ws)[k] == ws[0][k];
    }
  }

  /** The words of a description without '%' hold no '%'. */
  lemma WordsWithoutWildcard(description: string)
    requires '%' !in description
    ensures forall i :: 0 <= i < |Split(description)| ==> '%' !in Split(description)[i]
  {
    SplitSpec(description);
    var words := Split(description);
    forall i | 0 <= i < |words| ensures '%' !in words[i] {
      if '%' in words[i] {
        var k :| 0 <= k < |words[i]| && words[i][k] == '%';
        ConcatHolds(words, i, k);
      }
    }
  }

  /** For a description without '%', deleting the wildcards from the pattern
      leaves exactly the description's non-whitespace characters. */
  lemma PatternHoldsTheWords(description: string)
    requires '%' !in description
    ensures Remove('%', DescriptionPattern(description)) == RemoveSpaces(description)
  {
    SplitSpec(description);
    var words := Split(description);
    assert Remove('%', "%") == [] by {
      assert "%"[1..] == [];
    }
    if words != [] {
      WordsWithoutWildcard(description);
      RemoveFromJoin('%', words);
      RemoveAppend('%', "%", Join("%", words));
      RemoveAppend('%', "%" + Join("%", words), "%");
    }
  }

  /** For a description without '%', the pattern is the words of `split()`
      with one wildcard before, between and after them: cutting it at every
      '%' gives an empty piece, the words in order, and an empty piece. */
  lemma PatternSplitsIntoWords(description: string)
    requires '%' !in description
    ensures SplitOn('%', DescriptionPattern(description)) == [[]] + Split(description) + [[]]
  {
    var words := Split(description);
    var p := DescriptionPattern(description);
    if words == [] {
      assert p == "%";
      assert SplitOn('%', p) == [[]] + SplitOn('%', p[1..]);
      assert p[1..] == [];
    } else {
      WordsWithoutWildcard(description);
      SplitOnJoin('%', words);
      assert p == "%" + (Join("%", words) + "%");
      assert p[1..] == Join("%", words) + "%";
    }
  }

  // ---------------------------------------------------------------------------
  // Item extraction (extract_items_from_packing_list)
  // ---------------------------------------------------------------------------

  /** An item: a dict whose "name", when present, is a string. */
  predicate IsItem(j: Json) {
    j.JObject? && ("name" in j.fields ==> j.fields["name"].JString?)
  }

  predicate IsItemList(j: Json) {
    IsEmptyIterable(j) || (j.JArray? && forall k :: 0 <= k < |j.elems| ==> IsItem(j.elems[k]))
  }

  /** A category: a dict whose "items", when present, is a list of items. */
  predicate IsCategory(j: Json) {
    j.JObject? && ("items" in j.fields ==> IsItemList(j.fields["items"]))
  }

  predicate IsCategoryList(j: Json) {
    IsEmptyIterable(j) || (j.JArray? && forall k :: 0 <= k < |j.elems| ==> IsCategory(j.elems[k]))
  }

  /**
   * The decoded documents the reader gets through without raising: `True`
   * and non-zero numbers fail the `in` test, a list holding the string
   * "categories" or a string containing it has no `.get`, and the categories
   * and items must be dicts with a string name.
   */
  predicate WellShaped(j: Json) {
    match j
    case JNull => true
    case JBool(b) => !b
    case JNumber(n) => n == 0.0
    case JString(s) => !Contains(s, "categories")
    case JArray(elems) => JString("categories") !in elems
    case JObject(fields) => "categories" in fields ==> IsCategoryList(fields["categories"])
  }

  predicate Readable(d: Decoded) {
    d.Decoded? ==> WellShaped(d.value)
  }

  /** The name normalisation `.lower().strip()`. */
  function Normalise(name: string): string {
    Strip(Lower(name))
  }

  // The readers below are total; on the documents WellShaped admits they
  // agree with the source, and ExtractItems accepts no others.

  /** `item.get("name", "")`. */
  function ItemName(item: Json): string {
    var name := Get(item, "name", JString(""));
    if name.JString? then name.s else ""
  }

  /** `category.get("items", [])`, as the items it iterates over. */
  function ItemsOf(category: Json): seq<Json> {
    Elements(Get(category, "items", JArray([])))
  }

  /** The categories the reader walks: none for an undecodable document, a
      falsy one or one without "categories". */
  function Categories(d: Decoded): seq<Json> {
    if d.Undecodable? || !Truthy(d.value) || !HasKey(d.value, "categories") then []
    else Elements(Get(d.value, "categories", JArray([])))
  }

  /** The name an item contributes, normalised. */
  function NameOf(item: Json): string {
    Normalise(ItemName(item))
  }

  /** The non-empty names of the first n items. */
  ghost function NamesAmong(items: seq<Json>, n: int): set<string> {
    set l | 0 <= l < n && l < |items| && NameOf(items[l]) != [] :: NameOf(items[l])
  }

  /** The non-empty names of the items of the first n categories. */
  ghost function NamesInCategories(cats: seq<Json>, n: int): set<string> {
    set k, l | 0 <= k < n && k < |cats| && 0 <= l < |ItemsOf(cats[k])| && NameOf(ItemsOf(cats[k])[l]) != []
      :: NameOf(ItemsOf(cats[k])[l])
  }

  /** The names read from a packing-list document: those of every item of
      every category, normalised, when non-empty. */
  ghost function PackingListItems(d: Decoded): set<string> {
    NamesInCategories(Categories(d), |Categories(d)|)
  }

  lemma NamesAmongStep(items: seq<Json>, j: nat)
    requires j < |items|
    ensures NamesAmong(items, j + 1) == NamesAmong(items, j) + (if NameOf(items[j]) != [] then {NameOf(items[j])} else {})
  {
  }

  lemma NamesInCategoriesStep(cats: seq<Json>, i: nat)
    requires i < |cats|
    ensures NamesInCategories(cats, i + 1) == NamesInCategories(cats, i) + NamesAmong(ItemsOf(cats[i]), |ItemsOf(cats[i])|)
  {
    var items := ItemsOf(cats[i]);
    forall x | x in NamesAmong(items, |items|) ensures x in NamesInCategories(cats, i + 1) {
      var l :| 0 <= l < |items| && NameOf(items[l]) != [] && NameOf(items[l]) == x;
      assert NameOf(ItemsOf(cats[i])[l]) == x;
    }
  }

  /**
   * `extract_items_from_packing_list` on a decoded document: nothing for an
   * undecodable, falsy or category-less document, otherwise the name of every
   * item of every category, lower-cased, stripped and non-empty.
   */
  method ExtractItems(packingList: Decoded) returns (items: set<string>)
    requires Readable(packingList)
    ensures items == PackingListItems(packingList)
    ensures packingList.Undecodable? || !Truthy(packingList.value) ==> items == {}
    ensures packingList.Decoded? && packingList.value.JObject? && "categories" !in packingList.value.fields ==> items == {}
    ensures forall x :: x in items ==> x != [] && Lower(x) == x && Strip(x) == x
  {
    items := {};
    if packingList.Undecodable? {
      return;
    }
    var value := packingList.value;
    if !Truthy(value) || !HasKey(value, "categories") {
      return;
    }
    var categories := Elements(Get(value, "categories", JArray([])));
    assert categories == Categories(packingList);
    for i := 0 to |categories|
      invariant items == NamesInCategories(categories, i)
    {
      var category := categories[i];
      var categoryItems := Elements(Get(category, "items", JArray([])));
      assert categoryItems == ItemsOf(categories[i]);
      ghost var before := items;
      for j := 0 to |categoryItems|
        invariant items == before + NamesAmong(categoryItems, j)
      {
        NamesAmongStep(categoryItems, j);
        var itemName := Strip(Lower(ItemName(categoryItems[j])));
        if itemName != [] {
          items := items + {itemName};
        }
      }
      NamesInCategoriesStep(categories, i);
    }
    forall x | x in items ensures x != [] && Lower(x) == x && Strip(x) == x {
      ExtractedNamesAreNormal(packingList, x);
    }
  }

  /** Every extracted name is lower-case, stripped and non-empty. */
  lemma ExtractedNamesAreNormal(d: Decoded, x: string)
    requires x in PackingListItems(d)
    ensures x != [] && Lower(x) == x && Strip(x) == x
  {
    var cats := Categories(d);
    var k, l :| 0 <= k < |cats| && 0 <= l < |ItemsOf(cats[k])| && NameOf(ItemsOf(cats[k])[l]) == x;
    var raw := ItemName(ItemsOf(cats[k])[l]);
    LowerIdempotent(raw);
    StripKeepsLower(Lower(raw));
    LowerIdempotent(x);
    StripIdempotent(Lower(raw));
  }

  // ---------------------------------------------------------------------------
  // Merge (get_all_packing_lists_for_similar_trips)
  // ---------------------------------------------------------------------------

  /** A row of the packing-list table: a trip id and its decoded document. */
  datatype Row = Row(tripId: string, packingList: Decoded)

  predicate AllReadable(rows: seq<Row>) {
    forall k :: 0 <= k < |rows| ==> Readable(rows[k].packingList)
  }

  /** Each row's trip id with the names its document lists. */
  ghost function Entries(rows: seq<Row>): (es: seq<(string, set<string>)>)
    ensures |es| == |rows|
    ensures forall k :: 0 <= k < |rows| ==> es[k] == (rows[k].tripId, PackingListItems(rows[k].packingList))
  {
    seq(|rows|, k requires 0 <= k < |rows| => (rows[k].tripId, PackingListItems(rows[k].packingList)))
  }

  /** The entries' name sets, combined per trip id in order. */
  function Merge(entries: seq<(string, set<string>)>): map<string, set<string>>
  {
    if entries == [] then map[]
    else
      var merged := Merge(entries[..|entries| - 1]);
      var (id, items) := entries[|entries| - 1];
      if id in merged then merged[id := merged[id] + items] else merged[id := items]
  }

  /** No query at all for an empty id list; otherwise the merge of the rows returned. */
  ghost function MergedItems(ids: seq<string>, rows: seq<Row>): map<string, set<string>>
  {
    if ids == [] then map[] else Merge(Entries(rows))
  }

  /**
   * `get_all_packing_lists_for_similar_trips` after its query: the item names
   * of every row, merged per trip id.
   */
  method MergePackingLists(ids: seq<string>, rows: seq<Row>) returns (tripItems: map<string, set<string>>)
    requires AllReadable(rows)
    ensures tripItems == MergedItems(ids, rows)
    ensures ids == [] ==> tripItems == map[]
  {
    if ids == [] {
      return map[];
    }
    ghost var entries := Entries(rows);
    tripItems := map[];
    for i := 0 to |rows|
      invariant tripItems == Merge(entries[..i])
    {
      assert entries[..i + 1][..i] == entries[..i];
      var row := rows[i];
      var items := ExtractItems(row.packingList);
      if row.tripId in tripItems {
        tripItems := tripItems[row.tripId := tripItems[row.tripId] + items];
      } else {
        tripItems := tripItems[row.tripId := items];
      }
    }
    assert entries[..|rows|] == entries;
  }

  /** The keys are exactly the entries' trip ids. */
  lemma {:induction false} MergeKeys(entries: seq<(string, set<string>)>, id: string)
    ensures id in Merge(entries) <==> exists k :: 0 <= k < |entries| && entries[k].0 == id
  {
    if entries != [] {
      var init := entries[..|entries| - 1];
      MergeKeys(init, id);
      if id in Merge(init) {
        var k :| 0 <= k < |init| && init[k].0 == id;
        assert entries[k] == init[k];
      }
      if exists k :: 0 <= k < |entries| && entries[k].0 == id {
        var k :| 0 <= k < |entries| && entries[k].0 == id;
        if k < |init| {
          assert init[k] == entries[k];
        }
      }
    }
  }

  /** Each trip's set is the union of the sets of all its entries. */
  lemma {:induction false} MergeValues(entries: seq<(string, set<string>)>, id: string, x: string)
    requires id in Merge(entries)
    ensures x in Merge(entries)[id] <==> exists k :: 0 <= k < |entries| && entries[k].0 == id && x in entries[k].1
  {
    var init := entries[..|entries| - 1];
    if id in Merge(init) {
      MergeValues(init, id, x);
      if x in Merge(init)[id] {
        var k :| 0 <= k < |init| && init[k].0 == id && x in init[k].1;
        assert entries[k] == init[k];
      }
    } else {
      MergeKeys(init, id);
    }
    if exists k :: 0 <= k < |entries| && entries[k].0 == id && x in entries[k].1 {
      var k :| 0 <= k < |entries| && entries[k].0 == id && x in entries[k].1;
      if k < |init| {
        assert init[k] == entries[k];
      }
    }
  }

  /** For a non-empty id list, the merged map has a key for each trip id among
      the rows, and a trip's set holds x exactly when one of its rows lists x. */
  lemma MergedItemsSpec(ids: seq<string>, rows: seq<Row>, id: string, x: string)
    requires ids != []
    ensures id in MergedItems(ids, rows) <==> exists k :: 0 <= k < |rows| && rows[k].tripId == id
    ensures id in MergedItems(ids, rows) ==>
      (x in MergedItems(ids, rows)[id] <==> exists k :: 0 <= k < |rows| && rows[k].tripId == id && x in PackingListItems(rows[k].packingList))
  {
    var es := Entries(rows);
    MergeKeys(es, id);
    if id in Merge(es) {
      MergeValues(es, id, x);
    }
  }

  // ---------------------------------------------------------------------------
  // Statistics (generate_item_statistics)
  // ---------------------------------------------------------------------------

  /** One recommended item: its name, the share of similar trips that packed
      it (in percent), that number of trips, and the number of similar trips. */
  datatype Recommendation = Recommendation(itemName: string, percentage: real, tripCount: nat, totalTrips: nat)

  /** The trips among done whose item set holds x. */
  function TripsAmong(similar: map<string, set<string>>, done: set<string>, x: string): set<string> {
    set t | t in done && t in similar && x in similar[t]
  }

  /** The number of similar trips that packed x. */
  function TripCount(similar: map<string, set<string>>, x: string): nat {
    |TripsAmong(similar, similar.Keys, x)|
  }

  /** Every item packed on any of the trips in done. */
  function ItemsAmong(similar: map<string, set<string>>, done: set<string>): set<string> {
    set t, x | t in done && t in similar && x in similar[t] :: x
  }

  function AllItems(similar: map<string, set<string>>): set<string> {
    ItemsAmong(similar, similar.Keys)
  }

  /** `(count / total_trips) * 100`. */
  function Percentage(count: nat, total: nat): real
    requires total > 0
  {
    (count as real / total as real) * 100.0
  }

  /** The items recommended: packed on at least two similar trips and not yet
      on the user's list. */
  predicate Eligible(userItems: set<string>, similar: map<string, set<string>>, x: string) {
    x in AllItems(similar) && x !in userItems && TripCount(similar, x) > 1
  }

  function MakeRecommendation(similar: map<string, set<string>>, x: string): Recommendation
    requires |similar| > 0
  {
    Recommendation(x, Percentage(TripCount(similar, x), |similar|), TripCount(similar, x), |similar|)
  }

  /** A `Counter` read with a missing key as 0. */
  function CountOf(counts: map<string, nat>, x: string): nat {
    if x in counts then counts[x] else 0
  }

  lemma TripsAmongAdd(similar: map<string, set<string>>, done: set<string>, t: string, x: string)
    requires t in similar && t !in done
    ensures |TripsAmong(similar, done + {t}, x)| == |TripsAmong(similar, done, x)| + (if x in similar[t] then 1 else 0)
  {
    if x in similar[t] {
      assert TripsAmong(similar, done + {t}, x) == TripsAmong(similar, done, x) + {t};
    } else {
      assert TripsAmong(similar, done + {t}, x) == TripsAmong(similar, done, x);
    }
  }

  lemma ItemsAmongAdd(similar: map<string, set<string>>, done: set<string>, t: string)
    requires t in similar
    ensures ItemsAmong(similar, done + {t}) == ItemsAmong(similar, done) + similar[t]
  {
    forall x | x in similar[t] ensures x in ItemsAmong(similar, done + {t}) {
      assert t in done + {t} && x in similar[t];
    }
  }

  /** `for item in items: item_trip_counts[item] += 1`. */
  method Tally(counts: map<string, nat>, items: set<string>) returns (tallied: map<string, nat>)
    ensures forall x :: CountOf(tallied, x) == CountOf(counts, x) + (if x in items then 1 else 0)
  {
    tallied := counts;
    var pending := items;
    while pending != {}
      invariant pending <= items
      invariant forall x :: CountOf(tallied, x) == CountOf(counts, x) + (if x in items && x !in pending then 1 else 0)
      decreases |pending|
    {
      var x :| x in pending;
      tallied := tallied[x := CountOf(tallied, x) + 1];
      pending := pending - {x};
    }
  }

  /** The counting loop: for every trip, its items go into `all_items` and each
      raises the item's count by one. */
  method CountTrips(similar: map<string, set<string>>) returns (counts: map<string, nat>, allItems: set<string>)
    ensures allItems == AllItems(similar)
    ensures forall x :: CountOf(counts, x) == TripCount(similar, x)
  {
    counts := map[];
    allItems := {};
    ghost var done: set<string> := {};
    var remaining := similar.Keys;
    while remaining != {}
      invariant remaining <= similar.Keys && done == similar.Keys - remaining
      invariant allItems == ItemsAmong(similar, done)
      invariant forall x :: CountOf(counts, x) == |TripsAmong(similar, done, x)|
      decreases |remaining|
    {
      var t :| t in remaining;
      var items := similar[t];
      ItemsAmongAdd(similar, done, t);
      allItems := allItems + items;
      counts := Tally(counts, items);
      forall x ensures CountOf(counts, x) == |TripsAmong(similar, done + {t}, x)| {
        TripsAmongAdd(similar, done, t, x);
      }
      done := done + {t};
      remaining := remaining - {t};
    }
    assert done == similar.Keys;
  }

  /** No name occurs twice. */
  predicate DistinctNames(recs: seq<Recommendation>) {
    forall i, j :: 0 <= i < j < |recs| ==> recs[i].itemName != recs[j].itemName
  }

  /** Highest percentage first. */
  predicate ByPercentage(recs: seq<Recommendation>) {
    forall i, j :: 0 <= i < j < |recs| ==> recs[i].percentage >= recs[j].percentage
  }

  /** One insertion step of a stable sort, highest percentage first: r goes
      before the first entry with a lower percentage. */
  function InsertByPercentage(r: Recommendation, sorted: seq<Recommendation>): (out: seq<Recommendation>)
    ensures multiset(out) == multiset(sorted) + multiset{r}
    ensures |out| == |sorted| + 1
  {
    if sorted == [] || r.percentage >= sorted[0].percentage then [r] + sorted
    else
      assert sorted == [sorted[0]] + sorted[1..];
      [sorted[0]] + InsertByPercentage(r, sorted[1..])
  }

  /** `list.sort(key=percentage, reverse=True)`: a stable sort, highest first. */
  function SortByPercentage(recs: seq<Recommendation>): (out: seq<Recommendation>)
    ensures multiset(out) == multiset(recs)
    ensures |out| == |recs|
  {
    if recs == [] then []
    else
      assert recs == [recs[0]] + recs[1..];
      InsertByPercentage(recs[0], SortByPercentage(recs[1..]))
  }

  /** Inserting keeps every share at most p when r's share and all of
      sorted's are. */
  lemma InsertBound(r: Recommendation, sorted: seq<Recommendation>, p: real)
    requires r.percentage <= p
    requires forall k :: 0 <= k < |sorted| ==> sorted[k].percentage <= p
    ensures forall k :: 0 <= k < |InsertByPercentage(r, sorted)| ==> InsertByPercentage(r, sorted)[k].percentage <= p
  {
    var out := InsertByPercentage(r, sorted);
    forall k | 0 <= k < |out| ensures out[k].percentage <= p {
      assert out[k] in multiset(sorted) + multiset{r};
      if out[k] != r {
        var m :| 0 <= m < |sorted| && sorted[m] == out[k];
      }
    }
  }

  lemma {:induction false} InsertKeepsOrder(r: Recommendation, sorted: seq<Recommendation>)
    requires ByPercentage(sorted)
    ensures ByPercentage(InsertByPercentage(r, sorted))
  {
    if sorted != [] {
      var tail := sorted[1..];
      assert forall k :: 0 <= k < |tail| ==> tail[k] == sorted[k + 1];
      if r.percentage < sorted[0].percentage {
        InsertKeepsOrder(r, tail);
        InsertBound(r, tail, sorted[0].percentage);
        var rest := InsertByPercentage(r, tail);
        var out := [sorted[0]] + rest;
        assert forall k :: 0 < k < |out| ==> out[k] == rest[k - 1];
      } else {
        var out := [r] + sorted;
        assert forall k :: 0 < k < |out| ==> out[k] == sorted[k - 1];
      }
    }
  }

  /** The sort orders by percentage, highest first, and only rearranges. */
  lemma {:induction false} SortSpec(recs: seq<Recommendation>)
    ensures ByPercentage(SortByPercentage(recs))
    ensures multiset(SortByPercentage(recs)) == multiset(recs)
  {
    if recs != [] {
      SortSpec(recs[1..]);
      InsertKeepsOrder(recs[0], SortByPercentage(recs[1..]));
    }
  }

  lemma {:induction false} InsertDistinct(r: Recommendation, sorted: seq<Recommendation>)
    requires DistinctNames(sorted)
    requires forall k :: 0 <= k < |sorted| ==> sorted[k].itemName != r.itemName
    ensures DistinctNames(InsertByPercentage(r, sorted))
  {
    if sorted != [] && r.percentage < sorted[0].percentage {
      var rest := InsertByPercentage(r, sorted[1..]);
      InsertDistinct(r, sorted[1..]);
      forall k | 0 <= k < |rest| ensures rest[k].itemName != sorted[0].itemName {
        assert rest[k] in multiset(sorted[1..]) + multiset{r};
        if rest[k] != r {
          var m :| 0 <= m < |sorted[1..]| && sorted[1..][m] == rest[k];
          assert sorted[1..][m] == sorted[m + 1];
        }
      }
      var out := [sorted[0]] + rest;
      assert forall i :: 0 < i < |out| ==> out[i] == rest[i - 1];
    }
  }

  /** Sorting keeps names distinct. */
  lemma {:induction false} SortDistinct(recs: seq<Recommendation>)
    requires DistinctNames(recs)
    ensures DistinctNames(SortByPercentage(recs))
  {
    if recs != [] {
      var tail := recs[1..];
      assert DistinctNames(tail) by {
        assert forall i :: 0 <= i < |tail| ==> tail[i] == recs[i + 1];
      }
      SortDistinct(tail);
      var sorted := SortByPercentage(tail);
      forall k | 0 <= k < |sorted| ensures sorted[k].itemName != recs[0].itemName {
        assert sorted[k] in multiset(tail);
        var m :| 0 <= m < |tail| && tail[m] == sorted[k];
        assert tail[m] == recs[m + 1];
      }
      InsertDistinct(recs[0], sorted);
    }
  }

  /** The test the recommendation loop applies, on the counts it has. */
  predicate Qualifies(userItems: set<string>, counts: map<string, nat>, x: string) {
    x !in userItems && CountOf(counts, x) > 1
  }

  /** The recommendation a count gives. */
  function Counted(counts: map<string, nat>, total: nat, x: string): Recommendation
    requires total > 0
  {
    Recommendation(x, Percentage(CountOf(counts, x), total), CountOf(counts, x), total)
  }

  /** Some entry of recs is for x. */
  predicate Listed(recs: seq<Recommendation>, x: string) {
    exists i :: 0 <= i < |recs| && recs[i].itemName == x
  }

  lemma ListedAppend(recs: seq<Recommendation>, r: Recommendation)
    ensures forall x :: Listed(recs + [r], x) <==> Listed(recs, x) || r.itemName == x
  {
    var out := recs + [r];
    assert forall i :: 0 <= i < |recs| ==> out[i] == recs[i];
    assert out[|recs|] == r;
  }

  /** The recommendation loop: every item of all_items not on the user's list
      and counted more than once, with its count and share of total. */
  method CollectRecommendations(userItems: set<string>, counts: map<string, nat>, allItems: set<string>, total: nat)
    returns (found: seq<Recommendation>)
    requires total > 0
    ensures forall i :: 0 <= i < |found| ==>
      found[i].itemName in allItems && Qualifies(userItems, counts, found[i].itemName) && found[i] == Counted(counts, total, found[i].itemName)
    ensures DistinctNames(found)
    ensures forall x :: x in allItems && Qualifies(userItems, counts, x) ==> Listed(found, x)
  {
    found := [];
    var pool := allItems;
    ghost var seen: set<string> := {};
    while pool != {}
      invariant pool <= allItems && seen == allItems - pool
      invariant forall i :: 0 <= i < |found| ==>
        found[i].itemName in seen && Qualifies(userItems, counts, found[i].itemName) && found[i] == Counted(counts, total, found[i].itemName)
      invariant DistinctNames(found)
      invariant forall x :: x in seen && Qualifies(userItems, counts, x) ==> Listed(found, x)
      decreases |pool|
    {
      var item :| item in pool;
      if item !in userItems {
        var count := CountOf(counts, item);
        var percentage := Percentage(count, total);
        if count > 1 {
          ListedAppend(found, Recommendation(item, percentage, count, total));
          found := found + [Recommendation(item, percentage, count, total)];
        }
      }
      pool := pool - {item};
      seen := seen + {item};
    }
  }

  /** With the counts and items of the counting loop, the loop's test is
      eligibility and its recommendation is the trip count's. */
  lemma CountsDecide(userItems: set<string>, similar: map<string, set<string>>, counts: map<string, nat>, allItems: set<string>, x: string)
    requires |similar| > 0
    requires allItems == AllItems(similar)
    requires forall y :: CountOf(counts, y) == TripCount(similar, y)
    ensures x in allItems && Qualifies(userItems, counts, x) <==> Eligible(userItems, similar, x)
    ensures Counted(counts, |similar|, x) == MakeRecommendation(similar, x)
  {
  }

  /** `recommendations[:30]`. */
  function TopThirty(sorted: seq<Recommendation>): seq<Recommendation> {
    if |sorted| <= 30 then sorted else sorted[..30]
  }

  /** What the top-30 cut keeps: a prefix of the sorted list, so an entry of
      the list is kept or 30 entries with at least its share are. */
  lemma CutKeepsBest(sorted: seq<Recommendation>, r: Recommendation)
    requires ByPercentage(sorted) && r in sorted
    ensures var kept := TopThirty(sorted);
      |kept| <= 30 && multiset(kept) <= multiset(sorted) &&
      (r in kept || (|kept| == 30 && forall i :: 0 <= i < |kept| ==> kept[i].percentage >= r.percentage))
  {
    var j :| 0 <= j < |sorted| && sorted[j] == r;
    if |sorted| > 30 {
      assert sorted == sorted[..30] + sorted[30..];
      if j < 30 {
        assert sorted[..30][j] == r;
      }
    }
  }

  /** With the counts of the counting loop, the recommendation loop yields
      exactly the eligible items, each with its trip count and share. */
  lemma FoundSpec(userItems: set<string>, similar: map<string, set<string>>, counts: map<string, nat>, allItems: set<string>,
                  found: seq<Recommendation>)
    requires |similar| > 0
    requires allItems == AllItems(similar)
    requires forall y :: CountOf(counts, y) == TripCount(similar, y)
    requires forall i :: 0 <= i < |found| ==>
      found[i].itemName in allItems && Qualifies(userItems, counts, found[i].itemName) && found[i] == Counted(counts, |similar|, found[i].itemName)
    requires forall x :: x in allItems && Qualifies(userItems, counts, x) ==> Listed(found, x)
    ensures forall i :: 0 <= i < |found| ==>
      Eligible(userItems, similar, found[i].itemName) && found[i] == MakeRecommendation(similar, found[i].itemName)
    ensures forall x :: Eligible(userItems, similar, x) ==> exists i :: 0 <= i < |found| && found[i].itemName == x
  {
    forall i | 0 <= i < |found|
      ensures Eligible(userItems, similar, found[i].itemName) && found[i] == MakeRecommendation(similar, found[i].itemName)
    {
      CountsDecide(userItems, similar, counts, allItems, found[i].itemName);
    }
    forall x | Eligible(userItems, similar, x) ensures exists i :: 0 <= i < |found| && found[i].itemName == x {
      CountsDecide(userItems, similar, counts, allItems, x);
    }
  }

  /** Sorting and cutting keep only eligible items with their own counts. */
  lemma RankedSound(userItems: set<string>, similar: map<string, set<string>>, found: seq<Recommendation>)
    requires |similar| > 0
    requires forall i :: 0 <= i < |found| ==>
      Eligible(userItems, similar, found[i].itemName) && found[i] == MakeRecommendation(similar, found[i].itemName)
    ensures var recs := TopThirty(SortByPercentage(found));
      forall i :: 0 <= i < |recs| ==> Eligible(userItems, similar, recs[i].itemName) && recs[i] == MakeRecommendation(similar, recs[i].itemName)
  {
    var sorted := SortByPercentage(found);
    var recs := TopThirty(sorted);
    forall i | 0 <= i < |recs|
      ensures Eligible(userItems, similar, recs[i].itemName) && recs[i] == MakeRecommendation(similar, recs[i].itemName)
    {
      assert recs[i] == sorted[i];
      assert sorted[i] in multiset(found);
    }
  }

  /** Every eligible item survives sorting and cutting, or is beaten by 30
      items with at least its share. */
  lemma RankedComplete(userItems: set<string>, similar: map<string, set<string>>, found: seq<Recommendation>)
    requires |similar| > 0
    requires forall i :: 0 <= i < |found| ==> found[i] == MakeRecommendation(similar, found[i].itemName)
    requires forall x :: Eligible(userItems, similar, x) ==> exists i :: 0 <= i < |found| && found[i].itemName == x
    ensures var recs := TopThirty(SortByPercentage(found));
      forall x :: Eligible(userItems, similar, x) ==>
        (exists i :: 0 <= i < |recs| && recs[i].itemName == x) ||
        (|recs| == 30 && forall i :: 0 <= i < |recs| ==> recs[i].percentage >= Percentage(TripCount(similar, x), |similar|))
  {
    forall x | Eligible(userItems, similar, x)
      ensures var recs := TopThirty(SortByPercentage(found));
        (exists i :: 0 <= i < |recs| && recs[i].itemName == x) ||
        (|recs| == 30 && forall i :: 0 <= i < |recs| ==> recs[i].percentage >= Percentage(TripCount(similar, x), |similar|))
    {
      var i :| 0 <= i < |found| && found[i].itemName == x;
      SurvivesCut(found, i);
    }
  }

  /** An entry of the unsorted list is kept by sorting and cutting, or 30
      entries with at least its share are. */
  lemma SurvivesCut(found: seq<Recommendation>, i: int)
    requires 0 <= i < |found|
    ensures var recs := TopThirty(SortByPercentage(found));
      (exists k :: 0 <= k < |recs| && recs[k].itemName == found[i].itemName) ||
      (|recs| == 30 && forall k :: 0 <= k < |recs| ==> recs[k].percentage >= found[i].percentage)
  {
    var sorted := SortByPercentage(found);
    var recs := TopThirty(sorted);
    SortSpec(found);
    assert found[i] in multiset(sorted);
    CutKeepsBest(sorted, found[i]);
    if found[i] in recs {
      var k :| 0 <= k < |recs| && recs[k] == found[i];
    }
  }

  /** Sorting and cutting give distinct names, highest share first. */
  lemma RankedOrdered(found: seq<Recommendation>)
    requires DistinctNames(found)
    ensures DistinctNames(TopThirty(SortByPercentage(found)))
    ensures ByPercentage(TopThirty(SortByPercentage(found)))
    ensures |TopThirty(SortByPercentage(found))| <= 30
  {
    SortSpec(found);
    SortDistinct(found);
    var sorted := SortByPercentage(found);
    var recs := TopThirty(sorted);
    assert forall i :: 0 <= i < |recs| ==> recs[i] == sorted[i];
  }

  /**
   * `generate_item_statistics`: nothing without similar trips; otherwise at
   * most 30 recommendations, each for an eligible item with its trip count
   * and share, no item twice, highest share first, and every eligible item
   * either listed or cut off by 30 items with a share at least its own.
   */
  method GenerateItemStatistics(userItems: set<string>, similar: map<string, set<string>>) returns (recs: seq<Recommendation>)
    ensures |similar| == 0 ==> recs == []
    ensures |recs| <= 30
    ensures forall i :: 0 <= i < |recs| ==>
      |similar| > 0 && Eligible(userItems, similar, recs[i].itemName) && recs[i] == MakeRecommendation(similar, recs[i].itemName)
    ensures DistinctNames(recs)
    ensures ByPercentage(recs)
    ensures forall x :: Eligible(userItems, similar, x) ==>
      (exists i :: 0 <= i < |recs| && recs[i].itemName == x) ||
      (|recs| == 30 && |similar| > 0 && forall i :: 0 <= i < |recs| ==> recs[i].percentage >= Percentage(TripCount(similar, x), |similar|))
  {
    if |similar| == 0 {
      return [];
    }
    var counts, allItems := CountTrips(similar);
    var found := CollectRecommendations(userItems, counts, allItems, |similar|);
    FoundSpec(userItems, similar, counts, allItems, found);
    var sorted := SortByPercentage(found);
    recs := TopThirty(sorted);
    RankedSound(userItems, similar, found);
    RankedComplete(userItems, similar, found);
    RankedOrdered(found);
  }

  /** For a fixed number of trips, more trips give a larger share and the
      other way round. */
  lemma PercentageOrder(c1: nat, c2: nat, total: nat)
    requires total > 0
    ensures c1 <= c2 <==> Percentage(c1, total) <= Percentage(c2, total)
  {
    var t := total as real;
    assert Percentage(c1, total) == (c1 as real) * (100.0 / t);
    assert Percentage(c2, total) == (c2 as real) * (100.0 / t);
    assert 100.0 / t > 0.0;
  }

  /** A recommended item was packed on at least two and at most all similar
      trips, so its share is above 0 and at most 100 percent. */
  lemma RecommendationBounds(userItems: set<string>, similar: map<string, set<string>>, x: string)
    requires Eligible(userItems, similar, x)
    ensures |similar| > 0
    ensures 1 < TripCount(similar, x) <= |similar|
    ensures 0.0 < Percentage(TripCount(similar, x), |similar|) <= 100.0
  {
    SubsetSize(TripsAmong(similar, similar.Keys, x), similar.Keys);
    PercentageOrder(0, TripCount(similar, x), |similar|);
    PercentageOrder(TripCount(similar, x), |similar|, |similar|);
  }

  /** Ranking by share is ranking by trip count. */
  lemma RankedByTripCount(userItems: set<string>, similar: map<string, set<string>>, recs: seq<Recommendation>)
    requires |similar| > 0
    requires forall i :: 0 <= i < |recs| ==> recs[i] == MakeRecommendation(similar, recs[i].itemName)
    requires ByPercentage(recs)
    ensures forall i, j :: 0 <= i < j < |recs| ==> recs[i].tripCount >= recs[j].tripCount
  {
    forall i, j | 0 <= i < j < |recs| ensures recs[i].tripCount >= recs[j].tripCount {
      PercentageOrder(recs[j].tripCount, recs[i].tripCount, |similar|);
    }
  }

  lemma {:induction false} SubsetSize(a: set<string>, b: set<string>)
    requires a <= b
    ensures |a| <= |b|
    decreases b
  {
    if a != {} {
      var x :| x in a;
      SubsetSize(a - {x}, b - {x});
    }
  }

  // ---------------------------------------------------------------------------
  // Categories (categorize_recommendations)
  // ---------------------------------------------------------------------------

  /** The seven keyword categories, in the order they are tried. */
  const CategoryNames: seq<string> := ["Clothing", "Toiletries", "Electronics", "Travel Essentials",
                                        "Accessories", "Health & Safety", "Footwear"]

  /** The keywords of each category, index for index with CategoryNames. */
  const Keywords: seq<seq<string>> := [
    ["shirt", "pants", "dress", "socks", "underwear", "jacket", "sweater", "sweatshirt",
     "coat", "jeans", "shorts", "hat", "cap", "gloves", "scarf", "t-shirt", "hoodie",
     "swimsuit", "swimwear", "bikini", "trunks"],
    ["toothbrush", "toothpaste", "shampoo", "conditioner", "soap", "deodorant",
     "razor", "sunscreen", "lotion", "moisturizer", "makeup", "perfume", "cologne"],
    ["charger", "adapter", "camera", "phone", "laptop", "tablet", "headphones",
     "earbuds", "power bank", "battery", "kindle", "e-reader", "drone"],
    ["passport", "id", "wallet", "money", "cash", "card", "tickets",
     "boarding", "reservation", "itinerary", "maps", "guide", "translator"],
    ["sunglasses", "watch", "jewelry", "belt", "umbrella", "backpack", "bag",
     "purse", "suitcase", "luggage", "daypack", "tote"],
    ["medicine", "pills", "first aid", "bandage", "prescription", "vitamin",
     "medication", "painkillers", "sanitizer", "mask", "insect repellent", "sunblock"],
    ["shoes", "sneakers", "sandals", "flip flops", "boots", "hiking", "slippers", "flats", "heels"]
  ]

  /** Index 7 is the catch-all bucket. */
  const OtherIndex: nat := 7

  /** The bucket names: the seven categories, then "Other". */
  function BucketName(k: nat): string
    requires k <= OtherIndex
  {
    if k < OtherIndex then CategoryNames[k] else "Other"
  }

  /** `any(keyword in name for keyword in keywords)`. */
  predicate AnyKeyword(name: string, keywords: seq<string>) {
    keywords != [] && (Contains(name, keywords[0]) || AnyKeyword(name, keywords[1..]))
  }

  /** Some keyword of category k occurs in name. */
  predicate MatchesCategory(name: string, k: nat)
    requires k < OtherIndex
  {
    AnyKeyword(name, Keywords[k])
  }

  /** AnyKeyword is the existential it abbreviates. */
  lemma {:induction false} AnyKeywordSpec(name: string, keywords: seq<string>)
    ensures AnyKeyword(name, keywords) <==> exists w :: w in keywords && Contains(name, w)
  {
    if keywords != [] {
      AnyKeywordSpec(name, keywords[1..]);
      assert keywords == [keywords[0]] + keywords[1..];
    }
  }

  /** The first category from k on whose keywords occur in name, or Other. */
  function FirstMatch(name: string, k: nat): (c: nat)
    requires k <= OtherIndex
    ensures k <= c <= OtherIndex
    ensures c < OtherIndex ==> MatchesCategory(name, c)
    ensures forall j :: k <= j < c && j < OtherIndex ==> !MatchesCategory(name, j)
    decreases OtherIndex - k
  {
    if k == OtherIndex then OtherIndex
    else if MatchesCategory(name, k) then k
    else FirstMatch(name, k + 1)
  }

  /** The bucket of an item: the first category, in declared order, with a
      keyword occurring in the lower-cased name, and Other when none has. */
  function CategoryOf(name: string): nat {
    FirstMatch(Lower(name), 0)
  }

  /** The recommendations whose bucket is k, in their order. */
  function InCategory(recs: seq<Recommendation>, k: nat): seq<Recommendation> {
    if recs == [] then []
    else
      var last := recs[|recs| - 1];
      InCategory(recs[..|recs| - 1], k) + (if CategoryOf(last.itemName) == k then [last] else [])
  }

  /** The eight lists, "Other" last. */
  function CategoryLists(recs: seq<Recommendation>): (lists: seq<seq<Recommendation>>)
    ensures |lists| == OtherIndex + 1
    ensures forall k :: 0 <= k <= OtherIndex ==> lists[k] == InCategory(recs, k)
  {
    seq(OtherIndex + 1, k requires 0 <= k <= OtherIndex => InCategory(recs, k))
  }

  /** The indexes of the non-empty lists, in increasing order. */
  function NonEmptyIndexes(lists: seq<seq<Recommendation>>): (ix: seq<nat>)
    ensures forall i :: 0 <= i < |ix| ==> ix[i] < |lists| && lists[ix[i]] != []
    ensures forall i, j :: 0 <= i < j < |ix| ==> ix[i] < ix[j]
    ensures forall k :: 0 <= k < |lists| && lists[k] != [] ==> k in ix
  {
    if lists == [] then []
    else
      var init := NonEmptyIndexes(lists[..|lists| - 1]);
      init + (if lists[|lists| - 1] != [] then [|lists| - 1] else [])
  }

  /** One entry of the result: a bucket name and its recommendations. */
  datatype Bucket = Bucket(category: string, recommendations: seq<Recommendation>)

  /** `{category: items for category, items in categorized.items() if items}`. */
  function KeepNonEmpty(lists: seq<seq<Recommendation>>): seq<Bucket>
    requires |lists| <= OtherIndex + 1
  {
    if lists == [] then []
    else
      var n := |lists| - 1;
      KeepNonEmpty(lists[..n]) + (if lists[n] != [] then [Bucket(BucketName(n), lists[n])] else [])
  }

  /** The kept buckets are the non-empty lists, in order, with their names. */
  lemma {:induction false} KeepNonEmptyIndexes(lists: seq<seq<Recommendation>>)
    requires |lists| <= OtherIndex + 1
    ensures var b, ix := KeepNonEmpty(lists), NonEmptyIndexes(lists);
      |b| == |ix| && forall i :: 0 <= i < |ix| ==> b[i] == Bucket(BucketName(ix[i]), lists[ix[i]])
  {
    if lists != [] {
      var n := |lists| - 1;
      var init := lists[..n];
      KeepNonEmptyIndexes(init);
      var ix0 := NonEmptyIndexes(init);
      assert forall i :: 0 <= i < |ix0| ==> lists[ix0[i]] == init[ix0[i]];
    }
  }

  /** The categorised recommendations. */
  function Categorized(recs: seq<Recommendation>): seq<Bucket> {
    KeepNonEmpty(CategoryLists(recs))
  }

  /** The inner loop of `categorize_recommendations`: the categories are
      tried in order and the first whose keywords match wins. */
  method FindCategory(itemName: string) returns (placed: bool, k: nat)
    ensures placed <==> FirstMatch(itemName, 0) < OtherIndex
    ensures placed ==> k == FirstMatch(itemName, 0)
  {
    placed := false;
    k := 0;
    while k < OtherIndex
      invariant 0 <= k <= OtherIndex
      invariant forall j :: 0 <= j < k ==> !MatchesCategory(itemName, j)
      invariant !placed
    {
      if MatchesCategory(itemName, k) {
        placed := true;
        break;
      }
      k := k + 1;
    }
  }

  lemma InCategoryStep(recs: seq<Recommendation>, i: nat, k: nat)
    requires i < |recs|
    ensures InCategory(recs[..i + 1], k) == InCategory(recs[..i], k) + (if CategoryOf(recs[i].itemName) == k then [recs[i]] else [])
  {
    assert recs[..i + 1][..i] == recs[..i];
  }

  /**
   * `categorize_recommendations`: each recommendation goes to the first
   * category with a matching keyword, or to "Other"; empty buckets are dropped.
   */
  method Categorize(recs: seq<Recommendation>) returns (buckets: seq<Bucket>)
    ensures buckets == Categorized(recs)
  {
    var categorized: seq<seq<Recommendation>> := seq(OtherIndex + 1, _ => []);
    for i := 0 to |recs|
      invariant |categorized| == OtherIndex + 1
      invariant forall k :: 0 <= k <= OtherIndex ==> categorized[k] == InCategory(recs[..i], k)
    {
      var rec := recs[i];
      var placed, k := FindCategory(Lower(rec.itemName));
      forall j | 0 <= j <= OtherIndex {
        InCategoryStep(recs, i, j);
      }
      if placed {
        categorized := categorized[k := categorized[k] + [rec]];
      } else {
        categorized := categorized[OtherIndex := categorized[OtherIndex] + [rec]];
      }
    }
    assert recs[..|recs|] == recs;
    assert categorized == CategoryLists(recs);
    buckets := KeepNonEmpty(categorized);
  }

  /** A recommendation is in list k exactly when it is one of recs whose
      bucket is k. */
  lemma {:induction false} InCategorySpec(recs: seq<Recommendation>, k: nat, r: Recommendation)
    ensures r in InCategory(recs, k) <==> r in recs && CategoryOf(r.itemName) == k
  {
    if recs != [] {
      var init := recs[..|recs| - 1];
      InCategorySpec(init, k, r);
      assert recs == init + [recs[|recs| - 1]];
    }
  }

  /** Each list keeps the input order: the list of a concatenation is the
      concatenation of the lists. */
  lemma {:induction false} InCategoryAppend(a: seq<Recommendation>, b: seq<Recommendation>, k: nat)
    ensures InCategory(a + b, k) == InCategory(a, k) + InCategory(b, k)
    decreases |b|
  {
    if b == [] {
      assert a + b == a;
    } else {
      var init := b[..|b| - 1];
      InCategoryAppend(a, init, k);
      assert (a + b)[..|a + b| - 1] == a + init;
      assert (a + b)[|a + b| - 1] == b[|b| - 1];
    }
  }

  /** Distinct keys give distinct bucket names. */
  lemma BucketNamesDistinct(k1: nat, k2: nat)
    requires k1 <= OtherIndex && k2 <= OtherIndex && k1 != k2
    ensures BucketName(k1) != BucketName(k2)
  {
    var names := CategoryNames + ["Other"];
    assert BucketName(k1) == names[k1] && BucketName(k2) == names[k2];
    assert forall a, b :: 0 <= a < b < |names| ==> names[a] != names[b] by {
      assert names[0][..2] == "Cl" && names[1][..2] == "To" && names[2][..2] == "El" && names[3][..2] == "Tr";
      assert names[4][..2] == "Ac" && names[5][..2] == "He" && names[6][..2] == "Fo" && names[7][..2] == "Ot";
    }
  }

  /** The buckets are non-empty, named after one of the seven categories or
      "Other", and no category occurs twice. */
  lemma CategorizedDistinct(recs: seq<Recommendation>)
    ensures var b := Categorized(recs);
      && (forall i :: 0 <= i < |b| ==> b[i].recommendations != [])
      && (forall i :: 0 <= i < |b| ==> b[i].category in CategoryNames + ["Other"])
      && (forall i, j :: 0 <= i < j < |b| ==> b[i].category != b[j].category)
  {
    var ix := NonEmptyIndexes(CategoryLists(recs));
    KeepNonEmptyIndexes(CategoryLists(recs));
    var b := Categorized(recs);
    forall i | 0 <= i < |b| ensures b[i].category in CategoryNames + ["Other"] {
      assert b[i].category == BucketName(ix[i]);
      assert BucketName(ix[i]) == (CategoryNames + ["Other"])[ix[i]];
    }
    forall i, j | 0 <= i < j < |b| ensures b[i].category != b[j].category {
      BucketNamesDistinct(ix[i], ix[j]);
    }
  }

  /** A bucket holds only recommendations of its own category. */
  lemma CategorizedSound(recs: seq<Recommendation>, i: nat, r: Recommendation)
    requires i < |Categorized(recs)| && r in Categorized(recs)[i].recommendations
    ensures r in recs && Categorized(recs)[i].category == BucketName(CategoryOf(r.itemName))
  {
    var lists := CategoryLists(recs);
    var ix := NonEmptyIndexes(lists);
    KeepNonEmptyIndexes(CategoryLists(recs));
    assert Categorized(recs)[i] == Bucket(BucketName(ix[i]), InCategory(recs, ix[i]));
    InCategorySpec(recs, ix[i], r);
  }

  /** Every recommendation lies in the bucket of its first matching category,
      or in "Other". */
  lemma CategorizedComplete(recs: seq<Recommendation>, r: Recommendation)
    requires r in recs
    ensures var b := Categorized(recs);
      exists i :: 0 <= i < |b| && b[i].category == BucketName(CategoryOf(r.itemName)) && r in b[i].recommendations
  {
    var ix := NonEmptyIndexes(CategoryLists(recs));
    KeepNonEmptyIndexes(CategoryLists(recs));
    var b := Categorized(recs);
    var c := CategoryOf(r.itemName);
    InCategorySpec(recs, c, r);
    assert c in ix;
    var i :| 0 <= i < |ix| && ix[i] == c;
    assert b[i].category == BucketName(c) && r in b[i].recommendations;
  }

  /** All recommendations of the lists together. */
  ghost function Pooled(lists: seq<seq<Recommendation>>): multiset<Recommendation> {
    if lists == [] then multiset{} else Pooled(lists[..|lists| - 1]) + multiset(lists[|lists| - 1])
  }

  /** All recommendations of the buckets together. */
  ghost function BucketContents(buckets: seq<Bucket>): multiset<Recommendation> {
    if buckets == [] then multiset{}
    else BucketContents(buckets[..|buckets| - 1]) + multiset(buckets[|buckets| - 1].recommendations)
  }

  lemma {:induction false} PooledEmpty(lists: seq<seq<Recommendation>>)
    requires forall k :: 0 <= k < |lists| ==> lists[k] == []
    ensures Pooled(lists) == multiset{}
  {
    if lists != [] {
      PooledEmpty(lists[..|lists| - 1]);
    }
  }

  /** Appending r to one list adds r once to the pool. */
  lemma {:induction false} PooledBump(lists: seq<seq<Recommendation>>, grown: seq<seq<Recommendation>>, c: nat, r: Recommendation)
    requires |grown| == |lists| && c < |lists|
    requires grown[c] == lists[c] + [r]
    requires forall k :: 0 <= k < |lists| && k != c ==> grown[k] == lists[k]
    ensures Pooled(grown) == Pooled(lists) + multiset{r}
  {
    var n := |lists| - 1;
    if c < n {
      PooledBump(lists[..n], grown[..n], c, r);
    } else {
      assert lists[..n] == grown[..n];
    }
  }

  lemma CategoryListsStep(recs: seq<Recommendation>)
    requires recs != []
    ensures var last := recs[|recs| - 1];
      var before, after := CategoryLists(recs[..|recs| - 1]), CategoryLists(recs);
      && after[CategoryOf(last.itemName)] == before[CategoryOf(last.itemName)] + [last]
      && forall k :: 0 <= k <= OtherIndex && k != CategoryOf(last.itemName) ==> after[k] == before[k]
  {
  }

  /** The eight lists hold every recommendation exactly once. */
  lemma {:induction false} CategoryListsPartition(recs: seq<Recommendation>)
    ensures Pooled(CategoryLists(recs)) == multiset(recs)
  {
    if recs == [] {
      PooledEmpty(CategoryLists(recs));
    } else {
      var init := recs[..|recs| - 1];
      var last := recs[|recs| - 1];
      CategoryListsPartition(init);
      PartitionStep(recs);
      assert recs == init + [last];
    }
  }

  /** Adding a recommendation adds it once to the pool of the eight lists. */
  lemma PartitionStep(recs: seq<Recommendation>)
    requires recs != []
    ensures Pooled(CategoryLists(recs)) == Pooled(CategoryLists(recs[..|recs| - 1])) + multiset{recs[|recs| - 1]}
  {
    var last := recs[|recs| - 1];
    CategoryListsStep(recs);
    PooledBump(CategoryLists(recs[..|recs| - 1]), CategoryLists(recs), CategoryOf(last.itemName), last);
  }

  /** Dropping the empty lists loses no recommendation. */
  lemma {:induction false} KeepNonEmptyPooled(lists: seq<seq<Recommendation>>)
    requires |lists| <= OtherIndex + 1
    ensures BucketContents(KeepNonEmpty(lists)) == Pooled(lists)
  {
    if lists != [] {
      var n := |lists| - 1;
      KeepNonEmptyPooled(lists[..n]);
      var b0 := KeepNonEmpty(lists[..n]);
      assert Pooled(lists) == Pooled(lists[..n]) + multiset(lists[n]);
      if lists[n] != [] {
        var b := b0 + [Bucket(BucketName(n), lists[n])];
        assert b[..|b| - 1] == b0;
        assert BucketContents(b) == BucketContents(b0) + multiset(lists[n]);
      } else {
        assert KeepNonEmpty(lists) == b0 + [] == b0;
        assert multiset(lists[n]) == multiset{};
      }
    }
  }

  /** The buckets hold every recommendation exactly once. */
  lemma CategorizedPartition(recs: seq<Recommendation>)
    ensures BucketContents(Categorized(recs)) == multiset(recs)
  {
    CategoryListsPartition(recs);
    KeepNonEmptyPooled(CategoryLists(recs));
  }
}
