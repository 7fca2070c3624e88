/** The catalog page: the search/type filter over the loaded listings, the
    "All"-prefixed list of types for the type selector, and the dashboard
    statistics (average price, number of locations covered). */
module Home {
  import opened JsStrings
  import opened JsValues
  import opened JsSet

  /** The selector value that switches the type filter off. */
  const All := Str("All")

  // ---------------------------------------------------------------- filter

  /** `(v || "").toLowerCase()`: a falsy value searches as the empty text; a
      truthy value that is not a string has no `toLowerCase` and throws. */
  function SearchableText(v: JsValue): (r: Completion<string>)
    ensures r.ThrowTypeError? <==> Truthy(v) && !v.Str?
    ensures v.Str? ==> r == Normal(Lower(v.s))
  {
    if !Truthy(v) then assert v.Str? ==> Lower(v.s) == ""; Normal("")
    else if v.Str? then Normal(Lower(v.s))
    else ThrowTypeError
  }

  /** The callback passed to `properties.filter`, for the already trimmed and
      lower-cased search text. */
  function Keep(p: Record, filterType: JsValue, text: string): Completion<bool> {
    if filterType != All && !StrictEquals(Get(p, "type"), filterType) then Normal(false)
    else if text == "" then Normal(true)
    else
      match SearchableText(Get(p, "name"))
      case ThrowTypeError => ThrowTypeError
      case Normal(name) =>
        if Includes(name, text) then Normal(true)
        else
          match SearchableText(Get(p, "location"))
          case ThrowTypeError => ThrowTypeError
          case Normal(location) => Normal(Includes(location, text))
  }

  /** `properties.filter(...)`: the records the callback keeps, in order; a
      throwing callback aborts the whole call. */
  function FilterBy(ps: seq<Record>, filterType: JsValue, text: string): Completion<seq<Record>> {
    if ps == [] then Normal([])
    else
      match Keep(ps[0], filterType, text)
      case ThrowTypeError => ThrowTypeError
      case Normal(keep) =>
        match FilterBy(ps[1..], filterType, text)
        case ThrowTypeError => ThrowTypeError
        case Normal(rest) => Normal(if keep then [ps[0]] + rest else rest)
  }

  /** The `filtered` list for the search box text and the selected type. */
  function Filter(ps: seq<Record>, searchText: string, filterType: JsValue): Completion<seq<Record>> {
    FilterBy(ps, filterType, Lower(Trim(searchText)))
  }

  /** The field holds text the search can read: a string, or a falsy value. */
  predicate IsSearchable(v: JsValue) {
    v.Str? || !Truthy(v)
  }

  /** `text` occurs in the lower-cased string `v`. */
  ghost predicate Mentions(v: JsValue, text: string) {
    v.Str? && exists i :: OccursAt(Lower(v.s), text, i)
  }

  /** Which records the page means to list, stated independently of the
      callback: the type matches unless "All" is selected, and with a search
      text the name or the location contains it. */
  ghost predicate Selected(p: Record, filterType: JsValue, text: string) {
    && (filterType == All || StrictEquals(Get(p, "type"), filterType))
    && (text == "" || Mentions(Get(p, "name"), text) || Mentions(Get(p, "location"), text))
  }

  /** `idx` lists, in increasing order, the positions in `ps` that make up `r`. */
  ghost predicate Embeds(idx: seq<int>, r: seq<Record>, ps: seq<Record>) {
    && |idx| == |r|
    && (forall k | 0 <= k < |idx| :: 0 <= idx[k] < |ps| && r[k] == ps[idx[k]])
    && (forall k, l | 0 <= k < l < |idx| :: idx[k] < idx[l])
  }

  /** The callback agrees with `Selected` whenever it does not throw. */
  lemma KeepMeansSelected(p: Record, filterType: JsValue, text: string)
    requires Keep(p, filterType, text).Normal?
    ensures Keep(p, filterType, text).value <==> Selected(p, filterType, text)
  {
    if text != "" && (filterType == All || StrictEquals(Get(p, "type"), filterType)) {
      var name, location := Get(p, "name"), Get(p, "location");
      if SearchableText(name).Normal? && !Includes(SearchableText(name).value, text) {
        assert name.Str? ==> SearchableText(name).value == Lower(name.s);
        assert !Mentions(name, text);
        assert location.Str? ==> SearchableText(location).value == Lower(location.s);
        if !name.Str? { assert !Mentions(name, text); }
      }
    }
  }

  /** Every kept record comes from the input, and the order is preserved. */
  lemma {:induction false} FilterIsSubsequence(ps: seq<Record>, filterType: JsValue, text: string)
    returns (idx: seq<int>)
    ensures FilterBy(ps, filterType, text).Normal? ==> Embeds(idx, FilterBy(ps, filterType, text).value, ps)
  {
    if ps == [] {
      idx := [];
    } else if FilterBy(ps, filterType, text).Normal? {
      var tail := FilterIsSubsequence(ps[1..], filterType, text);
      var shifted := seq(|tail|, k requires 0 <= k < |tail| => tail[k] + 1);
      if Keep(ps[0], filterType, text).value {
        idx := [0] + shifted;
      } else {
        idx := shifted;
      }
    } else {
      idx := [];
    }
  }

  /** The records of `ps` that are `Selected`, in order and with repetitions:
      the reference definition of what the page lists. */
  ghost function SelectedOnly(ps: seq<Record>, filterType: JsValue, text: string): seq<Record> {
    if ps == [] then []
    else if Selected(ps[0], filterType, text) then [ps[0]] + SelectedOnly(ps[1..], filterType, text)
    else SelectedOnly(ps[1..], filterType, text)
  }

  /** When the filter does not throw, it lists exactly the selected records of
      the input, each occurrence kept, in input order. */
  lemma {:induction false} FilterIsSelectedOnly(ps: seq<Record>, filterType: JsValue, text: string)
    ensures FilterBy(ps, filterType, text).Normal? ==>
      FilterBy(ps, filterType, text).value == SelectedOnly(ps, filterType, text)
  {
    if ps != [] && FilterBy(ps, filterType, text).Normal? {
      KeepMeansSelected(ps[0], filterType, text);
      FilterIsSelectedOnly(ps[1..], filterType, text);
    }
  }

  /** A record is in the result exactly when it is in the input and selected. */
  lemma {:induction false} FilterKeepsExactlySelected(ps: seq<Record>, filterType: JsValue, text: string)
    ensures FilterBy(ps, filterType, text).Normal? ==>
      forall p :: p in FilterBy(ps, filterType, text).value <==> p in ps && Selected(p, filterType, text)
  {
    if ps != [] && FilterBy(ps, filterType, text).Normal? {
      FilterKeepsExactlySelected(ps[1..], filterType, text);
      KeepMeansSelected(ps[0], filterType, text);
      assert forall p :: p in ps <==> p == ps[0] || p in ps[1..];
    }
  }

  /** With a type selected, every listed record has exactly that type. */
  lemma FilterMatchesSelectedType(ps: seq<Record>, searchText: string, filterType: JsValue)
    requires filterType != All
    ensures Filter(ps, searchText, filterType).Normal? ==>
      forall p | p in Filter(ps, searchText, filterType).value :: StrictEquals(Get(p, "type"), filterType)
  {
    FilterKeepsExactlySelected(ps, filterType, Lower(Trim(searchText)));
  }

  /** "All" with a blank search box lists every record, in order. */
  lemma {:induction false} FilterAllBlankIsIdentity(ps: seq<Record>, searchText: string)
    requires AllWhitespace(searchText)
    ensures Filter(ps, searchText, All) == Normal(ps)
  {
    assert Lower(Trim(searchText)) == "";
    FilterByAllIsIdentity(ps);
  }

  lemma {:induction false} FilterByAllIsIdentity(ps: seq<Record>)
    ensures FilterBy(ps, All, "") == Normal(ps)
  {
    if ps != [] {
      FilterByAllIsIdentity(ps[1..]);
      assert [ps[0]] + ps[1..] == ps;
    }
  }

  /** Searching ignores letter case and surrounding whitespace. */
  lemma SearchIgnoresCaseAndPadding(ps: seq<Record>, t: string, filterType: JsValue)
    ensures Filter(ps, "  " + Upper(t) + " ", filterType) == Filter(ps, t, filterType)
  {
    CaseAndPaddingInsensitive("  ", t, " ");
  }

  /** With only searchable names and locations the filter never throws. */
  lemma {:induction false} FilterOfSearchableNeverThrows(ps: seq<Record>, filterType: JsValue, text: string)
    requires forall p | p in ps :: IsSearchable(Get(p, "name")) && IsSearchable(Get(p, "location"))
    ensures FilterBy(ps, filterType, text).Normal?
  {
    if ps != [] {
      FilterOfSearchableNeverThrows(ps[1..], filterType, text);
    }
  }

  /** A blank search never reads names or locations, so it never throws. */
  lemma {:induction false} BlankSearchNeverThrows(ps: seq<Record>, filterType: JsValue)
    ensures FilterBy(ps, filterType, "").Normal?
  {
    if ps != [] {
      BlankSearchNeverThrows(ps[1..], filterType);
    }
  }

  /** Conversely, a non-blank search over a record of the selected type whose
      name is truthy but not a string throws. */
  lemma {:induction false} NonTextNameThrows(ps: seq<Record>, filterType: JsValue, text: string, k: nat)
    requires k < |ps| && text != ""
    requires filterType == All || StrictEquals(Get(ps[k], "type"), filterType)
    requires Truthy(Get(ps[k], "name")) && !Get(ps[k], "name").Str?
    ensures FilterBy(ps, filterType, text) == ThrowTypeError
  {
    if k > 0 {
      NonTextNameThrows(ps[1..], filterType, text, k - 1);
    }
  }

  // ---------------------------------------------------------------- types

  /** `properties.map((p) => p[key])`. */
  function FieldValues(ps: seq<Record>, key: string): (r: seq<JsValue>)
    ensures |r| == |ps| && forall i | 0 <= i < |ps| :: r[i] == Get(ps[i], key)
  {
    seq(|ps|, i requires 0 <= i < |ps| => Get(ps[i], key))
  }

  /** `properties.map((p) => p.type)`. */
  function TypeValues(ps: seq<Record>): seq<JsValue> {
    FieldValues(ps, "type")
  }

  /** The options of the type selector: "All", then the distinct types. */
  function Types(ps: seq<Record>): seq<JsValue> {
    [All] + Distinct(TypeValues(ps))
  }

  /** "All" comes first, then every record's type exactly once, each type in
      the order of the first record that has it. */
  lemma TypesListsEachTypeOnce(ps: seq<Record>)
    ensures |Types(ps)| >= 1 && Types(ps)[0] == All
    ensures forall p | p in ps :: Get(p, "type") in Types(ps)[1..]
    ensures forall t | t in Types(ps)[1..] :: exists p :: p in ps && Get(p, "type") == t
    ensures NoDuplicates(Types(ps)[1..])
    ensures forall i, j | 1 <= i < j < |Types(ps)| ::
      FirstIndex(TypeValues(ps), Types(ps)[i]) < FirstIndex(TypeValues(ps), Types(ps)[j])
  {
    var tv := TypeValues(ps);
    assert Types(ps)[1..] == Distinct(tv);
    forall p | p in ps ensures Get(p, "type") in tv {
      var i :| 0 <= i < |ps| && ps[i] == p;
      assert tv[i] == Get(p, "type");
    }
    forall t | t in Distinct(tv) ensures exists p :: p in ps && Get(p, "type") == t {
      var i :| 0 <= i < |tv| && tv[i] == t;
      assert ps[i] in ps;
    }
    DistinctInFirstOccurrenceOrder(tv);
  }

  /** "All" is listed twice exactly when some record's type is itself "All". */
  lemma TypesRepeatAllOnlyForAllTyped(ps: seq<Record>)
    ensures NoDuplicates(Types(ps)) <==> forall p | p in ps :: Get(p, "type") != All
  {
    var ts := Types(ps);
    TypesListsEachTypeOnce(ps);
    if NoDuplicates(ts) {
      forall p | p in ps ensures Get(p, "type") != All {
        var j :| 1 <= j < |ts| && ts[j] == Get(p, "type");
        assert ts[0] != ts[j];
      }
    } else {
      var i, j :| 0 <= i < j < |ts| && ts[i] == ts[j];
      assert ts[j] in ts[1..];
    }
  }

  /** Picking any option other than NaN with a blank search lists at least one
      record. */
  lemma EveryTypeOptionListsSomething(ps: seq<Record>, t: JsValue)
    requires t in Types(ps)[1..] && t != NaN
    ensures Filter(ps, "", t).Normal? && |Filter(ps, "", t).value| > 0
  {
    TypesListsEachTypeOnce(ps);
    var p :| p in ps && Get(p, "type") == t;
    assert Lower(Trim("")) == "";
    BlankSearchNeverThrows(ps, t);
    FilterKeepsExactlySelected(ps, t, "");
    assert Selected(p, t, "");
  }

  /** NaN never equals itself, so selecting a NaN type lists nothing. */
  lemma {:induction false} NaNTypeListsNothing(ps: seq<Record>, text: string)
    ensures FilterBy(ps, NaN, text) == Normal([])
  {
    if ps != [] {
      NaNTypeListsNothing(ps[1..], text);
    }
  }

  // ---------------------------------------------------------------- statistics

  /** `Number(p.price || 0)`. */
  function PriceOf(p: Record): (r: JsValue)
    ensures TypeofNumber(r)
    ensures !Truthy(Get(p, "price")) ==> r == Num(0)
  {
    var v := Get(p, "price");
    ToNumber(if Truthy(v) then v else Num(0))
  }

  /** Number addition, where NaN absorbs everything. */
  function Add(a: JsValue, b: JsValue): JsValue {
    if a.Num? && b.Num? then Num(a.n + b.n) else NaN
  }

  /** The `reduce` over the prices, starting from 0. */
  function PriceSum(ps: seq<Record>): (r: JsValue)
    ensures TypeofNumber(r)
  {
    if ps == [] then Num(0)
    else Add(PriceSum(ps[..|ps| - 1]), PriceOf(ps[|ps| - 1]))
  }

  /** `Math.round(s / n)`: the integer nearest to the quotient `s / n`, a
      half rounded up, i.e. `r - 1/2 <= s / n < r + 1/2`. */
  function RoundedMean(s: int, n: nat): (r: int)
    requires n > 0
    ensures n * (2 * r - 1) <= 2 * s < n * (2 * r + 1)
  {
    var r := (2 * s + n) / (2 * n);
    RoundedMeanBounds(s, n, r, (2 * s + n) % (2 * n));
    r
  }

  lemma RoundedMeanBounds(s: int, n: int, r: int, m: int)
    requires n > 0 && 2 * s + n == 2 * n * r + m && 0 <= m < 2 * n
    ensures n * (2 * r - 1) <= 2 * s < n * (2 * r + 1)
  {
    assert n * (2 * r - 1) == 2 * n * r - n;
    assert n * (2 * r + 1) == 2 * n * r + n;
  }

  /** The rounding is determined by its bounds: any integer within half a unit
      of `s / n`, counting the lower half but not the upper, is the rounded mean. */
  lemma RoundedMeanUnique(s: int, n: nat, r: int)
    requires n > 0 && n * (2 * r - 1) <= 2 * s < n * (2 * r + 1)
    ensures r == RoundedMean(s, n)
  {
    var q := RoundedMean(s, n);
    if r < q {
      MulMonotone(n, 2 * r + 1, 2 * q - 1);
    } else if q < r {
      MulMonotone(n, 2 * q + 1, 2 * r - 1);
    }
  }

  /** `Math.round(sum / n)` for a number value `sum`. */
  function Mean(sum: JsValue, n: nat): JsValue
    requires n > 0
  {
    if sum.Num? then Num(RoundedMean(sum.n, n)) else NaN
  }

  /** The "Average Price" statistic. */
  function AvgPrice(ps: seq<Record>): (r: JsValue)
    ensures TypeofNumber(r)
    ensures ps == [] ==> r == Num(0)
    ensures |ps| > 0 && PriceSum(ps).Num? ==>
      r.Num? && |ps| * (2 * r.n - 1) <= 2 * PriceSum(ps).n < |ps| * (2 * r.n + 1)
    ensures |ps| > 0 && PriceSum(ps) == NaN ==> r == NaN
  {
    if |ps| > 0 then
      var m := Mean(PriceSum(ps), |ps|);
      assert PriceSum(ps).Num? ==> m == Num(RoundedMean(PriceSum(ps).n, |ps|));
      m
    else Num(0)
  }

  /** The sum is NaN exactly when some price converts to NaN. */
  lemma {:induction false} PriceSumNaN(ps: seq<Record>)
    ensures PriceSum(ps) == NaN <==> exists p :: p in ps && PriceOf(p) == NaN
  {
    if ps != [] {
      var init := ps[..|ps| - 1];
      PriceSumNaN(init);
      assert forall p :: p in ps <==> p in init || p == ps[|ps| - 1];
    }
  }

  /** The average is NaN exactly when some price converts to NaN. */
  lemma AvgPriceNaN(ps: seq<Record>)
    ensures AvgPrice(ps) == NaN <==> exists p :: p in ps && PriceOf(p) == NaN
  {
    PriceSumNaN(ps);
  }

  /** The sum of prices lying in `[lo, hi]` lies in `[n * lo, n * hi]`. */
  lemma {:induction false} PriceSumBounds(ps: seq<Record>, lo: int, hi: int)
    requires forall p | p in ps :: PriceOf(p).Num? && lo <= PriceOf(p).n <= hi
    ensures PriceSum(ps).Num?
    ensures |ps| * lo <= PriceSum(ps).n <= |ps| * hi
  {
    if ps != [] {
      var init, last := ps[..|ps| - 1], ps[|ps| - 1];
      assert forall p | p in init :: p in ps;
      PriceSumBounds(init, lo, hi);
      assert last in ps;
      assert PriceSum(ps) == Num(PriceSum(init).n + PriceOf(last).n);
      MulStep(|init|, lo);
      MulStep(|init|, hi);
    }
  }

  lemma MulStep(n: int, x: int)
    ensures (n + 1) * x == n * x + x
  {
  }

  /** The average lies between the lowest and the highest price. */
  lemma AvgPriceWithinBounds(ps: seq<Record>, lo: int, hi: int)
    requires |ps| > 0
    requires forall p | p in ps :: PriceOf(p).Num? && lo <= PriceOf(p).n <= hi
    ensures AvgPrice(ps).Num? && lo <= AvgPrice(ps).n <= hi
  {
    PriceSumBounds(ps, lo, hi);
    RoundedMeanWithin(PriceSum(ps).n, |ps|, lo, hi);
  }

  /** A rounded mean of a sum of `n` values in `[lo, hi]` stays in `[lo, hi]`. */
  lemma RoundedMeanWithin(s: int, n: nat, lo: int, hi: int)
    requires n > 0 && n * lo <= s <= n * hi
    ensures lo <= RoundedMean(s, n) <= hi
  {
    var r := RoundedMean(s, n);
    assert n * (2 * lo) == 2 * (n * lo) && n * (2 * hi) == 2 * (n * hi);
    MulCancel(n, 2 * lo, 2 * r + 1);
    MulCancel(n, 2 * r - 1, 2 * hi + 1);
  }

  lemma MulCancel(d: int, x: int, y: int)
    requires d > 0 && d * x < d * y
    ensures x < y
  {
    if x >= y {
      MulMonotone(d, y, x);
    }
  }

  lemma MulMonotone(d: int, x: int, y: int)
    requires d > 0 && x <= y
    ensures d * x <= d * y
  {
  }

  /** `properties.map((p) => p.location)`. */
  function LocationValues(ps: seq<Record>): seq<JsValue> {
    FieldValues(ps, "location")
  }

  /** The "Locations Covered" statistic: `new Set(locations).size`. */
  function LocationsCovered(ps: seq<Record>): nat {
    |Distinct(LocationValues(ps))|
  }

  /** It counts the distinct location values, so it is at most the number of
      records and at least one when there is any record. */
  lemma LocationsCoveredCountsDistinct(ps: seq<Record>)
    ensures LocationsCovered(ps) == |set p | p in ps :: Get(p, "location")|
    ensures LocationsCovered(ps) <= |ps|
    ensures |ps| > 0 ==> LocationsCovered(ps) >= 1
  {
    var lv := LocationValues(ps);
    DistinctSize(lv);
    assert (set x | x in lv) == (set p | p in ps :: Get(p, "location")) by {
      forall x | x in lv ensures x in (set p | p in ps :: Get(p, "location")) {
        var i :| 0 <= i < |lv| && lv[i] == x;
        assert ps[i] in ps;
      }
      forall p | p in ps ensures Get(p, "location") in lv {
        var i :| 0 <= i < |ps| && ps[i] == p;
        assert lv[i] == Get(p, "location");
      }
    }
    if |ps| > 0 {
      assert lv[0] in Distinct(lv);
    }
  }
}
