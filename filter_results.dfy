/**
 * The filter-results action of the chat bot: the filter entities
 * recognised in the user's message are intersected with the known filters,
 * their display names are listed in German (`a`, `b` und `c`), and a
 * result URL is built with one `/category/f1-f2` segment per category.
 */
module FilterResults {
  import opened Strings
  import opened Dicts

  /** The two columns of the filter mapping the action reads for a filter. */
  datatype FilterInfo = FilterInfo(display: string, category: string)

  /** The filter mapping, keyed by filter id; its keys are the known filters. */
  type FilterMapping = map<string, FilterInfo>

  const BfzUrl: string := "https://www.beratungsnetz-migration.de"

  /** Everything in a result URL before its segments. */
  const ListPrefix: string := BfzUrl + "/list"

  // ---------------------------------------------------------------------
  // The German enumeration of display names
  // ---------------------------------------------------------------------

  function Backticked(s: string): string
  {
    "`" + s + "`"
  }

  function BacktickAll(xs: seq<string>): (r: seq<string>)
    ensures |r| == |xs| && forall i :: 0 <= i < |xs| ==> r[i] == Backticked(xs[i])
  {
    seq(|xs|, i requires 0 <= i < |xs| => Backticked(xs[i]))
  }

  /**
   * `_format`: every item in backticks, all but the last joined by `, `,
   * and the last one attached with ` und `. The empty list is the
   * `IndexError` of `filters[-1]`, which the caller never lets happen.
   */
  function FormatFilters(filters: seq<string>): (s: string)
    requires |filters| > 0
    ensures |s| >= |filters[|filters| - 1]| + 2
  {
    var n := |filters|;
    if n == 1 then Backticked(filters[0])
    else Join(", ", BacktickAll(filters[..n - 1])) + " und " + Backticked(filters[n - 1])
  }

  /** Every second piece, starting with the second. */
  function Odds(xs: seq<string>): seq<string>
  {
    if |xs| < 2 then [] else [xs[1]] + Odds(xs[2..])
  }

  /** The texts enclosed in backticks, in order. */
  function QuotedItems(s: string): seq<string>
  {
    Odds(Split(s, '`'))
  }

  lemma SplitQuoted(sep: string, x: string, rest: string)
    requires '`' !in sep && '`' !in x
    ensures Split(sep + Backticked(x) + rest, '`') == [sep, x] + Split(rest, '`')
  {
    assert sep + Backticked(x) + rest == sep + ['`'] + (x + ['`'] + rest);
    SplitAt(sep, x + ['`'] + rest, '`');
    SplitAt(x, rest, '`');
  }

  lemma OddsPair(a: string, b: string, t: seq<string>)
    ensures Odds([a, b] + t) == [b] + Odds(t)
  {
    assert ([a, b] + t)[2..] == t;
  }

  lemma {:induction false} QuotedTail(ys: seq<string>, tail: string)
    requires forall i :: 0 <= i < |ys| ==> '`' !in ys[i]
    ensures Odds(Split(PrefixEach(", ", BacktickAll(ys)) + tail, '`')) == ys + Odds(Split(tail, '`'))
    decreases |ys|
  {
    if ys == [] {
      assert PrefixEach(", ", BacktickAll(ys)) + tail == tail;
    } else {
      var rest := ys[1..];
      assert BacktickAll(ys)[1..] == BacktickAll(rest);
      var r := PrefixEach(", ", BacktickAll(rest)) + tail;
      assert PrefixEach(", ", BacktickAll(ys)) + tail == ", " + Backticked(ys[0]) + r;
      SplitQuoted(", ", ys[0], r);
      OddsPair(", ", ys[0], Split(r, '`'));
      QuotedTail(rest, tail);
      assert [ys[0]] + rest == ys;
    }
  }

  lemma QuotedLast(sep: string, x: string)
    requires '`' !in sep && '`' !in x
    ensures Odds(Split(sep + Backticked(x), '`')) == [x]
  {
    SplitQuoted(sep, x, "");
    OddsPair(sep, x, [""]);
    assert sep + Backticked(x) + "" == sep + Backticked(x);
  }

  lemma BacktickInit(filters: seq<string>)
    requires |filters| >= 2
    ensures Join(", ", BacktickAll(filters[..|filters| - 1])) ==
      Backticked(filters[0]) + PrefixEach(", ", BacktickAll(filters[1..|filters| - 1]))
  {
    var n := |filters|;
    var init := BacktickAll(filters[..n - 1]);
    assert init[0] == Backticked(filters[0]);
    assert init[1..] == BacktickAll(filters[1..n - 1]);
  }

  /** A single name is only put in backticks, with no separator around it. */
  lemma FormatOne(x: string)
    ensures FormatFilters([x]) == Backticked(x)
  {
  }

  lemma FormatShape(filters: seq<string>)
    requires |filters| >= 2
    ensures FormatFilters(filters) ==
      Backticked(filters[0]) +
      (PrefixEach(", ", BacktickAll(filters[1..|filters| - 1])) + (" und " + Backticked(filters[|filters| - 1])))
  {
    var n := |filters|;
    BacktickInit(filters);
    var a := Backticked(filters[0]);
    var pe := PrefixEach(", ", BacktickAll(filters[1..n - 1]));
    var b := Backticked(filters[n - 1]);
    Reassociate(a, pe, " und ", b);
  }

  lemma Reassociate(a: string, b: string, c: string, d: string)
    ensures a + b + c + d == a + (b + (c + d))
  {
  }

  /** The enumeration of `first`, `mid` and `last`, read back. */
  lemma QuotedEnumeration(first: string, mid: seq<string>, last: string)
    requires '`' !in first && '`' !in last
    requires forall i :: 0 <= i < |mid| ==> '`' !in mid[i]
    ensures QuotedItems(Backticked(first) + (PrefixEach(", ", BacktickAll(mid)) + (" und " + Backticked(last)))) ==
            [first] + mid + [last]
  {
    var tail := " und " + Backticked(last);
    var r := PrefixEach(", ", BacktickAll(mid)) + tail;
    assert Backticked(first) + r == "" + Backticked(first) + r;
    SplitQuoted("", first, r);
    OddsPair("", first, Split(r, '`'));
    QuotedTail(mid, tail);
    QuotedLast(" und ", last);
  }

  lemma QuotedMany(filters: seq<string>)
    requires |filters| >= 2
    requires forall i :: 0 <= i < |filters| ==> '`' !in filters[i]
    ensures QuotedItems(FormatFilters(filters)) == filters
  {
    FormatShape(filters);
    QuotedSplit(filters);
  }

  /** The enumeration of two or more names, in the form `FormatShape` gives, read back. */
  lemma QuotedSplit(filters: seq<string>)
    requires |filters| >= 2
    requires forall i :: 0 <= i < |filters| ==> '`' !in filters[i]
    ensures QuotedItems(Backticked(filters[0]) +
              (PrefixEach(", ", BacktickAll(filters[1..|filters| - 1])) + (" und " + Backticked(filters[|filters| - 1])))) ==
            filters
  {
    var n := |filters|;
    var mid := filters[1..n - 1];
    forall i | 0 <= i < |mid|
      ensures '`' !in mid[i]
    {
      assert mid[i] == filters[i + 1];
    }
    QuotedEnumeration(filters[0], mid, filters[n - 1]);
    assert [filters[0]] + mid + [filters[n - 1]] == filters;
  }

  /** The backticked items of the enumeration are the display names again. */
  lemma FormatFiltersRoundTrip(filters: seq<string>)
    requires |filters| > 0
    requires forall i :: 0 <= i < |filters| ==> '`' !in filters[i]
    ensures QuotedItems(FormatFilters(filters)) == filters
  {
    if |filters| == 1 {
      QuotedLast("", filters[0]);
      assert "" + Backticked(filters[0]) == Backticked(filters[0]);
    } else {
      QuotedMany(filters);
    }
  }

  // ---------------------------------------------------------------------
  // Selecting the filters
  // ---------------------------------------------------------------------

  /**
   * `list(set(values) & set(known))`. Python lists a set in an order of its
   * own; this model lists the filters in the order they first occur among
   * the recognised values.
   */
  function SelectFilters(values: seq<string>, mapping: FilterMapping): (fs: seq<string>)
    ensures Distinct(fs)
    ensures forall f :: f in fs <==> f in values && f in mapping
    decreases |values|
  {
    if values == [] then []
    else
      var prev := SelectFilters(values[..|values| - 1], mapping);
      var v := values[|values| - 1];
      assert values == values[..|values| - 1] + [v];
      if v in mapping && v !in prev then prev + [v] else prev
  }

  /** The display name of every selected filter, in the same order. */
  function DisplayNames(filters: seq<string>, mapping: FilterMapping): (ds: seq<string>)
    requires forall i :: 0 <= i < |filters| ==> filters[i] in mapping
    ensures |ds| == |filters|
    ensures forall i :: 0 <= i < |filters| ==> ds[i] == mapping[filters[i]].display
    decreases |filters|
  {
    if filters == [] then []
    else [mapping[filters[0]].display] + DisplayNames(filters[1..], mapping)
  }

  // ---------------------------------------------------------------------
  // Building the result URL
  // ---------------------------------------------------------------------

  /** `key_filters`: each selected filter paired with its category. */
  function KeyFilters(filters: seq<string>, mapping: FilterMapping): (kfs: seq<(string, string)>)
    requires forall i :: 0 <= i < |filters| ==> filters[i] in mapping
    ensures |kfs| == |filters|
    ensures forall i :: 0 <= i < |filters| ==> kfs[i] == (mapping[filters[i]].category, filters[i])
  {
    seq(|filters|, i requires 0 <= i < |filters| => (mapping[filters[i]].category, filters[i]))
  }

  /** `[filter for k2, filter in key_filters if k == k2]`. */
  function FiltersWithKey(kfs: seq<(string, string)>, k: string): (fs: seq<string>)
    ensures |fs| <= |kfs|
    ensures forall f :: f in fs <==> exists i :: 0 <= i < |kfs| && kfs[i] == (k, f)
    decreases |kfs|
  {
    if kfs == [] then []
    else
      var rest := FiltersWithKey(kfs[1..], k);
      assert forall i :: 1 <= i < |kfs| ==> kfs[i] == kfs[1..][i - 1];
      if kfs[0].0 == k then [kfs[0].1] + rest else rest
  }

  /**
   * `set([k for k, _ in key_filters])`, listed in order of first
   * occurrence; any other listing of the same keys gives the same segments
   * in another order (`SegmentOrderIrrelevant`).
   */
  function DistinctKeys(kfs: seq<(string, string)>): (ks: seq<string>)
    ensures Distinct(ks)
    ensures forall k :: k in ks <==> exists i :: 0 <= i < |kfs| && kfs[i].0 == k
    decreases |kfs|
  {
    if kfs == [] then []
    else
      var prev := DistinctKeys(kfs[..|kfs| - 1]);
      var k := kfs[|kfs| - 1].0;
      assert forall i :: 0 <= i < |kfs| - 1 ==> kfs[i] == kfs[..|kfs| - 1][i];
      if k in prev then prev else prev + [k]
  }

  /** The filters under a key, from one part of the pairs after the other: pair order is kept. */
  lemma {:induction false} FiltersWithKeyAppend(a: seq<(string, string)>, b: seq<(string, string)>, k: string)
    ensures FiltersWithKey(a + b, k) == FiltersWithKey(a, k) + FiltersWithKey(b, k)
    decreases |a|
  {
    if a == [] {
      assert a + b == b;
    } else {
      assert (a + b)[0] == a[0];
      assert (a + b)[1..] == a[1..] + b;
      FiltersWithKeyAppend(a[1..], b, k);
    }
  }

  /** A single pair contributes its filter exactly when it has the key. */
  lemma FiltersWithKeySingle(kf: (string, string), k: string)
    ensures FiltersWithKey([kf], k) == if kf.0 == k then [kf.1] else []
  {
    assert [kf][1..] == [];
  }

  /** Filters that occur once among the pairs are listed once under a key. */
  lemma {:induction false} FiltersWithKeyDistinct(kfs: seq<(string, string)>, k: string)
    requires forall i, j :: 0 <= i < j < |kfs| ==> kfs[i].1 != kfs[j].1
    ensures Distinct(FiltersWithKey(kfs, k))
    decreases |kfs|
  {
    if kfs != [] {
      var rest := kfs[1..];
      assert forall i, j :: 0 <= i < j < |rest| ==> rest[i].1 != rest[j].1 by {
        assert forall i :: 0 <= i < |rest| ==> rest[i] == kfs[i + 1];
      }
      FiltersWithKeyDistinct(rest, k);
      if kfs[0].0 == k {
        var fs := FiltersWithKey(rest, k);
        forall j | 0 <= j < |fs|
          ensures fs[j] != kfs[0].1
        {
          assert fs[j] in fs;
          var l :| 0 <= l < |rest| && rest[l] == (k, fs[j]);
          assert rest[l] == kfs[l + 1];
        }
      }
    }
  }

  /** In the URL of a selection, every filter is listed once under its key. */
  lemma SelectedFiltersOnce(values: seq<string>, mapping: FilterMapping, k: string)
    ensures forall i :: 0 <= i < |SelectFilters(values, mapping)| ==> SelectFilters(values, mapping)[i] in mapping
    ensures Distinct(FiltersWithKey(KeyFilters(SelectFilters(values, mapping), mapping), k))
  {
    var fs := SelectFilters(values, mapping);
    forall i | 0 <= i < |fs|
      ensures fs[i] in mapping
    {
      assert fs[i] in fs;
    }
    FiltersWithKeyDistinct(KeyFilters(fs, mapping), k);
  }

  /** `'/' + k + '/' + '-'.join(...)`. */
  function Segment(k: string, kfs: seq<(string, string)>): string
  {
    "/" + k + "/" + Join("-", FiltersWithKey(kfs, k))
  }

  /** `url_filters`: one segment per key, in the order of `keys`. */
  function UrlSegments(keys: seq<string>, kfs: seq<(string, string)>): (segs: seq<string>)
    ensures |segs| == |keys| && forall i :: 0 <= i < |keys| ==> segs[i] == Segment(keys[i], kfs)
  {
    seq(|keys|, i requires 0 <= i < |keys| => Segment(keys[i], kfs))
  }

  /** `f'{BFZ_URL}/list{url_filters}'`. */
  function ResultUrl(filters: seq<string>, mapping: FilterMapping): (url: string)
    requires forall i :: 0 <= i < |filters| ==> filters[i] in mapping
    ensures |url| >= |ListPrefix| && url[..|ListPrefix|] == ListPrefix
  {
    var kfs := KeyFilters(filters, mapping);
    ListPrefix + Concat(UrlSegments(DistinctKeys(kfs), kfs))
  }

  /** Each category key with the selected filters that fall under it. */
  function KeyGroups(filters: seq<string>, mapping: FilterMapping): seq<(string, seq<string>)>
    requires forall i :: 0 <= i < |filters| ==> filters[i] in mapping
  {
    var kfs := KeyFilters(filters, mapping);
    GroupsFor(DistinctKeys(kfs), kfs)
  }

  /**
   * Every selected filter is listed under exactly one key of the URL: the
   * one of its own category, which is among the keys.
   */
  lemma EachFilterInOwnSegment(filters: seq<string>, mapping: FilterMapping)
    requires forall i :: 0 <= i < |filters| ==> filters[i] in mapping
    ensures var kfs := KeyFilters(filters, mapping);
            var ks := DistinctKeys(kfs);
            Distinct(ks) &&
            (forall i :: 0 <= i < |filters| ==> mapping[filters[i]].category in ks) &&
            forall i, j :: 0 <= i < |filters| && 0 <= j < |ks| ==>
              (filters[i] in FiltersWithKey(kfs, ks[j]) <==> ks[j] == mapping[filters[i]].category)
  {
    var kfs := KeyFilters(filters, mapping);
    var ks := DistinctKeys(kfs);
    forall i | 0 <= i < |filters|
      ensures mapping[filters[i]].category in ks
    {
      assert kfs[i].0 == mapping[filters[i]].category;
    }
    forall i, j | 0 <= i < |filters| && 0 <= j < |ks|
      ensures filters[i] in FiltersWithKey(kfs, ks[j]) <==> ks[j] == mapping[filters[i]].category
    {
      if filters[i] in FiltersWithKey(kfs, ks[j]) {
        var l :| 0 <= l < |kfs| && kfs[l] == (ks[j], filters[i]);
        assert filters[l] == filters[i];
      }
      if ks[j] == mapping[filters[i]].category {
        assert kfs[i] == (ks[j], filters[i]);
      }
    }
  }

  // ---------------------------------------------------------------------
  // Reading a result URL back
  // ---------------------------------------------------------------------

  /** Consecutive pieces read as a key and its `-`-separated filters. */
  function Pairs(ps: seq<string>): seq<(string, seq<string>)>
  {
    if |ps| < 2 then [] else [(ps[0], Split(ps[1], '-'))] + Pairs(ps[2..])
  }

  /** Reads a result URL back into its keys and their filters. */
  function ParseUrl(url: string): Option<seq<(string, seq<string>)>>
  {
    if |url| < |ListPrefix| || url[..|ListPrefix|] != ListPrefix then None
    else
      var parts := Split(url[|ListPrefix|..], '/');
      if parts[0] != "" || |parts| % 2 != 1 then None else Some(Pairs(parts[1..]))
  }

  /** No separator of the URL occurs in a category or a filter id. */
  predicate UrlSafe(kfs: seq<(string, string)>)
  {
    forall i :: 0 <= i < |kfs| ==> '/' !in kfs[i].0 && '/' !in kfs[i].1 && '-' !in kfs[i].1
  }

  lemma JoinedFiltersSafe(kfs: seq<(string, string)>, k: string)
    requires UrlSafe(kfs)
    ensures '/' !in Join("-", FiltersWithKey(kfs, k))
    ensures forall j :: 0 <= j < |FiltersWithKey(kfs, k)| ==> '-' !in FiltersWithKey(kfs, k)[j]
  {
    var fs := FiltersWithKey(kfs, k);
    forall j | 0 <= j < |fs|
      ensures '/' !in fs[j] && '-' !in fs[j]
    {
      assert fs[j] in fs;
      var i :| 0 <= i < |kfs| && kfs[i] == (k, fs[j]);
    }
    JoinAvoids("-", fs, '/');
  }

  lemma SplitSegment(k: string, joined: string, r: string)
    requires '/' !in k && '/' !in joined && Split(r, '/')[0] == ""
    ensures Split("/" + k + "/" + joined + r, '/') == ["", k, joined] + Split(r, '/')[1..]
  {
    assert "/" + k + "/" + joined + r == "" + ['/'] + (k + ['/'] + (joined + r));
    SplitAt("", k + ['/'] + (joined + r), '/');
    SplitAt(k, joined + r, '/');
    SplitPrepend(joined, r, '/');
    assert joined + "" == joined;
  }

  /** The key groups of `keys`, in order. */
  function GroupsFor(keys: seq<string>, kfs: seq<(string, string)>): (gs: seq<(string, seq<string>)>)
    ensures |gs| == |keys| && forall i :: 0 <= i < |keys| ==> gs[i] == (keys[i], FiltersWithKey(kfs, keys[i]))
  {
    seq(|keys|, i requires 0 <= i < |keys| => (keys[i], FiltersWithKey(kfs, keys[i])))
  }

  lemma {:induction false} SegmentsRoundTrip(keys: seq<string>, kfs: seq<(string, string)>)
    requires UrlSafe(kfs)
    requires forall i :: 0 <= i < |keys| ==> '/' !in keys[i] && |FiltersWithKey(kfs, keys[i])| > 0
    ensures var parts := Split(Concat(UrlSegments(keys, kfs)), '/');
            parts[0] == "" && |parts| == 2 * |keys| + 1 && Pairs(parts[1..]) == GroupsFor(keys, kfs)
    decreases |keys|
  {
    if keys == [] {
      assert Concat(UrlSegments(keys, kfs)) == "";
    } else {
      var k := keys[0];
      var rest := keys[1..];
      var fs := FiltersWithKey(kfs, k);
      ConcatSegmentsCons(keys, kfs);
      SegmentsRoundTrip(rest, kfs);
      JoinedFiltersSafe(kfs, k);
      SegmentParts(k, fs, Concat(UrlSegments(rest, kfs)), GroupsFor(rest, kfs), |rest|);
      GroupsForCons(keys, kfs);
    }
  }

  lemma ConcatSegmentsCons(keys: seq<string>, kfs: seq<(string, string)>)
    requires keys != []
    ensures Concat(UrlSegments(keys, kfs)) ==
            "/" + keys[0] + "/" + Join("-", FiltersWithKey(kfs, keys[0])) + Concat(UrlSegments(keys[1..], kfs))
  {
    assert UrlSegments(keys, kfs)[1..] == UrlSegments(keys[1..], kfs);
  }

  lemma GroupsForCons(keys: seq<string>, kfs: seq<(string, string)>)
    requires keys != []
    ensures GroupsFor(keys, kfs) == [(keys[0], FiltersWithKey(kfs, keys[0]))] + GroupsFor(keys[1..], kfs)
  {
    assert GroupsFor(keys, kfs)[1..] == GroupsFor(keys[1..], kfs);
  }

  /** One more segment in front adds its key and filters in front of what is read. */
  lemma SegmentParts(k: string, fs: seq<string>, r: string, gs: seq<(string, seq<string>)>, n: nat)
    requires '/' !in k && '/' !in Join("-", fs) && |fs| > 0
    requires forall j :: 0 <= j < |fs| ==> '-' !in fs[j]
    requires var parts := Split(r, '/'); parts[0] == "" && |parts| == 2 * n + 1 && Pairs(parts[1..]) == gs
    ensures var parts := Split("/" + k + "/" + Join("-", fs) + r, '/');
            parts[0] == "" && |parts| == 2 * (n + 1) + 1 && Pairs(parts[1..]) == [(k, fs)] + gs
  {
    var joined := Join("-", fs);
    SplitSegment(k, joined, r);
    SplitJoin(fs, '-');
    var tail := Split(r, '/')[1..];
    assert ([k, joined] + tail)[2..] == tail;
  }

  /**
   * Reading the result URL back gives every category key of the selection
   * with exactly the selected filters of that category.
   */
  lemma UrlRoundTrip(filters: seq<string>, mapping: FilterMapping)
    requires forall i :: 0 <= i < |filters| ==> filters[i] in mapping
    requires forall i :: 0 <= i < |filters| ==>
               '/' !in filters[i] && '-' !in filters[i] && '/' !in mapping[filters[i]].category
    ensures ParseUrl(ResultUrl(filters, mapping)) == Some(KeyGroups(filters, mapping))
  {
    var kfs := KeyFilters(filters, mapping);
    assert UrlSafe(kfs);
    KeysHaveFilters(kfs);
    PairsParse(DistinctKeys(kfs), kfs);
  }

  /** The URL built from any URL-safe pairs reads back as their key groups. */
  lemma PairsParse(keys: seq<string>, kfs: seq<(string, string)>)
    requires UrlSafe(kfs)
    requires forall i :: 0 <= i < |keys| ==> '/' !in keys[i] && |FiltersWithKey(kfs, keys[i])| > 0
    ensures ParseUrl(ListPrefix + Concat(UrlSegments(keys, kfs))) == Some(GroupsFor(keys, kfs))
  {
    var rest := Concat(UrlSegments(keys, kfs));
    SegmentsRoundTrip(keys, kfs);
    ParsePrefixed(rest, GroupsFor(keys, kfs));
  }

  /** A URL under the list prefix is read from the text after the prefix. */
  lemma ParsePrefixed(rest: string, gs: seq<(string, seq<string>)>)
    requires var parts := Split(rest, '/'); parts[0] == "" && |parts| % 2 == 1 && Pairs(parts[1..]) == gs
    ensures ParseUrl(ListPrefix + rest) == Some(gs)
  {
    var url := ListPrefix + rest;
    assert url[..|ListPrefix|] == ListPrefix;
    assert url[|ListPrefix|..] == rest;
  }

  /** Every key of the set has at least one filter under it. */
  lemma KeysHaveFilters(kfs: seq<(string, string)>)
    requires UrlSafe(kfs)
    ensures forall i :: 0 <= i < |DistinctKeys(kfs)| ==>
              '/' !in DistinctKeys(kfs)[i] && |FiltersWithKey(kfs, DistinctKeys(kfs)[i])| > 0
  {
    var ks := DistinctKeys(kfs);
    forall i | 0 <= i < |ks|
      ensures '/' !in ks[i] && |FiltersWithKey(kfs, ks[i])| > 0
    {
      assert ks[i] in ks;
      var l :| 0 <= l < |kfs| && kfs[l].0 == ks[i];
      assert kfs[l] == (ks[i], kfs[l].1);
      assert kfs[l].1 in FiltersWithKey(kfs, ks[i]);
    }
  }

  // ---------------------------------------------------------------------
  // Independence from the order of the key set
  // ---------------------------------------------------------------------

  lemma {:induction false} DistinctCount(a: seq<string>, x: string)
    requires Distinct(a)
    ensures multiset(a)[x] == if x in a then 1 else 0
    decreases |a|
  {
    if a != [] {
      var p := a[..|a| - 1];
      assert a == p + [a[|a| - 1]];
      DistinctCount(p, x);
    }
  }

  lemma MultisetRemove(b: seq<string>, j: nat)
    requires j < |b|
    ensures multiset(b[..j] + b[j + 1..]) == multiset(b) - multiset{b[j]}
  {
    assert b == b[..j] + [b[j]] + b[j + 1..];
  }

  lemma SegmentsSplice(b: seq<string>, j: nat, kfs: seq<(string, string)>)
    requires j < |b|
    ensures multiset(UrlSegments(b, kfs)) ==
            multiset(UrlSegments(b[..j] + b[j + 1..], kfs)) + multiset{Segment(b[j], kfs)}
  {
    var sb := UrlSegments(b, kfs);
    assert UrlSegments(b[..j] + b[j + 1..], kfs) == sb[..j] + sb[j + 1..];
    assert sb == sb[..j] + [sb[j]] + sb[j + 1..];
  }

  lemma SegmentsCons(a: seq<string>, kfs: seq<(string, string)>)
    requires |a| > 0
    ensures multiset(UrlSegments(a, kfs)) == multiset(UrlSegments(a[1..], kfs)) + multiset{Segment(a[0], kfs)}
  {
    var sa := UrlSegments(a, kfs);
    assert sa == [sa[0]] + UrlSegments(a[1..], kfs);
  }

  /** One step of the permutation argument: the first key of `a` is matched at `j` in `b`. */
  lemma SegmentsPermuteStep(a: seq<string>, b: seq<string>, j: nat, kfs: seq<(string, string)>)
    requires |a| > 0 && j < |b| && b[j] == a[0]
    requires multiset(UrlSegments(a[1..], kfs)) == multiset(UrlSegments(b[..j] + b[j + 1..], kfs))
    ensures multiset(UrlSegments(a, kfs)) == multiset(UrlSegments(b, kfs))
  {
    SegmentsCons(a, kfs);
    SegmentsSplice(b, j, kfs);
  }

  lemma {:induction false} SegmentsPermute(a: seq<string>, b: seq<string>, kfs: seq<(string, string)>)
    requires multiset(a) == multiset(b)
    ensures multiset(UrlSegments(a, kfs)) == multiset(UrlSegments(b, kfs))
    decreases |a|
  {
    if a == [] {
      assert |multiset(b)| == 0;
    } else {
      assert a[0] in multiset(b);
      var j :| 0 <= j < |b| && b[j] == a[0];
      assert a == [a[0]] + a[1..];
      MultisetRemove(b, j);
      SegmentsPermute(a[1..], b[..j] + b[j + 1..], kfs);
      SegmentsPermuteStep(a, b, j, kfs);
    }
  }

  /**
   * The segments do not depend on the order in which the key set is
   * listed: two duplicate-free listings of the same keys give the same
   * segments, each once.
   */
  lemma SegmentOrderIrrelevant(keys1: seq<string>, keys2: seq<string>, kfs: seq<(string, string)>)
    requires Distinct(keys1) && Distinct(keys2)
    requires forall k :: k in keys1 <==> k in keys2
    ensures multiset(UrlSegments(keys1, kfs)) == multiset(UrlSegments(keys2, kfs))
  {
    forall x
      ensures multiset(keys1)[x] == multiset(keys2)[x]
    {
      DistinctCount(keys1, x);
      DistinctCount(keys2, x);
    }
    assert multiset(keys1) == multiset(keys2);
    SegmentsPermute(keys1, keys2, kfs);
  }

  // ---------------------------------------------------------------------
  // The action
  // ---------------------------------------------------------------------

  /** What the action answers: not understood, or the display names and the URL. */
  datatype Reply = NotUnderstood | Found(displayText: string, url: string)

  /**
   * The filter part of `run`: an empty selection gets the "not understood"
   * reply, otherwise the enumeration of display names and the result URL.
   */
  function Run(values: seq<string>, mapping: FilterMapping): (r: Reply)
    ensures r.NotUnderstood? <==> forall i :: 0 <= i < |values| ==> values[i] !in mapping
    ensures r.Found? ==> |r.url| >= |ListPrefix| && r.url[..|ListPrefix|] == ListPrefix
  {
    var filters := SelectFilters(values, mapping);
    if filters == [] then
      assert forall i :: 0 <= i < |values| ==> values[i] !in filters;
      NotUnderstood
    else
      assert filters[0] in filters;
      Found(FormatFilters(DisplayNames(filters, mapping)), ResultUrl(filters, mapping))
  }

  /**
   * When the action finds something, its enumeration lists the display
   * names of the selected filters and its URL lists each of their
   * categories with the selected filters of that category, provided no
   * name or id contains the characters that delimit them.
   */
  lemma RunReadsBack(values: seq<string>, mapping: FilterMapping)
    requires forall f :: f in mapping ==>
               '`' !in mapping[f].display && '/' !in f && '-' !in f && '/' !in mapping[f].category
    requires Run(values, mapping).Found?
    ensures QuotedItems(Run(values, mapping).displayText) ==
            DisplayNames(SelectFilters(values, mapping), mapping)
    ensures ParseUrl(Run(values, mapping).url) ==
            Some(KeyGroups(SelectFilters(values, mapping), mapping))
  {
    var fs := SelectFilters(values, mapping);
    assert forall i :: 0 <= i < |fs| ==> fs[i] in mapping by {
      forall i | 0 <= i < |fs| ensures fs[i] in mapping {
        assert fs[i] in fs;
      }
    }
    var ds := DisplayNames(fs, mapping);
    FormatFiltersRoundTrip(ds);
    UrlRoundTrip(fs, mapping);
  }

  /** The texts the dispatcher utters for a reply. */
  function Messages(r: Reply): (ms: seq<string>)
    ensures |ms| == if r.NotUnderstood? then 1 else 2
  {
    match r
    case NotUnderstood => ["Leider ich habe deine Anfrage nicht verstanden"]
    case Found(displayText, url) =>
      ["Ich habe Angebote gefunden für: " + displayText,
       "Die Ergebnisse stehen hier zu verfügung " + url]
  }
}
