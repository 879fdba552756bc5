/**
 * Sorting of character summaries: `snakeCaseToCamelCase`, the sort-key
 * pipeline of `getSummarySort` and its comparator `b[key] - a[key]`, and
 * the order `Array.prototype.sort` puts the summaries in with it.
 */
module SummarySort {
  import opened Wrappers
  import opened JsString

  /** A character's 1v1 summary over the look-back window, as the API returns it. */
  datatype Summary = Summary(
    playerCharacterId: int,
    race: string,
    games: int,
    ratingLast: int,
    ratingAvg: int,
    ratingMax: int)

  // ---------------------------------------------------------------------
  // snakeCaseToCamelCase: str.toLowerCase().replace(/([_][a-z])/g, ...)
  // ---------------------------------------------------------------------

  /** Whether an `_x` group, `x` in a-z, starts at index `i`. */
  predicate GroupAt(s: string, i: int)
  {
    0 <= i < |s| - 1 && s[i] == '_' && IsAsciiLower(s[i + 1])
  }

  predicate NoGroup(s: string)
  {
    forall i :: 0 <= i < |s| ==> !GroupAt(s, i)
  }

  /**
   * The global replace of `/([_][a-z])/g`: scanning left to right, every
   * `_x` group not overlapping an earlier one becomes the upper-case `X`;
   * every other character, any other `_` included, is copied.
   */
  function CamelGroups(s: string): string
  {
    if GroupAt(s, 0) then [UpperChar(s[1])] + CamelGroups(s[2..])
    else if s == [] then []
    else [s[0]] + CamelGroups(s[1..])
  }

  /** No `_x` group survives the replace: a copied `_` is never followed by a lower-case letter. */
  lemma {:induction false} CamelGroupsLeavesNoGroup(s: string)
    ensures NoGroup(CamelGroups(s))
    ensures CamelGroups(s) != [] ==> s != [] && (if GroupAt(s, 0) then CamelGroups(s)[0] == UpperChar(s[1]) else CamelGroups(s)[0] == s[0])
  {
    var r := CamelGroups(s);
    if GroupAt(s, 0) {
      var t := CamelGroups(s[2..]);
      CamelGroupsLeavesNoGroup(s[2..]);
      assert forall i :: 0 < i < |r| ==> (GroupAt(r, i) <==> GroupAt(t, i - 1));
    } else if s != [] {
      var t := CamelGroups(s[1..]);
      CamelGroupsLeavesNoGroup(s[1..]);
      assert forall i :: 0 < i < |r| ==> (GroupAt(r, i) <==> GroupAt(t, i - 1));
    }
  }

  /** Number of groups the global replace rewrites. */
  function GroupCount(s: string): nat
  {
    if GroupAt(s, 0) then 1 + GroupCount(s[2..])
    else if s == [] then 0
    else GroupCount(s[1..])
  }

  /** Each rewritten group loses exactly its `_`: the output is shorter by the number of groups, and so is its count of '_'. */
  lemma {:induction false} CamelGroupsCounts(s: string)
    ensures |CamelGroups(s)| == |s| - GroupCount(s)
    ensures multiset(CamelGroups(s))['_'] == multiset(s)['_'] - GroupCount(s)
  {
    if GroupAt(s, 0) {
      CamelGroupsCounts(s[2..]);
      assert s == [s[0], s[1]] + s[2..];
      assert UpperChar(s[1]) != '_';
    } else if s != [] {
      CamelGroupsCounts(s[1..]);
      assert s == [s[0]] + s[1..];
    }
  }

  /** A string with no `_x` group is left as it is. */
  lemma {:induction false} CamelGroupsNoGroup(s: string)
    requires NoGroup(s)
    ensures CamelGroups(s) == s
    ensures GroupCount(s) == 0
  {
    if s != [] {
      assert !GroupAt(s, 0);
      assert forall i :: 0 <= i < |s| - 1 && GroupAt(s[1..], i) ==> GroupAt(s, i + 1);
      CamelGroupsNoGroup(s[1..]);
    }
  }

  /** Replacing again finds nothing more to replace. */
  lemma CamelGroupsIdempotent(s: string)
    ensures CamelGroups(CamelGroups(s)) == CamelGroups(s)
  {
    CamelGroupsLeavesNoGroup(s);
    CamelGroupsNoGroup(CamelGroups(s));
  }

  /** The replace works word by word: a cut before an '_'-free, non-'_'-ending left part separates the two calls. */
  lemma {:induction false} CamelGroupsAppend(a: string, b: string)
    requires a == [] || a[|a| - 1] != '_'
    ensures CamelGroups(a + b) == CamelGroups(a) + CamelGroups(b)
  {
    if a == [] {
      assert a + b == b;
    } else if GroupAt(a, 0) {
      assert GroupAt(a + b, 0);
      assert (a + b)[2..] == a[2..] + b;
      CamelGroupsAppend(a[2..], b);
    } else {
      assert !GroupAt(a + b, 0);
      assert (a + b)[1..] == a[1..] + b;
      CamelGroupsAppend(a[1..], b);
    }
  }

  /** `snakeCaseToCamelCase`. */
  function SnakeCaseToCamelCase(str: string): string
  {
    CamelGroups(ToLower(str))
  }

  /** A word without groups followed by `_x`: the `_` goes and `x` is upper-cased. */
  lemma CamelGroupsJoin(a: string, c: char, b: string)
    requires NoGroup(a) && (a == [] || a[|a| - 1] != '_') && IsAsciiLower(c)
    ensures CamelGroups(a + ['_', c] + b) == a + [UpperChar(c)] + CamelGroups(b)
  {
    var g := ['_', c] + b;
    assert a + ['_', c] + b == a + g;
    CamelGroupsAppend(a, g);
    CamelGroupsNoGroup(a);
    CamelGroupsGroupHead(c, b);
    assert CamelGroups(a + g) == a + ([UpperChar(c)] + CamelGroups(b));
  }

  /** The same for `snakeCaseToCamelCase` on lower-case input. */
  lemma SnakeCaseJoin(a: string, c: char, b: string)
    requires NoAsciiUpper(a) && NoGroup(a) && (a == [] || a[|a| - 1] != '_')
    requires IsAsciiLower(c) && NoAsciiUpper(b)
    ensures SnakeCaseToCamelCase(a + ['_', c] + b) == a + [UpperChar(c)] + CamelGroups(b)
  {
    var g := ['_', c] + b;
    NoAsciiUpperAppend(['_', c], b);
    NoAsciiUpperAppend(a, g);
    assert a + ['_', c] + b == a + g;
    ToLowerNoUpper(a + g);
    CamelGroupsJoin(a, c, b);
  }

  lemma NoAsciiUpperAppend(a: string, b: string)
    requires NoAsciiUpper(a) && NoAsciiUpper(b)
    ensures NoAsciiUpper(a + b)
  {
    forall i | 0 <= i < |a + b| ensures !IsAsciiUpper((a + b)[i]) {
      if i >= |a| { assert (a + b)[i] == b[i - |a|]; }
    }
  }

  lemma CamelGroupsGroupHead(c: char, b: string)
    requires IsAsciiLower(c)
    ensures CamelGroups(['_', c] + b) == [UpperChar(c)] + CamelGroups(b)
  {
    var g := ['_', c] + b;
    assert GroupAt(g, 0);
    assert g[2..] == b;
  }

  // ---------------------------------------------------------------------
  // getSummarySort: the key pipeline
  // ---------------------------------------------------------------------

  /** `replace(/\s+/, "_")` without the `g` flag: only the first run of whitespace becomes one `_`. */
  function ReplaceFirstWhitespaceRun(s: string): string
  {
    if s == [] then []
    else if IsWhitespace(s[0]) then "_" + TrimStart(s)
    else [s[0]] + ReplaceFirstWhitespaceRun(s[1..])
  }

  /**
   * Splitting `s` at its first whitespace run, `p + w + q`: the run `w`
   * becomes a single `_` and the rest `q` is kept as it is, later
   * whitespace included.
   */
  lemma {:induction false} ReplaceFirstWhitespaceRunSplit(p: string, w: string, q: string)
    requires NoWhitespace(p) && w != [] && AllWhitespace(w)
    requires q == [] || !IsWhitespace(q[0])
    ensures ReplaceFirstWhitespaceRun(p + w + q) == p + "_" + q
  {
    if p == [] {
      assert p + w + q == w + q;
      TrimStartPadding(w, q);
    } else {
      assert (p + w + q)[1..] == p[1..] + w + q;
      ReplaceFirstWhitespaceRunSplit(p[1..], w, q);
    }
  }

  /** A string without whitespace is left as it is. */
  lemma {:induction false} ReplaceFirstWhitespaceRunNone(s: string)
    requires NoWhitespace(s)
    ensures ReplaceFirstWhitespaceRun(s) == s
  {
    if s != [] {
      ReplaceFirstWhitespaceRunNone(s[1..]);
    }
  }

  /** The sort key `getSummarySort` computes from `sortBy`. */
  function SummarySortKey(sortBy: string): string
  {
    SnakeCaseToCamelCase(ReplaceFirstWhitespaceRun(ToLower(Trim(sortBy))))
  }

  lemma {:induction false} ReplaceToLower(s: string)
    ensures ReplaceFirstWhitespaceRun(ToLower(s)) == ToLower(ReplaceFirstWhitespaceRun(s))
  {
    if s != [] {
      assert ToLower(s)[1..] == ToLower(s[1..]);
      if IsWhitespace(s[0]) {
        TrimStartToLower(s);
      } else {
        ReplaceToLower(s[1..]);
      }
    }
  }

  /** The key does not depend on the case of the letters in `sortBy`. */
  lemma SummarySortKeyIgnoresCase(sortBy: string)
    ensures SummarySortKey(ToLower(sortBy)) == SummarySortKey(sortBy)
  {
    TrimToLower(sortBy);
    ToLowerProperties(Trim(sortBy));
  }

  /** The key does not depend on whitespace around `sortBy`. */
  lemma SummarySortKeyIgnoresPadding(w1: string, sortBy: string, w2: string)
    requires AllWhitespace(w1) && AllWhitespace(w2)
    ensures SummarySortKey(w1 + sortBy + w2) == SummarySortKey(sortBy)
  {
    TrimIgnoresPadding(w1, sortBy, w2);
  }

  /** A key already written in lower-case snake case, with no whitespace, only goes through the camel-casing. */
  lemma SummarySortKeyOfSnakeKey(k: string)
    requires NoWhitespace(k) && NoAsciiUpper(k)
    ensures SummarySortKey(k) == CamelGroups(k)
  {
    if k != [] {
      TrimPadding("", k, "");
      assert "" + k + "" == k;
    }
    ToLowerNoUpper(k);
    ReplaceFirstWhitespaceRunNone(k);
  }

  /** The default "rating_last" names the field `ratingLast`. */
  lemma SummarySortKeyDefault()
    ensures SummarySortKey("rating_last") == "ratingLast"
  {
    assert NoWhitespace("rating_last") && NoAsciiUpper("rating_last");
    SummarySortKeyOfSnakeKey("rating_last");
    RatingLastCamel();
  }

  lemma RatingLastCamel()
    ensures CamelGroups("rating_last") == "ratingLast"
  {
    assert "rating" + ['_', 'l'] + "ast" == "rating_last";
    CamelGroupsJoin("rating", 'l', "ast");
    CamelGroupsNoGroup("ast");
    assert "rating" + ['L'] + "ast" == "ratingLast";
  }

  /**
   * Two words with whitespace around and between them: the surrounding
   * whitespace goes, the run between them becomes `_`, and the snake-case
   * key is camel-cased.
   */
  lemma SummarySortKeyOfTwoWords(w1: string, a: string, w: string, b: string, w2: string)
    requires AllWhitespace(w1) && AllWhitespace(w) && AllWhitespace(w2) && w != []
    requires a != [] && b != [] && NoWhitespace(a) && NoWhitespace(b)
    ensures SummarySortKey(w1 + a + w + b + w2) == SnakeCaseToCamelCase(a + "_" + b)
  {
    var m := a + w + b;
    assert Trim(w1 + a + w + b + w2) == m by {
      assert w1 + a + w + b + w2 == w1 + m + w2;
      assert m[0] == a[0] && m[|m| - 1] == b[|b| - 1];
      TrimPadding(w1, m, w2);
    }
    var la, lw, lb := ToLower(a), ToLower(w), ToLower(b);
    assert ToLower(m) == la + lw + lb by {
      ToLowerAppend(a, w);
      ToLowerAppend(a + w, b);
    }
    assert ReplaceFirstWhitespaceRun(la + lw + lb) == la + "_" + lb by {
      assert NoWhitespace(la) && AllWhitespace(lw) && lw != [];
      assert !IsWhitespace(lb[0]);
      ReplaceFirstWhitespaceRunSplit(la, lw, lb);
    }
    assert ToLower(la + "_" + lb) == ToLower(a + "_" + b) by {
      ToLowerAppend(la, "_");
      ToLowerAppend(la + "_", lb);
      ToLowerAppend(a, "_");
      ToLowerAppend(a + "_", b);
      ToLowerProperties(a);
      ToLowerProperties(b);
    }
  }

  /** Case and spacing do not matter: " Rating Last " names `ratingLast` too. */
  lemma SummarySortKeySpelling()
    ensures SummarySortKey(" Rating Last ") == "ratingLast"
  {
    SummarySortKeyOfTwoWords(" ", "Rating", " ", "Last", " ");
    assert " " + "Rating" + " " + "Last" + " " == " Rating Last ";
    LowerRatingLast();
    RatingLastCamel();
  }

  lemma LowerRatingLast()
    ensures ToLower("Rating" + "_" + "Last") == "rating_last"
  {
  }

  // ---------------------------------------------------------------------
  // The comparator (a, b) => b[key] - a[key]
  // ---------------------------------------------------------------------

  /** The numeric property `key` of a summary; `None` where the property is missing or not a number. */
  function Field(s: Summary, key: string): Option<int>
  {
    if key == "playerCharacterId" then Some(s.playerCharacterId)
    else if key == "games" then Some(s.games)
    else if key == "ratingLast" then Some(s.ratingLast)
    else if key == "ratingAvg" then Some(s.ratingAvg)
    else if key == "ratingMax" then Some(s.ratingMax)
    else None
  }

  predicate IsNumericKey(key: string)
  {
    key in {"playerCharacterId", "games", "ratingLast", "ratingAvg", "ratingMax"}
  }

  /**
   * `b[key] - a[key]`; `None` stands for NaN, which the subtraction gives
   * when the property is missing (undefined) or a string. Negative means
   * `a` goes first: a larger value sorts earlier.
   */
  function Compare(key: string, a: Summary, b: Summary): (r: Option<int>)
    ensures r.Some? <==> IsNumericKey(key)
    ensures r.Some? ==> (r.value < 0 <==> Field(a, key).value > Field(b, key).value)
    ensures r.Some? ==> (r.value == 0 <==> Field(a, key).value == Field(b, key).value)
  {
    match (Field(a, key), Field(b, key))
    case (Some(x), Some(y)) => Some(y - x)
    case _ => None
  }

  lemma CompareAntisymmetric(key: string, a: Summary, b: Summary)
    requires IsNumericKey(key)
    ensures Compare(key, a, b).value == -Compare(key, b, a).value
  {
  }

  /** The value the sort orders by: the field, or a constant where every comparison is NaN. */
  function SortValue(s: Summary, key: string): int
  {
    match Field(s, key)
    case Some(v) => v
    case None => 0
  }

  /**
   * The comparator as `Array.prototype.sort` reads it: a NaN result counts
   * as +0, meaning "keep the two in their current order".
   */
  function SortCompare(key: string, a: Summary, b: Summary): (r: int)
    ensures r == SortValue(b, key) - SortValue(a, key)
  {
    match Compare(key, a, b)
    case Some(v) => v
    case None => 0
  }

  /** No pair is out of order for the comparator: later summaries never compare as "should come first." */
  predicate SortedBy(key: string, s: seq<Summary>)
  {
    forall i, j :: 0 <= i < j < |s| ==> SortCompare(key, s[i], s[j]) <= 0
  }

  predicate Descending(key: string, s: seq<Summary>)
  {
    forall i, j :: 0 <= i < j < |s| ==> SortValue(s[i], key) >= SortValue(s[j], key)
  }

  /** For a numeric key, sorted by the comparator means descending by the field. */
  lemma SortedByIsDescending(key: string, s: seq<Summary>)
    requires IsNumericKey(key)
    ensures SortedBy(key, s) <==> (forall i, j :: 0 <= i < j < |s| ==> Field(s[i], key).value >= Field(s[j], key).value)
  {
  }

  // ---------------------------------------------------------------------
  // The outcome of summary.sort(comparator)
  // ---------------------------------------------------------------------

  /** Puts `x` before the first element whose value is not above its own. */
  function Insert(key: string, x: Summary, s: seq<Summary>): (r: seq<Summary>)
    ensures multiset(r) == multiset(s) + multiset{x}
  {
    if s == [] || SortValue(s[0], key) <= SortValue(x, key) then [x] + s
    else
      assert s == [s[0]] + s[1..];
      [s[0]] + Insert(key, x, s[1..])
  }

  /** Inserting under a common upper bound of the values stays under it. */
  lemma {:induction false} InsertBounded(key: string, x: Summary, s: seq<Summary>, bound: int)
    requires SortValue(x, key) <= bound
    requires forall k :: 0 <= k < |s| ==> SortValue(s[k], key) <= bound
    ensures forall k :: 0 <= k < |Insert(key, x, s)| ==> SortValue(Insert(key, x, s)[k], key) <= bound
  {
    if s != [] && SortValue(s[0], key) > SortValue(x, key) {
      InsertBounded(key, x, s[1..], bound);
    }
  }

  /** Inserting into a descending sequence keeps it descending. */
  lemma {:induction false} InsertDescending(key: string, x: Summary, s: seq<Summary>)
    requires Descending(key, s)
    ensures Descending(key, Insert(key, x, s))
  {
    if s != [] && SortValue(s[0], key) > SortValue(x, key) {
      var t := Insert(key, x, s[1..]);
      InsertDescending(key, x, s[1..]);
      InsertBounded(key, x, s[1..], SortValue(s[0], key));
      var r := [s[0]] + t;
      forall i, j | 0 <= i < j < |r|
        ensures SortValue(r[i], key) >= SortValue(r[j], key)
      {
        assert r[j] == t[j - 1];
        if i > 0 {
          assert r[i] == t[i - 1];
        }
      }
    }
  }

  /**
   * The order the stable sort of ECMAScript 2019 puts summaries in: a
   * stable insertion sort on the comparator. It specifies the outcome,
   * not the engine's algorithm.
   */
  function SortSummaries(key: string, s: seq<Summary>): (r: seq<Summary>)
    ensures multiset(r) == multiset(s)
    ensures SortedBy(key, r)
  {
    if s == [] then [] else
    assert s == [s[0]] + s[1..];
    var t := SortSummaries(key, s[1..]);
    assert Descending(key, t);
    InsertDescending(key, s[0], t);
    Insert(key, s[0], t)
  }

  /** The summaries whose sort value is `v`, in their order. */
  function WithValue(key: string, s: seq<Summary>, v: int): seq<Summary>
  {
    if s == [] then []
    else if SortValue(s[0], key) == v then [s[0]] + WithValue(key, s[1..], v)
    else WithValue(key, s[1..], v)
  }

  /** Everything `Insert` passes over has a larger value than `x`, so among `x`'s equals it lands first. */
  lemma {:induction false} InsertWithValue(key: string, x: Summary, s: seq<Summary>, v: int)
    ensures WithValue(key, Insert(key, x, s), v)
      == if SortValue(x, key) == v then [x] + WithValue(key, s, v) else WithValue(key, s, v)
  {
    if s == [] || SortValue(s[0], key) <= SortValue(x, key) {
      assert ([x] + s)[1..] == s;
    } else {
      var t := Insert(key, x, s[1..]);
      InsertWithValue(key, x, s[1..], v);
      assert ([s[0]] + t)[1..] == t;
    }
  }

  /**
   * The sort is stable: summaries of equal value keep their fetched order.
   * With SortSummaries' own contract this fixes the result completely.
   */
  lemma {:induction false} SortStable(key: string, s: seq<Summary>, v: int)
    ensures WithValue(key, SortSummaries(key, s), v) == WithValue(key, s, v)
  {
    if s != [] {
      SortStable(key, s[1..], v);
      InsertWithValue(key, s[0], SortSummaries(key, s[1..]), v);
    }
  }

  /** With a key that is not a numeric property every comparison is NaN, so the sort changes nothing. */
  lemma {:induction false} SortUnknownKey(key: string, s: seq<Summary>)
    requires !IsNumericKey(key)
    ensures SortSummaries(key, s) == s
  {
    if s != [] {
      SortUnknownKey(key, s[1..]);
    }
  }

  /** Sorting by "games": the summary with more games comes first. */
  lemma SortByGamesExample(a: Summary, b: Summary)
    requires a.playerCharacterId == 100 && a.games == 5
    requires b.playerCharacterId == 200 && b.games == 12
    ensures SortSummaries("games", [a, b]) == [b, a]
  {
    assert [a, b][1..] == [b];
    assert [b][1..] == [];
  }
}
