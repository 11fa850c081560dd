/** The comparator DataBricks builds with `getItemSorter` and the stable sort
    the card view runs with it (components/DataBricks.js:57-66, 88). */
module ItemOrder {
  import opened JsValues
  import opened Text
  import Seqs

  /** Where a value falls in the one total order the model assumes for JS `<`
      and `>`: values of different kinds are ranked by kind; within a kind,
      booleans as 0 and 1, numbers numerically, strings by code point,
      arrays by their `String()` text, as JS compares them. */
  datatype SortKey = SortKey(rank: nat, num: int, text: string)

  function KeyOf(v: Value): SortKey {
    match v
    case Undefined => SortKey(0, 0, "")
    case Null => SortKey(1, 0, "")
    case Bool(b) => SortKey(2, if b then 1 else 0, "")
    case Num(n) => SortKey(3, n, "")
    case Str(s) => SortKey(4, 0, s)
    case Arr(_) => SortKey(5, 0, ToText(v))
  }

  predicate KeyLess(a: SortKey, b: SortKey) {
    || a.rank < b.rank
    || (a.rank == b.rank && a.num < b.num)
    || (a.rank == b.rank && a.num == b.num && StrLess(a.text, b.text))
  }

  lemma KeyLessIrreflexive(a: SortKey)
    ensures !KeyLess(a, a)
  {
    StrLessIrreflexive(a.text);
  }

  lemma KeyLessTransitive(a: SortKey, b: SortKey, c: SortKey)
    requires KeyLess(a, b) && KeyLess(b, c)
    ensures KeyLess(a, c)
  {
    if a.rank == b.rank == c.rank && a.num == b.num == c.num {
      StrLessTransitive(a.text, b.text, c.text);
    }
  }

  lemma KeyLessTotal(a: SortKey, b: SortKey)
    requires a != b
    ensures KeyLess(a, b) || KeyLess(b, a)
  {
    if a.rank == b.rank && a.num == b.num {
      StrLessTotal(a.text, b.text);
    }
  }

  /** JS `x < y` on two field values. */
  predicate ValueLess(x: Value, y: Value) {
    KeyLess(KeyOf(x), KeyOf(y))
  }

  /** `item[sortBy] || 0` */
  function SortValue(item: Record, sortBy: string): Value {
    Or(Get(item, sortBy), Num(0))
  }

  /** Neither item's value for `sortBy` is `<` or `>` the other's. */
  predicate TiedOn(a: Record, b: Record, sortBy: string) {
    KeyOf(SortValue(a, sortBy)) == KeyOf(SortValue(b, sortBy))
  }

  /** `getItemSorter(sortHistory, sortAsc)(a, b)`: the first key on which the
      two items differ decides; `sortAsc` says which way. */
  function Compare(sortHistory: seq<string>, sortAsc: bool, a: Record, b: Record): (c: int)
    ensures -1 <= c <= 1
  {
    if sortHistory == [] then 0
    else
      var aValue, bValue := SortValue(a, sortHistory[0]), SortValue(b, sortHistory[0]);
      if ValueLess(bValue, aValue) || ValueLess(aValue, bValue) then
        if sortAsc then (if ValueLess(bValue, aValue) then 1 else -1)
        else (if ValueLess(bValue, aValue) then -1 else 1)
      else Compare(sortHistory[1..], sortAsc, a, b)
  }

  /** The `for ... of` loop of `getItemSorter`, with its early return. */
  method CompareItems(sortHistory: seq<string>, sortAsc: bool, a: Record, b: Record) returns (c: int)
    ensures c == Compare(sortHistory, sortAsc, a, b)
  {
    for i := 0 to |sortHistory|
      invariant Compare(sortHistory[i..], sortAsc, a, b) == Compare(sortHistory, sortAsc, a, b)
    {
      assert sortHistory[i..][1..] == sortHistory[i + 1..];
      var aValue := Or(Get(a, sortHistory[i]), Num(0));
      var bValue := Or(Get(b, sortHistory[i]), Num(0));
      if ValueLess(bValue, aValue) || ValueLess(aValue, bValue) {
        if sortAsc {
          return if ValueLess(bValue, aValue) then 1 else -1;
        } else {
          return if ValueLess(bValue, aValue) then -1 else 1;
        }
      }
    }
    return 0;
  }

  /** One step of `Compare`, read through the sort keys: a tie moves on to the
      next key; otherwise the smaller key comes first when ascending. */
  lemma CompareStep(sortHistory: seq<string>, sortAsc: bool, a: Record, b: Record)
    requires sortHistory != []
    ensures TiedOn(a, b, sortHistory[0]) ==>
      Compare(sortHistory, sortAsc, a, b) == Compare(sortHistory[1..], sortAsc, a, b)
    ensures !TiedOn(a, b, sortHistory[0]) ==>
      var ka, kb := KeyOf(SortValue(a, sortHistory[0])), KeyOf(SortValue(b, sortHistory[0]));
      Compare(sortHistory, sortAsc, a, b) == if KeyLess(ka, kb) == sortAsc then -1 else 1
  {
    var ka, kb := KeyOf(SortValue(a, sortHistory[0])), KeyOf(SortValue(b, sortHistory[0]));
    KeyLessIrreflexive(ka);
    if ka != kb {
      KeyLessTotal(ka, kb);
      if KeyLess(ka, kb) && KeyLess(kb, ka) {
        KeyLessTransitive(ka, kb, ka);
      }
    }
  }

  /** The first key on which the items are not tied decides the result. */
  lemma {:induction false} CompareFirstDifference(sortHistory: seq<string>, sortAsc: bool, a: Record, b: Record, i: nat)
    requires i < |sortHistory|
    requires forall j :: 0 <= j < i ==> TiedOn(a, b, sortHistory[j])
    requires !TiedOn(a, b, sortHistory[i])
    ensures var ka, kb := KeyOf(SortValue(a, sortHistory[i])), KeyOf(SortValue(b, sortHistory[i]));
      Compare(sortHistory, sortAsc, a, b) == if KeyLess(ka, kb) == sortAsc then -1 else 1
  {
    CompareSkipsTies(sortHistory, sortAsc, a, b, i);
    var rest := sortHistory[i..];
    assert rest[0] == sortHistory[i];
    CompareStep(rest, sortAsc, a, b);
  }

  /** Keys on which the items tie do not decide anything. */
  lemma {:induction false} CompareSkipsTies(sortHistory: seq<string>, sortAsc: bool, a: Record, b: Record, i: nat)
    requires i <= |sortHistory|
    requires forall j :: 0 <= j < i ==> TiedOn(a, b, sortHistory[j])
    ensures Compare(sortHistory, sortAsc, a, b) == Compare(sortHistory[i..], sortAsc, a, b)
  {
    if i > 0 {
      CompareSkipsTies(sortHistory, sortAsc, a, b, i - 1);
      var rest := sortHistory[i - 1..];
      assert rest[0] == sortHistory[i - 1] && rest[1..] == sortHistory[i..];
      CompareStep(rest, sortAsc, a, b);
    }
  }

  /** The result is 0 exactly when the items tie on every key. */
  lemma {:induction false} CompareZeroIffTied(sortHistory: seq<string>, sortAsc: bool, a: Record, b: Record)
    ensures Compare(sortHistory, sortAsc, a, b) == 0 <==>
      forall j :: 0 <= j < |sortHistory| ==> TiedOn(a, b, sortHistory[j])
  {
    if sortHistory != [] {
      CompareStep(sortHistory, sortAsc, a, b);
      CompareZeroIffTied(sortHistory[1..], sortAsc, a, b);
      assert forall j :: 1 <= j < |sortHistory| ==> sortHistory[1..][j - 1] == sortHistory[j];
    }
  }

  /** Swapping the arguments negates the result. */
  lemma {:induction false} CompareAntisymmetric(sortHistory: seq<string>, sortAsc: bool, a: Record, b: Record)
    ensures Compare(sortHistory, sortAsc, a, b) == -Compare(sortHistory, sortAsc, b, a)
  {
    if sortHistory != [] {
      CompareStep(sortHistory, sortAsc, a, b);
      CompareStep(sortHistory, sortAsc, b, a);
      CompareCasesOfKeys(sortHistory[0], a, b);
      CompareAntisymmetric(sortHistory[1..], sortAsc, a, b);
    }
  }

  lemma CompareCasesOfKeys(sortBy: string, a: Record, b: Record)
    ensures var ka, kb := KeyOf(SortValue(a, sortBy)), KeyOf(SortValue(b, sortBy));
      ka != kb ==> KeyLess(ka, kb) != KeyLess(kb, ka)
  {
    var ka, kb := KeyOf(SortValue(a, sortBy)), KeyOf(SortValue(b, sortBy));
    if ka != kb {
      KeyLessTotal(ka, kb);
      KeyLessIrreflexive(ka);
      if KeyLess(ka, kb) && KeyLess(kb, ka) {
        KeyLessTransitive(ka, kb, ka);
      }
    }
  }

  /** An item compares equal to itself. */
  lemma CompareReflexive(sortHistory: seq<string>, sortAsc: bool, a: Record)
    ensures Compare(sortHistory, sortAsc, a, a) == 0
  {
    CompareAntisymmetric(sortHistory, sortAsc, a, a);
  }

  /** "Comes no later than" is transitive, as `Array.prototype.sort` needs of a
      consistent comparator. */
  lemma {:induction false} CompareTransitive(sortHistory: seq<string>, sortAsc: bool, a: Record, b: Record, c: Record)
    requires Compare(sortHistory, sortAsc, a, b) <= 0 && Compare(sortHistory, sortAsc, b, c) <= 0
    ensures Compare(sortHistory, sortAsc, a, c) <= 0
  {
    if sortHistory != [] {
      var k := sortHistory[0];
      var ka, kb, kc := KeyOf(SortValue(a, k)), KeyOf(SortValue(b, k)), KeyOf(SortValue(c, k));
      CompareStep(sortHistory, sortAsc, a, b);
      CompareStep(sortHistory, sortAsc, b, c);
      CompareStep(sortHistory, sortAsc, a, c);
      CompareCasesOfKeys(k, a, b);
      CompareCasesOfKeys(k, b, c);
      if ka == kb && kb == kc {
        CompareTransitive(sortHistory[1..], sortAsc, a, b, c);
      } else if sortAsc {
        assert ka == kb || KeyLess(ka, kb);
        assert kb == kc || KeyLess(kb, kc);
        if KeyLess(ka, kb) && KeyLess(kb, kc) { KeyLessTransitive(ka, kb, kc); }
        KeyLessIrreflexive(ka);
        assert KeyLess(ka, kc);
      } else {
        assert ka == kb || KeyLess(kb, ka);
        assert kb == kc || KeyLess(kc, kb);
        if KeyLess(kb, ka) && KeyLess(kc, kb) { KeyLessTransitive(kc, kb, ka); }
        KeyLessIrreflexive(ka);
        assert KeyLess(kc, ka);
      }
    }
  }

  /** Every item comes no later than every later item. */
  predicate SortedBy(sortHistory: seq<string>, sortAsc: bool, s: seq<Record>) {
    forall i, j :: 0 <= i < j < |s| ==> Compare(sortHistory, sortAsc, s[i], s[j]) <= 0
  }

  /** The items of `s` that compare equal to `y`, in their order in `s`. */
  function Ties(sortHistory: seq<string>, sortAsc: bool, y: Record, s: seq<Record>): seq<Record> {
    if s == [] then []
    else TieOrNothing(sortHistory, sortAsc, y, s[0]) + Ties(sortHistory, sortAsc, y, s[1..])
  }

  function TieOrNothing(sortHistory: seq<string>, sortAsc: bool, y: Record, e: Record): seq<Record> {
    if Compare(sortHistory, sortAsc, e, y) == 0 then [e] else []
  }

  lemma TiesCons(sortHistory: seq<string>, sortAsc: bool, y: Record, e: Record, s: seq<Record>)
    ensures Ties(sortHistory, sortAsc, y, [e] + s) == TieOrNothing(sortHistory, sortAsc, y, e) + Ties(sortHistory, sortAsc, y, s)
  {
    assert ([e] + s)[1..] == s;
  }

  /** Insert `x` before the first item it comes no later than. */
  function Insert(sortHistory: seq<string>, sortAsc: bool, x: Record, s: seq<Record>): seq<Record> {
    if s == [] then [x]
    else if Compare(sortHistory, sortAsc, x, s[0]) <= 0 then [x] + s
    else [s[0]] + Insert(sortHistory, sortAsc, x, s[1..])
  }

  /** `s.sort(getItemSorter(sortHistory, sortAsc))`. The platform sort is
      stable; the model computes the same order by insertion. */
  function SortItems(sortHistory: seq<string>, sortAsc: bool, s: seq<Record>): seq<Record> {
    if s == [] then [] else Insert(sortHistory, sortAsc, s[0], SortItems(sortHistory, sortAsc, s[1..]))
  }

  lemma {:induction false} InsertPermutes(sortHistory: seq<string>, sortAsc: bool, x: Record, s: seq<Record>)
    ensures multiset(Insert(sortHistory, sortAsc, x, s)) == multiset(s) + multiset{x}
  {
    if s != [] && Compare(sortHistory, sortAsc, x, s[0]) > 0 {
      var rest := Insert(sortHistory, sortAsc, x, s[1..]);
      InsertPermutes(sortHistory, sortAsc, x, s[1..]);
      assert Insert(sortHistory, sortAsc, x, s) == [s[0]] + rest;
      Seqs.ConsPermutes(s, rest, x);
    }
  }

  /** Sorting only reorders the items. */
  lemma {:induction false} SortItemsPermutes(sortHistory: seq<string>, sortAsc: bool, s: seq<Record>)
    ensures multiset(SortItems(sortHistory, sortAsc, s)) == multiset(s)
  {
    if s != [] {
      SortItemsPermutes(sortHistory, sortAsc, s[1..]);
      InsertPermutes(sortHistory, sortAsc, s[0], SortItems(sortHistory, sortAsc, s[1..]));
      assert s == [s[0]] + s[1..];
    }
  }

  lemma {:induction false} InsertSorted(sortHistory: seq<string>, sortAsc: bool, x: Record, s: seq<Record>)
    requires SortedBy(sortHistory, sortAsc, s)
    ensures SortedBy(sortHistory, sortAsc, Insert(sortHistory, sortAsc, x, s))
  {
    if s != [] {
      if Compare(sortHistory, sortAsc, x, s[0]) <= 0 {
        PrependSorted(sortHistory, sortAsc, x, s);
      } else {
        var rest := Insert(sortHistory, sortAsc, x, s[1..]);
        InsertSorted(sortHistory, sortAsc, x, s[1..]);
        InsertPermutes(sortHistory, sortAsc, x, s[1..]);
        CompareAntisymmetric(sortHistory, sortAsc, x, s[0]);
        forall m | 0 <= m < |rest| ensures Compare(sortHistory, sortAsc, s[0], rest[m]) <= 0 {
          FirstComesFirst(sortHistory, sortAsc, x, s, rest, m);
        }
        PrependSorted(sortHistory, sortAsc, s[0], rest);
      }
    }
  }

  /** Putting in front an item that comes no later than the sorted list's head keeps it sorted. */
  lemma PrependSorted(sortHistory: seq<string>, sortAsc: bool, x: Record, s: seq<Record>)
    requires SortedBy(sortHistory, sortAsc, s)
    requires s != [] ==> Compare(sortHistory, sortAsc, x, s[0]) <= 0
    ensures SortedBy(sortHistory, sortAsc, [x] + s)
  {
    forall i, j | 0 <= i < j < |s| + 1
      ensures Compare(sortHistory, sortAsc, ([x] + s)[i], ([x] + s)[j]) <= 0
    {
      PrependPair(sortHistory, sortAsc, x, s, i, j);
    }
  }

  /** One pair of the list with `x` put in front. */
  lemma PrependPair(sortHistory: seq<string>, sortAsc: bool, x: Record, s: seq<Record>, i: nat, j: nat)
    requires SortedBy(sortHistory, sortAsc, s)
    requires s != [] ==> Compare(sortHistory, sortAsc, x, s[0]) <= 0
    requires i < j < |s| + 1
    ensures Compare(sortHistory, sortAsc, ([x] + s)[i], ([x] + s)[j]) <= 0
  {
    var r := [x] + s;
    assert r[j] == s[j - 1];
    if i == 0 {
      assert r[i] == x;
      HeadComesFirst(sortHistory, sortAsc, x, s, j - 1);
    } else {
      assert r[i] == s[i - 1];
    }
  }

  /** An item that comes no later than a sorted list's head comes no later
      than any of its items. */
  lemma HeadComesFirst(sortHistory: seq<string>, sortAsc: bool, x: Record, s: seq<Record>, k: nat)
    requires SortedBy(sortHistory, sortAsc, s) && k < |s|
    requires Compare(sortHistory, sortAsc, x, s[0]) <= 0
    ensures Compare(sortHistory, sortAsc, x, s[k]) <= 0
  {
    if k > 0 {
      CompareTransitive(sortHistory, sortAsc, x, s[0], s[k]);
    }
  }

  lemma FirstComesFirst(sortHistory: seq<string>, sortAsc: bool, x: Record, s: seq<Record>, rest: seq<Record>, m: nat)
    requires s != [] && SortedBy(sortHistory, sortAsc, s)
    requires Compare(sortHistory, sortAsc, s[0], x) <= 0
    requires multiset(rest) == multiset(s[1..]) + multiset{x}
    requires m < |rest|
    ensures Compare(sortHistory, sortAsc, s[0], rest[m]) <= 0
  {
    assert rest[m] in multiset(rest);
    if rest[m] != x {
      assert rest[m] in multiset(s[1..]);
      var n :| 0 <= n < |s[1..]| && s[1..][n] == rest[m];
      assert s[1..][n] == s[n + 1];
    }
  }

  /** Sorting yields the items in comparator order. */
  lemma {:induction false} SortItemsSorted(sortHistory: seq<string>, sortAsc: bool, s: seq<Record>)
    ensures SortedBy(sortHistory, sortAsc, SortItems(sortHistory, sortAsc, s))
  {
    if s != [] {
      SortItemsSorted(sortHistory, sortAsc, s[1..]);
      InsertSorted(sortHistory, sortAsc, s[0], SortItems(sortHistory, sortAsc, s[1..]));
    }
  }

  /** Two items that each tie with `y` tie with each other. */
  lemma TiesTie(sortHistory: seq<string>, sortAsc: bool, x: Record, z: Record, y: Record)
    requires Compare(sortHistory, sortAsc, x, y) == 0 && Compare(sortHistory, sortAsc, z, y) == 0
    ensures Compare(sortHistory, sortAsc, x, z) == 0
  {
    CompareAntisymmetric(sortHistory, sortAsc, z, y);
    CompareAntisymmetric(sortHistory, sortAsc, x, y);
    CompareTransitive(sortHistory, sortAsc, x, y, z);
    CompareTransitive(sortHistory, sortAsc, z, y, x);
    CompareAntisymmetric(sortHistory, sortAsc, x, z);
  }

  /** An item that sorts after `e` cannot tie with `y` when `e` does, so
      their tie lists commute. */
  lemma SwapTies(sortHistory: seq<string>, sortAsc: bool, y: Record, x: Record, e: Record)
    requires Compare(sortHistory, sortAsc, x, e) > 0
    ensures TieOrNothing(sortHistory, sortAsc, y, e) + TieOrNothing(sortHistory, sortAsc, y, x) ==
            TieOrNothing(sortHistory, sortAsc, y, x) + TieOrNothing(sortHistory, sortAsc, y, e)
  {
    var hx, he := TieOrNothing(sortHistory, sortAsc, y, x), TieOrNothing(sortHistory, sortAsc, y, e);
    if hx != [] && he != [] {
      TiesTie(sortHistory, sortAsc, x, e, y);
    }
  }

  /** Inserting past the head keeps the head first. */
  lemma InsertPastHead(sortHistory: seq<string>, sortAsc: bool, x: Record, s: seq<Record>)
    requires s != [] && Compare(sortHistory, sortAsc, x, s[0]) > 0
    ensures Insert(sortHistory, sortAsc, x, s) == [s[0]] + Insert(sortHistory, sortAsc, x, s[1..])
  {
  }

  /** Moving `x` behind an item it sorts after does not change the ties of any `y`. */
  lemma TiesSwapFront(sortHistory: seq<string>, sortAsc: bool, y: Record, x: Record, e: Record, tail: seq<Record>)
    requires Compare(sortHistory, sortAsc, x, e) > 0
    ensures Ties(sortHistory, sortAsc, y, [e] + ([x] + tail)) == Ties(sortHistory, sortAsc, y, [x] + ([e] + tail))
  {
    var hx, he := TieOrNothing(sortHistory, sortAsc, y, x), TieOrNothing(sortHistory, sortAsc, y, e);
    var t := Ties(sortHistory, sortAsc, y, tail);
    calc {
      Ties(sortHistory, sortAsc, y, [e] + ([x] + tail));
      { TiesCons(sortHistory, sortAsc, y, e, [x] + tail); }
      he + Ties(sortHistory, sortAsc, y, [x] + tail);
      { TiesCons(sortHistory, sortAsc, y, x, tail); }
      he + (hx + t);
      { SwapTies(sortHistory, sortAsc, y, x, e); ConcatSwap(he, hx, t); }
      hx + (he + t);
      { TiesCons(sortHistory, sortAsc, y, e, tail); }
      hx + Ties(sortHistory, sortAsc, y, [e] + tail);
      { TiesCons(sortHistory, sortAsc, y, x, [e] + tail); }
      Ties(sortHistory, sortAsc, y, [x] + ([e] + tail));
    }
  }

  lemma ConcatSwap<T>(a: seq<T>, b: seq<T>, t: seq<T>)
    requires a + b == b + a
    ensures a + (b + t) == b + (a + t)
  {
    assert a + (b + t) == (a + b) + t;
    assert b + (a + t) == (b + a) + t;
  }

  lemma {:induction false} InsertStable(sortHistory: seq<string>, sortAsc: bool, y: Record, x: Record, s: seq<Record>)
    ensures Ties(sortHistory, sortAsc, y, Insert(sortHistory, sortAsc, x, s)) == Ties(sortHistory, sortAsc, y, [x] + s)
  {
    if s != [] && Compare(sortHistory, sortAsc, x, s[0]) > 0 {
      var tail := s[1..];
      var rest := Insert(sortHistory, sortAsc, x, tail);
      InsertPastHead(sortHistory, sortAsc, x, s);
      InsertStable(sortHistory, sortAsc, y, x, tail);
      TiesCons(sortHistory, sortAsc, y, s[0], rest);
      TiesCons(sortHistory, sortAsc, y, s[0], [x] + tail);
      TiesSwapFront(sortHistory, sortAsc, y, x, s[0], tail);
      assert s == [s[0]] + tail;
    }
  }

  /** Sorting is stable: the items that compare equal to any given item keep
      their relative order. */
  lemma {:induction false} SortItemsStable(sortHistory: seq<string>, sortAsc: bool, y: Record, s: seq<Record>)
    ensures Ties(sortHistory, sortAsc, y, SortItems(sortHistory, sortAsc, s)) == Ties(sortHistory, sortAsc, y, s)
  {
    if s != [] {
      var rest := SortItems(sortHistory, sortAsc, s[1..]);
      SortItemsStable(sortHistory, sortAsc, y, s[1..]);
      InsertStable(sortHistory, sortAsc, y, s[0], rest);
      TiesCons(sortHistory, sortAsc, y, s[0], rest);
      TiesCons(sortHistory, sortAsc, y, s[0], s[1..]);
      assert s == [s[0]] + s[1..];
    }
  }

  /** When every pair of items compares equal, sorting keeps the input order. */
  lemma {:induction false} SortItemsAllTied(sortHistory: seq<string>, sortAsc: bool, s: seq<Record>)
    requires forall i, j :: 0 <= i < |s| && 0 <= j < |s| ==> Compare(sortHistory, sortAsc, s[i], s[j]) == 0
    ensures SortItems(sortHistory, sortAsc, s) == s
  {
    if s != [] {
      var tail := s[1..];
      forall i, j | 0 <= i < |tail| && 0 <= j < |tail|
        ensures Compare(sortHistory, sortAsc, tail[i], tail[j]) == 0
      {
        assert tail[i] == s[i + 1] && tail[j] == s[j + 1];
      }
      SortItemsAllTied(sortHistory, sortAsc, tail);
      if tail != [] {
        assert Compare(sortHistory, sortAsc, s[0], s[1]) == 0;
        assert tail[0] == s[1];
      }
      assert s == [s[0]] + tail;
    }
  }

  /** Sorting by keys that no item holds a truthy value for keeps the input
      order: every such value counts as 0. */
  lemma SortByFalsyKeysKeepsOrder(sortHistory: seq<string>, sortAsc: bool, s: seq<Record>)
    requires forall i, k :: 0 <= i < |s| && k in sortHistory ==> !Truthy(Get(s[i], k))
    ensures SortItems(sortHistory, sortAsc, s) == s
  {
    forall i, j | 0 <= i < |s| && 0 <= j < |s| ensures Compare(sortHistory, sortAsc, s[i], s[j]) == 0 {
      forall m | 0 <= m < |sortHistory| ensures TiedOn(s[i], s[j], sortHistory[m]) {
        assert sortHistory[m] in sortHistory;
      }
      CompareZeroIffTied(sortHistory, sortAsc, s[i], s[j]);
    }
    SortItemsAllTied(sortHistory, sortAsc, s);
  }
}
