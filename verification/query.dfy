/** The table view: records whose name or condition contains the search text, optionally
    sorted by name, age or condition (`filteredAndSorted`). */
module Query {
  import opened Wrappers
  import Text
  import Seqs
  import Order
  import opened Patients

  /** Case-insensitive match of an already lower-cased query against name or condition. */
  predicate Matches(p: Patient, q: string) {
    Text.Contains(Text.Lower(p.name), q) || Text.Contains(Text.Lower(p.condition), q)
  }

  function MatchesQuery(q: string): Patient -> bool {
    (p: Patient) => Matches(p, q)
  }

  /** The records matching the search box value, in store order. */
  function Filter(s: seq<Patient>, search: string): (r: seq<Patient>)
    ensures forall i :: 0 <= i < |r| ==> Matches(r[i], Text.Lower(search))
  {
    Seqs.Keep(s, MatchesQuery(Text.Lower(search)))
  }

  /** The sort selector's recognised values. */
  datatype SortKey = ByName | ByAge | ByCondition

  /** The selector value as the page tests it; any other value means no sorting. */
  function ParseSortKey(v: string): (r: Option<SortKey>)
    ensures r.None? <==> v != "name" && v != "age" && v != "condition"
    ensures v == "name" ==> r == Some(ByName)
    ensures v == "age" ==> r == Some(ByAge)
    ensures v == "condition" ==> r == Some(ByCondition)
  {
    if v == "name" then Some(ByName)
    else if v == "age" then Some(ByAge)
    else if v == "condition" then Some(ByCondition)
    else None
  }

  /** The comparator read as "`a` may precede `b`": its result is not positive. */
  predicate Before(k: SortKey, a: Patient, b: Patient) {
    match k
    case ByName => Order.LexLeq(a.name, b.name)
    case ByAge => a.age <= b.age
    case ByCondition => Order.LexLeq(a.condition, b.condition)
  }

  /** `a` and `b` compare equal under the key. */
  predicate SameKey(k: SortKey, a: Patient, b: Patient) {
    match k
    case ByName => a.name == b.name
    case ByAge => a.age == b.age
    case ByCondition => a.condition == b.condition
  }

  lemma BeforeReflexive(k: SortKey, a: Patient, b: Patient)
    requires SameKey(k, a, b)
    ensures Before(k, a, b)
  {
    match k
    case ByName => Order.LexReflexive(a.name);
    case ByAge =>
    case ByCondition => Order.LexReflexive(a.condition);
  }

  lemma BeforeTotal(k: SortKey, a: Patient, b: Patient)
    ensures Before(k, a, b) || Before(k, b, a)
  {
    match k
    case ByName => Order.LexTotal(a.name, b.name);
    case ByAge =>
    case ByCondition => Order.LexTotal(a.condition, b.condition);
  }

  lemma BeforeTransitive(k: SortKey, a: Patient, b: Patient, c: Patient)
    requires Before(k, a, b) && Before(k, b, c)
    ensures Before(k, a, c)
  {
    match k
    case ByName => Order.LexTransitive(a.name, b.name, c.name);
    case ByAge =>
    case ByCondition => Order.LexTransitive(a.condition, b.condition, c.condition);
  }

  /** Every record may precede every later one. */
  ghost predicate Sorted(k: SortKey, s: seq<Patient>) {
    forall i, j :: 0 <= i < j < |s| ==> Before(k, s[i], s[j])
  }

  /** Places `x` in front of the first element it may precede. */
  function Insert(k: SortKey, x: Patient, s: seq<Patient>): (r: seq<Patient>)
    ensures multiset(r) == multiset(s) + multiset{x}
  {
    if |s| == 0 || Before(k, x, s[0]) then [x] + s
    else
      assert s == [s[0]] + s[1..];
      [s[0]] + Insert(k, x, s[1..])
  }

  /** `Array.prototype.sort` with the key's comparator. The engine's sort is stable, so its output is the
      one stable sorted permutation; insertion sort computes that same list. */
  function Sort(k: SortKey, s: seq<Patient>): (r: seq<Patient>)
    ensures multiset(r) == multiset(s)
  {
    if |s| == 0 then []
    else
      assert s == [s[0]] + s[1..];
      Insert(k, s[0], Sort(k, s[1..]))
  }

  /** `filteredAndSorted`: filter by the search box value, then sort when the selector names a key. */
  function View(s: seq<Patient>, search: string, sortBy: string): (r: seq<Patient>)
    ensures multiset(r) == multiset(Filter(s, search))
    ensures ParseSortKey(sortBy).None? ==> r == Filter(s, search)
  {
    var list := Filter(s, search);
    match ParseSortKey(sortBy)
    case None => list
    case Some(k) => Sort(k, list)
  }

  // Properties of the filter

  /** The filter keeps an order-preserving subsequence: exactly the matching records, each as often
      as it occurs in the store. */
  lemma FilterSpec(s: seq<Patient>, search: string)
    ensures Seqs.IsSubsequence(Filter(s, search), s)
    ensures forall p ::
      multiset(Filter(s, search))[p] == if Matches(p, Text.Lower(search)) then multiset(s)[p] else 0
  {
    Seqs.KeepIsSubsequence(s, MatchesQuery(Text.Lower(search)));
    Seqs.KeepCounts(s, MatchesQuery(Text.Lower(search)));
  }

  /** An empty search keeps the whole store, whatever the selector says (up to order when sorted). */
  lemma EmptySearchKeepsAll(s: seq<Patient>, sortBy: string)
    ensures Filter(s, "") == s
    ensures multiset(View(s, "", sortBy)) == multiset(s)
    ensures |View(s, "", sortBy)| == |s|
  {
    forall i | 0 <= i < |s|
      ensures MatchesQuery("")(s[i])
    {
      assert Text.StartsWith(Text.Lower(s[i].name), "");
    }
    Seqs.KeepAll(s, MatchesQuery(""));
    assert multiset(View(s, "", sortBy)) == multiset(s);
    calc {
      |View(s, "", sortBy)|;
      |multiset(View(s, "", sortBy))|;
      |multiset(s)|;
      |s|;
    }
  }

  // Properties of the sort

  lemma {:induction false} InsertSorted(k: SortKey, x: Patient, s: seq<Patient>)
    requires Sorted(k, s)
    ensures Sorted(k, Insert(k, x, s))
  {
    if |s| == 0 {
    } else if Before(k, x, s[0]) {
      var r := [x] + s;
      forall i, j | 0 <= i < j < |r|
        ensures Before(k, r[i], r[j])
      {
        if i == 0 && j > 1 {
          BeforeTransitive(k, x, s[0], s[j - 1]);
        }
      }
    } else {
      BeforeTotal(k, x, s[0]);
      var t := Insert(k, x, s[1..]);
      InsertSorted(k, x, s[1..]);
      var r := [s[0]] + t;
      forall i, j | 0 <= i < j < |r|
        ensures Before(k, r[i], r[j])
      {
        if i == 0 {
          var y := t[j - 1];
          assert y in multiset(t);
          if y != x {
            assert y in multiset(s[1..]);
            var m :| 0 <= m < |s[1..]| && s[1..][m] == y;
            assert s[m + 1] == y;
          }
        }
      }
    }
  }

  /** Sorting by age gives non-decreasing ages; sorting by name or condition gives a list ordered by the comparator. */
  lemma {:induction false} SortSorted(k: SortKey, s: seq<Patient>)
    ensures Sorted(k, Sort(k, s))
  {
    if |s| > 0 {
      SortSorted(k, s[1..]);
      InsertSorted(k, s[0], Sort(k, s[1..]));
    }
  }

  /** The records tying with `p` under the key, in order. */
  function Ties(k: SortKey, s: seq<Patient>, p: Patient): (r: seq<Patient>)
    ensures forall i :: 0 <= i < |r| ==> SameKey(k, r[i], p)
  {
    if |s| == 0 then []
    else if SameKey(k, s[0], p) then [s[0]] + Ties(k, s[1..], p)
    else Ties(k, s[1..], p)
  }

  lemma {:induction false} InsertTies(k: SortKey, x: Patient, s: seq<Patient>, p: Patient)
    ensures Ties(k, Insert(k, x, s), p) == (if SameKey(k, x, p) then [x] else []) + Ties(k, s, p)
  {
    if |s| == 0 || Before(k, x, s[0]) {
      assert Insert(k, x, s) == [x] + s;
      assert ([x] + s)[1..] == s;
    } else {
      InsertTies(k, x, s[1..], p);
      var t := Insert(k, x, s[1..]);
      assert Insert(k, x, s) == [s[0]] + t;
      assert ([s[0]] + t)[1..] == t;
      if SameKey(k, x, p) && SameKey(k, s[0], p) {
        assert SameKey(k, x, s[0]);
        BeforeReflexive(k, x, s[0]);
      }
    }
  }

  /** The sort is stable: records that tie keep their relative order from the filtered list. */
  lemma {:induction false} SortStable(k: SortKey, s: seq<Patient>, p: Patient)
    ensures Ties(k, Sort(k, s), p) == Ties(k, s, p)
  {
    if |s| > 0 {
      SortStable(k, s[1..], p);
      InsertTies(k, s[0], Sort(k, s[1..]), p);
    }
  }

  /** The view with a recognised sort key is a sorted, stable permutation of the filtered records. */
  lemma ViewSorted(s: seq<Patient>, search: string, sortBy: string)
    requires ParseSortKey(sortBy).Some?
    ensures var k := ParseSortKey(sortBy).value;
      && multiset(View(s, search, sortBy)) == multiset(Filter(s, search))
      && Sorted(k, View(s, search, sortBy))
      && forall p :: Ties(k, View(s, search, sortBy), p) == Ties(k, Filter(s, search), p)
  {
    var k := ParseSortKey(sortBy).value;
    SortSorted(k, Filter(s, search));
    forall p
      ensures Ties(k, View(s, search, sortBy), p) == Ties(k, Filter(s, search), p)
    {
      SortStable(k, Filter(s, search), p);
    }
  }
}
