/** The report line and the dashboard: per-condition counts (`generateReport`, the pie chart and the
    summary cards), rounded mean age per condition (the bar chart) and the recent-records window. */
module Dashboard {
  import opened Wrappers
  import Seqs
  import opened Patients

  /** The three fixed condition buckets, in the page's key order. */
  datatype Bucket = Diabetes | Thyroid | HighBloodPressure

  const Buckets: seq<Bucket> := [Diabetes, Thyroid, HighBloodPressure]

  /** The condition text a bucket collects. */
  function Label(b: Bucket): string {
    match b
    case Diabetes => "Diabetes"
    case Thyroid => "Thyroid"
    case HighBloodPressure => "High Blood Pressure"
  }

  /** The bucket a condition text falls into, if any: an exact, case-sensitive match. */
  function BucketOf(c: string): (r: Option<Bucket>)
    ensures r.Some? ==> Label(r.value) == c
    ensures r.None? <==> forall b :: Label(b) != c
  {
    if c == "Diabetes" then Some(Diabetes)
    else if c == "Thyroid" then Some(Thyroid)
    else if c == "High Blood Pressure" then Some(HighBloodPressure)
    else None
  }

  function HasCondition(c: string): Patient -> bool {
    (p: Patient) => p.condition == c
  }

  function HasUnknownCondition(): Patient -> bool {
    (p: Patient) => BucketOf(p.condition).None?
  }

  /** The records whose condition text is exactly `c`, in store order. */
  function WithCondition(s: seq<Patient>, c: string): (r: seq<Patient>)
    ensures forall i :: 0 <= i < |r| ==> r[i].condition == c
  {
    Seqs.Keep(s, HasCondition(c))
  }

  /** The records with condition `c` are an order-preserving subsequence of the store holding each
      such record as often as the store does, and no other record. */
  lemma WithConditionSpec(s: seq<Patient>, c: string)
    ensures Seqs.IsSubsequence(WithCondition(s, c), s)
    ensures forall p :: multiset(WithCondition(s, c))[p] == if p.condition == c then multiset(s)[p] else 0
  {
    Seqs.KeepIsSubsequence(s, HasCondition(c));
    Seqs.KeepCounts(s, HasCondition(c));
  }

  /** The number of records whose condition text is exactly `c`. */
  function Count(s: seq<Patient>, c: string): nat {
    |WithCondition(s, c)|
  }

  /** The condition texts of the records, in store order. */
  function Conditions(s: seq<Patient>): (r: seq<string>)
    ensures |r| == |s| && forall i :: 0 <= i < |s| ==> r[i] == s[i].condition
  {
    seq(|s|, i requires 0 <= i < |s| => s[i].condition)
  }

  /** `Count` is the multiplicity of `c` among the records' conditions. */
  lemma {:induction false} CountIsMultiplicity(s: seq<Patient>, c: string)
    ensures Count(s, c) == multiset(Conditions(s))[c]
  {
    if |s| > 0 {
      CountIsMultiplicity(s[1..], c);
      assert Conditions(s) == [s[0].condition] + Conditions(s[1..]);
    }
  }

  lemma {:induction false} CountAppend(a: seq<Patient>, b: seq<Patient>, c: string)
    ensures Count(a + b, c) == Count(a, c) + Count(b, c)
  {
    Seqs.KeepAppend(a, b, HasCondition(c));
  }

  /** The records whose condition is none of the three buckets. */
  function Unknown(s: seq<Patient>): seq<Patient> {
    Seqs.Keep(s, HasUnknownCondition())
  }

  /** Every record falls into exactly one bucket or is unknown. */
  lemma {:induction false} CountsPartition(s: seq<Patient>)
    ensures Count(s, "Diabetes") + Count(s, "Thyroid") + Count(s, "High Blood Pressure") + |Unknown(s)| == |s|
  {
    if |s| > 0 {
      CountsPartition(s[1..]);
    }
  }

  // The condition tally: the `counts` / `condCounts` object

  /** One key of the tally object and its value. */
  datatype Entry = Entry(key: string, count: nat)

  /** `{ Diabetes:0, Thyroid:0, 'High Blood Pressure':0 }`: the three bucket keys in declaration order. */
  const InitialTally: seq<Entry> := [Entry("Diabetes", 0), Entry("Thyroid", 0), Entry("High Blood Pressure", 0)]

  ghost predicate DistinctKeys(t: seq<Entry>) {
    forall i, j :: 0 <= i < j < |t| ==> t[i].key != t[j].key
  }

  /** The position of key `c` in the tally, if present. */
  function KeyIndex(t: seq<Entry>, c: string): (r: Option<nat>)
    ensures r.Some? ==> r.value < |t| && t[r.value].key == c
    ensures r.None? <==> forall i :: 0 <= i < |t| ==> t[i].key != c
  {
    if |t| == 0 then None
    else if t[0].key == c then Some(0)
    else match KeyIndex(t[1..], c)
      case None => None
      case Some(k) => Some(k + 1)
  }

  /** `counts[c]`, with a missing key read as 0 (`counts[c] || 0`). */
  function CountOf(t: seq<Entry>, c: string): nat {
    match KeyIndex(t, c)
    case None => 0
    case Some(i) => t[i].count
  }

  /** `counts[c] = (counts[c] || 0) + 1`: increments an existing key in place or appends a new key with 1. */
  function Bump(t: seq<Entry>, c: string): (r: seq<Entry>)
    ensures |r| >= |t| && forall i :: 0 <= i < |t| ==> r[i].key == t[i].key
  {
    match KeyIndex(t, c)
    case None => t + [Entry(c, 1)]
    case Some(i) => t[i := Entry(c, t[i].count + 1)]
  }

  /** The values of the tally added up. */
  function SumCounts(t: seq<Entry>): nat {
    if |t| == 0 then 0 else t[0].count + SumCounts(t[1..])
  }

  lemma {:induction false} SumCountsAppend(a: seq<Entry>, b: seq<Entry>)
    ensures SumCounts(a + b) == SumCounts(a) + SumCounts(b)
  {
    if |a| == 0 {
      assert a + b == b;
    } else {
      assert (a + b)[0] == a[0] && (a + b)[1..] == a[1..] + b;
      SumCountsAppend(a[1..], b);
    }
  }

  lemma {:induction false} SumCountsIncrement(t: seq<Entry>, i: nat, e: Entry)
    requires i < |t| && e.count == t[i].count + 1
    ensures SumCounts(t[i := e]) == SumCounts(t) + 1
  {
    if i > 0 {
      assert t[i := e][1..] == t[1..][i - 1 := e];
      SumCountsIncrement(t[1..], i - 1, e);
    }
  }

  /** One bump keeps keys distinct, raises exactly the count of `c` by one, and adds one to the total. */
  lemma BumpSpec(t: seq<Entry>, c: string)
    requires DistinctKeys(t)
    ensures DistinctKeys(Bump(t, c))
    ensures forall k :: CountOf(Bump(t, c), k) == CountOf(t, k) + (if k == c then 1 else 0)
    ensures forall i :: |t| <= i < |Bump(t, c)| ==> Bump(t, c)[i].key == c
    ensures SumCounts(Bump(t, c)) == SumCounts(t) + 1
  {
    var r := Bump(t, c);
    match KeyIndex(t, c)
    case None =>
      SumCountsAppend(t, [Entry(c, 1)]);
      forall k
        ensures CountOf(r, k) == CountOf(t, k) + (if k == c then 1 else 0)
      {
        if k == c {
          assert KeyIndex(r, k) == Some(|t|) by {
            KeyIndexUnique(r, k, |t|);
          }
        } else {
          match KeyIndex(t, k)
          case None =>
          case Some(i) => KeyIndexUnique(r, k, i);
        }
      }
    case Some(i) =>
      SumCountsIncrement(t, i, Entry(c, t[i].count + 1));
      forall k
        ensures CountOf(r, k) == CountOf(t, k) + (if k == c then 1 else 0)
      {
        match KeyIndex(t, k)
        case None =>
        case Some(j) => KeyIndexUnique(r, k, j);
      }
  }

  /** With distinct keys, the position holding a key is the one `KeyIndex` reports. */
  lemma {:induction false} KeyIndexUnique(t: seq<Entry>, c: string, i: nat)
    requires DistinctKeys(t) && i < |t| && t[i].key == c
    ensures KeyIndex(t, c) == Some(i)
  {
    if i > 0 {
      KeyIndexUnique(t[1..], c, i - 1);
    }
  }

  /** `patients.forEach(p => counts[p.condition] = ...)` starting from the tally `t`. */
  function TallyFrom(t: seq<Entry>, s: seq<Patient>): seq<Entry>
    decreases |s|
  {
    if |s| == 0 then t else TallyFrom(Bump(t, s[0].condition), s[1..])
  }

  /** The tally object of the store: the three buckets first, then the other condition texts the
      records carry. Its keys and values are what the pie chart plots. */
  function CondCounts(s: seq<Patient>): seq<Entry> {
    TallyFrom(InitialTally, s)
  }

  lemma {:induction false} TallyFromSpec(t: seq<Entry>, s: seq<Patient>)
    requires DistinctKeys(t)
    ensures DistinctKeys(TallyFrom(t, s))
    ensures |TallyFrom(t, s)| >= |t| && forall i :: 0 <= i < |t| ==> TallyFrom(t, s)[i].key == t[i].key
    ensures forall k :: CountOf(TallyFrom(t, s), k) == CountOf(t, k) + Count(s, k)
    ensures SumCounts(TallyFrom(t, s)) == SumCounts(t) + |s|
    ensures forall i :: |t| <= i < |TallyFrom(t, s)| ==> TallyFrom(t, s)[i].key in Conditions(s)
    decreases |s|
  {
    if |s| > 0 {
      var t' := Bump(t, s[0].condition);
      BumpSpec(t, s[0].condition);
      TallyFromSpec(t', s[1..]);
      var r := TallyFrom(t, s);
      assert r == TallyFrom(t', s[1..]);
      forall i | |t| <= i < |r|
        ensures r[i].key in Conditions(s)
      {
        if i < |t'| {
          assert r[i].key == s[0].condition == Conditions(s)[0];
        } else {
          var m :| 0 <= m < |s[1..]| && Conditions(s[1..])[m] == r[i].key;
          assert Conditions(s)[m + 1] == r[i].key;
        }
      }
    }
  }

  /** The tally has distinct keys starting with the three buckets, each value is the number of records
      with that exact condition, every other key is some record's condition, and the values add up to
      the number of records. */
  lemma CondCountsSpec(s: seq<Patient>)
    ensures var t := CondCounts(s);
      && DistinctKeys(t)
      && |t| >= 3 && t[0].key == "Diabetes" && t[1].key == "Thyroid" && t[2].key == "High Blood Pressure"
      && (forall k :: CountOf(t, k) == Count(s, k))
      && (forall i :: 3 <= i < |t| ==> t[i].key in Conditions(s) && BucketOf(t[i].key).None?)
      && SumCounts(t) == |s|
  {
    TallyFromSpec(InitialTally, s);
    var t := CondCounts(s);
    forall k
      ensures CountOf(t, k) == Count(s, k)
    {
      assert CountOf(InitialTally, k) == 0;
    }
    forall i | 3 <= i < |t|
      ensures BucketOf(t[i].key).None?
    {
      assert t[i].key != t[0].key && t[i].key != t[1].key && t[i].key != t[2].key;
    }
  }

  // Report line and summary cards

  /** Total and the three bucket counts, as the report line and the summary cards show them. */
  datatype Summary = Summary(total: nat, diabetes: nat, thyroid: nat, highBloodPressure: nat)

  function Summarize(s: seq<Patient>): Summary {
    var t := CondCounts(s);
    Summary(|s|, CountOf(t, "Diabetes"), CountOf(t, "Thyroid"), CountOf(t, "High Blood Pressure"))
  }

  /** Each shown count is the number of records with exactly that condition; the three add up to at most
      the total, and to exactly the total when no record has an unknown condition. */
  lemma SummaryCounts(s: seq<Patient>)
    ensures var m := Summarize(s);
      && m.total == |s|
      && m.diabetes == Count(s, "Diabetes")
      && m.thyroid == Count(s, "Thyroid")
      && m.highBloodPressure == Count(s, "High Blood Pressure")
      && m.diabetes + m.thyroid + m.highBloodPressure <= m.total
      && (m.diabetes + m.thyroid + m.highBloodPressure == m.total <==>
          forall i :: 0 <= i < |s| ==> BucketOf(s[i].condition).Some?)
  {
    CondCountsSpec(s);
    CountsPartition(s);
    Seqs.KeepCounts(s, HasUnknownCondition());
    if |Unknown(s)| == 0 {
      forall i | 0 <= i < |s|
        ensures BucketOf(s[i].condition).Some?
      {
        assert s[i] in multiset(s);
      }
    } else {
      var u := Unknown(s)[0];
      assert u in multiset(Unknown(s));
      assert u in s;
    }
  }

  /** Importing the samples adds one record to each bucket. */
  lemma SampleFillsEachBucket(s: seq<Patient>, ids: (string, string, string), stamps: (string, string, string))
    ensures forall b :: Count(LoadSample(s, ids, stamps), Label(b)) == Count(s, Label(b)) + 1
  {
    var r := LoadSample(s, ids, stamps);
    var h := r[..3];
    assert r == h + s;
    forall b
      ensures Count(r, Label(b)) == Count(s, Label(b)) + 1
    {
      CountAppend(h, s, Label(b));
      CountAppend([h[0]], h[1..], Label(b));
      CountAppend([h[1]], h[2..], Label(b));
      assert h == [h[0]] + h[1..] && h[1..] == [h[1]] + h[2..] && h[2..] == [h[2]];
    }
  }

  // Age means: the bar chart

  function Ages(s: seq<Patient>): (r: seq<nat>)
    ensures |r| == |s| && forall i :: 0 <= i < |s| ==> r[i] == s[i].age
  {
    seq(|s|, i requires 0 <= i < |s| => s[i].age)
  }

  /** `groups[b]`: the ages of the records in bucket `b`, in store order. */
  function AgesIn(s: seq<Patient>, b: Bucket): (r: seq<nat>)
    ensures |r| == Count(s, Label(b))
    ensures forall i :: 0 <= i < |r| ==> r[i] == WithCondition(s, Label(b))[i].age
  {
    Ages(WithCondition(s, Label(b)))
  }

  function Sum(a: seq<nat>): nat {
    if |a| == 0 then 0 else a[0] + Sum(a[1..])
  }

  /** `Math.round(sum / n)` for non-negative sums: the quotient rounded half up. */
  function RoundedQuotient(sum: nat, n: nat): nat
    requires n > 0
  {
    (2 * sum + n) / (2 * n)
  }

  /** The rounded mean of a group, 0 for an empty group: otherwise the integer nearest to the
      exact mean (halves rounded up), which lies between the youngest and oldest age. */
  function Mean(a: seq<nat>): (m: nat)
    ensures |a| == 0 ==> m == 0
    ensures |a| > 0 ==> Min(a) <= m <= Max(a)
    ensures |a| > 0 ==> var k: int := m; |a| * (2 * k - 1) <= 2 * Sum(a) < |a| * (2 * k + 1)
  {
    if |a| == 0 then 0
    else
      MeanWithinRange(a);
      RoundedQuotientNearest(Sum(a), |a|);
      RoundedQuotient(Sum(a), |a|)
  }

  /** `Math.round`'s definition: `m - 1/2 <= sum/n < m + 1/2`. */
  lemma RoundedQuotientNearest(sum: nat, n: nat)
    requires n > 0
    ensures var m: int := RoundedQuotient(sum, n);
      n * (2 * m - 1) <= 2 * sum < n * (2 * m + 1)
  {
    var m: int := RoundedQuotient(sum, n);
    var rem := (2 * sum + n) % (2 * n);
    assert 2 * sum + n == (2 * n) * m + rem;
    assert 0 <= rem < 2 * n;
    assert n * (2 * m - 1) == (2 * n) * m - n;
    assert n * (2 * m + 1) == (2 * n) * m + n;
  }

  function Min(a: seq<nat>): nat
    requires |a| > 0
  {
    if |a| == 1 then a[0] else var m := Min(a[1..]); if a[0] <= m then a[0] else m
  }

  function Max(a: seq<nat>): nat
    requires |a| > 0
  {
    if |a| == 1 then a[0] else var m := Max(a[1..]); if a[0] >= m then a[0] else m
  }

  lemma {:induction false} MinMaxBound(a: seq<nat>)
    requires |a| > 0
    ensures forall i :: 0 <= i < |a| ==> Min(a) <= a[i] <= Max(a)
  {
    if |a| > 1 {
      MinMaxBound(a[1..]);
      assert forall i :: 1 <= i < |a| ==> a[i] == a[1..][i - 1];
    }
  }

  lemma {:induction false} SumBounds(a: seq<nat>, lo: int, hi: int)
    requires forall i :: 0 <= i < |a| ==> lo <= a[i] <= hi
    ensures |a| * lo <= Sum(a) <= |a| * hi
  {
    if |a| > 0 {
      SumBounds(a[1..], lo, hi);
      assert (|a| - 1) * lo + lo == |a| * lo;
      assert (|a| - 1) * hi + hi == |a| * hi;
    }
  }

  lemma MultiplyMonotone(n: nat, x: int, y: int)
    ensures x <= y ==> n * x <= n * y
  {
    if x <= y {
      assert n * y - n * x == n * (y - x);
    }
  }

  /** The integer nearest to `sum / n` lies between `lo` and `hi` when `sum / n` does. */
  lemma NearestBetween(sum: int, n: nat, m: int, lo: int, hi: int)
    requires n > 0 && n * (2 * m - 1) <= 2 * sum < n * (2 * m + 1)
    requires n * lo <= sum <= n * hi
    ensures lo <= m <= hi
  {
    assert n * (2 * lo) == 2 * (n * lo);
    assert n * (2 * hi + 1) == 2 * (n * hi) + n;
    MultiplyMonotone(n, 2 * m + 1, 2 * lo);
    MultiplyMonotone(n, 2 * hi + 1, 2 * m - 1);
  }

  /** A rounded quotient of a sum lying between `n * lo` and `n * hi` lies between `lo` and `hi`. */
  lemma RoundedQuotientBetween(sum: nat, n: nat, lo: int, hi: int)
    requires n > 0 && n * lo <= sum <= n * hi
    ensures lo <= RoundedQuotient(sum, n) <= hi
  {
    RoundedQuotientNearest(sum, n);
    NearestBetween(sum, n, RoundedQuotient(sum, n), lo, hi);
  }

  /** A non-empty group's rounded mean lies between its smallest and largest age. */
  lemma MeanWithinRange(a: seq<nat>)
    requires |a| > 0
    ensures Min(a) <= RoundedQuotient(Sum(a), |a|) <= Max(a)
  {
    MinMaxBound(a);
    SumBounds(a, Min(a), Max(a));
    RoundedQuotientBetween(Sum(a), |a|, Min(a), Max(a));
  }

  /** The bar values, one per bucket in bucket order: 0 for an empty bucket, otherwise the
      integer nearest to the bucket's exact mean age, which lies between its youngest and oldest age. */
  function AgeMeans(s: seq<Patient>): (r: seq<nat>)
    ensures |r| == |Buckets|
    ensures forall i :: 0 <= i < |Buckets| ==> |AgesIn(s, Buckets[i])| == 0 ==> r[i] == 0
    ensures forall i :: 0 <= i < |Buckets| ==> var a := AgesIn(s, Buckets[i]);
      |a| > 0 ==> Min(a) <= r[i] <= Max(a)
    ensures forall i :: 0 <= i < |Buckets| ==> var a := AgesIn(s, Buckets[i]);
      |a| > 0 ==> var m: int := r[i]; |a| * (2 * m - 1) <= 2 * Sum(a) < |a| * (2 * m + 1)
  {
    seq(|Buckets|, i requires 0 <= i < |Buckets| => Mean(AgesIn(s, Buckets[i])))
  }

  /** A record whose condition is not a bucket joins no age group, wherever it stands in the list. */
  lemma UnknownJoinsNoGroup(a: seq<Patient>, p: Patient, c: seq<Patient>, b: Bucket)
    requires BucketOf(p.condition).None?
    ensures AgesIn(a + [p] + c, b) == AgesIn(a + c, b)
  {
    Seqs.KeepAppend(a + [p], c, HasCondition(Label(b)));
    Seqs.KeepAppend(a, [p], HasCondition(Label(b)));
    Seqs.KeepAppend(a, c, HasCondition(Label(b)));
    assert Seqs.Keep([p], HasCondition(Label(b))) == [];
    assert Seqs.Keep(a, HasCondition(Label(b))) + [] == Seqs.Keep(a, HasCondition(Label(b)));
  }

  // Recent list and the whole projection

  /** `patients.slice(0, 6)`: the first six records in store order, or all of them when there are fewer. */
  function Recent(s: seq<Patient>): (r: seq<Patient>)
    ensures |r| == if |s| < 6 then |s| else 6
    ensures forall i :: 0 <= i < |r| ==> r[i] == s[i]
  {
    if |s| < 6 then s else s[..6]
  }

  /** Everything `updateDashboard` derives from the store. */
  datatype Projection = Projection(pie: seq<Entry>, ageMeans: seq<nat>, summary: Summary, recent: seq<Patient>)

  /** The four views agree with one another and with the store. The pie has one slice per distinct
      condition, the three buckets first and then the other record conditions, each sized by its
      number of records, and the slices add up to the total card. The three bucket cards show the
      pie's values for those keys. Each bar is 0 for an empty bucket, otherwise the integer nearest
      to the bucket's mean age, between its youngest and oldest age. The recent list opens the store. */
  function Project(s: seq<Patient>): (r: Projection)
    ensures r.summary.total == |s| && SumCounts(r.pie) == |s|
    ensures CountOf(r.pie, "Diabetes") == r.summary.diabetes == Count(s, "Diabetes")
    ensures CountOf(r.pie, "Thyroid") == r.summary.thyroid == Count(s, "Thyroid")
    ensures CountOf(r.pie, "High Blood Pressure") == r.summary.highBloodPressure == Count(s, "High Blood Pressure")
    ensures DistinctKeys(r.pie) && |r.pie| >= 3
    ensures r.pie[0].key == "Diabetes" && r.pie[1].key == "Thyroid" && r.pie[2].key == "High Blood Pressure"
    ensures forall k :: CountOf(r.pie, k) == Count(s, k)
    ensures forall i :: 3 <= i < |r.pie| ==> r.pie[i].key in Conditions(s) && BucketOf(r.pie[i].key).None?
    ensures |r.ageMeans| == |Buckets|
    ensures forall i :: 0 <= i < |Buckets| ==> |AgesIn(s, Buckets[i])| == 0 ==> r.ageMeans[i] == 0
    ensures forall i :: 0 <= i < |Buckets| ==> var a := AgesIn(s, Buckets[i]);
      |a| > 0 ==> Min(a) <= r.ageMeans[i] <= Max(a)
    ensures forall i :: 0 <= i < |Buckets| ==> var a := AgesIn(s, Buckets[i]);
      |a| > 0 ==> var m: int := r.ageMeans[i]; |a| * (2 * m - 1) <= 2 * Sum(a) < |a| * (2 * m + 1)
    ensures |r.recent| == (if |s| < 6 then |s| else 6) && r.recent == s[..|r.recent|]
  {
    CondCountsSpec(s);
    SummaryCounts(s);
    Projection(CondCounts(s), AgeMeans(s), Summarize(s), Recent(s))
  }
}
