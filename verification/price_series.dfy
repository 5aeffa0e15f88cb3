/**
  The range store's per-ticker price series and the merge `_update_symbol`
  performs before writing it back: concatenate the stored bars with the
  fetched ones, sort by date and drop duplicate dates keeping the last.

  The merge is modelled as a left fold that inserts each bar of the
  concatenation in date order and lets it replace a bar already holding its
  date. That is what a STABLE sort followed by `drop_duplicates(keep="last")`
  computes; `Lookup` (the last bar for a date) states the "later bar wins"
  rule independently of the fold.
*/
module PriceSeries {
  import opened Wrappers

  /** A calendar day as its `date.toordinal()` number. */
  type Day = int

  type Symbol = string

  /** One row of a stored CSV file: Date, Open, High, Low, Close, Adj Close, Volume. */
  datatype Bar = Bar(date: Day, open: real, high: real, low: real, close: real, adjClose: real, volume: int)

  /** Ascending by date with no two bars on the same date. */
  predicate StrictlySorted(s: seq<Bar>)
  {
    forall i, j :: 0 <= i < j < |s| ==> s[i].date < s[j].date
  }

  function Dates(s: seq<Bar>): set<Day>
  {
    set i | 0 <= i < |s| :: s[i].date
  }

  /** The last bar of `s` dated `d`, if there is one. */
  function Lookup(s: seq<Bar>, d: Day): (r: Option<Bar>)
    ensures r.Some? ==> r.value in s && r.value.date == d
    ensures r.None? <==> d !in Dates(s)
  {
    if s == [] then None
    else
      var n := |s| - 1;
      assert Dates(s) == Dates(s[..n]) + {s[n].date} by {
        assert forall i :: 0 <= i < n ==> s[..n][i] == s[i];
      }
      if s[n].date == d then Some(s[n]) else Lookup(s[..n], d)
  }

  /** Places `b` in date order, replacing the bar that already has its date. */
  function Upsert(s: seq<Bar>, b: Bar): seq<Bar>
  {
    if s == [] then [b]
    else if b.date < s[0].date then [b] + s
    else if b.date == s[0].date then [b] + s[1..]
    else [s[0]] + Upsert(s[1..], b)
  }

  /** Inserting `b` adds at most one bar, keeps `b`, and brings in nothing else. */
  lemma {:induction false} UpsertKeeps(s: seq<Bar>, b: Bar)
    ensures b in Upsert(s, b) && |Upsert(s, b)| <= |s| + 1
    ensures forall x :: x in Upsert(s, b) ==> x == b || x in s
  {
    if s != [] && b.date > s[0].date {
      UpsertKeeps(s[1..], b);
      assert forall x :: x in s[1..] ==> x in s;
    }
  }

  /** `sort_values("Date").drop_duplicates(subset=["Date"], keep="last")` with a stable sort. */
  function Normalize(bars: seq<Bar>): seq<Bar>
  {
    if bars == [] then [] else Upsert(Normalize(bars[..|bars| - 1]), bars[|bars| - 1])
  }

  /** Normalising only drops bars: it never invents one, and the last input bar always survives. */
  lemma {:induction false} NormalizeKeeps(bars: seq<Bar>)
    ensures |Normalize(bars)| <= |bars|
    ensures forall x :: x in Normalize(bars) ==> x in bars
    ensures bars != [] ==> bars[|bars| - 1] in Normalize(bars)
  {
    if bars != [] {
      var n := |bars| - 1;
      NormalizeKeeps(bars[..n]);
      UpsertKeeps(Normalize(bars[..n]), bars[n]);
      assert forall x :: x in bars[..n] ==> x in bars;
    }
  }

  /** The series written back: the stored bars followed by the fetched ones, normalised. */
  function Merge(stored: seq<Bar>, fetched: seq<Bar>): (r: seq<Bar>)
    ensures forall x :: x in r ==> x in stored || x in fetched
    ensures fetched != [] ==> fetched[|fetched| - 1] in r
  {
    NormalizeKeeps(stored + fetched);
    assert stored + fetched != [] && fetched != [] ==> (stored + fetched)[|stored + fetched| - 1] == fetched[|fetched| - 1];
    Normalize(stored + fetched)
  }

  /** Looking a date up in a concatenation finds the bar in the later part first. */
  lemma {:induction false} LookupAppend(a: seq<Bar>, b: seq<Bar>, d: Day)
    ensures Lookup(a + b, d) == if Lookup(b, d).Some? then Lookup(b, d) else Lookup(a, d)
    decreases |b|
  {
    if b == [] {
      assert a + b == a;
    } else {
      var n := |b| - 1;
      assert (a + b)[..|a + b| - 1] == a + b[..n];
      LookupAppend(a, b[..n], d);
    }
  }

  /** Inserting a bar is placing it and replacing its date's bar; nothing else changes. */
  lemma {:induction false} UpsertSpec(s: seq<Bar>, b: Bar)
    requires StrictlySorted(s)
    ensures StrictlySorted(Upsert(s, b))
    ensures forall d :: Lookup(Upsert(s, b), d) == if d == b.date then Some(b) else Lookup(s, d)
    decreases |s|
  {
    if s == [] {
    } else if b.date <= s[0].date {
      UpsertFront(s, b);
    } else {
      UpsertSpec(s[1..], b);
      UpsertBehind(s, b);
    }
  }

  /** The cases of `Upsert` where the bar goes at the front. */
  lemma UpsertFront(s: seq<Bar>, b: Bar)
    requires StrictlySorted(s) && s != [] && b.date <= s[0].date
    ensures StrictlySorted(Upsert(s, b))
    ensures forall d :: Lookup(Upsert(s, b), d) == if d == b.date then Some(b) else Lookup(s, d)
  {
    if b.date < s[0].date {
      UpsertBefore(s, b);
    } else {
      UpsertReplace(s, b);
    }
  }

  /** A bar dated before the whole series is put in front of it. */
  lemma UpsertBefore(s: seq<Bar>, b: Bar)
    requires StrictlySorted(s) && s != [] && b.date < s[0].date
    ensures StrictlySorted([b] + s)
    ensures forall d :: Lookup([b] + s, d) == if d == b.date then Some(b) else Lookup(s, d)
  {
    forall d ensures Lookup([b] + s, d) == if d == b.date then Some(b) else Lookup(s, d) {
      ConsLookup(b, s, d);
    }
  }

  /** A bar dated like the first one takes its place. */
  lemma UpsertReplace(s: seq<Bar>, b: Bar)
    requires StrictlySorted(s) && s != [] && b.date == s[0].date
    ensures StrictlySorted([b] + s[1..])
    ensures forall d :: Lookup([b] + s[1..], d) == if d == b.date then Some(b) else Lookup(s, d)
  {
    assert s == [s[0]] + s[1..];
    forall d ensures Lookup([b] + s[1..], d) == if d == b.date then Some(b) else Lookup(s, d) {
      ConsLookup(b, s[1..], d);
      ConsLookup(s[0], s[1..], d);
    }
  }

  /** The case of `Upsert` where the bar goes behind the first one, given the recursive call's spec. */
  lemma UpsertBehind(s: seq<Bar>, b: Bar)
    requires StrictlySorted(s) && s != [] && s[0].date < b.date
    requires StrictlySorted(Upsert(s[1..], b))
    requires forall d :: Lookup(Upsert(s[1..], b), d) == if d == b.date then Some(b) else Lookup(s[1..], d)
    ensures StrictlySorted(Upsert(s, b))
    ensures forall d :: Lookup(Upsert(s, b), d) == if d == b.date then Some(b) else Lookup(s, d)
  {
    var t := Upsert(s[1..], b);
    assert Upsert(s, b) == [s[0]] + t;
    forall i | 0 <= i < |t| ensures s[0].date < t[i].date {
      var d := t[i].date;
      assert d in Dates(t);
      if d != b.date {
        var j :| 0 <= j < |s[1..]| && s[1..][j] == Lookup(s[1..], d).value;
        assert s[j + 1].date == d;
      }
    }
    assert s == [s[0]] + s[1..];
    forall d ensures Lookup([s[0]] + t, d) == if d == b.date then Some(b) else Lookup(s, d) {
      ConsLookup(s[0], t, d);
      ConsLookup(s[0], s[1..], d);
    }
  }

  /** Looking a date up in a series with one more bar in front. */
  lemma ConsLookup(h: Bar, t: seq<Bar>, d: Day)
    ensures Lookup([h] + t, d) == if Lookup(t, d).Some? then Lookup(t, d) else if d == h.date then Some(h) else None
  {
    LookupAppend([h], t, d);
    assert [h][..0] == [];
  }

  /**
    Normalising yields a strictly sorted series holding, for every date of
    the input, the input's last bar of that date, and no other date.
  */
  lemma {:induction false} NormalizeSpec(bars: seq<Bar>)
    ensures StrictlySorted(Normalize(bars))
    ensures forall d :: Lookup(Normalize(bars), d) == Lookup(bars, d)
  {
    if bars != [] {
      var n := |bars| - 1;
      NormalizeSpec(bars[..n]);
      UpsertSpec(Normalize(bars[..n]), bars[n]);
    }
  }

  /** In a strictly sorted series a date is held by exactly one bar, which is what a lookup returns. */
  lemma LookupSorted(s: seq<Bar>, i: int)
    requires StrictlySorted(s) && 0 <= i < |s|
    ensures Lookup(s, s[i].date) == Some(s[i])
  {
    assert s[i].date in Dates(s);
    var z := Lookup(s, s[i].date).value;
    var j :| 0 <= j < |s| && s[j] == z;
  }

  /** Dropping the last bar of a strictly sorted series leaves no bar on its date. */
  lemma LookupDropLast(s: seq<Bar>)
    requires StrictlySorted(s) && s != []
    ensures Lookup(s[..|s| - 1], s[|s| - 1].date).None?
  {
    assert s[|s| - 1].date !in Dates(s[..|s| - 1]);
  }

  /** What the store needs to stay valid: a normalised series is strictly sorted. */
  lemma NormalizeIsSorted(bars: seq<Bar>)
    ensures StrictlySorted(Normalize(bars))
  {
    NormalizeSpec(bars);
  }

  /** A strictly sorted series is determined by which bar it holds for each date. */
  lemma {:induction false} SortedDeterminedByLookup(a: seq<Bar>, b: seq<Bar>)
    requires StrictlySorted(a) && StrictlySorted(b)
    requires forall d :: Lookup(a, d) == Lookup(b, d)
    ensures a == b
    decreases |a|
  {
    assert a != [] ==> Lookup(b, a[|a| - 1].date).Some?;
    assert b != [] ==> Lookup(a, b[|b| - 1].date).Some?;
    if a != [] && b != [] {
      var x, y := a[|a| - 1], b[|b| - 1];
      LastDatesAgree(a, b);
      LookupSorted(a, |a| - 1);
      LookupSorted(b, |b| - 1);
      assert x == y;
      var a', b' := a[..|a| - 1], b[..|b| - 1];
      DropLastLookup(a);
      DropLastLookup(b);
      forall d ensures Lookup(a', d) == Lookup(b', d) {
        assert Lookup(a, d) == Lookup(b, d);
      }
      SortedDeterminedByLookup(a', b');
      assert a == a' + [x] && b == b' + [y];
    }
  }

  /** Two strictly sorted series holding the same bar for every date end on the same date. */
  lemma LastDatesAgree(a: seq<Bar>, b: seq<Bar>)
    requires StrictlySorted(a) && StrictlySorted(b) && a != [] && b != []
    requires forall d :: Lookup(a, d) == Lookup(b, d)
    ensures a[|a| - 1].date == b[|b| - 1].date
  {
    var x, y := a[|a| - 1], b[|b| - 1];
    assert Lookup(a, x.date).Some?;
    var j :| 0 <= j < |b| && b[j] == Lookup(b, x.date).value;
    assert Lookup(b, y.date).Some?;
    var k :| 0 <= k < |a| && a[k] == Lookup(a, y.date).value;
  }

  /** Dropping the last bar of a strictly sorted series removes exactly its date. */
  lemma DropLastLookup(s: seq<Bar>)
    requires StrictlySorted(s) && s != []
    ensures StrictlySorted(s[..|s| - 1])
    ensures forall d :: Lookup(s[..|s| - 1], d) == if d == s[|s| - 1].date then None else Lookup(s, d)
  {
    LookupDropLast(s);
  }

  /**
    The merged series is strictly sorted (ascending, no duplicate dates), its
    dates are the union of the stored and the fetched dates, and for each
    date it holds the last fetched bar of that date if one was fetched and
    the stored bar otherwise.
  */
  lemma MergeSpec(stored: seq<Bar>, fetched: seq<Bar>)
    ensures StrictlySorted(Merge(stored, fetched))
    ensures Dates(Merge(stored, fetched)) == Dates(stored) + Dates(fetched)
    ensures forall d :: Lookup(Merge(stored, fetched), d)
                        == if Lookup(fetched, d).Some? then Lookup(fetched, d) else Lookup(stored, d)
  {
    var m := Merge(stored, fetched);
    NormalizeSpec(stored + fetched);
    forall d ensures Lookup(m, d) == if Lookup(fetched, d).Some? then Lookup(fetched, d) else Lookup(stored, d) {
      LookupAppend(stored, fetched, d);
    }
    forall d ensures d in Dates(m) <==> d in Dates(stored) + Dates(fetched) {
      assert Lookup(m, d).Some? <==> d in Dates(m);
    }
  }

  /** Normalising a series that is already strictly sorted changes nothing. */
  lemma NormalizeSorted(s: seq<Bar>)
    requires StrictlySorted(s)
    ensures Normalize(s) == s
  {
    NormalizeSpec(s);
    SortedDeterminedByLookup(Normalize(s), s);
  }

  /** Merging the same fetched bars a second time leaves the merged series as it is. */
  lemma MergeIdempotent(stored: seq<Bar>, fetched: seq<Bar>)
    ensures Merge(Merge(stored, fetched), fetched) == Merge(stored, fetched)
  {
    var m := Merge(stored, fetched);
    MergeSpec(stored, fetched);
    MergeSpec(m, fetched);
    SortedDeterminedByLookup(Merge(m, fetched), m);
  }

  /** Every stored bar whose date was not fetched survives the merge unchanged. */
  lemma MergeKeepsUnfetched(stored: seq<Bar>, fetched: seq<Bar>, i: int)
    requires StrictlySorted(stored) && 0 <= i < |stored| && stored[i].date !in Dates(fetched)
    ensures stored[i] in Merge(stored, fetched)
  {
    MergeSpec(stored, fetched);
    LookupSorted(stored, i);
  }
}
