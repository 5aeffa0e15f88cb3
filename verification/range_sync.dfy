/**
  The incremental sync of one symbol (`_update_symbol`): find the gaps of the
  target window not covered by the stored series, fetch them from the
  provider and write back the merged series.
*/
module RangeSync {
  import opened Wrappers
  import opened PriceSeries

  /** A half-open range of days `[start, endExcl)`, as the provider is asked for it. */
  datatype Span = Span(start: Day, endExcl: Day)

  predicate InSpan(g: Span, d: Day)
  {
    g.start <= d < g.endExcl
  }

  /**
    The market-data provider (`_fetch`): the bars it returns for a symbol and a
    half-open range of days, possibly none.
  */
  type Fetcher = (Symbol, Day, Day) -> seq<Bar>

  /** `existing["Date"].min()` */
  function Earliest(s: seq<Bar>): (d: Day)
    requires StrictlySorted(s) && s != []
    ensures d in Dates(s) && forall i :: 0 <= i < |s| ==> d <= s[i].date
  {
    s[0].date
  }

  /** `existing["Date"].max()` */
  function Latest(s: seq<Bar>): (d: Day)
    requires StrictlySorted(s) && s != []
    ensures d in Dates(s) && forall i :: 0 <= i < |s| ==> s[i].date <= d
  {
    s[|s| - 1].date
  }

  /** Day `d` lies between the earliest and the latest stored day. */
  predicate InStoredRange(stored: seq<Bar>, d: Day)
    requires StrictlySorted(stored)
  {
    stored != [] && Earliest(stored) <= d <= Latest(stored)
  }

  /**
    The ranges `_update_symbol` fetches for the target window
    `[targetStart, targetEnd]`: the whole window when nothing is stored,
    otherwise the part before the earliest stored day and the part after the
    latest one, each only when it is non-empty.
  */
  function Gaps(stored: seq<Bar>, targetStart: Day, targetEnd: Day): (gaps: seq<Span>)
    requires StrictlySorted(stored)
    ensures stored == [] ==> gaps == [Span(targetStart, targetEnd + 1)]
    ensures stored != [] ==>
      (Span(targetStart, Earliest(stored)) in gaps <==> targetStart < Earliest(stored))
    ensures stored != [] ==>
      (Span(Latest(stored) + 1, targetEnd + 1) in gaps <==> targetEnd > Latest(stored))
    ensures stored != [] ==>
      |gaps| == (if targetStart < Earliest(stored) then 1 else 0) + (if targetEnd > Latest(stored) then 1 else 0)
    ensures forall g, d :: g in gaps && InSpan(g, d) ==> !InStoredRange(stored, d)
    ensures forall g, d :: g in gaps && InSpan(g, d) ==>
              (targetStart <= d <= targetEnd)
              || (stored != [] && (targetEnd < d < Earliest(stored) || Latest(stored) < d < targetStart))
    ensures forall i, j, d :: 0 <= i < j < |gaps| && InSpan(gaps[i], d) ==> !InSpan(gaps[j], d)
    ensures forall d :: targetStart <= d <= targetEnd && !InStoredRange(stored, d)
                        ==> exists i :: 0 <= i < |gaps| && InSpan(gaps[i], d)
  {
    if stored == [] then
      var whole := Span(targetStart, targetEnd + 1);
      assert forall d :: targetStart <= d <= targetEnd ==> [whole][0] == whole && InSpan(whole, d);
      [whole]
    else
      var currentStart, currentEnd := Earliest(stored), Latest(stored);
      (if targetStart < currentStart then [Span(targetStart, currentStart)] else [])
      + (if targetEnd > currentEnd then [Span(currentEnd + 1, targetEnd + 1)] else [])
  }

  /** The bars the provider returns for each range in turn, concatenated. */
  function FetchAll(symbol: Symbol, gaps: seq<Span>, fetch: Fetcher): seq<Bar>
  {
    if gaps == [] then []
    else FetchAll(symbol, gaps[..|gaps| - 1], fetch) + fetch(symbol, gaps[|gaps| - 1].start, gaps[|gaps| - 1].endExcl)
  }

  /** Nothing comes back exactly when every requested range came back empty. */
  lemma {:induction false} FetchAllEmpty(symbol: Symbol, gaps: seq<Span>, fetch: Fetcher)
    ensures FetchAll(symbol, gaps, fetch) == [] <==> forall g :: g in gaps ==> fetch(symbol, g.start, g.endExcl) == []
  {
    if gaps != [] {
      var n := |gaps| - 1;
      FetchAllEmpty(symbol, gaps[..n], fetch);
      assert forall g :: g in gaps <==> g in gaps[..n] || g == gaps[n] by {
        assert gaps == gaps[..n] + [gaps[n]];
      }
    }
  }

  /** What one `_update_symbol` call reports, and the series it writes, if it writes one. */
  datatype SyncOutcome = SyncOutcome(ok: bool, written: Option<seq<Bar>>)

  /**
    The outcome of `_update_symbol` for the stored series `stored`: nothing
    fetched means failure when nothing was stored and an untouched success
    otherwise; anything fetched is merged and written.
  */
  function Sync(stored: seq<Bar>, symbol: Symbol, targetStart: Day, targetEnd: Day, fetch: Fetcher): (out: SyncOutcome)
    requires StrictlySorted(stored)
    ensures !out.ok <==> stored == [] && fetch(symbol, targetStart, targetEnd + 1) == []
    ensures !out.ok ==> out.written == None
    ensures stored != [] && Earliest(stored) <= targetStart && targetEnd <= Latest(stored)
            ==> out == SyncOutcome(true, None)
  {
    var fetched := FetchAll(symbol, Gaps(stored, targetStart, targetEnd), fetch);
    assert stored == [] ==> fetched == fetch(symbol, targetStart, targetEnd + 1) by {
      var whole := [Span(targetStart, targetEnd + 1)];
      assert whole[..0] == [];
      assert FetchAll(symbol, whole, fetch) == [] + fetch(symbol, targetStart, targetEnd + 1);
    }
    if fetched == [] then SyncOutcome(stored != [], None)
    else SyncOutcome(true, Some(Merge(stored, fetched)))
  }

  /**
    A written series is strictly sorted by date, covers exactly the stored
    and the fetched dates, takes every fetched bar over a stored one of the
    same date and keeps the stored bar where nothing was fetched for its date.
  */
  lemma SyncWrites(stored: seq<Bar>, symbol: Symbol, targetStart: Day, targetEnd: Day, fetch: Fetcher)
    requires StrictlySorted(stored)
    requires Sync(stored, symbol, targetStart, targetEnd, fetch).written.Some?
    ensures var w := Sync(stored, symbol, targetStart, targetEnd, fetch).written.value;
            var fetched := FetchAll(symbol, Gaps(stored, targetStart, targetEnd), fetch);
            && StrictlySorted(w) && w != []
            && Dates(w) == Dates(stored) + Dates(fetched)
            && forall d :: Lookup(w, d) == if Lookup(fetched, d).Some? then Lookup(fetched, d) else Lookup(stored, d)
  {
    var fetched := FetchAll(symbol, Gaps(stored, targetStart, targetEnd), fetch);
    MergeSpec(stored, fetched);
    assert fetched[0].date in Dates(fetched);
  }

  /**
    A sync writes exactly when some gap fetch returned bars; with a stored
    series and nothing fetched it reports success and leaves the store as
    it was.
  */
  lemma SyncWritesIffFetched(stored: seq<Bar>, symbol: Symbol, targetStart: Day, targetEnd: Day, fetch: Fetcher)
    requires StrictlySorted(stored)
    ensures var out := Sync(stored, symbol, targetStart, targetEnd, fetch);
            var fetched := FetchAll(symbol, Gaps(stored, targetStart, targetEnd), fetch);
            && (out.written.Some? <==> fetched != [])
            && (stored != [] && fetched == [] ==> out == SyncOutcome(true, None))
  {
    SyncOfFetched(stored, symbol, targetStart, targetEnd, fetch, FetchAll(symbol, Gaps(stored, targetStart, targetEnd), fetch));
  }

  /** Running a successful sync's merge once more with the same fetched bars changes nothing. */
  lemma SyncWriteIdempotent(stored: seq<Bar>, symbol: Symbol, targetStart: Day, targetEnd: Day, fetch: Fetcher)
    requires StrictlySorted(stored)
    requires Sync(stored, symbol, targetStart, targetEnd, fetch).written.Some?
    ensures var w := Sync(stored, symbol, targetStart, targetEnd, fetch).written.value;
            Merge(w, FetchAll(symbol, Gaps(stored, targetStart, targetEnd), fetch)) == w
  {
    MergeIdempotent(stored, FetchAll(symbol, Gaps(stored, targetStart, targetEnd), fetch));
  }

  /** `Sync` in terms of the bars the gap fetches returned. */
  lemma SyncOfFetched(stored: seq<Bar>, symbol: Symbol, targetStart: Day, targetEnd: Day, fetch: Fetcher, fetched: seq<Bar>)
    requires StrictlySorted(stored)
    requires fetched == FetchAll(symbol, Gaps(stored, targetStart, targetEnd), fetch)
    ensures Sync(stored, symbol, targetStart, targetEnd, fetch)
            == if fetched == [] then SyncOutcome(stored != [], None) else SyncOutcome(true, Some(Merge(stored, fetched)))
  {
  }

  function Concat(frames: seq<seq<Bar>>): seq<Bar>
  {
    if frames == [] then [] else Concat(frames[..|frames| - 1]) + frames[|frames| - 1]
  }

  lemma ConcatSnoc(frames: seq<seq<Bar>>, f: seq<Bar>)
    ensures Concat(frames + [f]) == Concat(frames) + f
  {
    assert (frames + [f])[..|frames|] == frames;
  }

  lemma FetchAllSnoc(symbol: Symbol, gaps: seq<Span>, g: Span, fetch: Fetcher)
    ensures FetchAll(symbol, gaps + [g], fetch) == FetchAll(symbol, gaps, fetch) + fetch(symbol, g.start, g.endExcl)
  {
    assert (gaps + [g])[..|gaps|] == gaps;
  }

  ghost predicate AllSorted(files: map<Symbol, seq<Bar>>)
  {
    forall s :: s in files ==> StrictlySorted(files[s])
  }

  lemma AllSortedUpdate(files: map<Symbol, seq<Bar>>, symbol: Symbol, series: seq<Bar>)
    requires AllSorted(files) && StrictlySorted(series)
    ensures AllSorted(files[symbol := series])
  {
  }

  /** `_read_existing` on the store `files`: a symbol's series, empty when it has no file. */
  function StoredIn(files: map<Symbol, seq<Bar>>, symbol: Symbol): (s: seq<Bar>)
    requires AllSorted(files)
    ensures StrictlySorted(s)
    ensures symbol !in files ==> s == []
  {
    if symbol in files then files[symbol] else []
  }

  /**
    The stored-series branch of `_update_symbol`: asks for the missing range
    before the earliest and after the latest stored day, and returns the
    stored series followed by every non-empty answer, in order.
  */
  method FetchAroundStored(symbol: Symbol, existing: seq<Bar>, startDate: Day, endDate: Day, fetch: Fetcher)
    returns (frames: seq<seq<Bar>>, ghost requested: seq<Span>, ghost fetchedSoFar: seq<Bar>)
    requires StrictlySorted(existing) && existing != []
    ensures requested == Gaps(existing, startDate, endDate)
    ensures fetchedSoFar == FetchAll(symbol, requested, fetch)
    ensures Concat(frames) == existing + fetchedSoFar
    ensures |frames| >= 1 && (|frames| == 1 <==> fetchedSoFar == [])
  {
    frames := [existing];
    requested := [];
    fetchedSoFar := [];
    ConcatSnoc([], existing);
    var currentStart := Earliest(existing);
    var currentEnd := Latest(existing);
    ghost var prepend := if startDate < currentStart then [Span(startDate, currentStart)] else [];
    ghost var append := if endDate > currentEnd then [Span(currentEnd + 1, endDate + 1)] else [];
    if startDate < currentStart {
      frames, requested, fetchedSoFar := FetchSpan(symbol, Span(startDate, currentStart), fetch, existing, frames, requested, fetchedSoFar);
    }
    assert requested == prepend;
    if endDate > currentEnd {
      frames, requested, fetchedSoFar := FetchSpan(symbol, Span(currentEnd + 1, endDate + 1), fetch, existing, frames, requested, fetchedSoFar);
    }
    assert requested == prepend + append;
    GapsAroundStored(existing, startDate, endDate);
  }

  /** One request of that branch: the answer for `span` becomes a new frame when it is non-empty. */
  method FetchSpan(symbol: Symbol, span: Span, fetch: Fetcher, ghost existing: seq<Bar>,
                   frames: seq<seq<Bar>>, ghost requested: seq<Span>, ghost fetchedSoFar: seq<Bar>)
    returns (frames': seq<seq<Bar>>, ghost requested': seq<Span>, ghost fetchedSoFar': seq<Bar>)
    requires FramesHold(frames, existing, fetchedSoFar) && fetchedSoFar == FetchAll(symbol, requested, fetch)
    ensures requested' == requested + [span]
    ensures fetchedSoFar' == FetchAll(symbol, requested', fetch)
    ensures FramesHold(frames', existing, fetchedSoFar')
  {
    var fetched := fetch(symbol, span.start, span.endExcl);
    FetchAllSnoc(symbol, requested, span, fetch);
    FrameStep(frames, existing, fetchedSoFar, fetched);
    requested' := requested + [span];
    fetchedSoFar' := fetchedSoFar + fetched;
    frames' := frames;
    if fetched != [] {
      frames' := frames + [fetched];
    }
  }

  /** The frames are the stored series followed by the non-empty answers received so far. */
  ghost predicate FramesHold(frames: seq<seq<Bar>>, existing: seq<Bar>, fetchedSoFar: seq<Bar>)
  {
    Concat(frames) == existing + fetchedSoFar && |frames| >= 1 && (|frames| == 1 <==> fetchedSoFar == [])
  }

  /** Appending an answer to the frames only when it is non-empty keeps them in step with the bars received. */
  lemma FrameStep(frames: seq<seq<Bar>>, existing: seq<Bar>, fetchedSoFar: seq<Bar>, fetched: seq<Bar>)
    requires FramesHold(frames, existing, fetchedSoFar)
    ensures FramesHold(if fetched != [] then frames + [fetched] else frames, existing, fetchedSoFar + fetched)
  {
    ConcatSnoc(frames, fetched);
    assert fetched == [] ==> fetchedSoFar + fetched == fetchedSoFar;
  }

  /** With a stored series the gaps are the prepend range, then the append range, each when non-empty. */
  lemma GapsAroundStored(stored: seq<Bar>, targetStart: Day, targetEnd: Day)
    requires StrictlySorted(stored) && stored != []
    ensures Gaps(stored, targetStart, targetEnd)
            == (if targetStart < Earliest(stored) then [Span(targetStart, Earliest(stored))] else [])
               + (if targetEnd > Latest(stored) then [Span(Latest(stored) + 1, targetEnd + 1)] else [])
  {
  }

  /** The store after a sync outcome: the written series replaces the symbol's file, if one was written. */
  function Apply(files: map<Symbol, seq<Bar>>, symbol: Symbol, out: SyncOutcome): map<Symbol, seq<Bar>>
  {
    if out.written.Some? then files[symbol := out.written.value] else files
  }

  /**
    The range store: one price series per symbol, the CSV files under
    `stock_data/` as the series they parse to.
  */
  class PriceStore {
    var files: map<Symbol, seq<Bar>>

    /** Every stored series is sorted by date without duplicate dates, as `_update_symbol` writes them. */
    ghost predicate Valid()
      reads this
    {
      AllSorted(files)
    }

    /** `_read_existing`: the stored series of a symbol, empty when it has no file. */
    function Stored(symbol: Symbol): (s: seq<Bar>)
      reads this
      requires Valid()
      ensures StrictlySorted(s)
    {
      StoredIn(files, symbol)
    }

    constructor (initial: map<Symbol, seq<Bar>>)
      requires forall s :: s in initial ==> StrictlySorted(initial[s])
      ensures Valid() && files == initial
    {
      files := initial;
    }

    /**
      `_update_symbol(symbol, startDate, endDate)`: fetches the gaps of the
      window, in order, and writes the merged series unless every fetch came
      back empty. `requested` is the list of ranges the provider was asked for.
    */
    method UpdateSymbol(symbol: Symbol, startDate: Day, endDate: Day, fetch: Fetcher)
      returns (ok: bool, ghost requested: seq<Span>)
      requires Valid()
      modifies this
      ensures Valid()
      ensures requested == Gaps(old(Stored(symbol)), startDate, endDate)
      ensures var out := Sync(old(Stored(symbol)), symbol, startDate, endDate, fetch);
              ok == out.ok && files == Apply(old(files), symbol, out)
    {
      var existing := Stored(symbol);
      var frames: seq<seq<Bar>> := [];
      if existing != [] {
        frames := frames + [existing];
      }
      requested := [];
      ghost var fetchedSoFar: seq<Bar> := [];
      if existing == [] {
        requested := requested + [Span(startDate, endDate + 1)];
        var fetched := fetch(symbol, startDate, endDate + 1);
        FetchAllSnoc(symbol, [], Span(startDate, endDate + 1), fetch);
        SyncOfFetched(existing, symbol, startDate, endDate, fetch, fetched);
        if fetched == [] {
          ok := false;
          assert files == Apply(old(files), symbol, Sync(existing, symbol, startDate, endDate, fetch));
          return;
        }
        ConcatSnoc(frames, fetched);
        frames := frames + [fetched];
        fetchedSoFar := fetched;
      } else {
        frames, requested, fetchedSoFar := FetchAroundStored(symbol, existing, startDate, endDate, fetch);
        SyncOfFetched(existing, symbol, startDate, endDate, fetch, fetchedSoFar);
        if |frames| == 1 {
          // The stored series already covers the window, or nothing new came back.
          ok := true;
          assert files == Apply(old(files), symbol, Sync(existing, symbol, startDate, endDate, fetch));
          return;
        }
      }
      var combined := Concat(frames);
      var merged := Normalize(combined);
      assert combined == existing + fetchedSoFar && fetchedSoFar != [];
      assert Sync(existing, symbol, startDate, endDate, fetch) == SyncOutcome(true, Some(merged));
      NormalizeIsSorted(combined);
      AllSortedUpdate(files, symbol, merged);
      files := files[symbol := merged];
      ok := true;
      assert files == Apply(old(files), symbol, Sync(existing, symbol, startDate, endDate, fetch));
    }
  }
}
