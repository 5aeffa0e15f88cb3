/** A worked case of the gap computation on calendar dates. */
module Scenarios {
  import opened Calendar
  import opened PriceSeries
  import opened RangeSync

  /**
    A symbol stored for 2021-03-01 through 2021-03-31 and synced for
    2021-01-01 through 2021-06-30 is fetched for exactly two ranges:
    [2021-01-01, 2021-03-01) and [2021-04-01, 2021-07-01), that is
    2021-04-01 through 2021-06-30 inclusive.
  */
  lemma MarchStoredFirstHalfRequested(stored: seq<Bar>)
    requires StrictlySorted(stored) && stored != []
    requires Earliest(stored) == Ordinal(Date(2021, 3, 1)) && Latest(stored) == Ordinal(Date(2021, 3, 31))
    ensures Gaps(stored, Ordinal(Date(2021, 1, 1)), Ordinal(Date(2021, 6, 30)))
            == [Span(Ordinal(Date(2021, 1, 1)), Ordinal(Date(2021, 3, 1))),
                Span(Ordinal(Date(2021, 4, 1)), Ordinal(Date(2021, 7, 1)))]
  {
    assert Ordinal(Date(2021, 3, 31)) + 1 == Ordinal(Date(2021, 4, 1));
    assert Ordinal(Date(2021, 6, 30)) + 1 == Ordinal(Date(2021, 7, 1));
    assert Ordinal(Date(2021, 1, 1)) < Ordinal(Date(2021, 3, 1));
    assert Ordinal(Date(2021, 6, 30)) > Ordinal(Date(2021, 3, 31));
  }
}
