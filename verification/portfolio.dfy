/** The current portfolio CSV (the one file in `current_portfolio/`) as the backend reads it with pandas. */
module Portfolio {
  import opened Wrappers
  import Text

  /**
    One row of the portfolio: the Asset cell as text (None when pandas reads
    it as NaN: an empty cell, or one of its missing-value markers such as
    "NA", "null" or "None") and the Quantity cell after `int(...)` (None
    when that conversion raises).
  */
  datatype Row = Row(asset: Option<string>, quantity: Option<int>)

  /** The column names of the file and its rows. */
  datatype Table = Table(columns: set<string>, rows: seq<Row>)

  /** `str(ticker).strip().upper()` */
  function NormalizeTicker(s: string): (r: string)
    ensures r != [] ==> !Text.IsSpace(r[0]) && !Text.IsSpace(r[|r| - 1])
    ensures forall i :: 0 <= i < |r| ==> !('a' <= r[i] <= 'z')
  {
    var t := Text.Strip(s);
    Text.UpperKeepsSpace(t);
    Text.Upper(t)
  }

  /** A normalised ticker is already stripped and upper-cased, so normalising it again changes nothing. */
  lemma NormalizeTickerIdempotent(s: string)
    ensures NormalizeTicker(NormalizeTicker(s)) == NormalizeTicker(s)
  {
    var t := Text.Strip(s);
    var u := Text.Upper(t);
    if u != [] {
      Text.UpperCharFacts(t[0]);
      Text.UpperCharFacts(t[|t| - 1]);
    }
    assert Text.Strip(u) == u;
    Text.UpperIdempotent(t);
  }
}
