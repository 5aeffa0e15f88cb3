/** `validate_portfolio_input` of `backend/createPort.py`: the checks run when a portfolio is created. */
module CreatePort {
  import opened Wrappers
  import opened Calendar
  import opened Form
  import Text

  const TickerNotAlphaMessage := "Ticker symbol must contain letters only (e.g. AAPL)."
  const MaxTickerLength := 5

  /** The name and ticker checks, in the order the validator runs them. */
  function NameAndTickerGuards(s: Submission): seq<Guard>
  {
    [ if NameBlank(s.name) then Reject(NameEmptyMessage) else Pass,
      if s.ticker.None? || !Text.IsAlpha(s.ticker.value) then Reject(TickerNotAlphaMessage) else Pass,
      if s.ticker.Some? && |s.ticker.value| > MaxTickerLength then Reject(TickerTooLongMessage) else Pass ]
  }

  /** All the validator's checks in the order it runs them: name, ticker letters, ticker length, quantity, date. */
  function Guards(s: Submission, parseInt: IntParser, parseDate: DateParser, today: Date): seq<Guard>
  {
    NameAndTickerGuards(s) + (QuantityGuards(s.quantity, parseInt) + DateGuards(s.date, parseDate, today))
  }

  /**
    `validate_portfolio_input(data)` with `today` the local date: the
    outcome is decided by the first of its checks that does not pass.
  */
  function ValidatePortfolioInput(s: Submission, parseInt: IntParser, parseDate: DateParser, today: Date): (r: Outcome)
    ensures r.Raised? ==> && r.error == TypeError && (s.quantity.None? || s.date.None?)
                          && !NameBlank(s.name) && s.ticker.Some? && Text.IsAlpha(s.ticker.value)
                          && |s.ticker.value| <= MaxTickerLength
    ensures r.Returned? && r.valid ==> r == Accepted
  {
    if NameBlank(s.name) then
      Returned(false, NameEmptyMessage)
    else if s.ticker.None? || !Text.IsAlpha(s.ticker.value) then
      Returned(false, TickerNotAlphaMessage)
    else if |s.ticker.value| > MaxTickerLength then
      Returned(false, TickerTooLongMessage)
    else
      QuantityAndDate(s.quantity, s.date, parseInt, parseDate, today)
  }

  /**
    The validator runs its checks in order and the first that does not pass
    decides: it is the guard chain `Guards` run from the start.
  */
  lemma ValidateFollowsGuards(s: Submission, parseInt: IntParser, parseDate: DateParser, today: Date)
    ensures ValidatePortfolioInput(s, parseInt, parseDate, today) == RunGuards(Guards(s, parseInt, parseDate, today))
  {
    var tail := QuantityGuards(s.quantity, parseInt) + DateGuards(s.date, parseDate, today);
    var head := NameAndTickerGuards(s);
    if NameBlank(s.name) {
      RunGuardsFirstOfHead(head, tail, 0);
    } else if s.ticker.None? || !Text.IsAlpha(s.ticker.value) {
      RunGuardsFirstOfHead(head, tail, 1);
    } else if |s.ticker.value| > MaxTickerLength {
      RunGuardsFirstOfHead(head, tail, 2);
    } else {
      HeadPasses(s);
      RunGuardsSkip(head, tail);
    }
  }

  /**
    A submission is accepted exactly when its name is not blank, its ticker
    is made of letters only and has at most five of them, its quantity
    parses to a positive integer and its date parses and is not after today;
    any other returned outcome is a rejection.
  */
  lemma ValidateAccepts(s: Submission, parseInt: IntParser, parseDate: DateParser, today: Date)
    ensures var r := ValidatePortfolioInput(s, parseInt, parseDate, today);
            && (r == Accepted <==>
                  && !NameBlank(s.name)
                  && s.ticker.Some? && Text.IsAlpha(s.ticker.value) && |s.ticker.value| <= MaxTickerLength
                  && s.quantity.Some? && parseInt(s.quantity.value).Some? && parseInt(s.quantity.value).value > 0
                  && s.date.Some? && parseDate(s.date.value).Some? && !Before(today, parseDate(s.date.value).value))
            && (r.Returned? && r.valid ==> r == Accepted)
  {
    var head := NameAndTickerGuards(s);
    var tail := QuantityGuards(s.quantity, parseInt) + DateGuards(s.date, parseDate, today);
    ValidateFollowsGuards(s, parseInt, parseDate, today);
    RunGuardsAccepts(head + tail);
    RunGuardsAppendAccepts(head, tail);
    QuantityAndDateAccepts(s.quantity, s.date, parseInt, parseDate, today);
    HeadPasses(s);
  }

  /** The name and ticker checks all pass exactly when the name is not blank and the ticker is acceptable. */
  lemma HeadPasses(s: Submission)
    ensures var head := NameAndTickerGuards(s);
            (forall i :: 0 <= i < |head| ==> head[i].Pass?) <==>
            !NameBlank(s.name) && s.ticker.Some? && Text.IsAlpha(s.ticker.value) && |s.ticker.value| <= MaxTickerLength
  {
    var head := NameAndTickerGuards(s);
    assert |head| == 3;
    assert head[0].Pass? <==> !NameBlank(s.name);
    assert head[1].Pass? <==> s.ticker.Some? && Text.IsAlpha(s.ticker.value);
    assert head[2].Pass? <==> s.ticker.None? || |s.ticker.value| <= MaxTickerLength;
    AllPassCounted(head);
  }

  /**
    The checks run in order: the first one that fails decides, whatever the
    later fields hold. In particular a bad ticker is reported even when the
    quantity is missing, which would otherwise raise.
  */
  lemma ValidateFirstFailure(s: Submission, parseInt: IntParser, parseDate: DateParser, today: Date, k: int)
    requires 0 <= k < 7
    requires !Guards(s, parseInt, parseDate, today)[k].Pass?
    requires forall j :: 0 <= j < k ==> Guards(s, parseInt, parseDate, today)[j].Pass?
    ensures ValidatePortfolioInput(s, parseInt, parseDate, today) == Effect(Guards(s, parseInt, parseDate, today)[k])
  {
    ValidateFollowsGuards(s, parseInt, parseDate, today);
    RunGuardsFirst(Guards(s, parseInt, parseDate, today), k);
  }
}
