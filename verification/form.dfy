/**
  What the two `validate_portfolio_input` functions share: the submitted
  form, the `(is_valid, message)` outcome or the exception that escapes, the
  quantity and date checks both end with, and a reference reading of an
  ordered guard chain ("the first check that does not pass decides").
*/
module Form {
  import opened Wrappers
  import opened Calendar
  import Text

  /** The JSON fields `name`, `ticker`, `quantity` and `date`; `None` when a field is absent. */
  datatype Submission = Submission(name: Option<string>, ticker: Option<string>, quantity: Option<string>, date: Option<string>)

  /** The exceptions the modelled code lets escape. */
  datatype PyError =
    | TypeError                   // int(None) or strptime(None, ...)
    | IntParseError               // the ValueError int() raises on a malformed literal
    | ValueError(message: string) // a ValueError raised by the code itself

  /** A returned `(is_valid, message)` pair, or an exception the validator does not catch. */
  datatype Outcome = Returned(valid: bool, message: string) | Raised(error: PyError)

  /** `int(s)`: `None` where it raises ValueError. */
  type IntParser = string -> Option<int>

  /** `datetime.strptime(s, '%Y-%m-%d').date()`: `None` where it raises ValueError. */
  type DateParser = string -> Option<Date>

  const SuccessMessage := "Portfolio created successfully!"
  const NameEmptyMessage := "Portfolio name cannot be empty."
  const TickerTooLongMessage := "Ticker symbol looks too long."
  const QuantityInvalidMessage := "Quantity must be a valid number."
  const QuantityNotPositiveMessage := "Quantity must be a positive number."
  const DateFormatMessage := "Invalid date format."
  const DateInFutureMessage := "Purchase date cannot be in the future."

  const Accepted := Returned(true, SuccessMessage)

  /**
    `not name or len(name.strip()) == 0`: the name is missing or made of
    whitespace only (`Text.StripEmptyIffAllSpace` relates the two).
  */
  predicate NameBlank(name: Option<string>)
  {
    name.None? || Text.AllSpace(name.value)
  }

  /** One check of a guard chain: it passes, returns a rejection, or raises. */
  datatype Guard = Pass | Reject(message: string) | Raise(error: PyError)

  function Effect(g: Guard): Outcome
    requires !g.Pass?
  {
    if g.Reject? then Returned(false, g.message) else Raised(g.error)
  }

  /** Reference reading of a guard chain: the first guard that does not pass decides, and when all pass the input is accepted. */
  function RunGuards(gs: seq<Guard>): Outcome
  {
    if gs == [] then Accepted
    else if gs[0].Pass? then RunGuards(gs[1..])
    else Effect(gs[0])
  }

  /** A chain accepts exactly when every guard passes; no rejection or exception looks like an acceptance. */
  lemma {:induction false} RunGuardsAccepts(gs: seq<Guard>)
    ensures RunGuards(gs) == Accepted <==> forall i :: 0 <= i < |gs| ==> gs[i].Pass?
    ensures RunGuards(gs).Returned? && RunGuards(gs).valid ==> RunGuards(gs) == Accepted
  {
    if gs != [] && gs[0].Pass? {
      RunGuardsAccepts(gs[1..]);
      assert forall i :: 1 <= i < |gs| ==> gs[i] == gs[1..][i - 1];
    }
  }

  /** When guard `k` is the first that does not pass, its rejection or exception is the outcome. */
  lemma {:induction false} RunGuardsFirst(gs: seq<Guard>, k: int)
    requires 0 <= k < |gs| && !gs[k].Pass? && forall j :: 0 <= j < k ==> gs[j].Pass?
    ensures RunGuards(gs) == Effect(gs[k])
  {
    if k > 0 {
      RunGuardsFirst(gs[1..], k - 1);
    }
  }

  /** When guard `k` of the first part is the first that does not pass, the rest of the chain is never run. */
  lemma RunGuardsFirstOfHead(gs: seq<Guard>, hs: seq<Guard>, k: int)
    requires 0 <= k < |gs| && !gs[k].Pass? && forall j :: 0 <= j < k ==> gs[j].Pass?
    ensures RunGuards(gs + hs) == Effect(gs[k])
  {
    assert forall j :: 0 <= j <= k ==> (gs + hs)[j] == gs[j];
    RunGuardsFirst(gs + hs, k);
  }

  /** Running a chain whose first part passes is running the rest. */
  lemma {:induction false} RunGuardsSkip(gs: seq<Guard>, hs: seq<Guard>)
    requires forall i :: 0 <= i < |gs| ==> gs[i].Pass?
    ensures RunGuards(gs + hs) == RunGuards(hs)
  {
    if gs != [] {
      assert (gs + hs)[0] == gs[0] && (gs + hs)[1..] == gs[1..] + hs;
      RunGuardsSkip(gs[1..], hs);
    } else {
      assert gs + hs == hs;
    }
  }

  /** A chain made of two parts accepts exactly when every guard of the first passes and the second accepts. */
  lemma {:induction false} RunGuardsAppendAccepts(gs: seq<Guard>, hs: seq<Guard>)
    ensures RunGuards(gs + hs) == Accepted <==> (forall i :: 0 <= i < |gs| ==> gs[i].Pass?) && RunGuards(hs) == Accepted
  {
    if gs == [] {
      assert gs + hs == hs;
    } else {
      assert (gs + hs)[0] == gs[0] && (gs + hs)[1..] == gs[1..] + hs;
      RunGuardsAppendAccepts(gs[1..], hs);
      assert forall i :: 1 <= i < |gs| ==> gs[i] == gs[1..][i - 1];
    }
  }

  /** Every guard of a chain passes exactly when each of its guards, counted out, passes. */
  lemma AllPassCounted(gs: seq<Guard>)
    requires 3 <= |gs| <= 4
    ensures (forall i :: 0 <= i < |gs| ==> gs[i].Pass?) <==>
            gs[0].Pass? && gs[1].Pass? && gs[2].Pass? && (|gs| == 4 ==> gs[3].Pass?)
  {
  }

  /** `qty = int(quantity)` (TypeError escapes, ValueError is caught) and `if qty <= 0`. */
  function QuantityGuards(quantity: Option<string>, parseInt: IntParser): seq<Guard>
  {
    [ if quantity.None? then Raise(TypeError)
      else if parseInt(quantity.value).None? then Reject(QuantityInvalidMessage)
      else Pass,
      if quantity.Some? && parseInt(quantity.value).Some? && parseInt(quantity.value).value <= 0
      then Reject(QuantityNotPositiveMessage)
      else Pass ]
  }

  /** `strptime(date_str, '%Y-%m-%d')` (TypeError escapes, ValueError is caught) and `if input_date > today`. */
  function DateGuards(date: Option<string>, parseDate: DateParser, today: Date): seq<Guard>
  {
    [ if date.None? then Raise(TypeError)
      else if parseDate(date.value).None? then Reject(DateFormatMessage)
      else Pass,
      if date.Some? && parseDate(date.value).Some? && Before(today, parseDate(date.value).value)
      then Reject(DateInFutureMessage)
      else Pass ]
  }

  /**
    The quantity and date checks both validators end with, in the order the
    code runs them: the outcome is that of the guard chain quantity-then-date.
  */
  function QuantityAndDate(quantity: Option<string>, date: Option<string>, parseInt: IntParser, parseDate: DateParser, today: Date): (r: Outcome)
    ensures r == RunGuards(QuantityGuards(quantity, parseInt) + DateGuards(date, parseDate, today))
  {
    var gs := QuantityGuards(quantity, parseInt) + DateGuards(date, parseDate, today);
    assert gs[1..][1..] == gs[2..] && gs[2..][1..] == gs[3..] && gs[3..][1..] == [];
    assert RunGuards(gs) == if gs[0].Pass? then RunGuards(gs[1..]) else Effect(gs[0]);
    assert RunGuards(gs[1..]) == if gs[1].Pass? then RunGuards(gs[2..]) else Effect(gs[1]);
    assert RunGuards(gs[2..]) == if gs[2].Pass? then RunGuards(gs[3..]) else Effect(gs[2]);
    assert RunGuards(gs[3..]) == if gs[3].Pass? then Accepted else Effect(gs[3]);
    if quantity.None? then Raised(TypeError)
    else
      var qty := parseInt(quantity.value);
      if qty.None? then Returned(false, QuantityInvalidMessage)
      else if qty.value <= 0 then Returned(false, QuantityNotPositiveMessage)
      else if date.None? then Raised(TypeError)
      else
        var inputDate := parseDate(date.value);
        if inputDate.None? then Returned(false, DateFormatMessage)
        else if Before(today, inputDate.value) then Returned(false, DateInFutureMessage)
        else Returned(true, SuccessMessage)
  }

  /**
    The quantity and date checks accept exactly a quantity that parses to a
    positive integer together with a date that parses and is not after today.
  */
  lemma QuantityAndDateAccepts(quantity: Option<string>, date: Option<string>, parseInt: IntParser, parseDate: DateParser, today: Date)
    ensures QuantityAndDate(quantity, date, parseInt, parseDate, today) == Accepted <==>
              && quantity.Some? && parseInt(quantity.value).Some? && parseInt(quantity.value).value > 0
              && date.Some? && parseDate(date.value).Some? && !Before(today, parseDate(date.value).value)
  {
    var gs := QuantityGuards(quantity, parseInt) + DateGuards(date, parseDate, today);
    RunGuardsAccepts(gs);
    assert forall i :: 0 <= i < |gs| ==> gs[i] == [gs[0], gs[1], gs[2], gs[3]][i];
  }
}
