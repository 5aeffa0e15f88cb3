/**
  `backend/postPort.py`: the validator run before a current portfolio is
  saved (with the market lookup as an oracle), `_slugify_name`, and the
  checks `save_portfolio` makes before it touches the filesystem.
*/
module PostPort {
  import opened Wrappers
  import opened Calendar
  import opened Form
  import Text

  const TickerRequiredMessage := "Ticker symbol is required."
  const MaxTickerLength := 8
  const InvalidNameMessage := "Invalid current_portfolio name."
  const SavedConflictMessage := "A saved current_portfolio with this name already exists. Choose a different name."

  /**
    `yf.Ticker(ticker).history(period="5d")`: the number of rows returned,
    or the text of the exception raised.
  */
  datatype MarketAnswer = History(rows: nat) | Failed(detail: string)

  type Market = string -> MarketAnswer

  function NotFoundMessage(ticker: string): string
  {
    "Ticker '" + ticker + "' could not be found on the market."
  }

  function CouldNotVerifyMessage(detail: string): string
  {
    "Could not verify ticker: " + detail
  }

  /** The name and ticker checks, in the order the validator runs them; the market is asked only about a present ticker. */
  function NameAndTickerGuards(s: Submission, market: Market): seq<Guard>
  {
    [ if NameBlank(s.name) then Reject(NameEmptyMessage) else Pass,
      if s.ticker.None? || s.ticker.value == [] then Reject(TickerRequiredMessage) else Pass,
      if s.ticker.Some? && |s.ticker.value| > MaxTickerLength then Reject(TickerTooLongMessage) else Pass,
      if s.ticker.None? then Pass
      else match market(s.ticker.value)
        case History(rows) => if rows == 0 then Reject(NotFoundMessage(s.ticker.value)) else Pass
        case Failed(detail) => Reject(CouldNotVerifyMessage(detail)) ]
  }

  /** All the validator's checks in order: name, ticker present, ticker length, market, quantity, date. */
  function Guards(s: Submission, market: Market, parseInt: IntParser, parseDate: DateParser, today: Date): seq<Guard>
  {
    NameAndTickerGuards(s, market) + (QuantityGuards(s.quantity, parseInt) + DateGuards(s.date, parseDate, today))
  }

  /**
    `validate_portfolio_input(data)` with `today` the local date and
    `market` the provider lookup: the first check that does not pass decides.
  */
  function ValidatePortfolioInput(s: Submission, market: Market, parseInt: IntParser, parseDate: DateParser, today: Date): (r: Outcome)
    ensures r.Raised? ==> && r.error == TypeError && (s.quantity.None? || s.date.None?)
                          && !NameBlank(s.name) && s.ticker.Some? && s.ticker.value != []
                          && |s.ticker.value| <= MaxTickerLength
                          && market(s.ticker.value).History? && market(s.ticker.value).rows > 0
    ensures r.Returned? && r.valid ==> r == Accepted
  {
    if NameBlank(s.name) then
      Returned(false, NameEmptyMessage)
    else if s.ticker.None? || s.ticker.value == [] then
      Returned(false, TickerRequiredMessage)
    else if |s.ticker.value| > MaxTickerLength then
      Returned(false, TickerTooLongMessage)
    else
      var ticker := s.ticker.value;
      match market(ticker)
      case Failed(detail) =>
        Returned(false, CouldNotVerifyMessage(detail))
      case History(rows) =>
        if rows == 0 then
          Returned(false, NotFoundMessage(ticker))
        else
          QuantityAndDate(s.quantity, s.date, parseInt, parseDate, today)
  }

  /**
    The validator runs its checks in order and the first that does not pass
    decides: it is the guard chain `Guards` run from the start.
  */
  lemma ValidateFollowsGuards(s: Submission, market: Market, parseInt: IntParser, parseDate: DateParser, today: Date)
    ensures ValidatePortfolioInput(s, market, parseInt, parseDate, today) == RunGuards(Guards(s, market, parseInt, parseDate, today))
  {
    var tail := QuantityGuards(s.quantity, parseInt) + DateGuards(s.date, parseDate, today);
    var head := NameAndTickerGuards(s, market);
    if NameBlank(s.name) {
      RunGuardsFirstOfHead(head, tail, 0);
    } else if s.ticker.None? || s.ticker.value == [] {
      RunGuardsFirstOfHead(head, tail, 1);
    } else if |s.ticker.value| > MaxTickerLength {
      RunGuardsFirstOfHead(head, tail, 2);
    } else if !(market(s.ticker.value).History? && market(s.ticker.value).rows > 0) {
      RunGuardsFirstOfHead(head, tail, 3);
    } else {
      HeadPasses(s, market);
      RunGuardsSkip(head, tail);
    }
  }

  /**
    A submission is accepted exactly when its name is not blank, its ticker
    is non-empty, at most eight characters long and has market history, its
    quantity parses to a positive integer and its date parses and is not
    after today; any other returned outcome is a rejection.
  */
  lemma ValidateAccepts(s: Submission, market: Market, parseInt: IntParser, parseDate: DateParser, today: Date)
    ensures var r := ValidatePortfolioInput(s, market, parseInt, parseDate, today);
            && (r == Accepted <==>
                  && !NameBlank(s.name)
                  && s.ticker.Some? && s.ticker.value != [] && |s.ticker.value| <= MaxTickerLength
                  && market(s.ticker.value).History? && market(s.ticker.value).rows > 0
                  && s.quantity.Some? && parseInt(s.quantity.value).Some? && parseInt(s.quantity.value).value > 0
                  && s.date.Some? && parseDate(s.date.value).Some? && !Before(today, parseDate(s.date.value).value))
            && (r.Returned? && r.valid ==> r == Accepted)
  {
    var head := NameAndTickerGuards(s, market);
    var tail := QuantityGuards(s.quantity, parseInt) + DateGuards(s.date, parseDate, today);
    ValidateFollowsGuards(s, market, parseInt, parseDate, today);
    RunGuardsAccepts(head + tail);
    RunGuardsAppendAccepts(head, tail);
    QuantityAndDateAccepts(s.quantity, s.date, parseInt, parseDate, today);
    HeadPasses(s, market);
  }

  /** The name and ticker checks all pass exactly when the name is not blank and the ticker is acceptable. */
  lemma HeadPasses(s: Submission, market: Market)
    ensures var head := NameAndTickerGuards(s, market);
            (forall i :: 0 <= i < |head| ==> head[i].Pass?) <==>
            !NameBlank(s.name) && s.ticker.Some? && s.ticker.value != [] && |s.ticker.value| <= MaxTickerLength
            && market(s.ticker.value).History? && market(s.ticker.value).rows > 0
  {
    var head := NameAndTickerGuards(s, market);
    assert |head| == 4;
    assert head[0].Pass? <==> !NameBlank(s.name);
    assert head[1].Pass? <==> s.ticker.Some? && s.ticker.value != [];
    assert head[2].Pass? <==> s.ticker.None? || |s.ticker.value| <= MaxTickerLength;
    assert head[3].Pass? <==> s.ticker.None? || (market(s.ticker.value).History? && market(s.ticker.value).rows > 0);
    AllPassCounted(head);
  }

  /**
    The checks run in order and the first that fails decides: the market is
    consulted only for a present ticker of at most eight characters, and a
    market failure or exception rejects before quantity and date are read.
  */
  lemma ValidateFirstFailure(s: Submission, market: Market, parseInt: IntParser, parseDate: DateParser, today: Date, k: int)
    requires 0 <= k < 8
    requires !Guards(s, market, parseInt, parseDate, today)[k].Pass?
    requires forall j :: 0 <= j < k ==> Guards(s, market, parseInt, parseDate, today)[j].Pass?
    ensures ValidatePortfolioInput(s, market, parseInt, parseDate, today) == Effect(Guards(s, market, parseInt, parseDate, today)[k])
  {
    ValidateFollowsGuards(s, market, parseInt, parseDate, today);
    RunGuardsFirst(Guards(s, market, parseInt, parseDate, today), k);
  }

  // ----- _slugify_name -----

  /** The characters of the class `[A-Za-z0-9._-]`. */
  predicate SlugChar(c: char)
  {
    ('A' <= c <= 'Z') || ('a' <= c <= 'z') || ('0' <= c <= '9') || c == '.' || c == '_' || c == '-'
  }

  predicate NotSlugChar(c: char)
  {
    !SlugChar(c)
  }

  predicate IsUnderscore(c: char)
  {
    c == '_'
  }

  /** `re.sub(r'[^A-Za-z0-9._-]+', '_', s)`: every maximal run of characters outside the class becomes one `_`. */
  function ReplaceRuns(s: string): (r: string)
    ensures forall i :: 0 <= i < |r| ==> SlugChar(r[i])
    decreases |s|
  {
    if s == [] then []
    else if SlugChar(s[0]) then [s[0]] + ReplaceRuns(s[1..])
    else
      var rest := Text.TrimStart(s, NotSlugChar);
      assert |rest| < |s| by {
        assert rest == [] || (rest[0] == s[|s| - |rest|] && SlugChar(s[|s| - |rest|]));
      }
      "_" + ReplaceRuns(rest)
  }

  /** `_slugify_name(name)`: the runs replaced, then leading and trailing `_` stripped. */
  function Slugify(name: string): (r: string)
    ensures forall i :: 0 <= i < |r| ==> SlugChar(r[i])
    ensures r != [] ==> r[0] != '_' && r[|r| - 1] != '_'
  {
    var x := ReplaceRuns(name);
    TrimmedSlug(x, Text.Trim(x, IsUnderscore));
    Text.Trim(x, IsUnderscore)
  }

  /** Cutting `_` off both ends of a string of allowed characters leaves allowed characters and no `_` at either end. */
  lemma TrimmedSlug(x: string, r: string)
    requires forall i :: 0 <= i < |x| ==> SlugChar(x[i])
    requires forall c :: c in r ==> c in x
    requires r != [] ==> !IsUnderscore(r[0]) && !IsUnderscore(r[|r| - 1])
    ensures forall i :: 0 <= i < |r| ==> SlugChar(r[i])
    ensures r != [] ==> r[0] != '_' && r[|r| - 1] != '_'
  {
    forall i | 0 <= i < |r| ensures SlugChar(r[i]) {
      assert r[i] in x;
    }
  }

  /** On a string made only of allowed characters the substitution changes nothing. */
  lemma {:induction false} ReplaceRunsIdentity(s: string)
    requires forall i :: 0 <= i < |s| ==> SlugChar(s[i])
    ensures ReplaceRuns(s) == s
  {
    if s != [] {
      ReplaceRunsIdentity(s[1..]);
    }
  }

  /** Skipping a run of disallowed characters stops exactly at the next allowed one. */
  lemma {:induction false} TrimStartRun(run: string, q: string)
    requires forall i :: 0 <= i < |run| ==> NotSlugChar(run[i])
    requires q == [] || SlugChar(q[0])
    ensures Text.TrimStart(run + q, NotSlugChar) == q
  {
    if run != [] {
      assert (run + q)[1..] == run[1..] + q;
      TrimStartRun(run[1..], q);
    } else {
      assert run + q == q;
    }
  }

  /** Skipping a prefix that stops inside `p` is unaffected by what follows `p`. */
  lemma {:induction false} TrimStartAppend(p: string, x: string)
    requires Text.TrimStart(p, NotSlugChar) != []
    ensures Text.TrimStart(p + x, NotSlugChar) == Text.TrimStart(p, NotSlugChar) + x
  {
    assert p != [];
    assert (p + x)[0] == p[0];
    if NotSlugChar(p[0]) {
      assert (p + x)[1..] == p[1..] + x;
      TrimStartAppend(p[1..], x);
    }
  }

  /**
    Each maximal run of disallowed characters becomes exactly one `_`: a
    non-empty run that is preceded by nothing or by an allowed character
    and followed by nothing or by an allowed character is replaced by a
    single `_` and the two sides are rewritten independently.
  */
  lemma {:induction false} ReplaceRunsSplit(p: string, run: string, q: string)
    requires run != [] && forall i :: 0 <= i < |run| ==> NotSlugChar(run[i])
    requires p == [] || SlugChar(p[|p| - 1])
    requires q == [] || SlugChar(q[0])
    ensures ReplaceRuns(p + run + q) == ReplaceRuns(p) + "_" + ReplaceRuns(q)
    decreases |p|, 1
  {
    if p == [] {
      assert p + run + q == run + q;
      TrimStartRun(run, q);
    } else if SlugChar(p[0]) {
      SplitAfterAllowed(p, run, q);
    } else {
      SplitAfterRun(p, run, q);
    }
  }

  lemma {:induction false} SplitAfterAllowed(p: string, run: string, q: string)
    requires run != [] && forall i :: 0 <= i < |run| ==> NotSlugChar(run[i])
    requires p != [] && SlugChar(p[0]) && SlugChar(p[|p| - 1])
    requires q == [] || SlugChar(q[0])
    ensures ReplaceRuns(p + run + q) == ReplaceRuns(p) + "_" + ReplaceRuns(q)
    decreases |p|, 0
  {
    DropFirst(p, run + q);
    Assoc(p, run, q);
    Assoc(p[1..], run, q);
    ReplaceRunsSplit(p[1..], run, q);
    Regroup([p[0]], ReplaceRuns(p[1..]), "_", ReplaceRuns(q));
  }

  lemma DropFirst(p: string, x: string)
    requires p != []
    ensures (p + x)[0] == p[0] && (p + x)[1..] == p[1..] + x
  {
  }

  lemma {:induction false} SplitAfterRun(p: string, run: string, q: string)
    requires run != [] && forall i :: 0 <= i < |run| ==> NotSlugChar(run[i])
    requires p != [] && NotSlugChar(p[0]) && SlugChar(p[|p| - 1])
    requires q == [] || SlugChar(q[0])
    ensures ReplaceRuns(p + run + q) == ReplaceRuns(p) + "_" + ReplaceRuns(q)
    decreases |p|, 0
  {
    var x := run + q;
    Assoc(p, run, q);
    var t := Text.TrimStart(p, NotSlugChar);
    Assoc(t, run, q);
    SkipRunInside(p, x);
    ReplaceRunsSplit(t, run, q);
    var a, b := ReplaceRuns(t), ReplaceRuns(q);
    Regroup("_", a, "_", b);
  }

  lemma Assoc(a: string, b: string, c: string)
    ensures a + b + c == a + (b + c)
  {
  }

  lemma Regroup(a: string, b: string, c: string, d: string)
    ensures a + (b + c + d) == (a + b) + c + d
  {
  }

  /** A run at the start of `p` that ends inside `p` is skipped the same way whatever follows `p`. */
  lemma SkipRunInside(p: string, x: string)
    requires p != [] && NotSlugChar(p[0]) && SlugChar(p[|p| - 1])
    ensures var t := Text.TrimStart(p, NotSlugChar);
            && t != [] && |t| < |p| && t[|t| - 1] == p[|p| - 1]
            && ReplaceRuns(p) == "_" + ReplaceRuns(t)
            && ReplaceRuns(p + x) == "_" + ReplaceRuns(t + x)
  {
    var t := Text.TrimStart(p, NotSlugChar);
    assert t != [] by {
      assert |t| == 0 ==> NotSlugChar(p[|p| - 1]);
    }
    assert (p + x)[0] == p[0];
    TrimStartAppend(p, x);
  }

  /** A name already made of allowed characters, not starting or ending with `_`, is its own slug. */
  lemma SlugifyIdentity(s: string)
    requires forall i :: 0 <= i < |s| ==> SlugChar(s[i])
    requires s == [] || (s[0] != '_' && s[|s| - 1] != '_')
    ensures Slugify(s) == s
  {
    ReplaceRunsIdentity(s);
  }

  /** Slugifying a slug changes nothing. */
  lemma SlugifyIdempotent(s: string)
    ensures Slugify(Slugify(s)) == Slugify(s)
  {
    var r := Slugify(s);
    SlugifyIdentity(r);
  }

  /** A character other than `_` survives the substitution exactly when it is allowed. */
  lemma {:induction false} ReplaceRunsKeeps(s: string, c: char)
    requires c != '_'
    ensures c in ReplaceRuns(s) <==> c in s && SlugChar(c)
    decreases |s|
  {
    if s != [] {
      if SlugChar(s[0]) {
        assert s == [s[0]] + s[1..];
        ReplaceRunsKeeps(s[1..], c);
      } else {
        var rest := Text.TrimStart(s, NotSlugChar);
        var off := |s| - |rest|;
        assert rest == [] || (rest[0] == s[off] && SlugChar(s[off]));
        ReplaceRunsKeeps(rest, c);
        assert ReplaceRuns(s) == "_" + ReplaceRuns(rest);
        if c in s && SlugChar(c) {
          var i :| 0 <= i < |s| && s[i] == c;
          assert i >= off;
          assert rest[i - off] == c;
        }
      }
    }
  }

  /** Stripping `_` from both ends leaves nothing exactly when there was nothing but `_`. */
  lemma TrimUnderscoresEmpty(x: string)
    ensures Text.Trim(x, IsUnderscore) == [] <==> forall i :: 0 <= i < |x| ==> x[i] == '_'
  {
    Text.TrimEmptyIffAll(x, IsUnderscore);
    assert forall i :: 0 <= i < |x| ==> (IsUnderscore(x[i]) <==> x[i] == '_');
  }

  /** A name's slug is empty exactly when the name holds no letter, digit, `.` or `-`. */
  lemma SlugifyEmpty(name: string)
    ensures Slugify(name) == [] <==> forall i :: 0 <= i < |name| ==> !SlugChar(name[i]) || name[i] == '_'
  {
    var x := ReplaceRuns(name);
    TrimUnderscoresEmpty(x);
    if i :| 0 <= i < |name| && SlugChar(name[i]) && name[i] != '_' {
      ReplaceRunsKeeps(name, name[i]);
      var j :| 0 <= j < |x| && x[j] == name[i];
    }
    if j :| 0 <= j < |x| && x[j] != '_' {
      ReplaceRunsKeeps(name, x[j]);
      var i :| 0 <= i < |name| && name[i] == x[j];
    }
  }

  // ----- save_portfolio, up to the first write -----

  /** The tranche `save_portfolio` goes on to write, under the file name it chose. */
  datatype SavePlan = SavePlan(fileName: string, ticker: Option<string>, quantity: int, date: Option<string>)

  /** `(data.get('name') or "").strip()` */
  function StrippedName(name: Option<string>): (r: string)
    ensures name.None? ==> r == ""
    ensures r != [] ==> !Text.IsSpace(r[0]) && !Text.IsSpace(r[|r| - 1])
  {
    if name.None? then "" else Text.Strip(name.value)
  }

  /**
    `save_portfolio(data)` up to the point where it writes: the quantity is
    converted first, then the slug of the stripped name must be non-empty
    and no saved portfolio of that file name may exist; the file is then
    `<slug>.csv`. `savedExists` answers whether `saved_portfolios/` holds a
    file of the given name.
  */
  function SavePortfolio(s: Submission, parseInt: IntParser, savedExists: string -> bool): (r: Result<SavePlan, PyError>)
    ensures r.Success? ==>
              && r.value.fileName == Slugify(StrippedName(s.name)) + ".csv"
              && |r.value.fileName| > 4
              && (forall i :: 0 <= i < |r.value.fileName| ==> SlugChar(r.value.fileName[i]))
              && r.value.fileName[0] != '_'
              && s.quantity.Some? && parseInt(s.quantity.value) == Some(r.value.quantity)
              && !savedExists(r.value.fileName)
    ensures r == Failure(ValueError(InvalidNameMessage)) <==>
              s.quantity.Some? && parseInt(s.quantity.value).Some? && Slugify(StrippedName(s.name)) == []
  {
    if s.quantity.None? then Failure(TypeError)
    else
      var quantity := parseInt(s.quantity.value);
      if quantity.None? then Failure(IntParseError)
      else
        var slug := Slugify(StrippedName(s.name));
        if slug == [] then Failure(ValueError(InvalidNameMessage))
        else
          var fileName := slug + ".csv";
          CsvFileName(slug);
          if savedExists(fileName) then Failure(ValueError(SavedConflictMessage))
          else Success(SavePlan(fileName, s.ticker, quantity.value, s.date))
  }

  /** `f"{slug}.csv"` stays within the allowed characters and starts where the slug does. */
  lemma CsvFileName(slug: string)
    requires slug != [] && slug[0] != '_' && forall i :: 0 <= i < |slug| ==> SlugChar(slug[i])
    ensures var f := slug + ".csv";
            |f| > 4 && f[0] != '_' && forall i :: 0 <= i < |f| ==> SlugChar(f[i])
  {
    var f := slug + ".csv";
    forall i | 0 <= i < |f| ensures SlugChar(f[i]) {
      if i >= |slug| {
        assert f[i] == ".csv"[i - |slug|];
      }
    }
  }

  /**
    `save_portfolio` raises "Invalid current_portfolio name." exactly when the
    quantity converts and the stripped name holds no letter, digit, `.` or `-`.
  */
  lemma SavePortfolioRejectsName(s: Submission, parseInt: IntParser, savedExists: string -> bool)
    ensures var name := StrippedName(s.name);
            SavePortfolio(s, parseInt, savedExists) == Failure(ValueError(InvalidNameMessage)) <==>
              && s.quantity.Some? && parseInt(s.quantity.value).Some?
              && forall i :: 0 <= i < |name| ==> !SlugChar(name[i]) || name[i] == '_'
  {
    SlugifyEmpty(StrippedName(s.name));
  }
}
