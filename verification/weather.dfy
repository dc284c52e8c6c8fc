/**
 * The Bubble Tea state machine of the weather tool (weather/main.go): the
 * model's state, the `Update` transition and the screen `View` chooses.
 *
 * The text-input widget is abstract: what `textinput.Update` makes of the
 * input and the command it returns are given to `Update` as an `Edit`.
 * A weather report keeps only what `View` reads to choose its screen.
 */
module Weather {
  import opened Wrappers

  /** One entry of the report's `weather` list. */
  datatype Condition = Condition(main: string, description: string)

  /** The decoded report: city name, country code and the list of conditions. */
  datatype Report = Report(name: string, country: string, conditions: seq<Condition>)

  /** The program state: the input text, the last report, the last error and the loading flag. */
  datatype Model = Model(input: string, weather: Option<Report>, err: Option<string>, loading: bool)

  /**
   * The messages `Update` tells apart: a key press (by its `String()` name),
   * a report or an error delivered by a fetch, and any other message.
   */
  datatype Msg = KeyPress(key: string) | WeatherArrived(report: Report) | ErrorArrived(error: string) | OtherMsg

  /** The commands handed back to the runtime: none, quit, fetch a city, or the widget's cursor blink. */
  datatype Cmd = NoCmd | Quit | Fetch(city: string) | Blink

  /** What `textinput.Update` did with a message: the new input text and the widget's command. */
  datatype Edit = Edit(value: string, cmd: Cmd)

  /** The result of `Update`: the next state and the command. */
  datatype Step = Step(next: Model, cmd: Cmd)

  /** The screen `View` shows. */
  datatype Screen =
    | Fetching
    | ErrorScreen(message: string)
    | WeatherScreen(city: string, country: string, condition: string)
    | IndexPanic
    | Prompt(input: string)

  // ---------------------------------------------------------------------
  // strings.TrimSpace

  /** `unicode.IsSpace`: the Latin-1 spaces and the other Unicode White_Space characters. */
  predicate IsSpace(c: char) {
    || c == ' '
    || ('\t' <= c <= '\r')
    || c == '\U{0085}'
    || c == '\U{00A0}'
    || c == '\U{1680}'
    || ('\U{2000}' <= c <= '\U{200A}')
    || c == '\U{2028}'
    || c == '\U{2029}'
    || c == '\U{202F}'
    || c == '\U{205F}'
    || c == '\U{3000}'
  }

  predicate Blank(s: string) {
    forall k :: 0 <= k < |s| ==> IsSpace(s[k])
  }

  /** The number of spaces `s` starts with. */
  function LeadingSpaces(s: string): (n: nat)
    ensures n <= |s|
    ensures forall k :: 0 <= k < n ==> IsSpace(s[k])
    ensures n < |s| ==> !IsSpace(s[n])
  {
    if s == [] || !IsSpace(s[0]) then 0
    else 1 + LeadingSpaces(s[1..])
  }

  /** The number of spaces `s` ends with. */
  function TrailingSpaces(s: string): (n: nat)
    ensures n <= |s|
    ensures forall k :: |s| - n <= k < |s| ==> IsSpace(s[k])
    ensures n < |s| ==> !IsSpace(s[|s| - n - 1])
  {
    if s == [] || !IsSpace(s[|s| - 1]) then 0
    else 1 + TrailingSpaces(s[..|s| - 1])
  }

  /** `strings.TrimSpace`. */
  function TrimSpace(s: string): string {
    var t := s[LeadingSpaces(s)..];
    t[..|t| - TrailingSpaces(t)]
  }

  /** What `TrimSpace` keeps is the slice of `s` starting after the leading spaces. */
  lemma TrimSpaceIsSlice(s: string)
    ensures var r, i := TrimSpace(s), LeadingSpaces(s);
      i + |r| <= |s| && r == s[i..i + |r|]
  {
    var i := LeadingSpaces(s);
    var t := s[i..];
    var r := t[..|t| - TrailingSpaces(t)];
    assert r == s[i..i + |r|];
  }

  /** Everything after what `TrimSpace` keeps is a space. */
  lemma TrimSpaceDropsTrailing(s: string)
    ensures var r, i := TrimSpace(s), LeadingSpaces(s);
      forall k :: i + |r| <= k < |s| ==> IsSpace(s[k])
  {
    var i := LeadingSpaces(s);
    var t := s[i..];
    var j := TrailingSpaces(t);
    assert |TrimSpace(s)| == |t| - j;
    forall k | i + |t| - j <= k < |s|
      ensures IsSpace(s[k])
    {
      assert s[k] == t[k - i];
    }
  }

  /** What `TrimSpace` keeps neither starts nor ends with a space. */
  lemma TrimSpaceEnds(s: string)
    ensures var r := TrimSpace(s);
      r != [] ==> !IsSpace(r[0]) && !IsSpace(r[|r| - 1])
  {
    var i := LeadingSpaces(s);
    var t := s[i..];
    var j := TrailingSpaces(t);
    var r := t[..|t| - j];
    if r != [] {
      assert r[0] == t[0] == s[i];
      assert r[|r| - 1] == t[|t| - j - 1];
    }
  }

  /** `TrimSpace` leaves nothing exactly when `s` is blank. */
  lemma TrimSpaceEmpty(s: string)
    ensures TrimSpace(s) == [] <==> Blank(s)
  {
    var i := LeadingSpaces(s);
    TrimSpaceIsSlice(s);
    if TrimSpace(s) == [] {
      TrimSpaceDropsTrailing(s);
    } else {
      assert s[i] == TrimSpace(s)[0];
    }
  }

  /**
   * `TrimSpace` removes exactly the spaces at both ends: what it keeps is a
   * slice of `s` between two blank stretches, and it neither starts nor
   * ends with a space; it is empty exactly when `s` is blank.
   */
  lemma TrimSpaceSlice(s: string)
    ensures var r, i := TrimSpace(s), LeadingSpaces(s);
      && i + |r| <= |s|
      && r == s[i..i + |r|]
      && (forall k :: 0 <= k < i ==> IsSpace(s[k]))
      && (forall k :: i + |r| <= k < |s| ==> IsSpace(s[k]))
      && (r != [] ==> !IsSpace(r[0]) && !IsSpace(r[|r| - 1]))
      && (r == [] <==> Blank(s))
  {
    TrimSpaceIsSlice(s);
    TrimSpaceDropsTrailing(s);
    TrimSpaceEnds(s);
    TrimSpaceEmpty(s);
  }

  /** Trimming a trimmed string changes nothing. */
  lemma TrimSpaceIdempotent(s: string)
    ensures TrimSpace(TrimSpace(s)) == TrimSpace(s)
  {
    var r := TrimSpace(s);
    TrimSpaceSlice(s);
    if r != [] {
      assert LeadingSpaces(r) == 0;
      assert TrailingSpaces(r) == 0;
      assert r[0..] == r;
    }
  }

  // ---------------------------------------------------------------------
  // Init, Update and View

  /** `initialModel`: empty input, no report, no error, not loading. */
  function InitialModel(): (m: Model)
    ensures m.weather.None? && m.err.None? && !m.loading
  {
    Model("", None, None, false)
  }

  /** `Init`: the widget's cursor blink. */
  function Init(): Cmd {
    Blink
  }

  /**
   * `Update`: the widget sees every message first; then quit keys, a
   * non-blank `enter`, a report and an error are handled, and every other
   * message returns the widget's command.
   */
  function Update(m: Model, msg: Msg, edit: Edit): Step {
    var m1 := m.(input := edit.value);
    match msg
    case KeyPress(key) =>
      if key == "ctrl+c" || key == "q" then Step(m1, Quit)
      else if key == "enter" && TrimSpace(m1.input) != "" then
        Step(m1.(loading := true), Fetch(TrimSpace(m1.input)))
      else Step(m1, edit.cmd)
    case WeatherArrived(report) => Step(m1.(weather := Some(report), loading := false), NoCmd)
    case ErrorArrived(error) => Step(m1.(err := Some(error), loading := false), NoCmd)
    case OtherMsg => Step(m1, edit.cmd)
  }

  /**
   * `View`'s choice of screen: loading first, then the error, then the
   * report (whose first condition it reads, which panics on an empty list),
   * then the input prompt.
   */
  function View(m: Model): Screen {
    if m.loading then Fetching
    else if m.err.Some? then ErrorScreen(m.err.value)
    else if m.weather.Some? then
      var w := m.weather.value;
      if |w.conditions| == 0 then IndexPanic
      else WeatherScreen(w.name, w.country, w.conditions[0].description)
    else Prompt(m.input)
  }

  /** A message together with what the widget made of it. */
  datatype Event = Event(msg: Msg, edit: Edit)

  /** The state after a sequence of events. */
  function Run(m: Model, events: seq<Event>): Model
    decreases |events|
  {
    if events == [] then m
    else Run(Update(m, events[0].msg, events[0].edit).next, events[1..])
  }

  // ---------------------------------------------------------------------
  // Properties of Update

  /** `ctrl+c` and `q` quit whatever the state; only the widget's edit of the input is kept. */
  lemma QuitKeysQuit(m: Model, key: string, edit: Edit)
    requires key == "ctrl+c" || key == "q"
    ensures Update(m, KeyPress(key), edit) == Step(m.(input := edit.value), Quit)
  {
  }

  /**
   * `enter` on an input that trims to nothing issues no fetch: the state
   * keeps its report, error and loading flag, and the widget's command is
   * returned.
   */
  lemma BlankEnterDoesNotFetch(m: Model, edit: Edit)
    requires Blank(edit.value)
    ensures Update(m, KeyPress("enter"), edit) == Step(m.(input := edit.value), edit.cmd)
  {
    TrimSpaceSlice(edit.value);
  }

  /**
   * `enter` on an input with a non-space character starts loading and
   * fetches the trimmed city, which is non-empty and neither starts nor ends
   * with a space; the report and the error are untouched.
   */
  lemma EnterFetchesTrimmedCity(m: Model, edit: Edit)
    requires !Blank(edit.value)
    ensures var s := Update(m, KeyPress("enter"), edit);
      && s.next == m.(input := edit.value, loading := true)
      && s.cmd.Fetch?
      && s.cmd.city == TrimSpace(edit.value)
      && s.cmd.city != []
      && !IsSpace(s.cmd.city[0]) && !IsSpace(s.cmd.city[|s.cmd.city| - 1])
  {
    TrimSpaceSlice(edit.value);
  }

  /** A report is stored and loading ends; the error is kept and no command follows. */
  lemma WeatherStored(m: Model, report: Report, edit: Edit)
    ensures var s := Update(m, WeatherArrived(report), edit);
      && s.next.weather == Some(report) && !s.next.loading && s.next.err == m.err
      && s.cmd == NoCmd
  {
  }

  /** An error is stored and loading ends; the report is kept and no command follows. */
  lemma ErrorStored(m: Model, error: string, edit: Edit)
    ensures var s := Update(m, ErrorArrived(error), edit);
      && s.next.err == Some(error) && !s.next.loading && s.next.weather == m.weather
      && s.cmd == NoCmd
  {
  }

  /** Only `Update` on a quit key, `enter` or a fetch result returns something other than the widget's command. */
  lemma WidgetCommandOtherwise(m: Model, msg: Msg, edit: Edit)
    requires msg.KeyPress? ==> msg.key != "ctrl+c" && msg.key != "q" && msg.key != "enter"
    requires !msg.WeatherArrived? && !msg.ErrorArrived?
    ensures Update(m, msg, edit) == Step(m.(input := edit.value), edit.cmd)
  {
  }

  /** A fetch is issued only by `enter`, and only with the trimmed non-blank input. */
  lemma FetchOnlyFromEnter(m: Model, msg: Msg, edit: Edit)
    requires !edit.cmd.Fetch?
    ensures var s := Update(m, msg, edit);
      s.cmd.Fetch? <==> msg == KeyPress("enter") && !Blank(edit.value)
    ensures var s := Update(m, msg, edit);
      s.cmd.Fetch? ==> s.cmd.city == TrimSpace(edit.value) && s.next.loading
  {
    TrimSpaceSlice(edit.value);
  }

  /** No transition clears the error or the report. */
  lemma NeverCleared(m: Model, msg: Msg, edit: Edit)
    ensures m.err.Some? ==> Update(m, msg, edit).next.err.Some?
    ensures m.weather.Some? ==> Update(m, msg, edit).next.weather.Some?
  {
  }

  /** After any sequence of events an error, once present, is still present. */
  lemma {:induction false} ErrorPersists(m: Model, events: seq<Event>)
    requires m.err.Some?
    ensures Run(m, events).err.Some?
    decreases |events|
  {
    if events != [] {
      NeverCleared(m, events[0].msg, events[0].edit);
      ErrorPersists(Update(m, events[0].msg, events[0].edit).next, events[1..]);
    }
  }

  // ---------------------------------------------------------------------
  // Properties of View

  /** `View` takes the first of loading, error, report and prompt that applies. */
  lemma ViewOrder(m: Model)
    ensures View(m) == Fetching <==> m.loading
    ensures View(m).ErrorScreen? <==> !m.loading && m.err.Some?
    ensures View(m).ErrorScreen? ==> View(m).message == m.err.value
    ensures View(m).WeatherScreen? || View(m) == IndexPanic <==> !m.loading && m.err.None? && m.weather.Some?
    ensures View(m) == IndexPanic <==>
              !m.loading && m.err.None? && m.weather.Some? && m.weather.value.conditions == []
    ensures View(m).WeatherScreen? ==>
              && View(m).city == m.weather.value.name
              && View(m).country == m.weather.value.country
              && View(m).condition == m.weather.value.conditions[0].description
    ensures View(m) == Prompt(m.input) <==> !m.loading && m.err.None? && m.weather.None?
  {
  }

  /**
   * Once an error has arrived, whatever follows, `View` shows only the
   * loading screen or the error, never the report.
   */
  lemma NoWeatherAfterError(m: Model, before: seq<Event>, error: string, edit: Edit, after: seq<Event>)
    ensures var s := Run(Update(Run(m, before), ErrorArrived(error), edit).next, after);
      View(s) == Fetching || View(s).ErrorScreen?
  {
    ErrorStored(Run(m, before), error, edit);
    ErrorPersists(Update(Run(m, before), ErrorArrived(error), edit).next, after);
  }

  /** The first screen is the input prompt. */
  lemma StartsAtPrompt()
    ensures View(InitialModel()) == Prompt("")
  {
  }
}
