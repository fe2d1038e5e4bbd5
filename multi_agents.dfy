/** The sales-team demo: the agent registry behind `transfer_to_agent`, the query that
    `web_search` builds before calling the search provider, and the loop in `chat()` that
    turns the orchestration library's messages into display messages. */
module MultiAgents {
  import opened Wrappers
  import opened Text
  import Decimal

  // ===== Agent registry =====

  /** An agent definition: its name, its model, and the names of the tools it may call. */
  datatype Agent = Agent(name: string, model: string, functions: seq<string>)

  const ManagerAgent := Agent("Sales Manager", "gpt-4o-mini", ["transfer_to_agent", "web_search"])
  const LeadQualifierAgent := Agent("Lead Qualifier", "gpt-4o-mini", [])
  const ObjectionHandlerAgent := Agent("Objection Handler", "gpt-4o-mini", [])
  const CloserAgent := Agent("Closer", "gpt-4o-mini", [])
  const ResearcherAgent := Agent("Researcher", "gpt-4", ["web_search"])

  /** The names `transfer_to_agent` resolves. */
  const AgentNames: set<string> := {"Sales Manager", "Lead Qualifier", "Objection Handler", "Closer", "Researcher"}

  /** `agent_map` */
  const AgentMap: map<string, Agent> := map[
    "Sales Manager" := ManagerAgent,
    "Lead Qualifier" := LeadQualifierAgent,
    "Objection Handler" := ObjectionHandlerAgent,
    "Closer" := CloserAgent,
    "Researcher" := ResearcherAgent]

  /** What `transfer_to_agent` hands back, with the notice it prints. */
  datatype Transfer = Transfer(agent: Option<Agent>, notice: Option<string>)

  /** `transfer_to_agent(agent_name)`: a known name yields the agent of that name and the
      "Transferring" notice; any other name yields nothing and prints nothing. */
  function TransferToAgent(agentName: string): (t: Transfer)
    ensures t.agent.Some? <==> agentName in AgentNames
    ensures t.agent.Some? ==> t.agent.value.name == agentName
    ensures t.notice.Some? <==> t.agent.Some?
    ensures t.notice.Some? ==> t.notice.value == "\n[System] Transferring to " + agentName
  {
    var agent := if agentName in AgentMap then Some(AgentMap[agentName]) else None;
    Transfer(agent, if agent.Some? then Some("\n[System] Transferring to " + agentName) else None)
  }

  /** Each registry entry is the agent defined under that name. */
  lemma TransferToEachAgent()
    ensures TransferToAgent("Sales Manager").agent == Some(ManagerAgent)
    ensures TransferToAgent("Lead Qualifier").agent == Some(LeadQualifierAgent)
    ensures TransferToAgent("Objection Handler").agent == Some(ObjectionHandlerAgent)
    ensures TransferToAgent("Closer").agent == Some(CloserAgent)
    ensures TransferToAgent("Researcher").agent == Some(ResearcherAgent)
  {
  }

  // ===== Web search query =====

  /** The date `datetime.now()` gave when the module was loaded. */
  datatype Date = Date(year: nat, month: nat, day: nat)

  /** Leap years of the proleptic Gregorian calendar, which `datetime` uses. */
  predicate IsLeapYear(year: nat) {
    year % 4 == 0 && (year % 100 != 0 || year % 400 == 0)
  }

  /** The number of days of `month` (1-12) in `year`. */
  function DaysInMonth(year: nat, month: nat): (days: nat)
    requires 1 <= month <= 12
    ensures 28 <= days <= 31
    ensures days == 29 <==> month == 2 && IsLeapYear(year)
  {
    if month == 2 then (if IsLeapYear(year) then 29 else 28)
    else if month in {4, 6, 9, 11} then 30
    else 31
  }

  /** The dates a Python `datetime` can hold: years 1-9999, each month with its own length. */
  predicate ValidDate(d: Date) {
    1 <= d.year <= 9999 && 1 <= d.month <= 12 && 1 <= d.day <= DaysInMonth(d.year, d.month)
  }

  /** `strftime('%Y-%m-%d')`: month and day zero-padded to two digits; the year as the C
      library renders it, which for the years 1000-9999 is four digits. */
  function IsoDate(d: Date): string {
    Decimal.Render(d.year) + "-" + Decimal.Padded(d.month, 2) + "-" + Decimal.Padded(d.day, 2)
  }

  /** Reads a date back from `IsoDate`'s output: the last five characters are `mm-dd`. */
  function ReadIsoDate(s: string): Option<Date> {
    if |s| < 7 then None
    else
      var y, m, d := s[..|s| - 6], s[|s| - 5..|s| - 3], s[|s| - 2..];
      if Decimal.AllDigits(y) && Decimal.AllDigits(m) && Decimal.AllDigits(d)
      then Some(Date(Decimal.Parse(y), Decimal.Parse(m), Decimal.Parse(d)))
      else None
  }

  lemma IsoDateRoundTrip(d: Date)
    requires ValidDate(d)
    ensures ReadIsoDate(IsoDate(d)) == Some(d)
  {
    var y, m, dd := Decimal.Render(d.year), Decimal.Padded(d.month, 2), Decimal.Padded(d.day, 2);
    Decimal.PaddedTwoDigits(d.month);
    Decimal.PaddedTwoDigits(d.day);
    var s := IsoDate(d);
    assert s == y + "-" + m + "-" + dd;
    assert s[..|s| - 6] == y;
    assert s[|s| - 5..|s| - 3] == m;
    assert s[|s| - 2..] == dd;
    Decimal.ParseRender(d.year);
    Decimal.ParsePadded(d.month, 2);
    Decimal.ParsePadded(d.day, 2);
  }

  /** Distinct valid dates are written differently. */
  lemma IsoDateInjective(d1: Date, d2: Date)
    requires ValidDate(d1) && ValidDate(d2) && IsoDate(d1) == IsoDate(d2)
    ensures d1 == d2
  {
    IsoDateRoundTrip(d1);
    IsoDateRoundTrip(d2);
  }

  /** The words a phrase opens with before the date, for every key but `year`; an unknown key
      gets the fallback of `.get`. */
  function DatedOpening(timePeriod: string): string {
    if timePeriod == "day" then "in the last 24 hours "
    else if timePeriod == "week" then "in the last week "
    else if timePeriod == "month" then "in the last month "
    else "recently "
  }

  /** The `time_phrase` table of `web_search`, with its fallback for unknown keys. */
  function TimePhrase(timePeriod: string, today: Date): string {
    if timePeriod == "year" then "in the year " + Decimal.Render(today.year)
    else DatedOpening(timePeriod) + "(current date: " + IsoDate(today) + ")"
  }

  /** The arguments of the provider call `tavily_client.search(...)`. */
  datatype SearchRequest = SearchRequest(query: string, searchDepth: string, timeRange: string)

  /** `web_search(query, time_period="day")`, stopping at the request it sends. */
  function WebSearch(query: string, today: Date, timePeriod: string := "day"): (req: SearchRequest)
    ensures |req.query| > |query| && req.query[..|query|] == query && req.query[|query|] == ' '
    ensures req.query[|query| + 1..] == TimePhrase(timePeriod, today)
    ensures req.searchDepth == "advanced" && req.timeRange == timePeriod
  {
    var modified := query + " " + TimePhrase(timePeriod, today);
    assert modified[|query| + 1..] == TimePhrase(timePeriod, today);
    SearchRequest(modified, "advanced", timePeriod)
  }

  /** Every key but `year` embeds the full date, closing the phrase. */
  lemma DatedPhrase(timePeriod: string, today: Date)
    requires timePeriod != "year"
    ensures var p, tail := TimePhrase(timePeriod, today), "(current date: " + IsoDate(today) + ")";
      |tail| <= |p| && p[|p| - |tail|..] == tail
  {
    var tail := "(current date: " + IsoDate(today) + ")";
    assert TimePhrase(timePeriod, today) == DatedOpening(timePeriod) + tail;
  }

  /** The `year` phrase carries the current year and nothing else of the date: two dates
      give the same `year` phrase exactly when their years agree. */
  lemma YearPhraseTracksYear(d1: Date, d2: Date)
    ensures TimePhrase("year", d1) == TimePhrase("year", d2) <==> d1.year == d2.year
  {
    var lead := "in the year ";
    if TimePhrase("year", d1) == TimePhrase("year", d2) {
      assert TimePhrase("year", d1)[|lead|..] == Decimal.Render(d1.year);
      assert TimePhrase("year", d2)[|lead|..] == Decimal.Render(d2.year);
      if d1.year != d2.year {
        Decimal.RenderInjective(d1.year, d2.year);
      }
    }
  }

  /** ... but the phrases for the other keys tell any two dates apart. */
  lemma DatedPhraseDistinguishesDates(timePeriod: string, d1: Date, d2: Date)
    requires timePeriod != "year" && ValidDate(d1) && ValidDate(d2) && d1 != d2
    ensures TimePhrase(timePeriod, d1) != TimePhrase(timePeriod, d2)
  {
    var lead := DatedOpening(timePeriod) + "(current date: ";
    var p1, p2 := TimePhrase(timePeriod, d1), TimePhrase(timePeriod, d2);
    if p1 == p2 {
      assert IsoDate(d1) == p1[|lead|..|p1| - 1];
      assert IsoDate(d2) == p2[|lead|..|p2| - 1];
      IsoDateInjective(d1, d2);
    }
  }

  /** Every key outside the table falls back to one and the same phrase. */
  lemma UnknownKeysShareFallback(p1: string, p2: string, today: Date)
    requires p1 !in {"day", "week", "month", "year"} && p2 !in {"day", "week", "month", "year"}
    ensures TimePhrase(p1, today) == TimePhrase(p2, today)
  {
  }

  /** A dated phrase is its opening words, `(current date: `, the date and `)`. */
  lemma DatedLength(timePeriod: string, today: Date)
    requires timePeriod != "year"
    ensures |TimePhrase(timePeriod, today)| == |DatedOpening(timePeriod)| + 16 + |IsoDate(today)|
  {
  }

  /** The three dated table phrases for one date are pairwise distinct: their leads differ
      in length, and they share the date. */
  lemma PhrasesDistinct(today: Date)
    ensures TimePhrase("day", today) != TimePhrase("week", today)
    ensures TimePhrase("day", today) != TimePhrase("month", today)
    ensures TimePhrase("week", today) != TimePhrase("month", today)
  {
    DatedLength("day", today);
    DatedLength("week", today);
    DatedLength("month", today);
  }

  /** The `year` phrase differs from the phrase of every other key, unknown keys included:
      it ends in a digit of the year where the others end in `)`. */
  lemma YearPhraseDistinct(today: Date, timePeriod: string)
    requires timePeriod != "year"
    ensures TimePhrase("year", today) != TimePhrase(timePeriod, today)
  {
    DatedPhrase(timePeriod, today);
    EndsInDigit("in the year ", Decimal.Render(today.year));
  }

  /** The fallback phrase differs from the three dated table phrases: its lead is shorter. */
  lemma FallbackDistinct(today: Date, other: string)
    requires other != "day" && other != "week" && other != "month" && other != "year"
    ensures TimePhrase(other, today) != TimePhrase("day", today)
    ensures TimePhrase(other, today) != TimePhrase("week", today)
    ensures TimePhrase(other, today) != TimePhrase("month", today)
  {
    assert |DatedOpening(other)| == 9;
    DatedLength(other, today);
    DatedLength("day", today);
    DatedLength("week", today);
    DatedLength("month", today);
  }

  /** A phrase ending in the rendered year ends in a digit, unlike a dated phrase. */
  lemma EndsInDigit(lead: string, year: string)
    requires year != [] && Decimal.AllDigits(year)
    ensures (lead + year)[|lead + year| - 1] != ')'
  {
    assert (lead + year)[|lead + year| - 1] == year[|year| - 1];
  }

  // ===== Formatting the orchestration library's messages for display =====

  /** A dictionary entry: key missing, key mapped to `None`, or key mapped to a string. */
  datatype Field<T> = Absent | Null | Present(value: T)

  /** One message of `response.messages`. */
  datatype ProviderMessage = ProviderMessage(role: string, name: Field<string>, content: Field<string>)

  /** One entry of `formatted_messages`; `name` is `Absent` when the entry has no name key. */
  datatype DisplayMessage = DisplayMessage(role: string, name: Field<string>, content: string)

  /** The `KeyError` raised by `message[key]` when the key is missing. */
  datatype KeyError = KeyError(key: string)

  /** `if content and content.strip() != "None"`: present, non-empty, and not the
      placeholder (compared case-sensitively, after stripping). */
  predicate Shown(content: Field<string>) {
    content.Present? && content.value != "" && Strip(content.value) != "None"
  }

  /** A message carries the keys its branch of the loop reads with `message[key]`. */
  predicate HasRequiredKeys(m: ProviderMessage) {
    if m.role == "function" then !m.name.Absent?
    else if m.role == "tool" then true
    else !m.content.Absent?
  }

  /** `f"{value}"` of a name entry: `None` prints as `None`. */
  function NameText(name: Field<string>): string
    requires !name.Absent?
  {
    if name.Present? then name.value else "None"
  }

  /** The body of the loop in `chat()` for one message: what it appends, or the error. */
  function FormatMessage(m: ProviderMessage): Result<seq<DisplayMessage>, KeyError> {
    if m.role == "assistant" then
      var name := if m.name.Absent? then Present("Assistant") else m.name;
      if m.content.Absent? then Failure(KeyError("content"))
      else if Shown(m.content) then Success([DisplayMessage("assistant", name, m.content.value)])
      else Success([])
    else if m.role == "function" then
      if m.name.Absent? then Failure(KeyError("name"))
      else if m.name == Present("web_search") then Success([DisplayMessage("system", Absent, "Web search performed")])
      else Success([DisplayMessage("system", Absent, "Function '" + NameText(m.name) + "' called")])
    else if m.role != "tool" then
      if m.content.Absent? then Failure(KeyError("content"))
      else if Shown(m.content) then Success([DisplayMessage(m.role, Absent, m.content.value)])
      else Success([])
    else
      Success([])
  }

  /** The whole loop: the first `KeyError` aborts it, otherwise the appended entries in order. */
  function FormatAll(ms: seq<ProviderMessage>): Result<seq<DisplayMessage>, KeyError> {
    if ms == [] then Success([])
    else
      match FormatAll(ms[..|ms| - 1])
      case Failure(e) => Failure(e)
      case Success(done) =>
        match FormatMessage(ms[|ms| - 1])
        case Failure(e) => Failure(e)
        case Success(more) => Success(done + more)
  }

  /** The loop of `chat()` that builds `formatted_messages`. */
  method FormatMessages(ms: seq<ProviderMessage>) returns (r: Result<seq<DisplayMessage>, KeyError>)
    ensures r == FormatAll(ms)
  {
    var formatted: seq<DisplayMessage> := [];
    var i := 0;
    while i < |ms|
      invariant 0 <= i <= |ms|
      invariant FormatAll(ms[..i]) == Success(formatted)
    {
      assert ms[..i + 1][..i] == ms[..i];
      match FormatMessage(ms[i])
      case Failure(e) =>
        FormatFailureSticks(ms[..i + 1], ms[i + 1..]);
        assert ms[..i + 1] + ms[i + 1..] == ms;
        return Failure(e);
      case Success(entries) =>
        formatted := formatted + entries;
      i := i + 1;
    }
    assert ms[..i] == ms;
    r := Success(formatted);
  }

  /** Chains two results the way the loop runs two stretches of messages one after the other. */
  function Then(first: Result<seq<DisplayMessage>, KeyError>, second: Result<seq<DisplayMessage>, KeyError>): Result<seq<DisplayMessage>, KeyError> {
    match first
    case Failure(e) => Failure(e)
    case Success(a) =>
      match second
      case Failure(e) => Failure(e)
      case Success(b) => Success(a + b)
  }

  /** Formatting runs message by message, in order: formatting `a + b` is formatting `a`,
      then `b`. */
  lemma {:induction false} FormatConcat(a: seq<ProviderMessage>, b: seq<ProviderMessage>)
    ensures FormatAll(a + b) == Then(FormatAll(a), FormatAll(b))
  {
    if b == [] {
      assert a + b == a;
      match FormatAll(a)
      case Failure(_) =>
      case Success(x) => assert x + [] == x;
    } else {
      var ab := a + b;
      var init, last := b[..|b| - 1], b[|b| - 1];
      assert ab[..|ab| - 1] == a + init;
      assert ab[|ab| - 1] == last;
      FormatConcat(a, init);
      assert FormatAll(ab) == Then(FormatAll(a + init), FormatMessage(last));
      assert FormatAll(b) == Then(FormatAll(init), FormatMessage(last));
      ThenAssociative(FormatAll(a), FormatAll(init), FormatMessage(last));
    }
  }

  lemma ThenAssociative(x: Result<seq<DisplayMessage>, KeyError>, y: Result<seq<DisplayMessage>, KeyError>, z: Result<seq<DisplayMessage>, KeyError>)
    ensures Then(Then(x, y), z) == Then(x, Then(y, z))
  {
    if x.Success? && y.Success? && z.Success? {
      assert x.value + y.value + z.value == x.value + (y.value + z.value);
    }
  }

  /** Once a message raises, nothing after it changes the outcome. */
  lemma FormatFailureSticks(a: seq<ProviderMessage>, b: seq<ProviderMessage>)
    requires FormatAll(a).Failure?
    ensures FormatAll(a + b) == FormatAll(a)
  {
    FormatConcat(a, b);
  }

  /** One message in isolation is formatted by the loop body. */
  lemma FormatSingle(m: ProviderMessage)
    ensures FormatAll([m]) == FormatMessage(m)
  {
    assert [m][..0] == [];
    match FormatMessage(m)
    case Failure(_) =>
    case Success(x) => assert [] + x == x;
  }

  /** What the loop body does with each kind of message. */
  lemma FormatMessageCases(m: ProviderMessage)
    ensures FormatMessage(m).Failure? <==> !HasRequiredKeys(m)
    ensures FormatMessage(m).Success? ==> |FormatMessage(m).value| <= 1
    // a tool result never shows
    ensures m.role == "tool" ==> FormatMessage(m) == Success([])
    // a function message shows as exactly one system note
    ensures m.role == "function" && HasRequiredKeys(m) ==>
      FormatMessage(m) == Success([DisplayMessage("system", Absent,
        if m.name == Present("web_search") then "Web search performed"
        else "Function '" + NameText(m.name) + "' called")])
    // any other message shows, unstripped, exactly when its content is shown
    ensures m.role != "function" && m.role != "tool" && HasRequiredKeys(m) ==>
      (|FormatMessage(m).value| == 1 <==> Shown(m.content))
    ensures m.role != "function" && m.role != "tool" && HasRequiredKeys(m) && Shown(m.content) ==>
      FormatMessage(m).value[0].role == m.role && FormatMessage(m).value[0].content == m.content.value
    // an assistant without a name key is shown as "Assistant"
    ensures m.role == "assistant" && m.name.Absent? && Shown(m.content) ==>
      FormatMessage(m).value[0].name == Present("Assistant")
    ensures m.role == "assistant" && !m.name.Absent? && Shown(m.content) ==>
      FormatMessage(m).value[0].name == m.name
  {
  }

  /** The placeholder is suppressed whatever whitespace surrounds it ... */
  lemma PlaceholderSuppressed(role: string, name: Field<string>, before: string, after: string)
    requires role != "function" && role != "tool"
    requires IsBlank(before) && IsBlank(after)
    ensures FormatMessage(ProviderMessage(role, name, Present(before + "None" + after))) == Success([])
  {
    StripSurrounded(before, "None", after);
  }

  /** ... but only in exactly that spelling: the comparison is case-sensitive. */
  lemma LowerCasePlaceholderShown()
    ensures FormatMessage(ProviderMessage("assistant", Absent, Present("none"))) ==
      Success([DisplayMessage("assistant", Present("Assistant"), "none")])
  {
    assert TrimStart("none") == "none";
    assert TrimEnd("none") == "none";
    assert Strip("none") == "none";
  }

  /** The loop finishes exactly when every message has the keys its branch reads. */
  lemma {:induction false} FormatSucceedsIff(ms: seq<ProviderMessage>)
    ensures FormatAll(ms).Success? <==> forall i :: 0 <= i < |ms| ==> HasRequiredKeys(ms[i])
  {
    if ms != [] {
      var init := ms[..|ms| - 1];
      FormatSucceedsIff(init);
      FormatMessageCases(ms[|ms| - 1]);
      assert forall i :: 0 <= i < |init| ==> init[i] == ms[i];
    }
  }

  /** The output is never longer than the input. */
  lemma {:induction false} FormatNoLonger(ms: seq<ProviderMessage>)
    requires FormatAll(ms).Success?
    ensures |FormatAll(ms).value| <= |ms|
  {
    if ms != [] {
      FormatNoLonger(ms[..|ms| - 1]);
      FormatMessageCases(ms[|ms| - 1]);
    }
  }
}
