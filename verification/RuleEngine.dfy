/** Diagnostic rules: conditions over observation events, combined by All or Any. */
module RuleEngine {
  import opened Common
  import opened Decimal
  import opened Observation
  import Doubles

  datatype MatchOperator =
    Equals | NotEquals | GreaterThan | GreaterThanOrEqual | LessThan | LessThanOrEqual | Contains | Regex

  datatype Logic = All | Any

  datatype Condition = Condition(source: Option<string>, category: Option<string>, subject: Option<string>,
                                 signal: Option<string>, minSeverity: Option<Severity>, target: Option<string>,
                                 operator: MatchOperator)

  datatype Rule = Rule(ruleId: string, title: string, category: string, severity: Severity, logic: Logic,
                       conditions: seq<Condition>)

  /** A finding without its generated id and time stamp, and without the texts for causes and actions. */
  datatype Finding = Finding(ruleId: string, title: string, category: string, severity: Severity,
                             matched: seq<Event>)

  /** The library functions the matcher calls: stod (None when it raises), the conversion of an
      int64 to double, and std::regex_search (false when the pattern is invalid). */
  datatype Library = Library(stod: string -> Option<real>, toDouble: Int64 -> real,
                             regexSearch: (string, string) -> bool)

  // ---- one condition, one event ------------------------------------------------------------

  function EventText(v: EventValue): string {
    match v
    case NoValue => ""
    case Bool(b) => if b then "true" else "false"
    case Int(i) => ShowInt(i)
    case Double(d) => ShowDouble(d)
    case Text(t) => t
  }

  function EventNumber(v: EventValue, lib: Library): Option<real> {
    match v
    case Int(i) => Some(lib.toDouble(i))
    case Double(d) => Some(d)
    case Text(t) => lib.stod(t)
    case _ => None
  }

  predicate IsOrdering(op: MatchOperator) {
    op.GreaterThan? || op.GreaterThanOrEqual? || op.LessThan? || op.LessThanOrEqual?
  }

  function Compare(a: real, b: real, op: MatchOperator): bool {
    match op
    case Equals => a == b
    case NotEquals => a != b
    case GreaterThan => a > b
    case GreaterThanOrEqual => a >= b
    case LessThan => a < b
    case LessThanOrEqual => a <= b
    case _ => false
  }

  predicate OccursAt(part: string, s: string, i: nat) { i + |part| <= |s| && s[i..i + |part|] == part }

  predicate HasSubstring(s: string, part: string) { exists i :: 0 <= i <= |s| && OccursAt(part, s, i) }

  predicate MatchValue(v: EventValue, target: string, op: MatchOperator, lib: Library) {
    var text, number := EventText(v), EventNumber(v, lib);
    if number.Some? && IsOrdering(op) then
      var bound := lib.stod(target);
      bound.Some? && Compare(number.value, bound.value, op)
    else
      match op
      case Equals => text == target
      case NotEquals => text != target
      case Contains => HasSubstring(text, target)
      case Regex => lib.regexSearch(text, target)
      case _ => false
  }

  /** The operators do what their names say together: Equals and NotEquals exclude each other and
      leave no gap; an ordering holds only between two numbers, and there exactly one of each
      complementary pair does. */
  lemma OperatorsPartition(v: EventValue, target: string, lib: Library)
    ensures MatchValue(v, target, Equals, lib) <==> !MatchValue(v, target, NotEquals, lib)
    ensures var numeric := EventNumber(v, lib).Some? && lib.stod(target).Some?;
            && (MatchValue(v, target, GreaterThan, lib) <==> numeric && !MatchValue(v, target, LessThanOrEqual, lib))
            && (MatchValue(v, target, LessThan, lib) <==> numeric && !MatchValue(v, target, GreaterThanOrEqual, lib))
            && (MatchValue(v, target, GreaterThanOrEqual, lib) && MatchValue(v, target, LessThanOrEqual, lib) ==>
                  EventNumber(v, lib) == lib.stod(target))
  {}

  /** What is compared: an event's number with the target's number when both have one, else nothing;
      text with text, whatever the numbers say. */
  lemma OperatorsMean(v: EventValue, target: string, lib: Library)
    ensures var a, b, text := EventNumber(v, lib), lib.stod(target), EventText(v);
            && (MatchValue(v, target, GreaterThan, lib) <==> a.Some? && b.Some? && a.value > b.value)
            && (MatchValue(v, target, GreaterThanOrEqual, lib) <==> a.Some? && b.Some? && a.value >= b.value)
            && (MatchValue(v, target, LessThan, lib) <==> a.Some? && b.Some? && a.value < b.value)
            && (MatchValue(v, target, LessThanOrEqual, lib) <==> a.Some? && b.Some? && a.value <= b.value)
            && (MatchValue(v, target, Equals, lib) <==> text == target)
            && (MatchValue(v, target, NotEquals, lib) <==> text != target)
            && (MatchValue(v, target, Contains, lib) <==> exists front, back :: text == front + target + back)
            && (MatchValue(v, target, Regex, lib) <==> lib.regexSearch(text, target))
  {
    var text := EventText(v);
    hide EventText, EventNumber;
    if HasSubstring(text, target) {
      var i :| 0 <= i <= |text| && OccursAt(target, text, i);
      assert text == text[..i] + target + text[i + |target|..];
    }
    forall front, back | text == front + target + back ensures HasSubstring(text, target) {
      assert OccursAt(target, text, |front|);
    }
  }

  /** The number and the text of each kind of value. */
  lemma ValuesShown(i: Int64, d: Doubles.Double, t: string, lib: Library)
    ensures EventText(NoValue) == "" && EventText(Bool(true)) == "true" && EventText(Bool(false)) == "false"
    ensures EventText(Int(i)) == ShowInt(i) && EventText(Double(d)) == ShowDouble(d) && EventText(Text(t)) == t
    ensures EventNumber(NoValue, lib) == None && forall b :: EventNumber(Bool(b), lib) == None
    ensures EventNumber(Int(i), lib) == Some(lib.toDouble(i)) && EventNumber(Double(d), lib) == Some(d)
    ensures EventNumber(Text(t), lib) == lib.stod(t)
  {}

  predicate Matches(e: Event, c: Condition, lib: Library) {
    && (c.source.Some? ==> e.source == c.source.value)
    && (c.category.Some? ==> e.category == c.category.value)
    && (c.subject.Some? ==> e.subject == c.subject.value)
    && (c.signal.Some? ==> e.signal == c.signal.value)
    && (c.minSeverity.Some? ==> Ordinal(e.severity) >= Ordinal(c.minSeverity.value))
    && (c.target.Some? ==> MatchValue(e.value, c.target.value, c.operator, lib))
  }

  const ANYTHING := Condition(None, None, None, None, None, None, Equals)

  /** Each restriction of a condition is a test of its own field and narrows the others. */
  lemma RestrictionsAreSeparate(e: Event, c: Condition, lib: Library)
    ensures Matches(e, ANYTHING.(operator := c.operator), lib)
    ensures Matches(e, c, lib) <==>
              Matches(e, c.(source := None), lib) && (c.source == None || c.source == Some(e.source))
    ensures Matches(e, c, lib) <==>
              Matches(e, c.(category := None), lib) && (c.category == None || c.category == Some(e.category))
    ensures Matches(e, c, lib) <==>
              Matches(e, c.(subject := None), lib) && (c.subject == None || c.subject == Some(e.subject))
    ensures Matches(e, c, lib) <==>
              Matches(e, c.(signal := None), lib) && (c.signal == None || c.signal == Some(e.signal))
    ensures Matches(e, c, lib) <==>
              && Matches(e, c.(minSeverity := None), lib)
              && (c.minSeverity.Some? ==>
                    SqlRank(SeverityText(e.severity)) >= SqlRank(SeverityText(c.minSeverity.value)))
    ensures Matches(e, c, lib) <==>
              && Matches(e, c.(target := None), lib)
              && (c.target.Some? ==> MatchValue(e.value, c.target.value, c.operator, lib))
  {
    hide MatchValue;
    SeverityRoundTrip(e.severity);
    if c.minSeverity.Some? { SeverityRoundTrip(c.minSeverity.value); }
  }

  // ---- what evaluation means ---------------------------------------------------------------

  /** The events that match one condition, in order. */
  function MatchedBy(c: Condition, events: seq<Event>, lib: Library): seq<Event> {
    if events == [] then []
    else
      var n := |events| - 1;
      MatchedBy(c, events[..n], lib) + if Matches(events[n], c, lib) then [events[n]] else []
  }

  /** Those of every condition in turn; an event matching two conditions is listed twice. */
  function MatchedByAll(cs: seq<Condition>, events: seq<Event>, lib: Library): seq<Event> {
    if cs == [] then []
    else MatchedByAll(cs[..|cs| - 1], events, lib) + MatchedBy(cs[|cs| - 1], events, lib)
  }

  predicate HasMatch(c: Condition, events: seq<Event>, lib: Library) {
    exists e :: e in events && Matches(e, c, lib)
  }

  predicate Triggered(r: Rule, events: seq<Event>, lib: Library) {
    && r.conditions != []
    && if r.logic.All? then forall c :: c in r.conditions ==> HasMatch(c, events, lib)
       else exists c :: c in r.conditions && HasMatch(c, events, lib)
  }

  function FindingFor(r: Rule, events: seq<Event>, lib: Library): Finding {
    Finding(r.ruleId, r.title, r.category, r.severity, MatchedByAll(r.conditions, events, lib))
  }

  /** One finding per triggered rule, in rule order. */
  function Findings(rules: seq<Rule>, events: seq<Event>, lib: Library): seq<Finding> {
    if rules == [] then []
    else
      var n := |rules| - 1;
      Findings(rules[..n], events, lib) +
        if Triggered(rules[n], events, lib) then [FindingFor(rules[n], events, lib)] else []
  }

  /** What one condition lists is exactly the matching events, each as often as it occurs. */
  lemma {:induction false} MatchedByIsFilter(c: Condition, events: seq<Event>, lib: Library, e: Event)
    ensures multiset(MatchedBy(c, events, lib))[e] == if Matches(e, c, lib) then multiset(events)[e] else 0
  {
    hide Matches;
    if events != [] {
      var n := |events| - 1;
      MatchedByIsFilter(c, events[..n], lib, e);
      assert events == events[..n] + [events[n]];
    }
  }

  lemma MatchedByNonempty(c: Condition, events: seq<Event>, lib: Library)
    ensures MatchedBy(c, events, lib) != [] <==> HasMatch(c, events, lib)
  {
    if MatchedBy(c, events, lib) != [] {
      var e := MatchedBy(c, events, lib)[0];
      assert e in multiset(MatchedBy(c, events, lib));
      MatchedByIsFilter(c, events, lib, e);
      assert e in multiset(events);
    }
    if HasMatch(c, events, lib) {
      var e :| e in events && Matches(e, c, lib);
      MatchedByIsFilter(c, events, lib, e);
      assert e in multiset(events);
    }
  }

  lemma InFrontOrLast<T>(s: seq<T>)
    requires s != []
    ensures forall x :: x in s <==> x in s[..|s| - 1] || x == s[|s| - 1]
  {
    assert s == s[..|s| - 1] + [s[|s| - 1]];
  }

  lemma {:induction false} MatchedByAllNonempty(cs: seq<Condition>, events: seq<Event>, lib: Library)
    ensures MatchedByAll(cs, events, lib) != [] <==> exists c :: c in cs && HasMatch(c, events, lib)
  {
    if cs != [] {
      var n := |cs| - 1;
      MatchedByAllNonempty(cs[..n], events, lib);
      MatchedByNonempty(cs[n], events, lib);
      hide HasMatch, MatchedBy;
      InFrontOrLast(cs);
    }
  }

  /** The final test for a nonempty list never matters: a satisfied rule has matched events. */
  lemma TriggeredHasEvents(r: Rule, events: seq<Event>, lib: Library)
    requires Triggered(r, events, lib)
    ensures MatchedByAll(r.conditions, events, lib) != []
  {
    MatchedByAllNonempty(r.conditions, events, lib);
    assert r.conditions[0] in r.conditions;
  }

  // ---- the engine --------------------------------------------------------------------------

  class RuleEngine {
    var rules: seq<Rule>

    constructor ()
      ensures rules == BUILT_IN
    {
      rules := BUILT_IN;
    }

    method AddRule(r: Rule)
      modifies this
      ensures rules == old(rules) + [r]
    {
      rules := rules + [r];
    }

    method ClearRules()
      modifies this
      ensures rules == []
    {
      rules := [];
    }

    method EvaluateAllLogic(r: Rule, events: seq<Event>, lib: Library) returns (satisfied: bool, matched: seq<Event>)
      ensures satisfied <==> forall c :: c in r.conditions ==> HasMatch(c, events, lib)
      ensures satisfied ==> matched == MatchedByAll(r.conditions, events, lib)
    {
      hide Matches, HasMatch;
      matched := [];
      for i := 0 to |r.conditions|
        invariant matched == MatchedByAll(r.conditions[..i], events, lib)
        invariant forall c :: c in r.conditions[..i] ==> HasMatch(c, events, lib)
      {
        var c := r.conditions[i];
        var found := MatchOne(c, events, lib);
        matched := matched + found;
        if found == [] {
          assert c in r.conditions && !HasMatch(c, events, lib);
          return false, matched;
        }
        assert r.conditions[..i + 1] == r.conditions[..i] + [c];
      }
      assert r.conditions[..|r.conditions|] == r.conditions;
      satisfied := true;
    }

    method EvaluateAnyLogic(r: Rule, events: seq<Event>, lib: Library) returns (satisfied: bool, matched: seq<Event>)
      ensures satisfied <==> exists c :: c in r.conditions && HasMatch(c, events, lib)
      ensures matched == MatchedByAll(r.conditions, events, lib)
    {
      hide Matches, HasMatch;
      satisfied, matched := false, [];
      for i := 0 to |r.conditions|
        invariant matched == MatchedByAll(r.conditions[..i], events, lib)
        invariant satisfied <==> exists c :: c in r.conditions[..i] && HasMatch(c, events, lib)
      {
        var c := r.conditions[i];
        var found := MatchOne(c, events, lib);
        matched := matched + found;
        satisfied := satisfied || found != [];
        assert r.conditions[..i + 1] == r.conditions[..i] + [c];
        assert r.conditions[..i + 1][..i] == r.conditions[..i];
        InFrontOrLast(r.conditions[..i + 1]);
      }
      assert r.conditions[..|r.conditions|] == r.conditions;
    }

    method Evaluate(events: seq<Event>, lib: Library) returns (findings: seq<Finding>)
      ensures findings == Findings(rules, events, lib)
    {
      findings := [];
      for i := 0 to |rules|
        invariant findings == Findings(rules[..i], events, lib)
      {
        var r := rules[i];
        assert rules[..i + 1] == rules[..i] + [r];
        if r.conditions == [] {
          continue;
        }
        var satisfied, matched;
        if r.logic.All? {
          satisfied, matched := EvaluateAllLogic(r, events, lib);
        } else {
          satisfied, matched := EvaluateAnyLogic(r, events, lib);
        }
        assert satisfied <==> Triggered(r, events, lib);
        if satisfied { TriggeredHasEvents(r, events, lib); }
        if satisfied && matched != [] {
          findings := findings + [Finding(r.ruleId, r.title, r.category, r.severity, matched)];
        }
      }
      assert rules[..|rules|] == rules;
    }
  }

  /** The inner loop over the events. */
  method MatchOne(c: Condition, events: seq<Event>, lib: Library) returns (found: seq<Event>)
    ensures found == MatchedBy(c, events, lib)
    ensures found != [] <==> HasMatch(c, events, lib)
  {
    found := [];
    for i := 0 to |events|
      invariant found == MatchedBy(c, events[..i], lib)
    {
      assert events[..i + 1][..i] == events[..i];
      if Matches(events[i], c, lib) {
        found := found + [events[i]];
      }
    }
    assert events[..|events|] == events;
    MatchedByNonempty(c, events, lib);
  }

  // ---- findings as a list of rules ---------------------------------------------------------

  predicate Increasing(idx: seq<nat>) { forall i, j :: 0 <= i < j < |idx| ==> idx[i] < idx[j] }

  /** The positions of the triggered rules, in order. */
  function TriggeredAt(rules: seq<Rule>, events: seq<Event>, lib: Library): (idx: seq<nat>)
    ensures Increasing(idx) && forall k :: 0 <= k < |idx| ==> idx[k] < |rules|
  {
    if rules == [] then []
    else TriggeredAt(rules[..|rules| - 1], events, lib) +
         if Triggered(rules[|rules| - 1], events, lib) then [|rules| - 1] else []
  }

  lemma {:induction false} TriggeredAtIsExact(rules: seq<Rule>, events: seq<Event>, lib: Library, i: nat)
    requires i < |rules|
    ensures i in TriggeredAt(rules, events, lib) <==> Triggered(rules[i], events, lib)
  {
    hide Triggered;
    var n := |rules| - 1;
    var before := TriggeredAt(rules[..n], events, lib);
    assert n !in before;
    if i < n { TriggeredAtIsExact(rules[..n], events, lib, i); }
  }

  /** The findings are those of exactly the triggered rules, in rule order, one per rule. */
  lemma {:induction false} FindingsListTriggeredRules(rules: seq<Rule>, events: seq<Event>, lib: Library)
    ensures |Findings(rules, events, lib)| == |TriggeredAt(rules, events, lib)|
    ensures forall k :: 0 <= k < |Findings(rules, events, lib)| ==>
              Findings(rules, events, lib)[k] == FindingFor(rules[TriggeredAt(rules, events, lib)[k]], events, lib)
  {
    hide Triggered, FindingFor;
    if rules != [] { FindingsListTriggeredRules(rules[..|rules| - 1], events, lib); }
  }

  /** Some event of the list matches the condition. */
  predicate MatchesSome(c: Condition, events: seq<Event>, lib: Library) {
    exists j :: 0 <= j < |events| && Matches(events[j], c, lib)
  }

  /** When a rule raises a finding, in terms of positions: it has conditions, and each of them for All,
      one of them for Any, matches some event. */
  lemma TriggeredMeans(r: Rule, events: seq<Event>, lib: Library)
    ensures r.conditions == [] ==> !Triggered(r, events, lib)
    ensures r.conditions != [] && r.logic == All ==>
              (Triggered(r, events, lib) <==>
                 forall i :: 0 <= i < |r.conditions| ==> MatchesSome(r.conditions[i], events, lib))
    ensures r.conditions != [] && r.logic == Any ==>
              (Triggered(r, events, lib) <==>
                 exists i :: 0 <= i < |r.conditions| && MatchesSome(r.conditions[i], events, lib))
  {
    hide HasMatch, MatchesSome;
    var cs := r.conditions;
    forall c ensures HasMatch(c, events, lib) <==> MatchesSome(c, events, lib) { HasMatchAt(c, events, lib); }
    forall c | c in cs ensures exists i :: 0 <= i < |cs| && cs[i] == c {}
  }

  lemma HasMatchAt(c: Condition, events: seq<Event>, lib: Library)
    ensures HasMatch(c, events, lib) <==> MatchesSome(c, events, lib)
  {
    hide Matches;
    if HasMatch(c, events, lib) {
      var e :| e in events && Matches(e, c, lib);
      var j :| 0 <= j < |events| && events[j] == e;
    }
  }

  /** How many of the conditions match the event. */
  function MatchingConditions(cs: seq<Condition>, e: Event, lib: Library): nat {
    if cs == [] then 0 else MatchingConditions(cs[1..], e, lib) + if Matches(e, cs[0], lib) then 1 else 0
  }

  lemma {:induction false} MatchingConditionsLast(cs: seq<Condition>, e: Event, lib: Library)
    requires cs != []
    ensures var n := |cs| - 1;
            MatchingConditions(cs, e, lib) ==
            MatchingConditions(cs[..n], e, lib) + if Matches(e, cs[n], lib) then 1 else 0
  {
    hide Matches;
    var n := |cs| - 1;
    if n > 0 {
      MatchingConditionsLast(cs[1..], e, lib);
      assert cs[1..][..n - 1] == cs[..n][1..];
    }
  }

  lemma {:induction false} MatchedEachTime(cs: seq<Condition>, events: seq<Event>, lib: Library, e: Event)
    ensures multiset(MatchedByAll(cs, events, lib))[e] == multiset(events)[e] * MatchingConditions(cs, e, lib)
  {
    hide MatchedBy, Matches;
    if cs != [] {
      var n := |cs| - 1;
      MatchedEachTime(cs[..n], events, lib, e);
      MatchedByIsFilter(cs[n], events, lib, e);
      MatchingConditionsLast(cs, e, lib);
      hide MatchingConditions;
      OneMoreTime(multiset(events)[e], MatchingConditions(cs[..n], e, lib));
    }
  }

  lemma OneMoreTime(a: nat, b: nat)
    ensures a * (b + 1) == a * b + a
  {}

  /** What a finding says: it carries the id, title, category and severity of its rule, and lists every
      event once for each condition of the rule that matches it. */
  lemma FindingMeans(rules: seq<Rule>, events: seq<Event>, lib: Library, k: nat, e: Event)
    requires k < |Findings(rules, events, lib)|
    ensures |Findings(rules, events, lib)| == |TriggeredAt(rules, events, lib)|
    ensures var f, r := Findings(rules, events, lib)[k], rules[TriggeredAt(rules, events, lib)[k]];
            && f.ruleId == r.ruleId && f.title == r.title && f.category == r.category && f.severity == r.severity
            && multiset(f.matched)[e] == multiset(events)[e] * MatchingConditions(r.conditions, e, lib)
  {
    hide Findings, MatchedByAll, MatchingConditions, TriggeredAt;
    FindingsListTriggeredRules(rules, events, lib);
    MatchedEachTime(rules[TriggeredAt(rules, events, lib)[k]].conditions, events, lib, e);
  }

  // ---- order and growth of the event list --------------------------------------------------

  lemma MoreEventsKeepMatches(c: Condition, a: seq<Event>, b: seq<Event>, lib: Library)
    requires forall e :: e in a ==> e in b
    ensures HasMatch(c, a, lib) ==> HasMatch(c, b, lib)
  {}

  /** Adding events never un-triggers a rule. */
  lemma TriggeredIsMonotone(r: Rule, a: seq<Event>, b: seq<Event>, lib: Library)
    requires (forall e :: e in a ==> e in b) && Triggered(r, a, lib)
    ensures Triggered(r, b, lib)
  {
    hide HasMatch;
    forall c ensures HasMatch(c, a, lib) ==> HasMatch(c, b, lib) { MoreEventsKeepMatches(c, a, b, lib); }
  }

  lemma {:induction false} MatchedByPermutes(cs: seq<Condition>, a: seq<Event>, b: seq<Event>, lib: Library)
    requires multiset(a) == multiset(b)
    ensures multiset(MatchedByAll(cs, a, lib)) == multiset(MatchedByAll(cs, b, lib))
  {
    if cs != [] {
      var n := |cs| - 1;
      MatchedByPermutes(cs[..n], a, b, lib);
      forall e ensures multiset(MatchedBy(cs[n], a, lib))[e] == multiset(MatchedBy(cs[n], b, lib))[e] {
        MatchedByIsFilter(cs[n], a, lib, e);
        MatchedByIsFilter(cs[n], b, lib, e);
      }
      assert multiset(MatchedBy(cs[n], a, lib)) == multiset(MatchedBy(cs[n], b, lib));
    }
  }

  /** Two findings that differ only in the order of their events. */
  predicate SameUpToOrder(f: Finding, g: Finding) {
    f.(matched := []) == g.(matched := []) && multiset(f.matched) == multiset(g.matched)
  }

  lemma TriggeredPermutes(r: Rule, a: seq<Event>, b: seq<Event>, lib: Library)
    requires multiset(a) == multiset(b)
    ensures Triggered(r, a, lib) <==> Triggered(r, b, lib)
  {
    assert forall e :: e in a <==> e in multiset(a);
    assert forall e :: e in b <==> e in multiset(b);
    if Triggered(r, a, lib) { TriggeredIsMonotone(r, a, b, lib); }
    if Triggered(r, b, lib) { TriggeredIsMonotone(r, b, a, lib); }
  }

  /** Reordering the events yields the same findings, up to the order of the events they list. */
  lemma {:induction false} FindingsIgnoreEventOrder(rules: seq<Rule>, a: seq<Event>, b: seq<Event>, lib: Library)
    requires multiset(a) == multiset(b)
    ensures |Findings(rules, a, lib)| == |Findings(rules, b, lib)|
    ensures forall k :: 0 <= k < |Findings(rules, a, lib)| ==>
              SameUpToOrder(Findings(rules, a, lib)[k], Findings(rules, b, lib)[k])
  {
    if rules != [] {
      var n := |rules| - 1;
      FindingsIgnoreEventOrder(rules[..n], a, b, lib);
      TriggeredPermutes(rules[n], a, b, lib);
      MatchedByPermutes(rules[n].conditions, a, b, lib);
      hide Triggered;
    }
  }

  // ---- events no rule asks for ------------------------------------------------------------

  lemma {:induction false} MatchedByConcat(c: Condition, a: seq<Event>, b: seq<Event>, lib: Library)
    ensures MatchedBy(c, a + b, lib) == MatchedBy(c, a, lib) + MatchedBy(c, b, lib)
  {
    hide Matches;
    if b == [] {
      assert a + b == a;
    } else {
      var n := |b| - 1;
      MatchedByConcat(c, a, b[..n], lib);
      assert (a + b)[..|a| + n] == a + b[..n];
    }
  }

  /** No condition of the rule matches any of these events. */
  predicate Ignores(r: Rule, events: seq<Event>, lib: Library) {
    forall c :: c in r.conditions ==> !HasMatch(c, events, lib)
  }

  lemma IgnoredByCondition(c: Condition, a: seq<Event>, ignored: seq<Event>, b: seq<Event>, lib: Library)
    requires !HasMatch(c, ignored, lib)
    ensures MatchedBy(c, a + ignored + b, lib) == MatchedBy(c, a + b, lib)
    ensures HasMatch(c, a + ignored + b, lib) <==> HasMatch(c, a + b, lib)
  {
    hide HasMatch, MatchedBy;
    MatchedByNonempty(c, ignored, lib);
    MatchedByConcat(c, a, ignored, lib);
    MatchedByConcat(c, a + ignored, b, lib);
    MatchedByConcat(c, a, b, lib);
    MatchedByNonempty(c, a + ignored + b, lib);
    MatchedByNonempty(c, a + b, lib);
  }

  lemma {:induction false} IgnoredByAll(cs: seq<Condition>, a: seq<Event>, ignored: seq<Event>, b: seq<Event>,
                                        lib: Library)
    requires forall c :: c in cs ==> !HasMatch(c, ignored, lib)
    ensures MatchedByAll(cs, a + ignored + b, lib) == MatchedByAll(cs, a + b, lib)
  {
    hide HasMatch, MatchedBy;
    if cs != [] {
      var n := |cs| - 1;
      IgnoredByAll(cs[..n], a, ignored, b, lib);
      IgnoredByCondition(cs[n], a, ignored, b, lib);
    }
  }

  lemma IgnoredByRule(r: Rule, a: seq<Event>, ignored: seq<Event>, b: seq<Event>, lib: Library)
    requires Ignores(r, ignored, lib)
    ensures Triggered(r, a + ignored + b, lib) <==> Triggered(r, a + b, lib)
    ensures FindingFor(r, a + ignored + b, lib) == FindingFor(r, a + b, lib)
  {
    hide HasMatch, MatchedByAll;
    IgnoredByAll(r.conditions, a, ignored, b, lib);
    forall c | c in r.conditions ensures HasMatch(c, a + ignored + b, lib) <==> HasMatch(c, a + b, lib) {
      IgnoredByCondition(c, a, ignored, b, lib);
    }
  }

  /** Events no condition matches change no finding, wherever in the list they stand. */
  lemma {:induction false} IgnoredEventsChangeNothing(rules: seq<Rule>, a: seq<Event>, ignored: seq<Event>,
                                                      b: seq<Event>, lib: Library)
    requires forall r :: r in rules ==> Ignores(r, ignored, lib)
    ensures Findings(rules, a + ignored + b, lib) == Findings(rules, a + b, lib)
  {
    hide Triggered, FindingFor, Ignores;
    if rules != [] {
      var n := |rules| - 1;
      IgnoredEventsChangeNothing(rules[..n], a, ignored, b, lib);
      IgnoredByRule(rules[n], a, ignored, b, lib);
    }
  }

  // ---- the built-in rules ------------------------------------------------------------------

  function BuiltInCondition(category: string, subject: Option<string>, signal: string): Condition {
    Condition(None, Some(category), subject, Some(signal), Some(Warning), None, Equals)
  }

  const BUILT_IN: seq<Rule> := [
    Rule("RULE-KERNEL-001", "Kernel Version Mismatch", "kernel", Warning, All,
         [BuiltInCondition("package", Some("kernel"), "pacman.kernel_mismatch")]),
    Rule("RULE-PACMAN-001", "Stale Pacman Database Lock", "package", Warning, All,
         [BuiltInCondition("package", Some("pacman_db"), "pacman.stale_lock")]),
    Rule("RULE-STORAGE-001", "Storage Pressure Warning", "storage", Warning, Any,
         [BuiltInCondition("storage", None, "space_pressure"), BuiltInCondition("storage", None, "inode_pressure")]),
    Rule("RULE-MEMORY-001", "Memory Pressure or OOM Event", "memory", Error, Any,
         [BuiltInCondition("memory", None, "oom_kill"), BuiltInCondition("memory", None, "memory_pressure")]),
    Rule("RULE-SYSTEMD-001", "Systemd Unit Failure", "service", Error, All,
         [BuiltInCondition("systemd", None, "unit_failed")])
  ]

  predicate BuiltInCategory(category: string) {
    category == "package" || category == "storage" || category == "memory" || category == "systemd"
  }

  /** The event is of this category and signal, and at least a warning. */
  predicate Warns(e: Event, category: string, signal: string) {
    e.category == category && e.signal == signal && e.severity in [Warning, Error, Critical]
  }

  lemma OneCondition(r: Rule, category: string, subject: Option<string>, signal: string, events: seq<Event>,
                     lib: Library)
    requires r.conditions == [BuiltInCondition(category, subject, signal)]
    ensures Triggered(r, events, lib) <==>
            exists e :: e in events && Warns(e, category, signal) && (subject.Some? ==> e.subject == subject.value)
  {
    var c := BuiltInCondition(category, subject, signal);
    BuiltInMatch(category, subject, signal, lib);
    hide Matches, Warns;
    assert c in r.conditions && forall d :: d in r.conditions ==> d == c;
  }

  lemma BuiltInMatch(category: string, subject: Option<string>, signal: string, lib: Library)
    ensures forall e :: Matches(e, BuiltInCondition(category, subject, signal), lib) <==>
                        Warns(e, category, signal) && (subject.Some? ==> e.subject == subject.value)
  {}

  lemma TwoConditions(r: Rule, category: string, signal: string, other: string, events: seq<Event>, lib: Library)
    requires r.logic == Any
    requires r.conditions == [BuiltInCondition(category, None, signal), BuiltInCondition(category, None, other)]
    ensures Triggered(r, events, lib) <==>
            exists e :: e in events && (Warns(e, category, signal) || Warns(e, category, other))
  {
    var c, d := BuiltInCondition(category, None, signal), BuiltInCondition(category, None, other);
    BuiltInMatch(category, None, signal, lib);
    BuiltInMatch(category, None, other, lib);
    hide Matches, Warns;
    assert c in r.conditions && d in r.conditions && forall x :: x in r.conditions ==> x == c || x == d;
  }

  /** Which events raise the built-in findings. */
  lemma BuiltInRulesMean(events: seq<Event>, lib: Library)
    ensures Triggered(BUILT_IN[0], events, lib) <==>
            exists e :: e in events && Warns(e, "package", "pacman.kernel_mismatch") && e.subject == "kernel"
    ensures Triggered(BUILT_IN[1], events, lib) <==>
            exists e :: e in events && Warns(e, "package", "pacman.stale_lock") && e.subject == "pacman_db"
    ensures Triggered(BUILT_IN[2], events, lib) <==>
            exists e :: e in events && (Warns(e, "storage", "space_pressure") || Warns(e, "storage", "inode_pressure"))
    ensures Triggered(BUILT_IN[3], events, lib) <==>
            exists e :: e in events && (Warns(e, "memory", "oom_kill") || Warns(e, "memory", "memory_pressure"))
    ensures Triggered(BUILT_IN[4], events, lib) <==> exists e :: e in events && Warns(e, "systemd", "unit_failed")
  {
    OneCondition(BUILT_IN[0], "package", Some("kernel"), "pacman.kernel_mismatch", events, lib);
    OneCondition(BUILT_IN[1], "package", Some("pacman_db"), "pacman.stale_lock", events, lib);
    TwoConditions(BUILT_IN[2], "storage", "space_pressure", "inode_pressure", events, lib);
    TwoConditions(BUILT_IN[3], "memory", "oom_kill", "memory_pressure", events, lib);
    OneCondition(BUILT_IN[4], "systemd", None, "unit_failed", events, lib);
    hide Triggered, Warns;
  }

  lemma BuiltInConditionsNameCategories(r: Rule, c: Condition)
    requires r in BUILT_IN && c in r.conditions
    ensures c.category.Some? && BuiltInCategory(c.category.value)
  {}

  /** Events of no category the built-in rules name change no built-in finding, whatever other
      events they come with. */
  lemma ForeignCategoriesRaiseNothing(a: seq<Event>, foreign: seq<Event>, b: seq<Event>, lib: Library)
    requires forall e :: e in foreign ==> !BuiltInCategory(e.category)
    ensures Findings(BUILT_IN, a + foreign + b, lib) == Findings(BUILT_IN, a + b, lib)
  {
    forall r | r in BUILT_IN ensures Ignores(r, foreign, lib) { BuiltInIgnores(r, foreign, lib); }
    IgnoredEventsChangeNothing(BUILT_IN, a, foreign, b, lib);
  }

  lemma BuiltInIgnores(r: Rule, foreign: seq<Event>, lib: Library)
    requires r in BUILT_IN && forall e :: e in foreign ==> !BuiltInCategory(e.category)
    ensures Ignores(r, foreign, lib)
  {
    forall c | c in r.conditions ensures !HasMatch(c, foreign, lib) { BuiltInConditionsNameCategories(r, c); }
  }
}
