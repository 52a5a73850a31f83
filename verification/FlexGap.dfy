/** The flex-gap pass of the client build: margins standing in for `gap`, re-emitted whenever a
    selector's resolved state changes, and the cascade of what is emitted. */
module FlexGap {
  import opened CssRules
  import opened Results

  /** What a selector's rules so far resolve to. */
  datatype State = State(display: Option<string>, direction: Option<string>, wrap: Option<string>,
                         rowGap: Option<string>, columnGap: Option<string>)

  const INITIAL: State := State(None, None, None, None, None)

  // ---- values ----

  function DepthAfter(depth: int, c: char): int {
    if c == '(' then depth + 1 else if c == ')' then depth - 1 else depth
  }

  /** The parts of a value from a point with the given nesting depth and pending part on. */
  function Parts(value: string, depth: int, current: string): seq<string> {
    if |value| == 0 then (if current == "" then [] else [current])
    else
      var d := DepthAfter(depth, value[0]);
      if d == 0 && IsSpace(value[0]) then (if current == "" then [] else [current]) + Parts(value[1..], d, "")
      else Parts(value[1..], d, current + [value[0]])
  }

  function Depth(value: string, depth: int): int {
    if |value| == 0 then depth else Depth(value[1..], DepthAfter(depth, value[0]))
  }

  /** Whether white space at nesting depth zero occurs. */
  predicate HasTopSpace(value: string, depth: int) {
    |value| > 0 && ((DepthAfter(depth, value[0]) == 0 && IsSpace(value[0]))
                    || HasTopSpace(value[1..], DepthAfter(depth, value[0])))
  }

  /** One component of a shorthand: `0.5rem`, or `clamp(0.4rem, 1.2vh, 0.75rem)`. */
  predicate IsAtom(s: string) {
    s != "" && Depth(s, 0) == 0 && !HasTopSpace(s, 0)
  }

  predicate AllAtoms(parts: seq<string>) {
    forall i :: 0 <= i < |parts| ==> IsAtom(parts[i])
  }

  function Joined(parts: seq<string>): string {
    if |parts| == 0 then "" else if |parts| == 1 then parts[0] else parts[0] + " " + Joined(parts[1..])
  }

  /** An atom passes through whole. */
  lemma {:induction false} PartsOfAtom(s: string, rest: string, depth: int, current: string)
    requires !HasTopSpace(s, depth)
    ensures Parts(s + rest, depth, current) == Parts(rest, Depth(s, depth), current + s)
  {
    if |s| == 0 {
      assert s + rest == rest && current + s == current;
    } else {
      var d := DepthAfter(depth, s[0]);
      PartsOfAtom(s[1..], rest, d, current + [s[0]]);
      assert (s + rest)[1..] == s[1..] + rest;
      assert current + [s[0]] + s[1..] == current + s;
    }
  }

  /** Splitting undoes joining: parentheses protect white space, nothing is lost or cut. */
  lemma {:induction false} SplitJoined(parts: seq<string>)
    requires AllAtoms(parts)
    ensures Parts(Joined(parts), 0, "") == parts
  {
    if |parts| == 1 {
      PartsOfAtom(parts[0], "", 0, "");
      assert parts[0] + "" == parts[0] && "" + parts[0] == parts[0];
    } else if |parts| > 1 {
      var s, more := parts[0], Joined(parts[1..]);
      SplitJoined(parts[1..]);
      PartsOfAtom(s, " " + more, 0, "");
      assert Joined(parts) == s + (" " + more);
      assert (" " + more)[1..] == more && "" + s == s;
      assert [s] + parts[1..] == parts;
    }
  }

  method SplitTopLevel(value: string) returns (parts: seq<string>)
    ensures parts == Parts(value, 0, "")
  {
    parts := [];
    var depth := 0;
    var current := "";
    for i := 0 to |value|
      invariant parts + Parts(value[i..], depth, current) == Parts(value, 0, "")
    {
      var ch := value[i];
      assert value[i..][1..] == value[i + 1..];
      if ch == '(' {
        depth := depth + 1;
      } else if ch == ')' {
        depth := depth - 1;
      }
      if depth == 0 && IsSpace(ch) {
        if current != "" {
          parts := parts + [current];
          current := "";
        }
        continue;
      }
      current := current + [ch];
    }
    if current != "" {
      parts := parts + [current];
    }
  }

  // ---- resolved state ----

  function Part(parts: seq<string>, i: nat): Option<string> {
    if i < |parts| then Some(parts[i]) else None
  }

  function Longhand(decls: Decls, name: string, before: Option<string>): Option<string> {
    if name in decls then Some(decls[name]) else before
  }

  /** The state after a rule: longhands override the `gap` shorthand of the same rule. */
  function Applied(s: State, decls: Decls): State {
    var parts := if "gap" in decls then Parts(decls["gap"], 0, "") else [];
    var row := if "gap" in decls then Part(parts, 0) else s.rowGap;
    var column := if "gap" in decls then (if |parts| > 1 then Some(parts[1]) else Part(parts, 0)) else s.columnGap;
    State(Longhand(decls, "display", s.display), Longhand(decls, "flex-direction", s.direction),
          Longhand(decls, "flex-wrap", s.wrap), Longhand(decls, "row-gap", row), Longhand(decls, "column-gap", column))
  }

  class FlexState {
    var display: Option<string>
    var direction: Option<string>
    var wrap: Option<string>
    var rowGap: Option<string>
    var columnGap: Option<string>

    function Value(): State
      reads this
    {
      State(display, direction, wrap, rowGap, columnGap)
    }

    constructor ()
      ensures Value() == INITIAL
    {
      display, direction, wrap, rowGap, columnGap := None, None, None, None, None;
    }

    method ApplyDecls(decls: Decls)
      modifies this
      ensures Value() == Applied(old(Value()), decls)
    {
      if "display" in decls {
        display := Some(decls["display"]);
      }
      if "flex-direction" in decls {
        direction := Some(decls["flex-direction"]);
      }
      if "flex-wrap" in decls {
        wrap := Some(decls["flex-wrap"]);
      }
      if "gap" in decls {
        var parts := SplitTopLevel(decls["gap"]);
        rowGap := Part(parts, 0);
        columnGap := if |parts| > 1 then Some(parts[1]) else Part(parts, 0);
      }
      if "row-gap" in decls {
        rowGap := Some(decls["row-gap"]);
      }
      if "column-gap" in decls {
        columnGap := Some(decls["column-gap"]);
      }
    }
  }

  /** A shorthand of one value or of two is the two longhands, the row gap first. */
  lemma GapIsShorthand(s: State, a: string, b: string)
    requires IsAtom(a) && IsAtom(b)
    ensures Applied(s, map["gap" := a]) == Applied(s, map["row-gap" := a, "column-gap" := a])
    ensures Applied(s, map["gap" := a + " " + b]) == Applied(s, map["row-gap" := a, "column-gap" := b])
  {
    hide IsAtom, Parts;
    SplitJoined([a]);
    SplitJoined([a, b]);
    assert Joined([a]) == a && Joined([a, b]) == a + " " + b by { JoinedTwo(a, b); }
  }

  lemma JoinedTwo(a: string, b: string)
    ensures Joined([a]) == a && Joined([a, b]) == a + " " + b
  {
    assert [a, b][1..] == [b];
    assert a + " " + b == a + (" " + b);
  }

  /** The state after a selector's rules in document order. */
  function Folded(rules: seq<Rule>): State {
    if |rules| == 0 then INITIAL else Applied(Folded(rules[..|rules| - 1]), rules[|rules| - 1].decls)
  }

  /** Rule i is the last to declare one of the properties. */
  ghost predicate LastToSet(rules: seq<Rule>, names: set<string>, i: nat) {
    && i < |rules| && (exists p :: p in names && p in rules[i].decls)
    && forall j, p :: i < j < |rules| && p in names ==> p !in rules[j].decls
  }

  ghost predicate NeverSet(rules: seq<Rule>, names: set<string>) {
    forall j, p :: 0 <= j < |rules| && p in names ==> p !in rules[j].decls
  }

  /** Each part of the state is what the last rule that declares it says, and unset where none does. */
  lemma {:induction false} LastRuleDecides(rules: seq<Rule>, i: nat)
    ensures LastToSet(rules, {"display"}, i) ==> Folded(rules).display == Some(rules[i].decls["display"])
    ensures LastToSet(rules, {"flex-direction"}, i) ==>
      Folded(rules).direction == Some(rules[i].decls["flex-direction"])
    ensures LastToSet(rules, {"flex-wrap"}, i) ==> Folded(rules).wrap == Some(rules[i].decls["flex-wrap"])
    ensures NeverSet(rules, {"display"}) ==> Folded(rules).display == None
    ensures NeverSet(rules, {"flex-direction"}) ==> Folded(rules).direction == None
    ensures NeverSet(rules, {"flex-wrap"}) ==> Folded(rules).wrap == None
  {
    if |rules| > 0 {
      hide Parts, Part, LastToSet, NeverSet;
      LastRuleDecides(rules[..|rules| - 1], i);
      OneRuleLess(rules, {"display"}, i);
      OneRuleLess(rules, {"flex-direction"}, i);
      OneRuleLess(rules, {"flex-wrap"}, i);
    }
  }

  /** So are the gaps, by the longhand before the shorthand of the same rule. */
  lemma {:induction false} LastRowGapDecides(rules: seq<Rule>, i: nat)
    ensures LastToSet(rules, {"row-gap", "gap"}, i) ==>
      Folded(rules).rowGap == if "row-gap" in rules[i].decls then Some(rules[i].decls["row-gap"])
                              else Part(Parts(rules[i].decls["gap"], 0, ""), 0)
    ensures NeverSet(rules, {"row-gap", "gap"}) ==> Folded(rules).rowGap == None
  {
    if |rules| > 0 {
      hide Parts, Part, LastToSet, NeverSet;
      LastRowGapDecides(rules[..|rules| - 1], i);
      OneRuleLess(rules, {"row-gap", "gap"}, i);
    }
  }

  lemma {:induction false} LastColumnGapDecides(rules: seq<Rule>, i: nat)
    ensures LastToSet(rules, {"column-gap", "gap"}, i) ==>
      Folded(rules).columnGap == if "column-gap" in rules[i].decls then Some(rules[i].decls["column-gap"])
                                 else var parts := Parts(rules[i].decls["gap"], 0, "");
                                      Part(parts, if |parts| > 1 then 1 else 0)
    ensures NeverSet(rules, {"column-gap", "gap"}) ==> Folded(rules).columnGap == None
  {
    if |rules| > 0 {
      hide Parts, LastToSet, NeverSet;
      LastColumnGapDecides(rules[..|rules| - 1], i);
      OneRuleLess(rules, {"column-gap", "gap"}, i);
    }
  }

  lemma OneRuleLess(rules: seq<Rule>, names: set<string>, i: nat)
    requires |rules| > 0
    ensures var m := |rules| - 1;
            && (LastToSet(rules, names, i) && i < m ==> LastToSet(rules[..m], names, i))
            && (LastToSet(rules, names, i) ==> i <= m)
            && (LastToSet(rules, names, m) ==> exists p :: p in names && p in rules[m].decls)
            && (LastToSet(rules, names, i) && i < m ==> forall p :: p in names ==> p !in rules[m].decls)
            && (NeverSet(rules, names) ==> NeverSet(rules[..m], names) && forall p :: p in names ==> p !in rules[m].decls)
  {
  }

  // ---- margins ----

  predicate StartsWith(s: Option<string>, prefix: string) {
    s.Some? && prefix <= s.value
  }

  predicate Wraps(s: State) {
    StartsWith(s.wrap, "wrap")
  }

  /** The margins standing in for a state's gap; none unless it is a gapped flex box. */
  function GapMargins(s: State): Decls {
    if s.display != Some("flex") && s.display != Some("inline-flex") then map[]
    else if Wraps(s) then
      (if s.columnGap.Some? then map["margin-right" := s.columnGap.value] else map[])
      + (if s.rowGap.Some? then map["margin-bottom" := s.rowGap.value] else map[])
    else if StartsWith(s.direction, "column") then
      if s.rowGap.Some? then map["margin-top" := s.rowGap.value] else map[]
    else
      if s.columnGap.Some? then map["margin-left" := s.columnGap.value] else map[]
  }

  /** The properties there are, in the order they are set. */
  const MARGINS: seq<string> := ["margin-right", "margin-bottom", "margin-top", "margin-left"]

  lemma OnlyMargins(s: State)
    ensures forall p :: p in GapMargins(s) ==> p in MARGINS
  {
    assert MARGINS[0] == "margin-right" && MARGINS[1] == "margin-bottom";
    assert MARGINS[2] == "margin-top" && MARGINS[3] == "margin-left";
  }

  datatype Step = Step(margins: Decls, wraps: bool, atRules: seq<string>)

  /** What is compared to decide whether a rule changed anything. */
  function Fingerprint(s: State): (Decls, bool) {
    (GapMargins(s), Wraps(s))
  }

  /** The steps of a selector: one for the first rule, and one for every rule that changes the
      fingerprint. */
  function Steps(rules: seq<Rule>): seq<Step> {
    if |rules| == 0 then []
    else
      var m := |rules| - 1;
      var s := Folded(rules);
      if m > 0 && Fingerprint(Folded(rules[..m])) == Fingerprint(s) then Steps(rules[..m])
      else Steps(rules[..m]) + [Step(GapMargins(s), Wraps(s), rules[m].atRules)]
  }

  method CollectSteps(rules: seq<Rule>) returns (steps: seq<Step>)
    ensures steps == Steps(rules)
  {
    var state := new FlexState();
    steps := [];
    var previous: Option<(Decls, bool)> := None;
    for i := 0 to |rules|
      invariant fresh(state) && state.Value() == Folded(rules[..i])
      invariant steps == Steps(rules[..i])
      invariant previous == if i == 0 then None else Some(Fingerprint(Folded(rules[..i])))
    {
      assert rules[..i + 1][..i] == rules[..i];
      state.ApplyDecls(rules[i].decls);
      var margins := GapMargins(state.Value());
      var fingerprint := (margins, Wraps(state.Value()));
      if previous == Some(fingerprint) {
        continue;
      }
      previous := Some(fingerprint);
      steps := steps + [Step(margins, Wraps(state.Value()), rules[i].atRules)];
    }
    assert rules[..|rules|] == rules;
  }

  /** Dropping unchanged steps loses nothing: after any number of rules, the last step is the
      resolved state's. */
  lemma {:induction false} LastStep(rules: seq<Rule>)
    requires |rules| > 0
    ensures |Steps(rules)| > 0
    ensures var last := Steps(rules)[|Steps(rules)| - 1];
            last.margins == GapMargins(Folded(rules)) && last.wraps == Wraps(Folded(rules))
  {
    hide GapMargins, Wraps, Applied;
    if |rules| > 1 {
      LastStep(rules[..|rules| - 1]);
    }
  }

  lemma {:induction false} StepsPrefix(rules: seq<Rule>, k: nat)
    requires k <= |rules|
    ensures Steps(rules[..k]) <= Steps(rules)
    decreases |rules| - k
  {
    if k < |rules| {
      StepsPrefix(rules, k + 1);
      assert rules[..k + 1][..k] == rules[..k];
    } else {
      assert rules[..k] == rules;
    }
  }

  // ---- emission ----

  /** `> *` matches every child, `> * + *` every child but the first. */
  datatype Child = EveryChild | LaterChild

  function FormOf(step: Step): Child {
    if step.wraps then EveryChild else LaterChild
  }

  /** An emitted override rule, with the step it belongs to. */
  datatype Override = Override(step: nat, child: Child, values: Decls)

  function AllProps(steps: seq<Step>): set<string> {
    set i, p | 0 <= i < |steps| && p in steps[i].margins :: p
  }

  predicate Uses(steps: seq<Step>, form: Child) {
    exists i :: 0 <= i < |steps| && FormOf(steps[i]) == form
  }

  /** The child forms in use, the wider one first. */
  function AllChildren(steps: seq<Step>): seq<Child> {
    (if Uses(steps, EveryChild) then [EveryChild] else [])
    + (if Uses(steps, LaterChild) then [LaterChild] else [])
  }

  function ValueOf(margins: Decls, prop: string): string {
    if prop in margins then margins[prop] else "0"
  }

  /** A step's rule for one child form: its margins for its own form, zeros for the other, always all
      properties. */
  function Body(step: Step, child: Child, props: set<string>): Decls {
    map p | p in props :: if child == FormOf(step) then ValueOf(step.margins, p) else "0"
  }

  function RuleOf(steps: seq<Step>, i: nat, child: Child): Override
    requires i < |steps|
  {
    Override(i, child, Body(steps[i], child, AllProps(steps)))
  }

  function StepRules(steps: seq<Step>, i: nat, children: seq<Child>): seq<Override>
    requires i < |steps|
  {
    if |children| == 0 then []
    else
      StepRules(steps, i, children[..|children| - 1])
      + [RuleOf(steps, i, children[|children| - 1])]
  }

  function Emit(steps: seq<Step>, n: nat): seq<Override>
    requires n <= |steps|
  {
    if n == 0 then [] else Emit(steps, n - 1) + StepRules(steps, n - 1, AllChildren(steps))
  }

  predicate NeverGapped(steps: seq<Step>) {
    forall i :: 0 <= i < |steps| ==> |steps[i].margins| == 0
  }

  lemma NeverGappedIs(steps: seq<Step>)
    ensures NeverGapped(steps) <==> forall i :: 0 <= i < |steps| ==> steps[i].margins == map[]
  {
  }

  // ---- one selector after another ----

  /** A selector's rules in document order. */
  function RulesFor(rules: seq<Rule>, prelude: string): seq<Rule> {
    if |rules| == 0 then []
    else
      var m := |rules| - 1;
      RulesFor(rules[..m], prelude) + if rules[m].prelude == prelude then [rules[m]] else []
  }

  /** Selectors in the order of their first rule. */
  function Preludes(rules: seq<Rule>): seq<string> {
    if |rules| == 0 then []
    else
      var m := |rules| - 1;
      var before := Preludes(rules[..m]);
      if rules[m].prelude in before then before else before + [rules[m].prelude]
  }

  lemma {:induction false} OnlyItsRules(rules: seq<Rule>, prelude: string)
    requires prelude !in Preludes(rules)
    ensures RulesFor(rules, prelude) == []
  {
    if |rules| > 0 {
      OnlyItsRules(rules[..|rules| - 1], prelude);
    }
  }

  /** A selector's rules are those that have it, in document order. */
  lemma {:induction false} RulesForJoin(a: seq<Rule>, b: seq<Rule>, prelude: string)
    ensures RulesFor(a + b, prelude) == RulesFor(a, prelude) + RulesFor(b, prelude)
    ensures |b| == 1 ==> RulesFor(b, prelude) == if b[0].prelude == prelude then b else []
  {
    hide RulesFor;
    NoRules(prelude);
    if |b| == 0 {
      assert a + b == a;
    } else {
      var m := |b| - 1;
      RulesForJoin(a, b[..m], prelude);
      assert b == b[..m] + [b[m]];
      assert a + b == a + b[..m] + [b[m]];
      LastRule(a + b[..m], b[m], prelude);
      LastRule(b[..m], b[m], prelude);
    }
  }

  lemma NoRules(prelude: string)
    ensures RulesFor([], prelude) == []
  {
  }

  lemma LastRule(rules: seq<Rule>, rule: Rule, prelude: string)
    ensures RulesFor(rules + [rule], prelude)
         == RulesFor(rules, prelude) + if rule.prelude == prelude then [rule] else []
  {
    assert (rules + [rule])[..|rules|] == rules;
  }

  /** Exactly the selectors that rules have are listed. */
  lemma {:induction false} PreludeOfRule(rules: seq<Rule>, prelude: string)
    ensures prelude in Preludes(rules) <==> exists i :: 0 <= i < |rules| && rules[i].prelude == prelude
  {
    if |rules| > 0 {
      var m := |rules| - 1;
      PreludeOfRule(rules[..m], prelude);
      if prelude in Preludes(rules[..m]) {
        var i :| 0 <= i < m && rules[..m][i].prelude == prelude;
        assert rules[i].prelude == prelude;
      }
      if rules[m].prelude != prelude && exists i :: 0 <= i < |rules| && rules[i].prelude == prelude {
        var i :| 0 <= i < |rules| && rules[i].prelude == prelude;
        assert rules[..m][i].prelude == prelude;
      }
    }
  }

  /** Each is listed once. */
  lemma {:induction false} PreludesDistinct(rules: seq<Rule>)
    ensures forall i, j :: 0 <= i < j < |Preludes(rules)| ==> Preludes(rules)[i] != Preludes(rules)[j]
  {
    if |rules| > 0 {
      PreludesDistinct(rules[..|rules| - 1]);
    }
  }

  /** In the order of first occurrence: later rules add selectors at the end. */
  lemma {:induction false} PreludesPrefix(rules: seq<Rule>, k: nat)
    requires k <= |rules|
    ensures Preludes(rules[..k]) <= Preludes(rules)
    decreases |rules| - k
  {
    if k < |rules| {
      PreludesPrefix(rules, k + 1);
      assert rules[..k + 1][..k] == rules[..k];
    } else {
      assert rules[..k] == rules;
    }
  }

  method GroupRules(rules: seq<Rule>) returns (order: seq<string>, groups: map<string, seq<Rule>>)
    ensures order == Preludes(rules)
    ensures forall p :: p in order <==> p in groups
    ensures forall p :: p in groups ==> groups[p] == RulesFor(rules, p)
  {
    order, groups := [], map[];
    for i := 0 to |rules|
      invariant order == Preludes(rules[..i])
      invariant forall p :: p in order <==> p in groups
      invariant forall p :: p in groups ==> groups[p] == RulesFor(rules[..i], p)
    {
      assert rules[..i + 1][..i] == rules[..i];
      var p := rules[i].prelude;
      if p !in groups {
        OnlyItsRules(rules[..i], p);
        order := order + [p];
        groups := groups[p := []];
      }
      groups := groups[p := groups[p] + [rules[i]]];
    }
    assert rules[..|rules|] == rules;
  }

  // ---- the cascade ----

  predicate Matches(child: Child, first: bool) {
    child == EveryChild || !first
  }

  /** The value a child gets for a property: of the rules whose step is active and that match it, all
      of one specificity, the last one's. */
  ghost function Cascade(rules: seq<Override>, active: set<nat>, first: bool, prop: string): Option<string> {
    if |rules| == 0 then None
    else
      var last := rules[|rules| - 1];
      if last.step in active && Matches(last.child, first) && prop in last.values then Some(last.values[prop])
      else Cascade(rules[..|rules| - 1], active, first, prop)
  }

  lemma {:induction false} CascadeConcat(a: seq<Override>, b: seq<Override>, active: set<nat>, first: bool, prop: string)
    ensures Cascade(a + b, active, first, prop)
         == match Cascade(b, active, first, prop)
            case Some(v) => Some(v)
            case None => Cascade(a, active, first, prop)
  {
    if |b| == 0 {
      assert a + b == a;
    } else {
      CascadeConcat(a, b[..|b| - 1], active, first, prop);
      assert (a + b)[..|a + b| - 1] == a + b[..|b| - 1];
    }
  }

  lemma {:induction false} StepRulesStep(steps: seq<Step>, i: nat, children: seq<Child>, k: nat)
    requires i < |steps| && k < |StepRules(steps, i, children)|
    ensures StepRules(steps, i, children)[k].step == i
  {
    if k < |StepRules(steps, i, children)| - 1 {
      StepRulesStep(steps, i, children[..|children| - 1], k);
    }
  }

  lemma {:induction false} Inactive(rules: seq<Override>, active: set<nat>, first: bool, prop: string)
    requires forall k :: 0 <= k < |rules| ==> rules[k].step !in active
    ensures Cascade(rules, active, first, prop) == None
  {
    if |rules| > 0 {
      Inactive(rules[..|rules| - 1], active, first, prop);
    }
  }

  /** What a step, the last active one, gives a child. */
  function Shown(steps: seq<Step>, step: Step, first: bool, prop: string): Option<string> {
    if prop !in AllProps(steps) then None
    else if Uses(steps, LaterChild) && !first then
      Some(if !step.wraps then ValueOf(step.margins, prop) else "0")
    else if Uses(steps, EveryChild) then
      Some(if step.wraps then ValueOf(step.margins, prop) else "0")
    else None
  }

  function Given(steps: seq<Step>, i: nat, first: bool, prop: string): Option<string>
    requires i < |steps|
  {
    Shown(steps, steps[i], first, prop)
  }

  lemma CascadeOne(r: Override, active: set<nat>, first: bool, prop: string)
    ensures Cascade([r], active, first, prop)
         == if r.step in active && Matches(r.child, first) && prop in r.values then Some(r.values[prop]) else None
  {
    assert [r][..0] == [];
  }

  /** What one of a step's rules gives a child. */
  lemma RuleGives(steps: seq<Step>, i: nat, child: Child, active: set<nat>, first: bool, prop: string)
    requires i < |steps| && i in active
    ensures Cascade([RuleOf(steps, i, child)], active, first, prop)
         == if Matches(child, first) && prop in AllProps(steps)
            then Some(if child == FormOf(steps[i]) then ValueOf(steps[i].margins, prop) else "0") else None
  {
    hide AllProps, ValueOf, Matches, FormOf, Cascade;
    CascadeOne(RuleOf(steps, i, child), active, first, prop);
  }

  lemma StepRulesAre(steps: seq<Step>, i: nat)
    requires i < |steps|
    ensures StepRules(steps, i, AllChildren(steps))
         == (if Uses(steps, EveryChild) then [RuleOf(steps, i, EveryChild)] else [])
            + (if Uses(steps, LaterChild) then [RuleOf(steps, i, LaterChild)] else [])
  {
    hide RuleOf, Uses;
    var e, l := [EveryChild], [LaterChild];
    assert e[..0] == [] && l[..0] == [] && (e + l)[..1] == e;
    assert StepRules(steps, i, []) == [];
    assert StepRules(steps, i, e) == [RuleOf(steps, i, EveryChild)];
    assert StepRules(steps, i, l) == [RuleOf(steps, i, LaterChild)];
    assert (e + l)[1] == LaterChild;
    assert StepRules(steps, i, e + l) == [RuleOf(steps, i, EveryChild), RuleOf(steps, i, LaterChild)];
  }

  lemma StepGives(steps: seq<Step>, i: nat, active: set<nat>, first: bool, prop: string)
    requires i < |steps| && i in active
    ensures Cascade(StepRules(steps, i, AllChildren(steps)), active, first, prop) == Given(steps, i, first, prop)
  {
    assert Uses(steps, FormOf(steps[i]));
    hide AllProps, ValueOf, Cascade, Uses, AllChildren, StepRules, RuleOf;
    StepRulesAre(steps, i);
    RuleGives(steps, i, EveryChild, active, first, prop);
    RuleGives(steps, i, LaterChild, active, first, prop);
    if Uses(steps, EveryChild) && Uses(steps, LaterChild) {
      CascadeConcat([RuleOf(steps, i, EveryChild)], [RuleOf(steps, i, LaterChild)], active, first, prop);
    } else if Uses(steps, EveryChild) {
      assert [RuleOf(steps, i, EveryChild)] + [] == [RuleOf(steps, i, EveryChild)];
    } else {
      assert [] + [RuleOf(steps, i, LaterChild)] == [RuleOf(steps, i, LaterChild)];
    }
  }

  /** Whatever subset of the steps is active, the last active one alone decides every child and every
      margin property. */
  lemma {:induction false} LastActiveDecides(steps: seq<Step>, n: nat, active: set<nat>, i: nat, first: bool, prop: string)
    requires i < n <= |steps| && i in active
    requires forall k :: i < k < n ==> k !in active
    ensures Cascade(Emit(steps, n), active, first, prop) == Given(steps, i, first, prop)
  {
    hide Given, AllChildren, StepRules;
    var rules := StepRules(steps, n - 1, AllChildren(steps));
    CascadeConcat(Emit(steps, n - 1), rules, active, first, prop);
    if i == n - 1 {
      StepGives(steps, i, active, first, prop);
      if Given(steps, i, first, prop) == None {
        NothingGiven(steps, n - 1, i, active, first, prop);
      }
    } else {
      forall k | 0 <= k < |rules| ensures rules[k].step !in active {
        StepRulesStep(steps, n - 1, AllChildren(steps), k);
      }
      Inactive(rules, active, first, prop);
      LastActiveDecides(steps, n - 1, active, i, first, prop);
    }
  }

  /** A child or property that one step says nothing about, no step says anything about. */
  lemma {:induction false} NothingGiven(steps: seq<Step>, n: nat, i: nat, active: set<nat>, first: bool, prop: string)
    requires n <= |steps| && i < |steps| && Given(steps, i, first, prop) == None
    ensures Cascade(Emit(steps, n), active, first, prop) == None
  {
    hide AllChildren, StepRules, AllProps, Body;
    if n != 0 {
      NothingGiven(steps, n - 1, i, active, first, prop);
      var rules := StepRules(steps, n - 1, AllChildren(steps));
      CascadeConcat(Emit(steps, n - 1), rules, active, first, prop);
      if n - 1 in active {
        StepGives(steps, n - 1, active, first, prop);
      } else {
        forall k | 0 <= k < |rules| ensures rules[k].step !in active {
          StepRulesStep(steps, n - 1, AllChildren(steps), k);
        }
        Inactive(rules, active, first, prop);
      }
    }
  }

  /** Leaving out a selector that is never gapped leaves out nothing: its overrides would say nothing. */
  lemma NeverGappedSaysNothing(steps: seq<Step>, active: set<nat>, first: bool, prop: string)
    requires NeverGapped(steps)
    ensures Cascade(Emit(steps, |steps|), active, first, prop) == None
  {
    hide Cascade, AllChildren, StepRules;
    if |steps| > 0 {
      assert prop !in AllProps(steps);
      NothingGiven(steps, |steps|, 0, active, first, prop);
    } else {
      NothingEmitted(active, first, prop);
    }
  }

  lemma NothingEmitted(active: set<nat>, first: bool, prop: string)
    ensures Cascade([], active, first, prop) == None
  {
  }

  /** The spacing margins mean a child to have: every child of a wrapping row carries them, otherwise
      every child but the first. */
  function Intended(margins: Decls, wraps: bool, first: bool, prop: string): string {
    if wraps || !first then ValueOf(margins, prop) else "0"
  }

  function OrZero(v: Option<string>): string {
    if v.Some? then v.value else "0"
  }

  // ---- what a gap is ----

  /** A list of rows or columns that breaks into lines. */
  predicate Breaks(s: State) {
    s.wrap.Some? && |s.wrap.value| >= 4 && s.wrap.value[..4] == "wrap"
  }

  /** Children follow each other downwards or upwards. */
  predicate Stacks(s: State) {
    s.direction.Some? && |s.direction.value| >= 6 && s.direction.value[..6] == "column"
  }

  /** The space a container puts between neighbours along an axis: the row gap vertically and the column
      gap horizontally, along the axis of its children, and along both when they break into lines. */
  function Between(s: State, vertical: bool): string {
    var gap := if vertical then s.rowGap else s.columnGap;
    if s.display in {Some("flex"), Some("inline-flex")} && gap.Some? && (Breaks(s) || vertical == Stacks(s))
    then gap.value else "0"
  }

  /** The margin a child carries for it: where children break into lines, each behind itself, and
      otherwise each but the first before itself. */
  function MarginMeant(s: State, first: bool, prop: string): string {
    if Breaks(s) then
      if prop == "margin-right" then Between(s, false) else if prop == "margin-bottom" then Between(s, true) else "0"
    else if first then "0"
    else if prop == "margin-left" then Between(s, false) else if prop == "margin-top" then Between(s, true) else "0"
  }

  /** The margins of a resolved state are those of its gaps. */
  lemma MarginsAreMeant(s: State, first: bool, prop: string)
    ensures Intended(GapMargins(s), Wraps(s), first, prop) == MarginMeant(s, first, prop)
  {
    WrapsIsBreaks(s);
    hide Wraps, Breaks;
  }

  lemma WrapsIsBreaks(s: State)
    ensures Wraps(s) == Breaks(s)
  {
  }

  /** The margin on the side where the next child is, and where the one before is. */
  function Behind(vertical: bool): string {
    if vertical then "margin-bottom" else "margin-right"
  }

  function Before(vertical: bool): string {
    if vertical then "margin-top" else "margin-left"
  }

  /** Children follow each other against the axis. */
  predicate Reversed(s: State, vertical: bool) {
    s.direction == Some(if vertical then "column-reverse" else "row-reverse")
  }

  /** Two margins that meet. */
  function Sum(a: string, b: string): string {
    if a == "0" then b else if b == "0" then a else a + " + " + b
  }

  /** Between two children, the first of all or a later one and the one that follows it, lie the margins
      that face each other. They make the gap, except between the first two children of a reversed row
      or column that does not break: the margin before the second is on its far side. */
  lemma NeighboursApart(s: State, first: bool, vertical: bool)
    ensures var space := if Reversed(s, vertical)
                         then Sum(MarginMeant(s, first, Before(vertical)), MarginMeant(s, false, Behind(vertical)))
                         else Sum(MarginMeant(s, first, Behind(vertical)), MarginMeant(s, false, Before(vertical)));
            space == Between(s, vertical)
            <==> !(Reversed(s, vertical) && !Breaks(s) && first && Between(s, vertical) != "0")
  {
    hide Between, Breaks;
  }

  /** A selector that needs both child forms gives a later child the wrong spacing exactly in its
      wrapping steps, and only for the properties they space: the zeroed narrow rule comes last. */
  lemma GivenAsIntended(steps: seq<Step>, i: nat, first: bool, prop: string)
    requires i < |steps| && prop in AllProps(steps)
    ensures OrZero(Given(steps, i, first, prop)) == Intended(steps[i].margins, steps[i].wraps, first, prop)
       <==> !(Uses(steps, LaterChild) && steps[i].wraps && !first && ValueOf(steps[i].margins, prop) != "0")
  {
    hide AllProps;
    if steps[i].wraps {
      assert FormOf(steps[i]) == EveryChild;
    } else {
      assert FormOf(steps[i]) == LaterChild;
    }
  }

  function FirstSteps(n: nat): (s: set<nat>)
    ensures forall i :: i in s <==> 0 <= i < n
  {
    if n == 0 then {} else FirstSteps(n - 1) + {n - 1}
  }

  /** With the first k rules of any selector in force, a child has the spacing of the state those rules
      resolve to, except exactly for this: the state wraps, another step of the selector does not, the
      child is not the first, and the margin is not zero. */
  lemma SpacingFollowsState(rules: seq<Rule>, k: nat, first: bool, prop: string)
    requires 0 < k <= |rules| && prop in AllProps(Steps(rules))
    ensures var steps := Steps(rules);
            var state := Folded(rules[..k]);
            var active := FirstSteps(|Steps(rules[..k])|);
            OrZero(Cascade(Emit(steps, |steps|), active, first, prop))
            == MarginMeant(state, first, prop)
            <==> !(Uses(steps, LaterChild) && Breaks(state) && !first && MarginMeant(state, first, prop) != "0")
  {
    MarginsAreMeant(Folded(rules[..k]), first, prop);
    WrapsIsBreaks(Folded(rules[..k]));
    hide Breaks, MarginMeant;
    hide AllProps, Given, GapMargins, Wraps, Steps, Folded, Emit, Uses;
    var steps := Steps(rules);
    StepsPrefix(rules, k);
    LastStep(rules[..k]);
    var i := |Steps(rules[..k])| - 1;
    assert steps[i] == Steps(rules[..k])[i];
    LastActiveDecides(steps, |steps|, FirstSteps(i + 1), i, first, prop);
    GivenAsIntended(steps, i, first, prop);
  }

  /** A wrapping row that stops wrapping at a breakpoint. */
  const STOPS_WRAPPING: seq<Rule> :=
    [Rule(".x", map["display" := "flex", "flex-wrap" := "wrap", "column-gap" := "1rem"], []),
     Rule(".x", map["flex-wrap" := "nowrap"], ["@media print"])]

  /** While it wraps, the later children have no spacing. */
  lemma SpacingLostWhileWrapping()
    ensures var steps := Steps(STOPS_WRAPPING);
            var state := Folded(STOPS_WRAPPING[..1]);
            && Cascade(Emit(steps, |steps|), FirstSteps(1), false, "margin-right") == Some("0")
            && MarginMeant(state, false, "margin-right") == "1rem"
  {
    StepsOfWrapping();
    var steps := Steps(STOPS_WRAPPING);
    hide Steps, Folded, Emit, Cascade;
    LastActiveDecides(steps, 2, FirstSteps(1), 0, false, "margin-right");
    assert "margin-right" in steps[0].margins;
    assert FormOf(steps[1]) == LaterChild;
  }

  lemma StepsOfWrapping()
    ensures var state := Folded(STOPS_WRAPPING[..1]);
            && GapMargins(state) == map["margin-right" := "1rem"] && Wraps(state)
            && Steps(STOPS_WRAPPING) == [Step(map["margin-right" := "1rem"], true, []),
                                         Step(map["margin-left" := "1rem"], false, ["@media print"])]
  {
    hide Folded, Steps;
    var r := STOPS_WRAPPING;
    var s1 := State(Some("flex"), None, Some("wrap"), None, Some("1rem"));
    var s2 := State(Some("flex"), None, Some("nowrap"), None, Some("1rem"));
    FoldTwo(r, s1, s2);
    assert "wrap" <= "wrap" && "wrap"[0] != "nowrap"[0];
    assert GapMargins(s1) == map["margin-right" := "1rem"];
    assert GapMargins(s2) == map["margin-left" := "1rem"];
    assert Fingerprint(s1) != Fingerprint(s2);
    StepsTwo(r);
  }

  lemma FoldTwo(r: seq<Rule>, s1: State, s2: State)
    requires |r| >= 2 && Applied(INITIAL, r[0].decls) == s1 && Applied(s1, r[1].decls) == s2
    ensures Folded(r[..1]) == s1 && Folded(r[..2]) == s2
  {
    hide Applied;
    assert r[..1][..0] == [] && r[..2][..1] == r[..1];
    assert Folded([]) == INITIAL;
  }

  lemma StepsTwo(r: seq<Rule>)
    requires |r| >= 2
    ensures var s1, s2 := Folded(r[..1]), Folded(r[..2]);
            && Steps(r[..1]) == [Step(GapMargins(s1), Wraps(s1), r[0].atRules)]
            && Steps(r[..2]) == Steps(r[..1])
                                + if Fingerprint(s1) == Fingerprint(s2) then []
                                  else [Step(GapMargins(s2), Wraps(s2), r[1].atRules)]
    ensures |r| == 2 ==> r[..2] == r
  {
    hide Folded, GapMargins, Wraps;
    assert r[..1][..0] == [] && r[..2][..1] == r[..1];
    assert Steps([]) == [];
  }

  // ---- dropping unchanged steps ----

  /** A step for every rule, as if none were dropped. */
  function EveryStep(rules: seq<Rule>): (steps: seq<Step>)
    ensures |steps| == |rules|
  {
    if |rules| == 0 then []
    else
      var m := |rules| - 1;
      var s := Folded(rules);
      EveryStep(rules[..m]) + [Step(GapMargins(s), Wraps(s), rules[m].atRules)]
  }

  /** The rules whose steps are kept. */
  function Kept(rules: seq<Rule>): (kept: seq<nat>)
    ensures forall i :: 0 <= i < |kept| ==> kept[i] < |rules|
    ensures forall i, k :: 0 <= i < k < |kept| ==> kept[i] < kept[k]
  {
    if |rules| == 0 then []
    else
      var m := |rules| - 1;
      if m > 0 && Fingerprint(Folded(rules[..m])) == Fingerprint(Folded(rules)) then Kept(rules[..m])
      else Kept(rules[..m]) + [m]
  }

  lemma {:induction false} KeptSteps(rules: seq<Rule>)
    ensures |Kept(rules)| == |Steps(rules)|
    ensures forall i :: 0 <= i < |Kept(rules)| ==> Steps(rules)[i] == EveryStep(rules)[Kept(rules)[i]]
  {
    hide Folded, GapMargins, Wraps;
    if |rules| > 0 {
      KeptSteps(rules[..|rules| - 1]);
    }
  }

  lemma {:induction false} KeptPrefix(rules: seq<Rule>, k: nat)
    requires k <= |rules|
    ensures Kept(rules[..k]) <= Kept(rules)
    ensures forall i :: |Kept(rules[..k])| <= i < |Kept(rules)| ==> Kept(rules)[i] >= k
    decreases |rules| - k
  {
    hide Folded, Fingerprint;
    if k < |rules| {
      KeptPrefix(rules, k + 1);
      assert rules[..k + 1][..k] == rules[..k];
    } else {
      assert rules[..k] == rules;
    }
  }

  lemma {:induction false} EveryStepAt(rules: seq<Rule>, j: nat)
    requires j < |rules|
    ensures var s := Folded(rules[..j + 1]);
            EveryStep(rules)[j].margins == GapMargins(s) && EveryStep(rules)[j].wraps == Wraps(s)
    ensures EveryStep(rules)[j].atRules == rules[j].atRules
  {
    hide Folded, GapMargins, Wraps;
    var m := |rules| - 1;
    if j < m {
      EveryStepAt(rules[..m], j);
      assert rules[..m][..j + 1] == rules[..j + 1];
    } else {
      assert rules[..j + 1] == rules;
    }
  }

  /** The step that stands for rule j: its own, or the kept one it repeats. */
  function StepFor(rules: seq<Rule>, j: nat): (i: nat)
    requires j < |rules|
    ensures i < |Steps(rules)|
    ensures Steps(rules)[i].margins == EveryStep(rules)[j].margins
    ensures Steps(rules)[i].wraps == EveryStep(rules)[j].wraps
  {
    StepsPrefix(rules, j + 1);
    LastStep(rules[..j + 1]);
    EveryStepAt(rules, j);
    |Steps(rules[..j + 1])| - 1
  }

  lemma SameForms(rules: seq<Rule>)
    ensures AllProps(EveryStep(rules)) == AllProps(Steps(rules))
    ensures forall form :: Uses(EveryStep(rules), form) <==> Uses(Steps(rules), form)
  {
    hide Steps, EveryStep;
    KeptSteps(rules);
    var steps, every := Steps(rules), EveryStep(rules);
    forall p | p in AllProps(every) ensures p in AllProps(steps) {
      var j :| 0 <= j < |every| && p in every[j].margins;
      assert p in steps[StepFor(rules, j)].margins;
    }
    forall p | p in AllProps(steps) ensures p in AllProps(every) {
      var i :| 0 <= i < |steps| && p in steps[i].margins;
      assert p in every[Kept(rules)[i]].margins;
    }
    forall form ensures Uses(every, form) <==> Uses(steps, form) {
      if Uses(every, form) {
        var j :| 0 <= j < |every| && FormOf(every[j]) == form;
        assert FormOf(steps[StepFor(rules, j)]) == form;
      }
      if Uses(steps, form) {
        var i :| 0 <= i < |steps| && FormOf(steps[i]) == form;
        assert FormOf(every[Kept(rules)[i]]) == form;
      }
    }
  }

  /** The kept steps of the rules in force. */
  ghost function KeptActive(rules: seq<Rule>, active: set<nat>): set<nat> {
    set i | 0 <= i < |Kept(rules)| && Kept(rules)[i] in active
  }

  ghost predicate IsLast(i: nat, active: set<nat>, n: nat) {
    i < n && i in active && forall k :: i < k < n ==> k !in active
  }

  predicate NoMargins(margins: Decls, props: set<string>) {
    forall p :: p in props ==> ValueOf(margins, p) == "0"
  }

  /** Two steps look the same: equal margins, absent ones counting as zero, and equal wrapping unless
      all margins are zero. */
  predicate LooksSame(a: Step, b: Step, props: set<string>) {
    && (forall p :: p in props ==> ValueOf(a.margins, p) == ValueOf(b.margins, p))
    && (a.wraps == b.wraps || NoMargins(a.margins, props))
  }

  /** Whether every child gets the same spacing. */
  ghost predicate SameOutcome(a: seq<Override>, active: set<nat>, b: seq<Override>, active': set<nat>) {
    forall first, prop :: OrZero(Cascade(a, active, first, prop)) == OrZero(Cascade(b, active', first, prop))
  }

  /** What decides for a step's appearance: some child sees its margins. */
  lemma ApartWhenDifferent(steps: seq<Step>, a: Step, b: Step)
    requires Uses(steps, FormOf(a)) && Uses(steps, FormOf(b))
    ensures LooksSame(a, b, AllProps(steps))
       <==> forall first, prop :: OrZero(Shown(steps, a, first, prop)) == OrZero(Shown(steps, b, first, prop))
  {
    hide AllProps, Uses;
    if forall first, prop :: OrZero(Shown(steps, a, first, prop)) == OrZero(Shown(steps, b, first, prop)) {
      forall p | p in AllProps(steps)
        ensures ValueOf(a.margins, p) == ValueOf(b.margins, p)
        ensures a.wraps == b.wraps || ValueOf(a.margins, p) == "0"
      {
        assert OrZero(Shown(steps, a, true, p)) == OrZero(Shown(steps, b, true, p));
        assert OrZero(Shown(steps, a, false, p)) == OrZero(Shown(steps, b, false, p));
      }
    }
  }

  /** Let j be the last rule in force and i the last kept step in force, if there is one. Then emitting
      only the kept steps gives every child the spacing that emitting all of them would give, if and
      only if step i looks like rule j's state, or without a step in force that state has no margins. */
  lemma DroppingAgrees(rules: seq<Rule>, active: set<nat>, j: nat, i: Option<nat>)
    requires IsLast(j, active, |rules|)
    requires match i
             case Some(k) => IsLast(k, KeptActive(rules, active), |Steps(rules)|)
             case None => KeptActive(rules, active) == {}
    ensures var steps, every := Steps(rules), EveryStep(rules);
            SameOutcome(Emit(steps, |steps|), KeptActive(rules, active), Emit(every, |every|), active)
            <==> match i
                 case Some(k) => LooksSame(steps[k], every[j], AllProps(steps))
                 case None => NoMargins(every[j].margins, AllProps(steps))
  {
    hide AllProps, Steps, EveryStep, Emit, Cascade, Given, Uses, Kept;
    var steps, every, kept := Steps(rules), EveryStep(rules), KeptActive(rules, active);
    SameForms(rules);
    UsesOwn(every, j);
    forall first, prop
      ensures Cascade(Emit(every, |every|), active, first, prop) == Shown(steps, every[j], first, prop)
    {
      LastActiveDecides(every, |every|, active, j, first, prop);
      GivenIsShown(every, steps, j, first, prop);
    }
    match i
    case Some(k) =>
      UsesOwn(steps, k);
      forall first, prop
        ensures Cascade(Emit(steps, |steps|), kept, first, prop) == Shown(steps, steps[k], first, prop)
      {
        LastActiveDecides(steps, |steps|, kept, k, first, prop);
        GivenIsShown(steps, steps, k, first, prop);
      }
      ApartWhenDifferent(steps, steps[k], every[j]);
    case None =>
      forall first, prop ensures Cascade(Emit(steps, |steps|), kept, first, prop) == None {
        Inactive(Emit(steps, |steps|), kept, first, prop);
      }
      NothingShown(steps, every[j]);
  }

  lemma UsesOwn(steps: seq<Step>, i: nat)
    requires i < |steps|
    ensures Uses(steps, FormOf(steps[i]))
  {
  }

  lemma GivenIsShown(steps: seq<Step>, other: seq<Step>, i: nat, first: bool, prop: string)
    requires i < |steps| && AllProps(steps) == AllProps(other)
    requires forall form :: Uses(steps, form) <==> Uses(other, form)
    ensures Given(steps, i, first, prop) == Shown(other, steps[i], first, prop)
  {
    hide AllProps, Uses;
  }

  lemma NothingShown(steps: seq<Step>, step: Step)
    requires Uses(steps, FormOf(step))
    ensures NoMargins(step.margins, AllProps(steps))
       <==> forall first, prop :: OrZero(Shown(steps, step, first, prop)) == OrZero(None)
  {
    hide AllProps, Uses;
    if forall first, prop :: OrZero(Shown(steps, step, first, prop)) == OrZero(None) {
      forall p | p in AllProps(steps) ensures ValueOf(step.margins, p) == "0" {
        assert OrZero(Shown(steps, step, true, p)) == "0" && OrZero(Shown(steps, step, false, p)) == "0";
      }
    }
  }

  lemma StepForIsLast(rules: seq<Rule>, active: set<nat>, j: nat)
    requires IsLast(j, active, |rules|) && StepFor(rules, j) < |Kept(rules)|
    requires Kept(rules)[StepFor(rules, j)] in active
    ensures IsLast(StepFor(rules, j), KeptActive(rules, active), |Steps(rules)|)
  {
    hide Steps, Kept, EveryStep;
    KeptSteps(rules);
    KeptSteps(rules[..j + 1]);
    KeptPrefix(rules, j + 1);
  }

  /** So dropping loses nothing as long as, with the last rule in force, the kept rule it repeats is in
      force too; with all earlier rules in force, for instance. */
  lemma DroppingLosesNothing(rules: seq<Rule>, active: set<nat>, j: nat)
    requires IsLast(j, active, |rules|) && StepFor(rules, j) < |Kept(rules)|
    requires Kept(rules)[StepFor(rules, j)] in active
    ensures var steps, every := Steps(rules), EveryStep(rules);
            SameOutcome(Emit(steps, |steps|), KeptActive(rules, active), Emit(every, |every|), active)
  {
    hide AllProps, EveryStep, Emit, SameOutcome, Steps, Kept, StepFor, KeptActive, Uses;
    StepForIsLast(rules, active, j);
    DroppingAgrees(rules, active, j, Some(StepFor(rules, j)));
  }

  /** The gap is taken away at one breakpoint, and again at another. */
  const TAKEN_AWAY_TWICE: seq<Rule> :=
    [Rule(".x", map["display" := "flex", "column-gap" := "1rem"], []),
     Rule(".x", map["column-gap" := "0"], ["@media a"]),
     Rule(".x", map["column-gap" := "0"], ["@media b"])]

  /** With only the second breakpoint in force the row keeps its spacing. */
  lemma SpacingNotTakenAway()
    ensures var steps, every := Steps(TAKEN_AWAY_TWICE), EveryStep(TAKEN_AWAY_TWICE);
            && Cascade(Emit(steps, |steps|), KeptActive(TAKEN_AWAY_TWICE, {0, 2}), false, "margin-left") == Some("1rem")
            && Cascade(Emit(every, |every|), {0, 2}, false, "margin-left") == Some("0")
  {
    var r := TAKEN_AWAY_TWICE;
    var steps, every := Steps(r), EveryStep(r);
    TakenAwaySteps();
    hide Steps, Folded, Emit, Cascade, EveryStep, Kept, KeptActive, AllProps, Uses;
    LastActiveDecides(steps, 2, {0}, 0, false, "margin-left");
    LastActiveDecides(every, 3, {0, 2}, 2, false, "margin-left");
    UsesOwn(steps, 0);
    UsesOwn(every, 2);
    HasProp(steps, 0, "margin-left");
    HasProp(every, 2, "margin-left");
  }

  lemma HasProp(steps: seq<Step>, i: nat, prop: string)
    requires i < |steps| && prop in steps[i].margins
    ensures prop in AllProps(steps)
  {
  }

  lemma TakenAwaySteps()
    ensures var r := TAKEN_AWAY_TWICE;
            && |Steps(r)| == 2 && Steps(r)[0] == Step(map["margin-left" := "1rem"], false, [])
            && |EveryStep(r)| == 3 && EveryStep(r)[2] == Step(map["margin-left" := "0"], false, ["@media b"])
            && KeptActive(r, {0, 2}) == {0}
  {
    var r := TAKEN_AWAY_TWICE;
    var s1 := State(Some("flex"), None, None, None, Some("1rem"));
    var s2 := State(Some("flex"), None, None, None, Some("0"));
    FoldTwo(r, s1, s2);
    assert r[..3] == r && r[..3][..2] == r[..2] && r[..2][..1] == r[..1];
    assert Folded(r) == s2;
    assert GapMargins(s1) == map["margin-left" := "1rem"];
    assert GapMargins(s2) == map["margin-left" := "0"];
    assert GapMargins(s1)["margin-left"] != GapMargins(s2)["margin-left"];
    StepsTwo(r);
    KeptTwo(r);
    assert Steps(r) == Steps(r[..2]);
    assert Kept(r) == [0, 1];
    hide Steps, Folded, EveryStep, Kept;
  }

  lemma KeptTwo(r: seq<Rule>)
    requires |r| >= 2 && Fingerprint(Folded(r[..1])) != Fingerprint(Folded(r[..2]))
    ensures Kept(r[..2]) == [0, 1]
  {
    assert r[..1][..0] == [] && r[..2][..1] == r[..1];
    assert Kept([]) == [];
  }

  // ---- any set of rules in force ----

  /** The state that exactly the rules in force resolve to. */
  function FoldedActive(rules: seq<Rule>, active: set<nat>): State {
    if |rules| == 0 then INITIAL
    else
      var m := |rules| - 1;
      var before := FoldedActive(rules[..m], active);
      if m in active then Applied(before, rules[m].decls) else before
  }

  ghost function AllMargins(): set<string> {
    set p | p in MARGINS
  }

  function StateStep(s: State): Step {
    Step(GapMargins(s), Wraps(s), [])
  }

  /** Whether every child has the spacing a state means. */
  ghost predicate HasSpacing(os: seq<Override>, active: set<nat>, s: State) {
    forall first, prop :: OrZero(Cascade(os, active, first, prop)) == MarginMeant(s, first, prop)
  }

  ghost predicate ShowsSpacing(steps: seq<Step>, step: Option<Step>, s: State) {
    forall first, prop ::
      (if step.Some? then OrZero(Shown(steps, step.value, first, prop)) else "0")
      == MarginMeant(s, first, prop)
  }

  /** A wrapping step of a selector that also has a plain one. */
  predicate Mixed(steps: seq<Step>, step: Step) {
    Uses(steps, LaterChild) && step.wraps
  }

  lemma OnlyKnownMargins(steps: seq<Step>, step: Step, prop: string)
    requires forall p :: p in step.margins ==> p in MARGINS && p in AllProps(steps)
    ensures prop !in MARGINS || prop !in AllProps(steps) ==> ValueOf(step.margins, prop) == "0"
  {
  }

  /** A step gives every child what a state means exactly if it looks like the state, and neither form's
      zeros fall on its margins. */
  lemma ShownAsMeant(steps: seq<Step>, step: Step, s: State)
    requires Uses(steps, FormOf(step))
    requires forall p :: p in step.margins ==> p in MARGINS && p in AllProps(steps)
    ensures ShowsSpacing(steps, Some(step), s)
       <==> LooksSame(step, StateStep(s), AllMargins())
            && (!Mixed(steps, step) || NoMargins(step.margins, AllMargins()))
  {
    hide AllProps, Uses, GapMargins, Wraps, MarginMeant;
    OnlyMargins(s);
    if ShowsSpacing(steps, Some(step), s) {
      forall p | p in AllMargins()
        ensures ValueOf(step.margins, p) == ValueOf(GapMargins(s), p)
        ensures step.wraps == Wraps(s) || ValueOf(step.margins, p) == "0"
        ensures Mixed(steps, step) ==> ValueOf(step.margins, p) == "0"
      {
        OnlyKnownMargins(steps, step, p);
        MarginsAreMeant(s, true, p);
        MarginsAreMeant(s, false, p);
        assert OrZero(Shown(steps, step, true, p)) == MarginMeant(s, true, p);
        assert OrZero(Shown(steps, step, false, p)) == MarginMeant(s, false, p);
      }
    }
    if LooksSame(step, StateStep(s), AllMargins()) && (!Mixed(steps, step) || NoMargins(step.margins, AllMargins())) {
      forall first, prop
        ensures OrZero(Shown(steps, step, first, prop)) == MarginMeant(s, first, prop)
      {
        OnlyKnownMargins(steps, step, prop);
        MarginsAreMeant(s, first, prop);
        assert prop in MARGINS <==> prop in AllMargins();
        assert ValueOf(step.margins, prop) == ValueOf(GapMargins(s), prop);
      }
    }
  }

  lemma NothingMeant(steps: seq<Step>, s: State)
    ensures ShowsSpacing(steps, None, s) <==> Between(s, false) == "0" && Between(s, true) == "0"
  {
    hide Between, Breaks;
    if ShowsSpacing(steps, None, s) {
      assert "0" == MarginMeant(s, false, "margin-right") == MarginMeant(s, false, "margin-left");
      assert "0" == MarginMeant(s, false, "margin-bottom") == MarginMeant(s, false, "margin-top");
    }
  }

  /** With any set of a selector's rules in force, let i be the last kept step in force, if there is one,
      and s the state that exactly these rules resolve to. Every child has the spacing of s if and only
      if step i looks like s and is no wrapping step with margins beside a plain one; without a step in
      force, if and only if s has no margins. */
  lemma SpacingInForce(rules: seq<Rule>, active: set<nat>, i: Option<nat>)
    requires match i
             case Some(k) => IsLast(k, KeptActive(rules, active), |Steps(rules)|)
             case None => KeptActive(rules, active) == {}
    ensures var steps, s := Steps(rules), FoldedActive(rules, active);
            HasSpacing(Emit(steps, |steps|), KeptActive(rules, active), s)
            <==> match i
                 case Some(k) => LooksSame(steps[k], StateStep(s), AllMargins())
                                 && (!Mixed(steps, steps[k]) || NoMargins(steps[k].margins, AllMargins()))
                 case None => Between(s, false) == "0" && Between(s, true) == "0"
  {
    hide AllProps, Steps, Emit, Cascade, Shown, Uses, Kept, FoldedActive, GapMargins, Wraps, LooksSame, AllMargins, Mixed,
      NoMargins, MarginMeant, Between, KeptActive;
    var steps, kept, s := Steps(rules), KeptActive(rules, active), FoldedActive(rules, active);
    match i
    case Some(k) =>
      UsesOwn(steps, k);
      StepMarginsKnown(rules, k);
      forall first, prop
        ensures Cascade(Emit(steps, |steps|), kept, first, prop) == Shown(steps, steps[k], first, prop)
      {
        LastActiveDecides(steps, |steps|, kept, k, first, prop);
      }
      ShownAsMeant(steps, steps[k], s);
    case None =>
      forall first, prop ensures Cascade(Emit(steps, |steps|), kept, first, prop) == None {
        Inactive(Emit(steps, |steps|), kept, first, prop);
      }
      NothingMeant(steps, s);
  }

  lemma StepMarginsKnown(rules: seq<Rule>, k: nat)
    requires k < |Steps(rules)|
    ensures forall p :: p in Steps(rules)[k].margins ==> p in MARGINS && p in AllProps(Steps(rules))
  {
    forall p | p in Steps(rules)[k].margins ensures p in AllProps(Steps(rules)) {
      HasProp(Steps(rules), k, p);
    }
    StepMargins(rules, k);
  }

  lemma {:induction false} StepMargins(rules: seq<Rule>, k: nat)
    requires k < |Steps(rules)|
    ensures forall p :: p in Steps(rules)[k].margins ==> p in MARGINS
  {
    hide GapMargins, Folded, Wraps;
    OnlyMargins(Folded(rules));
    if k < |Steps(rules[..|rules| - 1])| {
      StepMargins(rules[..|rules| - 1], k);
    }
  }

  /** With a prefix of the rules in force the two states are the same. */
  lemma {:induction false} FoldedPrefix(rules: seq<Rule>, active: set<nat>)
    requires forall i :: 0 <= i < |rules| ==> i in active
    ensures FoldedActive(rules, active) == Folded(rules)
  {
    hide Applied;
    if |rules| > 0 {
      FoldedPrefix(rules[..|rules| - 1], active);
    }
  }

  /** One breakpoint turns the row into a grid, another one changes its gap. */
  const GRID_OR_GAP: seq<Rule> :=
    [Rule(".x", map["display" := "flex", "column-gap" := "1rem"], []),
     Rule(".x", map["display" := "grid"], ["@media a"]),
     Rule(".x", map["column-gap" := "2rem"], ["@media b"])]

  /** With only the second breakpoint in force the row keeps the old gap: at its place in the sheet the
      rule changes nothing, because there the row is a grid. */
  lemma GapNotChanged()
    ensures var steps := Steps(GRID_OR_GAP);
            && Cascade(Emit(steps, |steps|), KeptActive(GRID_OR_GAP, {0, 2}), false, "margin-left") == Some("1rem")
            && MarginMeant(FoldedActive(GRID_OR_GAP, {0, 2}), false, "margin-left") == "2rem"
  {
    var steps := Steps(GRID_OR_GAP);
    GridOrGapSteps();
    GridOrGapState();
    MarginsAreMeant(FoldedActive(GRID_OR_GAP, {0, 2}), false, "margin-left");
    hide MarginMeant;
    hide Steps, Folded, FoldedActive, Emit, Cascade, Kept, KeptActive, AllProps, Uses, GapMargins;
    LastActiveDecides(steps, 2, {0}, 0, false, "margin-left");
    UsesOwn(steps, 0);
    HasProp(steps, 0, "margin-left");
  }

  lemma GridOrGapState()
    ensures GapMargins(FoldedActive(GRID_OR_GAP, {0, 2})) == map["margin-left" := "2rem"]
  {
    var r := GRID_OR_GAP;
    var s1 := State(Some("flex"), None, None, None, Some("1rem"));
    var s3 := State(Some("flex"), None, None, None, Some("2rem"));
    assert r[..2][..1] == r[..1] && r[..1][..0] == [];
    assert FoldedActive([], {0, 2}) == INITIAL;
    assert FoldedActive(r[..1], {0, 2}) == s1;
    assert FoldedActive(r[..2], {0, 2}) == s1;
    assert FoldedActive(r, {0, 2}) == s3;
  }

  lemma GridOrGapSteps()
    ensures var r := GRID_OR_GAP;
            && |Steps(r)| == 2 && Steps(r)[0] == Step(map["margin-left" := "1rem"], false, [])
            && KeptActive(r, {0, 2}) == {0}
  {
    var r := GRID_OR_GAP;
    var s1 := State(Some("flex"), None, None, None, Some("1rem"));
    var s2 := State(Some("grid"), None, None, None, Some("1rem"));
    var s3 := State(Some("grid"), None, None, None, Some("2rem"));
    FoldTwo(r, s1, s2);
    assert r[..3] == r && r[..3][..2] == r[..2] && r[..2][..1] == r[..1];
    assert Folded(r) == s3;
    assert GapMargins(s1) == map["margin-left" := "1rem"];
    assert GapMargins(s2) == map[] && GapMargins(s3) == map[];
    assert "margin-left" in GapMargins(s1) && "margin-left" !in GapMargins(s2);
    StepsTwo(r);
    KeptTwo(r);
    assert Steps(r) == Steps(r[..2]);
    assert Kept(r) == [0, 1];
    hide Steps, Folded, Kept;
  }
}
