/** The text of the emitted overrides, and that it says what the overrides mean. */
module FlexGapText {
  import opened CssRules
  import opened FlexGap
  import opened Results
  import opened Sequences

  const CLASS: string := ":root.no-flex-gap "

  function ChildText(child: Child): string {
    if child == EveryChild then "> *" else "> * + *"
  }

  /** How many children the tail of a selector passes over before it matches: `> *` none, and each `+ *`
      one more. */
  function Skips(tail: string): Option<nat> {
    if tail == "> *" then Some(0)
    else if |tail| >= 4 && tail[|tail| - 4..] == " + *" then
      var n :- Skips(tail[..|tail| - 4]);
      Some(n + 1)
    else None
  }

  /** Each form matches the children that the cascade takes it to match. */
  lemma ChildTextMatches(child: Child, k: nat)
    ensures Skips(ChildText(child)).Some?
    ensures Matches(child, k == 0) <==> k >= Skips(ChildText(child)).value
  {
    var later := "> * + *";
    assert later[|later| - 4..] == " + *" && later[..|later| - 4] == "> *";
  }

  function Prefixed(selectors: seq<string>, child: Child): (r: seq<string>)
    ensures |r| == |selectors|
  {
    if |selectors| == 0 then []
    else [CLASS + Trim(selectors[0]) + " " + ChildText(child)] + Prefixed(selectors[1..], child)
  }

  /** Each of the comma-separated selectors, on its own line. */
  function Selector(prelude: string, child: Child): string {
    Join(Prefixed(Split(prelude, ','), child), ",\n")
  }

  function DeclsOf(values: Decls, props: seq<string>): (decls: seq<(string, string)>)
    ensures |decls| == |props|
  {
    if |props| == 0 then [] else [(props[0], ValueOf(values, props[0]))] + DeclsOf(values, props[1..])
  }

  function OverrideText(prelude: string, o: Override, props: seq<string>, atRules: seq<string>): string {
    WrapInAtRules(
      Selector(prelude, o.child) + " {\n" + Join(DeclLines("  ", DeclsOf(o.values, props)), "\n") + "\n}", atRules)
  }

  /** The at-rules of a step. */
  function AtRulesOf(steps: seq<Step>, i: nat): seq<string> {
    if i < |steps| then steps[i].atRules else []
  }

  /** The texts of overrides of the steps. */
  function Texts(prelude: string, os: seq<Override>, props: seq<string>, steps: seq<Step>): (texts: seq<string>)
    ensures |texts| == |os|
  {
    if |os| == 0 then []
    else [OverrideText(prelude, os[0], props, AtRulesOf(steps, os[0].step))] + Texts(prelude, os[1..], props, steps)
  }

  // ---- properties in the order they first occur ----

  function KeysOf(margins: Decls): seq<string> {
    (if "margin-right" in margins then ["margin-right"] else [])
    + (if "margin-bottom" in margins then ["margin-bottom"] else [])
    + (if "margin-top" in margins then ["margin-top"] else [])
    + (if "margin-left" in margins then ["margin-left"] else [])
  }

  function AddNew(props: seq<string>, keys: seq<string>): seq<string>
    decreases |keys|
  {
    if |keys| == 0 then props
    else AddNew(if keys[0] in props then props else props + [keys[0]], keys[1..])
  }

  function Props(steps: seq<Step>): seq<string> {
    if |steps| == 0 then [] else AddNew(Props(steps[..|steps| - 1]), KeysOf(steps[|steps| - 1].margins))
  }

  lemma {:induction false} AddNewContents(props: seq<string>, keys: seq<string>)
    ensures forall p :: p in AddNew(props, keys) <==> p in props || p in keys
    decreases |keys|
  {
    if |keys| > 0 {
      AddNewContents(if keys[0] in props then props else props + [keys[0]], keys[1..]);
      assert keys == [keys[0]] + keys[1..];
    }
  }

  predicate MarginsOnly(steps: seq<Step>) {
    forall i, p :: 0 <= i < |steps| && p in steps[i].margins ==> p in MARGINS
  }

  lemma KeysAre(margins: Decls)
    requires forall p :: p in margins ==> p in MARGINS
    ensures forall p :: p in KeysOf(margins) <==> p in margins
  {
  }

  lemma {:induction false} PropsAreAll(steps: seq<Step>)
    requires MarginsOnly(steps)
    ensures forall p :: p in Props(steps) <==> p in AllProps(steps)
  {
    hide KeysOf;
    if |steps| > 0 {
      var m := |steps| - 1;
      PropsAreAll(steps[..m]);
      KeysAre(steps[m].margins);
      AddNewContents(Props(steps[..m]), KeysOf(steps[m].margins));
      forall p ensures p in AllProps(steps) <==> p in AllProps(steps[..m]) || p in steps[m].margins {
        if p in AllProps(steps) {
          var i :| 0 <= i < |steps| && p in steps[i].margins;
          assert i < m ==> steps[..m][i] == steps[i];
        }
        if p in AllProps(steps[..m]) {
          var i :| 0 <= i < m && p in steps[..m][i].margins;
          assert p in steps[i].margins;
        }
      }
    }
  }

  lemma StepsMargins(rules: seq<Rule>)
    ensures MarginsOnly(Steps(rules))
  {
    hide Steps;
    forall i, p | 0 <= i < |Steps(rules)| && p in Steps(rules)[i].margins ensures p in MARGINS {
      StepMargins(rules, i);
    }
  }

  // ---- emission ----

  /** What the steps of one selector are emitted as; nothing for one that is never a gapped flex box. */
  function OverrideTexts(prelude: string, steps: seq<Step>): seq<string> {
    if NeverGapped(steps) then [] else Texts(prelude, Emit(steps, |steps|), Props(steps), steps)
  }

  lemma {:induction false} TextsConcat(prelude: string, a: seq<Override>, b: seq<Override>, props: seq<string>,
                                       steps: seq<Step>)
    ensures Texts(prelude, a + b, props, steps) == Texts(prelude, a, props, steps) + Texts(prelude, b, props, steps)
  {
    hide OverrideText;
    if |a| == 0 {
      assert a + b == b;
    } else {
      assert (a + b)[1..] == a[1..] + b && (a + b)[0] == a[0];
      TextsConcat(prelude, a[1..], b, props, steps);
    }
  }

  lemma OneTextMore(prelude: string, a: seq<Override>, o: Override, props: seq<string>, steps: seq<Step>)
    ensures Texts(prelude, a + [o], props, steps)
         == Texts(prelude, a, props, steps) + [OverrideText(prelude, o, props, AtRulesOf(steps, o.step))]
  {
    hide OverrideText;
    TextsConcat(prelude, a, [o], props, steps);
  }

  /** One step, for each child form in use. */
  method EmitStep(prelude: string, steps: seq<Step>, i: nat, allChildren: seq<Child>, props: seq<string>)
    returns (out: seq<string>)
    requires i < |steps|
    ensures out == Texts(prelude, StepRules(steps, i, allChildren), props, steps)
  {
    hide AllProps, Body, OverrideText, Texts, RuleOf;
    out := [];
    assert Texts(prelude, [], props, steps) == [] by { NoTexts(prelude, props, steps); }
    for k := 0 to |allChildren|
      invariant out == Texts(prelude, StepRules(steps, i, allChildren[..k]), props, steps)
    {
      assert allChildren[..k + 1][..k] == allChildren[..k];
      var o := RuleOf(steps, i, allChildren[k]);
      StepOf(steps, i, allChildren[k]);
      OneTextMore(prelude, StepRules(steps, i, allChildren[..k]), o, props, steps);
      out := out + [OverrideText(prelude, o, props, steps[i].atRules)];
    }
    assert allChildren[..|allChildren|] == allChildren;
  }

  lemma NoTexts(prelude: string, props: seq<string>, steps: seq<Step>)
    ensures Texts(prelude, [], props, steps) == []
  {
  }

  lemma StepOf(steps: seq<Step>, i: nat, child: Child)
    requires i < |steps|
    ensures RuleOf(steps, i, child).step == i
  {
  }

  method EmitOverrides(prelude: string, rules: seq<Rule>) returns (out: seq<string>)
    ensures out == OverrideTexts(prelude, Steps(rules))
  {
    hide Steps, AllProps, AllChildren, StepRules, Texts, Props;
    var steps := CollectSteps(rules);
    out := [];
    if NeverGapped(steps) {
      return;
    }
    var props := Props(steps);
    var allChildren := AllChildren(steps);
    NoTexts(prelude, props, steps);
    for i := 0 to |steps|
      invariant out == Texts(prelude, Emit(steps, i), props, steps)
    {
      var emitted := EmitStep(prelude, steps, i, allChildren, props);
      TextsConcat(prelude, Emit(steps, i), StepRules(steps, i, allChildren), props, steps);
      out := out + emitted;
    }
  }

  /** The texts for the first n selectors. */
  function Fallbacks(rules: seq<Rule>, n: nat): seq<string>
    requires n <= |Preludes(rules)|
  {
    if n == 0 then []
    else
      var p := Preludes(rules)[n - 1];
      Fallbacks(rules, n - 1) + OverrideTexts(p, Steps(RulesFor(rules, p)))
  }

  /** The whole pass: every selector's rules are read, folded and emitted. */
  method FlexGapFallbacks(css: string) returns (out: seq<string>)
    ensures var rules := RulesOf(css, false); out == Fallbacks(rules, |Preludes(rules)|)
  {
    hide Steps, OverrideTexts, Preludes, RulesFor, RulesOf;
    var rules := ReadRules(css);
    var order, groups := GroupRules(rules);
    out := [];
    for i := 0 to |order|
      invariant out == Fallbacks(rules, i)
    {
      var overrides := EmitOverrides(order[i], groups[order[i]]);
      out := out + overrides;
    }
  }

  // ---- the text of one override ----

  predicate GoodSteps(steps: seq<Step>) {
    forall i :: 0 <= i < |steps| ==> GoodValues(steps[i].margins) && GoodAtRules(steps[i].atRules)
  }

  /** props are the properties of the declarations, in some order. */
  predicate Lists(props: seq<string>, values: Decls) {
    (forall i :: 0 <= i < |props| ==> props[i] in values) && forall p :: p in values ==> p in props
  }

  lemma {:induction false} DeclsGood(values: Decls, props: seq<string>)
    requires GoodValues(values) && forall i :: 0 <= i < |props| ==> props[i] in values
    ensures GoodDecls(DeclsOf(values, props))
  {
    hide GoodDecl;
    if |props| > 0 {
      DeclsGood(values, props[1..]);
    }
  }

  lemma ListedDeclsGood(values: Decls, props: seq<string>)
    requires GoodValues(values) && Lists(props, values)
    ensures GoodDecls(DeclsOf(values, props))
  {
    hide GoodValues, GoodDecls;
    DeclsGood(values, props);
  }

  lemma {:induction false} DeclMapIs(before: Decls, values: Decls, props: seq<string>)
    requires forall i :: 0 <= i < |props| ==> props[i] in values
    ensures var m := DeclMap(before, DeclsOf(values, props));
            forall p :: (p in m <==> p in before || p in props)
                        && (p in m ==> m[p] == if p in props then values[p] else before[p])
    decreases |props|
  {
    if |props| > 0 {
      var decls := DeclsOf(values, props);
      assert decls[1..] == DeclsOf(values, props[1..]);
      DeclMapIs(before[props[0] := values[props[0]]], values, props[1..]);
    }
  }

  /** The declarations printed are the override's values. */
  lemma DeclMapOf(values: Decls, props: seq<string>)
    requires Lists(props, values)
    ensures DeclMap(map[], DeclsOf(values, props)) == values
  {
    DeclMapIs(map[], values, props);
  }

  /** The lines of a selector list. */
  function WithCommas(selectors: seq<string>): seq<string> {
    if |selectors| <= 1 then selectors else [selectors[0] + ","] + WithCommas(selectors[1..])
  }

  lemma {:induction false} JoinWithCommas(selectors: seq<string>)
    ensures |WithCommas(selectors)| == |selectors|
    ensures Join(WithCommas(selectors), "\n") == Join(selectors, ",\n")
  {
    if |selectors| > 1 {
      JoinWithCommas(selectors[1..]);
      var rest := Join(selectors[1..], ",\n");
      assert selectors[0] + "," + "\n" + rest == selectors[0] + ",\n" + rest;
    }
  }

  function SelectorLines(prelude: string, child: Child): (lines: seq<string>)
    ensures |lines| > 0
  {
    JoinWithCommas(Prefixed(Split(prelude, ','), child));
    WithCommas(Prefixed(Split(prelude, ','), child))
  }

  predicate GoodSelector(s: string) {
    Solid(s) && OneLine(s) && !IsAt(s)
  }

  lemma SelectorIsGood(selector: string, child: Child)
    requires OneLine(selector)
    ensures GoodSelector(CLASS + Trim(selector) + " " + ChildText(child))
  {
    hide IsSpace, Trim;
    NotSpaces();
    TrimGood(selector);
    var before, middle, after := CLASS, Trim(selector), " " + ChildText(child);
    var s := before + middle + after;
    assert s == CLASS + Trim(selector) + " " + ChildText(child);
    assert s[0] == ':' && s[|s| - 1] == after[|after| - 1] == '*';
    assert '\n' !in before && '\n' !in after && '\n' !in middle;
  }

  lemma NotSpaces()
    ensures !IsSpace(':') && !IsSpace('*') && !IsSpace(',') && IsSpace('\n')
  {
  }

  lemma {:induction false} PrefixedGood(selectors: seq<string>, child: Child)
    requires AllOneLine(selectors)
    ensures forall i :: 0 <= i < |selectors| ==> GoodSelector(Prefixed(selectors, child)[i])
  {
    hide GoodSelector, OneLine;
    if |selectors| > 0 {
      SelectorIsGood(selectors[0], child);
      PrefixedGood(selectors[1..], child);
    }
  }

  lemma CommaGood(s: string)
    requires GoodSelector(s)
    ensures GoodSelector(s + ",") && EndsWith(s + ",", ',')
  {
    hide IsSpace;
    NotSpaces();
    var t := s + ",";
    assert t[0] == s[0] && t[|t| - 1] == ',';
    assert '\n' !in s && '\n' !in ",";
  }

  lemma {:induction false} WithCommasGood(selectors: seq<string>)
    requires |selectors| > 0 && forall i :: 0 <= i < |selectors| ==> GoodSelector(selectors[i])
    ensures GoodPrelude(WithCommas(selectors))
  {
    hide Solid, OneLine, IsAt, EndsWith;
    if |selectors| > 1 {
      CommaGood(selectors[0]);
      WithCommasGood(selectors[1..]);
    }
  }

  lemma {:induction false} SplitOneLine(s: string, sep: char)
    requires OneLine(s)
    ensures AllOneLine(Split(s, sep))
  {
    if |s| > 0 {
      SplitOneLine(s[1..], sep);
    }
  }

  lemma SelectorLinesGood(prelude: string, child: Child)
    requires OneLine(prelude)
    ensures GoodPrelude(SelectorLines(prelude, child))
    ensures Seen(SelectorLines(prelude, child), true) == Selector(prelude, child)
  {
    hide GoodSelector, OneLine, GoodPrelude;
    var selectors := Split(prelude, ',');
    SplitOneLine(prelude, ',');
    PrefixedGood(selectors, child);
    WithCommasGood(Prefixed(selectors, child));
    JoinWithCommas(Prefixed(selectors, child));
  }

  lemma {:induction false} OpeningText(lines: seq<string>)
    requires |lines| > 0
    ensures |PreludeLines("", lines)| > 0
    ensures Join(PreludeLines("", lines), "\n") == Join(lines, "\n") + " {"
  {
    NoPad(lines[0]);
    if |lines| > 1 {
      OpeningText(lines[1..]);
      var rest := Join(lines[1..], "\n");
      var more := PreludeLines("", lines[1..]);
      assert ([lines[0]] + more)[1..] == more;
      assert lines[0] + "\n" + (rest + " {") == lines[0] + "\n" + rest + " {";
    }
  }

  /** The text of an override is a printed style rule. */
  lemma PlainText(lines: seq<string>, decls: seq<(string, string)>)
    requires |lines| > 0 && |decls| > 0
    ensures Join(lines, "\n") + " {\n" + Join(DeclLines("  ", decls), "\n") + "\n}" == Text(Style(lines, decls, End))
  {
    var open, inside := PreludeLines("", lines), DeclLines("  ", decls);
    OpeningText(lines);
    assert "" + "  " == "  " && "" + "}" == "}";
    assert Printed(Style(lines, decls, End), "") == open + inside + ["}"];
    JoinConcat(open + inside, ["}"], "\n");
    JoinConcat(open, inside, "\n");
    hide Join;
    JoinOne("}", "\n");
    assert " {" + "\n" == " {\n" && "\n" + "}" == "\n}";
    Regrouped(Join(lines, "\n"), " {", "\n", Join(inside, "\n"), "\n", "}");
  }

  lemma {:induction false} GoodNested(atRules: seq<string>, prelude: seq<string>, decls: seq<(string, string)>, rest: Sheet)
    requires GoodAtRules(atRules) && GoodPrelude(prelude) && GoodDecls(decls) && Good(rest)
    ensures Good(Nested(atRules, prelude, decls, rest))
  {
    hide Solid, OneLine, IsAt, GoodDecls, GoodPrelude;
    if |atRules| > 0 {
      assert GoodAtRule(atRules[0]);
      GoodNested(atRules[1..], prelude, decls, End);
    }
  }

  lemma OneText(prelude: string, o: Override, props: seq<string>, atRules: seq<string>)
    requires OneLine(prelude) && |props| > 0 && Lists(props, o.values) && GoodValues(o.values)
    requires GoodAtRules(atRules)
    ensures OverrideText(prelude, o, props, atRules)
         == Text(Nested(atRules, SelectorLines(prelude, o.child), DeclsOf(o.values, props), End))
  {
    hide GoodValues, GoodAtRules, Solid, OneLine, IsAt, GoodDecls, GoodPrelude, Selector, SelectorLines, WrapInAtRules,
      Text;
    var lines, decls := SelectorLines(prelude, o.child), DeclsOf(o.values, props);
    DeclsGood(o.values, props);
    SelectorLinesGood(prelude, o.child);
    GoodNested(atRules, lines, decls, End);
    PlainText(lines, decls);
    WrapIsNested(atRules, lines, decls);
  }

  // ---- all overrides of a selector ----

  predicate Printable(os: seq<Override>, props: seq<string>) {
    && (forall k :: 0 <= k < |os| ==> Lists(props, os[k].values) && GoodValues(os[k].values))
    && (|os| > 0 ==> |props| > 0)
  }

  lemma PrintableTail(os: seq<Override>, props: seq<string>)
    requires Printable(os, props) && |os| > 0
    ensures Lists(props, os[0].values) && GoodValues(os[0].values) && |props| > 0
    ensures Printable(os[1..], props)
  {
    hide Lists, GoodValues;
  }

  lemma StepGood(steps: seq<Step>, i: nat)
    requires GoodSteps(steps)
    ensures GoodAtRules(AtRulesOf(steps, i))
  {
  }

  /** The rules the overrides stand for: selector, values, and the at-rules of their step. */
  function Meant(prelude: string, os: seq<Override>, steps: seq<Step>): seq<Rule>
  {
    if |os| == 0 then []
    else
      var atRules := if os[0].step < |steps| then steps[os[0].step].atRules else [];
      [Rule(Selector(prelude, os[0].child), os[0].values, atRules)] + Meant(prelude, os[1..], steps)
  }

  function SheetOf(prelude: string, os: seq<Override>, props: seq<string>, steps: seq<Step>, rest: Sheet): Sheet
  {
    if |os| == 0 then rest
    else
      Nested(AtRulesOf(steps, os[0].step), SelectorLines(prelude, os[0].child), DeclsOf(os[0].values, props),
             SheetOf(prelude, os[1..], props, steps, rest))
  }

  lemma {:induction false} GoodSheet(prelude: string, os: seq<Override>, props: seq<string>, steps: seq<Step>, rest: Sheet)
    requires OneLine(prelude) && Printable(os, props) && GoodSteps(steps) && Good(rest)
    ensures Good(SheetOf(prelude, os, props, steps, rest))
    ensures Flat(true, SheetOf(prelude, os, props, steps, rest), [])
         == Meant(prelude, os, steps) + Flat(true, rest, [])
    decreases |os|
  {
    hide GoodValues, GoodAtRules, OneLine, GoodDecls, GoodPrelude, Selector, SelectorLines, Seen, Nested, Lists,
      GoodSteps, Printable, SheetOf, Meant, Flat, Good, DeclMap, DeclsOf, AtRulesOf;
    SheetUnfolds(prelude, os, props, steps, rest);
    if |os| > 0 {
      PrintableTail(os, props);
      StepGood(steps, os[0].step);
      var lines, decls := SelectorLines(prelude, os[0].child), DeclsOf(os[0].values, props);
      var atRules, more := AtRulesOf(steps, os[0].step), SheetOf(prelude, os[1..], props, steps, rest);
      GoodSheet(prelude, os[1..], props, steps, rest);
      ListedDeclsGood(os[0].values, props);
      SelectorLinesGood(prelude, os[0].child);
      GoodNested(atRules, lines, decls, more);
      FlatNested(true, atRules, lines, decls, more, []);
      DeclMapOf(os[0].values, props);
      assert [] + atRules == atRules;
      var rule := Rule(Selector(prelude, os[0].child), os[0].values, atRules);
      Associative([rule], Meant(prelude, os[1..], steps), Flat(true, rest, []));
    }
  }

  lemma SheetUnfolds(prelude: string, os: seq<Override>, props: seq<string>, steps: seq<Step>, rest: Sheet)
    ensures |os| == 0 ==> SheetOf(prelude, os, props, steps, rest) == rest
    ensures |os| == 0 ==> Meant(prelude, os, steps) == []
    ensures |os| > 0 ==>
      var atRules := AtRulesOf(steps, os[0].step);
      && SheetOf(prelude, os, props, steps, rest)
         == Nested(atRules, SelectorLines(prelude, os[0].child), DeclsOf(os[0].values, props),
                   SheetOf(prelude, os[1..], props, steps, rest))
      && Meant(prelude, os, steps)
         == [Rule(Selector(prelude, os[0].child), os[0].values, atRules)] + Meant(prelude, os[1..], steps)
  {
    hide Nested, SelectorLines, DeclsOf, Selector;
  }

  lemma {:induction false} NestedThen(atRules: seq<string>, prelude: seq<string>, decls: seq<(string, string)>, rest: Sheet)
    ensures Nested(atRules, prelude, decls, End) != End
    ensures Printed(Nested(atRules, prelude, decls, rest), "")
         == Printed(Nested(atRules, prelude, decls, End), "") + Printed(rest, "")
  {
  }

  /** Texts joined to what follows them. */
  lemma {:induction false} TextsJoined(prelude: string, os: seq<Override>, props: seq<string>, steps: seq<Step>,
                                       more: seq<string>, rest: Sheet)
    requires OneLine(prelude) && Printable(os, props) && GoodSteps(steps)
    requires Join(more, "\n") == Text(rest) && (|more| == 0 <==> rest == End)
    ensures Join(Texts(prelude, os, props, steps) + more, "\n") == Text(SheetOf(prelude, os, props, steps, rest))
    ensures |Texts(prelude, os, props, steps) + more| == 0 <==> SheetOf(prelude, os, props, steps, rest) == End
    decreases |os|
  {
    hide GoodValues, GoodAtRules, OneLine, Selector, SelectorLines, OverrideText, Lists, Nested, Printed, GoodSteps,
      Printable, Join, Text, Texts, SheetOf;
    if |os| == 0 {
      NoTexts(prelude, props, steps);
      assert SheetOf(prelude, os, props, steps, rest) == rest by { NoSheet(prelude, props, steps, rest); }
      assert [] + more == more;
    } else {
      FirstText(prelude, os, props, steps, rest);
      PrintableTail(os, props);
      StepGood(steps, os[0].step);
      var atRules := AtRulesOf(steps, os[0].step);
      var lines, decls := SelectorLines(prelude, os[0].child), DeclsOf(os[0].values, props);
      var below := SheetOf(prelude, os[1..], props, steps, rest);
      var tail := Texts(prelude, os[1..], props, steps) + more;
      OneText(prelude, os[0], props, atRules);
      TextsJoined(prelude, os[1..], props, steps, more, rest);
      NestedThen(atRules, lines, decls, below);
      NestedSome(atRules, lines, decls, below);
      var head := OverrideText(prelude, os[0], props, atRules);
      assert Texts(prelude, os, props, steps) + more == [head] + tail;
      JoinTwo(head, tail, Nested(atRules, lines, decls, End), below, Nested(atRules, lines, decls, below));
    }
  }

  lemma NoSheet(prelude: string, props: seq<string>, steps: seq<Step>, rest: Sheet)
    ensures SheetOf(prelude, [], props, steps, rest) == rest
  {
  }

  lemma FirstText(prelude: string, os: seq<Override>, props: seq<string>, steps: seq<Step>, rest: Sheet)
    requires |os| > 0
    ensures Texts(prelude, os, props, steps)
         == [OverrideText(prelude, os[0], props, AtRulesOf(steps, os[0].step))] + Texts(prelude, os[1..], props, steps)
    ensures SheetOf(prelude, os, props, steps, rest)
         == Nested(AtRulesOf(steps, os[0].step), SelectorLines(prelude, os[0].child), DeclsOf(os[0].values, props),
                   SheetOf(prelude, os[1..], props, steps, rest))
  {
  }

  lemma NestedSome(atRules: seq<string>, prelude: seq<string>, decls: seq<(string, string)>, rest: Sheet)
    ensures Nested(atRules, prelude, decls, rest) != End
  {
  }

  lemma JoinTwo(head: string, tail: seq<string>, first: Sheet, below: Sheet, all: Sheet)
    requires head == Text(first) && Join(tail, "\n") == Text(below) && first != End
    requires |tail| == 0 <==> below == End
    requires Printed(all, "") == Printed(first, "") + Printed(below, "")
    ensures Join([head] + tail, "\n") == Text(all)
  {
    PrintedSome(first, "");
    if |tail| == 0 {
      assert [head] + tail == [head];
      assert Printed(first, "") + [] == Printed(first, "");
    } else {
      PrintedSome(below, "");
      JoinConcat(Printed(first, ""), Printed(below, ""), "\n");
      JoinConcat([head], tail, "\n");
    }
  }

  // ---- everything a selector emits ----

  /** A name some good step declares is good with the value 0 too. */
  lemma ZeroIsGood(name: string, value: string)
    requires GoodDecl((name, value))
    ensures GoodDecl((name, "0"))
  {
  }

  lemma BodyPrintable(steps: seq<Step>, i: nat, child: Child, props: seq<string>)
    requires i < |steps| && GoodSteps(steps)
    requires forall p :: p in props <==> p in AllProps(steps)
    ensures var values := RuleOf(steps, i, child).values;
            Lists(props, values) && GoodValues(values)
  {
    hide GoodDecl, GoodAtRules;
    var values := RuleOf(steps, i, child).values;
    forall p | p in values ensures GoodDecl((p, values[p])) {
      var j :| 0 <= j < |steps| && p in steps[j].margins;
      assert GoodValues(steps[j].margins) && GoodValues(steps[i].margins);
      ZeroIsGood(p, steps[j].margins[p]);
    }
  }

  lemma {:induction false} EmitPrintable(steps: seq<Step>, n: nat, props: seq<string>)
    requires n <= |steps| && GoodSteps(steps) && |props| > 0
    requires forall p :: p in props <==> p in AllProps(steps)
    ensures Printable(Emit(steps, n), props)
  {
    hide GoodSteps, GoodValues, Lists, AllProps, RuleOf, Uses, StepRules, AllChildren;
    if n > 0 {
      EmitPrintable(steps, n - 1, props);
      StepRulesAre(steps, n - 1);
      BodyPrintable(steps, n - 1, EveryChild, props);
      BodyPrintable(steps, n - 1, LaterChild, props);
      StepOf(steps, n - 1, EveryChild);
      StepOf(steps, n - 1, LaterChild);
    }
  }

  lemma SomeProps(steps: seq<Step>)
    requires MarginsOnly(steps) && !NeverGapped(steps)
    ensures |Props(steps)| > 0
  {
    PropsAreAll(steps);
    var i :| 0 <= i < |steps| && |steps[i].margins| > 0;
    var p :| p in steps[i].margins;
    assert p in AllProps(steps);
    assert p in Props(steps);
  }

  // ---- any text whatever ----

  /** A state whose gaps can be printed. */
  predicate GoodGaps(s: State) {
    (s.rowGap.Some? ==> GoodText(s.rowGap.value)) && (s.columnGap.Some? ==> GoodText(s.columnGap.value))
  }

  predicate EndsSolid(s: string) {
    |s| > 0 && !IsSpace(s[|s| - 1])
  }

  /** The parts of a trimmed value are trimmed. */
  lemma {:induction false} PartsGood(value: string, depth: int, current: string)
    requires OneLine(value) && OneLine(current)
    requires if value == "" then current == "" || EndsSolid(current) else EndsSolid(value)
    requires current == "" ==> depth == 0
    requires current != "" ==> !IsSpace(current[0]) && (depth == 0 ==> EndsSolid(current))
    ensures forall i :: 0 <= i < |Parts(value, depth, current)| ==> GoodText(Parts(value, depth, current)[i])
    decreases |value|
  {
    hide IsSpace;
    ParensAreSolid();
    if |value| > 0 {
      var c := value[0];
      var d := DepthAfter(depth, c);
      if d == 0 && IsSpace(c) {
        PartsGood(value[1..], d, "");
      } else {
        PartsGood(value[1..], d, current + [c]);
      }
    }
  }

  lemma ParensAreSolid()
    ensures !IsSpace('(') && !IsSpace(')')
  {
  }

  lemma AppliedGood(s: State, decls: Decls)
    requires GoodGaps(s) && GoodValues(decls)
    ensures GoodGaps(Applied(s, decls))
  {
    hide GoodText, Parts;
    forall name | name in decls ensures GoodText(decls[name]) {
      ValueGood(name, decls[name]);
    }
    if "gap" in decls {
      GapPartsGood(decls["gap"]);
    }
  }

  lemma ValueGood(name: string, value: string)
    requires GoodDecl((name, value))
    ensures GoodText(value)
  {
  }

  lemma GapPartsGood(value: string)
    requires GoodText(value)
    ensures forall i :: 0 <= i < |Parts(value, 0, "")| ==> GoodText(Parts(value, 0, "")[i])
  {
    hide IsSpace;
    PartsGood(value, 0, "");
  }

  lemma {:induction false} FoldedGood(rules: seq<Rule>)
    requires GoodRules(rules)
    ensures GoodGaps(Folded(rules))
  {
    hide GoodText, Applied, GoodValues;
    if |rules| > 0 {
      FoldedGood(rules[..|rules| - 1]);
      assert GoodRule(rules[|rules| - 1]);
      AppliedGood(Folded(rules[..|rules| - 1]), rules[|rules| - 1].decls);
    }
  }

  lemma MarginNamesGood(name: string, value: string)
    requires name in MARGINS && GoodText(value)
    ensures GoodDecl((name, value))
  {
  }

  lemma MarginsGood(s: State)
    requires GoodGaps(s)
    ensures GoodValues(GapMargins(s))
  {
    hide GoodText, GoodDecl;
    OnlyMargins(s);
    forall p | p in GapMargins(s) ensures GoodDecl((p, GapMargins(s)[p])) {
      MarginNamesGood(p, GapMargins(s)[p]);
    }
  }

  /** Whatever the style sheet, a selector's steps can be printed. */
  lemma {:induction false} StepsGood(rules: seq<Rule>)
    requires GoodRules(rules)
    ensures GoodSteps(Steps(rules))
  {
    hide GapMargins, Folded, Wraps, GoodValues, GoodAtRules;
    if |rules| > 0 {
      StepsGood(rules[..|rules| - 1]);
      FoldedGood(rules);
      MarginsGood(Folded(rules));
      assert GoodRule(rules[|rules| - 1]);
    }
  }

  lemma {:induction false} RulesForGood(rules: seq<Rule>, prelude: string)
    requires GoodRules(rules)
    ensures GoodRules(RulesFor(rules, prelude))
  {
    hide GoodRule;
    if |rules| > 0 {
      RulesForGood(rules[..|rules| - 1], prelude);
    }
  }

  lemma {:induction false} PreludesGood(rules: seq<Rule>)
    requires GoodRules(rules)
    ensures forall i :: 0 <= i < |Preludes(rules)| ==> OneLine(Preludes(rules)[i])
  {
    if |rules| > 0 {
      PreludesGood(rules[..|rules| - 1]);
      assert GoodRule(rules[|rules| - 1]);
    }
  }

  // ---- the whole pass ----

  /** The rules the emitted texts of the first n selectors stand for. */
  function MeantBy(rules: seq<Rule>, n: nat): seq<Rule>
    requires n <= |Preludes(rules)|
  {
    if n == 0 then []
    else
      var p := Preludes(rules)[n - 1];
      MeantBy(rules, n - 1) + MeantFor(p, Steps(RulesFor(rules, p)))
  }

  /** The overrides meant for one selector: none when it never has a gap. */
  function MeantFor(prelude: string, steps: seq<Step>): seq<Rule> {
    if forall i :: 0 <= i < |steps| ==> steps[i].margins == map[] then []
    else Meant(prelude, Emit(steps, |steps|), steps)
  }

  lemma SelectorReads(prelude: string, rules: seq<Rule>, more: seq<string>, rest: Sheet) returns (all: Sheet)
    requires OneLine(prelude) && GoodRules(rules) && Good(rest)
    requires Join(more, "\n") == Text(rest) && (|more| == 0 <==> rest == End)
    ensures var steps := Steps(rules);
            var texts := OverrideTexts(prelude, steps) + more;
            && Good(all) && Join(texts, "\n") == Text(all) && (|texts| == 0 <==> all == End)
            && Flat(true, all, []) == MeantFor(prelude, steps) + Flat(true, rest, [])
  {
    hide OneLine, GoodRules, Steps, Texts, Meant, SheetOf, Emit, NeverGapped, GoodSteps, MarginsOnly, Props, AllProps,
      Flat, Text, Good;
    var steps := Steps(rules);
    NeverGappedIs(steps);
    if NeverGapped(steps) {
      all := rest;
      assert [] + more == more;
      assert [] + Flat(true, rest, []) == Flat(true, rest, []);
    } else {
      StepsGood(rules);
      StepsMargins(rules);
      PropsAreAll(steps);
      SomeProps(steps);
      EmitPrintable(steps, |steps|, Props(steps));
      var os, props := Emit(steps, |steps|), Props(steps);
      GoodSheet(prelude, os, props, steps, rest);
      TextsJoined(prelude, os, props, steps, more, rest);
      all := SheetOf(prelude, os, props, steps, rest);
    }
  }

  lemma {:induction false} AllReads(rules: seq<Rule>, n: nat, more: seq<string>, rest: Sheet) returns (all: Sheet)
    requires n <= |Preludes(rules)| && GoodRules(rules) && Good(rest)
    requires Join(more, "\n") == Text(rest) && (|more| == 0 <==> rest == End)
    ensures var texts := Fallbacks(rules, n) + more;
            && Good(all) && Join(texts, "\n") == Text(all)
            && Flat(true, all, []) == MeantBy(rules, n) + Flat(true, rest, [])
    decreases n
  {
    hide OneLine, GoodRules, Steps, OverrideTexts, Fallbacks, MeantFor, MeantBy, Flat, Text, Good, Preludes, RulesFor;
    FallbacksUnfold(rules, n);
    if n == 0 {
      all := rest;
      assert [] + more == more;
      assert [] + Flat(true, rest, []) == Flat(true, rest, []);
    } else {
      var p := Preludes(rules)[n - 1];
      var steps := Steps(RulesFor(rules, p));
      PreludesGood(rules);
      RulesForGood(rules, p);
      var below := SelectorReads(p, RulesFor(rules, p), more, rest);
      all := AllReads(rules, n - 1, OverrideTexts(p, steps) + more, below);
      Associative(Fallbacks(rules, n - 1), OverrideTexts(p, steps), more);
      Associative(MeantBy(rules, n - 1), MeantFor(p, steps), Flat(true, rest, []));
    }
  }

  lemma FallbacksUnfold(rules: seq<Rule>, n: nat)
    requires n <= |Preludes(rules)|
    ensures n == 0 ==> Fallbacks(rules, n) == [] && MeantBy(rules, n) == []
    ensures n > 0 ==>
      var p := Preludes(rules)[n - 1];
      && Fallbacks(rules, n) == Fallbacks(rules, n - 1) + OverrideTexts(p, Steps(RulesFor(rules, p)))
      && MeantBy(rules, n) == MeantBy(rules, n - 1) + MeantFor(p, Steps(RulesFor(rules, p)))
  {
    hide OverrideTexts, MeantFor, Steps, Preludes, RulesFor;
  }

  /** For every style sheet: reading what the pass emits gives, selector by selector and step by step,
      every override with its selector list, its values, and the at-rules of the rule it stands for. */
  lemma FallbacksReadBack(css: string)
    ensures var rules := RulesOf(css, false);
            var n := |Preludes(rules)|;
            RulesOf(Join(Fallbacks(rules, n), "\n"), true) == MeantBy(rules, n)
  {
    hide RulesOf, Preludes, Fallbacks, MeantBy, Flat, GoodRules;
    var rules := RulesOf(css, false);
    var n := |Preludes(rules)|;
    RulesAreGood(css);
    NothingPrinted();
    var all := AllReads(rules, n, [], End);
    assert Fallbacks(rules, n) + [] == Fallbacks(rules, n);
    assert MeantBy(rules, n) + [] == MeantBy(rules, n);
    SheetReadBack(true, all);
  }

  lemma NothingPrinted()
    ensures Join([], "\n") == Text(End) && Flat(true, End, []) == []
  {
  }

  // ---- selector lists ----

  function Trimmed(parts: seq<string>): seq<string> {
    if |parts| == 0 then [] else [Trim(parts[0])] + Trimmed(parts[1..])
  }

  lemma {:induction false} SplitWithout(s: string, sep: char)
    ensures forall i :: 0 <= i < |Split(s, sep)| ==> sep !in Split(s, sep)[i]
  {
    if |s| > 0 {
      SplitWithout(s[1..], sep);
    }
  }

  lemma PrefixedBack(selector: string, child: Child, lead: string)
    requires ',' !in selector && (lead == "" || lead == "\n")
    ensures var p := CLASS + Trim(selector) + " " + ChildText(child);
            ',' !in lead + p && Trim(lead + p) == p
  {
    hide IsSpace, Trim;
    NotSpaces();
    TrimGood(selector);
    var before, middle, after := CLASS, Trim(selector), " " + ChildText(child);
    var p := before + middle + after;
    assert p == CLASS + Trim(selector) + " " + ChildText(child);
    assert p[0] == ':' && p[|p| - 1] == after[|after| - 1] == '*';
    assert ',' !in before && ',' !in after && ',' !in middle && ',' !in lead;
    assert lead + p == lead + p + "";
    TrimPads(lead, p, "");
  }

  lemma {:induction false} ListBack(selectors: seq<string>, child: Child, lead: string)
    requires |selectors| > 0 && (lead == "" || lead == "\n")
    requires forall i :: 0 <= i < |selectors| ==> ',' !in selectors[i]
    ensures Trimmed(Split(lead + Join(Prefixed(selectors, child), ",\n"), ',')) == Prefixed(selectors, child)
    decreases |selectors|
  {
    hide Trim, ChildText;
    var list := Prefixed(selectors, child);
    var p := list[0];
    PrefixedBack(selectors[0], child, lead);
    if |selectors| == 1 {
      SplitWhole(lead + p, ',');
      assert list == [p];
    } else {
      ListBack(selectors[1..], child, "\n");
      var rest := Join(Prefixed(selectors[1..], child), ",\n");
      assert list[1..] == Prefixed(selectors[1..], child);
      assert lead + (p + ",\n" + rest) == lead + p + [','] + ("\n" + rest);
      SplitFirst(lead + p, "\n" + rest, ',');
      var parts := Split("\n" + rest, ',');
      assert ([lead + p] + parts)[1..] == parts;
    }
  }

  lemma {:induction false} PrefixedAt(selectors: seq<string>, child: Child, i: nat)
    requires i < |selectors|
    ensures Prefixed(selectors, child)[i] == ":root.no-flex-gap " + Trim(selectors[i]) + " " + ChildText(child)
  {
    if i > 0 {
      PrefixedAt(selectors[1..], child, i - 1);
    }
  }

  /** A list of selectors is read as the list it was made of, each with the class and the child form. */
  lemma SelectorsReadBack(prelude: string, child: Child)
    ensures var read, list := Trimmed(Split(Selector(prelude, child), ',')), Split(prelude, ',');
            && |read| == |list|
            && forall i :: 0 <= i < |list| ==>
                 read[i] == ":root.no-flex-gap " + Trim(list[i]) + " " + ChildText(child)
  {
    hide Trimmed, Prefixed, Trim, ChildText;
    forall i | 0 <= i < |Split(prelude, ',')|
      ensures Prefixed(Split(prelude, ','), child)[i]
           == ":root.no-flex-gap " + Trim(Split(prelude, ',')[i]) + " " + ChildText(child)
    {
      PrefixedAt(Split(prelude, ','), child, i);
    }
    SplitWithout(prelude, ',');
    ListBack(Split(prelude, ','), child, "");
    assert "" + Selector(prelude, child) == Selector(prelude, child);
  }

  // ---- lists broken over lines ----

  /** The pass emits overrides for the last lines of selector lists and for nothing else: a selector on an
      earlier line, unless it ends some list too, gets none. */
  lemma OverridesForLastLines(sheet: Sheet, selector: string)
    requires Good(sheet)
    ensures selector in Preludes(RulesOf(Text(sheet), false))
       <==> exists i :: 0 <= i < |PreludesOf(sheet)| && LastLine(PreludesOf(sheet)[i]) == selector
  {
    hide RulesOf, Text, PreludesOf, Good, Preludes;
    var rules, lists := RulesOf(Text(sheet), false), PreludesOf(sheet);
    PreludeOfRule(rules, selector);
    forall i | 0 <= i < |lists| ensures |rules| == |lists| && rules[i].prelude == LastLine(lists[i]) {
      OnlyLastLines(sheet, i);
    }
    OnlyLastLines(sheet, 0);
    if exists i :: 0 <= i < |lists| && LastLine(lists[i]) == selector {
      var i :| 0 <= i < |lists| && LastLine(lists[i]) == selector;
      assert rules[i].prelude == selector;
    }
  }

  function LastLine(prelude: seq<string>): string {
    if |prelude| == 0 then "" else prelude[|prelude| - 1]
  }

  /** Of a gapped flex rule for two selectors on two lines, only the second is known to the pass. */
  lemma FirstSelectorForgotten()
    ensures Preludes(RulesOf(Text(BROKEN_LIST), false)) == [".b"]
  {
    hide RulesOf, Text;
    BrokenListRead();
    var rule := Rule(".b", map["display" := "flex", "column-gap" := "1rem"], []);
    assert [rule][..0] == [];
    assert Preludes([]) == [];
    assert Preludes([rule]) == [] + [".b"];
  }

  // ---- commas that do not separate selectors ----

  /** Brackets of functions and attributes. */
  function BracketsAfter(depth: int, c: char): int {
    if c == '(' || c == '[' then depth + 1 else if c == ')' || c == ']' then depth - 1 else depth
  }

  /** The selectors of a list: separated by commas outside brackets. */
  function TopSplit(s: string, depth: int): (parts: seq<string>)
    ensures |parts| > 0
  {
    if |s| == 0 then [""]
    else
      var parts := TopSplit(s[1..], BracketsAfter(depth, s[0]));
      if s[0] == ',' && depth == 0 then [""] + parts else [[s[0]] + parts[0]] + parts[1..]
  }

  predicate NestedComma(s: string, depth: int) {
    |s| > 0 && ((s[0] == ',' && depth != 0) || NestedComma(s[1..], BracketsAfter(depth, s[0])))
  }

  lemma {:induction false} MorePieces(s: string, depth: int)
    ensures |Split(s, ',')| >= |TopSplit(s, depth)|
    ensures NestedComma(s, depth) ==> |Split(s, ',')| > |TopSplit(s, depth)|
    ensures !NestedComma(s, depth) ==> Split(s, ',') == TopSplit(s, depth)
  {
    if |s| > 0 {
      MorePieces(s[1..], BracketsAfter(depth, s[0]));
    }
  }

  /** Splitting at every comma yields the selectors of the list if and only if no comma is in
      brackets. */
  lemma SplitsSelectors(prelude: string)
    ensures Split(prelude, ',') == TopSplit(prelude, 0) <==> !NestedComma(prelude, 0)
  {
    MorePieces(prelude, 0);
  }

  /** Characters that neither open, close nor separate anything. */
  predicate Plain(a: string, depth: int) {
    forall i :: 0 <= i < |a| ==> BracketsAfter(depth, a[i]) == depth && (a[i] == ',' ==> depth != 0)
  }

  lemma {:induction false} PlainFirst(a: string, rest: string, depth: int)
    requires Plain(a, depth) && TopSplit(rest, depth) == [rest]
    ensures TopSplit(a + rest, depth) == [a + rest]
  {
    hide BracketsAfter;
    if |a| > 0 {
      PlainFirst(a[1..], rest, depth);
      assert (a + rest)[1..] == a[1..] + rest;
      assert [a[0]] + (a[1..] + rest) == a + rest;
    } else {
      assert a + rest == rest;
    }
  }

  lemma LastClose()
    ensures TopSplit(")", 1) == [")"]
  {
    var close := ")";
    var none := close[1..];
    assert none == "";
    assert TopSplit(none, 0) == [""];
    assert TopSplit(close, 1) == [[')'] + ""] + [];
    assert [')'] + "" == close;
  }

  lemma OpeningBracket(inner: string)
    requires TopSplit(inner, 1) == [inner]
    ensures TopSplit("(" + inner, 0) == ["(" + inner]
  {
    var open := "(" + inner;
    assert open[1..] == inner;
    assert ['('] + inner == open;
  }

  lemma WholeWithBrackets()
    ensures TopSplit(":is" + ("(" + (".a, .b" + ")")), 0) == [":is" + ("(" + (".a, .b" + ")"))]
  {
    hide TopSplit;
    LastClose();
    PlainFirst(".a, .b", ")", 1);
    OpeningBracket(".a, .b" + ")");
    PlainFirst(":is", "(" + (".a, .b" + ")"), 0);
  }

  lemma SelectorCutApart()
    ensures TopSplit(":is(.a, .b)", 0) == [":is(.a, .b)"]
    ensures Split(":is(.a, .b)", ',') == [":is(.a", " .b)"]
  {
    hide TopSplit, Split;
    WholeWithBrackets();
    assert ":is" + ("(" + (".a, .b" + ")")) == ":is(.a, .b)";
    SplitWhole(" .b)", ',');
    SplitFirst(":is(.a", " .b)", ',');
    assert ":is(.a, .b)" == ":is(.a" + [','] + " .b)";
    assert [":is(.a"] + [" .b)"] == [":is(.a", " .b)"];
  }
}
