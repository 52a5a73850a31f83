/** Style sheets as the client build reads and writes them: one brace or declaration a line. */
module CssRules {
  import opened Characters
  import opened Results

  type Decls = map<string, string>

  /** A style rule with the at-rules around it, outermost first. */
  datatype Rule = Rule(prelude: string, decls: Decls, atRules: seq<string>)

  // ---- text ----

  predicate IsSpace(c: char) {
    IsSpaceCode(c as int)
  }

  function TrimStart(s: string): (t: string)
    ensures |t| <= |s|
  {
    if |s| > 0 && IsSpace(s[0]) then TrimStart(s[1..]) else s
  }

  function TrimEnd(s: string): (t: string)
    ensures |t| <= |s|
  {
    if |s| > 0 && IsSpace(s[|s| - 1]) then TrimEnd(s[..|s| - 1]) else s
  }

  function Trim(s: string): string {
    TrimEnd(TrimStart(s))
  }

  function Split(s: string, sep: char): (parts: seq<string>)
    ensures |parts| > 0
  {
    if |s| == 0 then [""]
    else
      var parts := Split(s[1..], sep);
      if s[0] == sep then [""] + parts else [[s[0]] + parts[0]] + parts[1..]
  }

  function Join(parts: seq<string>, sep: string): string {
    if |parts| == 0 then "" else if |parts| == 1 then parts[0] else parts[0] + sep + Join(parts[1..], sep)
  }

  function IndexOf(s: string, c: char): (i: Option<nat>)
    ensures i.Some? ==> i.value < |s|
  {
    if |s| == 0 then None
    else if s[0] == c then Some(0)
    else
      var i :- IndexOf(s[1..], c);
      Some(i + 1)
  }

  predicate EndsWith(s: string, c: char) {
    |s| > 0 && s[|s| - 1] == c
  }

  function DropEnd(s: string, c: char): string {
    if EndsWith(s, c) then s[..|s| - 1] else s
  }

  predicate IsAt(prelude: string) {
    |prelude| > 0 && prelude[0] == '@'
  }

  function AtRules(stack: seq<string>): seq<string> {
    if |stack| == 0 then []
    else AtRules(stack[..|stack| - 1]) + if IsAt(stack[|stack| - 1]) then [stack[|stack| - 1]] else []
  }

  // ---- reading ----

  /** Rules so far, enclosing preludes (innermost last), declarations when inside a style rule, and the
      beginning of a prelude that goes on. */
  datatype Reader = Reader(rules: seq<Rule>, stack: seq<string>, decls: Option<Decls>, pending: string)

  const START: Reader := Reader([], [], None, "")

  function Declared(decls: Decls, text: string): Decls {
    match IndexOf(text, ':')
    case Some(i) =>
      if i > 0 then decls[Trim(text[..i]) := Trim(DropEnd(text[i + 1..], ';'))] else decls
    case None => decls
  }

  /** One line. A reader that joins knows that a prelude goes on after a line ending in a comma; the
      source's reader does not, and forgets the line. */
  function ReadLine(joins: bool, r: Reader, line: string): Reader {
    var text := Trim(line);
    if EndsWith(text, '{') then
      var prelude := r.pending + Trim(text[..|text| - 1]);
      Reader(r.rules, r.stack + [prelude], if IsAt(prelude) then None else Some(map[]), "")
    else if joins && r.decls.None? && EndsWith(text, ',') then r.(pending := r.pending + text + "\n")
    else if text == "}" then
      if |r.stack| == 0 then r.(decls := None)
      else
        var m := |r.stack| - 1;
        var prelude, stack := r.stack[m], r.stack[..m];
        if r.decls.Some? && prelude != "" && !IsAt(prelude) then
          Reader(r.rules + [Rule(prelude, r.decls.value, AtRules(stack))], stack, None, r.pending)
        else
          Reader(r.rules, stack, None, r.pending)
    else if r.decls.Some? then r.(decls := Some(Declared(r.decls.value, text)))
    else r
  }

  function ReadLines(joins: bool, r: Reader, lines: seq<string>): Reader
    decreases |lines|
  {
    if |lines| == 0 then r else ReadLines(joins, ReadLine(joins, r, lines[0]), lines[1..])
  }

  function RulesOf(css: string, joins: bool): seq<Rule> {
    ReadLines(joins, START, Split(css, '\n')).rules
  }

  method ReadRules(css: string) returns (rules: seq<Rule>)
    ensures rules == RulesOf(css, false)
  {
    hide Trim, IsAt, AtRules, Declared;
    rules := [];
    var stack: seq<string> := [];
    var decls: Option<Decls> := None;
    var lines := Split(css, '\n');
    for i := 0 to |lines|
      invariant ReadLines(false, Reader(rules, stack, decls, ""), lines[i..]) == ReadLines(false, START, lines)
    {
      assert lines[i..][1..] == lines[i + 1..];
      var text := Trim(lines[i]);
      if EndsWith(text, '{') {
        assert "" + Trim(text[..|text| - 1]) == Trim(text[..|text| - 1]);
        stack := stack + [Trim(text[..|text| - 1])];
        decls := if IsAt(stack[|stack| - 1]) then None else Some(map[]);
        continue;
      }
      if text == "}" {
        if |stack| > 0 {
          var prelude := stack[|stack| - 1];
          stack := stack[..|stack| - 1];
          if decls.Some? && prelude != "" && !IsAt(prelude) {
            rules := rules + [Rule(prelude, decls.value, AtRules(stack))];
          }
        }
        decls := None;
        continue;
      }
      if decls.Some? {
        decls := Some(Declared(decls.value, text));
      }
    }
  }

  // ---- printed sheets ----

  /** A sheet: style rules and at-rules in order. A style rule's prelude may take several lines;
      other lines are at-statements, comments, and the declarations of at-rules such as `@font-face`. */
  datatype Sheet =
    | End
    | Style(prelude: seq<string>, decls: seq<(string, string)>, rest: Sheet)
    | At(at: string, inner: Sheet, rest: Sheet)
    | Other(line: string, rest: Sheet)

  function DeclLine(pad: string, decl: (string, string)): string {
    pad + decl.0 + ": " + decl.1 + ";"
  }

  function DeclLines(pad: string, decls: seq<(string, string)>): seq<string> {
    if |decls| == 0 then [] else [DeclLine(pad, decls[0])] + DeclLines(pad, decls[1..])
  }

  /** The lines of a prelude; the last one opens the block. */
  function PreludeLines(pad: string, prelude: seq<string>): seq<string> {
    if |prelude| == 0 then []
    else if |prelude| == 1 then [pad + prelude[0] + " {"]
    else [pad + prelude[0]] + PreludeLines(pad, prelude[1..])
  }

  function Printed(sheet: Sheet, pad: string): seq<string> {
    match sheet
    case End => []
    case Style(prelude, decls, rest) =>
      PreludeLines(pad, prelude) + DeclLines(pad + "  ", decls) + [pad + "}"] + Printed(rest, pad)
    case At(prelude, inner, rest) =>
      PreludeLines(pad, [prelude]) + Printed(inner, pad + "  ") + [pad + "}"] + Printed(rest, pad)
    case Other(line, rest) => [pad + line] + Printed(rest, pad)
  }

  function Text(sheet: Sheet): string {
    Join(Printed(sheet, ""), "\n")
  }

  /** Later declarations of a property replace earlier ones. */
  function DeclMap(before: Decls, decls: seq<(string, string)>): Decls
    decreases |decls|
  {
    if |decls| == 0 then before else DeclMap(before[decls[0].0 := decls[0].1], decls[1..])
  }

  /** The prelude a reader sees: all of its lines, or only the last one. */
  function Seen(prelude: seq<string>, joins: bool): string
    requires |prelude| > 0
  {
    if joins then Join(prelude, "\n") else prelude[|prelude| - 1]
  }

  /** The style rules of a sheet inside the given at-rules. */
  function Flat(joins: bool, sheet: Sheet, above: seq<string>): seq<Rule>
    requires Good(sheet)
  {
    match sheet
    case End => []
    case Style(prelude, decls, rest) =>
      [Rule(Seen(prelude, joins), DeclMap(map[], decls), above)] + Flat(joins, rest, above)
    case At(prelude, inner, rest) => Flat(joins, inner, above + [prelude]) + Flat(joins, rest, above)
    case Other(_, rest) => Flat(joins, rest, above)
  }

  // ---- what can be printed ----

  predicate OneLine(s: string) {
    '\n' !in s
  }

  /** Not empty, and no white space at either end. */
  predicate Solid(s: string) {
    |s| > 0 && !IsSpace(s[0]) && !IsSpace(s[|s| - 1])
  }

  predicate AllSpace(s: string) {
    forall i :: 0 <= i < |s| ==> IsSpace(s[i])
  }

  predicate GoodDecl(decl: (string, string)) {
    && Solid(decl.0) && OneLine(decl.0) && ':' !in decl.0
    && (decl.1 == "" || Solid(decl.1)) && OneLine(decl.1)
  }

  predicate GoodDecls(decls: seq<(string, string)>) {
    forall i :: 0 <= i < |decls| ==> GoodDecl(decls[i])
  }

  /** A selector list over one or more lines, broken after commas. */
  predicate GoodPrelude(prelude: seq<string>) {
    && |prelude| > 0
    && (forall i :: 0 <= i < |prelude| ==> Solid(prelude[i]) && OneLine(prelude[i]) && !IsAt(prelude[i]))
    && (forall i :: 0 <= i < |prelude| - 1 ==> EndsWith(prelude[i], ','))
  }

  predicate Good(sheet: Sheet) {
    match sheet
    case End => true
    case Style(prelude, decls, rest) => GoodPrelude(prelude) && GoodDecls(decls) && Good(rest)
    case At(prelude, inner, rest) =>
      Solid(prelude) && OneLine(prelude) && IsAt(prelude) && Good(inner) && Good(rest)
    case Other(line, rest) => GoodOther(line) && Good(rest)
  }

  /** A line that neither opens nor closes a block, and is not continued. */
  predicate GoodOther(line: string) {
    Solid(line) && OneLine(line) && !EndsWith(line, '{') && !EndsWith(line, ',') && line != "}"
  }

  predicate AllAt(stack: seq<string>) {
    forall i :: 0 <= i < |stack| ==> IsAt(stack[i])
  }

  // ---- trimming ----

  lemma {:induction false} TrimStartPad(pad: string, s: string)
    requires AllSpace(pad) && |s| > 0 && !IsSpace(s[0])
    ensures TrimStart(pad + s) == s
  {
    if |pad| > 0 {
      TrimStartPad(pad[1..], s);
      assert (pad + s)[1..] == pad[1..] + s;
    } else {
      assert pad + s == s;
    }
  }

  lemma {:induction false} TrimEndPad(s: string, pad: string)
    requires AllSpace(pad) && |s| > 0 && !IsSpace(s[|s| - 1])
    ensures TrimEnd(s + pad) == s
  {
    if |pad| > 0 {
      TrimEndPad(s, pad[..|pad| - 1]);
      assert (s + pad)[..|s + pad| - 1] == s + pad[..|pad| - 1];
    } else {
      assert s + pad == s;
    }
  }

  lemma TrimPads(before: string, s: string, after: string)
    requires AllSpace(before) && AllSpace(after) && Solid(s)
    ensures Trim(before + s + after) == s
  {
    hide IsSpace;
    assert before + s + after == before + (s + after);
    TrimStartPad(before, s + after);
    TrimEndPad(s, after);
  }

  lemma {:induction false} TrimAllSpace(s: string)
    requires AllSpace(s)
    ensures Trim(s) == ""
  {
    if |s| > 0 {
      TrimAllSpace(s[1..]);
    }
  }

  // ---- reading one printed line ----

  lemma {:induction false} IndexAfter(s: string, rest: string, c: char)
    requires c !in s
    ensures IndexOf(s + [c] + rest, c) == Some(|s|)
  {
    if |s| > 0 {
      assert s[0] in s;
      IndexAfter(s[1..], rest, c);
      assert (s + [c] + rest)[1..] == s[1..] + [c] + rest;
    }
  }

  lemma OpenLine(joins: bool, r: Reader, pad: string, prelude: string)
    requires AllSpace(pad) && Solid(prelude)
    ensures var all := r.pending + prelude;
            ReadLine(joins, r, pad + prelude + " {")
            == Reader(r.rules, r.stack + [all], if IsAt(all) then None else Some(map[]), "")
  {
    var text := prelude + " {";
    assert pad + prelude + " {" == pad + text + "";
    TrimPads(pad, text, "");
    assert text[..|text| - 1] == "" + prelude + " ";
    TrimPads("", prelude, " ");
  }

  /** A line that does not finish its prelude. */
  lemma ContinuedLine(joins: bool, r: Reader, pad: string, line: string)
    requires AllSpace(pad) && Solid(line) && EndsWith(line, ',') && r.decls.None?
    ensures ReadLine(joins, r, pad + line) == if joins then r.(pending := r.pending + line + "\n") else r
  {
    assert pad + line == pad + line + "";
    TrimPads(pad, line, "");
  }

  /** All lines of a prelude. */
  lemma {:induction false} OpenLines(joins: bool, r: Reader, pad: string, prelude: seq<string>)
    requires AllSpace(pad) && GoodPrelude(prelude) && r.decls.None?
    requires joins || r.pending == ""
    ensures ReadLines(joins, r, PreludeLines(pad, prelude))
         == Reader(r.rules, r.stack + [r.pending + Seen(prelude, joins)],
                   if IsAt(r.pending + Seen(prelude, joins)) then None else Some(map[]), "")
    decreases |prelude|
  {
    hide ReadLine, AllSpace, IsAt, Solid, OneLine;
    var lines := PreludeLines(pad, prelude);
    if |prelude| == 1 {
      OpenLine(joins, r, pad, prelude[0]);
      ReadOne(joins, r, lines[0], []);
      assert lines == [lines[0]] + [];
    } else {
      ContinuedLine(joins, r, pad, prelude[0]);
      var r' := ReadLine(joins, r, pad + prelude[0]);
      OpenLines(joins, r', pad, prelude[1..]);
      ReadOne(joins, r, pad + prelude[0], PreludeLines(pad, prelude[1..]));
      var more := Seen(prelude[1..], joins);
      if joins {
        assert r.pending + Join(prelude, "\n") == r.pending + prelude[0] + "\n" + more;
      }
    }
  }

  lemma CloseLine(joins: bool, r: Reader, pad: string)
    requires AllSpace(pad) && |r.stack| > 0 && AllAt(r.stack[..|r.stack| - 1])
    ensures var m := |r.stack| - 1;
            var prelude := r.stack[m];
            ReadLine(joins, r, pad + "}")
            == Reader(r.rules + if r.decls.Some? && prelude != "" && !IsAt(prelude)
                                then [Rule(prelude, r.decls.value, r.stack[..m])] else [], r.stack[..m], None, r.pending)
  {
    assert pad + "}" == pad + "}" + "";
    TrimPads(pad, "}", "");
    OnlyAt(r.stack[..|r.stack| - 1]);
  }

  lemma {:induction false} OnlyAt(stack: seq<string>)
    requires AllAt(stack)
    ensures AtRules(stack) == stack
  {
    if |stack| > 0 {
      OnlyAt(stack[..|stack| - 1]);
    }
  }

  lemma SpacesAreSpace()
    ensures IsSpace(' ') && !IsSpace(';') && !IsSpace('{') && !IsSpace('}')
  {
  }

  lemma ReadDeclLine(joins: bool, r: Reader, pad: string, decl: (string, string))
    requires AllSpace(pad) && GoodDecl(decl) && r.decls.Some?
    ensures ReadLine(joins, r, DeclLine(pad, decl)) == r.(decls := Some(r.decls.value[decl.0 := decl.1]))
  {
    hide IsSpace, OneLine, Trim, DropEnd;
    SpacesAreSpace();
    var (name, value) := decl;
    var text := name + ": " + value + ";";
    assert DeclLine(pad, decl) == pad + text + "";
    TrimPads(pad, text, "");
    assert text == name + [':'] + (" " + value + ";");
    IndexAfter(name, " " + value + ";", ':');
    assert text[..|name|] == "" + name + "";
    TrimPads("", name, "");
    assert text[|name| + 1..] == " " + value + ";";
    ValueBack(value);
  }

  lemma ValueBack(value: string)
    requires value == "" || Solid(value)
    ensures Trim(DropEnd(" " + value + ";", ';')) == value
  {
    hide IsSpace, Trim;
    SpacesAreSpace();
    assert DropEnd(" " + value + ";", ';') == " " + value + "";
    if value == "" {
      TrimAllSpace(" " + value + "");
    } else {
      TrimPads(" ", value, "");
    }
  }

  // ---- reading a printed sheet ----

  lemma {:induction false} ReadLinesJoined(joins: bool, r: Reader, a: seq<string>, b: seq<string>)
    ensures ReadLines(joins, r, a + b) == ReadLines(joins, ReadLines(joins, r, a), b)
    decreases |a|
  {
    hide ReadLine;
    if |a| == 0 {
      assert a + b == b;
    } else {
      ReadLinesJoined(joins, ReadLine(joins, r, a[0]), a[1..], b);
      assert (a + b)[1..] == a[1..] + b;
    }
  }

  lemma ReadOne(joins: bool, r: Reader, line: string, rest: seq<string>)
    ensures ReadLines(joins, r, [line] + rest) == ReadLines(joins, ReadLine(joins, r, line), rest)
  {
    hide ReadLine;
    assert ([line] + rest)[1..] == rest;
  }

  lemma {:induction false} ReadDeclLines(joins: bool, r: Reader, pad: string, decls: seq<(string, string)>)
    requires AllSpace(pad) && GoodDecls(decls) && r.decls.Some?
    ensures ReadLines(joins, r, DeclLines(pad, decls)) == r.(decls := Some(DeclMap(r.decls.value, decls)))
    decreases |decls|
  {
    hide ReadLine, DeclLine, GoodDecl, AllSpace;
    if |decls| > 0 {
      var line := DeclLine(pad, decls[0]);
      ReadDeclLine(joins, r, pad, decls[0]);
      ReadOne(joins, r, line, DeclLines(pad, decls[1..]));
      ReadDeclLines(joins, ReadLine(joins, r, line), pad, decls[1..]);
    }
  }

  /** A block's lines, given what its opening and its inner lines do. */
  lemma ReadBlock(joins: bool, r: Reader, open: seq<string>, entered: Reader, inside: seq<string>, filled: Reader,
                  close: string, rest: seq<string>)
    requires ReadLines(joins, r, open) == entered && ReadLines(joins, entered, inside) == filled
    ensures ReadLines(joins, r, open + inside + [close] + rest)
         == ReadLines(joins, ReadLine(joins, filled, close), rest)
  {
    hide ReadLine, ReadLines;
    assert open + inside + [close] + rest == open + (inside + ([close] + rest));
    ReadLinesJoined(joins, r, open, inside + ([close] + rest));
    ReadLinesJoined(joins, entered, inside, [close] + rest);
    ReadOne(joins, filled, close, rest);
  }

  lemma {:induction false} PrintedRead(joins: bool, r: Reader, sheet: Sheet, pad: string)
    requires r.decls.None? && r.pending == "" && AllAt(r.stack) && AllSpace(pad) && Good(sheet)
    ensures ReadLines(joins, r, Printed(sheet, pad)) == r.(rules := r.rules + Flat(joins, sheet, r.stack))
    decreases sheet
  {
    hide ReadLine, ReadLines, IsAt, Solid, OneLine, GoodDecls, AllAt, AllSpace, GoodPrelude, Seen, PreludeLines,
      DeclLines, DeclMap, GoodOther;
    match sheet
    case End => ReadNone(joins, r);
    case Style(prelude, decls, rest) =>
      PreludeNotEmpty(prelude);
      StyleRead(joins, r, prelude, decls, pad, Printed(rest, pad));
      var rule := Rule(Seen(prelude, joins), DeclMap(map[], decls), r.stack);
      PrintedRead(joins, Reader(r.rules + [rule], r.stack, None, ""), rest, pad);
      assert r.rules + [rule] + Flat(joins, rest, r.stack) == r.rules + ([rule] + Flat(joins, rest, r.stack));
    case At(prelude, inner, rest) =>
      var entered := Reader(r.rules, r.stack + [prelude], None, "");
      Deeper(r.stack, prelude, pad);
      PrintedRead(joins, entered, inner, pad + "  ");
      var found := Flat(joins, inner, entered.stack);
      AtRead(joins, r, prelude, Printed(inner, pad + "  "), found, pad, Printed(rest, pad));
      PrintedRead(joins, Reader(r.rules + found, r.stack, None, ""), rest, pad);
      assert r.rules + found + Flat(joins, rest, r.stack) == r.rules + (found + Flat(joins, rest, r.stack));
    case Other(line, rest) =>
      OtherLine(joins, r, pad, line);
      ReadOne(joins, r, pad + line, Printed(rest, pad));
      PrintedRead(joins, r, rest, pad);
  }

  lemma ReadNone(joins: bool, r: Reader)
    ensures ReadLines(joins, r, []) == r
  {
  }

  /** An at-rule whose block reads as the rules found. */
  lemma AtRead(joins: bool, r: Reader, prelude: string, inside: seq<string>, found: seq<Rule>, pad: string,
               rest: seq<string>)
    requires r.decls.None? && r.pending == "" && AllAt(r.stack) && AllSpace(pad) && Solid(prelude) && IsAt(prelude)
    requires ReadLines(joins, Reader(r.rules, r.stack + [prelude], None, ""), inside)
          == Reader(r.rules + found, r.stack + [prelude], None, "")
    ensures ReadLines(joins, r, PreludeLines(pad, [prelude]) + inside + [pad + "}"] + rest)
         == ReadLines(joins, Reader(r.rules + found, r.stack, None, ""), rest)
  {
    hide ReadLine, ReadLines, IsAt, Solid, AllAt, AllSpace, PreludeLines;
    var entered := Reader(r.rules, r.stack + [prelude], None, "");
    var filled := entered.(rules := r.rules + found);
    OpenAt(joins, r, pad, prelude);
    ReadBlock(joins, r, PreludeLines(pad, [prelude]), entered, inside, filled, pad + "}", rest);
    Deeper(r.stack, prelude, pad);
    LeaveAt(joins, filled, pad);
    assert entered.stack[..|entered.stack| - 1] == r.stack;
  }

  /** Outside style rules such a line is skipped. */
  lemma OtherLine(joins: bool, r: Reader, pad: string, line: string)
    requires r.decls.None? && AllSpace(pad) && GoodOther(line)
    ensures ReadLine(joins, r, pad + line) == r
  {
    assert pad + line == pad + line + "";
    TrimPads(pad, line, "");
  }

  lemma Deeper(stack: seq<string>, prelude: string, pad: string)
    requires AllAt(stack) && IsAt(prelude) && AllSpace(pad)
    ensures AllAt(stack + [prelude]) && AllSpace(pad + "  ")
  {
  }

  lemma OpenAt(joins: bool, r: Reader, pad: string, prelude: string)
    requires AllSpace(pad) && Solid(prelude) && IsAt(prelude) && r.pending == ""
    ensures ReadLines(joins, r, PreludeLines(pad, [prelude])) == Reader(r.rules, r.stack + [prelude], None, "")
  {
    hide ReadLine;
    OpenLine(joins, r, pad, prelude);
    assert "" + prelude == prelude;
    ReadOne(joins, r, pad + prelude + " {", []);
    assert [pad + prelude + " {"] + [] == PreludeLines(pad, [prelude]);
  }

  lemma LeaveAt(joins: bool, r: Reader, pad: string)
    requires r.decls.None? && AllSpace(pad) && AllAt(r.stack) && |r.stack| > 0
    ensures ReadLine(joins, r, pad + "}") == Reader(r.rules, r.stack[..|r.stack| - 1], None, r.pending)
  {
    hide ReadLine;
    CloseLine(joins, r, pad);
  }

  lemma {:induction false} SeenIsStyle(prelude: seq<string>, joins: bool)
    requires GoodPrelude(prelude)
    ensures Seen(prelude, joins) != "" && !IsAt(Seen(prelude, joins))
  {
    assert Solid(prelude[0]) && !IsAt(prelude[0]);
    assert Solid(prelude[|prelude| - 1]);
    assert joins ==> Seen(prelude, joins)[0] == prelude[0][0];
  }

  lemma StyleRead(joins: bool, r: Reader, prelude: seq<string>, decls: seq<(string, string)>, pad: string,
                  rest: seq<string>)
    requires AllAt(r.stack) && AllSpace(pad) && r.pending == "" && r.decls.None?
    requires GoodPrelude(prelude) && GoodDecls(decls)
    ensures ReadLines(joins, r, PreludeLines(pad, prelude) + DeclLines(pad + "  ", decls) + [pad + "}"] + rest)
         == ReadLines(joins, Reader(r.rules + [Rule(Seen(prelude, joins), DeclMap(map[], decls), r.stack)],
                                    r.stack, None, ""), rest)
  {
    hide ReadLine, ReadLines, IsAt, GoodDecls, GoodPrelude, Seen, PreludeLines;
    PreludeNotEmpty(prelude);
    var seen := Seen(prelude, joins);
    assert "" + seen == seen;
    SeenIsStyle(prelude, joins);
    OpenLines(joins, r, pad, prelude);
    var entered := Reader(r.rules, r.stack + [seen], Some(map[]), "");
    ReadDeclLines(joins, entered, pad + "  ", decls);
    var filled := entered.(decls := Some(DeclMap(map[], decls)));
    ReadBlock(joins, r, PreludeLines(pad, prelude), entered, DeclLines(pad + "  ", decls), filled, pad + "}", rest);
    assert filled.stack[..|filled.stack| - 1] == r.stack;
    CloseLine(joins, filled, pad);
  }

  // ---- lines ----

  predicate AllOneLine(lines: seq<string>) {
    forall i :: 0 <= i < |lines| ==> OneLine(lines[i])
  }

  lemma {:induction false} SplitWhole(s: string, sep: char)
    requires sep !in s
    ensures Split(s, sep) == [s]
  {
    if |s| > 0 {
      assert s[0] in s;
      SplitWhole(s[1..], sep);
      assert [s[0]] + s[1..] == s;
    }
  }

  lemma {:induction false} SplitFirst(s: string, rest: string, sep: char)
    requires sep !in s
    ensures Split(s + [sep] + rest, sep) == [s] + Split(rest, sep)
  {
    if |s| > 0 {
      assert s[0] in s;
      SplitFirst(s[1..], rest, sep);
      assert (s + [sep] + rest)[1..] == s[1..] + [sep] + rest;
      assert [s[0]] + s[1..] == s;
    } else {
      assert (s + [sep] + rest)[1..] == rest;
    }
  }

  /** Splitting undoes joining. */
  lemma {:induction false} SplitLines(lines: seq<string>)
    requires |lines| > 0 && AllOneLine(lines)
    ensures Split(Join(lines, "\n"), '\n') == lines
  {
    if |lines| == 1 {
      SplitWhole(lines[0], '\n');
    } else {
      SplitLines(lines[1..]);
      SplitFirst(lines[0], Join(lines[1..], "\n"), '\n');
      assert [lines[0]] + lines[1..] == lines;
    }
  }

  lemma {:induction false} JoinConcat(a: seq<string>, b: seq<string>, sep: string)
    requires |a| > 0 && |b| > 0
    ensures Join(a + b, sep) == Join(a, sep) + sep + Join(b, sep)
  {
    if |a| == 1 {
      assert (a + b)[1..] == b;
    } else {
      JoinConcat(a[1..], b, sep);
      assert (a + b)[1..] == a[1..] + b;
    }
  }

  lemma {:induction false} DeclLinesOneLine(pad: string, decls: seq<(string, string)>)
    requires OneLine(pad) && GoodDecls(decls)
    ensures AllOneLine(DeclLines(pad, decls))
  {
    if |decls| > 0 {
      DeclLinesOneLine(pad, decls[1..]);
      assert GoodDecl(decls[0]);
    }
  }

  lemma {:induction false} PreludeOneLine(pad: string, prelude: seq<string>)
    requires OneLine(pad) && forall i :: 0 <= i < |prelude| ==> OneLine(prelude[i])
    ensures AllOneLine(PreludeLines(pad, prelude))
  {
    if |prelude| > 1 {
      PreludeOneLine(pad, prelude[1..]);
    }
  }

  lemma {:induction false} PrintedOneLine(sheet: Sheet, pad: string)
    requires OneLine(pad) && Good(sheet)
    ensures AllOneLine(Printed(sheet, pad))
  {
    hide Solid, IsAt, PreludeLines;
    match sheet
    case End =>
    case Style(prelude, decls, rest) =>
      PreludeOneLine(pad, prelude);
      DeclLinesOneLine(pad + "  ", decls);
      PrintedOneLine(rest, pad);
    case At(prelude, inner, rest) =>
      PreludeOneLine(pad, [prelude]);
      PrintedOneLine(inner, pad + "  ");
      PrintedOneLine(rest, pad);
    case Other(line, rest) => PrintedOneLine(rest, pad);
  }

  /** Reading a printed sheet finds exactly its style rules, in document order, each with its last
      declaration of every property and the at-rules it is nested in. Of a prelude over several lines
      the source's reader sees only the last line. */
  lemma SheetReadBack(joins: bool, sheet: Sheet)
    requires Good(sheet)
    ensures RulesOf(Text(sheet), joins) == Flat(joins, sheet, [])
  {
    hide Good, ReadLine, Flat;
    if sheet == End {
      NoRules(joins);
    } else {
      PrintedSome(sheet, "");
      PrintedOneLine(sheet, "");
      SplitLines(Printed(sheet, ""));
      PrintedRead(joins, START, sheet, "");
    }
  }

  lemma PrintedSome(sheet: Sheet, pad: string)
    requires sheet != End
    ensures |Printed(sheet, pad)| > 0
  {
  }

  lemma NoRules(joins: bool)
    ensures RulesOf(Text(End), joins) == Flat(joins, End, [])
  {
    assert Split("", '\n') == [""];
    assert Trim("") == "";
    assert ReadLine(joins, START, "") == START;
    assert ReadLines(joins, START, [""]) == START;
  }

  /** Every prelude takes one line. */
  predicate OneLinePreludes(sheet: Sheet) {
    match sheet
    case End => true
    case Style(prelude, _, rest) => |prelude| == 1 && OneLinePreludes(rest)
    case At(_, inner, rest) => OneLinePreludes(inner) && OneLinePreludes(rest)
    case Other(_, rest) => OneLinePreludes(rest)
  }

  lemma {:induction false} FlatSize(sheet: Sheet, above: seq<string>)
    requires Good(sheet)
    ensures |Flat(true, sheet, above)| == |Flat(false, sheet, above)|
  {
    match sheet
    case End =>
    case Style(_, _, rest) => FlatSize(rest, above);
    case At(prelude, inner, rest) =>
      FlatSize(inner, above + [prelude]);
      FlatSize(rest, above);
    case Other(_, rest) => FlatSize(rest, above);
  }

  lemma {:induction false} LastLineOnly(prelude: seq<string>)
    requires |prelude| > 0
    ensures |prelude| == 1 <==> Seen(prelude, true) == Seen(prelude, false)
    ensures |Seen(prelude, true)| >= |Seen(prelude, false)| + |prelude| - 1
  {
    if |prelude| > 1 {
      LastLineOnly(prelude[1..]);
    }
  }

  lemma {:induction false} SameRules(sheet: Sheet, above: seq<string>)
    requires Good(sheet)
    ensures Flat(false, sheet, above) == Flat(true, sheet, above) <==> OneLinePreludes(sheet)
    decreases sheet
  {
    hide GoodPrelude, GoodDecls, Seen, DeclMap;
    match sheet
    case End =>
    case Style(prelude, decls, rest) =>
      assert |prelude| > 0 by { PreludeNotEmpty(prelude); }
      LastLineOnly(prelude);
      SameRules(rest, above);
      Apart([Rule(Seen(prelude, false), DeclMap(map[], decls), above)], Flat(false, rest, above),
            [Rule(Seen(prelude, true), DeclMap(map[], decls), above)], Flat(true, rest, above));
    case At(prelude, inner, rest) =>
      FlatSize(inner, above + [prelude]);
      SameRules(inner, above + [prelude]);
      SameRules(rest, above);
      Apart(Flat(false, inner, above + [prelude]), Flat(false, rest, above),
            Flat(true, inner, above + [prelude]), Flat(true, rest, above));
    case Other(_, rest) => SameRules(rest, above);
  }

  /** The preludes of the style rules, as lists of lines. */
  function PreludesOf(sheet: Sheet): seq<seq<string>> {
    match sheet
    case End => []
    case Style(prelude, _, rest) => [prelude] + PreludesOf(rest)
    case At(_, inner, rest) => PreludesOf(inner) + PreludesOf(rest)
    case Other(_, rest) => PreludesOf(rest)
  }

  /** One rule for each prelude, with what is seen of it. */
  predicate SeenAs(rules: seq<Rule>, preludes: seq<seq<string>>, joins: bool) {
    && |rules| == |preludes|
    && forall i :: 0 <= i < |rules| ==> GoodPrelude(preludes[i]) && rules[i].prelude == Seen(preludes[i], joins)
  }

  lemma SeenBoth(rules: seq<Rule>, preludes: seq<seq<string>>, more: seq<Rule>, others: seq<seq<string>>, joins: bool)
    requires SeenAs(rules, preludes, joins) && SeenAs(more, others, joins)
    ensures SeenAs(rules + more, preludes + others, joins)
  {
    hide GoodPrelude, Seen;
  }

  lemma {:induction false} FlatPreludes(joins: bool, sheet: Sheet, above: seq<string>)
    requires Good(sheet)
    ensures SeenAs(Flat(joins, sheet, above), PreludesOf(sheet), joins)
    decreases sheet
  {
    hide GoodPrelude, GoodDecls, Seen, DeclMap, SeenAs;
    match sheet
    case End => SeenNone(joins);
    case Style(prelude, decls, rest) =>
      PreludeNotEmpty(prelude);
      var rule := Rule(Seen(prelude, joins), DeclMap(map[], decls), above);
      SeenOne(rule, prelude, joins);
      FlatPreludes(joins, rest, above);
      SeenBoth([rule], [prelude], Flat(joins, rest, above), PreludesOf(rest), joins);
    case At(prelude, inner, rest) =>
      FlatPreludes(joins, inner, above + [prelude]);
      FlatPreludes(joins, rest, above);
      SeenBoth(Flat(joins, inner, above + [prelude]), PreludesOf(inner), Flat(joins, rest, above), PreludesOf(rest),
               joins);
    case Other(_, rest) => FlatPreludes(joins, rest, above);
  }

  lemma SeenNone(joins: bool)
    ensures SeenAs([], [], joins)
  {
  }

  lemma SeenOne(rule: Rule, prelude: seq<string>, joins: bool)
    requires GoodPrelude(prelude) && rule.prelude == Seen(prelude, joins)
    ensures SeenAs([rule], [prelude], joins)
  {
  }

  /** The rules the source knows of have the last lines of the selector lists for preludes: a selector on
      an earlier line has no rule of its own. */
  lemma OnlyLastLines(sheet: Sheet, i: nat)
    requires Good(sheet)
    ensures |RulesOf(Text(sheet), false)| == |PreludesOf(sheet)|
    ensures i < |PreludesOf(sheet)| ==>
      |PreludesOf(sheet)[i]| > 0
      && RulesOf(Text(sheet), false)[i].prelude == PreludesOf(sheet)[i][|PreludesOf(sheet)[i]| - 1]
  {
    hide RulesOf, Text, Flat, Good, GoodPrelude, PreludesOf;
    SheetReadBack(false, sheet);
    FlatPreludes(false, sheet, []);
    if i < |PreludesOf(sheet)| {
      PreludeNotEmpty(PreludesOf(sheet)[i]);
    }
  }

  /** A list over two lines. */
  const BROKEN_LIST: Sheet := Style([".a,", ".b"], [("display", "flex"), ("column-gap", "1rem")], End)

  /** The source reads a rule for the second selector only. */
  lemma BrokenListRead()
    ensures var decls := map["display" := "flex", "column-gap" := "1rem"];
            && RulesOf(Text(BROKEN_LIST), false) == [Rule(".b", decls, [])]
            && RulesOf(Text(BROKEN_LIST), true) == [Rule(".a,\n.b", decls, [])]
  {
    BrokenListGood();
    SheetReadBack(false, BROKEN_LIST);
    SheetReadBack(true, BROKEN_LIST);
    hide RulesOf, Text;
    BrokenListFlat(false);
    BrokenListFlat(true);
  }

  lemma BrokenListGood()
    ensures Good(BROKEN_LIST)
  {
    assert GoodDecl(("display", "flex")) && GoodDecl(("column-gap", "1rem"));
    var prelude := [".a,", ".b"];
    assert EndsWith(prelude[0], ',');
    assert GoodPrelude(prelude);
  }

  lemma BrokenListFlat(joins: bool)
    requires Good(BROKEN_LIST)
    ensures Flat(joins, BROKEN_LIST, [])
         == [Rule(if joins then ".a,\n.b" else ".b", map["display" := "flex", "column-gap" := "1rem"], [])]
  {
    var decls := [("display", "flex"), ("column-gap", "1rem")];
    assert decls[1..] == [("column-gap", "1rem")];
    assert DeclMap(map[], decls) == map["display" := "flex", "column-gap" := "1rem"];
    var prelude := [".a,", ".b"];
    assert prelude[1..] == [".b"];
    assert Join(prelude, "\n") == ".a," + "\n" + ".b" == ".a,\n.b";
  }

  lemma PreludeNotEmpty(prelude: seq<string>)
    requires GoodPrelude(prelude)
    ensures |prelude| > 0
  {
  }

  lemma Apart<T>(a: seq<T>, b: seq<T>, c: seq<T>, d: seq<T>)
    requires |a| == |c|
    ensures a + b == c + d <==> a == c && b == d
  {
    if a + b == c + d {
      assert a == (a + b)[..|a|] == (c + d)[..|c|] == c;
      assert b == (a + b)[|a|..] == (c + d)[|c|..] == d;
    }
  }

  /** So the source reads such a sheet as it is meant if and only if no selector list is broken over
      lines. */
  lemma ReadAsMeant(sheet: Sheet)
    requires Good(sheet)
    ensures RulesOf(Text(sheet), false) == RulesOf(Text(sheet), true) <==> OneLinePreludes(sheet)
  {
    hide Good, RulesOf, Flat, OneLinePreludes;
    SheetReadBack(false, sheet);
    SheetReadBack(true, sheet);
    SameRules(sheet, []);
  }

  // ---- wrapping in at-rules ----

  function Indented(lines: seq<string>): seq<string> {
    if |lines| == 0 then [] else ["  " + lines[0]] + Indented(lines[1..])
  }

  function WrapInAtRules(body: string, atRules: seq<string>): string {
    if |atRules| == 0 then body
    else
      var inner := WrapInAtRules(body, atRules[1..]);
      atRules[0] + " {\n" + Join(Indented(Split(inner, '\n')), "\n") + "\n}"
  }

  /** A style rule inside at-rules, followed by the rest of a sheet. */
  function Nested(atRules: seq<string>, prelude: seq<string>, decls: seq<(string, string)>, rest: Sheet): Sheet {
    if |atRules| == 0 then Style(prelude, decls, rest)
    else At(atRules[0], Nested(atRules[1..], prelude, decls, End), rest)
  }

  lemma {:induction false} IndentedConcat(a: seq<string>, b: seq<string>)
    ensures Indented(a + b) == Indented(a) + Indented(b)
  {
    if |a| == 0 {
      assert a + b == b;
    } else {
      IndentedConcat(a[1..], b);
      assert (a + b)[1..] == a[1..] + b;
      var line, p, q := ["  " + a[0]], Indented(a[1..]), Indented(b);
      assert line + (p + q) == line + p + q;
    }
  }

  lemma {:induction false} IndentedDecls(pad: string, decls: seq<(string, string)>)
    ensures Indented(DeclLines(pad, decls)) == DeclLines("  " + pad, decls)
  {
    if |decls| > 0 {
      IndentedDecls(pad, decls[1..]);
      var line := DeclLine(pad, decls[0]);
      assert ([line] + DeclLines(pad, decls[1..]))[1..] == DeclLines(pad, decls[1..]);
      assert "  " + line == DeclLine("  " + pad, decls[0]);
    }
  }

  lemma {:induction false} IndentedPrelude(pad: string, prelude: seq<string>)
    ensures Indented(PreludeLines(pad, prelude)) == PreludeLines("  " + pad, prelude)
  {
    if |prelude| == 1 {
      assert "  " + (pad + prelude[0] + " {") == "  " + pad + prelude[0] + " {";
    } else if |prelude| > 1 {
      IndentedPrelude(pad, prelude[1..]);
      var more := PreludeLines(pad, prelude[1..]);
      assert ([pad + prelude[0]] + more)[1..] == more;
      assert "  " + (pad + prelude[0]) == "  " + pad + prelude[0];
    }
  }

  lemma IndentedBlock(open: seq<string>, inside: seq<string>, close: string, rest: seq<string>)
    ensures Indented(open + inside + [close] + rest)
         == Indented(open) + Indented(inside) + ["  " + close] + Indented(rest)
  {
    IndentedConcat(open + inside + [close], rest);
    IndentedConcat(open + inside, [close]);
    IndentedConcat(open, inside);
    assert Indented([close]) == ["  " + close];
  }

  lemma {:induction false} IndentedSheet(sheet: Sheet, pad: string)
    ensures Indented(Printed(sheet, pad)) == Printed(sheet, "  " + pad)
  {
    assert "  " + (pad + "  ") == ("  " + pad) + "  ";
    match sheet
    case End =>
    case Style(prelude, decls, rest) =>
      IndentedBlock(PreludeLines(pad, prelude), DeclLines(pad + "  ", decls), pad + "}", Printed(rest, pad));
      IndentedPrelude(pad, prelude);
      IndentedDecls(pad + "  ", decls);
      IndentedSheet(rest, pad);
      assert "  " + (pad + "}") == "  " + pad + "}";
    case At(prelude, inner, rest) =>
      IndentedBlock(PreludeLines(pad, [prelude]), Printed(inner, pad + "  "), pad + "}", Printed(rest, pad));
      IndentedPrelude(pad, [prelude]);
      IndentedSheet(inner, pad + "  ");
      IndentedSheet(rest, pad);
      assert "  " + (pad + "}") == "  " + pad + "}";
    case Other(line, rest) =>
      IndentedSheet(rest, pad);
      IndentedConcat([pad + line], Printed(rest, pad));
      assert Indented([pad + line]) == ["  " + (pad + line)];
      assert "  " + (pad + line) == "  " + pad + line;
  }

  /** Wrapping the text of a rule gives the text of the rule nested in the at-rules. */
  lemma {:induction false} WrapIsNested(atRules: seq<string>, prelude: seq<string>, decls: seq<(string, string)>)
    requires Good(Nested(atRules, prelude, decls, End))
    ensures WrapInAtRules(Text(Style(prelude, decls, End)), atRules) == Text(Nested(atRules, prelude, decls, End))
  {
    hide Solid, OneLine, IsAt, GoodDecls;
    if |atRules| > 0 {
      var inner := Nested(atRules[1..], prelude, decls, End);
      WrapIsNested(atRules[1..], prelude, decls);
      EmptyIsOneLine();
      PrintedOneLine(inner, "");
      SplitLines(Printed(inner, ""));
      IndentedSheet(inner, "");
      assert "  " + "" == "  ";
      WrappedLines(atRules[0], inner);
    }
  }

  lemma EmptyIsOneLine()
    ensures OneLine("")
  {
  }

  lemma WrappedLines(at: string, inner: Sheet)
    requires inner != End
    ensures at + " {\n" + Join(Printed(inner, "  "), "\n") + "\n}" == Text(At(at, inner, End))
  {
    NoPad(at);
    JoinBlock(at, Printed(inner, "  "));
    assert Printed(At(at, inner, End), "") == [at + " {"] + Printed(inner, "  ") + ["}"];
  }

  lemma NoPad(s: string)
    ensures "" + s == s && "" + s + " {" == s + " {" && "" + "  " == "  " && "" + "}" == "}"
  {
  }

  lemma JoinBlock(prelude: string, inside: seq<string>)
    requires |inside| > 0
    ensures Join([prelude + " {"] + inside + ["}"], "\n") == prelude + " {\n" + Join(inside, "\n") + "\n}"
  {
    var open := [prelude + " {"];
    JoinConcat(open + inside, ["}"], "\n");
    JoinConcat(open, inside, "\n");
    hide Join;
    JoinOne(prelude + " {", "\n");
    JoinOne("}", "\n");
    var t := Join(inside, "\n");
    assert " {" + "\n" == " {\n" && "\n" + "}" == "\n}";
    Regrouped(prelude, " {", "\n", t, "\n", "}");
  }

  lemma Regrouped(a: string, b: string, c: string, d: string, e: string, f: string)
    ensures a + b + c + d + e + f == a + (b + c) + d + (e + f)
  {
  }

  lemma JoinOne(s: string, sep: string)
    ensures Join([s], sep) == s
  {
  }

  lemma {:induction false} FlatNested(joins: bool, atRules: seq<string>, prelude: seq<string>,
                                      decls: seq<(string, string)>, rest: Sheet, above: seq<string>)
    requires Good(Nested(atRules, prelude, decls, rest)) && Good(rest) && |prelude| > 0
    ensures Flat(joins, Nested(atRules, prelude, decls, rest), above)
         == [Rule(Seen(prelude, joins), DeclMap(map[], decls), above + atRules)] + Flat(joins, rest, above)
  {
    hide Solid, OneLine, IsAt, GoodDecls, GoodPrelude, Seen;
    if |atRules| > 0 {
      FlatNested(joins, atRules[1..], prelude, decls, End, above + [atRules[0]]);
      assert above + [atRules[0]] + atRules[1..] == above + atRules;
    } else {
      assert above + atRules == above;
    }
  }

  // ---- what any text is read as ----

  predicate GoodText(s: string) {
    (s == "" || Solid(s)) && OneLine(s)
  }

  predicate GoodValues(values: Decls) {
    forall p :: p in values ==> GoodDecl((p, values[p]))
  }

  predicate GoodAtRule(s: string) {
    Solid(s) && OneLine(s) && IsAt(s)
  }

  predicate GoodAtRules(atRules: seq<string>) {
    forall i :: 0 <= i < |atRules| ==> GoodAtRule(atRules[i])
  }

  predicate GoodRule(rule: Rule) {
    && Solid(rule.prelude) && OneLine(rule.prelude) && !IsAt(rule.prelude)
    && GoodValues(rule.decls) && GoodAtRules(rule.atRules)
  }

  predicate GoodRules(rules: seq<Rule>) {
    forall i :: 0 <= i < |rules| ==> GoodRule(rules[i])
  }

  predicate GoodReader(r: Reader) {
    && GoodRules(r.rules)
    && (forall i :: 0 <= i < |r.stack| ==> GoodText(r.stack[i]))
    && (r.decls.Some? ==> GoodValues(r.decls.value))
    && r.pending == ""
  }

  /** Part of s: without some of its characters at either end. */
  predicate Within(t: string, s: string) {
    forall c :: c in t ==> c in s
  }

  lemma {:induction false} TrimStartGood(s: string)
    ensures var t := TrimStart(s);
            && Within(t, s) && (t == "" || !IsSpace(t[0])) && (|s| > 0 && !IsSpace(s[0]) ==> t == s)
  {
    if |s| > 0 && IsSpace(s[0]) {
      TrimStartGood(s[1..]);
    }
  }

  lemma {:induction false} TrimEndGood(s: string)
    ensures var t := TrimEnd(s);
            && Within(t, s) && (t == "" || !IsSpace(t[|t| - 1]))
            && (|s| > 0 && !IsSpace(s[0]) ==> t != "" && t[0] == s[0])
  {
    if |s| > 0 && IsSpace(s[|s| - 1]) {
      TrimEndGood(s[..|s| - 1]);
    }
  }

  lemma TrimGood(s: string)
    ensures Within(Trim(s), s) && (Trim(s) == "" || Solid(Trim(s)))
    ensures OneLine(s) ==> GoodText(Trim(s))
    ensures |s| > 0 && !IsSpace(s[0]) ==> Trim(s) != ""
  {
    hide IsSpace, TrimStart, TrimEnd;
    TrimStartGood(s);
    TrimEndGood(TrimStart(s));
  }

  lemma {:induction false} IndexOfFirst(s: string, c: char)
    ensures var i := IndexOf(s, c); i.Some? ==> c !in s[..i.value]
  {
    if |s| > 0 && s[0] != c {
      IndexOfFirst(s[1..], c);
      var i := IndexOf(s, c);
      if i.Some? {
        assert s[..i.value] == [s[0]] + s[1..][..i.value - 1];
      }
    }
  }

  lemma DeclaredGood(decls: Decls, text: string)
    requires GoodValues(decls) && GoodText(text)
    ensures GoodValues(Declared(decls, text))
  {
    hide IsSpace, Trim, IndexOf;
    IndexOfFirst(text, ':');
    match IndexOf(text, ':')
    case None =>
    case Some(i) =>
      if i > 0 {
        TrimGood(text[..i]);
        TrimGood(DropEnd(text[i + 1..], ';'));
        assert GoodDecl((Trim(text[..i]), Trim(DropEnd(text[i + 1..], ';'))));
      }
  }

  lemma {:induction false} AtRulesGood(stack: seq<string>)
    requires forall i :: 0 <= i < |stack| ==> GoodText(stack[i])
    ensures GoodAtRules(AtRules(stack))
  {
    if |stack| > 0 {
      AtRulesGood(stack[..|stack| - 1]);
    }
  }

  lemma LineGood(r: Reader, line: string)
    requires GoodReader(r) && OneLine(line)
    ensures GoodReader(ReadLine(false, r, line))
  {
    hide Trim, Solid, GoodDecl, GoodAtRules, Declared, AtRules;
    TrimGood(line);
    var text := Trim(line);
    if EndsWith(text, '{') {
      var name := Trim(text[..|text| - 1]);
      TrimGood(text[..|text| - 1]);
      assert "" + name == name;
    } else if text == "}" {
      if |r.stack| > 0 {
        AtRulesGood(r.stack[..|r.stack| - 1]);
      }
    } else if r.decls.Some? {
      DeclaredGood(r.decls.value, text);
    }
  }

  lemma {:induction false} LinesGood(r: Reader, lines: seq<string>)
    requires GoodReader(r) && AllOneLine(lines)
    ensures GoodReader(ReadLines(false, r, lines))
    decreases |lines|
  {
    hide ReadLine, GoodReader, OneLine;
    if |lines| > 0 {
      LineGood(r, lines[0]);
      LinesGood(ReadLine(false, r, lines[0]), lines[1..]);
    }
  }

  lemma {:induction false} SplitIsOneLine(s: string)
    ensures AllOneLine(Split(s, '\n'))
  {
    if |s| > 0 {
      SplitIsOneLine(s[1..]);
    }
  }

  /** From any text whatever the source reads rules that can be printed again: trimmed, on one line,
      and named by something. */
  lemma RulesAreGood(css: string)
    ensures GoodRules(RulesOf(css, false))
  {
    SplitIsOneLine(css);
    assert GoodReader(START);
    LinesGood(START, Split(css, '\n'));
  }
}
