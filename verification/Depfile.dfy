/** depfile.parse: reads Makefile-style rules one character at a time and returns the dependencies
    of the first rule that has a target with the expected base name. */
module Depfile {

  import opened Wrappers

  /** The local variables of the parser. */
  datatype State = State(targets: seq<string>, deps: seq<string>, inDeps: bool, out: string, escape: Option<char>)

  /** What a stretch of input leads to: the parser goes on, or it has returned. */
  datatype Progress = Going(state: State) | Returned(deps: seq<string>)

  const START := State([], [], false, "", None)

  ghost predicate HasTarget(basename: string -> string, targets: seq<string>, expected: string) {
    exists t :: t in targets && basename(t) == basename(expected)
  }

  // ----- The parser as a state machine -----

  /** The end of a word: it becomes a dependency or a target unless it is empty. */
  function Flush(st: State): State {
    if st.out == "" then st
    else if st.inDeps then st.(deps := st.deps + [st.out], out := "")
    else st.(targets := st.targets + [st.out], out := "")
  }

  ghost function Step(basename: string -> string, expected: string, c: char, st: State): Progress {
    if st.escape.Some? then
      var e := st.escape.value;
      if e == '\\' && c == '\n' then Going(st)
      else Going(st.(out := (if e == '$' && c != '$' then st.out + "$" else st.out) + [c], escape := None))
    else if c == '\\' || c == '$' then Going(st.(escape := Some(c)))
    else if c == ' ' then Going(Flush(st))
    else if c == '\n' then
      if HasTarget(basename, Flush(st).targets, expected) then Returned(Flush(st).deps) else Going(START)
    else if c == ':' then Going(st.(targets := st.targets + [st.out], out := "", inDeps := true))
    else Going(st.(out := st.out + [c]))
  }

  ghost function RunLine(basename: string -> string, expected: string, line: string, st: State): Progress {
    if line == "" then Going(st)
    else
      match Step(basename, expected, line[0], st)
      case Going(next) => RunLine(basename, expected, line[1..], next)
      case Returned(deps) => Returned(deps)
  }

  function WithNewline(line: string): string {
    if line != "" && line[|line| - 1] == '\n' then line else line + "\n"
  }

  /** Every line starts without a pending escape. */
  ghost function RunLines(basename: string -> string, expected: string, lines: seq<string>, st: State): Progress {
    if lines == [] then Going(st)
    else
      match RunLine(basename, expected, WithNewline(lines[0]), st.(escape := None))
      case Going(next) => RunLines(basename, expected, lines[1..], next)
      case Returned(deps) => Returned(deps)
  }

  ghost function Parsed(basename: string -> string, lines: seq<string>, expected: string): seq<string> {
    Result(RunLines(basename, expected, lines, START))
  }

  /** What the caller gets if the input ends here. */
  function Result(p: Progress): seq<string> {
    match p
    case Going(_) => []
    case Returned(deps) => deps
  }

  // ----- The routine -----

  method MatchesAny(basename: string -> string, targets: seq<string>, expected: string) returns (b: bool)
    ensures b == HasTarget(basename, targets, expected)
  {
    for i := 0 to |targets|
      invariant forall j :: 0 <= j < i ==> basename(targets[j]) != basename(expected)
    {
      if basename(targets[i]) == basename(expected) {
        return true;
      }
    }
    return false;
  }

  lemma RunLineStep(basename: string -> string, expected: string, line: string, k: nat, st: State)
    requires k < |line|
    ensures RunLine(basename, expected, line[k..], st) ==
            match Step(basename, expected, line[k], st)
            case Going(next) => RunLine(basename, expected, line[k + 1..], next)
            case Returned(deps) => Returned(deps)
  {
    assert line[k..][1..] == line[k + 1..];
  }

  lemma RunLinesStep(basename: string -> string, expected: string, lines: seq<string>, i: nat, st: State)
    requires i < |lines|
    ensures RunLines(basename, expected, lines[i..], st) ==
            match RunLine(basename, expected, WithNewline(lines[i]), st.(escape := None))
            case Going(next) => RunLines(basename, expected, lines[i + 1..], next)
            case Returned(deps) => Returned(deps)
  {
    assert lines[i..][1..] == lines[i + 1..];
  }

  lemma RunsEnd(basename: string -> string, expected: string, line: string, lines: seq<string>, st: State)
    ensures RunLine(basename, expected, line[|line|..], st) == Going(st)
    ensures RunLines(basename, expected, lines[|lines|..], st) == Going(st)
  {
  }

  method Parse(basename: string -> string, lines: seq<string>, expected: string) returns (result: seq<string>)
    ensures result == Parsed(basename, lines, expected)
  {
    hide RunLine, RunLines, HasTarget;
    var targets: seq<string>, deps: seq<string>, inDeps, out: string := [], [], false, "";
    ghost var whole := RunLines(basename, expected, lines, START);
    ghost var pending: Option<char> := None;
    assert lines[0..] == lines;
    for i := 0 to |lines|
      invariant whole == RunLines(basename, expected, lines[i..], State(targets, deps, inDeps, out, pending))
    {
      RunLinesStep(basename, expected, lines, i, State(targets, deps, inDeps, out, pending));
      var line := lines[i];
      if line == "" || line[|line| - 1] != '\n' {
        line := line + "\n";
      }
      var escape: Option<char> := None;
      ghost var lineWhole := RunLine(basename, expected, line, State(targets, deps, inDeps, out, None));
      assert line[0..] == line;
      for k := 0 to |line|
        invariant lineWhole == RunLine(basename, expected, line[k..], State(targets, deps, inDeps, out, escape))
      {
        RunLineStep(basename, expected, line, k, State(targets, deps, inDeps, out, escape));
        var c := line[k];
        if escape.Some? {
          if escape.value == '$' && c != '$' {
            out := out + "$";
          }
          if escape.value == '\\' && c == '\n' {
            continue;
          }
          out := out + [c];
          escape := None;
          continue;
        }
        if c == '\\' || c == '$' {
          escape := Some(c);
          continue;
        } else if c == ' ' || c == '\n' {
          if out != "" {
            if inDeps {
              deps := deps + [out];
            } else {
              targets := targets + [out];
            }
          }
          out := "";
          if c == '\n' {
            var found := MatchesAny(basename, targets, expected);
            if found {
              return deps;
            }
            targets := [];
            deps := [];
            inDeps := false;
          }
          continue;
        } else if c == ':' {
          targets := targets + [out];
          out := "";
          inDeps := true;
          continue;
        }
        out := out + [c];
      }
      pending := escape;
      RunsEnd(basename, expected, line, lines, State(targets, deps, inDeps, out, escape));
    }
    RunsEnd(basename, expected, "", lines, State(targets, deps, inDeps, out, pending));
    return [];
  }

  // ----- The printer that the parser undoes -----

  /** What may stand between two words: spaces, and line ends that a backslash folds away. */
  datatype Piece = Space | Fold

  /** A word and the gap printed before it. */
  datatype Item = Item(gap: seq<Piece>, name: string)

  /** `colon` is the gap before the colon, `tail` the one before the line end. */
  datatype Rule = Rule(targets: seq<Item>, colon: seq<Piece>, deps: seq<Item>, tail: seq<Piece>)

  function PrintGap(gap: seq<Piece>): string {
    if gap == [] then "" else (if gap[0] == Space then " " else "\\\n") + PrintGap(gap[1..])
  }

  function Escape(c: char): string {
    if c == ' ' || c == ':' || c == '$' || c == '\\' then ['\\', c] else [c]
  }

  function PrintName(name: string): string {
    if name == "" then "" else Escape(name[0]) + PrintName(name[1..])
  }

  function PrintItems(items: seq<Item>): string {
    if items == [] then "" else PrintGap(items[0].gap) + PrintName(items[0].name) + PrintItems(items[1..])
  }

  function PrintRule(r: Rule): string {
    PrintItems(r.targets) + PrintGap(r.colon) + ":" + PrintItems(r.deps) + PrintGap(r.tail) + "\n"
  }

  function PrintRules(rules: seq<Rule>): string {
    if rules == [] then "" else PrintRule(rules[0]) + PrintRules(rules[1..])
  }

  function Names(items: seq<Item>): seq<string> {
    if items == [] then [] else [items[0].name] + Names(items[1..])
  }

  /** Any names without line ends, and any gaps that keep two words apart. */
  predicate Printable(items: seq<Item>) {
    && (forall i :: 0 <= i < |items| ==> items[i].name != "" && '\n' !in items[i].name)
    && (forall i :: 0 < i < |items| ==> Space in items[i].gap)
  }

  predicate PrintableRule(r: Rule) {
    r.targets != [] && Printable(r.targets) && Printable(r.deps)
  }

  /** readlines(): every line but perhaps the last ends with its line end. */
  function ReadLines(text: string): seq<string> {
    if text == "" then []
    else if text[0] == '\n' then ["\n"] + ReadLines(text[1..])
    else
      var rest := ReadLines(text[1..]);
      if rest == [] then [[text[0]]] else [[text[0]] + rest[0]] + rest[1..]
  }

  /** The targets that the parser files: a space before the colon makes an empty one of its own. */
  function ReadTargets(r: Rule): seq<string> {
    if Space in r.colon then Names(r.targets) + [""] else Names(r.targets)
  }

  /** The first rule with a matching target, or the number of rules if there is none. */
  ghost function FirstMatch(basename: string -> string, expected: string, rules: seq<Rule>): (i: nat)
    ensures i <= |rules|
  {
    if rules == [] || HasTarget(basename, Names(rules[0].targets), expected) then 0
    else 1 + FirstMatch(basename, expected, rules[1..])
  }

  /** The first rule with a matching target among those that the parser files. */
  ghost function FirstRead(basename: string -> string, expected: string, rules: seq<Rule>): (i: nat)
    ensures i <= |rules|
  {
    if rules == [] || HasTarget(basename, ReadTargets(rules[0]), expected) then 0
    else 1 + FirstRead(basename, expected, rules[1..])
  }

  function DepsOf(rules: seq<Rule>, i: nat): seq<string> {
    if i < |rules| then Names(rules[i].deps) else []
  }

  // ----- The parser undoes the printer -----

  /** The parser on a text that is not cut into lines. A line end drops a pending escape. */
  ghost function RunText(basename: string -> string, expected: string, text: string, st: State): Progress {
    if text == "" then Going(st)
    else
      match Step(basename, expected, text[0], st)
      case Going(next) => RunText(basename, expected, text[1..], if text[0] == '\n' then next.(escape := None) else next)
      case Returned(deps) => Returned(deps)
  }

  ghost function Then(basename: string -> string, expected: string, p: Progress, text: string): Progress {
    match p
    case Going(st) => RunText(basename, expected, text, st)
    case Returned(deps) => Returned(deps)
  }

  lemma {:induction false} RunTextConcat(basename: string -> string, expected: string, a: string, b: string, st: State)
    ensures RunText(basename, expected, a + b, st) == Then(basename, expected, RunText(basename, expected, a, st), b)
  {
    if a == "" {
      assert a + b == b;
    } else {
      assert (a + b)[1..] == a[1..] + b;
      match Step(basename, expected, a[0], st)
      case Going(next) => RunTextConcat(basename, expected, a[1..], b, if a[0]
          == '\n' then next.(escape := None) else next);
      case Returned(_) =>
    }
  }

  lemma OneChar(basename: string -> string, expected: string, c: char, st: State)
    ensures RunText(basename, expected, [c], st) ==
            match Step(basename, expected, c, st)
            case Going(next) => Going(if c == '\n' then next.(escape := None) else next)
            case Returned(deps) => Returned(deps)
    ensures RunLine(basename, expected, [c], st) == Step(basename, expected, c, st)
  {
    assert [c][1..] == "";
  }

  lemma Escaped(basename: string -> string, expected: string, c: char, st: State)
    requires st.escape == None
    ensures RunText(basename, expected, ['\\', c], st) == Going(if c == '\n' then st else st.(out := st.out + [c]))
  {
    OneChar(basename, expected, '\\', st);
    OneChar(basename, expected, c, st.(escape := Some('\\')));
    assert ['\\', c] == ['\\'] + [c];
    RunTextConcat(basename, expected, ['\\'], [c], st);
  }

  /** Lines read to the end, the first of them entered in the middle. */
  ghost function RunRest(basename: string -> string, expected: string, lines: seq<string>, st: State): Progress {
    if lines == [] then Going(st)
    else
      match RunLine(basename, expected, WithNewline(lines[0]), st)
      case Going(next) => RunLines(basename, expected, lines[1..], next)
      case Returned(deps) => Returned(deps)
  }

  /** The result of reading a text with its last line end supplied. */
  ghost function TextResult(basename: string -> string, expected: string, text: string, st: State): seq<string> {
    Result(RunText(basename, expected, if text == "" then "" else WithNewline(text), st))
  }

  ghost function LinesResult(basename: string -> string, expected: string, lines: seq<string>, st: State): seq<string> {
    Result(RunRest(basename, expected, lines, st))
  }

  /** One character of a text, and then the rest. */
  lemma TextStep(basename: string -> string, expected: string, c: char, rest: string, st: State)
    requires rest != "" || c == '\n'
    ensures TextResult(basename, expected, [c] + rest, st) ==
            match Step(basename, expected, c, st)
            case Going(next) => TextResult(basename, expected, rest, if c == '\n' then next.(escape := None) else next)
            case Returned(deps) => deps
  {
    hide Step;
    var text := [c] + rest;
    var full := WithNewline(text);
    assert full[0] == c && full[1..] == if rest == "" then "" else WithNewline(rest);
  }

  /** A line end closes a line. */
  lemma LineEndStep(basename: string -> string, expected: string, lines: seq<string>, st: State)
    ensures LinesResult(basename, expected, ["\n"] + lines, st) ==
            match Step(basename, expected, '\n', st)
            case Going(next) => LinesResult(basename, expected, lines, next.(escape := None))
            case Returned(deps) => deps
  {
    hide Step;
    OneChar(basename, expected, '\n', st);
    assert (["\n"] + lines)[1..] == lines && (["\n"] + lines)[0] == "\n";
    assert WithNewline("\n") == "\n";
    hide RunLine;
  }

  /** Any other character belongs to the line that follows it. */
  lemma InnerStep(basename: string -> string, expected: string, c: char, line: string, lines: seq<string>, st: State)
    requires line != ""
    ensures LinesResult(basename, expected, [[c] + line] + lines, st) ==
            match Step(basename, expected, c, st)
            case Going(next) => LinesResult(basename, expected, [line] + lines, next)
            case Returned(deps) => deps
  {
    hide Step;
    var all, rest := [[c] + line] + lines, [line] + lines;
    assert all[0] == [c] + line && all[1..] == lines && rest[0] == line && rest[1..] == lines;
    assert WithNewline([c] + line)[0] == c && WithNewline([c] + line)[1..] == WithNewline(line);
    hide RunLines;
  }

  /** The last character of a text without a line end. */
  lemma LastStep(basename: string -> string, expected: string, c: char, st: State)
    requires c != '\n'
    ensures LinesResult(basename, expected, [[c]], st) == TextResult(basename, expected, [c], st)
  {
    hide Step;
    var full := [c, '\n'];
    assert WithNewline([c]) == full && full[1..] == "\n" && [[c]][1..] == [];
    match Step(basename, expected, c, st)
    case Returned(_) =>
    case Going(next) => OneChar(basename, expected, '\n', next);
  }

  /** Cutting a text into lines changes nothing; a missing last line end is supplied. */
  lemma {:induction false} LinesAreText(basename: string -> string, expected: string, text: string, st: State)
    ensures LinesResult(basename, expected, ReadLines(text), st) == TextResult(basename, expected, text, st)
  {
    if text != "" {
      hide Step, RunText, RunRest, LinesResult, TextResult;
      var c, rest := text[0], text[1..];
      var lines := ReadLines(rest);
      assert text == [c] + rest;
      if c == '\n' {
        LineEndStep(basename, expected, lines, st);
        TextStep(basename, expected, c, rest, st);
        match Step(basename, expected, c, st)
        case Returned(_) =>
        case Going(next) => LinesAreText(basename, expected, rest, next.(escape := None));
      } else if lines == [] {
        LastStep(basename, expected, c, st);
      } else {
        NoEmptyLine(rest);
        InnerStep(basename, expected, c, lines[0], lines[1..], st);
        TextStep(basename, expected, c, rest, st);
        assert [lines[0]] + lines[1..] == lines;
        match Step(basename, expected, c, st)
        case Returned(_) =>
        case Going(next) => LinesAreText(basename, expected, rest, next);
      }
    }
  }

  lemma {:induction false} NoEmptyLine(text: string)
    ensures ReadLines(text) == [] <==> text == ""
    ensures ReadLines(text) != [] ==> ReadLines(text)[0] != ""
  {
  }

  lemma {:induction false} ParsedIsText(basename: string -> string, expected: string, text: string)
    ensures Parsed(basename, ReadLines(text), expected) == TextResult(basename, expected, text, START)
  {
    LinesAreText(basename, expected, text, START);
  }

  /** What a dollar does outside an escape: two of them are one, and before any other character it stands for itself. */
  lemma DollarIsRead(basename: string -> string, expected: string, c: char, st: State)
    requires st.escape == None
    ensures RunText(basename, expected, "$$", st) == Going(st.(out := st.out + "$"))
    ensures c != '$' ==> RunText(basename, expected, ['$', c], st) == Going(st.(out := st.out + ['$', c]))
  {
    OneChar(basename, expected, '$', st);
    OneChar(basename, expected, '$', st.(escape := Some('$')));
    OneChar(basename, expected, c, st.(escape := Some('$')));
    assert "$$" == ['$'] + ['$'] && ['$', c] == ['$'] + [c];
    assert st.out + "$" + [c] == st.out + ['$', c];
    hide RunText;
    RunTextConcat(basename, expected, ['$'], ['$'], st);
    RunTextConcat(basename, expected, ['$'], [c], st);
  }

  /** Every colon outside an escape files the word before it, empty or not, as a target, in the dependencies too. */
  lemma ColonIsRead(basename: string -> string, expected: string, st: State)
    requires st.escape == None
    ensures RunText(basename, expected, ":", st) == Going(st.(targets := st.targets + [st.out], out := "", inDeps := true))
  {
    OneChar(basename, expected, ':', st);
  }

  lemma CharIsRead(basename: string -> string, expected: string, c: char, st: State)
    requires st.escape == None && c != '\n'
    ensures RunText(basename, expected, Escape(c), st) == Going(st.(out := st.out + [c]))
  {
    Escaped(basename, expected, c, st);
    OneChar(basename, expected, c, st);
    hide RunText;
  }

  lemma NameSplits(name: string, out: string)
    requires '\n' !in name
    ensures name == "" ==> PrintName(name) == "" && out + name == out
    ensures name != "" ==> name[0] != '\n' && '\n' !in name[1..]
    ensures name != "" ==> PrintName(name) == Escape(name[0]) + PrintName(name[1..]) && out + [name[0]] + name[1..] == out + name
  {
    hide Escape;
    if name != "" {
      assert name[0] in name;
    }
  }

  lemma NothingRead(basename: string -> string, expected: string, st: State)
    ensures RunText(basename, expected, "", st) == Going(st)
  {
  }

  lemma {:induction false} NameIsRead(basename: string -> string, expected: string, name: string, st: State)
    requires st.escape == None && '\n' !in name
    ensures RunText(basename, expected, PrintName(name), st) == Going(st.(out := st.out + name))
  {
    hide RunText, PrintName, Escape;
    NameSplits(name, st.out);
    if name == "" {
      NothingRead(basename, expected, st);
    } else {
      var next := st.(out := st.out + [name[0]]);
      CharIsRead(basename, expected, name[0], st);
      RunTextConcat(basename, expected, Escape(name[0]), PrintName(name[1..]), st);
      NameIsRead(basename, expected, name[1..], next);
    }
  }

  lemma {:induction false} GapIsRead(basename: string -> string, expected: string, gap: seq<Piece>, st: State)
    requires st.escape == None
    ensures RunText(basename, expected, PrintGap(gap), st) == Going(if Space in gap then Flush(st) else st)
  {
    if gap != [] {
      var head := if gap[0] == Space then " " else "\\\n";
      var next := if gap[0] == Space then Flush(st) else st;
      assert gap == [gap[0]] + gap[1..];
      Escaped(basename, expected, '\n', st);
      OneChar(basename, expected, ' ', st);
      RunTextConcat(basename, expected, head, PrintGap(gap[1..]), st);
      GapIsRead(basename, expected, gap[1..], next);
      assert Flush(Flush(st)) == Flush(st);
    }
  }

  // ----- Main result -----

  /** The state after one more word: the word before it is filed, if a blank stands between, and it is in `out`. */
  ghost function WithItem(item: Item, st: State): State {
    var s1 := if Space in item.gap then Flush(st) else st;
    s1.(out := s1.out + item.name)
  }

  lemma ItemIsRead(basename: string -> string, expected: string, item: Item, st: State)
    requires st.escape == None && '\n' !in item.name
    ensures RunText(basename, expected, PrintGap(item.gap) + PrintName(item.name), st) == Going(WithItem(item, st))
  {
    var s1 := if Space in item.gap then Flush(st) else st;
    GapIsRead(basename, expected, item.gap, st);
    NameIsRead(basename, expected, item.name, s1);
    hide RunText, PrintGap, PrintName;
    RunTextConcat(basename, expected, PrintGap(item.gap), PrintName(item.name), st);
  }

  ghost function Filed(items: seq<Item>, st: State): State {
    if items == [] then st else Filed(items[1..], WithItem(items[0], st))
  }

  lemma PrintableRest(items: seq<Item>)
    requires Printable(items) && items != []
    ensures Printable(items[1..]) && items[0].name != "" && '\n' !in items[0].name
    ensures items[1..] != [] ==> Space in items[1..][0].gap
  {
  }

  /** The state after reading items: all but the last word are filed, the last is still in `out`. */
  lemma {:induction false} ItemsAreRead(basename: string -> string, expected: string, items: seq<Item>, st: State)
    requires st.escape == None && Printable(items)
    requires st.out != "" && items != [] ==> Space in items[0].gap
    ensures RunText(basename, expected, PrintItems(items), st) == Going(Filed(items, st))
  {
    if items != [] {
      PrintableRest(items);
      ItemIsRead(basename, expected, items[0], st);
      ItemsAreRead(basename, expected, items[1..], WithItem(items[0], st));
      hide RunText, PrintGap, PrintName, WithItem, Printable;
      RunTextConcat(basename, expected, PrintGap(items[0].gap) + PrintName(items[0].name), PrintItems(items[1..]), st);
    }
  }

  /** Once the last word is flushed too, exactly the names have been filed. */
  lemma {:induction false} FiledNames(items: seq<Item>, st: State)
    requires Printable(items)
    requires st.out != "" && items != [] ==> Space in items[0].gap
    ensures var end := Flush(Filed(items, st));
            var begin := Flush(st);
            end == if st.inDeps then begin.(deps := begin.deps + Names(items)) else begin.(targets := begin.targets + Names(items))
    ensures items != [] ==> Filed(items, st).out != ""
    ensures Filed(items, st).escape == st.escape && Filed(items, st).inDeps == st.inDeps
  {
    if items == [] {
      var begin := Flush(st);
      assert begin.deps + [] == begin.deps && begin.targets + [] == begin.targets;
    } else {
      var next := WithItem(items[0], st);
      PrintableRest(items);
      assert next.out == items[0].name;
      FiledUnfolds(items, st);
      hide Filed, Printable;
      FiledNames(items[1..], next);
      NameJoins(Flush(st).deps, Flush(st).targets, items[0].name, Names(items[1..]));
    }
  }

  lemma FiledUnfolds(items: seq<Item>, st: State)
    requires items != []
    ensures Filed(items, st) == Filed(items[1..], WithItem(items[0], st))
            && Names(items) == [items[0].name] + Names(items[1..])
  {
  }

  lemma NameJoins(deps: seq<string>, targets: seq<string>, name: string, names: seq<string>)
    ensures deps + [name] + names == deps + ([name] + names) && targets + [name] + names == targets + ([name] + names)
  {
  }

  lemma {:induction false} TargetsAreRead(basename: string -> string, expected: string, r: Rule)
    requires PrintableRule(r)
    ensures RunText(basename, expected, PrintItems(r.targets) + (PrintGap(r.colon) + ":"), START)
         == Going(State(ReadTargets(r), [], true, "", None))
  {
    hide RunText, Filed, Names;
    var st := Filed(r.targets, START);
    var last := if Space in r.colon then Flush(st) else st;
    ItemsAreRead(basename, expected, r.targets, START);
    FiledNames(r.targets, START);
    assert [] + Names(r.targets) == Names(r.targets);
    GapIsRead(basename, expected, r.colon, st);
    OneChar(basename, expected, ':', last);
    ColonFiles(basename, expected, st, last, Names(r.targets), Space in r.colon);
    RunTextConcat(basename, expected, PrintGap(r.colon), ":", st);
    RunTextConcat(basename, expected, PrintItems(r.targets), PrintGap(r.colon) + ":", START);
  }

  lemma ColonFiles(basename: string -> string, expected: string, st: State, last: State, names: seq<string>, spaced: bool)
    requires st.escape == None && !st.inDeps && st.out != "" && st.deps == []
    requires Flush(st).targets == names && last == if spaced then Flush(st) else st
    ensures Step(basename, expected, ':', last) == Going(State(if spaced then names + [""] else names, [], true, "", None))
  {
  }

  lemma {:induction false} DepsAreRead(basename: string -> string, expected: string, items: seq<Item>,
          tail: seq<Piece>, targets: seq<string>)
    requires Printable(items)
    ensures RunText(basename, expected, PrintItems(items) + (PrintGap(tail) + "\n"), State(targets, [], true, "", None)) ==
            if HasTarget(basename, targets, expected) then Returned(Names(items)) else Going(START)
  {
    var st := State(targets, [], true, "", None);
    var filed := Filed(items, st);
    ItemsAreRead(basename, expected, items, st);
    FiledNames(items, st);
    assert [] + Names(items) == Names(items);
    var last := if Space in tail then Flush(filed) else filed;
    GapIsRead(basename, expected, tail, filed);
    OneChar(basename, expected, '\n', last);
    RunTextConcat(basename, expected, PrintItems(items), PrintGap(tail) + "\n", st);
    RunTextConcat(basename, expected, PrintGap(tail), "\n", filed);
  }

  lemma {:induction false} RuleIsRead(basename: string -> string, expected: string, r: Rule)
    requires PrintableRule(r)
    ensures RunText(basename, expected, PrintRule(r), START) ==
            if HasTarget(basename, ReadTargets(r), expected) then Returned(Names(r.deps)) else Going(START)
  {
    hide RunText, HasTarget, PrintItems, PrintGap, ReadTargets;
    var head, rest := PrintItems(r.targets) + (PrintGap(r.colon) + ":"), PrintItems(r.deps) + (PrintGap(r.tail) + "\n");
    TargetsAreRead(basename, expected, r);
    DepsAreRead(basename, expected, r.deps, r.tail, ReadTargets(r));
    assert PrintRule(r) == head + rest;
    RunTextConcat(basename, expected, head, rest, START);
  }

  lemma {:induction false} RulesAreRead(basename: string -> string, expected: string, rules: seq<Rule>)
    requires forall i :: 0 <= i < |rules| ==> PrintableRule(rules[i])
    ensures Result(RunText(basename, expected, PrintRules(rules), START))
            == DepsOf(rules, FirstRead(basename, expected, rules))
  {
    hide HasTarget, PrintRule, ReadTargets, PrintableRule, Names;
    if rules != [] {
      RuleIsRead(basename, expected, rules[0]);
      RunTextConcat(basename, expected, PrintRule(rules[0]), PrintRules(rules[1..]), START);
      RulesAreRead(basename, expected, rules[1..]);
    }
  }

  lemma EmptyTargetMatches(basename: string -> string, expected: string, r: Rule)
    ensures HasTarget(basename, ReadTargets(r), expected) <==>
              HasTarget(basename, Names(r.targets), expected) || (Space in r.colon && basename("") == basename(expected))
  {
    var names := Names(r.targets);
    assert forall t :: t in names + [""] <==> t in names || t == "";
  }

  /** The parser answers from the right rule exactly if the empty name does not match, or no rule before
      that one has a space before its colon. */
  lemma {:induction false} RightRuleExactly(basename: string -> string, expected: string, rules: seq<Rule>)
    ensures FirstRead(basename, expected, rules) == FirstMatch(basename, expected, rules) <==>
              || basename("") != basename(expected)
              || forall i :: 0 <= i < FirstMatch(basename, expected, rules) ==> Space !in rules[i].colon
  {
    hide HasTarget, ReadTargets, Names;
    if rules != [] {
      EmptyTargetMatches(basename, expected, rules[0]);
      RightRuleExactly(basename, expected, rules[1..]);
      var rest := FirstMatch(basename, expected, rules[1..]);
      if !HasTarget(basename, Names(rules[0].targets), expected) {
        assert (forall i :: 0 <= i < 1 + rest ==> Space !in rules[i].colon) <==>
               Space !in rules[0].colon && forall i :: 0 <= i < rest ==> Space !in rules[1..][i].colon;
      }
    }
  }

  /** The parser undoes the printer: from the lines of any printed rules it returns exactly the
      dependencies of the first rule with a matching target among those filed, and nothing if there is
      none; that is the first rule with a matching printed target unless an empty target before it
      matches. The file need not end with a line end. */
  lemma {:induction false} ParseUndoesPrint(basename: string -> string, expected: string, rules: seq<Rule>, text: string)
    requires forall i :: 0 <= i < |rules| ==> PrintableRule(rules[i])
    requires text == PrintRules(rules) || (text != "" && text[|text| - 1] != '\n' && text + "\n" == PrintRules(rules))
    ensures Parsed(basename, ReadLines(text), expected) == DepsOf(rules, FirstRead(basename, expected, rules))
    ensures basename("") != basename(expected)
            || (forall i :: 0 <= i < FirstMatch(basename, expected, rules) ==> Space !in rules[i].colon)
            ==> Parsed(basename, ReadLines(text), expected) == DepsOf(rules, FirstMatch(basename, expected, rules))
  {
    RulesAreRead(basename, expected, rules);
    ParsedIsText(basename, expected, text);
    PrintEndsLine(rules);
    RightRuleExactly(basename, expected, rules);
  }

  lemma {:induction false} PrintEndsLine(rules: seq<Rule>)
    ensures rules != [] ==> PrintRules(rules) != "" && PrintRules(rules)[|PrintRules(rules)| - 1] == '\n'
  {
    if rules != [] {
      PrintEndsLine(rules[1..]);
    }
  }
}
