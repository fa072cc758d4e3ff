/** The formatters that turn the declarations of one class into JavaScript: `indent`,
    the object members (`props`), the static fields (`staticProps`), the functions
    (`_parseFuncs`, `_formatFunc`, `methods`, `staticMethods`) and the `require`
    header (`requires`). */
module Format {
  import opened Text
  import opened Matching
  import opened Escaping
  import opened Declarations
  import opened Scope
  import opened Passes

  /** The settings of `as2js_cfg`: one indent step, the replacements of `trace(` and
      `super(`, the base class, the path substitutions of `requires`, and
      `textwrap.dedent`, which is not part of this model and is taken as given. */
  datatype Config = Config(
    indent: string,
    log: string,
    superClass: string,
    baseClass: string,
    requireSubs: seq<(string, string)>,
    dedent: string -> string)

  /** What the four extraction patterns `propP`, `staticPropP`, `methodP` and
      `staticMethodP` find in the escaped class body, in order: the groups comment,
      name, type or argument list, and definition or body. */
  datatype ClassMatches = ClassMatches(
    props: seq<Record>,
    staticProps: seq<Record>,
    methods: seq<Record>,
    staticMethods: seq<Record>)

  // ---------------------------------------------------------------------------
  // indent

  /** The lines `indent` works on: the text with `\r\n` made `\n`, dedented and split. */
  function Dedented(cfg: Config, text: string): seq<string> {
    SplitLines(cfg.dedent(ReplaceAll(text, "\r\n", "\n")))
  }

  /** A non-empty line gets the prefix; an empty one stays empty. */
  function IndentLine(prefix: string, line: string): string {
    if line != "" then prefix + line else ""
  }

  function IndentedLines(prefix: string, lines: seq<string>): (out: seq<string>)
    ensures |out| == |lines|
  {
    seq(|lines|, k requires 0 <= k < |lines| => IndentLine(prefix, lines[k]))
  }

  /** The result of `indent(text, indents)`. */
  function Indented(cfg: Config, text: string, indents: nat): string {
    Join(IndentedLines(Repeat(cfg.indent, indents), Dedented(cfg, text)), "\n")
  }

  /** `indent` (as2js.py:434-458). */
  method Indent(cfg: Config, text: string, indents: nat) returns (r: string)
    ensures r == Indented(cfg, text, indents)
  {
    var lines := Dedented(cfg, text);
    var out: seq<string> := [];
    for k := 0 to |lines|
      invariant |out| == k
      invariant forall j | 0 <= j < k :: out[j] == IndentLine(Repeat(cfg.indent, indents), lines[j])
    {
      var space := if lines[k] != "" then Repeat(cfg.indent, indents) else "";
      out := out + [space + lines[k]];
    }
    assert out == IndentedLines(Repeat(cfg.indent, indents), lines);
    r := Join(out, "\n");
  }

  lemma {:induction false} RepeatChars(s: string, n: nat, c: char)
    requires c in Repeat(s, n)
    ensures c in s
  {
    if n > 0 {
      if c !in s {
        RepeatChars(s, n - 1, c);
      }
    }
  }

  /** Split into lines again, the result of `indent` is the dedented lines, each
      non-empty one prefixed by `indents` indent steps: nothing is merged or lost, as
      long as the indent step holds no line break and the last line is not empty. */
  lemma IndentLines(cfg: Config, text: string, indents: nat)
    requires forall j | 0 <= j < |cfg.indent| :: !IsLineBreak(cfg.indent[j])
    requires var lines := Dedented(cfg, text); |lines| == 0 || lines[|lines| - 1] != ""
    ensures var lines := Dedented(cfg, text);
      var out := SplitLines(Indented(cfg, text, indents));
      |out| == |lines|
      && forall k | 0 <= k < |lines| ::
           out[k] == if lines[k] == "" then "" else Repeat(cfg.indent, indents) + lines[k]
  {
    var lines := Dedented(cfg, text);
    var prefix := Repeat(cfg.indent, indents);
    var out := IndentedLines(prefix, lines);
    forall k, j | 0 <= k < |out| && 0 <= j < |out[k]| ensures !IsLineBreak(out[k][j]) {
      if lines[k] != "" && j < |prefix| {
        RepeatChars(cfg.indent, indents, prefix[j]);
      } else if lines[k] != "" {
        assert out[k][j] == lines[k][j - |prefix|];
      }
    }
    SplitJoin(out);
  }

  // ---------------------------------------------------------------------------
  // _formatComment

  /** `_formatComment` (as2js.py:302-308): a block comment unescaped, indented to
      column zero, stripped at its start and ended by a line break. */
  function FormatComment(cfg: Config, blockComment: string): (r: string)
    ensures r == "" <==> blockComment == ""
    ensures r != "" ==> r[|r| - 1] == '\n' && (|r| == 1 || !IsUnicodeSpace(r[0]))
  {
    if blockComment == "" then ""
    else LStrip(Indented(cfg, UnescapeEnds(blockComment), 0)) + "\n"
  }

  // ---------------------------------------------------------------------------
  // _parseProps

  /** The names of the static fields and methods, each once: what a static reference
      is scoped to the class name for. */
  function StaticDeclarations(found: ClassMatches): seq<string> {
    Declarations.Declarations([found.staticProps, found.staticMethods], [])
  }

  /** The names of the instance fields and methods but the constructor. */
  function InstanceDeclarations(found: ClassMatches, klassName: string): seq<string> {
    Declarations.Declarations([found.props, found.methods], [klassName])
  }

  /** One field as `_parseProps` hands it on. */
  function ParsedProp(cfg: Config, klassName: string, staticDeclarations: seq<string>, p: Record): Record {
    Record(FormatComment(cfg, p.comment), p.name, p.detail,
      Scoped(staticDeclarations, UnescapeEnds(p.body), klassName))
  }

  function ParsedProps(cfg: Config, klassName: string, staticDeclarations: seq<string>, props: seq<Record>)
    : (parsed: seq<Record>)
    ensures |parsed| == |props|
  {
    if |props| == 0 then []
    else ParsedProps(cfg, klassName, staticDeclarations, props[..|props| - 1])
         + [ParsedProp(cfg, klassName, staticDeclarations, props[|props| - 1])]
  }

  lemma ParsedPropsSnoc(cfg: Config, klassName: string, staticDeclarations: seq<string>, props: seq<Record>, k: nat)
    requires k < |props|
    ensures ParsedProps(cfg, klassName, staticDeclarations, props[..k + 1])
         == ParsedProps(cfg, klassName, staticDeclarations, props[..k]) + [ParsedProp(cfg, klassName, staticDeclarations, props[k])]
  {
    assert props[..k + 1][..k] == props[..k];
  }

  /** `_parseProps` (as2js.py:323-336), given what its pattern found: each field keeps
      its name and type, its comment is formatted and its definition unescaped, with
      the static members it uses scoped to the class. */
  method ParseProps(cfg: Config, klassName: string, found: ClassMatches, props: seq<Record>)
    returns (formatted: seq<Record>)
    ensures formatted == ParsedProps(cfg, klassName, StaticDeclarations(found), props)
  {
    var staticDeclarations := FindDeclarations([found.staticProps, found.staticMethods], []);
    formatted := [];
    for k := 0 to |props|
      invariant formatted == ParsedProps(cfg, klassName, staticDeclarations, props[..k])
    {
      ParsedPropsSnoc(cfg, klassName, staticDeclarations, props, k);
      var blockComment := FormatComment(cfg, props[k].comment);
      var definition := UnescapeEnds(props[k].body);
      definition := ScopeMembers(staticDeclarations, definition, klassName);
      var parsed := Record(blockComment, props[k].name, props[k].detail, definition);
      formatted := formatted + [parsed];
    }
    assert props[..|props|] == props;
  }

  // ---------------------------------------------------------------------------
  // props

  /** An object literal takes `:` where a constructor assigns with `=`. */
  function ObjectValue(definition: string): string {
    ReplaceAll(ReplaceAll(definition, " =", ":"), "=", ":")
  }

  /** The line of one field: outside a constructor an object member with its comment
      and `: undefined` when it has no definition; in a constructor an assignment. */
  function PropLine(p: Record, inConstructor: bool): string {
    (if !inConstructor then p.comment else "")
    + p.name
    + (if p.body == "" then ": undefined" else if inConstructor then p.body else ObjectValue(p.body))
  }

  /** Whether a field gives a line: always as a member, only when defined in a constructor. */
  predicate PropIncluded(p: Record, inConstructor: bool) {
    !inConstructor || p.body != ""
  }

  function PropLines(props: seq<Record>, inConstructor: bool): seq<string> {
    if |props| == 0 then []
    else
      var p := props[|props| - 1];
      PropLines(props[..|props| - 1], inConstructor) + (if PropIncluded(p, inConstructor) then [PropLine(p, inConstructor)] else [])
  }

  function Separator(inConstructor: bool): string {
    if inConstructor then ";" else ","
  }

  /** The text of `props`: the lines joined by the separator and a line break,
      indented once, and one more separator at the end; "" without lines. */
  function PropsText(cfg: Config, props: seq<Record>, inConstructor: bool): string {
    var lines := PropLines(props, inConstructor);
    if |lines| == 0 then ""
    else
      var sep := Separator(inConstructor);
      Indented(cfg, Join(lines, sep + "\n"), 1) + sep
  }

  lemma PropLinesSnoc(props: seq<Record>, k: nat, inConstructor: bool)
    requires k < |props|
    ensures PropLines(props[..k + 1], inConstructor)
         == PropLines(props[..k], inConstructor)
            + (if PropIncluded(props[k], inConstructor) then [PropLine(props[k], inConstructor)] else [])
  {
    assert props[..k + 1][..k] == props[..k];
  }

  /** The loop of `props` (as2js.py:273-299) over the parsed fields. */
  method FormatProps(cfg: Config, props: seq<Record>, inConstructor: bool) returns (str: string)
    ensures str == PropsText(cfg, props, inConstructor)
  {
    var strs: seq<string> := [];
    for k := 0 to |props|
      invariant strs == PropLines(props[..k], inConstructor)
    {
      PropLinesSnoc(props, k, inConstructor);
      var definition := props[k].body;
      var included: bool;
      if definition != "" {
        if !inConstructor {
          definition := ReplaceAll(ReplaceAll(definition, " =", ":"), "=", ":");
        }
        included := true;
      } else {
        definition := ": undefined";
        included := false;
      }
      var line := "";
      if !inConstructor {
        if props[k].comment != "" {
          line := props[k].comment;
        }
      }
      assert line == if !inConstructor then props[k].comment else "";
      assert definition == if props[k].body == "" then ": undefined"
        else if inConstructor then props[k].body else ObjectValue(props[k].body);
      line := line + props[k].name + definition;
      if !inConstructor || included {
        strs := strs + [line];
      }
    }
    assert props[..|props|] == props;
    str := "";
    var separator := if inConstructor then ";" else ",";
    if |strs| > 0 {
      var lineSeparator := separator + "\n";
      str := Join(strs, lineSeparator);
      str := Indent(cfg, str, 1);
      str := str + separator;
    }
  }

  /** `props` (as2js.py:236-299): the instance fields as object members, or, in a
      constructor, as the assignments of those that are defined. */
  method Props(cfg: Config, klassName: string, found: ClassMatches, inConstructor: bool)
    returns (str: string)
    ensures str == PropsText(cfg, ParsedProps(cfg, klassName, StaticDeclarations(found), found.props), inConstructor)
  {
    var props := ParseProps(cfg, klassName, found, found.props);
    str := FormatProps(cfg, props, inConstructor);
  }

  /** Outside a constructor every field gives its line, in order. */
  lemma {:induction false} MemberLines(props: seq<Record>)
    ensures |PropLines(props, false)| == |props|
    ensures forall k | 0 <= k < |props| :: PropLines(props, false)[k] == PropLine(props[k], false)
  {
    if |props| > 0 {
      MemberLines(props[..|props| - 1]);
    }
  }

  /** The fields that have a definition, in order. */
  function Defined(props: seq<Record>): (defined: seq<Record>)
    ensures forall k | 0 <= k < |defined| :: defined[k].body != ""
  {
    if |props| == 0 then []
    else
      var p := props[|props| - 1];
      Defined(props[..|props| - 1]) + (if p.body != "" then [p] else [])
  }

  /** In a constructor exactly the defined fields give a line, each the name followed
      by its definition as written. */
  lemma {:induction false} AssignmentLines(props: seq<Record>)
    ensures var defined := Defined(props);
      |PropLines(props, true)| == |defined|
      && forall k | 0 <= k < |defined| :: PropLines(props, true)[k] == defined[k].name + defined[k].body
  {
    if |props| > 0 {
      AssignmentLines(props[..|props| - 1]);
    }
  }

  /** A member's value holds no `=` any more. */
  lemma ObjectValueHasNoAssignment(definition: string)
    ensures '=' !in ObjectValue(definition)
  {
    ReplaceRemovesChar(ReplaceAll(definition, " =", ":"), '=', ":");
  }

  /** `props` gives "" exactly when no field gives a line; otherwise its text ends
      with the separator. */
  lemma PropsTextEmpty(cfg: Config, props: seq<Record>, inConstructor: bool)
    ensures var str := PropsText(cfg, props, inConstructor);
      (str == "" <==> if inConstructor then Defined(props) == [] else props == [])
      && (str != "" ==> str[|str| - 1] == Separator(inConstructor)[0])
  {
    if inConstructor {
      AssignmentLines(props);
    } else {
      MemberLines(props);
    }
  }

  // ---------------------------------------------------------------------------
  // staticProps

  /** A static field becomes an assignment to the property of the class. */
  function StaticPropLine(klassName: string, p: Record): string {
    p.comment + klassName + "." + p.name + p.body + ";"
  }

  function StaticPropLines(klassName: string, props: seq<Record>): (lines: seq<string>)
    ensures |lines| == |props|
  {
    seq(|props|, k requires 0 <= k < |props| => StaticPropLine(klassName, props[k]))
  }

  function StaticPropsText(klassName: string, props: seq<Record>): string {
    Join(StaticPropLines(klassName, props), "\n")
  }

  lemma StaticPropLinesSnoc(klassName: string, props: seq<Record>, k: nat)
    requires k < |props|
    ensures StaticPropLines(klassName, props[..k + 1])
         == StaticPropLines(klassName, props[..k]) + [StaticPropLine(klassName, props[k])]
  {
    var a := StaticPropLines(klassName, props[..k + 1]);
    var b := StaticPropLines(klassName, props[..k]) + [StaticPropLine(klassName, props[k])];
    forall j | 0 <= j <= k ensures a[j] == b[j] {
      assert props[..k + 1][j] == props[j];
    }
  }

  /** `staticProps` (as2js.py:61-109). */
  method StaticProps(cfg: Config, klassName: string, found: ClassMatches) returns (str: string)
    ensures str == StaticPropsText(klassName, ParsedProps(cfg, klassName, StaticDeclarations(found), found.staticProps))
  {
    var staticProps := ParseProps(cfg, klassName, found, found.staticProps);
    var strs: seq<string> := [];
    for k := 0 to |staticProps|
      invariant strs == StaticPropLines(klassName, staticProps[..k])
    {
      StaticPropLinesSnoc(klassName, staticProps, k);
      var line := "";
      if staticProps[k].comment != "" {
        line := staticProps[k].comment;
      }
      assert line == staticProps[k].comment;
      line := line + klassName + "." + staticProps[k].name + staticProps[k].body + ";";
      strs := strs + [line];
    }
    assert staticProps[..|staticProps|] == staticProps;
    str := Join(strs, "\n");
  }

  /** `sep.join(parts)` ends with the last part. */
  lemma JoinEndsWithLast(parts: seq<string>, sep: string)
    requires |parts| > 0
    ensures var j := Join(parts, sep); var last := parts[|parts| - 1];
      |last| <= |j| && j[|j| - |last|..] == last
  {
    var init := parts[..|parts| - 1];
    assert parts == init + [parts[|parts| - 1]];
    JoinSnoc(init, parts[|parts| - 1], sep);
  }

  /** The static fields give "" exactly when there are none; otherwise the text ends
      with the `;` of the last assignment. */
  lemma StaticPropsTextEmpty(klassName: string, props: seq<Record>)
    ensures var str := StaticPropsText(klassName, props);
      (str == "" <==> props == []) && (str != "" ==> str[|str| - 1] == ';')
  {
    if |props| > 0 {
      JoinEndsWithLast(StaticPropLines(klassName, props), "\n");
    }
  }

  // ---------------------------------------------------------------------------
  // _parseFuncs

  /** One function as `_parseFuncs` hands it on: its formatted comment and name, the
      parameter list, the converted body, the constructor's field assignments and the
      lines that give parameters their defaults. */
  datatype Func = Func(
    blockComment: string,
    name: string,
    argumentText: string,
    content: string,
    defaults: string,
    defaultArguments: seq<string>)

  function ArgumentNames(arguments: seq<Argument>): (names: seq<string>)
    ensures |names| == |arguments|
    ensures forall k | 0 <= k < |arguments| :: names[k] == arguments[k].name
  {
    seq(|arguments|, k requires 0 <= k < |arguments| => arguments[k].name)
  }

  /** The lines that assign a parameter its default when the caller passes none. */
  function DefaultGuard(cfg: Config, a: Argument): seq<string> {
    if a.definition == "" then []
    else ["if (undefined === " + a.name + ") {", cfg.indent + a.name + a.definition + ";", "}"]
  }

  function DefaultArguments(cfg: Config, arguments: seq<Argument>): seq<string> {
    if |arguments| == 0 then []
    else DefaultArguments(cfg, arguments[..|arguments| - 1]) + DefaultGuard(cfg, arguments[|arguments| - 1])
  }

  lemma ArgumentNamesSnoc(arguments: seq<Argument>, k: nat)
    requires k < |arguments|
    ensures ArgumentNames(arguments[..k + 1]) == ArgumentNames(arguments[..k]) + [arguments[k].name]
  {
  }

  lemma DefaultArgumentsSnoc(cfg: Config, arguments: seq<Argument>, k: nat)
    requires k < |arguments|
    ensures DefaultArguments(cfg, arguments[..k + 1]) == DefaultArguments(cfg, arguments[..k]) + DefaultGuard(cfg, arguments[k])
  {
    assert arguments[..k + 1][..k] == arguments[..k];
  }

  lemma AppendThree<T>(s: seq<T>, g: seq<T>)
    requires |g| == 3
    ensures s + [g[0]] + [g[1]] + [g[2]] == s + g
  {
  }

  lemma DeclareStep(names: seq<string>, x: string)
    ensures FirstOccurrences(names + [x])
         == FirstOccurrences(names) + (if x in FirstOccurrences(names) then [] else [x])
  {
    FirstOccurrencesSnoc(names, x);
    FirstOccurrencesSpec(names);
  }

  /** The loop of `_parseFuncs` over the parameters (as2js.py:389-397): the names in
      order, the guard lines of those with a default, and the names each once. */
  method ParseArguments(cfg: Config, argumentAS: string)
    returns (argumentsJS: seq<string>, defaultArguments: seq<string>, argumentDeclarations: seq<string>)
    ensures argumentsJS == ArgumentNames(Arguments(argumentAS))
    ensures defaultArguments == DefaultArguments(cfg, Arguments(argumentAS))
    ensures argumentDeclarations == FirstOccurrences(argumentsJS)
  {
    var arguments := Arguments(argumentAS);
    argumentsJS := [];
    defaultArguments := [];
    argumentDeclarations := [];
    for k := 0 to |arguments|
      invariant argumentsJS == ArgumentNames(arguments[..k])
      invariant defaultArguments == DefaultArguments(cfg, arguments[..k])
      invariant argumentDeclarations == FirstOccurrences(argumentsJS)
    {
      var declaration := arguments[k].name;
      var definition := arguments[k].definition;
      ArgumentNamesSnoc(arguments, k);
      DefaultArgumentsSnoc(cfg, arguments, k);
      DeclareStep(argumentsJS, declaration);
      if declaration !in argumentDeclarations {
        argumentDeclarations := argumentDeclarations + [declaration];
      }
      argumentsJS := argumentsJS + [declaration];
      if definition != "" {
        var guard := ["if (undefined === " + declaration + ") {", cfg.indent + declaration + definition + ";", "}"];
        ghost var before := defaultArguments;
        defaultArguments := defaultArguments + [guard[0]];
        defaultArguments := defaultArguments + [guard[1]];
        defaultArguments := defaultArguments + [guard[2]];
        AppendThree(before, guard);
      }
    }
    assert arguments[..|arguments|] == arguments;
  }

  /** The passes over a body, in the order `_parseFuncs` applies them; an empty or
      blank body becomes "". */
  function FuncBody(cfg: Config, content: string): string {
    if content == "" || IsAllSpace(content) then ""
    else
      IsInstanceOf(IntType(AsType(CatchPass(SuperClass(Trace(WithoutLocalTypes(content), cfg.log), cfg.superClass)))))
  }

  /** The guard lines as the body starts with them: on a line of their own, indented once. */
  function GuardText(cfg: Config, defaultArguments: seq<string>): string {
    var text := Join(defaultArguments, "\n");
    if text == "" then "" else "\n" + Indented(cfg, text, 1)
  }

  /** A constructor's field assignments, with the instance members they use scoped to `this`. */
  function FuncDefaults(cfg: Config, klassName: string, found: ClassMatches, thisInstance: seq<string>): string {
    var defaults := PropsText(cfg, ParsedProps(cfg, klassName, StaticDeclarations(found), found.props), true);
    if defaults == "" then "" else Scoped(thisInstance, defaults, "this")
  }

  /** One function as `_parseFuncs` formats it. A parameter shadows a member of the
      same name, so the members the body is scoped against leave the parameters out;
      instance members are scoped to `this` before static ones to the class. */
  function ParsedFunc(cfg: Config, klassName: string, found: ClassMatches, instance: bool, func: Record): Func {
    var arguments := Arguments(func.detail);
    var names := ArgumentNames(arguments);
    var declared := FirstOccurrences(names);
    var thisInstance := Excluded(InstanceDeclarations(found, klassName), declared);
    var thisStatic := Excluded(StaticDeclarations(found), declared);
    var defaultArguments := DefaultArguments(cfg, arguments);
    var content := GuardText(cfg, defaultArguments) + Indented(cfg, FuncBody(cfg, func.body), 1);
    var content := if instance then Scoped(thisInstance, content, "this") else content;
    Func(FormatComment(cfg, func.comment), Indented(cfg, func.name, 0), Join(names, ", "),
      Scoped(thisStatic, content, klassName),
      if instance then FuncDefaults(cfg, klassName, found, thisInstance) else "",
      defaultArguments)
  }

  /** The body of the loop of `_parseFuncs` (as2js.py:383-430) for one function. */
  method ParseFunc(cfg: Config, klassName: string, found: ClassMatches, instance: bool,
                   staticDeclarations: seq<string>, instanceDeclarations: seq<string>, func: Record)
    returns (f: Func)
    requires staticDeclarations == StaticDeclarations(found)
    requires instance ==> instanceDeclarations == InstanceDeclarations(found, klassName)
    ensures f == ParsedFunc(cfg, klassName, found, instance, func)
  {
    var blockComment := FormatComment(cfg, func.comment);
    var name := Indent(cfg, func.name, 0);
    var argumentsJS, defaultArguments, argumentDeclarations := ParseArguments(cfg, func.detail);
    var thisInstanceDeclarations: seq<string> := [];
    if instance {
      thisInstanceDeclarations := Exclude(instanceDeclarations, argumentDeclarations);
    }
    var thisStaticDeclarations := Exclude(staticDeclarations, argumentDeclarations);
    var defaults := "";
    if instance {
      defaults := Props(cfg, klassName, found, true);
      if defaults != "" {
        defaults := ScopeMembers(thisInstanceDeclarations, defaults, "this");
      }
      assert defaults == FuncDefaults(cfg, klassName, found, thisInstanceDeclarations);
    }
    var argumentText := Join(argumentsJS, ", ");
    var defaultArgumentText := Join(defaultArguments, "\n");
    if defaultArgumentText != "" {
      var indented := Indent(cfg, defaultArgumentText, 1);
      defaultArgumentText := "\n" + indented;
    }
    assert defaultArgumentText == GuardText(cfg, defaultArguments);
    var content := func.body;
    if content == "" || IsAllSpace(content) {
      content := "";
    } else {
      content := LocalVariables(content);
      content := Trace(content, cfg.log);
      content := SuperClass(content, cfg.superClass);
      content := CatchPass(content);
      content := AsType(content);
      content := IntType(content);
      content := IsInstanceOf(content);
    }
    assert content == FuncBody(cfg, func.body);
    content := Indent(cfg, content, 1);
    content := defaultArgumentText + content;
    if instance {
      content := ScopeMembers(thisInstanceDeclarations, content, "this");
    }
    content := ScopeMembers(thisStaticDeclarations, content, klassName);
    f := Func(blockComment, name, argumentText, content, defaults, defaultArguments);
  }

  function ParsedFuncs(cfg: Config, klassName: string, found: ClassMatches, funcs: seq<Record>, instance: bool)
    : seq<Func>
  {
    if |funcs| == 0 then []
    else ParsedFuncs(cfg, klassName, found, funcs[..|funcs| - 1], instance)
         + [ParsedFunc(cfg, klassName, found, instance, funcs[|funcs| - 1])]
  }

  lemma ParsedFuncsSnoc(cfg: Config, klassName: string, found: ClassMatches, funcs: seq<Record>, instance: bool, k: nat)
    requires k < |funcs|
    ensures ParsedFuncs(cfg, klassName, found, funcs[..k + 1], instance)
         == ParsedFuncs(cfg, klassName, found, funcs[..k], instance) + [ParsedFunc(cfg, klassName, found, instance, funcs[k])]
  {
    assert funcs[..k + 1][..k] == funcs[..k];
  }

  /** `_parseFuncs` (as2js.py:338-432), given what `funcP` found: the member names are
      gathered once, then every function is formatted in order. */
  method ParseFuncs(cfg: Config, klassName: string, found: ClassMatches, funcs: seq<Record>, instance: bool)
    returns (formatted: seq<Func>)
    ensures formatted == ParsedFuncs(cfg, klassName, found, funcs, instance)
  {
    var staticDeclarations := FindDeclarations([found.staticProps, found.staticMethods], []);
    var instanceDeclarations: seq<string> := [];
    if instance {
      instanceDeclarations := FindDeclarations([found.props, found.methods], [klassName]);
    }
    formatted := [];
    for k := 0 to |funcs|
      invariant formatted == ParsedFuncs(cfg, klassName, found, funcs[..k], instance)
    {
      ParsedFuncsSnoc(cfg, klassName, found, funcs, instance, k);
      var f := ParseFunc(cfg, klassName, found, instance, staticDeclarations, instanceDeclarations, funcs[k]);
      formatted := formatted + [f];
    }
    assert funcs[..|funcs|] == funcs;
  }

  // ---------------------------------------------------------------------------
  // What `_parseFuncs` promises

  predicate ParameterChar(c: char) {
    IsWordChar(c) || c == ',' || c == ' '
  }

  /** The JavaScript parameter list keeps only the names: no type annotation and no
      default value of the ActionScript list survives in it. */
  lemma ParameterList(cfg: Config, klassName: string, found: ClassMatches, instance: bool, func: Record)
    ensures forall c | c in ParsedFunc(cfg, klassName, found, instance, func).argumentText :: ParameterChar(c)
  {
    var names := ArgumentNames(Arguments(func.detail));
    ArgumentsShaped(func.detail);
    forall c | c in Join(names, ", ") ensures ParameterChar(c) {
      JoinChars(names, ", ", c);
    }
  }

  /** The parameters that have a default, in order. */
  function WithDefault(arguments: seq<Argument>): (defaulted: seq<Argument>)
    ensures forall k | 0 <= k < |defaulted| :: defaulted[k].definition != ""
  {
    if |arguments| == 0 then []
    else
      var a := arguments[|arguments| - 1];
      WithDefault(arguments[..|arguments| - 1]) + (if a.definition != "" then [a] else [])
  }

  /** `g` holds three lines per parameter of `d`, in order: a test for `undefined`, the
      assignment of the default indented once, and the closing brace. */
  predicate GuardsFor(cfg: Config, d: seq<Argument>, g: seq<string>) {
    && |g| == 3 * |d|
    && forall j | 0 <= j < |d| ::
         g[3 * j] == "if (undefined === " + d[j].name + ") {"
         && g[3 * j + 1] == cfg.indent + d[j].name + d[j].definition + ";"
         && g[3 * j + 2] == "}"
  }

  lemma GuardsSnoc(cfg: Config, d: seq<Argument>, g: seq<string>, a: Argument)
    requires GuardsFor(cfg, d, g) && a.definition != ""
    ensures GuardsFor(cfg, d + [a], g + DefaultGuard(cfg, a))
  {
    var d', g' := d + [a], g + DefaultGuard(cfg, a);
    forall j | 0 <= j < |d'|
      ensures g'[3 * j] == "if (undefined === " + d'[j].name + ") {"
      ensures g'[3 * j + 1] == cfg.indent + d'[j].name + d'[j].definition + ";"
      ensures g'[3 * j + 2] == "}"
    {
      if j < |d| {
        assert d'[j] == d[j];
        assert g'[3 * j] == g[3 * j] && g'[3 * j + 1] == g[3 * j + 1] && g'[3 * j + 2] == g[3 * j + 2];
      }
    }
  }

  /** Each parameter with a default gives its three lines, in the order of the
      parameters. */
  lemma {:induction false} DefaultGuards(cfg: Config, arguments: seq<Argument>)
    ensures GuardsFor(cfg, WithDefault(arguments), DefaultArguments(cfg, arguments))
  {
    if |arguments| == 0 {
      assert WithDefault(arguments) == [] && DefaultArguments(cfg, arguments) == [];
    } else {
      var init, a := arguments[..|arguments| - 1], arguments[|arguments| - 1];
      DefaultGuards(cfg, init);
      if a.definition != "" {
        GuardsSnoc(cfg, WithDefault(init), DefaultArguments(cfg, init), a);
      } else {
        assert WithDefault(arguments) == WithDefault(init);
        assert DefaultArguments(cfg, arguments) == DefaultArguments(cfg, init) + [];
      }
    }
  }

  /** A parameter is never scoped, neither to `this` nor to the class, whatever the
      body: the members it would be looked up among leave out every parameter name. */
  lemma ParametersNotScoped(found: ClassMatches, klassName: string, argumentAS: string, content: string)
    ensures var names := ArgumentNames(Arguments(argumentAS));
      var declared := FirstOccurrences(names);
      forall x | x in names ::
        x !in MemberIdentifiers(Excluded(InstanceDeclarations(found, klassName), declared), content)
        && x !in MemberIdentifiers(Excluded(StaticDeclarations(found), declared), content)
  {
    var names := ArgumentNames(Arguments(argumentAS));
    var declared := FirstOccurrences(names);
    FirstOccurrencesSpec(names);
    ExcludedMembers(InstanceDeclarations(found, klassName), declared);
    ExcludedMembers(StaticDeclarations(found), declared);
    MemberIdentifiersSpec(Excluded(InstanceDeclarations(found, klassName), declared), content);
    MemberIdentifiersSpec(Excluded(StaticDeclarations(found), declared), content);
  }

  /** Only an instance function carries field assignments, and only when some field of
      the class has a definition. */
  lemma DefaultsNeedDefinitions(cfg: Config, klassName: string, found: ClassMatches, instance: bool, func: Record)
    requires !instance || Defined(ParsedProps(cfg, klassName, StaticDeclarations(found), found.props)) == []
    ensures ParsedFunc(cfg, klassName, found, instance, func).defaults == ""
  {
    PropsTextEmpty(cfg, ParsedProps(cfg, klassName, StaticDeclarations(found), found.props), true);
  }

  // ---------------------------------------------------------------------------
  // _formatFunc, methods, staticMethods

  /** `_formatFunc` (as2js.py:461-466): comment, name, operator, the function literal. */
  function FormatFunc(f: Func, operator: string): string {
    f.blockComment + f.name + operator + "function(" + f.argumentText + ")\n{" + f.content + "\n}"
  }

  /** A formatted function reads back as its parts: it starts with the comment, the
      name, the operator and `function(`, then come the parameters, `)`, a line break
      and `{`, the body, and it ends with a line break and `}`. */
  lemma FormatFuncLayout(f: Func, operator: string)
    ensures var r := FormatFunc(f, operator);
      var head := f.blockComment + f.name + operator + "function(";
      var open := |head| + |f.argumentText|;
      && |r| == open + 3 + |f.content| + 2
      && r[..|head|] == head
      && r[|head|..open] == f.argumentText
      && r[open..open + 3] == ")\n{"
      && r[open + 3..|r| - 2] == f.content
      && r[|r| - 2..] == "\n}"
  {
    var head := f.blockComment + f.name + operator + "function(";
    var a := head + f.argumentText;
    var b := a + ")\n{";
    var c := b + f.content;
    var r := c + "\n}";
    assert r == FormatFunc(f, operator);
    assert r[..|c|] == c;
    assert c[..|b|] == b;
    assert b[..|a|] == a;
    assert r[..|head|] == a[..|head|] == head;
    assert r[|head|..|a|] == a[|head|..] == f.argumentText;
    assert r[|a|..|b|] == b[|a|..] == ")\n{";
    assert r[|b|..|c|] == c[|b|..] == f.content;
  }

  /** The function named like the class is the constructor `ctor`, whose body starts
      with the field assignments; any other function is left as it is. */
  function Renamed(klassName: string, f: Func): Func {
    if f.name != klassName then f
    else if f.defaults == "" then f.(name := "ctor")
    else f.(name := "ctor", content := "\n" + f.defaults + f.content)
  }

  /** The constructor keeps its comment and parameters, and its body is the field
      assignments, on a line of their own when there are any, before the original body. */
  lemma ConstructorGuardsFirst(klassName: string, f: Func)
    requires f.name == klassName
    ensures var g := Renamed(klassName, f);
      && g.name == "ctor" && g.blockComment == f.blockComment && g.argumentText == f.argumentText
      && |g.content| >= |f.content| && g.content[|g.content| - |f.content|..] == f.content
      && (f.defaults == "" ==> g.content == f.content)
      && (f.defaults != "" ==> g.content[..|f.defaults| + 1] == "\n" + f.defaults)
  {
    var g := Renamed(klassName, f);
    if f.defaults != "" {
      var guards := "\n" + f.defaults;
      assert g.content == guards + f.content;
      assert g.content[..|guards|] == guards;
      assert g.content[|guards|..] == f.content;
    }
  }

  function MethodEntry(cfg: Config, klassName: string, f: Func): string {
    Indented(cfg, FormatFunc(Renamed(klassName, f), ": "), 1)
  }

  function MethodEntries(cfg: Config, klassName: string, funcs: seq<Func>): seq<string> {
    if |funcs| == 0 then []
    else MethodEntries(cfg, klassName, funcs[..|funcs| - 1]) + [MethodEntry(cfg, klassName, funcs[|funcs| - 1])]
  }

  /** The instance functions as members of the object literal, separated by a blank line. */
  function MethodsText(cfg: Config, klassName: string, funcs: seq<Func>): string {
    Join(MethodEntries(cfg, klassName, funcs), ",\n\n")
  }

  lemma MethodEntriesSnoc(cfg: Config, klassName: string, funcs: seq<Func>, k: nat)
    requires k < |funcs|
    ensures MethodEntries(cfg, klassName, funcs[..k + 1])
         == MethodEntries(cfg, klassName, funcs[..k]) + [MethodEntry(cfg, klassName, funcs[k])]
  {
    assert funcs[..k + 1][..k] == funcs[..k];
  }

  /** The loop of `methods` (as2js.py:699-710) over the formatted functions. */
  method FormatMethods(cfg: Config, klassName: string, funcs: seq<Func>) returns (str: string)
    ensures str == MethodsText(cfg, klassName, funcs)
  {
    var strs: seq<string> := [];
    for k := 0 to |funcs|
      invariant strs == MethodEntries(cfg, klassName, funcs[..k])
    {
      MethodEntriesSnoc(cfg, klassName, funcs, k);
      var func := funcs[k];
      if klassName == func.name {
        func := func.(name := "ctor");
        var defaults := func.defaults;
        if defaults != "" {
          func := func.(content := "\n" + defaults + func.content);
        }
      }
      assert func == Renamed(klassName, funcs[k]);
      var entry := FormatFunc(func, ": ");
      entry := Indent(cfg, entry, 1);
      strs := strs + [entry];
    }
    assert funcs[..|funcs|] == funcs;
    str := Join(strs, ",\n\n");
  }

  /** `methods` (as2js.py:634-711): the instance functions, the constructor among them. */
  method Methods(cfg: Config, klassName: string, found: ClassMatches) returns (str: string)
    ensures str == MethodsText(cfg, klassName, ParsedFuncs(cfg, klassName, found, found.methods, true))
  {
    var funcs := ParseFuncs(cfg, klassName, found, found.methods, true);
    str := FormatMethods(cfg, klassName, funcs);
  }

  /** One entry per instance function, in order; only the constructor is renamed, and
      its body alone gains the field assignments. */
  lemma {:induction false} MethodEntriesSpec(cfg: Config, klassName: string, funcs: seq<Func>)
    ensures var entries := MethodEntries(cfg, klassName, funcs);
      |entries| == |funcs|
      && forall k | 0 <= k < |funcs| ::
           entries[k] == Indented(cfg, FormatFunc(Renamed(klassName, funcs[k]), ": "), 1)
           && (Renamed(klassName, funcs[k]).name == "ctor" || Renamed(klassName, funcs[k]) == funcs[k])
           && Renamed(klassName, funcs[k]).argumentText == funcs[k].argumentText
  {
    if |funcs| > 0 {
      MethodEntriesSpec(cfg, klassName, funcs[..|funcs| - 1]);
    }
  }

  /** A static function is assigned to a property of the class. */
  function StaticMethodEntry(klassName: string, f: Func): string {
    FormatFunc(f.(name := klassName + "." + f.name), " = ") + ";"
  }

  function StaticMethodEntries(klassName: string, funcs: seq<Func>): (entries: seq<string>)
    ensures |entries| == |funcs|
  {
    if |funcs| == 0 then []
    else StaticMethodEntries(klassName, funcs[..|funcs| - 1]) + [StaticMethodEntry(klassName, funcs[|funcs| - 1])]
  }

  function StaticMethodsText(klassName: string, funcs: seq<Func>): string {
    Join(StaticMethodEntries(klassName, funcs), "\n\n")
  }

  lemma StaticMethodEntriesSnoc(klassName: string, funcs: seq<Func>, k: nat)
    requires k < |funcs|
    ensures StaticMethodEntries(klassName, funcs[..k + 1])
         == StaticMethodEntries(klassName, funcs[..k]) + [StaticMethodEntry(klassName, funcs[k])]
  {
    assert funcs[..k + 1][..k] == funcs[..k];
  }

  /** The loop of `staticMethods` (as2js.py:762-767) over the formatted functions. */
  method FormatStaticMethods(klassName: string, funcs: seq<Func>) returns (str: string)
    ensures str == StaticMethodsText(klassName, funcs)
  {
    var strs: seq<string> := [];
    for k := 0 to |funcs|
      invariant strs == StaticMethodEntries(klassName, funcs[..k])
    {
      StaticMethodEntriesSnoc(klassName, funcs, k);
      var func := funcs[k].(name := klassName + "." + funcs[k].name);
      var entry := FormatFunc(func, " = ") + ";";
      strs := strs + [entry];
    }
    assert funcs[..|funcs|] == funcs;
    str := Join(strs, "\n\n");
  }

  /** `staticMethods` (as2js.py:717-768). */
  method StaticMethods(cfg: Config, klassName: string, found: ClassMatches) returns (str: string)
    ensures str == StaticMethodsText(klassName, ParsedFuncs(cfg, klassName, found, found.staticMethods, false))
  {
    var funcs := ParseFuncs(cfg, klassName, found, found.staticMethods, false);
    str := FormatStaticMethods(klassName, funcs);
  }

  /** The static functions give "" exactly when there are none; otherwise the text
      ends with the `};` that closes the last one. */
  lemma StaticMethodsTextEmpty(klassName: string, funcs: seq<Func>)
    ensures var str := StaticMethodsText(klassName, funcs);
      (str == "" <==> funcs == []) && (str != "" ==> |str| >= 2 && str[|str| - 2..] == "};")
  {
    if |funcs| > 0 {
      var entries := StaticMethodEntries(klassName, funcs);
      assert entries[|funcs| - 1] == StaticMethodEntry(klassName, funcs[|funcs| - 1]);
      JoinEndsWithLast(entries, "\n\n");
    }
  }

  // ---------------------------------------------------------------------------
  // requires

  predicate ModuleChar(c: char) {
    IsWordChar(c) || c == '.'
  }

  /** What a match of `requireP` from `i` consists of: `import` at the first non-space
      position, on a word boundary, then whitespace, then the group, a maximal
      non-empty run of word characters and dots. */
  predicate RequireShape(s: string, i: nat, r: Span<string>) {
    && i <= |s|
    && var a := SpanEnd(s, i, IsSpace);
    && OccursAt(s, "import", a) && (a == 0 || !IsWordChar(s[a - 1]))
    && a + 6 < r.end - |r.groups| && r.end <= |s| && |r.groups| > 0
    && IsSpace(s[a + 6]) && s[r.end - |r.groups|..r.end] == r.groups
    && (forall k | 0 <= k < |r.groups| :: ModuleChar(r.groups[k]))
    && (r.end == |s| || !ModuleChar(s[r.end]))
  }

  lemma RequireFound(s: string, i: nat, a: nat, b: nat, c: nat)
    requires i <= a < b < c <= |s| && a == SpanEnd(s, i, IsSpace)
    requires OccursAt(s, "import", a) && (a == 0 || !IsWordChar(s[a - 1]))
    requires b > a + 6 && IsSpace(s[a + 6])
    requires forall k | b <= k < c :: ModuleChar(s[k])
    requires c == |s| || !ModuleChar(s[c])
    ensures RequireShape(s, i, Span(c, s[b..c]))
  {
  }

  /** `requireP`, `\s*\bimport\s+([\w\.]+)`, tried at `i`: the group is the dotted module
      name. No backtracking is possible: fewer spaces before `import` leave a space
      where the `i` must be, fewer after it a space where the name must start. */
  function RequireMatch(s: string, i: nat): (r: Option<Span<string>>)
    ensures r.Some? ==> i < r.value.end && RequireShape(s, i, r.value)
  {
    if i > |s| then None
    else
      var a := SpanEnd(s, i, IsSpace);
      if OccursAt(s, "import", a) && (a == 0 || !IsWordChar(s[a - 1])) then
        var b := SpanEnd(s, a + 6, IsSpace);
        var c := SpanEnd(s, b, ModuleChar);
        if b > a + 6 && c > b then
          RequireFound(s, i, a, b, c);
          Some(Span(c, s[b..c]))
        else None
      else None
  }

  function RequireAt(): Matcher<string> {
    (s: string, i: nat) => RequireMatch(s, i)
  }

  /** Where `requireP` matches from `i`: after the whitespace from `i`, `import` on a word
      boundary, whitespace up to `b`, and the dotted name running from `b` to `c`. */
  predicate RequireSite(s: string, i: nat, b: nat, c: nat) {
    && i <= |s|
    && var a := SpanEnd(s, i, IsSpace);
    && OccursAt(s, "import", a) && (a == 0 || !IsWordChar(s[a - 1]))
    && a + 6 < b < c <= |s| && Run(s, a + 6, b, IsSpace) && Run(s, b, c, ModuleChar)
    && (c == |s| || !ModuleChar(s[c]))
  }

  /** At a site `requireP` matches, up to the end of the name, with the name as its group. */
  lemma RequireMatchAtSite(s: string, i: nat, b: nat, c: nat)
    requires RequireSite(s, i, b, c)
    ensures RequireMatch(s, i) == Some(Span(c, s[b..c]))
  {
    var a := SpanEnd(s, i, IsSpace);
    assert !IsSpace(s[b]) by { assert ModuleChar(s[b]); }
    SpanEndUnique(s, a + 6, IsSpace, b);
    SpanEndUnique(s, b, ModuleChar, c);
  }

  /** A match of `requireP` is at a site, and its group is the name there. */
  lemma RequireMatchSound(s: string, i: nat)
    requires RequireMatch(s, i).Some?
    ensures var r := RequireMatch(s, i).value; var b := r.end - |r.groups|;
      && b >= 0 && RequireSite(s, i, b, r.end) && r.groups == s[b..r.end]
  {
  }

  /** Every name `requireP` would match at a position that no earlier match reaches over
      gets its `require` line. */
  lemma RequireListed(subs: seq<(string, string)>, text: string, k: nat, b: nat, c: nat)
    requires RequireSite(text, k, b, c)
    requires forall p | 0 <= p < k && RequireMatch(text, p).Some? :: RequireMatch(text, p).value.end <= k
    ensures text[b..c] in FindAll(RequireAt(), text)
    ensures RequireLine(subs, text[b..c]) in RequireLines(subs, FindAll(RequireAt(), text))
  {
    RequireMatchAtSite(text, k, b, c);
    assert MatchAt(RequireAt(), text, k) == Some(Span(c, text[b..c]));
    forall p | 0 <= p < k && MatchAt(RequireAt(), text, p).Some?
      ensures MatchAt(RequireAt(), text, p).value.end <= k
    {
    }
    FindAllEvery(RequireAt(), text, 0, k);
    RequireLineIn(subs, FindAll(RequireAt(), text), text[b..c]);
  }

  lemma {:induction false} RequireLineIn(subs: seq<(string, string)>, modules: seq<string>, m: string)
    requires m in modules
    ensures RequireLine(subs, m) in RequireLines(subs, modules)
    decreases |modules|
  {
    if modules[|modules| - 1] != m {
      assert m in modules[..|modules| - 1] by {
        var k :| 0 <= k < |modules| && modules[k] == m;
        assert modules[..|modules| - 1][k] == m;
      }
      RequireLineIn(subs, modules[..|modules| - 1], m);
    }
  }

  /** The substitutions of `requireSubs` applied in turn. */
  function Substitute(mod: string, subs: seq<(string, string)>): string {
    if |subs| == 0 then mod
    else
      var sub := subs[|subs| - 1];
      ReplaceAll(Substitute(mod, subs[..|subs| - 1]), sub.0, sub.1)
  }

  /** The file a module is loaded from: its dots made slashes, `.js` added, then the
      configured substitutions. */
  function ModulePath(subs: seq<(string, string)>, moduleName: string): string {
    Substitute(ReplaceAll(moduleName, ".", "/") + ".js", subs)
  }

  function RequireLine(subs: seq<(string, string)>, moduleName: string): string {
    "require(\"" + ModulePath(subs, moduleName) + "\");"
  }

  function RequireLines(subs: seq<(string, string)>, modules: seq<string>): (lines: seq<string>)
    ensures |lines| == |modules|
  {
    if |modules| == 0 then []
    else RequireLines(subs, modules[..|modules| - 1]) + [RequireLine(subs, modules[|modules| - 1])]
  }

  const UseStrict: string := "\"use strict\";\n"
  const LintHeader: string := "/*jslint node: true */\n"

  /** The header of the converted file: one `require` per `import`, after the lint and
      strict-mode lines, or the strict-mode line alone. */
  function RequiresText(cfg: Config, text: string): string {
    var modules := FindAll(RequireAt(), text);
    if |modules| == 0 then UseStrict
    else Join([LintHeader + UseStrict] + RequireLines(cfg.requireSubs, modules), "\n") + "\n\n"
  }

  lemma SubstituteSnoc(mod: string, subs: seq<(string, string)>, j: nat)
    requires j < |subs|
    ensures Substitute(mod, subs[..j + 1]) == ReplaceAll(Substitute(mod, subs[..j]), subs[j].0, subs[j].1)
  {
    assert subs[..j + 1][..j] == subs[..j];
  }

  lemma RequireLinesSnoc(subs: seq<(string, string)>, modules: seq<string>, k: nat)
    requires k < |modules|
    ensures RequireLines(subs, modules[..k + 1]) == RequireLines(subs, modules[..k]) + [RequireLine(subs, modules[k])]
  {
    assert modules[..k + 1][..k] == modules[..k];
  }

  /** `requires` (as2js.py:772-810). */
  method Requires(cfg: Config, text: string) returns (requiresText: string)
    ensures requiresText == RequiresText(cfg, text)
  {
    var modules := FindAll(RequireAt(), text);
    requiresText := "";
    if |modules| > 0 {
      var lines: seq<string> := [];
      for k := 0 to |modules|
        invariant lines == RequireLines(cfg.requireSubs, modules[..k])
      {
        RequireLinesSnoc(cfg.requireSubs, modules, k);
        var mod := ReplaceAll(modules[k], ".", "/") + ".js";
        ghost var base := mod;
        for j := 0 to |cfg.requireSubs|
          invariant mod == Substitute(base, cfg.requireSubs[..j])
        {
          SubstituteSnoc(base, cfg.requireSubs, j);
          var (fromPath, toPath) := cfg.requireSubs[j];
          mod := ReplaceAll(mod, fromPath, toPath);
        }
        assert cfg.requireSubs[..|cfg.requireSubs|] == cfg.requireSubs;
        var req := "require(\"" + mod + "\");";
        lines := lines + [req];
      }
      assert modules[..|modules|] == modules;
      lines := [LintHeader + UseStrict] + lines;
      requiresText := Join(lines, "\n") + "\n\n";
    } else {
      requiresText := UseStrict;
    }
  }

  lemma JoinHead(first: string, rest: seq<string>, sep: string)
    requires |rest| > 0
    ensures Join([first] + rest, sep) == first + (sep + Join(rest, sep))
  {
    assert ([first] + rest)[1..] == rest;
  }

  lemma HeaderStrict(rest: string)
    ensures var r := (LintHeader + UseStrict) + rest;
      r != UseStrict && OccursAt(r, UseStrict, |LintHeader|)
  {
    var r := (LintHeader + UseStrict) + rest;
    assert r[0] == '/';
    assert r[|LintHeader|..|LintHeader| + |UseStrict|] == UseStrict;
  }

  /** The header is the strict-mode line alone exactly when the text imports nothing. */
  lemma RequiresNothing(cfg: Config, text: string)
    ensures RequiresText(cfg, text) == UseStrict <==> forall k | 0 <= k < |text| :: RequireMatch(text, k).None?
  {
    var modules := FindAll(RequireAt(), text);
    forall k | 0 <= k < |text| ensures MatchAt(RequireAt(), text, k) == RequireMatch(text, k) {
    }
    FindAllEmpty(RequireAt(), text, 0);
    if |modules| > 0 {
      RequiresHeader(cfg, text);
    }
  }

  /** With imports, the header starts with the lint line and then the strict-mode line. */
  lemma RequiresHeader(cfg: Config, text: string)
    requires FindAll(RequireAt(), text) != []
    ensures var r := RequiresText(cfg, text); r != UseStrict && OccursAt(r, UseStrict, |LintHeader|)
  {
    var rest := RequireLines(cfg.requireSubs, FindAll(RequireAt(), text));
    JoinHead(LintHeader + UseStrict, rest, "\n");
    Assoc(LintHeader + UseStrict, "\n" + Join(rest, "\n"), "\n\n");
    HeaderStrict("\n" + Join(rest, "\n") + "\n\n");
  }

  /** The converted file is always in strict mode. */
  lemma RequiresStrict(cfg: Config, text: string)
    ensures var r := RequiresText(cfg, text); OccursAt(r, UseStrict, if r == UseStrict then 0 else |LintHeader|)
  {
    if FindAll(RequireAt(), text) != [] {
      RequiresHeader(cfg, text);
    }
  }

  /** Without substitutions a module's file is its dotted name with every dot made a
      slash, followed by `.js`. */
  lemma ModulePathWithoutSubs(moduleName: string)
    ensures var p := ModulePath([], moduleName);
      |p| == |moduleName| + 3 && p[|moduleName|..] == ".js"
      && forall k | 0 <= k < |moduleName| :: p[k] == if moduleName[k] == '.' then '/' else moduleName[k]
  {
    ReplaceCharPointwise(moduleName, '.', '/');
    assert ['.'] == "." && ['/'] == "/";
  }

  /** A substitution whose source path starts the module's file, and occurs nowhere
      after it, replaces that start alone. */
  lemma ModulePathSubstituted(from: string, to: string, moduleName: string, tail: string)
    requires |from| > 0 && !Occurs(tail, from)
    requires ReplaceAll(moduleName, ".", "/") + ".js" == from + tail
    ensures ModulePath([(from, to)], moduleName) == to + tail
  {
    var file := from + tail;
    assert Substitute(file, [(from, to)]) == ReplaceAll(file, from, to);
    assert file[..|from|] == from && file[|from|..] == tail;
    ReplaceAbsent(tail, from, to);
  }

  /** The shape of the documented example (`flash.display.Bitmap` with `flash/display`
      substituted by `src/View` gives `src/View/Bitmap.js`): a substitution whose source
      is a package's path moves every class of that package to the target path. */
  lemma ModulePathPackage(package: string, name: string, to: string)
    requires '.' !in name
    requires var from := ReplaceAll(package, ".", "/"); |from| > 0 && !Occurs("/" + name + ".js", from)
    ensures ModulePath([(ReplaceAll(package, ".", "/"), to)], package + "." + name) == to + "/" + name + ".js"
  {
    var from := ReplaceAll(package, ".", "/");
    var tail := "/" + name + ".js";
    ClassInPackage(package, name);
    Assoc(from, "/" + name, ".js");
    ModulePathSubstituted(from, to, package + "." + name, tail);
    Assoc(to, "/" + name, ".js");
    Assoc(to, "/", name);
  }

  /** A class name without dots keeps its characters; its package's dots become slashes. */
  lemma ClassInPackage(package: string, name: string)
    requires '.' !in name
    ensures ReplaceAll(package + "." + name, ".", "/") == ReplaceAll(package, ".", "/") + ("/" + name)
  {
    var dotted := ['.'] + name;
    assert package + "." + name == package + dotted;
    ReplaceCharConcat(package, dotted, '.', "/");
    ReplaceCharCons('.', name, '.', "/");
    CharAbsent(name, '.');
    ReplaceAbsent(name, ['.'], "/");
  }
}
