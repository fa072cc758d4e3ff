/** `findClassAndContent` and `convert`: one ActionScript class becomes one JavaScript
    file, made of the `require` header, the class comment, an `extend` call holding
    the fields and the instance functions, then the static fields and functions. */
module Assembler {
  import opened Text
  import opened Matching
  import opened Escaping
  import opened Passes
  import opened Format

  /** What the class-level patterns find: `klassCommentP` in the escaped text (the
      comment before the class), `klassP` in the text (the class name and body), and
      the four member patterns in the escaped class body. The patterns themselves are
      not part of this model. */
  datatype Patterns = Patterns(
    klassComments: string -> seq<string>,
    klasses: string -> seq<(string, string)>,
    members: string -> ClassMatches)

  /** The comment, name and body of the class a file declares. */
  datatype ClassUnit = ClassUnit(comment: string, name: string, content: string)

  /** `findClassAndContent` (as2js.py:822-852): the first class the pattern finds, with
      the first comment unescaped when it is not empty; `None` when there is no class,
      where the source returns nothing and `convert` then fails. */
  function FindClassAndContent(patterns: Patterns, text: string): (r: Option<ClassUnit>)
    ensures r.None? <==> patterns.klasses(text) == []
    ensures r.Some? ==> var first := patterns.klasses(text)[0];
      r.value.name == first.0 && r.value.content == first.1
    ensures r.Some? ==> var comments := patterns.klassComments(EscapeEnds(text));
      && (r.value.comment != "" <==> |comments| > 0 && comments[0] != "")
      && (r.value.comment != "" ==> r.value.comment == UnescapeEnds(comments[0]))
  {
    var comments := patterns.klassComments(EscapeEnds(text));
    var nameContents := patterns.klasses(text);
    if |nameContents| == 0 then None
    else
      UnescapeEndsNonEmpty(if |comments| > 0 then comments[0] else "");
      var comment := if |comments| > 0 && comments[0] != "" then UnescapeEnds(comments[0]) else "";
      Some(ClassUnit(comment, nameContents[0].0, nameContents[0].1))
  }

  /** The class comment as the file shows it: at column zero, on a line of its own. */
  function CommentPart(cfg: Config, comment: string): string {
    if comment != "" then Indented(cfg, comment, 0) + "\n" else ""
  }

  /** The opening of the class: a variable bound to the base class's `extend` call. */
  function Declaration(cfg: Config, klassName: string): string {
    "var " + klassName + " = " + cfg.baseClass + ".extend(\n{"
  }

  /** The converted file, or `None` when the text, once its vectors are converted,
      declares no class. */
  function Converted(cfg: Config, patterns: Patterns, text: string): (r: Option<string>)
    ensures r.None? <==> patterns.klasses(ConvertVector(text)) == []
  {
    var text := ConvertVector(text);
    match FindClassAndContent(patterns, text)
    case None => None
    case Some(unit) =>
      var found := patterns.members(EscapeEnds(unit.content));
      var name := unit.name;
      Some(RequiresText(cfg, text)
        + CommentPart(cfg, unit.comment)
        + Declaration(cfg, name)
        + ("\n" + PropsText(cfg, ParsedProps(cfg, name, StaticDeclarations(found), found.props), false))
        + ("\n\n" + MethodsText(cfg, name, ParsedFuncs(cfg, name, found, found.methods, true)))
        + "\n});"
        + ("\n\n" + StaticPropsText(name, ParsedProps(cfg, name, StaticDeclarations(found), found.staticProps)))
        + ("\n\n" + StaticMethodsText(name, ParsedFuncs(cfg, name, found, found.staticMethods, false))))
  }

  /** `convert` (as2js.py:868-882). */
  method Convert(cfg: Config, patterns: Patterns, text: string) returns (r: Option<string>)
    ensures r == Converted(cfg, patterns, text)
  {
    var converted := ConvertVector(text);
    var unit := FindClassAndContent(patterns, converted);
    if unit.None? {
      return None;
    }
    var klassComment, klassName, klassContent := unit.value.comment, unit.value.name, unit.value.content;
    var found := patterns.members(EscapeEnds(klassContent));
    var str := "";
    var header := Requires(cfg, converted);
    str := str + header;
    assert str == header;
    if klassComment != "" {
      var comment := Indent(cfg, klassComment, 0);
      str := str + (comment + "\n");
    }
    assert str == header + CommentPart(cfg, klassComment);
    str := str + ("var " + klassName + " = " + cfg.baseClass + ".extend(\n{");
    var props := Props(cfg, klassName, found, false);
    str := str + ("\n" + props);
    var methods := Methods(cfg, klassName, found);
    str := str + ("\n\n" + methods);
    str := str + "\n});";
    var staticProps := StaticProps(cfg, klassName, found);
    str := str + ("\n\n" + staticProps);
    var staticMethods := StaticMethods(cfg, klassName, found);
    str := str + ("\n\n" + staticMethods);
    r := Some(str);
  }

  /** The pieces of a file in order: the header is its prefix, and the declaration
      stands right after the header and the comment. */
  lemma Pieces(header: string, comment: string, decl: string, props: string, methods: string,
               close: string, staticProps: string, staticMethods: string)
    ensures var out := header + comment + decl + props + methods + close + staticProps + staticMethods;
      |header| <= |out| && out[..|header|] == header
      && OccursAt(out, decl, |header| + |comment|)
  {
    var out := header + comment + decl + props + methods + close + staticProps + staticMethods;
    var rest := props + methods + close + staticProps + staticMethods;
    assert out == header + comment + decl + rest;
    assert out[|header| + |comment|..|header| + |comment| + |decl|] == decl;
  }

  lemma OccursInPrefix(out: string, header: string, p: string, at: nat)
    requires |header| <= |out| && out[..|header|] == header && OccursAt(header, p, at)
    ensures Occurs(out, p)
  {
    assert out[at..at + |p|] == header[at..at + |p|];
    assert OccursAt(out, p, at);
  }

  /** A converted file starts with its header, so it is always in strict mode, and it
      declares the class by the name the pattern found, as an extension of the
      configured base class. */
  lemma ConvertedLayout(cfg: Config, patterns: Patterns, text: string)
    requires Converted(cfg, patterns, text).Some?
    ensures var out := Converted(cfg, patterns, text).value;
      var header := RequiresText(cfg, ConvertVector(text));
      && |header| <= |out| && out[..|header|] == header
      && Occurs(out, UseStrict)
      && Occurs(out, Declaration(cfg, patterns.klasses(ConvertVector(text))[0].0))
  {
    var v := ConvertVector(text);
    var unit := FindClassAndContent(patterns, v).value;
    var found := patterns.members(EscapeEnds(unit.content));
    var name := unit.name;
    var header := RequiresText(cfg, v);
    Pieces(header, CommentPart(cfg, unit.comment), Declaration(cfg, name),
      "\n" + PropsText(cfg, ParsedProps(cfg, name, StaticDeclarations(found), found.props), false),
      "\n\n" + MethodsText(cfg, name, ParsedFuncs(cfg, name, found, found.methods, true)),
      "\n});",
      "\n\n" + StaticPropsText(name, ParsedProps(cfg, name, StaticDeclarations(found), found.staticProps)),
      "\n\n" + StaticMethodsText(name, ParsedFuncs(cfg, name, found, found.staticMethods, false)));
    var out := Converted(cfg, patterns, text).value;
    RequiresStrict(cfg, v);
    OccursInPrefix(out, header, UseStrict, if header == UseStrict then 0 else |LintHeader|);
  }
}
