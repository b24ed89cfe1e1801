/**
 * Model of MarkdownParser.kt: the `StyleVisitor` that turns an already parsed
 * commonmark tree into styled spans, the builder it appends to, and
 * `MarkdownParser.parse`, which drives the visitor and turns a failure into
 * `null` (here `None`).
 */
module Usecases {
  import opened Wrappers
  import opened KotlinText

  /** `Style.Yellow`, `Style.Green`, `Style.Red`, and text appended outside any `withStyle`. */
  datatype Style = Yellow | Green | Red | Unstyled

  /** A run of text appended to an `AnnotatedString.Builder` under one style. */
  datatype Span = Span(text: string, style: Style)

  /** The plain text that a run of spans shows, styles dropped. */
  function TextOf(spans: seq<Span>): string
    decreases |spans|
  {
    if |spans| == 0 then "" else spans[0].text + TextOf(spans[1..])
  }

  lemma {:induction false} TextOfAppend(a: seq<Span>, b: seq<Span>)
    ensures TextOf(a + b) == TextOf(a) + TextOf(b)
    decreases |a|
  {
    if |a| == 0 {
      assert a + b == b;
    } else {
      assert (a + b)[1..] == a[1..] + b;
      TextOfAppend(a[1..], b);
    }
  }

  /**
   * The commonmark nodes the visitor distinguishes. `Container` stands for
   * every node type the visitor does not override (document, paragraph, list
   * item, emphasis, ...): the library visits its children in order.
   */
  datatype Node =
    | Text(literal: string)
    | Code(literal: string)
    | BulletList(children: seq<Node>)
    | Heading(children: seq<Node>)
    | Link(children: seq<Node>)
    | Container(children: seq<Node>)

  predicate HasChildren(n: Node) {
    !n.Text? && !n.Code?
  }

  /**
   * How a `visit` call ends: it returns, it returns after unlinking the
   * visited node's next sibling, or it throws (dereferencing a null `next`).
   */
  datatype Outcome = Returned | UnlinkedNext | Threw

  /** The spans a visit appends, in order, and how it ends. */
  datatype Visit = Visit(spans: seq<Span>, outcome: Outcome)

  const MoreInfo: string := "More info"
  const SeeAlso: string := "See also"

  /**
   * `removeSymbols`: every '[' and every ']' deleted, then a lower-case first
   * character upper-cased. The trailing colon is kept.
   */
  function RemoveSymbols(text: string): string {
    CapitalizeFirst(Remove(Remove(text, '['), ']'))
  }

  /** What `visit(Text)` appends for a literal that does not start with "More info". */
  function TextRule(literal: string): seq<Span> {
    if StartsWith(literal, SeeAlso) then [Span(literal, Yellow)]
    else if EndsWith(literal, ".") then [Span(literal + "\n", Yellow)]
    else if EndsWith(literal, ":") then [Span(RemoveSymbols(literal) + "\n", Green)]
    else [Span(literal, Green)]
  }

  /** The spans of one `split(" ")` piece of a code literal. */
  function TokenSpans(str: string): seq<Span> {
    if Contains(str, "{{") && Contains(str, "}}") then
      [ Span(SubstringBefore(str, "{{"), Red),
        Span(SubstringBefore(SubstringAfter(str, "{{"), "}}"), Yellow),
        Span(SubstringAfter(str, "}}"), Red) ]
    else
      [Span(str, Red)]
  }

  /** The annotated string built for a code node: the pieces' spans separated by unstyled spaces. */
  function CodeLine(strings: seq<string>): seq<Span>
    decreases |strings|
  {
    if |strings| == 0 then []
    else if |strings| == 1 then TokenSpans(strings[0])
    else TokenSpans(strings[0]) + [Span(" ", Unstyled)] + CodeLine(strings[1..])
  }

  /** What `visit(Code)` appends: the code line, followed by a newline when it has several pieces. */
  function CodeSpans(literal: string): seq<Span> {
    var strings := Split(literal);
    if |strings| == 1 then CodeLine(strings) else CodeLine(strings) + [Span("\n", Unstyled)]
  }

  /**
   * Visiting node `n` whose next sibling exists exactly when `hasNext`.
   * Heading and Link are overridden with empty bodies, so their children are
   * never visited.
   */
  function VisitNode(n: Node, hasNext: bool): (v: Visit)
    ensures v.outcome == UnlinkedNext ==> hasNext && n.Text? && StartsWith(n.literal, MoreInfo)
    decreases n, 1
  {
    match n
    case Text(literal) =>
      if StartsWith(literal, MoreInfo) then Visit([], if hasNext then UnlinkedNext else Threw)
      else Visit(TextRule(literal), Returned)
    case Code(literal) => Visit(CodeSpans(literal), Returned)
    case BulletList(children) =>
      var v := VisitFrom(n, 0, |children|);
      Visit([Span("\n", Unstyled)] + v.spans, v.outcome)
    case Heading(_) => Visit([], Returned)
    case Link(_) => Visit([], Returned)
    case Container(children) => VisitFrom(n, 0, |children|)
  }

  /**
   * The library's `visitChildren(parent)` from child `i` on, where `end` is one
   * past the last child still reachable through `next` links. The loop reads a
   * child's `next` before visiting it; when a "More info" text unlinks its next
   * sibling, the loop still moves on to that sibling, whose own `next` the
   * unlink has cleared, so the traversal ends after it (`end` becomes `i + 2`).
   */
  function VisitFrom(parent: Node, i: nat, end: nat): (v: Visit)
    requires HasChildren(parent) && i <= end <= |parent.children|
    ensures v.outcome != UnlinkedNext
    decreases parent, 0, end - i
  {
    if i == end then Visit([], Returned)
    else
      var v := VisitNode(parent.children[i], i + 1 < end);
      match v.outcome
      case Threw => v
      case UnlinkedNext =>
        var rest := VisitFrom(parent, i + 1, i + 2);
        Visit(v.spans + rest.spans, rest.outcome)
      case Returned =>
        var rest := VisitFrom(parent, i + 1, end);
        Visit(v.spans + rest.spans, rest.outcome)
  }

  /** One step of `VisitFrom`: visit child `i`, then go on from `i + 1` unless it threw. */
  lemma VisitFromStep(parent: Node, i: nat, end: nat)
    requires HasChildren(parent) && i < end <= |parent.children|
    ensures var v := VisitNode(parent.children[i], i + 1 < end);
      var end' := if v.outcome == UnlinkedNext then i + 2 else end;
      end' <= |parent.children| &&
      VisitFrom(parent, i, end)
        == if v.outcome == Threw then v
           else Visit(v.spans + VisitFrom(parent, i + 1, end').spans, VisitFrom(parent, i + 1, end').outcome)
  {
  }

  /** `parser.parse(markdown).accept(visitor)`: the document root has no siblings. */
  function Render(document: Node): (v: Visit)
    ensures v.outcome != UnlinkedNext
  {
    VisitNode(document, false)
  }

  /** `AnnotatedString.Builder`, as the sequence of spans appended to it. */
  class Builder {
    var spans: seq<Span>

    constructor ()
      ensures spans == []
    {
      spans := [];
    }

    /** `withStyle(style) { append(text) }` */
    method Append(text: string, style: Style)
      modifies this
      ensures spans == old(spans) + [Span(text, style)]
    {
      spans := spans + [Span(text, style)];
    }

    /** `append(annotatedString)` */
    method AppendAll(s: seq<Span>)
      modifies this
      ensures spans == old(spans) + s
    {
      spans := spans + s;
    }

    /** The extension `appendLine(text: String = "")`, called outside any style. */
    method AppendLine(text: string)
      modifies this
      ensures spans == old(spans) + [Span(text + "\n", Unstyled)]
    {
      Append(text + "\n", Unstyled);
    }

    /** The extension `appendLine(text: AnnotatedString)`: the spans, then an unstyled newline. */
    method AppendLineAll(s: seq<Span>)
      modifies this
      ensures spans == old(spans) + s + [Span("\n", Unstyled)]
    {
      AppendAll(s);
      Append("\n", Unstyled);
    }
  }

  /**
   * The `buildAnnotatedString { for ((index, str) in strings.withIndex()) ... }`
   * block of `visit(Code)`.
   */
  method BuildCodeLine(strings: seq<string>) returns (line: seq<Span>)
    ensures line == CodeLine(strings)
  {
    line := [];
    assert strings[0..] == strings;
    for index := 0 to |strings|
      invariant index < |strings| ==> CodeLine(strings) == line + CodeLine(strings[index..])
      invariant index == |strings| ==> line == CodeLine(strings)
    {
      var str := strings[index];
      ghost var before := line;
      if Contains(str, "{{") && Contains(str, "}}") {
        line := line + [Span(SubstringBefore(str, "{{"), Red)];
        line := line + [Span(SubstringBefore(SubstringAfter(str, "{{"), "}}"), Yellow)];
        line := line + [Span(SubstringAfter(str, "}}"), Red)];
        assert line == before + TokenSpans(str);
      } else {
        line := line + [Span(str, Red)];
        assert line == before + TokenSpans(str);
      }
      if index < |strings| - 1 {
        line := line + [Span(" ", Unstyled)];
      }
      CodeLineStep(strings, index);
      if index + 1 < |strings| {
        ghost var rest := CodeLine(strings[index + 1..]);
        calc {
          CodeLine(strings);
          before + CodeLine(strings[index..]);
          before + (TokenSpans(str) + [Span(" ", Unstyled)] + rest);
          { SeqAssoc(before, TokenSpans(str), [Span(" ", Unstyled)], rest); }
          line + rest;
        }
      }
    }
  }

  lemma SpansAssoc(a: seq<Span>, b: seq<Span>, c: seq<Span>)
    ensures a + (b + c) == a + b + c
  {
  }

  lemma SpansUnit(a: seq<Span>)
    ensures a + [] == a
  {
  }

  lemma SeqAssoc<T>(a: seq<T>, b: seq<T>, c: seq<T>, d: seq<T>)
    ensures a + (b + c + d) == a + b + c + d
  {
  }

  lemma CodeLineStep(strings: seq<string>, index: nat)
    requires index < |strings|
    ensures index < |strings| - 1 ==>
      CodeLine(strings[index..]) == TokenSpans(strings[index]) + [Span(" ", Unstyled)] + CodeLine(strings[index + 1..])
    ensures index == |strings| - 1 ==> CodeLine(strings[index..]) == TokenSpans(strings[index])
  {
    assert strings[index..][1..] == strings[index + 1..];
  }

  /** `StyleVisitor`, sharing the builder of the `MarkdownParser` that made it. */
  class StyleVisitor {
    const builder: Builder

    constructor (builder: Builder)
      ensures this.builder == builder
    {
      this.builder := builder;
    }

    /** The private helper `append(text, style)`. */
    method Append(text: string, style: Style)
      modifies builder
      ensures builder.spans == old(builder.spans) + [Span(text, style)]
    {
      builder.Append(text, style);
    }

    /** The private helper `appendLine(text, style)`: `withStyle(style) { appendLine(text) }`. */
    method AppendLine(text: string, style: Style)
      modifies builder
      ensures builder.spans == old(builder.spans) + [Span(text + "\n", style)]
    {
      builder.Append(text + "\n", style);
    }

    /** `node.accept(this)`: dispatch on the node type. */
    method Accept(n: Node, hasNext: bool) returns (outcome: Outcome)
      modifies builder
      ensures builder.spans == old(builder.spans) + VisitNode(n, hasNext).spans
      ensures outcome == VisitNode(n, hasNext).outcome
      decreases n, 2
    {
      match n
      case Text(literal) =>
        outcome := VisitText(literal, hasNext);
      case Code(literal) =>
        VisitCode(literal);
        outcome := Returned;
      case BulletList(_) =>
        outcome := VisitBulletList(n);
      case Heading(_) =>
        // overridden to do nothing: the children are not visited
        outcome := Returned;
      case Link(_) =>
        // overridden to do nothing: the children are not visited
        outcome := Returned;
      case Container(_) =>
        outcome := VisitChildren(n);
    }

    /** `visit(text: Text)`: the when-chain, first matching rule wins. */
    method VisitText(literal: string, hasNext: bool) returns (outcome: Outcome)
      modifies builder
      ensures builder.spans == old(builder.spans) + VisitNode(Text(literal), hasNext).spans
      ensures outcome == VisitNode(Text(literal), hasNext).outcome
    {
      outcome := Returned;
      if StartsWith(literal, MoreInfo) {
        // unlinking the next sibling throws when there is none
        outcome := if hasNext then UnlinkedNext else Threw;
      } else if StartsWith(literal, SeeAlso) {
        Append(literal, Yellow);
      } else if EndsWith(literal, ".") {
        AppendLine(literal, Yellow);
      } else if EndsWith(literal, ":") {
        AppendLine(RemoveSymbols(literal), Green);
      } else {
        Append(literal, Green);
      }
    }

    /** `visit(code: Code)` */
    method VisitCode(literal: string)
      modifies builder
      ensures builder.spans == old(builder.spans) + CodeSpans(literal)
    {
      var strings := Split(literal);
      var annotatedString := BuildCodeLine(strings);
      if |strings| == 1 {
        builder.AppendAll(annotatedString);
      } else {
        builder.AppendLineAll(annotatedString);
      }
    }

    /** `visit(bulletList: BulletList?)`: a newline, then the default traversal. */
    method VisitBulletList(n: Node) returns (outcome: Outcome)
      requires n.BulletList?
      modifies builder
      ensures builder.spans == old(builder.spans) + VisitNode(n, false).spans
      ensures outcome == VisitNode(n, false).outcome
      decreases n, 1
    {
      builder.AppendLine("");
      assert "" + "\n" == "\n";
      outcome := VisitChildren(n);
    }

    /** The library's `visitChildren(parent)`, which follows the `next` links. */
    method VisitChildren(parent: Node) returns (outcome: Outcome)
      requires HasChildren(parent)
      modifies builder
      ensures builder.spans == old(builder.spans) + VisitFrom(parent, 0, |parent.children|).spans
      ensures outcome == VisitFrom(parent, 0, |parent.children|).outcome
      decreases parent, 0
    {
      var children := parent.children;
      var i, end := 0, |children|;
      ghost var start := builder.spans;
      ghost var total := VisitFrom(parent, 0, |children|);
      ghost var done: seq<Span> := [];
      while i < end
        invariant i <= end <= |children|
        invariant builder.spans == start + done
        invariant total.spans == done + VisitFrom(parent, i, end).spans
        invariant total.outcome == VisitFrom(parent, i, end).outcome
        decreases end - i
      {
        var hasNext := i + 1 < end;
        ghost var v := VisitNode(children[i], hasNext);
        VisitFromStep(parent, i, end);
        var o := Accept(children[i], hasNext);
        ghost var before := done;
        done := done + v.spans;
        SpansAssoc(start, before, v.spans);
        if o == Threw {
          return Threw;
        }
        ghost var rest := VisitFrom(parent, i + 1, if o == UnlinkedNext then i + 2 else end);
        SpansAssoc(before, v.spans, rest.spans);
        if o == UnlinkedNext {
          // children[i + 1] is still the loop's next node, but it no longer has a next sibling
          end := i + 2;
        }
        i := i + 1;
      }
      SpansUnit(done);
      outcome := Returned;
    }
  }

  /** `MarkdownParser`: one builder, created once and never cleared, shared with its visitor. */
  class MarkdownParser {
    const builder: Builder
    const visitor: StyleVisitor

    ghost predicate Valid()
      reads this
    {
      visitor.builder == builder
    }

    constructor ()
      ensures Valid() && fresh(builder) && builder.spans == []
    {
      var b := new Builder();
      builder := b;
      visitor := new StyleVisitor(b);
    }

    /**
     * `parse(markdown)` on the tree the commonmark parser built for it: the
     * visit appends to the shared builder, and the result is everything the
     * builder holds, or `None` when the visit threw. Spans appended before the
     * throw stay in the builder.
     */
    method Parse(document: Node) returns (r: Option<seq<Span>>)
      requires Valid()
      modifies builder
      ensures builder.spans == old(builder.spans) + Render(document).spans
      ensures r == if Render(document).outcome == Threw then None else Some(builder.spans)
      ensures r.Some? ==> old(builder.spans) <= r.value
    {
      var outcome := visitor.Accept(document, false);
      if outcome == Threw {
        // the exception is caught, logged, and the result is null
        r := None;
      } else {
        r := Some(builder.spans);
      }
    }
  }
}
