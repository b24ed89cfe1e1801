/** Properties of the styled-span rendering modelled in module Usecases. */
module UsecasesProperties {
  import opened Wrappers
  import opened KotlinText
  import opened Usecases

  // ---- removeSymbols ----

  /** `removeSymbols` leaves no bracket behind and drops exactly the brackets. */
  lemma RemoveSymbolsDeletesBrackets(text: string)
    ensures '[' !in RemoveSymbols(text) && ']' !in RemoveSymbols(text)
    ensures |RemoveSymbols(text)| == |text| - Count(text, '[') - Count(text, ']')
  {
    var once := Remove(text, '[');
    var twice := Remove(once, ']');
    RemoveDeletes(text, '[');
    RemoveDeletes(once, ']');
    RemoveKeepsCount(text, '[', ']');
    RemoveKeepsAbsent(once, ']', '[');
    if |twice| > 0 {
      assert twice == [twice[0]] + twice[1..];
      assert RemoveSymbols(text) == [TitlecaseAscii(twice[0])] + twice[1..];
      assert twice[0] in twice;
    }
  }

  /** Deleting one character cannot bring back another one. */
  lemma {:induction false} RemoveKeepsAbsent(s: string, c: char, other: char)
    requires other !in s
    ensures other !in Remove(s, c)
    decreases |s|
  {
    if |s| > 0 {
      assert other !in s[1..] by {
        assert forall k :: 0 <= k < |s[1..]| ==> s[1..][k] == s[k + 1];
      }
      RemoveKeepsAbsent(s[1..], c, other);
    }
  }

  /** Deleting one character leaves the number of another one as it was. */
  lemma {:induction false} RemoveKeepsCount(s: string, c: char, other: char)
    requires c != other
    ensures Count(Remove(s, c), other) == Count(s, other)
    decreases |s|
  {
    if |s| > 0 {
      RemoveKeepsCount(s[1..], c, other);
      var head := if s[0] == c then "" else [s[0]];
      CountAppend(head, Remove(s[1..], c), other);
    }
  }

  lemma {:induction false} CountAppend(a: string, b: string, c: char)
    ensures Count(a + b, c) == Count(a, c) + Count(b, c)
    decreases |a|
  {
    if |a| > 0 {
      assert (a + b)[1..] == a[1..] + b;
      CountAppend(a[1..], b, c);
    } else {
      assert a + b == b;
    }
  }

  /** A text without brackets only has its first letter capitalized. */
  lemma RemoveSymbolsWithoutBrackets(text: string)
    requires '[' !in text && ']' !in text
    ensures RemoveSymbols(text) == CapitalizeFirst(text)
  {
    RemoveAbsent(text, '[');
    RemoveAbsent(text, ']');
  }

  /** The trailing colon survives `removeSymbols`. */
  lemma RemoveSymbolsKeepsColon(text: string)
    requires EndsWith(text, ":")
    ensures EndsWith(RemoveSymbols(text), ":")
  {
    var head := text[..|text| - 1];
    assert text == head + ":";
    RemoveAppend(head, ":", '[');
    RemoveAppend(Remove(head, '['), ":", ']');
    var stripped := Remove(Remove(head, '['), ']');
    assert Remove(":", '[') == ":" && Remove(":", ']') == ":";
    assert Remove(Remove(text, '['), ']') == stripped + ":";
    var r := RemoveSymbols(text);
    assert r[|r| - 1] == ':';
    assert r[|r| - 1..] == ":";
  }

  /** Applying `removeSymbols` a second time changes nothing. */
  lemma RemoveSymbolsIdempotent(text: string)
    ensures RemoveSymbols(RemoveSymbols(text)) == RemoveSymbols(text)
  {
    var r := RemoveSymbols(text);
    RemoveSymbolsDeletesBrackets(text);
    RemoveSymbolsWithoutBrackets(r);
    if |r| > 0 {
      assert CapitalizeFirst(r) == r;
    }
  }

  // ---- visit(Text) ----

  /** A "See also" text is appended inline in Yellow whatever it ends with. */
  lemma SeeAlsoWins(rest: string)
    ensures VisitNode(Text(SeeAlso + rest), true) == Visit([Span(SeeAlso + rest, Yellow)], Returned)
    ensures VisitNode(Text(SeeAlso + rest), false) == Visit([Span(SeeAlso + rest, Yellow)], Returned)
  {
    var literal := SeeAlso + rest;
    assert literal[..|SeeAlso|] == SeeAlso;
    assert !StartsWith(literal, MoreInfo) by {
      assert literal[1] == 'e' != MoreInfo[1];
    }
  }

  lemma SeeAlsoExample()
    ensures VisitNode(Text("See also: x."), true) == Visit([Span("See also: x.", Yellow)], Returned)
  {
    SeeAlsoWins(": x.");
    assert SeeAlso + ": x." == "See also: x.";
  }

  /** A sentence is a Yellow line of its own. */
  lemma SentenceLine(literal: string, hasNext: bool)
    requires !StartsWith(literal, MoreInfo) && !StartsWith(literal, SeeAlso)
    requires EndsWith(literal, ".")
    ensures VisitNode(Text(literal), hasNext) == Visit([Span(literal + "\n", Yellow)], Returned)
  {
  }

  /** A label is a Green line of its own, brackets removed and first letter capitalized. */
  lemma LabelLine(literal: string, hasNext: bool)
    requires !StartsWith(literal, MoreInfo) && !StartsWith(literal, SeeAlso)
    requires EndsWith(literal, ":")
    ensures VisitNode(Text(literal), hasNext) == Visit([Span(RemoveSymbols(literal) + "\n", Green)], Returned)
    ensures EndsWith(RemoveSymbols(literal), ":")
  {
    assert !EndsWith(literal, ".") by {
      assert literal[|literal| - 1] == ':';
    }
    RemoveSymbolsKeepsColon(literal);
  }

  /** Any other text is appended inline, unchanged, in Green. */
  lemma PlainText(literal: string)
    requires !StartsWith(literal, MoreInfo) && !StartsWith(literal, SeeAlso)
    requires !EndsWith(literal, ".") && !EndsWith(literal, ":")
    ensures VisitNode(Text(literal), true) == Visit([Span(literal, Green)], Returned)
    ensures VisitNode(Text(literal), false) == Visit([Span(literal, Green)], Returned)
  {
  }

  // ---- visit(Code) ----

  /**
   * A piece whose first "}}" comes after its first "{{" shows as three spans:
   * the text before "{{" in Red, the text between the braces in Yellow and
   * the text after "}}" in Red.
   */
  lemma PlaceholderSpans(str: string)
    requires Contains(str, "{{") && Contains(str, "}}")
    requires IndexOf(str, "{{").value < IndexOf(str, "}}").value
    ensures var i, j := IndexOf(str, "{{").value, IndexOf(str, "}}").value;
      i + 2 <= j &&
      TokenSpans(str) == [Span(str[..i], Red), Span(str[i + 2..j], Yellow), Span(str[j + 2..], Red)]
  {
    var i, j := IndexOf(str, "{{").value, IndexOf(str, "}}").value;
    CloseAfterOpen(str, i, j);
    var after := str[i + 2..];
    assert SubstringBefore(str, "{{") == str[..i];
    assert SubstringAfter(str, "{{") == after;
    assert SubstringBefore(after, "}}") == str[i + 2..j] by {
      assert after[..j - (i + 2)] == str[i + 2..j];
    }
    assert SubstringAfter(str, "}}") == str[j + 2..];
  }

  /** Searching for "}}" after the first "{{" finds the first "}}" of the piece. */
  lemma CloseAfterOpen(str: string, i: nat, j: nat)
    requires IndexOf(str, "{{") == Some(i) && IndexOf(str, "}}") == Some(j) && i < j
    ensures i + 2 <= j && IndexOf(str[i + 2..], "}}") == Some(j - (i + 2))
  {
    IndexOfSpec(str, "{{");
    IndexOfSpec(str, "}}");
    BracesApart(str, i, j);
    IndexOfFrom(str, "}}", i + 2, j);
  }

  /** An opening "{{" before a closing "}}" cannot overlap it. */
  lemma BracesApart(str: string, i: nat, j: nat)
    requires OccursAt(str, "{{", i) && OccursAt(str, "}}", j) && i < j
    ensures i + 2 <= j
  {
    assert str[i..i + 2][1] == '{';
    assert str[j..j + 2][0] == '}';
  }

  /**
   * A command followed by one placeholder, as in `curl {{url}}`: the command
   * in Red, an unstyled space, the placeholder's name in Yellow between two
   * empty Red spans, and a newline because the line has two pieces.
   */
  lemma CommandWithPlaceholder(command: string, name: string)
    requires ' ' !in command && '{' !in command
    requires ' ' !in name && '{' !in name && '}' !in name
    ensures CodeSpans(command + " " + ("{{" + name + "}}"))
      == [Span(command, Red), Span(" ", Unstyled), Span("", Red), Span(name, Yellow), Span("", Red), Span("\n", Unstyled)]
  {
    CommandAndPlaceholder(command, name);
    UnbracedPiece(command);
    PlaceholderPiece(name);
  }

  lemma CommandAndPlaceholder(command: string, name: string)
    requires ' ' !in command && ' ' !in name && '{' !in name && '}' !in name
    ensures CodeSpans(command + " " + ("{{" + name + "}}"))
      == TokenSpans(command) + [Span(" ", Unstyled)] + TokenSpans("{{" + name + "}}") + [Span("\n", Unstyled)]
  {
    PlaceholderPiece(name);
    TwoPieces(command, "{{" + name + "}}");
  }

  /** A piece without '{' is shown as it is, in Red. */
  lemma UnbracedPiece(str: string)
    requires '{' !in str
    ensures TokenSpans(str) == [Span(str, Red)]
  {
    MissingFirst(str, "{{");
  }

  /** A code literal of two pieces: both pieces' spans around an unstyled space, then a newline. */
  lemma TwoPieces(first: string, second: string)
    requires ' ' !in first && ' ' !in second
    ensures CodeSpans(first + " " + second)
      == TokenSpans(first) + [Span(" ", Unstyled)] + TokenSpans(second) + [Span("\n", Unstyled)]
  {
    SplitAfterPiece(first, second);
    SplitNoSpace(second);
    var strings := Split(first + " " + second);
    assert strings == [first, second];
    assert strings[1..] == [second];
    assert CodeLine(strings[1..]) == TokenSpans(second);
  }

  /** A piece that is exactly one placeholder `{{name}}`. */
  lemma PlaceholderPiece(name: string)
    requires ' ' !in name && '{' !in name && '}' !in name
    ensures ' ' !in "{{" + name + "}}"
    ensures TokenSpans("{{" + name + "}}") == [Span("", Red), Span(name, Yellow), Span("", Red)]
  {
    var placeholder := "{{" + name + "}}";
    var j := |name| + 2;
    assert forall k :: 2 <= k < j ==> placeholder[k] == name[k - 2];
    assert OccursAt(placeholder, "{{", 0) by { assert placeholder[..2] == "{{"; }
    FirstOccurrence(placeholder, "{{", 0);
    assert OccursAt(placeholder, "}}", j) by { assert placeholder[j..j + 2] == "}}"; }
    FirstOccurrence(placeholder, "}}", j);
    PlaceholderSpans(placeholder);
    assert placeholder[2..j] == name;
    assert placeholder[j + 2..] == "";
  }

  /**
   * Braces in the wrong order, as in `a}}b{{c`: the first "}}" comes before the
   * first "{{". Both checks pass, and the middle text `b` is shown twice.
   */
  lemma MisorderedBraces(a: string, b: string, c: string)
    requires '{' !in a && '}' !in a && '{' !in b && '}' !in b && '}' !in c
    ensures TokenSpans(a + "}}" + b + "{{" + c)
      == [Span(a + "}}" + b, Red), Span(c, Yellow), Span(b + "{{" + c, Red)]
  {
    var t := a + "}}" + b + "{{" + c;
    var i := |a| + 2 + |b|;
    MisorderedIndices(a, b, c);
    assert t[i + 2..] == c;
    MissingFirst(c, "}}");
    assert t[..i] == a + "}}" + b;
    assert t[|a| + 2..] == b + "{{" + c;
  }

  /** Where `indexOf` finds the braces in `a}}b{{c`. */
  lemma MisorderedIndices(a: string, b: string, c: string)
    requires '{' !in a && '}' !in a && '{' !in b && '}' !in b
    ensures IndexOf(a + "}}" + b + "{{" + c, "{{") == Some(|a| + 2 + |b|)
    ensures IndexOf(a + "}}" + b + "{{" + c, "}}") == Some(|a|)
  {
    var t := a + "}}" + b + "{{" + c;
    var i := |a| + 2 + |b|;
    assert forall k :: 0 <= k < |a| ==> t[k] == a[k];
    assert OccursAt(t, "{{", i) by { assert t[i..i + 2] == "{{"; }
    assert forall k :: 0 <= k < i ==> t[k] != '{' by {
      assert forall k :: |a| + 2 <= k < i ==> t[k] == b[k - |a| - 2];
    }
    FirstOccurrence(t, "{{", i);
    assert OccursAt(t, "}}", |a|) by { assert t[|a|..|a| + 2] == "}}"; }
    FirstOccurrence(t, "}}", |a|);
  }

  /** The texts the pieces of a code line show, one per piece. */
  function PieceTexts(strings: seq<string>): (r: seq<string>)
    ensures |r| == |strings|
    decreases |strings|
  {
    if |strings| == 0 then [] else [TextOf(TokenSpans(strings[0]))] + PieceTexts(strings[1..])
  }

  /** The text of a code line is its pieces' texts joined by single spaces. */
  lemma {:induction false} CodeLineText(strings: seq<string>)
    ensures TextOf(CodeLine(strings)) == Join(PieceTexts(strings))
    decreases |strings|
  {
    if |strings| > 1 {
      CodeLineText(strings[1..]);
      assert PieceTexts(strings)[1..] == PieceTexts(strings[1..]);
      TextOfAppend(TokenSpans(strings[0]) + [Span(" ", Unstyled)], CodeLine(strings[1..]));
      TextOfAppend(TokenSpans(strings[0]), [Span(" ", Unstyled)]);
    }
  }

  /** A piece without a complete placeholder shows its own text. */
  predicate Plain(str: string) {
    !(Contains(str, "{{") && Contains(str, "}}"))
  }

  /** Pieces without placeholders show themselves. */
  lemma {:induction false} PlainPieceTexts(strings: seq<string>)
    requires forall k :: 0 <= k < |strings| ==> Plain(strings[k])
    ensures PieceTexts(strings) == strings
    decreases |strings|
  {
    if |strings| > 0 {
      PlainPieceTexts(strings[1..]);
      assert TokenSpans(strings[0]) == [Span(strings[0], Red)];
      assert TextOf([Span(strings[0], Red)]) == strings[0] + TextOf([]);
      assert TextOf(TokenSpans(strings[0])) == strings[0];
      assert strings == [strings[0]] + strings[1..];
    }
  }

  /** Code without placeholders shows exactly its literal. */
  lemma PlainCodeText(literal: string)
    requires forall str :: str in Split(literal) ==> Plain(str)
    ensures TextOf(CodeLine(Split(literal))) == literal
  {
    var strings := Split(literal);
    CodeLineText(strings);
    assert forall k :: 0 <= k < |strings| ==> strings[k] in strings;
    PlainPieceTexts(strings);
    JoinSplit(literal);
  }

  /** The last span of a code line is the Red tail of its last piece. */
  lemma {:induction false} CodeLineEndsRed(strings: seq<string>)
    requires |strings| >= 1
    ensures |CodeLine(strings)| > 0 && CodeLine(strings)[|CodeLine(strings)| - 1].style == Red
    decreases |strings|
  {
    if |strings| > 1 {
      CodeLineEndsRed(strings[1..]);
    }
  }

  /** Code is appended inline exactly when its literal has no space; otherwise a newline follows. */
  lemma CodeLineBreak(literal: string)
    ensures var spans := CodeSpans(literal);
      |spans| > 0 && (spans[|spans| - 1] == Span("\n", Unstyled) <==> ' ' in literal)
  {
    SplitSingle(literal);
    CodeLineEndsRed(Split(literal));
  }

  // ---- traversal ----

  /** The tree with every Heading's and Link's children removed. */
  function Prune(n: Node): Node
    decreases n
  {
    match n
    case Text(_) => n
    case Code(_) => n
    case Heading(_) => Heading([])
    case Link(_) => Link([])
    case BulletList(children) => BulletList(seq(|children|, k requires 0 <= k < |children| => Prune(children[k])))
    case Container(children) => Container(seq(|children|, k requires 0 <= k < |children| => Prune(children[k])))
  }

  /** Nothing inside a Heading or a Link reaches the output: pruning it changes nothing. */
  lemma {:induction false} PruneNode(n: Node, hasNext: bool)
    ensures VisitNode(Prune(n), hasNext) == VisitNode(n, hasNext)
    decreases n, 1
  {
    match n
    case BulletList(children) => PruneFrom(n, 0, |children|);
    case Container(children) => PruneFrom(n, 0, |children|);
    case _ =>
  }

  lemma {:induction false} PruneFrom(parent: Node, i: nat, end: nat)
    requires parent.BulletList? || parent.Container?
    requires i <= end <= |parent.children|
    ensures HasChildren(Prune(parent)) && |Prune(parent).children| == |parent.children|
    ensures VisitFrom(Prune(parent), i, end) == VisitFrom(parent, i, end)
    decreases parent, 0, end - i
  {
    var pruned := Prune(parent);
    if i < end {
      var child := parent.children[i];
      assert pruned.children[i] == Prune(child);
      PruneNode(child, i + 1 < end);
      var v := VisitNode(child, i + 1 < end);
      VisitFromStep(parent, i, end);
      VisitFromStep(pruned, i, end);
      if v.outcome == UnlinkedNext {
        PruneFrom(parent, i + 1, i + 2);
      } else if v.outcome == Returned {
        PruneFrom(parent, i + 1, end);
      }
    }
  }

  /**
   * A "More info" text that has a next sibling emits nothing; that sibling,
   * now unlinked, is visited as a node without siblings, and nothing after
   * it is visited.
   */
  lemma MoreInfoSkipsRest(parent: Node, i: nat, end: nat)
    requires HasChildren(parent) && i + 1 < end <= |parent.children|
    requires parent.children[i].Text? && StartsWith(parent.children[i].literal, MoreInfo)
    ensures VisitFrom(parent, i, end) == VisitNode(parent.children[i + 1], false)
  {
    VisitFromStep(parent, i, end);
    VisitFromStep(parent, i + 1, i + 2);
    var v := VisitNode(parent.children[i + 1], false);
    assert v.outcome != UnlinkedNext;
    assert VisitFrom(parent, i + 2, i + 2) == Visit([], Returned);
    assert v.spans + [] == v.spans;
  }

  /**
   * A "More info" text without a next sibling throws: it is the last child,
   * or the sibling an earlier "More info" text unlinked (`end == i + 1`).
   */
  lemma MoreInfoLastThrows(parent: Node, i: nat)
    requires HasChildren(parent) && i + 1 <= |parent.children|
    requires parent.children[i].Text? && StartsWith(parent.children[i].literal, MoreInfo)
    ensures VisitFrom(parent, i, i + 1) == Visit([], Threw)
  {
    VisitFromStep(parent, i, i + 1);
  }

  /** The last line of a tldr page, "More information: <link>.", renders to nothing. */
  lemma MoreInformationLine(url: string)
    ensures Render(Container([Container([Text("More information: "), Link([Text(url)]), Text(".")])]))
      == Visit([], Returned)
  {
    var paragraph := Container([Text("More information: "), Link([Text(url)]), Text(".")]);
    var document := Container([paragraph]);
    assert StartsWith("More information: ", MoreInfo) by {
      assert "More information: "[..9] == MoreInfo;
    }
    MoreInfoSkipsRest(paragraph, 0, 3);
    VisitFromStep(document, 0, 1);
  }

  /**
   * A paragraph whose last child is a "More info" text, and whose earlier
   * children all return normally without unlinking anything, throws from
   * that text on: no earlier text cuts the traversal short.
   */
  lemma {:induction false} MoreInfoEndsThrows(parent: Node, i: nat)
    requires HasChildren(parent) && i < |parent.children|
    requires var last := parent.children[|parent.children| - 1];
      last.Text? && StartsWith(last.literal, MoreInfo)
    requires forall k :: i <= k < |parent.children| - 1 ==> VisitNode(parent.children[k], true).outcome == Returned
    ensures VisitFrom(parent, i, |parent.children|).outcome == Threw
    decreases |parent.children| - i
  {
    if i + 1 == |parent.children| {
      MoreInfoLastThrows(parent, i);
    } else {
      VisitFromStep(parent, i, |parent.children|);
      MoreInfoEndsThrows(parent, i + 1);
    }
  }

  /**
   * A document whose first paragraph ends in a "More info" text, with
   * nothing before it in that paragraph that unlinks or throws, makes the
   * whole render throw, so `parse` yields `null`, whatever follows.
   */
  lemma MoreInfoEndsParagraphThrows(paragraph: seq<Node>, rest: seq<Node>)
    requires |paragraph| > 0
    requires var last := paragraph[|paragraph| - 1];
      last.Text? && StartsWith(last.literal, MoreInfo)
    requires forall k :: 0 <= k < |paragraph| - 1 ==> VisitNode(paragraph[k], true).outcome == Returned
    ensures Render(Container([Container(paragraph)] + rest)).outcome == Threw
  {
    MoreInfoEndsThrows(Container(paragraph), 0);
    var document := Container([Container(paragraph)] + rest);
    VisitFromStep(document, 0, |document.children|);
  }

  /** The document holding only a "More info" paragraph makes the whole render throw. */
  lemma MoreInfoAloneThrows()
    ensures Render(Container([Container([Text("More info")])])).outcome == Threw
  {
    var paragraph := Container([Text("More info")]);
    assert StartsWith("More info", MoreInfo);
    MoreInfoLastThrows(paragraph, 0);
    VisitFromStep(Container([paragraph]), 0, 1);
  }

  /**
   * A bullet list is an unstyled newline followed by what the traversal of
   * its items emits, and it ends as that traversal does, whatever follows it.
   */
  lemma BulletListStartsLine(children: seq<Node>, hasNext: bool)
    ensures var v := VisitNode(BulletList(children), hasNext);
      var items := VisitFrom(BulletList(children), 0, |children|);
      v == Visit([Span("\n", Unstyled)] + items.spans, items.outcome) &&
      |v.spans| > 0 && v.spans[0] == Span("\n", Unstyled) && v.outcome != UnlinkedNext
  {
  }

  /** Two parses on one `MarkdownParser`: the second result extends the first call's output. */
  method ParseTwice(first: Node, second: Node) returns (r1: Option<seq<Span>>, r2: Option<seq<Span>>)
    ensures r1 == if Render(first).outcome == Threw then None else Some(Render(first).spans)
    ensures r2 == if Render(second).outcome == Threw then None else Some(Render(first).spans + Render(second).spans)
    ensures r1.Some? && r2.Some? ==> r1.value <= r2.value
  {
    var parser := new MarkdownParser();
    r1 := parser.Parse(first);
    assert parser.builder.spans == Render(first).spans;
    r2 := parser.Parse(second);
  }
}
