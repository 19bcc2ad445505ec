/** The LaTeX-subset converter of the previewer: preamble and comment stripping, the
    extraction of `\begin{NAME}...\end{NAME}` and `$$...$$` blocks, the environment renderer,
    and the left-to-right scan that stitches them together with paragraphs of text. */
module Latex {
  import opened Strings
  import opened Commands
  import opened Inline

  const BeginDocument := "\\begin{document}"
  const EndDocument := "\\end{document}"
  const BeginToken := "\\begin{"
  const MathToken := "$$"

  // ---------------------------------------------------------------------------
  // Preamble, postamble and comments

  /** Everything after the first `\begin{document}`, or all of it when there is none. */
  function AfterPreamble(content: string): string
  {
    match IndexOf(content, BeginDocument, 0)
    case Some(p) => content[p + |BeginDocument|..]
    case None => content
  }

  /** Everything before the last `\end{document}`, or all of it when there is none. */
  function BeforePostamble(content: string): string
  {
    match LastIndexOf(content, EndDocument)
    case Some(p) => content[..p]
    case None => content
  }

  /** `s.replace(/%.*$/gm, '')`: every `%` goes, with the rest of its line up to (not
      including) the line terminator. `inComment` says a `%` was already seen on this line. */
  function StripComments(s: string, inComment: bool): (r: string)
    ensures '%' !in r
    ensures |r| <= |s|
  {
    if s == [] then []
    else if IsLineTerminator(s[0]) then [s[0]] + StripComments(s[1..], false)
    else if inComment || s[0] == '%' then StripComments(s[1..], true)
    else [s[0]] + StripComments(s[1..], false)
  }

  /** Text without `%` has no comment to strip. */
  lemma {:induction false} StripCommentsWithoutPercent(s: string)
    requires '%' !in s
    ensures StripComments(s, false) == s
  {
    if s != [] {
      StripCommentsWithoutPercent(s[1..]);
      assert s == [s[0]] + s[1..];
    }
  }

  /** A comment ends at its line terminator: the terminator is kept, and the text after it is
      stripped afresh, whatever came before. */
  lemma {:induction false} StripCommentsLineBreak(a: string, c: char, b: string, inComment: bool)
    requires IsLineTerminator(c)
    ensures StripComments(a + [c] + b, inComment) == StripComments(a, inComment) + [c] + StripComments(b, false)
    decreases |a|
  {
    if a == [] {
      assert a + [c] + b == [c] + b;
      assert ([c] + b)[1..] == b;
    } else {
      var x, t := a[0], a[1..];
      assert (a + [c] + b)[0] == x;
      assert (a + [c] + b)[1..] == t + [c] + b;
      StripCommentsLineBreak(t, c, b, true);
      StripCommentsLineBreak(t, c, b, false);
    }
  }

  /** Text before the first `%` is kept as it is, and a `%` removes the rest of its line. */
  lemma {:induction false} StripCommentsPrefix(a: string, t: string)
    requires '%' !in a
    ensures StripComments(a + t, false) == a + StripComments(t, false)
    decreases |a|
  {
    if a != [] {
      StripCommentsPrefix(a[1..], t);
      assert (a + t)[0] == a[0];
      assert (a + t)[1..] == a[1..] + t;
      assert a == [a[0]] + a[1..];
    } else {
      assert a + t == t;
    }
  }

  /** Inside a comment, a text with no line terminator disappears entirely. */
  lemma {:induction false} StripCommentsRestOfLine(b: string)
    requires forall k :: 0 <= k < |b| ==> !IsLineTerminator(b[k])
    ensures StripComments(b, true) == []
    decreases |b|
  {
    if b != [] {
      StripCommentsRestOfLine(b[1..]);
    }
  }

  /** A comment on the last line: everything from the `%` on is removed. */
  lemma TrailingComment(a: string, b: string)
    requires '%' !in a && forall k :: 0 <= k < |b| ==> !IsLineTerminator(b[k])
    ensures StripComments(a + "%" + b, false) == a
  {
    assert a + "%" + b == a + ("%" + b);
    StripCommentsPrefix(a, "%" + b);
    CommentStart(b);
    StripCommentsRestOfLine(b);
    assert a + [] == a;
  }

  /** A `%` opens a comment. */
  lemma CommentStart(b: string)
    ensures StripComments("%" + b, false) == StripComments(b, true)
  {
    assert ("%" + b)[0] == '%' && !IsLineTerminator('%');
    assert ("%" + b)[1..] == b;
  }

  /** `extractLatexContent`: the body of the document, without comments, trimmed. */
  function ExtractLatexContent(content: string): (r: string)
    ensures '%' !in r
    ensures Trimmed(r)
  {
    var stripped := StripComments(BeforePostamble(AfterPreamble(content)), false);
    var r := Trim(stripped);
    TrimSpec(stripped);
    assert '%' !in r by {
      if '%' in r { TrimChars(stripped, '%'); }
    }
    r
  }

  /** A fragment without document markers or comments is only trimmed. */
  lemma ExtractPlainFragment(content: string)
    requires !Contains(content, BeginDocument) && !Contains(content, EndDocument) && '%' !in content
    ensures ExtractLatexContent(content) == Trim(content)
  {
    assert forall k: nat :: !StartsAt(content, k, EndDocument);
    assert BeforePostamble(AfterPreamble(content)) == content;
    StripCommentsWithoutPercent(content);
  }

  /** Extracting again changes nothing once the markers are gone from the output. */
  lemma ExtractIdempotent(content: string)
    requires var r := ExtractLatexContent(content);
      !Contains(r, BeginDocument) && !Contains(r, EndDocument)
    ensures ExtractLatexContent(ExtractLatexContent(content)) == ExtractLatexContent(content)
  {
    var r := ExtractLatexContent(content);
    ExtractPlainFragment(r);
    TrimOfTrimmed(r);
  }

  // ---------------------------------------------------------------------------
  // Environments and display math

  /** What `extractEnvironment` returns: the name, the body, and the index just past the close tag. */
  datatype Environment = Environment(name: string, body: string, endIndex: nat)

  function CloseTag(name: string): string
  {
    "\\end{" + name + "}"
  }

  /** `extractEnvironment(content, start)`. The begin pattern is searched anywhere in
      `content[start..]`, not only at `start`, and its length is then counted from `start`. */
  function ExtractEnvironment(content: string, start: nat): (r: Option<Environment>)
    ensures r.Some? ==> start < r.value.endIndex <= |content|
    ensures r.Some? ==>
      var open := start + |r.value.name| + 8;
      var e := r.value.endIndex - |CloseTag(r.value.name)|;
      open <= e && r.value.body == content[open..e] && StartsAt(content, e, CloseTag(r.value.name))
  {
    if start > |content| then None
    else
      match FindCommand(content[start..], "\\begin", 0)
      case None => None
      case Some(m) =>
        var open := start + (m.end - m.start);
        assert open == start + |m.arg| + 8;
        match IndexOf(content, CloseTag(m.arg), open)
        case None => None
        case Some(e) => Some(Environment(m.arg, content[open..e], e + |CloseTag(m.arg)|))
  }

  /** A well-formed opening tag `\begin{NAME}` sits at `start`. */
  predicate OpensAt(content: string, start: nat, name: string)
  {
    name != [] && '}' !in name && StartsAt(content, start, BeginToken + name + "}")
  }

  /** With a well-formed opening tag at `start`, extraction fails exactly when the matching
      close tag never occurs after it; otherwise the body is everything up to the first one. */
  lemma ExtractEnvironmentAt(content: string, start: nat, name: string)
    requires OpensAt(content, start, name)
    ensures var r := ExtractEnvironment(content, start);
      var open := start + |name| + 8;
      && (r.None? <==> forall k :: open <= k ==> !StartsAt(content, k, CloseTag(name)))
      && (r.Some? ==>
            var e := r.value.endIndex - |CloseTag(name)|;
            && r.value.name == name
            && open <= e && StartsAt(content, e, CloseTag(name))
            && r.value.body == content[open..e]
            && (forall k :: open <= k < e ==> !StartsAt(content, k, CloseTag(name))))
  {
    BeginTagMatches(content, start, name);
    var r := ExtractEnvironment(content, start);
    if r.Some? {
      assert r.value.name == name;
    }
  }

  /** The begin pattern, searched from `start`, matches the well-formed tag sitting there. */
  lemma BeginTagMatches(content: string, start: nat, name: string)
    requires OpensAt(content, start, name)
    ensures start <= |content|
    ensures FindCommand(content[start..], "\\begin", 0) == Some(Match(0, name, |name| + 8))
  {
    var rest := content[start..];
    assert StartsAt(rest, 0, "\\begin" + "{" + name + "}") by {
      assert BeginToken + name + "}" == "\\begin" + "{" + name + "}";
      assert rest[..|name| + 8] == content[start..start + |name| + 8];
    }
    CommandAtComplete(rest, 0, "\\begin", name);
  }

  /** The begin pattern's match inside `content[start..]` is a well-formed opening tag of
      `content`, as long as the tag itself. */
  lemma BeginMatchOpens(content: string, start: nat)
    requires start <= |content| && FindCommand(content[start..], "\\begin", 0).Some?
    ensures var m := FindCommand(content[start..], "\\begin", 0).value;
      m.end - m.start == |m.arg| + 8 && OpensAt(content, start + m.start, m.arg)
  {
    var rest := content[start..];
    var m := FindCommand(rest, "\\begin", 0).value;
    assert "\\begin" + "{" + m.arg + "}" == BeginTag(m.arg);
    assert StartsAt(rest, m.start, BeginTag(m.arg));
    StartsAtInSuffix(content, start, m.start, BeginTag(m.arg));
  }

  /** In general the opening tag is the first well-formed one at or after `start`, wherever it
      is, while the body is still measured from `start`: the name comes from that tag and the
      body starts the tag's length past `start`. */
  lemma ExtractEnvironmentUnanchored(content: string, start: nat)
    ensures var r := ExtractEnvironment(content, start);
      r.Some? ==>
        var open := start + |r.value.name| + 8;
        var e := r.value.endIndex - |CloseTag(r.value.name)|;
        && open <= e && r.value.body == content[open..e] && StartsAt(content, e, CloseTag(r.value.name))
        && exists p :: start <= p && OpensAt(content, p, r.value.name)
  {
    var r := ExtractEnvironment(content, start);
    if r.Some? {
      var m := FindCommand(content[start..], "\\begin", 0).value;
      BeginMatchOpens(content, start);
      assert OpensAt(content, start + m.start, r.value.name);
    }
  }

  /** An empty name does not match at `start`, so the search takes the next well-formed tag:
      on `\\begin{}x\\begin{a}y\\end{a}` the environment is `a`, and its body, measured from
      `start` with the length of the later tag, starts inside the text and takes in that tag. */
  lemma EmptyBeginTakesLaterTag()
    ensures ExtractEnvironment(EmptyBeginExample, 0) == Some(Environment("a", "\\begin{a}y", 26))
  {
    var c := EmptyBeginExample;
    EmptyBeginExampleFindsLaterTag();
    EmptyBeginExampleCloses();
    EmptyBeginExampleBody();
    assert c[0..] == c;
  }

  const EmptyBeginExample := "\\begin{}" + "x" + "\\begin{a}" + "y" + "\\end{a}"

  lemma EmptyBeginExampleBody()
    ensures EmptyBeginExample[9..19] == "\\begin{a}y"
  {
  }

  /** The only backslashes of the example start its three tags. */
  lemma EmptyBeginExampleBackslashes(k: nat)
    requires k < |EmptyBeginExample| && k != 0 && k != 9 && k != 19
    ensures EmptyBeginExample[k] != '\\'
  {
  }

  lemma EmptyBeginExampleNoTagAt(p: nat)
    requires 1 <= p < 9
    ensures CommandAt(EmptyBeginExample, p, "\\begin").None?
  {
    EmptyBeginExampleBackslashes(p);
    StartsAtHead(EmptyBeginExample, p, "\\begin{");
  }

  lemma EmptyBeginExampleFindsLaterTag()
    ensures FindCommand(EmptyBeginExample, "\\begin", 0) == Some(Match(9, "a", 18))
  {
    var c := EmptyBeginExample;
    StartsAtSecond("", "\\begin{}", "x", "\\begin{a}", "y");
    StartsAtExtend("\\begin{}" + "x" + "\\begin{a}" + "y", "\\end{a}", 0, "\\begin{}");
    assert "\\begin{}" == "\\begin" + "{}";
    EmptyArgumentNeverMatches(c, 0, "\\begin");
    forall p | 1 <= p < 9 ensures CommandAt(c, p, "\\begin").None? {
      EmptyBeginExampleNoTagAt(p);
    }
    StartsAtSecond("\\begin{}" + "x", "\\begin{a}", "y", "\\end{a}", "");
    assert "\\begin{a}" == "\\begin" + "{" + "a" + "}";
    CommandAtComplete(c, 9, "\\begin", "a");
  }

  lemma EmptyBeginExampleCloses()
    ensures IndexOf(EmptyBeginExample, CloseTag("a"), 9) == Some(19)
  {
    var c := EmptyBeginExample;
    var close := CloseTag("a");
    assert close == "\\end{a}";
    forall k | 10 <= k < 19 ensures !StartsAt(c, k, close) {
      EmptyBeginExampleBackslashes(k);
      StartsAtHead(c, k, close);
    }
    assert !StartsAt(c, 9, close) by {
      assert c[10] == 'b' != close[1];
      if 9 + |close| <= |c| { assert c[9..9 + |close|][1] == c[10]; }
    }
    StartsAtPrepend("\\begin{}" + "x" + "\\begin{a}" + "y", close, 0, close);
  }

  /** What `extractDisplayMath` returns: the math between the delimiters and the index past them. */
  datatype DisplayMath = DisplayMath(content: string, endIndex: nat)

  /** `extractDisplayMath(content, start)`: the text up to the next `$$` after the opening one. */
  function ExtractDisplayMath(content: string, start: nat): (r: Option<DisplayMath>)
    ensures r.None? <==> forall k :: start + 2 <= k ==> !StartsAt(content, k, MathToken)
    ensures r.Some? ==> start + 4 <= r.value.endIndex <= |content|
    ensures r.Some? ==> content[start + 2..r.value.endIndex] == r.value.content + MathToken
    ensures r.Some? ==> !Contains(r.value.content, MathToken)
  {
    match IndexOf(content, MathToken, start + 2)
    case None => None
    case Some(e) =>
      var math := content[start + 2..e];
      assert forall k: nat :: !StartsAt(math, k, MathToken) by {
        forall k: nat | StartsAt(math, k, MathToken) ensures false {
          StartsAtInSuffix(content[..e], start + 2, k, MathToken);
          StartsAtInPrefix(content, e, start + 2 + k, MathToken);
        }
      }
      assert content[start + 2..e + 2] == math + content[e..e + 2];
      Some(DisplayMath(math, e + 2))
  }

  // ---------------------------------------------------------------------------
  // The environment renderer

  const Indent := "                    "
  const CloseIndent := "                "
  const MathDisplayOpen := "<div class=\"math-display\">\n"
  const ItemizeOpen := "<ul class=\"latex-itemize\">"
  const EnumerateOpen := "<ol class=\"latex-enumerate\">"
  const AlignFamily := ["align", "align*", "eqnarray", "eqnarray*", "gather", "gather*", "multline", "multline*"]

  /** The label line of an equation: the first `\label{ID}` of the body, or nothing. */
  function EquationLabel(body: string): string
  {
    match FindCommand(body, "\\label", 0)
    case Some(m) => "\\label{" + m.arg + "}"
    case None => ""
  }

  /** The body of an equation with every `\label{ID}` the replace meets removed, trimmed. */
  function EquationBody(body: string): string
  {
    Trim(ReplaceAll(body, "\\label", Drop))
  }

  function EquationHtml(body: string): string
  {
    MathDisplayOpen + Indent + "\\begin{equation}\n" + Indent + EquationLabel(body) + "\n"
    + Indent + EquationBody(body) + "\n" + Indent + "\\end{equation}\n" + CloseIndent + "</div>"
  }

  function BeginTag(name: string): string
  {
    BeginToken + name + "}"
  }

  /** The align family: the environment reproduced verbatim for the typesetter. */
  function MathEnvironmentHtml(name: string, body: string): string
  {
    var open := MathDisplayOpen + Indent + BeginTag(name) + "\n" + Indent;
    var close := "\n" + Indent + CloseTag(name) + "\n" + CloseIndent + "</div>";
    open + body + close
  }

  const EnvHead := "<div class=\"latex-environment\">\n" + Indent + "<div class=\"env-label\">"
  const EnvLead := "</div>\n" + Indent + "<div class=\"env-content\">"
  const EnvTrail := "</div>\n" + Indent + "<div class=\"env-label\">"
  const EnvTail := "</div>\n" + CloseIndent + "</div>"

  /** An unknown environment: its tags shown as visible labels around the processed body. */
  function UnknownEnvironmentHtml(name: string, body: string): string
  {
    EnvHead + BeginTag(name) + EnvLead + ProcessTextWithMath(body) + EnvTrail + CloseTag(name) + EnvTail
  }

  /** The items of a list environment: the body split on `\item`, blank pieces dropped. */
  function ListItems(body: string): seq<string>
  {
    NonBlank(Split(body, "\\item"))
  }

  function ListItem(item: string): string
  {
    "<li>" + ProcessTextWithMath(Trim(item)) + "</li>"
  }

  /** The `<li>` elements of the items, in order. */
  function ItemsHtml(items: seq<string>): string
  {
    if items == [] then "" else ItemsHtml(items[..|items| - 1]) + ListItem(items[|items| - 1])
  }

  /** The specification of the renderer: dispatch on the exact environment name. */
  function EnvironmentHtml(name: string, body: string): string
  {
    if name == "equation" then EquationHtml(body)
    else if name in AlignFamily then MathEnvironmentHtml(name, body)
    else if name == "itemize" then ItemizeOpen + ItemsHtml(ListItems(body)) + "</ul>"
    else if name == "enumerate" then EnumerateOpen + ItemsHtml(ListItems(body)) + "</ol>"
    else UnknownEnvironmentHtml(name, body)
  }

  /** The `forEach` of the list cases: one `<li>` per item, appended in order. */
  method RenderList(open: string, items: seq<string>, close: string) returns (html: string)
    ensures html == open + ItemsHtml(items) + close
  {
    html := open;
    for k := 0 to |items|
      invariant html == open + ItemsHtml(items[..k])
    {
      assert items[..k + 1][..k] == items[..k];
      html := html + ListItem(items[k]);
    }
    assert items[..|items|] == items;
    html := html + close;
  }

  /** `renderEnvironment`: the list cases run the `forEach` loop; the others are templates. */
  method RenderEnvironment(name: string, body: string) returns (html: string)
    ensures html == EnvironmentHtml(name, body)
  {
    if name == "itemize" {
      ListNamesAreNotMath();
      html := RenderList(ItemizeOpen, ListItems(body), "</ul>");
    } else if name == "enumerate" {
      ListNamesAreNotMath();
      html := RenderList(EnumerateOpen, ListItems(body), "</ol>");
    } else {
      html := EnvironmentHtml(name, body);
    }
  }

  /** The list environments take neither of the math branches of the dispatch. */
  lemma ListNamesAreNotMath()
    ensures "itemize" != "equation" && "itemize" !in AlignFamily
    ensures "enumerate" != "equation" && "enumerate" !in AlignFamily
  {
  }

  /** Every list item is a non-blank piece of the body that holds no `\item`, and every
      non-blank piece is an item. */
  lemma ListItemsArePieces(body: string, x: string)
    ensures x in ListItems(body) <==> x in Split(body, "\\item") && Trim(x) != []
    ensures x in ListItems(body) ==> !Contains(x, "\\item")
  {
    var pieces := Split(body, "\\item");
    NonBlankMembers(pieces, x);
    if x in ListItems(body) {
      var i :| 0 <= i < |pieces| && pieces[i] == x;
      SplitPiecesFree(body, "\\item", i);
    }
  }

  /** The list markup is a homomorphism: the items of a concatenation render one after the other. */
  lemma {:induction false} ItemsHtmlAppend(a: seq<string>, b: seq<string>)
    ensures ItemsHtml(a + b) == ItemsHtml(a) + ItemsHtml(b)
    decreases |b|
  {
    if b != [] {
      var b', x := b[..|b| - 1], b[|b| - 1];
      ItemsHtmlAppend(a, b');
      assert ItemsHtml(a + b) == ItemsHtml(a + b') + ListItem(x) by {
        assert (a + b)[..|a + b| - 1] == a + b';
        assert (a + b)[|a + b| - 1] == x;
      }
      assert ItemsHtml(b) == ItemsHtml(b') + ListItem(x);
    } else {
      assert a + b == a;
    }
  }

  /** The `<li>` elements written straight from the pieces of the body, front to back: one
      for every piece that is not blank, nothing for a blank one. */
  function PiecesHtml(pieces: seq<string>): string
  {
    if pieces == [] then ""
    else (if Trim(pieces[0]) != [] then ListItem(pieces[0]) else "") + PiecesHtml(pieces[1..])
  }

  /** A list renders one `<li>` per non-blank `\item` piece of its body, in the order of the
      pieces. */
  lemma ListItemsInOrder(body: string)
    ensures ItemsHtml(ListItems(body)) == PiecesHtml(Split(body, "\\item"))
  {
    FilteredItemsHtml(Split(body, "\\item"));
  }

  lemma {:induction false} FilteredItemsHtml(pieces: seq<string>)
    ensures ItemsHtml(NonBlank(pieces)) == PiecesHtml(pieces)
    decreases |pieces|
  {
    if pieces != [] {
      var x, t := pieces[0], pieces[1..];
      FilteredItemsHtml(t);
      assert pieces == [x] + t;
      NonBlankCons(x, t);
      var h := if Trim(x) != [] then [x] else [];
      ItemsHtmlAppend(h, NonBlank(t));
      if Trim(x) != [] {
        assert ItemsHtml([x]) == ListItem(x) by {
          assert [x][..0] == [];
        }
      }
    }
  }

  /** `itemize` and `enumerate` differ only in the list element: the same `<li>` sequence
      sits between `<ul ...>`/`</ul>` and `<ol ...>`/`</ol>`. */
  lemma ItemizeEnumerateSameItems(body: string)
    ensures var u := EnvironmentHtml("itemize", body);
      var o := EnvironmentHtml("enumerate", body);
      && u[..|ItemizeOpen|] == ItemizeOpen && u[|u| - 5..] == "</ul>"
      && o[..|EnumerateOpen|] == EnumerateOpen && o[|o| - 5..] == "</ol>"
      && u[|ItemizeOpen|..|u| - 5] == o[|EnumerateOpen|..|o| - 5] == ItemsHtml(ListItems(body))
  {
    ListNamesAreNotMath();
  }

  /** An equation keeps only the first label: the label line holds the first `\label{ID}`,
      and the body line is the text before it followed by the rest with every further label
      the replace meets removed; with no label the body is only trimmed. */
  lemma EquationKeepsFirstLabel(body: string)
    ensures match FindCommand(body, "\\label", 0)
      case Some(m) => m.start <= |body|
        && EquationLabel(body) == "\\label{" + m.arg + "}"
        && EquationBody(body) == Trim(body[..m.start] + ReplaceFrom(body, "\\label", Drop, m.end))
      case None => EquationLabel(body) == "" && EquationBody(body) == Trim(body)
  {
    var r := FindCommand(body, "\\label", 0);
    var dropped := ReplaceFrom(body, "\\label", Drop, 0);
    assert EquationBody(body) == Trim(dropped);
    ReplaceUpToFirst(body, "\\label", Drop, 0);
    if r.Some? {
      var m := r.value;
      var rest := ReplaceFrom(body, "\\label", Drop, m.end);
      assert Substitute(Drop, m.arg) == [];
      assert dropped == body[0..m.start] + [] + rest;
      assert body[0..m.start] + [] == body[..m.start];
    } else {
      assert body[0..] == body;
    }
  }

  /** The align family reproduces the body verbatim between its own begin and end tags. */
  lemma AlignVerbatim(name: string, body: string)
    requires name in AlignFamily
    ensures EnvironmentHtml(name, body) == MathEnvironmentHtml(name, body)
    ensures var out := MathEnvironmentHtml(name, body);
      var at := |MathDisplayOpen + Indent + BeginTag(name) + "\n" + Indent|;
      && StartsAt(out, |MathDisplayOpen + Indent|, BeginTag(name))
      && StartsAt(out, at, body)
      && StartsAt(out, at + |body| + 1 + |Indent|, CloseTag(name))
  {
    AlignIsNotEquation(name);
    MathLayout(name, body);
  }

  lemma AlignIsNotEquation(name: string)
    requires name in AlignFamily
    ensures name != "equation"
  {
    assert "equation"[2] == 'u';
  }

  lemma MathLayout(name: string, body: string)
    ensures var out := MathEnvironmentHtml(name, body);
      var at := |MathDisplayOpen + Indent + BeginTag(name) + "\n" + Indent|;
      && StartsAt(out, |MathDisplayOpen + Indent|, BeginTag(name))
      && StartsAt(out, at, body)
      && StartsAt(out, at + |body| + 1 + |Indent|, CloseTag(name))
  {
    WrapLayout(MathDisplayOpen, Indent, BeginTag(name), "\n", body, CloseTag(name), CloseIndent + "</div>");
    assert "\n" + Indent + CloseTag(name) + "\n" + CloseIndent + "</div>" == "\n" + Indent + CloseTag(name) + "\n" + (CloseIndent + "</div>");
  }

  lemma WrapLayout(head: string, indent: string, tag: string, nl: string, body: string, end: string, tail: string)
    ensures var out := head + indent + tag + nl + indent + body + (nl + indent + end + nl + tail);
      var at := |head + indent + tag + nl + indent|;
      && StartsAt(out, |head + indent|, tag)
      && StartsAt(out, at, body)
      && StartsAt(out, at + |body| + |nl| + |indent|, end)
  {
    var pre := head + indent;
    var open := pre + tag + nl + indent;
    var lead := nl + indent;
    var close := lead + end + nl + tail;
    StartsAtSecond(pre, tag, nl, indent, "");
    StartsAtSecond(lead, end, nl, tail, "");
    StartsAtAround(open, body, close, |pre|, tag, |lead|, end);
  }

  /** An unknown environment never disappears: its begin and end tags stay visible as labels
      around the processed body. */
  lemma UnknownEnvironmentVisible(name: string, body: string)
    requires name != "equation" && name !in AlignFamily && name != "itemize" && name != "enumerate"
    ensures EnvironmentHtml(name, body) == UnknownEnvironmentHtml(name, body)
    ensures var out := UnknownEnvironmentHtml(name, body);
      var shown := ProcessTextWithMath(body);
      && StartsAt(out, |EnvHead|, BeginTag(name))
      && StartsAt(out, |EnvHead + BeginTag(name) + EnvLead|, shown)
      && StartsAt(out, |EnvHead + BeginTag(name) + EnvLead + shown + EnvTrail|, CloseTag(name))
  {
    var b := BeginTag(name);
    var c := CloseTag(name);
    var shown := ProcessTextWithMath(body);
    StartsAtJoin(EnvHead, b, EnvLead);
    StartsAtExtend(EnvHead + b + EnvLead, shown, |EnvHead|, b);
    StartsAtExtend(EnvHead + b + EnvLead + shown, EnvTrail, |EnvHead|, b);
    StartsAtExtend(EnvHead + b + EnvLead + shown + EnvTrail, c, |EnvHead|, b);
    StartsAtExtend(EnvHead + b + EnvLead + shown + EnvTrail + c, EnvTail, |EnvHead|, b);
    StartsAtJoin(EnvHead + b + EnvLead, shown, EnvTrail);
    StartsAtExtend(EnvHead + b + EnvLead + shown + EnvTrail, c, |EnvHead + b + EnvLead|, shown);
    StartsAtExtend(EnvHead + b + EnvLead + shown + EnvTrail + c, EnvTail, |EnvHead + b + EnvLead|, shown);
    StartsAtJoin(EnvHead + b + EnvLead + shown + EnvTrail, c, EnvTail);
  }

  // ---------------------------------------------------------------------------
  // The scan

  /** Where the text loop of the scan stops: a `\begin{` or a `$$`. */
  predicate SpecialAt(content: string, i: nat)
  {
    StartsAt(content, i, BeginToken) || StartsAt(content, i, MathToken)
  }

  /** The cursor after the whitespace-skipping loop. */
  function SkipWhitespace(content: string, i: nat): (j: nat)
    requires i <= |content|
    decreases |content| - i
    ensures i <= j <= |content| && (j == |content| || !IsWhitespace(content[j]))
    ensures forall k :: i <= k < j ==> IsWhitespace(content[k])
  {
    if i < |content| && IsWhitespace(content[i]) then SkipWhitespace(content, i + 1) else i
  }

  /** The first `\begin{` or `$$` at or after `i`, or the end of the text. */
  function NextSpecial(content: string, i: nat): (k: nat)
    requires i <= |content|
    decreases |content| - i
    ensures i <= k <= |content| && (k == |content| || SpecialAt(content, k))
    ensures forall m :: i <= m < k ==> !SpecialAt(content, m)
  {
    if i == |content| || SpecialAt(content, i) then i else NextSpecial(content, i + 1)
  }

  /** One iteration of the scan's outer loop: the new cursor and the HTML it appends. */
  datatype Step = Step(next: nat, html: string)

  /** A text run `content[j..k]`: a paragraph of its processed trim, or nothing when blank. */
  function TextRun(content: string, j: nat, k: nat): Step
    requires j <= k <= |content|
  {
    var text := Trim(content[j..k]);
    Step(k, if text != [] then "<p>" + ProcessTextWithMath(text) + "</p>" else "")
  }

  /** A successful environment or display-math extraction at `j`. */
  function BlockAt(content: string, j: nat): (r: Option<Step>)
    ensures r.Some? ==> j < r.value.next <= |content|
  {
    var env := if StartsAt(content, j, BeginToken) then ExtractEnvironment(content, j) else None;
    if env.Some? then Some(Step(env.value.endIndex, EnvironmentHtml(env.value.name, env.value.body)))
    else
      var math := if StartsAt(content, j, MathToken) then ExtractDisplayMath(content, j) else None;
      if math.Some? then Some(Step(math.value.endIndex, "<div class=\"math-display\">$$" + math.value.content + "$$</div>"))
      else None
  }

  /** The iteration as the source writes it: when extraction fails at a `\begin{` or `$$`,
      the text loop stops before taking a character. */
  function SourceStep(content: string, j: nat): Step
    requires j < |content|
  {
    match BlockAt(content, j)
    case Some(st) => st
    case None => TextRun(content, j, NextSpecial(content, j))
  }

  /** The iteration of this model: the text run always takes the character at `j`, so a
      failed `\begin{` or `$$` becomes text and the cursor always advances. */
  function ScanStep(content: string, j: nat): (st: Step)
    requires j < |content|
    ensures j < st.next <= |content|
  {
    match BlockAt(content, j)
    case Some(st) => st
    case None => TextRun(content, j, NextSpecial(content, j + 1))
  }

  /** The source iteration makes no progress at an unterminated `\begin{` or `$$`: the
      cursor stays, nothing is emitted, and the whitespace loop does not move it either, so
      the outer loop repeats the same iteration for ever. */
  lemma SourceStepStalls(content: string, j: nat)
    requires j < |content| && SpecialAt(content, j) && BlockAt(content, j).None?
    ensures SourceStep(content, j) == Step(j, "")
    ensures SkipWhitespace(content, j) == j
  {
    assert content[j] == '\\' || content[j] == '$' by {
      StartsAtHead(content, j, BeginToken);
      StartsAtHead(content, j, MathToken);
    }
    assert Trim(content[j..j]) == [];
  }

  /** The source iteration never moves the cursor back, and it moves it forward after a
      successful extraction or wherever no `\begin{` or `$$` starts. */
  lemma SourceStepAdvances(content: string, j: nat)
    requires j < |content|
    ensures SourceStep(content, j).next >= j
    ensures BlockAt(content, j).Some? || !SpecialAt(content, j) ==> SourceStep(content, j).next > j
  {
    if BlockAt(content, j).None? && !SpecialAt(content, j) {
      assert NextSpecial(content, j) == NextSpecial(content, j + 1);
    }
  }

  /** Wherever the source iteration does advance, this model's iteration is the same. */
  lemma ScanStepAgrees(content: string, j: nat)
    requires j < |content| && SourceStep(content, j).next > j
    ensures ScanStep(content, j) == SourceStep(content, j)
  {
  }

  /** The scan from cursor `i` to the end of the text. */
  function ScanFrom(content: string, i: nat): string
    requires i <= |content|
    decreases |content| - i
  {
    var j := SkipWhitespace(content, i);
    if j == |content| then ""
    else
      var st := ScanStep(content, j);
      st.html + ScanFrom(content, st.next)
  }

  /** The whitespace-skipping loop of `processLatexContent`. */
  method SkipSpaces(content: string, i: nat) returns (j: nat)
    requires i <= |content|
    ensures j == SkipWhitespace(content, i)
  {
    j := i;
    while j < |content| && IsWhitespace(content[j])
      invariant i <= j <= |content|
      invariant SkipWhitespace(content, j) == SkipWhitespace(content, i)
    {
      j := j + 1;
    }
  }

  /** The text loop of `processLatexContent`: it takes the character at `start` and then
      every character up to the next `\begin{` or `$$`, and emits a paragraph unless blank. */
  method RenderTextRun(content: string, start: nat) returns (next: nat, html: string)
    requires start < |content|
    ensures Step(next, html) == TextRun(content, start, NextSpecial(content, start + 1))
  {
    var text := [content[start]];
    next := start + 1;
    while next < |content| && !StartsAt(content, next, BeginToken) && !StartsAt(content, next, MathToken)
      invariant start < next <= |content|
      invariant text == content[start..next]
      invariant NextSpecial(content, next) == NextSpecial(content, start + 1)
    {
      text := text + [content[next]];
      next := next + 1;
    }
    var trimmed := Trim(text);
    html := if trimmed != [] then "<p>" + ProcessTextWithMath(trimmed) + "</p>" else "";
  }

  /** One iteration of the outer loop at a non-blank position. */
  method RenderStep(content: string, j: nat) returns (next: nat, html: string)
    requires j < |content|
    ensures Step(next, html) == ScanStep(content, j)
  {
    if StartsAt(content, j, BeginToken) {
      var env := ExtractEnvironment(content, j);
      if env.Some? {
        html := RenderEnvironment(env.value.name, env.value.body);
        next := env.value.endIndex;
        return;
      }
    }
    if StartsAt(content, j, MathToken) {
      var math := ExtractDisplayMath(content, j);
      if math.Some? {
        html := "<div class=\"math-display\">$$" + math.value.content + "$$</div>";
        next := math.value.endIndex;
        return;
      }
    }
    next, html := RenderTextRun(content, j);
  }

  /** One round of the scan: skip the white space, then take one step. */
  lemma ScanFromUnfold(content: string, i: nat, j: nat, st: Step)
    requires i <= |content| && j == SkipWhitespace(content, i) && j < |content|
    requires st == ScanStep(content, j)
    ensures st.next <= |content|
    ensures ScanFrom(content, i) == st.html + ScanFrom(content, st.next)
  {
  }

  /** `processLatexContent`, with the one-character fallback of the text run. */
  method ProcessLatexContent(content: string) returns (html: string)
    ensures html == ScanFrom(content, 0)
  {
    html := "";
    var i := 0;
    while i < |content|
      invariant i <= |content|
      invariant html + ScanFrom(content, i) == ScanFrom(content, 0)
      decreases |content| - i
    {
      ghost var before := i;
      i := SkipSpaces(content, i);
      if i >= |content| {
        break;
      }
      var next, piece := RenderStep(content, i);
      ScanFromUnfold(content, before, i, Step(next, piece));
      html := html + piece;
      i := next;
    }
  }

  /** Text with no `\begin{` and no `$$` becomes one paragraph of its processed trim,
      or nothing at all when it is blank. */
  lemma PlainTextScan(content: string)
    requires !Contains(content, BeginToken) && !Contains(content, MathToken)
    ensures ScanFrom(content, 0) ==
      if AllWhitespace(content) then "" else "<p>" + ProcessTextWithMath(Trim(content)) + "</p>"
  {
    assert forall k: nat :: !SpecialAt(content, k);
    var j := SkipWhitespace(content, 0);
    if j < |content| {
      assert BlockAt(content, j).None?;
      var n := NextSpecial(content, j + 1);
      assert n == |content|;
      assert ScanStep(content, j) == TextRun(content, j, n);
      TrimDropsLeadingSpace(content, j);
      assert Trim(content[j..n]) == Trim(content) by {
        assert content[j..n] == content[j..];
      }
      TrimSpec(content);
      assert !AllWhitespace(content) by {
        assert !IsWhitespace(content[j]);
      }
      assert ScanFrom(content, n) == "";
    } else {
      assert AllWhitespace(content);
    }
  }

  /** An unterminated `\begin{NAME}` followed by plain text, such as `\begin{equation} x=1`:
      the source iteration at its start stalls for ever, while this model's scan turns the
      whole text into one paragraph. */
  lemma UnterminatedBeginIsText(name: string, rest: string)
    requires name != [] && '}' !in name && '\\' !in name && '$' !in name
    requires '\\' !in rest && '$' !in rest
    ensures var c := BeginTag(name) + rest;
      && SourceStep(c, 0) == Step(0, "")
      && ScanFrom(c, 0) == "<p>" + ProcessTextWithMath(Trim(c)) + "</p>"
  {
    var b := BeginTag(name);
    var c := b + rest;
    assert c[0] == '\\';
    assert forall k :: 1 <= k < |c| ==> c[k] != '\\' && c[k] != '$' by {
      forall k | 1 <= k < |c| ensures c[k] != '\\' && c[k] != '$' {
        if k < 7 {
          assert c[k] == BeginToken[k];
        } else if k < 7 + |name| {
          assert c[k] == name[k - 7];
        } else if k == 7 + |name| {
          assert c[k] == '}';
        } else {
          assert c[k] == rest[k - |b|];
        }
      }
    }
    assert OpensAt(c, 0, name) by {
      assert c[0..|b|] == b;
    }
    ExtractEnvironmentAt(c, 0, name);
    forall k | |name| + 8 <= k ensures !StartsAt(c, k, CloseTag(name)) {
      StartsAtHead(c, k, CloseTag(name));
    }
    StartsAtHead(c, 0, MathToken);
    assert BlockAt(c, 0).None?;
    assert SpecialAt(c, 0);
    SourceStepStalls(c, 0);
    forall k | 1 <= k < |c| ensures !SpecialAt(c, k) {
      StartsAtHead(c, k, BeginToken);
      StartsAtHead(c, k, MathToken);
    }
    var n := NextSpecial(c, 1);
    assert n == |c|;
    assert ScanStep(c, 0) == TextRun(c, 0, n);
    assert c[0..n] == c;
    TrimSpec(c);
    assert !AllWhitespace(c) by {
      assert !IsWhitespace(c[0]);
    }
    assert ScanFrom(c, n) == "";
  }

  // ---------------------------------------------------------------------------
  // The whole document

  const DocumentOpen := "<div class=\"latex-document tex2jax_process\">"

  /** `renderLatex`: the scan of the extracted content, wrapped in the document element. */
  function LatexDocument(content: string): string
  {
    DocumentOpen + ScanFrom(ExtractLatexContent(content), 0) + "</div>"
  }

  method RenderLatex(content: string) returns (html: string)
    ensures html == LatexDocument(content)
  {
    html := DocumentOpen;
    var body := ProcessLatexContent(ExtractLatexContent(content));
    html := html + body;
    html := html + "</div>";
  }

  /** A document whose body holds no `\begin{`, no `$$` and no `%` renders as one paragraph
      of the processed body, or as an empty document when the body is blank. */
  lemma PlainDocument(content: string)
    requires var body := BeforePostamble(AfterPreamble(content));
      '%' !in body && !Contains(body, BeginToken) && !Contains(body, MathToken)
    ensures var body := Trim(BeforePostamble(AfterPreamble(content)));
      LatexDocument(content) ==
        DocumentOpen + (if body == [] then "" else "<p>" + ProcessTextWithMath(body) + "</p>") + "</div>"
  {
    var body := BeforePostamble(AfterPreamble(content));
    StripCommentsWithoutPercent(body);
    var t := Trim(body);
    TrimSpec(body);
    assert !Contains(t, BeginToken) && !Contains(t, MathToken) by {
      var a := |body| - |TrimStart(body)|;
      assert t == body[a..][..|t|];
      forall k: nat | StartsAt(t, k, BeginToken) || StartsAt(t, k, MathToken) ensures false {
        if StartsAt(t, k, BeginToken) {
          StartsAtInPrefix(body[a..], |t|, k, BeginToken);
          StartsAtInSuffix(body, a, k, BeginToken);
        } else {
          StartsAtInPrefix(body[a..], |t|, k, MathToken);
          StartsAtInSuffix(body, a, k, MathToken);
        }
      }
    }
    PlainTextScan(t);
    TrimSpec(t);
    TrimOfTrimmed(t);
  }
}
