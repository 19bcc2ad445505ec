/** The Mermaid pass of the markdown preview: which code blocks are ready to be drawn, the
    ids handed to the renderer, and the outcome each block gets. The renderer is a parameter. */
module Mermaid {
  import opened Strings

  /** The diagram keywords of the bare-declaration check. */
  const Keywords := ["graph", "flowchart", "sequenceDiagram", "classDiagram", "gitgraph", "pie", "journey", "gantt"]

  /** Where `^` matches in multiline mode: the start of the text or just after a line terminator. */
  predicate LineStart(s: string, p: nat)
  {
    p <= |s| && (p == 0 || IsLineTerminator(s[p - 1]))
  }

  /** `\s*$` in multiline mode from `q`: white space reaches the end of a line or of the text.
      Line terminators are white space, so this holds exactly when the rest of the line is blank. */
  predicate RestOfLineBlank(s: string, q: nat)
    decreases |s| - q
  {
    q >= |s| || IsLineTerminator(s[q]) || (IsWhitespace(s[q]) && RestOfLineBlank(s, q + 1))
  }

  /** The regular-expression reading: `\s*` takes some run of white space after which `$`
      matches, at the end of the text or before a line terminator. */
  lemma {:induction false} RestOfLineBlankIff(s: string, q: nat)
    requires q <= |s|
    ensures RestOfLineBlank(s, q) <==>
      exists k :: q <= k <= |s| && AllWhitespace(s[q..k]) && (k == |s| || IsLineTerminator(s[k]))
    decreases |s| - q
  {
    if q < |s| && !IsLineTerminator(s[q]) {
      RestOfLineBlankIff(s, q + 1);
      if RestOfLineBlank(s, q) {
        var k :| q + 1 <= k <= |s| && AllWhitespace(s[q + 1..k]) && (k == |s| || IsLineTerminator(s[k]));
        assert s[q..k] == [s[q]] + s[q + 1..k];
      }
      if exists k :: q <= k <= |s| && AllWhitespace(s[q..k]) && (k == |s| || IsLineTerminator(s[k])) {
        var k :| q <= k <= |s| && AllWhitespace(s[q..k]) && (k == |s| || IsLineTerminator(s[k]));
        assert k > q;
        assert IsWhitespace(s[q..k][0]);
        assert s[q + 1..k] == s[q..k][1..];
      }
    } else {
      assert AllWhitespace(s[q..q]);
    }
  }

  /** Some line starts with a keyword followed by nothing but white space:
      `/^(graph|flowchart|...|gantt)\s*$/m`. */
  predicate HasBareKeywordLine(code: string)
  {
    exists p: nat, w :: p <= |code| && w in Keywords && LineStart(code, p) && StartsAt(code, p, w) && RestOfLineBlank(code, p + |w|)
  }

  /** The non-blank lines of a block: `code.split('\n').map(l => l.trim()).filter(l => l)`. */
  function NonBlankLineCount(code: string): nat
  {
    |NonBlank(Split(code, "\n"))|
  }

  /** `isMermaidIncomplete`, check by check in the order the source makes them. */
  function IsMermaidIncomplete(code: string): bool
  {
    if NonBlankLineCount(code) < 2 then true
    else if HasBareKeywordLine(code) then true
    else if Contains(code, "-->") && |Split(code, "-->")| < 2 then true
    else if Contains(code, "->") && |Split(code, "->")| < 2 then true
    else if Count(code, '[') != Count(code, ']') then true
    else if Count(code, '(') != Count(code, ')') then true
    else false
  }

  /** The arrow checks never fire: a split on a separator the text contains has at least two pieces. */
  lemma ArrowChecksNeverFire(code: string)
    ensures !(Contains(code, "-->") && |Split(code, "-->")| < 2)
    ensures !(Contains(code, "->") && |Split(code, "->")| < 2)
  {
    SplitCount(code, "-->");
    SplitCount(code, "->");
  }

  /** A block is incomplete exactly when it has fewer than two non-blank lines, a bare keyword
      line, or unbalanced square brackets or parentheses (by count, not by nesting). */
  lemma IncompleteIff(code: string)
    ensures IsMermaidIncomplete(code) <==>
      || NonBlankLineCount(code) < 2
      || HasBareKeywordLine(code)
      || multiset(code)['['] != multiset(code)[']']
      || multiset(code)['('] != multiset(code)[')']
  {
    ArrowChecksNeverFire(code);
  }

  /** The gate of `renderMermaid`: a placeholder instead of a diagram. `code.length` counts
      UTF-16 code units. */
  predicate NeedsPlaceholder(code: string)
  {
    Utf16Length(code) < 10 || IsMermaidIncomplete(code)
  }

  /** The length gate counts a character above U+FFFF twice: eight characters, two of them
      emoji, already reach the threshold of ten. */
  lemma AstralCharactersCountTwice()
    ensures var code := "A-->B\n" + "\U{1F600}\U{1F600}";
      |code| == 8 && Utf16Length(code) == 10
  {
    var code := "A-->B\n" + "\U{1F600}\U{1F600}";
    var tail := "\U{1F600}\U{1F600}";
    assert Utf16Length(tail[1..]) == 2;
    assert Utf16Length(tail) == 4;
    Utf16LengthAppend("A-->B\n", tail);
    Utf16LengthBasic("A-->B\n");
  }

  /** A one-line block is never drawn, whatever it says. */
  lemma OneLineNeedsPlaceholder(code: string)
    requires !Contains(code, "\n")
    ensures NeedsPlaceholder(code)
  {
    SplitCount(code, "\n");
  }

  /** A bare keyword line alone is enough for the placeholder, however long the block. */
  lemma BareKeywordNeedsPlaceholder(code: string, p: nat, w: string)
    requires LineStart(code, p) && w in Keywords && StartsAt(code, p, w) && RestOfLineBlank(code, p + |w|)
    ensures NeedsPlaceholder(code)
  {
  }

  /** The id of the `i`-th block rendered at clock reading `t`: `mermaid-${t}-${i}`. */
  function MermaidId(t: nat, i: nat): string
  {
    "mermaid-" + Decimal(t) + "-" + Decimal(i)
  }

  /** Different (clock, index) pairs give different ids. */
  lemma MermaidIdInjective(t1: nat, i1: nat, t2: nat, i2: nat)
    requires MermaidId(t1, i1) == MermaidId(t2, i2)
    ensures t1 == t2 && i1 == i2
  {
    var a1, b1 := Decimal(t1), Decimal(i1);
    var a2, b2 := Decimal(t2), Decimal(i2);
    var x := a1 + "-" + b1;
    var y := a2 + "-" + b2;
    assert x == MermaidId(t1, i1)[8..];
    assert y == MermaidId(t2, i2)[8..];
    assert x == y;
    assert |a1| == |a2| by {
      assert x[|a1|] == '-' && y[|a2|] == '-';
      assert forall k :: 0 <= k < |a1| ==> x[k] == a1[k];
      assert forall k :: 0 <= k < |a2| ==> y[k] == a2[k];
    }
    assert a1 == x[..|a1|] == y[..|a2|] == a2;
    assert b1 == x[|a1| + 1..] == y[|a2| + 1..] == b2;
    DecimalInjective(t1, t2);
    DecimalInjective(i1, i2);
  }

  /** What a block becomes: the placeholder, the drawn diagram, or the syntax-issue box. */
  datatype Outcome = Placeholder | Diagram(svg: string) | SyntaxIssue

  /** The outcome of one block; `render(id, code)` is `mermaid.render`, `None` when it throws. */
  function BlockOutcome(text: string, id: string, render: (string, string) -> Option<string>): Outcome
  {
    var code := Trim(text);
    if NeedsPlaceholder(code) then Placeholder
    else match render(id, code)
      case Some(svg) => Diagram(svg)
      case None => SyntaxIssue
  }

  /** A block gets the placeholder exactly when its trimmed code is short or incomplete, and
      then the renderer's answer plays no part. */
  lemma PlaceholderIff(text: string, id: string, render: (string, string) -> Option<string>)
    ensures var code := Trim(text);
      BlockOutcome(text, id, render) == Placeholder <==>
        || Utf16Length(code) < 10
        || NonBlankLineCount(code) < 2
        || HasBareKeywordLine(code)
        || multiset(code)['['] != multiset(code)[']']
        || multiset(code)['('] != multiset(code)[')']
  {
    IncompleteIff(Trim(text));
  }

  /** The ids of the first `n` blocks of a pass. */
  function PassIds(clock: seq<nat>, n: nat): (r: seq<string>)
    requires n <= |clock|
    ensures |r| == n
  {
    if n == 0 then [] else PassIds(clock, n - 1) + [MermaidId(clock[n - 1], n - 1)]
  }

  /** The outcomes of the first `n` blocks of a pass, `outcome(text, id)` being the outcome of one block. */
  function PassOutcomes(blocks: seq<string>, clock: seq<nat>, outcome: (string, string) -> Outcome, n: nat): (r: seq<Outcome>)
    requires n <= |blocks| == |clock|
    ensures |r| == n
  {
    if n == 0 then []
    else PassOutcomes(blocks, clock, outcome, n - 1) + [outcome(blocks[n - 1], MermaidId(clock[n - 1], n - 1))]
  }

  /** Block `k` of a pass gets the id of its clock reading and index. */
  lemma {:induction false} PassIdAt(clock: seq<nat>, n: nat, k: nat)
    requires k < n <= |clock|
    ensures PassIds(clock, n)[k] == MermaidId(clock[k], k)
  {
    if k < n - 1 {
      PassIdAt(clock, n - 1, k);
    }
  }

  /** Block `k` of a pass gets its own outcome. */
  lemma {:induction false} PassOutcomeAt(blocks: seq<string>, clock: seq<nat>, outcome: (string, string) -> Outcome, n: nat, k: nat)
    requires k < n <= |blocks| == |clock|
    ensures PassOutcomes(blocks, clock, outcome, n)[k] == outcome(blocks[k], MermaidId(clock[k], k))
  {
    if k < n - 1 {
      PassOutcomeAt(blocks, clock, outcome, n - 1, k);
    }
  }

  /** `renderMermaid`: one clock reading per block (`Date.now()` is read on every iteration). */
  method RenderMermaid(blocks: seq<string>, clock: seq<nat>, render: (string, string) -> Option<string>)
    returns (ids: seq<string>, outcomes: seq<Outcome>)
    requires |clock| == |blocks|
    ensures |ids| == |blocks| && |outcomes| == |blocks|
    ensures forall i :: 0 <= i < |blocks| ==> ids[i] == MermaidId(clock[i], i)
    ensures forall i :: 0 <= i < |blocks| ==> outcomes[i] == BlockOutcome(blocks[i], ids[i], render)
    ensures forall i, j :: 0 <= i < j < |blocks| ==> ids[i] != ids[j]
  {
    ghost var classify := (text, id) => BlockOutcome(text, id, render);
    ids, outcomes := [], [];
    for i := 0 to |blocks|
      invariant ids == PassIds(clock, i)
      invariant outcomes == PassOutcomes(blocks, clock, classify, i)
    {
      var id := MermaidId(clock[i], i);
      var outcome := BlockOutcome(blocks[i], id, render);
      ids := ids + [id];
      outcomes := outcomes + [outcome];
    }
    forall k | 0 <= k < |blocks|
      ensures ids[k] == MermaidId(clock[k], k)
      ensures outcomes[k] == BlockOutcome(blocks[k], ids[k], render)
    {
      PassIdAt(clock, |blocks|, k);
      PassOutcomeAt(blocks, clock, classify, |blocks|, k);
    }
    IdsDistinct(ids, clock);
  }

  /** Ids built from distinct block indices are pairwise distinct, whatever the clock says. */
  lemma IdsDistinct(ids: seq<string>, clock: seq<nat>)
    requires |ids| <= |clock|
    requires forall k :: 0 <= k < |ids| ==> ids[k] == MermaidId(clock[k], k)
    ensures forall i, j :: 0 <= i < j < |ids| ==> ids[i] != ids[j]
  {
    forall i, j | 0 <= i < j < |ids| ensures ids[i] != ids[j] {
      if ids[i] == ids[j] {
        MermaidIdInjective(clock[i], i, clock[j], j);
      }
    }
  }
}
