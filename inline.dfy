/** Inline-command substitution applied to every text run of the LaTeX converter:
    five global rewrites, always in the order bold, italic, plain text, label, reference. */
module Inline {
  import opened Strings
  import opened Commands

  const Bold := Template("<strong>", "</strong>")
  const Italic := Template("<em>", "</em>")
  const Unwrap := Template("", "")
  const LabelTag := Template("<span class=\"latex-label\">[label: ", "]</span>")
  const RefTag := Template("<span class=\"latex-ref\">[ref: ", "]</span>")

  /** The rewrites of `processTextWithMath`, in the order they run. */
  const Rewrites: seq<(string, Replacement)> :=
    [("\\textbf", Bold), ("\\textit", Italic), ("\\text", Unwrap), ("\\label", LabelTag), ("\\ref", RefTag)]

  /** Each rewrite runs over the output of the one before it. */
  function RewriteAll(text: string, rewrites: seq<(string, Replacement)>): string
    decreases |rewrites|
  {
    if rewrites == [] then text
    else RewriteAll(ReplaceAll(text, rewrites[0].0, rewrites[0].1), rewrites[1..])
  }

  /** `processTextWithMath` */
  function ProcessTextWithMath(text: string): string
  {
    RewriteAll(text, Rewrites)
  }

  /** A text with no backslash holds no command and comes back unchanged. */
  lemma NoBackslashUnchanged(text: string)
    requires '\\' !in text
    ensures ProcessTextWithMath(text) == text
  {
    RewriteAllNoBackslash(text, Rewrites);
  }

  lemma {:induction false} RewriteAllNoBackslash(text: string, rewrites: seq<(string, Replacement)>)
    requires '\\' !in text
    requires forall i :: 0 <= i < |rewrites| ==> rewrites[i].0 != [] && rewrites[i].0[0] == '\\'
    ensures RewriteAll(text, rewrites) == text
  {
    if rewrites != [] {
      ReplaceWithoutLead(text, rewrites[0].0, rewrites[0].1, 0);
      assert text[0..] == text;
      RewriteAllNoBackslash(text, rewrites[1..]);
    }
  }

  /** A single command with a plain argument becomes its replacement: `\\textbf{X}` bold,
      `\\textit{X}` italic, `\\text{X}` bare, `\\label{X}` and `\\ref{X}` visible tags. The rewrites
      before its own leave it alone and the ones after it find no backslash left. */
  lemma SingleCommand(k: nat, x: string)
    requires k < |Rewrites| && x != [] && '\\' !in x && '}' !in x
    ensures ProcessTextWithMath(Rewrites[k].0 + "{" + x + "}") == Substitute(Rewrites[k].1, x)
  {
    var cmd := Rewrites[k].0;
    var s := cmd + "{" + x + "}";
    var out := Substitute(Rewrites[k].1, x);
    CommandsLeadWithBackslash();
    OnlyLeadingBackslash(cmd, x);
    forall i | 0 <= i < k ensures ReplaceAll(s, Rewrites[i].0, Rewrites[i].1) == s {
      EarlierCommandMisses(k, i, x);
      MissAtHead(s, Rewrites[i].0, Rewrites[i].1);
    }
    WholeCommandReplaced(cmd, x, Rewrites[k].1);
    ReplacementsPlain(k, x);
    RewriteAllSingle(s, Rewrites, k, out);
  }

  lemma CommandsLeadWithBackslash()
    ensures forall i :: 0 <= i < |Rewrites| ==>
      (Rewrites[i].0 != [] && Rewrites[i].0[0] == '\\' && forall j :: 1 <= j < |Rewrites[i].0| ==> Rewrites[i].0[j] != '\\')
  {
  }

  /** The replacement texts hold no backslash, so no later rewrite can match in them. */
  lemma ReplacementsPlain(k: nat, x: string)
    requires k < |Rewrites| && '\\' !in x
    ensures '\\' !in Substitute(Rewrites[k].1, x)
  {
    var rep := Rewrites[k].1;
    TemplatesPlain(k);
    var out := rep.before + x + rep.after;
    forall j | 0 <= j < |out| ensures out[j] != '\\' {
      if j < |rep.before| { assert out[j] == rep.before[j]; }
      else if j < |rep.before| + |x| { assert out[j] == x[j - |rep.before|]; }
      else { assert out[j] == rep.after[j - |rep.before| - |x|]; }
    }
  }

  lemma TemplatesPlain(k: nat)
    requires k < |Rewrites|
    ensures Rewrites[k].1.Template? && '\\' !in Rewrites[k].1.before && '\\' !in Rewrites[k].1.after
  {
    if k == 0 { PlainText(Bold.before); PlainText(Bold.after); }
    else if k == 1 { PlainText(Italic.before); PlainText(Italic.after); }
    else if k == 2 { }
    else if k == 3 { PlainText(LabelTag.before); PlainText(LabelTag.after); }
    else { PlainText(RefTag.before); PlainText(RefTag.after); }
  }

  /** Markup made only of characters other than the backslash. */
  lemma PlainText(t: string)
    requires forall j :: 0 <= j < |t| ==> t[j] in "<>/=\" :[]abcdefghijklmnopqrstuvwxyz-"
    ensures '\\' !in t
  {
  }

  /** A command with its argument has its backslash at the head and nowhere else. */
  lemma OnlyLeadingBackslash(cmd: string, x: string)
    requires cmd != [] && cmd[0] == '\\' && (forall j :: 1 <= j < |cmd| ==> cmd[j] != '\\') && '\\' !in x
    ensures var s := cmd + "{" + x + "}";
      s != [] && forall j :: 1 <= j < |s| ==> s[j] != '\\'
  {
    var s := cmd + "{" + x + "}";
    forall j | 1 <= j < |s| ensures s[j] != '\\' {
      if j < |cmd| { assert s[j] == cmd[j]; }
      else if j == |cmd| { assert s[j] == '{'; }
      else if j < |cmd| + 1 + |x| { assert s[j] == x[j - |cmd| - 1]; }
      else { assert s[j] == '}'; }
    }
  }

  /** The whole text being one match, the replace gives the replacement alone. */
  lemma WholeCommandReplaced(cmd: string, x: string, rep: Replacement)
    requires x != [] && '}' !in x
    ensures ReplaceAll(cmd + "{" + x + "}", cmd, rep) == Substitute(rep, x)
  {
    var s := cmd + "{" + x + "}";
    assert StartsAt(s, 0, cmd + "{" + x + "}") by { assert s[0..|s|] == s; }
    CommandAtComplete(s, 0, cmd, x);
    assert ReplaceFrom(s, cmd, rep, |s|) == [];
    assert ReplaceFrom(s, cmd, rep, 0) == Substitute(rep, x) + ReplaceFrom(s, cmd, rep, |s|);
  }

  /** The rewrites before the `k`-th do not match at the head of its command. */
  lemma EarlierCommandMisses(k: nat, i: nat, x: string)
    requires i < k < |Rewrites|
    ensures !StartsAt(Rewrites[k].0 + "{" + x + "}", 0, Rewrites[i].0 + "{")
  {
    var s := Rewrites[k].0 + "{" + x + "}";
    var pat := Rewrites[i].0 + "{";
    var d := if k <= 2 then 5 else 1;
    assert s[d] == (Rewrites[k].0 + "{")[d];
    assert pat[d] != s[d];
    if |pat| <= |s| {
      assert s[0..|pat|][d] == s[d];
    }
  }

  /** A text whose only backslash is its first character, where the command does not start,
      is copied unchanged. */
  lemma MissAtHead(s: string, cmd: string, rep: Replacement)
    requires s != [] && cmd != [] && cmd[0] == '\\' && !StartsAt(s, 0, cmd + "{")
    requires forall j :: 1 <= j < |s| ==> s[j] != '\\'
    ensures ReplaceAll(s, cmd, rep) == s
  {
    CopyStep(s, cmd, rep, 0);
    ReplaceWithoutLead(s, cmd, rep, 1);
    assert s == [s[0]] + s[1..];
  }

  /** When the rewrites before the `k`-th copy `s`, the `k`-th turns it into `out` and `out`
      has no backslash, the whole chain ends in `out`. */
  lemma {:induction false} RewriteAllSingle(s: string, rewrites: seq<(string, Replacement)>, k: nat, out: string)
    requires k < |rewrites| && '\\' !in out
    requires forall i :: 0 <= i < |rewrites| ==> rewrites[i].0 != [] && rewrites[i].0[0] == '\\'
    requires forall i :: 0 <= i < k ==> ReplaceAll(s, rewrites[i].0, rewrites[i].1) == s
    requires ReplaceAll(s, rewrites[k].0, rewrites[k].1) == out
    ensures RewriteAll(s, rewrites) == out
    decreases k
  {
    if k == 0 {
      RewriteAllNoBackslash(out, rewrites[1..]);
    } else {
      var tail := rewrites[1..];
      forall i | 0 <= i < |tail| ensures tail[i].0 != [] && tail[i].0[0] == '\\' {
        assert tail[i] == rewrites[i + 1];
      }
      forall i | 0 <= i < k - 1 ensures ReplaceAll(s, tail[i].0, tail[i].1) == s {
        assert tail[i] == rewrites[i + 1];
      }
      assert tail[k - 1] == rewrites[k];
      RewriteAllSingle(s, tail, k - 1, out);
      assert ReplaceAll(s, rewrites[0].0, rewrites[0].1) == s;
    }
  }
}
