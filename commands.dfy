/** The one-argument command patterns of the LaTeX converter: `\begin{NAME}`, `\label{ID}`,
    `\textbf{X}` and the like, each found by a regular expression of the shape
    `/\\cmd\{([^}]+)\}/`. The argument runs up to the first `}` and may not be empty, so
    braces do not nest. A global `replace` with such a pattern scans left to right, rewriting
    every match it meets and copying every other character. */
module Commands {
  import opened Strings

  /** One match: where it starts, the argument between the braces, and the position just past `}`. */
  datatype Match = Match(start: nat, arg: string, end: nat)

  /** The match of `cmd{ARG}` at position `p`, if there is one. */
  function CommandAt(s: string, p: nat, cmd: string): (r: Option<Match>)
    ensures r.Some? ==> r.value.start == p && r.value.arg != [] && '}' !in r.value.arg
    ensures r.Some? ==> r.value.end == p + |cmd| + |r.value.arg| + 2
    ensures r.Some? ==> p < r.value.end <= |s| && s[p..r.value.end] == cmd + "{" + r.value.arg + "}"
  {
    var open := p + |cmd| + 1;
    if !StartsAt(s, p, cmd + "{") then None
    else match IndexOf(s, "}", open)
      case Some(close) =>
        if close > open then
          var arg := s[open..close];
          assert '}' !in arg by {
            forall k | open <= k < close ensures s[k] != '}' {
              assert !StartsAt(s, k, "}");
              assert s[k..k + 1] == [s[k]];
            }
          }
          assert s[close..close + 1] == "}";
          assert s[p..close + 1] == s[p..open] + arg + "}";
          Some(Match(p, arg, close + 1))
        else None
      case None => None
  }

  /** The pattern matches at `p` whenever `cmd{ARG}` sits there with a non-empty ARG free of `}`. */
  lemma CommandAtComplete(s: string, p: nat, cmd: string, arg: string)
    requires arg != [] && '}' !in arg && StartsAt(s, p, cmd + "{" + arg + "}")
    ensures CommandAt(s, p, cmd) == Some(Match(p, arg, p + |cmd| + |arg| + 2))
  {
    CommandPieces(s, p, cmd, arg);
  }

  /** The pieces of `cmd{ARG}` located in `s`: the head, the closing brace and the argument. */
  lemma CommandPieces(s: string, p: nat, cmd: string, arg: string)
    requires arg != [] && '}' !in arg && StartsAt(s, p, cmd + "{" + arg + "}")
    ensures StartsAt(s, p, cmd + "{")
    ensures IndexOf(s, "}", p + |cmd| + 1) == Some(p + |cmd| + 1 + |arg|)
    ensures s[p + |cmd| + 1..p + |cmd| + 1 + |arg|] == arg
  {
    var open := p + |cmd| + 1;
    var close := open + |arg|;
    var whole := cmd + "{" + arg + "}";
    StartsAtChars(s, p, whole);
    forall j | 0 <= j < |cmd| + 1 ensures s[p + j] == (cmd + "{")[j] {
      assert whole[j] == (cmd + "{")[j];
    }
    CharsStartAt(s, p, cmd + "{");
    assert s[close] == whole[|whole| - 1] == '}';
    CharsStartAt(s, close, "}");
    forall j | 0 <= j < |arg| ensures s[open + j] == arg[j] {
      assert whole[|cmd| + 1 + j] == arg[j];
    }
    forall k | open <= k < close ensures !StartsAt(s, k, "}") {
      assert s[k] == arg[k - open];
      StartsAtHead(s, k, "}");
    }
    forall j | 0 <= j < |arg| ensures s[open..close][j] == arg[j] {
      assert s[open..close][j] == s[open + j];
    }
  }

  /** An empty argument never matches: `\text{}` and the like are left as they are. */
  lemma EmptyArgumentNeverMatches(s: string, p: nat, cmd: string)
    requires StartsAt(s, p, cmd + "{}")
    ensures CommandAt(s, p, cmd).None?
  {
    var open := p + |cmd| + 1;
    assert s[open] == s[p..p + |cmd| + 2][|cmd| + 1] == '}';
    assert StartsAt(s, p, cmd + "{") by {
      assert s[p..open] == s[p..p + |cmd| + 2][..|cmd| + 1];
    }
    assert s[open..open + 1] == "}";
    assert IndexOf(s, "}", open) == Some(open);
  }

  /** The leftmost match at or after `from`: what a non-global `match` finds. */
  function FindCommand(s: string, cmd: string, from: nat): (r: Option<Match>)
    decreases |s| - from
    ensures r.Some? ==> from <= r.value.start && CommandAt(s, r.value.start, cmd) == r
    ensures r.Some? ==> forall p :: from <= p < r.value.start ==> CommandAt(s, p, cmd).None?
    ensures r.None? ==> forall p :: from <= p ==> CommandAt(s, p, cmd).None?
  {
    if from >= |s| then None
    else match CommandAt(s, from, cmd)
      case Some(m) => Some(m)
      case None => FindCommand(s, cmd, from + 1)
  }

  /** A JavaScript replacement string: either `before$1after`, which keeps the argument
      between two fixed texts, or the empty string, which drops the whole match. */
  datatype Replacement = Template(before: string, after: string) | Drop

  function Substitute(rep: Replacement, arg: string): string
  {
    match rep
    case Template(before, after) => before + arg + after
    case Drop => ""
  }

  /** The global replace from position `i` on: at a match the replacement is written and the
      scan resumes after the match; anywhere else one character is copied. */
  function ReplaceFrom(s: string, cmd: string, rep: Replacement, i: nat): string
    decreases |s| - i
  {
    if i >= |s| then ""
    else match CommandAt(s, i, cmd)
      case Some(m) => Substitute(rep, m.arg) + ReplaceFrom(s, cmd, rep, m.end)
      case None => [s[i]] + ReplaceFrom(s, cmd, rep, i + 1)
  }

  /** `s.replace(/\\cmd\{([^}]+)\}/g, rep)` */
  function ReplaceAll(s: string, cmd: string, rep: Replacement): string
  {
    ReplaceFrom(s, cmd, rep, 0)
  }

  /** The replace loses nothing: writing every match back as `cmd{ARG}` rebuilds the text. */
  lemma {:induction false} ReplaceRoundTrip(s: string, cmd: string, i: nat)
    requires i <= |s|
    ensures ReplaceFrom(s, cmd, Template(cmd + "{", "}"), i) == s[i..]
    decreases |s| - i
  {
    if i < |s| {
      match CommandAt(s, i, cmd)
      case Some(m) =>
        ReplaceRoundTrip(s, cmd, m.end);
        RebuildMatch(s, cmd, m);
      case None =>
        ReplaceRoundTrip(s, cmd, i + 1);
        assert s[i..] == [s[i]] + s[i + 1..];
    }
  }

  /** A match written back as `cmd{ARG}` followed by the rest of the text is the text itself. */
  lemma RebuildMatch(s: string, cmd: string, m: Match)
    requires m.start <= m.end <= |s| && s[m.start..m.end] == cmd + "{" + m.arg + "}"
    ensures Substitute(Template(cmd + "{", "}"), m.arg) + s[m.end..] == s[m.start..]
  {
    assert s[m.start..] == s[m.start..m.end] + s[m.end..];
  }

  /** Over a stretch with no match the replace copies the text unchanged. */
  lemma {:induction false} ReplaceCopiesStretch(s: string, cmd: string, rep: Replacement, i: nat, j: nat)
    requires i <= j <= |s|
    requires forall p :: i <= p < j ==> CommandAt(s, p, cmd).None?
    ensures ReplaceFrom(s, cmd, rep, i) == s[i..j] + ReplaceFrom(s, cmd, rep, j)
    decreases j - i
  {
    if i < j {
      CopyStep(s, cmd, rep, i);
      ReplaceCopiesStretch(s, cmd, rep, i + 1, j);
      var rest := ReplaceFrom(s, cmd, rep, j);
      assert s[i..j] == [s[i]] + s[i + 1..j];
      ConcatAssoc([s[i]], s[i + 1..j], rest);
    }
  }

  /** Where no match starts, the replace copies one character. */
  lemma CopyStep(s: string, cmd: string, rep: Replacement, i: nat)
    requires i < |s| && CommandAt(s, i, cmd).None?
    ensures ReplaceFrom(s, cmd, rep, i) == [s[i]] + ReplaceFrom(s, cmd, rep, i + 1)
  {
  }

  /** The replace copies the text before the first match, rewrites that match and carries on
      after it; with no match at all it copies the text unchanged. */
  lemma ReplaceUpToFirst(s: string, cmd: string, rep: Replacement, i: nat)
    requires i <= |s|
    ensures var r := FindCommand(s, cmd, i);
      && (r.Some? ==> r.value.start <= |s|)
      && (r.Some? ==>
            ReplaceFrom(s, cmd, rep, i)
            == s[i..r.value.start] + Substitute(rep, r.value.arg) + ReplaceFrom(s, cmd, rep, r.value.end))
      && (r.None? ==> ReplaceFrom(s, cmd, rep, i) == s[i..])
  {
    var r := FindCommand(s, cmd, i);
    if r.Some? {
      var m := r.value;
      var tail := ReplaceFrom(s, cmd, rep, m.end);
      assert ReplaceFrom(s, cmd, rep, i) == s[i..m.start] + (Substitute(rep, m.arg) + tail) by {
        ReplaceCopiesStretch(s, cmd, rep, i, m.start);
        MatchStep(s, cmd, rep, m);
      }
      ConcatAssoc(s[i..m.start], Substitute(rep, m.arg), tail);
    } else {
      assert ReplaceFrom(s, cmd, rep, i) == s[i..|s|] + ReplaceFrom(s, cmd, rep, |s|) by {
        ReplaceCopiesStretch(s, cmd, rep, i, |s|);
      }
      assert s[i..|s|] == s[i..];
    }
  }

  /** Where a match starts, the replace writes its substitution and resumes after it. */
  lemma MatchStep(s: string, cmd: string, rep: Replacement, m: Match)
    requires CommandAt(s, m.start, cmd) == Some(m)
    ensures ReplaceFrom(s, cmd, rep, m.start) == Substitute(rep, m.arg) + ReplaceFrom(s, cmd, rep, m.end)
  {
  }

  /** Text in which the command's first character never occurs has no match and is copied unchanged. */
  lemma {:induction false} ReplaceWithoutLead(s: string, cmd: string, rep: Replacement, i: nat)
    requires cmd != [] && i <= |s|
    requires forall k :: i <= k < |s| ==> s[k] != cmd[0]
    ensures ReplaceFrom(s, cmd, rep, i) == s[i..]
    decreases |s| - i
  {
    if i < |s| {
      StartsAtHead(s, i, cmd + "{");
      ReplaceWithoutLead(s, cmd, rep, i + 1);
      assert s[i..] == [s[i]] + s[i + 1..];
    }
  }

  lemma StartsAtHead(s: string, p: nat, pat: string)
    requires pat != []
    ensures StartsAt(s, p, pat) ==> s[p] == pat[0]
  {
    if StartsAt(s, p, pat) { assert s[p..p + |pat|][0] == s[p]; }
  }
}
