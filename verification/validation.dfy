/**
 * The command policy of the server: a whitelist prefix (`kubectl`) and a
 * denylist of eight case-insensitive regular expressions aimed at shell
 * chaining, redirection, piping into a shell and `--kubeconfig`.
 */
module Validation {
  import opened Text

  /** One denylisted regular expression, always with the `i` flag.
      `After(sep, word, true)` is `sep\s*word\s`; `After(sep, word, false)` is
      `sep\s*word\s*`, whose trailing `\s*` can always match nothing;
      `Anywhere(word)` is the word on its own. Words are written in lower case. */
  datatype Pattern = After(sep: char, word: string, wsAfter: bool) | Anywhere(word: string)

  /** The eight patterns, in the order the source lists them. */
  const DangerousPatterns: seq<Pattern> := [
    After(';', "rm", true),
    After(';', "wget", true),
    After(';', "curl", true),
    After(';', ">", false),
    After(';', "<", false),
    After('|', "rm", true),
    After('|', "bash", true),
    Anywhere("--kubeconfig")
  ]

  /** The word, then one whitespace character when the pattern asks for it,
      at the start of `s`. */
  predicate WordHere(s: string, word: string, wsAfter: bool) {
    StartsWithIgnoreCase(s, word) && (wsAfter ==> |word| < |s| && IsWs(s[|word|]))
  }

  /** `\s*` then the word at the start of `s`, trying every length of the
      whitespace run, as a backtracking matcher does. */
  predicate WsThenWord(s: string, word: string, wsAfter: bool) {
    WordHere(s, word, wsAfter) || (|s| > 0 && IsWs(s[0]) && WsThenWord(s[1..], word, wsAfter))
  }

  /** A match of the pattern that starts at the first character of `s`. */
  predicate MatchesHere(p: Pattern, s: string) {
    match p
    case After(sep, word, wsAfter) => |s| > 0 && s[0] == sep && WsThenWord(s[1..], word, wsAfter)
    case Anywhere(word) => StartsWithIgnoreCase(s, word)
  }

  /** `pattern.test(s)`: a match starting at some position of `s`. */
  predicate Test(p: Pattern, s: string) {
    MatchesHere(p, s) || (|s| > 0 && Test(p, s[1..]))
  }

  /** The meaning of a pattern, stated as positions: for `After`, a separator
      at `i`, whitespace strictly between, and the word (with its trailing
      whitespace when asked for) at `j`. */
  ghost predicate Occurs(p: Pattern, s: string) {
    match p
    case After(sep, word, wsAfter) =>
      exists i, j :: 0 <= i < j <= |s| && s[i] == sep && AllWs(s[i + 1..j]) && WordHere(s[j..], word, wsAfter)
    case Anywhere(word) =>
      exists i :: 0 <= i <= |s| && StartsWithIgnoreCase(s[i..], word)
  }

  /** `validateCommand`: the trimmed command starts with `kubectl` and no
      denylisted pattern matches the (untrimmed) command. */
  predicate ValidateCommand(command: string) {
    StartsWith(Trim(command), "kubectl")
    && !exists k :: 0 <= k < |DangerousPatterns| && Test(DangerousPatterns[k], command)
  }

  /** A successful `\s*word` match is a whitespace run followed by the word. */
  lemma {:induction false} WsThenWordGivesRun(s: string, word: string, wsAfter: bool)
    requires WsThenWord(s, word, wsAfter)
    ensures exists j :: 0 <= j <= |s| && AllWs(s[..j]) && WordHere(s[j..], word, wsAfter)
  {
    if WordHere(s, word, wsAfter) {
      assert s[0..] == s && AllWs(s[..0]);
    } else {
      WsThenWordGivesRun(s[1..], word, wsAfter);
      var j :| 0 <= j <= |s[1..]| && AllWs(s[1..][..j]) && WordHere(s[1..][j..], word, wsAfter);
      assert s[1..][j..] == s[j + 1..];
      WsRunCons(s, j);
    }
  }

  /** Any whitespace run followed by the word is found by the matcher. */
  lemma {:induction false} RunGivesWsThenWord(s: string, word: string, wsAfter: bool, j: nat)
    requires j <= |s| && AllWs(s[..j]) && WordHere(s[j..], word, wsAfter)
    ensures WsThenWord(s, word, wsAfter)
  {
    if j == 0 {
      assert s[0..] == s;
    } else {
      assert s[..j][0] == s[0];
      assert s[1..][..j - 1] == s[1..j] && s[1..][j - 1..] == s[j..];
      RunGivesWsThenWord(s[1..], word, wsAfter, j - 1);
    }
  }

  /** A match here, or an occurrence further on, is an occurrence. */
  lemma OccursJoin(p: Pattern, s: string)
    requires MatchesHere(p, s) || (|s| > 0 && Occurs(p, s[1..]))
    ensures Occurs(p, s)
  {
    match p
    case After(sep, word, wsAfter) =>
      if MatchesHere(p, s) {
        WsThenWordGivesRun(s[1..], word, wsAfter);
        var j :| 0 <= j <= |s[1..]| && AllWs(s[1..][..j]) && WordHere(s[1..][j..], word, wsAfter);
        assert s[1..][..j] == s[1..j + 1] && s[1..][j..] == s[j + 1..];
      } else {
        var i, j :| 0 <= i < j <= |s[1..]| && s[1..][i] == sep && AllWs(s[1..][i + 1..j])
          && WordHere(s[1..][j..], word, wsAfter);
        assert s[1..][i + 1..j] == s[i + 2..j + 1] && s[1..][j..] == s[j + 1..];
      }
    case Anywhere(word) =>
      if MatchesHere(p, s) {
        assert s[0..] == s;
      } else {
        var i :| 0 <= i <= |s[1..]| && StartsWithIgnoreCase(s[1..][i..], word);
        assert s[1..][i..] == s[i + 1..];
      }
  }

  /** An occurrence either starts at the first character or lies in the rest. */
  lemma OccursSplit(p: Pattern, s: string)
    requires Occurs(p, s)
    ensures MatchesHere(p, s) || (|s| > 0 && Occurs(p, s[1..]))
  {
    match p
    case After(sep, word, wsAfter) =>
      var i, j :| 0 <= i < j <= |s| && s[i] == sep && AllWs(s[i + 1..j]) && WordHere(s[j..], word, wsAfter);
      if i == 0 {
        assert s[1..][..j - 1] == s[1..j] && s[1..][j - 1..] == s[j..];
        RunGivesWsThenWord(s[1..], word, wsAfter, j - 1);
      } else {
        assert s[1..][i - 1] == s[i];
        assert s[1..][i..j - 1] == s[i + 1..j] && s[1..][j - 1..] == s[j..];
      }
    case Anywhere(word) =>
      var i :| 0 <= i <= |s| && StartsWithIgnoreCase(s[i..], word);
      if i == 0 {
        assert s[0..] == s;
      } else {
        assert s[1..][i - 1..] == s[i..];
      }
  }

  /** The matcher finds a match exactly when the pattern occurs. */
  lemma {:induction false} TestIsOccurs(p: Pattern, s: string)
    ensures Test(p, s) <==> Occurs(p, s)
  {
    if |s| > 0 {
      TestIsOccurs(p, s[1..]);
    }
    if Test(p, s) {
      OccursJoin(p, s);
    }
    if Occurs(p, s) {
      OccursSplit(p, s);
    }
  }

  /** The policy in terms of what the patterns mean: a command is accepted
      exactly when its trimmed form starts with `kubectl` and none of the
      eight patterns occurs anywhere in it. */
  lemma ValidateCommandMeaning(command: string)
    ensures ValidateCommand(command) <==>
      StartsWith(Trim(command), "kubectl")
      && forall k :: 0 <= k < |DangerousPatterns| ==> !Occurs(DangerousPatterns[k], command)
  {
    forall k | 0 <= k < |DangerousPatterns| {
      TestIsOccurs(DangerousPatterns[k], command);
    }
  }

  lemma WordHereAppend(t: string, b: string, word: string, wsAfter: bool)
    requires WordHere(t, word, wsAfter)
    ensures WordHere(t + b, word, wsAfter)
  {
    StartsWithIgnoreCaseAppend(t, b, word);
    if wsAfter {
      assert (t + b)[|word|] == t[|word|];
    }
  }

  lemma AfterWitness(sep: char, word: string, wsAfter: bool, s: string, i: nat, j: nat)
    requires i < j <= |s| && s[i] == sep && AllWs(s[i + 1..j]) && WordHere(s[j..], word, wsAfter)
    ensures Occurs(After(sep, word, wsAfter), s)
  {
  }

  lemma AfterAppend(sep: char, word: string, wsAfter: bool, t: string, b: string)
    requires Occurs(After(sep, word, wsAfter), t)
    ensures Occurs(After(sep, word, wsAfter), t + b)
  {
    var s := t + b;
    var i, j :| 0 <= i < j <= |t| && t[i] == sep && AllWs(t[i + 1..j]) && WordHere(t[j..], word, wsAfter);
    SliceOfAppend(t, b, i + 1, j);
    WordHereAppend(t[j..], b, word, wsAfter);
    AfterWitness(sep, word, wsAfter, s, i, j);
  }

  lemma AnywhereAppend(word: string, t: string, b: string)
    requires Occurs(Anywhere(word), t)
    ensures Occurs(Anywhere(word), t + b)
  {
    var i :| 0 <= i <= |t| && StartsWithIgnoreCase(t[i..], word);
    assert (t + b)[i..] == t[i..] + b;
    StartsWithIgnoreCaseAppend(t[i..], b, word);
  }

  /** Text after an occurrence does not hide it. */
  lemma OccursAppend(p: Pattern, t: string, b: string)
    requires Occurs(p, t)
    ensures Occurs(p, t + b)
  {
    match p
    case After(sep, word, wsAfter) => AfterAppend(sep, word, wsAfter, t, b);
    case Anywhere(word) => AnywhereAppend(word, t, b);
  }

  /** Text before an occurrence does not hide it. */
  lemma {:induction false} OccursPrepend(p: Pattern, a: string, t: string)
    requires Occurs(p, t)
    ensures Occurs(p, a + t)
  {
    if a == [] {
      assert a + t == t;
    } else {
      OccursPrepend(p, a[1..], t);
      assert (a + t)[1..] == a[1..] + t;
      OccursJoin(p, a + t);
    }
  }

  /** Text around an occurrence does not hide it. */
  lemma OccursInContext(p: Pattern, a: string, t: string, b: string)
    requires Occurs(p, t)
    ensures Occurs(p, a + t + b)
  {
    OccursPrepend(p, a, t);
    OccursAppend(p, a + t, b);
  }

  /** A denylisted pattern is rejected wherever it is embedded, whatever
      legitimate-looking text surrounds it. */
  lemma EmbeddedPatternRejected(k: nat, a: string, t: string, b: string)
    requires k < |DangerousPatterns| && Occurs(DangerousPatterns[k], t)
    ensures !ValidateCommand(a + t + b)
  {
    OccursInContext(DangerousPatterns[k], a, t, b);
    ValidateCommandMeaning(a + t + b);
  }

  /** The first seven patterns hang on `;` or `|`; the last is `--kubeconfig`. */
  lemma PatternShapes()
    ensures |DangerousPatterns| == 8
    ensures forall k :: 0 <= k < 7 ==> DangerousPatterns[k].After? && DangerousPatterns[k].sep in {';', '|'}
    ensures DangerousPatterns[7] == Anywhere("--kubeconfig")
  {
  }

  /** A separator pattern cannot match where its separator is absent. */
  lemma SeparatorAbsent(p: Pattern, command: string)
    requires p.After? && p.sep !in command
    ensures !Occurs(p, command)
  {
    forall i | 0 <= i < |command| ensures command[i] != p.sep {
      assert command[i] in command;
    }
  }

  /** Without `;`, `|` or `--kubeconfig`, a command that starts with
      `kubectl` is accepted: in particular a redirection such as `>` not
      preceded by `;` gets through. */
  lemma AcceptedWithoutSeparators(command: string)
    requires StartsWith(Trim(command), "kubectl")
    requires ';' !in command && '|' !in command && !Occurs(Anywhere("--kubeconfig"), command)
    ensures ValidateCommand(command)
  {
    PatternShapes();
    forall k | 0 <= k < |DangerousPatterns| ensures !Occurs(DangerousPatterns[k], command) {
      if k < 7 {
        SeparatorAbsent(DangerousPatterns[k], command);
      }
    }
    ValidateCommandMeaning(command);
  }

  lemma NoDashNoKubeconfig(command: string)
    requires '-' !in command
    ensures !Occurs(Anywhere("--kubeconfig"), command)
  {
    forall i | 0 <= i <= |command| ensures !StartsWithIgnoreCase(command[i..], "--kubeconfig") {
      if i < |command| {
        assert command[i..][0] in command;
      }
    }
  }

  lemma AcceptedPlain(c: string)
    requires StartsWith(c, "kubectl") && ';' !in c && '|' !in c && '-' !in c
    ensures ValidateCommand(c)
  {
    TrimKeepsPrefix(c, "kubectl");
    NoDashNoKubeconfig(c);
    AcceptedWithoutSeparators(c);
  }

  lemma NoSeparatorsIn(args: string, sep: string, rest: string)
    requires ';' !in args + sep + rest && '|' !in args + sep + rest && '-' !in args + sep + rest
    ensures ValidateCommand("kubectl" + args + sep + rest)
  {
    var tail := args + sep + rest;
    var c := "kubectl" + tail;
    assert c == "kubectl" + args + sep + rest;
    assert c[..7] == "kubectl";
    assert ';' !in c && '|' !in c && '-' !in c;
    AcceptedPlain(c);
  }

  /** Operators not on the denylist get through: a bare output redirection
      and chaining with `&&`. */
  lemma UnlistedOperatorsAccepted(args: string, rest: string)
    requires ';' !in args + rest && '|' !in args + rest && '-' !in args + rest
    ensures ValidateCommand("kubectl" + args + " > " + rest)
    ensures ValidateCommand("kubectl" + args + " && " + rest)
  {
    NoSeparatorsIn(args, " > ", rest);
    NoSeparatorsIn(args, " && ", rest);
  }

  /** No two dashes next to each other. */
  predicate SingleDashes(s: string) {
    forall i :: 0 < i < |s| ==> s[i - 1] != '-' || s[i] != '-'
  }

  /** Joining keeps dashes single when the second part does not open with one. */
  lemma SingleDashesAppend(a: string, b: string)
    requires SingleDashes(a) && SingleDashes(b) && (b == [] || b[0] != '-')
    ensures SingleDashes(a + b)
  {
    forall i | 0 < i < |a + b| ensures (a + b)[i - 1] != '-' || (a + b)[i] != '-' {
      if i == |a| {
        assert (a + b)[i] == b[0];
      } else if i > |a| {
        assert (a + b)[i - 1] == b[i - 1 - |a|] && (a + b)[i] == b[i - |a|];
      }
    }
  }

  /** Single dashes never spell `--kubeconfig`. */
  lemma SingleDashesNoKubeconfig(command: string)
    requires SingleDashes(command)
    ensures !Occurs(Anywhere("--kubeconfig"), command)
  {
    forall i | 0 <= i <= |command| ensures !StartsWithIgnoreCase(command[i..], "--kubeconfig") {
      if i + 1 < |command| {
        assert command[i..][0] == command[i] && command[i..][1] == command[i + 1];
      }
    }
  }

  /** Flags do not stop a command from getting through: between dash-free
      text, a flag with single dashes and no `;` or `|` is accepted. */
  lemma FlagAccepted(front: string, flag: string, back: string)
    requires StartsWith(front, "kubectl") && SingleDashes(flag) && flag != [] && flag[0] != '-'
    requires ';' !in front + flag + back && '|' !in front + flag + back && '-' !in front && '-' !in back
    ensures ValidateCommand(front + flag + back)
  {
    var c := front + flag + back;
    assert c[..7] == front[..7];
    TrimKeepsPrefix(c, "kubectl");
    assert SingleDashes(front) && SingleDashes(back);
    SingleDashesAppend(front, flag);
    SingleDashesAppend(front + flag, back);
    SingleDashesNoKubeconfig(c);
    AcceptedWithoutSeparators(c);
  }

  lemma FlaggedRedirectPieces(front: string, flag: string, back: string)
    requires front == "kubectl get pods" && flag == " -o" && back == " yaml > out.txt"
    ensures StartsWith(front, "kubectl") && SingleDashes(flag) && flag != [] && flag[0] != '-'
    ensures ';' !in front + flag + back && '|' !in front + flag + back && '-' !in front && '-' !in back
  {
    assert front[..7] == "kubectl";
  }

  /** A redirection after a flag is accepted: only `;`, `|` and
      `--kubeconfig` are looked for. */
  lemma FlaggedRedirectAccepted()
    ensures ValidateCommand("kubectl get pods -o yaml > out.txt")
  {
    var front, flag, back := "kubectl get pods", " -o", " yaml > out.txt";
    FlaggedRedirectPieces(front, flag, back);
    FlagAccepted(front, flag, back);
    assert front + flag + back == "kubectl get pods -o yaml > out.txt";
  }

  lemma SeparatorAt(p: Pattern, t: string, j: nat)
    requires p.After? && 0 < j <= |t| && t[0] == p.sep && AllWs(t[1..j]) && WordHere(t[j..], p.word, p.wsAfter)
    ensures Occurs(p, t)
  {
  }

  /** Chaining to `rm` after `;` is rejected, wherever it is embedded. */
  lemma ChainedRemoveRejected(a: string, b: string)
    ensures !ValidateCommand(a + "; rm " + b)
  {
    var t := "; rm ";
    assert AllWs(t[1..2]) && WordHere(t[2..], "rm", true);
    SeparatorAt(DangerousPatterns[0], t, 2);
    EmbeddedPatternRejected(0, a, t, b);
  }

  /** The patterns ignore letter case and need no space after `;`. */
  lemma UpperCaseRemoveRejected(a: string, b: string)
    ensures !ValidateCommand(a + ";RM " + b)
  {
    var t := ";RM ";
    assert AllWs(t[1..1]) && WordHere(t[1..], "rm", true);
    SeparatorAt(DangerousPatterns[0], t, 1);
    EmbeddedPatternRejected(0, a, t, b);
  }

  /** Piping into `bash` is rejected in any letter case. */
  lemma PipeToShellRejected(a: string, b: string)
    ensures !ValidateCommand(a + "| BASH " + b)
  {
    var t := "| BASH ";
    assert AllWs(t[1..2]) && WordHere(t[2..], "bash", true);
    SeparatorAt(DangerousPatterns[6], t, 2);
    EmbeddedPatternRejected(6, a, t, b);
  }

  /** Pointing at another kubeconfig is rejected in any letter case. */
  lemma KubeconfigFlagRejected(a: string, b: string)
    ensures !ValidateCommand(a + "--KubeConfig" + b)
  {
    var t := "--KubeConfig";
    assert StartsWithIgnoreCase(t[0..], "--kubeconfig");
    EmbeddedPatternRejected(7, a, t, b);
  }
}
