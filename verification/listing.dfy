/**
 * The metadata listings: context names, namespaces and pods, each parsed
 * from the `-o name` output of one `kubectl` run, each with a fixed
 * fallback when the run fails.
 */
module Listing {
  import opened Text
  import opened Executor

  /** A context name with whether its liveness probe succeeded. */
  datatype ContextDescriptor = ContextDescriptor(name: string, available: bool)

  /** What `getNamespacesFromCluster` answers when `kubectl` fails. */
  const FallbackNamespaces: seq<string> := ["default", "kube-system", "kube-public"]

  /** The lines of the trimmed output. */
  function Lines(stdout: string): (lines: seq<string>)
    ensures |lines| >= 1 && Join(lines, '\n') == Trim(stdout)
    ensures forall k :: 0 <= k < |lines| ==> '\n' !in lines[k]
  {
    JoinSplit(Trim(stdout), '\n');
    Split(Trim(stdout), '\n')
  }

  /** `lines.map(l => l.replace(prefix, ''))`. */
  function StripEach(lines: seq<string>, prefix: string): (r: seq<string>)
    ensures |r| == |lines|
    ensures forall k :: 0 <= k < |r| ==> r[k] == RemoveFirst(lines[k], prefix)
  {
    if lines == [] then [] else [RemoveFirst(lines[0], prefix)] + StripEach(lines[1..], prefix)
  }

  /** Stripping works line by line, so it distributes over concatenation. */
  lemma StripEachAppend(a: seq<string>, b: seq<string>, prefix: string)
    ensures StripEach(a + b, prefix) == StripEach(a, prefix) + StripEach(b, prefix)
  {
    var whole, first, second := StripEach(a + b, prefix), StripEach(a, prefix), StripEach(b, prefix);
    forall k | 0 <= k < |whole|
      ensures whole[k] == (first + second)[k]
    {
      if k < |a| {
        assert (a + b)[k] == a[k];
      } else {
        assert (a + b)[k] == b[k - |a|];
      }
    }
  }

  /** `names.filter(Boolean)`: the non-empty strings, in order. */
  function NonEmpty(names: seq<string>): (r: seq<string>)
    ensures |r| <= |names|
    ensures forall x :: x in r <==> x in names && x != ""
    ensures "" !in names ==> r == names
  {
    if names == [] then []
    else if names[0] == "" then NonEmpty(names[1..])
    else [names[0]] + NonEmpty(names[1..])
  }

  /** The filter keeps a single name exactly when it is not empty. */
  lemma NonEmptySingle(x: string)
    ensures NonEmpty([x]) == if x == "" then [] else [x]
  {
    assert [x][1..] == [];
  }

  /** The filter works piece by piece: filtering a concatenation
      concatenates the filtered pieces, so order and repeats survive. */
  lemma {:induction false} NonEmptyAppend(a: seq<string>, b: seq<string>)
    ensures NonEmpty(a + b) == NonEmpty(a) + NonEmpty(b)
    decreases |a|
  {
    if a == [] {
      assert a + b == b;
    } else {
      assert (a + b)[0] == a[0];
      assert (a + b)[1..] == a[1..] + b;
      NonEmptyAppend(a[1..], b);
    }
  }

  /** The names left after stripping and filtering are the non-empty
      stripped lines. */
  lemma StrippedNames(lines: seq<string>, prefix: string)
    ensures forall x :: x in NonEmpty(StripEach(lines, prefix)) <==>
      x != "" && exists k :: 0 <= k < |lines| && x == RemoveFirst(lines[k], prefix)
  {
    var stripped := StripEach(lines, prefix);
    assert forall x :: x in stripped <==> exists k :: 0 <= k < |stripped| && x == stripped[k];
  }

  /** `getContextsFromKubeconfig`: the lines of the trimmed output of
      `kubectl config get-contexts -o name`, or none when the run fails. */
  function ContextNames(outcome: ExecOutcome): (names: seq<string>)
    ensures outcome.Failed? ==> names == []
    ensures outcome.Completed? ==> |names| >= 1 && Join(names, '\n') == Trim(outcome.stdout)
    ensures forall k :: 0 <= k < |names| ==> '\n' !in names[k]
  {
    match outcome
    case Completed(stdout, _) => Lines(stdout)
    case Failed(_) => []
  }

  /** `getContexts`: one descriptor per context name, in the same order; a
      name is available only when the status map has `true` for it. */
  function Contexts(outcome: ExecOutcome, contextStatus: map<string, bool>): (r: seq<ContextDescriptor>)
    ensures |r| == |ContextNames(outcome)|
    ensures forall k :: 0 <= k < |r| ==> r[k].name == ContextNames(outcome)[k]
    ensures forall k :: 0 <= k < |r| ==>
      (r[k].available <==> r[k].name in contextStatus && contextStatus[r[k].name])
  {
    Annotate(ContextNames(outcome), contextStatus)
  }

  function Annotate(names: seq<string>, contextStatus: map<string, bool>): (r: seq<ContextDescriptor>)
    ensures |r| == |names|
    ensures forall k :: 0 <= k < |r| ==> r[k].name == names[k]
    ensures forall k :: 0 <= k < |r| ==>
      (r[k].available <==> names[k] in contextStatus && contextStatus[names[k]])
  {
    if names == [] then []
    else
      var available := names[0] in contextStatus && contextStatus[names[0]];
      [ContextDescriptor(names[0], available)] + Annotate(names[1..], contextStatus)
  }

  /** `getNamespacesFromCluster`: every line with its first `namespace/`
      removed, empty lines kept; the fixed three namespaces when the run
      fails. */
  function Namespaces(outcome: ExecOutcome): (r: seq<string>)
    ensures outcome.Failed? ==> r == FallbackNamespaces
    ensures outcome.Completed? ==> |r| == |Lines(outcome.stdout)|
    ensures outcome.Completed? ==> forall k :: 0 <= k < |r| ==>
      r[k] == RemoveFirst(Lines(outcome.stdout)[k], "namespace/")
  {
    match outcome
    case Completed(stdout, _) => StripEach(Lines(stdout), "namespace/")
    case Failed(_) => FallbackNamespaces
  }

  /** `getPods`: every line with its first `pod/` removed, empty results
      dropped; nothing when the run fails. */
  function Pods(outcome: ExecOutcome): (r: seq<string>)
    ensures outcome.Failed? ==> r == []
    ensures "" !in r
    ensures outcome.Completed? ==> forall x :: x in r <==>
      x != "" && exists k :: 0 <= k < |Lines(outcome.stdout)| && x == RemoveFirst(Lines(outcome.stdout)[k], "pod/")
    ensures outcome.Completed? ==> r == NonEmpty(StripEach(Lines(outcome.stdout), "pod/"))
  {
    match outcome
    case Completed(stdout, _) =>
      StrippedNames(Lines(stdout), "pod/");
      NonEmpty(StripEach(Lines(stdout), "pod/"))
    case Failed(_) => []
  }

  /** A run whose output is only whitespace lists no pod, but one empty
      namespace and one empty context name: only pods are filtered. */
  lemma BlankOutput(stdout: string, stderr: string)
    requires AllWs(stdout)
    ensures Pods(Completed(stdout, stderr)) == []
    ensures Namespaces(Completed(stdout, stderr)) == [""]
    ensures ContextNames(Completed(stdout, stderr)) == [""]
  {
    TrimOfBlank(stdout);
    assert Lines(stdout) == [""];
    assert RemoveFirst("", "pod/") == "";
    assert RemoveFirst("", "namespace/") == "";
  }

  /** No namespace and no pod name spans two lines. */
  lemma EntriesAreSingleLines(outcome: ExecOutcome)
    ensures forall x :: x in Namespaces(outcome) ==> '\n' !in x
    ensures forall x :: x in Pods(outcome) ==> '\n' !in x
  {
    if outcome.Completed? {
      var lines := Lines(outcome.stdout);
      forall k | 0 <= k < |lines| ensures '\n' !in RemoveFirst(lines[k], "namespace/") && '\n' !in RemoveFirst(lines[k], "pod/") {
        RemoveFirstKeepsAbsent(lines[k], "namespace/", '\n');
        RemoveFirstKeepsAbsent(lines[k], "pod/", '\n');
      }
    }
  }

  lemma TwoLines(first: string, second: string)
    requires first != [] && second != [] && !IsWs(first[0]) && !IsWs(second[|second| - 1])
    requires '\n' !in first && '\n' !in second
    ensures Lines(first + "\n" + second) == [first, second]
  {
    var out := first + "\n" + second;
    assert out == first + ['\n'] + second;
    assert out[0] == first[0] && out[|out| - 1] == second[|second| - 1];
    TrimOfTrimmed(out);
    SplitAtSeparator(first, second, '\n');
    SplitNoSeparator(second, '\n');
  }

  /** Pods are listed in the order of the output lines: the pods of an
      earlier block of lines all come before those of a later block. */
  lemma PodsInLineOrder(outcome: ExecOutcome, earlier: seq<string>, later: seq<string>)
    requires outcome.Completed? && Lines(outcome.stdout) == earlier + later
    ensures Pods(outcome) == NonEmpty(StripEach(earlier, "pod/")) + NonEmpty(StripEach(later, "pod/"))
  {
    StripEachAppend(earlier, later, "pod/");
    NonEmptyAppend(StripEach(earlier, "pod/"), StripEach(later, "pod/"));
  }

  /** Two `pod/` lines give the two pod names, in order. */
  lemma TwoPodsListed(a: string, b: string, stderr: string)
    requires a != [] && b != [] && '\n' !in a && '\n' !in b && !IsWs(b[|b| - 1])
    ensures Pods(Completed("pod/" + a + "\n" + "pod/" + b, stderr)) == [a, b]
  {
    var first, second := "pod/" + a, "pod/" + b;
    assert first[0] == 'p' && second[|second| - 1] == b[|b| - 1];
    assert '\n' !in "pod/";
    TwoLines(first, second);
    assert "pod/" + a + "\n" + "pod/" + b == first + "\n" + second;
    assert first[..4] == "pod/" && first[4..] == a;
    assert second[..4] == "pod/" && second[4..] == b;
    assert StripEach([first, second], "pod/") == [a, b];
    assert [a, b][1..] == [b] && [b][1..] == [];
    assert NonEmpty([a, b]) == [a, b];
  }

  /** As the source stands the status map is never filled in, so every
      context is reported unavailable. */
  lemma UnprobedContextsUnavailable(outcome: ExecOutcome)
    ensures forall d :: d in Contexts(outcome, map[]) ==> !d.available
  {
  }
}
