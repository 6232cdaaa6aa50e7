/**
 * `executeKubernetesCommand`: validate the command, compose the invocation
 * for the selected namespace, context and pod, run it once, and turn what
 * comes back into an `{output, error}` pair.
 */
module Execution {
  import opened Wrappers
  import opened Text
  import opened Executor
  import opened Validation

  /** The `{output, error}` object handed back to the caller. */
  datatype CommandResult = CommandResult(output: string, error: string)

  const RejectedMessage := "Invalid or potentially dangerous command"
  const GenericFailureMessage := "Command execution failed"

  /** What the execute route passes when the request names no namespace or
      context. */
  const DefaultNamespace := "default"
  const DefaultContext := "minikube"

  /** `pod && !command.startsWith('exec')`: a pod that is neither null nor
      the empty string, and a raw command that does not begin with `exec`. */
  predicate WrapsInPod(command: string, pod: Option<string>) {
    pod.Some? && pod.value != "" && !StartsWith(command, "exec")
  }

  /** The exec-into-pod form: the flags go on the outer `kubectl exec`. */
  function PodInvocation(command: string, namespace: string, context: string, pod: string): string {
    "kubectl exec -i " + pod + " --namespace=" + namespace + " --context=" + context + " -- " + command
  }

  /** The naive test for a namespace flag already present: a substring test,
      not flag parsing. */
  predicate HasNamespaceFlag(s: string) {
    Contains(s, "--namespace") || Contains(s, "-n ")
  }

  /** The direct form: the namespace flag is appended unless one seems
      present, then the context flag unless `--context` occurs in the string
      built so far. */
  function DirectInvocation(command: string, namespace: string, context: string): string {
    var withNamespace := if HasNamespaceFlag(command) then command else command + " --namespace=" + namespace;
    if Contains(withNamespace, "--context") then withNamespace else withNamespace + " --context=" + context
  }

  /** The invocation the executor is given for a validated command. */
  function Invocation(command: string, namespace: string, context: string, pod: Option<string>): string {
    if WrapsInPod(command, pod) then PodInvocation(command, namespace, context, pod.value)
    else DirectInvocation(command, namespace, context)
  }

  /** Builds `fullCommand` the way the source does, by conditional appends. */
  method ComposeInvocation(command: string, namespace: string, context: string, pod: Option<string>)
    returns (fullCommand: string)
    ensures WrapsInPod(command, pod) ==> fullCommand == PodInvocation(command, namespace, context, pod.value)
    ensures !WrapsInPod(command, pod) ==> fullCommand == DirectInvocation(command, namespace, context)
  {
    if pod.Some? && pod.value != "" && !StartsWith(command, "exec") {
      fullCommand := "kubectl exec -i " + pod.value + " --namespace=" + namespace
        + " --context=" + context + " -- " + command;
    } else {
      fullCommand := command;
      if !Contains(fullCommand, "--namespace") && !Contains(fullCommand, "-n ") {
        fullCommand := fullCommand + " --namespace=" + namespace;
      }
      if !Contains(fullCommand, "--context") {
        fullCommand := fullCommand + " --context=" + context;
      }
    }
  }

  /** One request: a rejected command never reaches the shell; otherwise
      the composed invocation is run exactly once and its outcome reported. */
  method ExecuteKubernetesCommand(command: string, namespace: string, context: string, pod: Option<string>,
                                  shell: Shell)
    returns (result: CommandResult)
    modifies shell
    ensures !ValidateCommand(command) ==>
      shell.log == old(shell.log) && result == CommandResult("", RejectedMessage)
    ensures ValidateCommand(command) ==>
      |shell.log| == |old(shell.log)| + 1 && shell.log[..|old(shell.log)|] == old(shell.log) &&
      shell.log[|old(shell.log)|].line == Invocation(command, namespace, context, pod)
    ensures ValidateCommand(command) ==> var outcome := shell.log[|old(shell.log)|].outcome;
      && (outcome.Completed? ==> result == CommandResult(outcome.stdout, outcome.stderr))
      && (outcome.Failed? ==> result.output == "")
      && (outcome == Failed(OtherValue) ==> result.error == GenericFailureMessage)
      && (outcome.Failed? && outcome.thrown.ErrorInstance? ==> result.error == outcome.thrown.message)
      && (outcome.Failed? && outcome.thrown.ObjectWithStderr? ==> result.error == outcome.thrown.stderr)
  {
    if !ValidateCommand(command) {
      return CommandResult("", RejectedMessage);
    }
    var fullCommand := ComposeInvocation(command, namespace, context, pod);
    var outcome := shell.Run(fullCommand);
    match outcome
    case Completed(stdout, stderr) =>
      result := CommandResult(stdout, stderr);
    case Failed(thrown) =>
      var errorMessage := GenericFailureMessage;
      if thrown.ErrorInstance? {
        errorMessage := thrown.message;
      } else if thrown.ObjectWithStderr? {
        errorMessage := thrown.stderr;
      }
      result := CommandResult("", errorMessage);
  }

  /** A validated command starts with `kubectl` or with whitespace, never
      with `exec`, so a non-empty pod always selects the exec-into-pod form. */
  lemma ValidatedCommandWrapsInPod(command: string, namespace: string, context: string, pod: string)
    requires ValidateCommand(command) && pod != ""
    ensures Invocation(command, namespace, context, Some(pod)) == PodInvocation(command, namespace, context, pod)
  {
    NeverStartsWithExec(command);
  }

  lemma NeverStartsWithExec(command: string)
    requires StartsWith(Trim(command), "kubectl")
    ensures !StartsWith(command, "exec")
  {
    TrimmedPrefix(command, "kubectl");
    assert !IsWs('e');
  }

  /** Appending the namespace flag brings in `--context` only through the
      namespace value itself. */
  lemma ContextAfterNamespace(command: string, namespace: string)
    ensures Contains(command + " --namespace=" + namespace, "--context") <==>
      Contains(command, "--context") || Contains(namespace, "--context")
  {
    var mid := " --namespace=";
    var s := command + mid + namespace;
    var p := "--context";
    if Contains(command, p) {
      ContainsInContext([], command, mid + namespace, p);
      assert [] + command + (mid + namespace) == s;
    }
    if Contains(namespace, p) {
      ContainsInContext(command + mid, namespace, [], p);
      assert command + mid + namespace + [] == s;
    }
    if Contains(s, p) {
      var i :| 0 <= i <= |s| - |p| && StartsWith(s[i..], p);
      OccurrenceOnOneSide(command, namespace, i);
    }
  }

  lemma OccurrenceOnOneSide(command: string, namespace: string, i: nat)
    requires i + 9 <= |command + " --namespace=" + namespace|
    requires StartsWith((command + " --namespace=" + namespace)[i..], "--context")
    ensures Contains(command, "--context") || Contains(namespace, "--context")
  {
    var s := command + " --namespace=" + namespace;
    var n := |command|;
    if i + 9 <= n {
      assert command[i..][..9] == s[i..][..9];
    } else if i >= n + 13 {
      assert namespace[i - n - 13..][..9] == s[i..][..9];
    } else {
      OccurrenceAcrossFlag(command, namespace, i);
      assert false;
    }
  }

  lemma OccurrenceAcrossFlag(command: string, namespace: string, i: nat)
    requires |command| < i + 9 && i < |command| + 13
    requires i + 9 <= |command + " --namespace=" + namespace|
    ensures (command + " --namespace=" + namespace)[i..i + 9] != "--context"
  {
    var s := command + " --namespace=" + namespace;
    var n := |command|;
    var w := s[i..i + 9];
    if i <= n {
      assert s[n] == ' ' && w[n - i] == s[n];
    } else if i <= n + 3 {
      assert s[n + 3] == 'n' && w[n + 3 - i] == s[n + 3];
    } else {
      assert s[n + 12] == '=' && w[n + 12 - i] == s[n + 12];
    }
  }

  /** The direct form in closed form: the command, then the namespace flag
      when neither `--namespace` nor `-n ` occurs in it, then the context flag
      when `--context` occurs neither in the command nor in an appended
      namespace value. */
  lemma DirectInvocationShape(command: string, namespace: string, context: string)
    ensures var namespaced := !HasNamespaceFlag(command);
      var contexted := !Contains(command, "--context") && !(namespaced && Contains(namespace, "--context"));
      DirectInvocation(command, namespace, context) ==
        command + (if namespaced then " --namespace=" + namespace else "")
                + (if contexted then " --context=" + context else "")
  {
    if !HasNamespaceFlag(command) {
      ContextAfterNamespace(command, namespace);
      assert command + (" --namespace=" + namespace) == command + " --namespace=" + namespace;
    } else {
      assert command + [] == command;
    }
  }

  /** The command is always a prefix of its direct invocation. */
  lemma DirectInvocationExtends(command: string, namespace: string, context: string)
    ensures StartsWith(DirectInvocation(command, namespace, context), command)
  {
    var r := DirectInvocation(command, namespace, context);
    DirectInvocationShape(command, namespace, context);
    assert r[..|command|] == command;
  }

  lemma NamespaceFlagAppended(w: string, namespace: string)
    ensures Contains(w + " --namespace=" + namespace, "--namespace")
  {
    var s := w + " --namespace=" + namespace;
    assert s[|w| + 1..][..11] == "--namespace";
  }

  lemma ContextFlagAppended(w: string, context: string)
    ensures Contains(w + " --context=" + context, "--context")
  {
    var s := w + " --context=" + context;
    assert s[|w| + 1..][..9] == "--context";
  }

  /** After composition the string looks namespaced. */
  lemma DirectInvocationHasNamespaceFlag(command: string, namespace: string, context: string)
    ensures HasNamespaceFlag(DirectInvocation(command, namespace, context))
  {
    var withNamespace := if HasNamespaceFlag(command) then command else command + " --namespace=" + namespace;
    if !HasNamespaceFlag(command) {
      NamespaceFlagAppended(command, namespace);
    }
    var r := DirectInvocation(command, namespace, context);
    if r != withNamespace {
      NamespaceFlagKept(withNamespace, " --context=" + context);
      assert r == withNamespace + (" --context=" + context);
    }
  }

  /** After composition the string has a context flag. */
  lemma DirectInvocationHasContextFlag(command: string, namespace: string, context: string)
    ensures Contains(DirectInvocation(command, namespace, context), "--context")
  {
    var withNamespace := if HasNamespaceFlag(command) then command else command + " --namespace=" + namespace;
    ContextFlagAppended(withNamespace, context);
  }

  lemma NamespaceFlagKept(command: string, rest: string)
    requires HasNamespaceFlag(command)
    ensures HasNamespaceFlag(command + rest)
  {
    if Contains(command, "--namespace") {
      ContainsInContext([], command, rest, "--namespace");
    } else {
      ContainsInContext([], command, rest, "-n ");
    }
    assert [] + command + rest == command + rest;
  }

  /** Composing the direct form a second time adds nothing. */
  lemma DirectInvocationIdempotent(command: string, namespace: string, context: string)
    ensures DirectInvocation(DirectInvocation(command, namespace, context), namespace, context)
      == DirectInvocation(command, namespace, context)
  {
    DirectInvocationHasNamespaceFlag(command, namespace, context);
    DirectInvocationHasContextFlag(command, namespace, context);
  }

  lemma NamespacedPrefix(command: string, namespace: string, context: string)
    requires !HasNamespaceFlag(command)
    ensures StartsWith(DirectInvocation(command, namespace, context), command + " --namespace=" + namespace)
  {
  }

  lemma Regroup(x: string, a: string, b: string, t: string)
    ensures x + (a + "; rm " + b) + t == (x + a) + "; rm " + (b + t)
  {
  }

  /** Only the raw command is validated: a namespace value carrying `; rm `
      puts into the invocation of an accepted command a sequence the policy
      would itself reject. */
  lemma NamespaceNotValidated(command: string, a: string, b: string, context: string)
    requires ValidateCommand(command) && !HasNamespaceFlag(command)
    ensures !ValidateCommand(DirectInvocation(command, a + "; rm " + b, context))
  {
    var namespace := a + "; rm " + b;
    var r := DirectInvocation(command, namespace, context);
    var x := command + " --namespace=";
    NamespacedPrefix(command, namespace, context);
    var t := r[|x + namespace|..];
    assert r == x + namespace + t;
    Regroup(x, a, b, t);
    ChainedRemoveRejected(x + a, b + t);
  }

  /** With pod `p1`, namespace `ns1` and context `ctx1`, `kubectl get files`
      runs inside the pod. */
  lemma PodInvocationExample()
    ensures Invocation("kubectl get files", "ns1", "ctx1", Some("p1"))
      == "kubectl exec -i " + "p1" + " --namespace=" + "ns1" + " --context=" + "ctx1" + " -- " + "kubectl get files"
  {
    assert "kubectl get files"[0] == 'k';
  }

  lemma NoDash(s: string, p: string)
    requires '-' !in s && p != [] && p[0] == '-'
    ensures !Contains(s, p)
  {
    if Contains(s, p) {
      ContainsFirstChar(s, p);
    }
  }

  /** Without a pod and with the route's defaults, both flags are appended. */
  lemma DefaultsExample()
    ensures DirectInvocation("kubectl get pods", DefaultNamespace, DefaultContext)
      == "kubectl get pods" + " --namespace=" + DefaultNamespace + " --context=" + DefaultContext
  {
    var c := "kubectl get pods";
    NoDash(c, "--namespace");
    NoDash(c, "-n ");
    NoDash(c, "--context");
    NoDash(DefaultNamespace, "--context");
    DirectInvocationShape(c, DefaultNamespace, DefaultContext);
  }

  /** `-n ` counts as a namespace flag, and a command that already names a
      context is run as given. */
  lemma ShortNamespaceFlagExample()
    ensures DirectInvocation("kubectl get pods -n custom --context=dev", DefaultNamespace, DefaultContext)
      == "kubectl get pods -n custom --context=dev"
  {
    var c := "kubectl get pods -n custom --context=dev";
    assert c[17..][..3] == "-n ";
    assert c[27..][..9] == "--context";
  }
}
