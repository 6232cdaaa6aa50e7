# kubernetes-exec: the command pipeline and the in-memory store, in Dafny

This project models the server side of a browser front end for `kubectl`:

- the **command policy** (`validateCommand`): a whitelist prefix plus a
  denylist of eight case-insensitive regular expressions;
- the **command pipeline** (`executeKubernetesCommand`): reject or compose
  the final command line for a namespace, a context and an optional pod,
  run it once, and turn the outcome into an `{output, error}` pair;
- the **metadata listings** (`getContextsFromKubeconfig`, `getContexts`,
  `getNamespacesFromCluster`, `getPods`): parsing the `-o name` output of
  one `kubectl` run, each with a fixed fallback when the run fails;
- the **in-memory store** (`MemStorage`): users and command history in two
  maps, with ids drawn from two counters that are never reset.

Modules, one per file:

| file | module | contents |
|---|---|---|
| `wrappers.dfy` | `Wrappers` | `Option`, standing for `null`/`undefined` |
| `text.dfy` | `Text` | the JavaScript string operations the code relies on: `trim` (the full JavaScript whitespace set), `startsWith`, `includes`, `indexOf`, `replace` with a string pattern, `split`/`join`, ASCII case folding |
| `validation.dfy` | `Validation` | the eight patterns as data, a backtracking matcher `Test`, its meaning `Occurs`, and `ValidateCommand` |
| `executor.dfy` | `Executor` | what a shell run gives back (completed streams, or the rejected value), and the `Shell` object that logs every line it runs |
| `execution.dfy` | `Execution` | command-line composition and the pipeline method |
| `listing.dfy` | `Listing` | the three listings |
| `storage.dfy` | `Storage` | the `MemStorage` class and the table functions that specify it |

How the model stands in for what cannot be expressed:

- The shell is an `Executor.Shell` object whose ghost `log` records each
  line it runs with its outcome. The pipeline method modifies the shell, so
  "a rejected command never reaches the shell" (the log is unchanged) and
  "an accepted one is run exactly once" (one record, holding the composed
  line, is added) are postconditions. Callers learn an outcome only from
  the log, so to them the shell may answer anything.
- The listings take the `ExecOutcome` of their one `kubectl` run.
- `createCommand` takes the current time, in milliseconds, as a parameter.
- The regular expressions carry the `i` flag but not `u`. Under those rules
  a non-ASCII character never folds onto an ASCII one, so lower-casing ASCII
  letters is exact for the ASCII keywords. `\s` and `trim` use the full
  JavaScript whitespace and line-terminator set.
- `getUserByUsername` walks the users in id order. That is the insertion
  order of the map, because ids only grow.
- The history sort is stable over insertion order, which is ascending id.
  Records with the same timestamp therefore come out oldest id first.
  `NewestFirst` states this order, and `NewestFirstUnique` shows it fixes
  the result completely.

Two facts about the code that shape the model:

- The context flag is tested against the string after the namespace flag
  has been appended (server/kubernetes.ts:112), not against the raw
  command. So a namespace value containing `--context` suppresses the
  context flag (`Execution.ContextAfterNamespace`,
  `Execution.DirectInvocationShape`).
- Context names come from one `kubectl` run
  (server/kubernetes.ts:22-30), and `checkContextAvailability` is never
  called, so the context status map stays empty
  (`Listing.UnprobedContextsUnavailable`).

## Model

| member | source | states |
|---|---|---|
| Text.IsWs | server/kubernetes.ts:141 | definition: the JavaScript WhiteSpace and LineTerminator code points that `trim` and `\s` use; `Text.Trim` states what cutting them means |
| Text.StartsWith | server/kubernetes.ts:141 | definition of `startsWith` (also used at line 103); `Text.TrimKeepsPrefix` and `Execution.NeverStartsWithExec` state what it means after `trim` |
| Text.Contains | server/kubernetes.ts:108-112 | definition of `includes`: an occurrence at some position; `Text.IndexOf` ties it to the first occurrence and `Text.ContainsInContext` shows surrounding text never hides it |
| Text.ContainsInContext | server/kubernetes.ts:108-112 | an occurrence stays an occurrence when text is added on either side |
| Text.Trim | server/kubernetes.ts:141 | the result is a slice `s[i..j]` of its input with only whitespace cut on both sides, and it is empty or starts and ends with a non-whitespace character |
| Text.TrimOfBlank | server/kubernetes.ts:141 | a string made only of whitespace trims to the empty string |
| Text.TrimOfTrimmed | server/kubernetes.ts:141 | trimming a string that already starts and ends with non-whitespace changes nothing |
| Text.TrimKeepsPrefix | server/kubernetes.ts:141 | a whitespace-free prefix that opens a string still opens its trimmed form |
| Text.IndexOf | server/kubernetes.ts:39 | -1 exactly when the pattern does not occur; otherwise an occurrence with no earlier one |
| Text.RemoveFirst | server/kubernetes.ts:39 | definition of `replace(p, '')` by scanning; its meaning is `Text.RemoveFirstCutsFirstOccurrence` |
| Text.RemoveFirstCutsFirstOccurrence | server/kubernetes.ts:39 | `replace(p, '')` cuts out exactly the first occurrence of `p` and returns the string unchanged when there is none |
| Text.RemoveFirstKeepsAbsent | server/kubernetes.ts:77 | removing a substring never introduces a character that was absent |
| Text.LowerAscii | server/kubernetes.ts:145-153 | definition of the `i` flag's folding onto ASCII letters: `A`-`Z` map to `a`-`z`, every other character to itself; `Validation.UpperCaseRemoveRejected` and `Validation.KubeconfigFlagRejected` show its effect |
| Text.StartsWithIgnoreCase | server/kubernetes.ts:145-153 | definition of a case-insensitive match of a lower-case ASCII word at the start of a string; `Text.StartsWithIgnoreCaseAppend` shows text after it does not disturb it |
| Text.StartsWithIgnoreCaseAppend | server/kubernetes.ts:145-153 | a case-insensitive match at the start survives appending text |
| Text.Split | server/kubernetes.ts:25 | `split` gives at least one piece and no piece contains the separator |
| Text.JoinSplit | server/kubernetes.ts:25 | joining the pieces of a split gives back the string |
| Text.SplitJoin | server/kubernetes.ts:25 | splitting the join of separator-free pieces gives back the pieces |
| Validation.DangerousPatterns | server/kubernetes.ts:145-154 | definition: the eight regular expressions as data, each a separator, a whitespace run and a word with or without required whitespace after it, or a bare word |
| Validation.Test | server/kubernetes.ts:156 | definition: a backtracking `pattern.test(command)` over every start position; its meaning is `Validation.TestIsOccurs` |
| Validation.ValidateCommand | server/kubernetes.ts:140-157 | definition of `validateCommand`; its meaning is `Validation.ValidateCommandMeaning` |
| Validation.Occurs | server/kubernetes.ts:145-153 | definition of what each pattern matches, by positions: a separator, whitespace up to the word, the word ignoring ASCII case and, where the pattern ends in `\s`, one whitespace character after it; or the bare word anywhere |
| Validation.TestIsOccurs | server/kubernetes.ts:145-156 | the backtracking matcher succeeds exactly when the pattern occurs at some position, stated by positions of separator, whitespace run and word |
| Validation.ValidateCommandMeaning | server/kubernetes.ts:140-157 | a command is accepted if and only if its trimmed form starts with `kubectl` and none of the eight patterns occurs anywhere in it |
| Validation.PatternShapes | server/kubernetes.ts:145-154 | helper fact about the pattern list, used by the acceptance lemmas: there are eight patterns; the first seven hang on `;` or `\|` and the last is `--kubeconfig` |
| Validation.OccursInContext | server/kubernetes.ts:156 | text on either side of an occurrence never hides it |
| Validation.EmbeddedPatternRejected | server/kubernetes.ts:145-156 | any command containing an occurrence of a denylisted pattern is rejected, whatever surrounds it |
| Validation.AcceptedWithoutSeparators | server/kubernetes.ts:145-156 | a `kubectl` command with no `;`, no `\|` and no `--kubeconfig` is accepted |
| Validation.AcceptedPlain | server/kubernetes.ts:140-157 | a command that starts with `kubectl` and has no `;`, `\|` or `-` is accepted |
| Validation.UnlistedOperatorsAccepted | server/kubernetes.ts:145-156 | for `kubectl` followed by text free of `;`, `\|` and `-`, a `>` redirection and chaining with `&&` are accepted: neither is on the denylist |
| Validation.SingleDashesAppend | server/kubernetes.ts:153 | joining two strings without doubled dashes gives none when the second does not open with a dash |
| Validation.SingleDashesNoKubeconfig | server/kubernetes.ts:153 | a command without two adjacent dashes never matches `--kubeconfig` |
| Validation.FlagAccepted | server/kubernetes.ts:140-157 | a `kubectl` command whose only dashes are single ones inside one flag, with no `;` or `\|`, is accepted: flags are not looked at |
| Validation.FlaggedRedirectAccepted | server/kubernetes.ts:145-156 | `kubectl get pods -o yaml > out.txt` is accepted |
| Validation.ChainedRemoveRejected | server/kubernetes.ts:146 | `; rm ` anywhere in a command rejects it |
| Validation.UpperCaseRemoveRejected | server/kubernetes.ts:146 | `;RM ` is rejected too: no space is needed after `;` and case is ignored |
| Validation.PipeToShellRejected | server/kubernetes.ts:152 | `\| BASH ` anywhere rejects the command, whatever the letter case |
| Validation.KubeconfigFlagRejected | server/kubernetes.ts:153 | `--KubeConfig` anywhere rejects the command, whatever the letter case |
| Executor.Shell.Run | server/kubernetes.ts:117 | one `execAsync` call: exactly one record, the line with its outcome, is appended to the log and nothing else in it changes |
| Execution.WrapsInPod | server/kubernetes.ts:103 | definition of the branch condition `pod && !command.startsWith('exec')`; `Execution.ValidatedCommandWrapsInPod` states when it holds |
| Execution.PodInvocation | server/kubernetes.ts:104 | definition of the exec-into-pod line; `Execution.PodInvocationExample` shows it on values |
| Execution.HasNamespaceFlag | server/kubernetes.ts:108 | definition of the naive test `includes("--namespace") \|\| includes("-n ")`, substring tests rather than flag parsing; `Execution.DirectInvocationShape`, `Execution.DirectInvocationHasNamespaceFlag` and `Execution.ShortNamespaceFlagExample` state its effect |
| Execution.DirectInvocation | server/kubernetes.ts:105-115 | definition of the direct line; its closed form and properties are `Execution.DirectInvocationShape`, `DirectInvocationExtends`, `DirectInvocationHasNamespaceFlag`, `DirectInvocationHasContextFlag`, `DirectInvocationIdempotent` |
| Execution.Invocation | server/kubernetes.ts:103-115 | definition: the line the pipeline runs; `Execution.ComposeInvocation` computes it and `Execution.ExecuteKubernetesCommand` states it is what the shell receives |
| Execution.ComposeInvocation | server/kubernetes.ts:101-115 | the conditional appends build exactly the exec-into-pod form when a non-empty pod is given and the command does not start with `exec`, and the direct form otherwise |
| Execution.ExecuteKubernetesCommand | server/kubernetes.ts:86-137 | a rejected command returns `{"", "Invalid or potentially dangerous command"}` and leaves the shell's log unchanged; otherwise exactly one record is added to the log, holding the composed line, and the result follows that record's outcome: completed output is passed on verbatim; on failure the output is empty and the error is the Error's message, else the object's `stderr`, else `"Command execution failed"` |
| Execution.ValidatedCommandWrapsInPod | server/kubernetes.ts:103-104 | an accepted command never starts with `exec`, so a non-empty pod always selects the exec-into-pod form |
| Execution.NeverStartsWithExec | server/kubernetes.ts:141-143 | a command whose trimmed form starts with `kubectl` does not start with `exec` |
| Execution.ContextAfterNamespace | server/kubernetes.ts:108-114 | after the namespace flag is appended, `--context` occurs if and only if it occurs in the command or in the namespace value |
| Execution.DirectInvocationShape | server/kubernetes.ts:105-115 | the direct form in closed form: the command, the namespace flag when neither `--namespace` nor `-n ` occurs, the context flag when `--context` occurs neither in the command nor in an appended namespace |
| Execution.DirectInvocationExtends | server/kubernetes.ts:105-115 | the command is always a prefix of its direct form |
| Execution.DirectInvocationHasNamespaceFlag | server/kubernetes.ts:108-110 | the direct form always passes the namespace-flag test |
| Execution.DirectInvocationHasContextFlag | server/kubernetes.ts:112-114 | the direct form always contains `--context` |
| Execution.DirectInvocationIdempotent | server/kubernetes.ts:105-115 | composing the direct form twice gives the same string as composing it once |
| Execution.NamespaceNotValidated | server/kubernetes.ts:93-110 | only the raw command is validated: with a namespace value carrying `; rm `, an accepted command gets a direct form that the policy itself rejects |
| Execution.PodInvocationExample | server/kubernetes.ts:104 | pod `p1`, namespace `ns1`, context `ctx1` and `kubectl get files` give `kubectl exec -i p1 --namespace=ns1 --context=ctx1 -- kubectl get files` |
| Execution.DefaultsExample | server/kubernetes.ts:105-115 | `kubectl get pods` with namespace `default` and context `minikube` gives `kubectl get pods --namespace=default --context=minikube` |
| Execution.ShortNamespaceFlagExample | server/kubernetes.ts:108-114 | a command with `-n custom` and `--context=dev` is run as given |
| Listing.Lines | server/kubernetes.ts:25 | the lines of the trimmed output: at least one, none containing a newline, and joined back they are the trimmed output |
| Listing.StripEach | server/kubernetes.ts:39 | one entry per line, each the line with its first occurrence of the prefix removed |
| Listing.StripEachAppend | server/kubernetes.ts:39 | stripping distributes over concatenation of line blocks |
| Listing.NonEmpty | server/kubernetes.ts:78 | keeps exactly the non-empty strings, and no more entries than the input; a list without empty strings is returned unchanged, duplicates and order included |
| Listing.NonEmptySingle | server/kubernetes.ts:78 | a single string is kept exactly when it is not empty |
| Listing.NonEmptyAppend | server/kubernetes.ts:78 | filtering a concatenation is the concatenation of the filtered parts; with `NonEmptySingle` this pins the result down: the non-empty entries, in order, repeats kept |
| Listing.StrippedNames | server/kubernetes.ts:74-78 | a name survives stripping and filtering exactly when it is non-empty and some line gives it |
| Listing.ContextNames | server/kubernetes.ts:22-30 | no names when the run fails; otherwise the lines of the trimmed output |
| Listing.Annotate | server/kubernetes.ts:50-53 | one descriptor per name, in order, carrying that name, available exactly when the status map holds `true` for it |
| Listing.Contexts | server/kubernetes.ts:47-58 | one descriptor per context name, in order, available exactly when the status map holds `true` for that name |
| Listing.UnprobedContextsUnavailable | server/kubernetes.ts:52 | with the status map empty, as the code leaves it, every context is unavailable |
| Listing.FallbackNamespaces | server/kubernetes.ts:42 | definition: `default`, `kube-system`, `kube-public`, in that order; `Listing.Namespaces` returns it when the run fails |
| Listing.Namespaces | server/kubernetes.ts:33-44 | exactly `default`, `kube-system`, `kube-public` when the run fails; otherwise one entry per line with its first `namespace/` removed, empty entries kept |
| Listing.Pods | server/kubernetes.ts:71-83 | nothing when the run fails; never an empty name; otherwise a name is listed exactly when it is non-empty and some line with its first `pod/` removed gives it, and the list is the stripped lines filtered by `NonEmpty`, so in line order with repeats kept |
| Listing.PodsInLineOrder | server/kubernetes.ts:74-78 | the pods of an earlier block of output lines all come before those of a later block |
| Listing.BlankOutput | server/kubernetes.ts:71-83 | whitespace-only output lists no pod but one empty namespace and one empty context name |
| Listing.EntriesAreSingleLines | server/kubernetes.ts:36-39 | no namespace and no pod name contains a newline |
| Listing.TwoPodsListed | server/kubernetes.ts:74-78 | two `pod/` lines give the two pod names, in order |
| Storage.NewerFirst | server/storage.ts:77-79 | definition of the comparator with the stable sort's tie-break: later time first, equal times by ascending id; `Storage.NewestFirstUnique` shows it fixes the order |
| Storage.NewestFirst | server/storage.ts:77-79 | definition of the history order: every earlier record is `NewerFirst` than every later one; `Storage.NewestFirstUnique` shows it fixes the order |
| Storage.OwnedFrom | server/storage.ts:75-76 | exactly the stored records of the user in the id range, in increasing id order |
| Storage.InsertNewestFirst | server/storage.ts:77-79 | inserting into a newest-first sequence keeps it newest first and adds exactly the new record |
| Storage.SortNewestFirst | server/storage.ts:77-79 | the result is newest first and has exactly the records of the input, as many as the input |
| Storage.History | server/storage.ts:74-80 | newest first, and a record is in it exactly when it is stored under its id and belongs to the user |
| Storage.NewestFirstUnique | server/storage.ts:77-79 | two newest-first sequences with the same records are equal: the order is fully determined |
| Storage.WithoutUser | server/storage.ts:82-90 | definition of the table after the deletions; `Storage.HistoryCleared`, `Storage.OtherHistoriesKept` and `Storage.MemStorage.ClearCommandHistory` give its meaning |
| Storage.HistoryCleared | server/storage.ts:82-90 | after removing a user's records the user's history is empty |
| Storage.OtherHistoriesKept | server/storage.ts:82-90 | removing one user's records leaves every other user's history identical, order included |
| Storage.MemStorage.Valid | server/storage.ts:21-32 | the store invariant every method keeps: user ids below the user counter and stored under themselves, commands keyed by their ids, every stored command id issued, and the issued ids exactly those below the command counter |
| Storage.MemStorage.constructor | server/storage.ts:21-32 | the store starts with exactly user 1 `admin`, the next user id 2, no commands and the command counter at 1 |
| Storage.MemStorage.GetUser | server/storage.ts:35-37 | a user is returned exactly when one is stored under the id, and it is that user |
| Storage.MemStorage.FindUserFrom | server/storage.ts:40-42 | the first user from a given id on with the username, or none exactly when there is no such user |
| Storage.MemStorage.GetUserByUsername | server/storage.ts:39-43 | a stored user with exactly that username and the smallest id among them, or none exactly when no stored user has it |
| Storage.MemStorage.CreateUser | server/storage.ts:45-50 | the new user gets the old counter as id, larger than every stored id; the counter moves on by one; only the users table changes |
| Storage.MemStorage.CreateCommand | server/storage.ts:53-72 | the record gets a never-issued id and the given time, copies the command text, and defaults status to `success`, namespace to `default` and context to `minikube`; output, error and user id stay null when absent; users are unchanged |
| Storage.MemStorage.GetCommandHistory | server/storage.ts:74-80 | exactly the stored records of the user, newest first, reading but not changing the store |
| Storage.MemStorage.ClearCommandHistory | server/storage.ts:82-90 | every record of the user is removed and all others kept; users, both counters and the issued ids are unchanged; the user's history is then empty and every other user's history is as before |

## Left out

- How a command line is run (`exec` through `promisify`, the shell, the
  ten-second timeout): the `Executor.Shell` object only logs the line and
  hands back an outcome, and a timeout is one more way for a run to fail.
- Concurrent requests: `ExecuteKubernetesCommand` handles one request at a
  time, as one step that adds exactly one record to the shell's log. In the
  server, requests awaiting `execAsync` (server/kubernetes.ts:117) can
  interleave, so their runs may reach the shell in any order.
- Logging to the console in the catch clauses.
- `checkContextAvailability` and the module-level status cache: nothing in
  the code calls the probe, so the cache stays empty. `Listing.Contexts`
  takes the status map as a parameter.
- Listing.Contexts: a context named like a property every JavaScript object
  inherits (`constructor`, `toString`) reads an inherited function from the
  empty cache, and `|| false` keeps that truthy value. The model reads such
  a name as absent, so it reports it unavailable.
- `getNamespaces` and the outer `try` of `getContexts` only forward to
  functions that never throw, so they add nothing.
- The command lines the listings run (`kubectl config get-contexts -o name`,
  `kubectl get namespaces --context=… -o name`,
  `kubectl get pods --namespace=… --context=… -o name`). The listings start
  from the outcome of that run. The namespace and context are spliced into
  those lines unchecked, like the flags of the pipeline
  (`Execution.NamespaceNotValidated`).
- The default arguments of `executeKubernetesCommand` (namespace
  `default`, context empty, no pod): every caller here passes all four
  arguments. The HTTP route passes `default` and `minikube` when a field is
  missing; `Execution.DefaultsExample` uses those.
- The HTTP routes, session handling, schema validation and the client. The
  route's request schema has no `pod` field, so a pod never reaches the
  pipeline over HTTP; the pipeline still handles one.
- `createUser` stores the password it is given as is; any hashing a
  caller does is not part of this model.
- Strings are sequences of code points, not UTF-16 code units. The
  operations used here (ASCII keywords, whitespace, `\n`, `/`) do not
  depend on the difference.
- `executedAt` is a millisecond count, as `getTime()` compares it; calendar
  dates are not modelled.
- The promise wrapping of every store method: each one completes without
  awaiting anything else.
