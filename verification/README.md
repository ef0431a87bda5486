# Consul coordination core of curator-universal, in Dafny

This project models the Consul back-end of curator-universal. That back-end
builds ZooKeeper-style coordination (a watched cache of a key prefix, an
ephemeral session, a lock) out of plain calls to Consul's HTTP API. The model
keeps the decisions and leaves out the threads, futures and HTTP client that
carry them. Clock readings, server answers, interrupts, random draws and
library codecs become inputs. Loops become recursive functions over
sequences of those inputs.

Modules, one per component of the source:

- `Wrappers` holds `Option` and `Result`. `Exceptions` holds the Java
  exception classes the code distinguishes, with their subclass relation.
- `JavaInt` holds 32-bit `int` facts: truncating division, `Integer.parseInt`
  and decimal rendering.
- `Json` is the part of Jackson's `JsonNode` the code uses, plus
  `Json.requireFirstChild`.
- `TimeStrings` covers Consul's duration strings (`"30s"`, `"5m"`).
- `Retry` holds the four retry policies and the default `sleep`.
- `Transport` covers `ApiRequest`: classifying completions, the retry
  protocol, the index header, the token header and the static blocking
  `get`. It also covers `SyncHandler.get`.
- `Paths` is `NodePathImpl`. `ModelSpecs` is `ModelSpecImpl`.
  `CacheListener` is the `postInitializedOnly` gate.
- `ConsulClient` covers `ConsulClientImpl.buildUri` and the key-value
  requests built with it.
- `ConsulCache` is `ConsulCacheImpl`. It covers the snapshot diff, the
  choice of blocking index, the worker loop and the start/close slot.
- `Sessions` is `Session`. It covers the CONNECTED/SUSPENDED/LOST machine,
  create or renew, the reschedule delay, the renewal's TTL update and `close`.
- `Locks` is `CuratorLockImpl`. It covers the budget-bounded acquire loop
  and `release`.

`equals` of `NodePathImpl` (node-list equality) and of `ModelSpecImpl`
(path and serializer) is Dafny's structural equality on the datatypes.
`ConsulCacheImpl.current` is the `mirror` of the cache state.

Three behaviours of the code are modelled as written:

- `ApiRequest.Callback.completed` computes `statusFamily` but compares the
  raw status code with 2 and 5. A request run takes a `Transport.Reading`:
  `AsWritten` follows that comparison (`Transport.ClassifyAsWritten`) and the
  retry policies' `allowRetry` as written; `Corrected` classifies by status
  family. The Findings rows record both differences.
- In `ConsulCacheImpl.processNodes`, the exception from a missing field or
  bad Base64 leaves the loop at once. The rest of the snapshot, the removals
  and `initialized` are skipped, while the index has already advanced
  (`ConsulCache.StopsAtMissingIndex`, `ConsulCache.PartialPassAdvancesIndex`).
- A renewal that completes after `Session.close` still calls `setSessionId`
  with the old id, which restores it (`Sessions.RenewAfterCloseRestoresId`).

## Model

| member | source | states |
|---|---|---|
| Json.RequireFirstChild | curator-universal-consul/src/main/java/org/apache/curator/universal/consul/details/Json.java:19-34 | It succeeds exactly on a one-element array and returns that element. A non-array fails with IllegalStateException "Expecting an array of values". An empty or longer array fails with IndexOutOfBoundsException. |
| Json.Get | curator-universal-consul/src/main/java/org/apache/curator/universal/consul/details/CuratorLockImpl.java:65 | `get(name)` finds a node exactly for a field of an object. |
| Json.AsInt | curator-universal-consul/src/main/java/org/apache/curator/universal/consul/details/ConsulCacheImpl.java:131 | `asInt` always gives a 32-bit int. |
| Json.Coercions | curator-universal-consul/src/main/java/org/apache/curator/universal/consul/details/CuratorLockImpl.java:41-65 | `asText` of a string is the string and of a number its decimal form. `asBoolean` holds for true, a non-zero number, and the text "true" between blanks, and not for "yes". `asInt` reads an int back from its decimal text. `has` finds exactly the fields of an object. |
| JavaInt.ParseInt | curator-universal-consul/src/main/java/org/apache/curator/universal/consul/details/ApiRequest.java:190-202 | A parsed value is a 32-bit int; empty text and a lone sign do not parse. |
| JavaInt.ParseIntOfDecimal | curator-universal-consul/src/main/java/org/apache/curator/universal/consul/details/ApiRequest.java:190-202 | Every 32-bit int is read back from its decimal text. |
| JavaInt.DecimalSign | curator-universal-consul/src/main/java/org/apache/curator/universal/consul/details/ConsulClientImpl.java:147-150 | The decimal text of an int is never empty, never starts with `+`, and starts with `-` exactly for a negative value. |
| JavaInt.TruncDivBounds | curator-universal-consul/src/main/java/org/apache/curator/universal/consul/details/ApiRequest.java:65 | Java's `/` truncates toward zero: the quotient times the divisor lies within one divisor of the dividend, on the dividend's side of zero. |
| TimeStrings.ToInt | curator-universal-consul/src/main/java/org/apache/curator/universal/consul/details/TimeStrings.java:32-42 | A parsed prefix is a 32-bit int. Any failure is the RuntimeException "Could not parse: " followed by the whole string. |
| TimeStrings.ToMillis | curator-universal-consul/src/main/java/org/apache/curator/universal/consul/details/TimeStrings.java:27-30 | `toMillis` truncates toward zero: for a non-negative duration the whole milliseconds below it, for a negative one the whole milliseconds above it. |
| TimeStrings.GetSeconds | curator-universal-consul/src/main/java/org/apache/curator/universal/consul/details/TimeStrings.java:22-25 | `getSeconds` is the floor of the duration in seconds. |
| TimeStrings.Parse | curator-universal-consul/src/main/java/org/apache/curator/universal/consul/details/TimeStrings.java:7-20 | It succeeds exactly when the string ends in `s` or `m` and the rest parses as an int. The result is that many seconds or minutes. Any other suffix fails with the parse error. |
| TimeStrings.ToSeconds | curator-universal-consul/src/main/java/org/apache/curator/universal/consul/details/TimeStrings.java:27-30 | The text ends in `s`. For a non-negative duration it is the decimal count of whole seconds followed by `s`. |
| TimeStrings.ToMinutes | curator-universal-consul/src/main/java/org/apache/curator/universal/consul/details/TimeStrings.java:22-25 | The text ends in `m`. For a non-negative duration it is the decimal count of whole minutes followed by `m`. |
| TimeStrings.ParseSecondsString | curator-universal-consul/src/main/java/org/apache/curator/universal/consul/details/TimeStrings.java:9-12 | `"<n>s"` parses to n seconds for every 32-bit n, negative ones included. |
| TimeStrings.ParseMinutesString | curator-universal-consul/src/main/java/org/apache/curator/universal/consul/details/TimeStrings.java:14-17 | `"<n>m"` parses to n minutes for every 32-bit n. |
| TimeStrings.SecondsRoundTrip | curator-universal-consul/src/main/java/org/apache/curator/universal/consul/details/TimeStrings.java:7-30 | Parsing `toSeconds(d)` gives back d when d is whole seconds, non-negative and within int range. |
| TimeStrings.MinutesRoundTrip | curator-universal-consul/src/main/java/org/apache/curator/universal/consul/details/TimeStrings.java:7-30 | Parsing `toMinutes(d)` gives back d when d is whole minutes, non-negative and within int range. |
| TimeStrings.MillisecondSuffixRejected | curator-universal-consul/src/main/java/org/apache/curator/universal/consul/details/TimeStrings.java:9-12 | `"5ms"` is rejected: its suffix is `s` and its prefix `5m` is not an int. |
| Retry.Sleep | curator-universal-consul/src/main/java/org/apache/curator/universal/consul/retry/RetryPolicy.java:19-31 | Without an interrupt, `sleep` returns true and leaves the flag alone. With an interrupt during a positive sleep, it returns false and re-asserts the flag. |
| Retry.BackoffSleep | curator-universal-consul/src/main/java/org/apache/curator/universal/consul/retry/ExponentialBackoffRetry.java:26-27 | The chosen sleep never exceeds `maxSleepTime`. For a non-negative base it is at least `min(base, maxSleepTime)`. It cannot fail (IllegalArgumentException from `nextInt`) for counts 0 to 29. |
| Retry.AllowRetry | curator-universal-consul/src/main/java/org/apache/curator/universal/consul/retry/ExponentialBackoffRetry.java:21-41 | The decision of each policy with the interrupt answered by false. `none()` and a policy at its cap refuse without sleeping. An allowed retry always slept, and the answer is what the sleep returned. Only the exponential policy can throw. |
| Retry.AllowRetryAsWritten | curator-universal-consul/src/main/java/org/apache/curator/universal/consul/retry/RetryForever.java:16-28 | As written, the forever policy and the exponential policy below its cap answer true whatever their sleep returned. The exponential policy refuses at its cap. The other policies agree with `AllowRetry`. |
| Retry.InterruptedSleepStillRetriesAsWritten | curator-universal-consul/src/main/java/org/apache/curator/universal/consul/retry/ExponentialBackoffRetry.java:29-38 | With an interrupt during a one-second sleep, both sleeping policies as written allow the retry, while the corrected decision refuses it. |
| Retry.ElapsedIgnored | curator-universal-consul/src/main/java/org/apache/curator/universal/consul/retry/StandardRetry.java:18-21 | No policy's decision depends on the elapsed time. |
| Retry.NoRetryRefusesAll | curator-universal-consul/src/main/java/org/apache/curator/universal/consul/retry/RetryPolicy.java:33-36 | `none()` refuses every count and elapsed time and never sleeps. |
| Retry.ForeverDecision | curator-universal-consul/src/main/java/org/apache/curator/universal/consul/retry/RetryForever.java:16-28 | The forever policy always sleeps `sleepTime`. It allows the retry exactly when that sleep was not interrupted. |
| Retry.StandardDecision | curator-universal-consul/src/main/java/org/apache/curator/universal/consul/retry/StandardRetry.java:18-21 | Below the cap, the standard policy sleeps exactly `sleepTime` and answers what `sleep` answers. |
| Retry.BackoffDecision | curator-universal-consul/src/main/java/org/apache/curator/universal/consul/retry/ExponentialBackoffRetry.java:21-41 | Below the cap and below the shift overflow, the sleep is `min(base * max(1, r), maxSleep)` for some `r < 2^(retryCount+1)`. It lies between `min(base, maxSleep)` and `maxSleep`. |
| Retry.NewStandard | curator-universal-consul/src/main/java/org/apache/curator/universal/consul/retry/StandardRetry.java:11-15 | A null sleep time is rejected with NullPointerException. Otherwise the fields are stored unchanged. |
| Retry.NewForever | curator-universal-consul/src/main/java/org/apache/curator/universal/consul/retry/RetryForever.java:10-13 | A null sleep time is rejected with NullPointerException. |
| Retry.NewExponentialBackoff | curator-universal-consul/src/main/java/org/apache/curator/universal/consul/retry/ExponentialBackoffRetry.java:13-18 | A null base or maximum sleep is rejected with NullPointerException. Otherwise the fields are stored unchanged. |
| Transport.ConsulIndex | curator-universal-consul/src/main/java/org/apache/curator/universal/consul/details/ApiRequest.java:190-202 | An absent or non-integer `X-Consul-Index` gives -1. Otherwise the result is the parsed 32-bit value. |
| Transport.ConsulIndexRoundTrip | curator-universal-consul/src/main/java/org/apache/curator/universal/consul/details/SyncHandler.java:66-78 | A header holding the decimal text of any int gives that int back; no header gives -1. |
| Transport.RetryableClasses | curator-universal-consul/src/main/java/org/apache/curator/universal/consul/details/ApiRequest.java:204-210 | A failure is retryable exactly when its class is ConnectionClosedException, ConnectException or InterruptedIOException, or a subclass of one of them. |
| Transport.ClassifyAsWritten | curator-universal-consul/src/main/java/org/apache/curator/universal/consul/details/ApiRequest.java:63-84 | As written, the success branch is taken exactly for status code 2 and a retry is considered exactly for code 5. |
| Transport.ClassifyByFamily | curator-universal-consul/src/main/java/org/apache/curator/universal/consul/details/ApiRequest.java:65-69 | The corrected classification is by `status / 100` with Java's truncating division. Family 2 succeeds, family 5 may be retried, and everything else fails for good. |
| Transport.StatusCheckRejectsOk | curator-universal-consul/src/main/java/org/apache/curator/universal/consul/details/ApiRequest.java:66-69 | As written, 200 is treated as a permanent failure and 503 is not retried. The corrected classification succeeds on 200 and retries 503. |
| Transport.DeciderOf | curator-universal-consul/src/main/java/org/apache/curator/universal/consul/details/ApiRequest.java:98-102 | `none()` always refuses. As written, `RetryForever` always allows. Corrected, a retry is allowed only after a sleep that was not interrupted. |
| Transport.FailureOf | curator-universal-consul/src/main/java/org/apache/curator/universal/consul/details/ApiRequest.java:63-96 | No failure exactly for a cancellation or an accepted answer. A transport failure is retryable as `exceptionCanBeRetried` says. A rejected status fails with HttpResponseException, retryable exactly for the retryable class. An accepted status with an unreadable body fails with a non-retryable RuntimeException. |
| Transport.PolicyFor | curator-universal-consul/src/main/java/org/apache/curator/universal/consul/details/ApiRequest.java:162-169 | `useRetryPolicy(false)` selects `none()`; otherwise the configured policy is used. |
| Transport.Stamp | curator-universal-consul/src/main/java/org/apache/curator/universal/consul/details/ApiRequest.java:171-180 | The token header is present exactly when a token is configured. Verb, URI and body are unchanged. |
| Transport.Handle | curator-universal-consul/src/main/java/org/apache/curator/universal/consul/details/ApiRequest.java:63-108 | One completion leads to a reissue exactly when the failure is retryable and the policy allowed it. The policy is consulted only about a retryable failure, with the current count and the time since the first attempt. The future succeeds exactly on an answer the reading accepts: as written, a raw status of 2 with a readable body. A cancellation completes the future with CancellationException. |
| Transport.Steps | curator-universal-consul/src/main/java/org/apache/curator/universal/consul/details/ApiRequest.java:98-108 | The k-th completion is handled with retry count k. |
| Transport.Chain | curator-universal-consul/src/main/java/org/apache/curator/universal/consul/details/ApiRequest.java:171-180 | A run issues at least one request and at most one more than its completions. It consults the policy once per retry, plus possibly once more. A run whose last request is unanswered stays pending. |
| Transport.Execute | curator-universal-consul/src/main/java/org/apache/curator/universal/consul/details/ApiRequest.java:162-180 | A run sends at least one request and at most one per completion plus one. It consults the policy at least once per resend. A run whose every completion led to a resend is still pending. |
| Transport.TokenOnEveryAttempt | curator-universal-consul/src/main/java/org/apache/curator/universal/consul/details/ApiRequest.java:171-180 | Every attempt of a run carries the configured token, and the same verb, URI and body as the first. |
| Transport.ExecuteConsultsInOrder | curator-universal-consul/src/main/java/org/apache/curator/universal/consul/details/ApiRequest.java:51-52 | The i-th consultation of the policy sees count i and the time since the run started, measured at that completion. |
| Transport.ExecuteRetriesOnlyWhenAllowed | curator-universal-consul/src/main/java/org/apache/curator/universal/consul/details/ApiRequest.java:98-108 | Every request after the first follows a retryable failure whose retry the policy allowed. |
| Transport.ExecuteStopsUnlessRetried | curator-universal-consul/src/main/java/org/apache/curator/universal/consul/details/ApiRequest.java:98-108 | A run stops at the first completion not both retryable and allowed. |
| Transport.ExecuteSucceedsOnlyOnAnswer | curator-universal-consul/src/main/java/org/apache/curator/universal/consul/details/ApiRequest.java:72-78 | The future succeeds exactly when the last request sent came back as an answer the reading accepts, and then holds the response built from it. |
| Transport.AsWrittenSucceedsOnlyOnStatusTwo | curator-universal-consul/src/main/java/org/apache/curator/universal/consul/details/ApiRequest.java:66-78 | As written, a successful future came from an answer whose raw status is 2 with a readable body. |
| Transport.AsWrittenNeverSucceedsOnOk | curator-universal-consul/src/main/java/org/apache/curator/universal/consul/details/ApiRequest.java:66-78 | As written, a request whose every answer is 200 OK never succeeds, whatever the policy. |
| Transport.CorrectedSucceedsOn2xx | curator-universal-consul/src/main/java/org/apache/curator/universal/consul/details/ApiRequest.java:65-78 | Corrected, a successful future came from a 2xx answer with a readable body, and a first answer of that kind settles the request at once with its response. |
| Transport.ExecutePendingOnlyInFlightOrEscaped | curator-universal-consul/src/main/java/org/apache/curator/universal/consul/details/ApiRequest.java:98-108 | The future stays pending exactly when the last request is still unanswered or the policy threw inside the callback. |
| Transport.NoRetrySendsOnce | curator-universal-consul/src/main/java/org/apache/curator/universal/consul/details/ApiRequest.java:135-139 | With `useRetryPolicy(false)` exactly one request is sent under either reading, whatever the completions. |
| Transport.Await | curator-universal-consul/src/main/java/org/apache/curator/universal/consul/details/ApiRequest.java:141-160 | A completed future gives its response. A wait that ends first gives null, re-asserting the interrupt when interrupted. A failure becomes a RuntimeException with the given message. A cancellation is rethrown as itself. |
| Transport.SyncGet | curator-universal-consul/src/main/java/org/apache/curator/universal/consul/details/SyncHandler.java:37-64 | A response is returned exactly for status 200 with a readable body, built from that body and the index header. Any other status throws a RuntimeException. A timeout or interrupt gives null; only the interrupt re-asserts the flag. An execution failure becomes RuntimeException(prefix + argument). |
| Paths.SplitFrom | curator-universal/src/main/java/org/apache/curator/universal/details/NodePathImpl.java:34-46 | Splitting yields only non-empty, separator-free names. |
| Paths.Split | curator-universal/src/main/java/org/apache/curator/universal/details/NodePathImpl.java:34-46 | Every segment is non-empty and free of the separator. |
| Paths.ParameterNames | curator-universal/src/main/java/org/apache/curator/universal/details/NodePathImpl.java:206-209 | A parameter has at least two characters and starts with the separator. The root is resolved and is the root; a path holding a parameter is not resolved. |
| Paths.Parse | curator-universal/src/main/java/org/apache/curator/universal/details/NodePathImpl.java:27-47 | A parsed path starts with the root node. It is followed by the filtered non-empty segments, in order. |
| Paths.Child | curator-universal/src/main/java/org/apache/curator/universal/details/NodePathImpl.java:89-92 | The child path has one more node, which is the given name. |
| Paths.Parent | curator-universal/src/main/java/org/apache/curator/universal/details/NodePathImpl.java:95-103 | It fails exactly for the root, with NoSuchElementException. Otherwise it drops the last node, so that the child with that name is the original path. |
| Paths.JoinSnoc | curator-universal/src/main/java/org/apache/curator/universal/details/NodePathImpl.java:252-267 | Joining one more name appends the separator and the name. |
| Paths.BuildFullPath | curator-universal/src/main/java/org/apache/curator/universal/details/NodePathImpl.java:252-267 | The loop yields the root node followed by the names, each preceded by the separator; the root alone yields "/". |
| Paths.ToString | curator-universal/src/main/java/org/apache/curator/universal/details/NodePathImpl.java:177-182 | The text is never empty and starts with "/". |
| Paths.FullPath | curator-universal/src/main/java/org/apache/curator/universal/details/NodePathImpl.java:137-145 | It succeeds exactly for a resolved path, and yields its rendering ("/" for the root). An unresolved path fails with IllegalStateException. |
| Paths.Substitute | curator-universal/src/main/java/org/apache/curator/universal/details/NodePathImpl.java:185-198 | Substitution keeps the number of nodes. |
| Paths.SubstituteAt | curator-universal/src/main/java/org/apache/curator/universal/details/NodePathImpl.java:185-198 | Node i becomes the next unused argument if it is a parameter and arguments remain. Otherwise it is unchanged. |
| Paths.SubstituteSpec | curator-universal/src/main/java/org/apache/curator/universal/details/NodePathImpl.java:185-198 | Parameters are replaced left to right by the arguments in order. Extra arguments are ignored, and parameters without an argument stay. |
| Paths.CountFirst | curator-universal/src/main/java/org/apache/curator/universal/details/NodePathImpl.java:185-198 | The parameter count of a prefix is the first node's contribution plus the count of the rest. |
| Paths.Resolved | curator-universal/src/main/java/org/apache/curator/universal/details/NodePathImpl.java:185-198 | Resolving keeps the number of nodes. |
| Paths.ResolvedIsResolved | curator-universal/src/main/java/org/apache/curator/universal/details/NodePathImpl.java:185-204 | With enough non-parameter arguments, the resolved path is resolved. |
| Paths.CountMonotone | curator-universal/src/main/java/org/apache/curator/universal/details/NodePathImpl.java:185-198 | A prefix never has more parameters than the whole list. |
| Paths.ResolvedWithoutArguments | curator-universal/src/main/java/org/apache/curator/universal/details/NodePathImpl.java:185-198 | Resolving with no arguments changes nothing. |
| Paths.ChildParent | curator-universal/src/main/java/org/apache/curator/universal/details/NodePathImpl.java:89-103 | The parent of `p.child(x)` is p. |
| Paths.StartsWithChild | curator-universal/src/main/java/org/apache/curator/universal/details/NodePathImpl.java:112-124 | `startsWith` is reflexive, a child starts with its parent, and a path does not start with its own child. |
| Paths.ParsedStartsAtRoot | curator-universal/src/main/java/org/apache/curator/universal/details/NodePathImpl.java:27-47 | Every parsed path starts with the root. It is the root exactly when the text has no non-empty segment. |
| Paths.ParseDropsEmptySegments | curator-universal/src/main/java/org/apache/curator/universal/details/NodePathImpl.java:34-46 | "/a//b/" parses to the nodes "/", "a", "b". |
| Paths.SplitRun | curator-universal/src/main/java/org/apache/curator/universal/details/NodePathImpl.java:34-46 | A run of non-separator characters extends the current segment. |
| Paths.SplitJoin | curator-universal/src/main/java/org/apache/curator/universal/details/NodePathImpl.java:34-46 | Splitting the joined non-empty, separator-free names gives the names back. |
| Paths.SplitRendered | curator-universal/src/main/java/org/apache/curator/universal/details/NodePathImpl.java:34-46 | Splitting "/" followed by the joined names gives the names back. |
| Paths.PlainNamesResolved | curator-universal/src/main/java/org/apache/curator/universal/details/NodePathImpl.java:201-209 | A path of non-empty, separator-free names is resolved. |
| Paths.ParseFullPath | curator-universal/src/main/java/org/apache/curator/universal/details/NodePathImpl.java:137-145 | For a path of non-empty, separator-free names, `fullPath` succeeds and parsing it gives the path back. |
| Paths.ToStringOfResolved | curator-universal/src/main/java/org/apache/curator/universal/details/NodePathImpl.java:177-182 | For a resolved rooted path, `toString` equals `fullPath`. |
| Paths.UnresolvedHasNoFullPath | curator-universal/src/main/java/org/apache/curator/universal/details/NodePathImpl.java:231-237 | "/users/{id}" with a parameter node has no full path, while its `toString` shows the parameter name. |
| ModelSpecs.NewModelSpec | curator-universal/src/main/java/org/apache/curator/universal/details/ModelSpecImpl.java:14-18 | A null path or serializer is rejected with NullPointerException, the path checked first. Otherwise both are stored. |
| ModelSpecs.WithPath | curator-universal/src/main/java/org/apache/curator/universal/details/ModelSpecImpl.java:45-48 | It replaces only the path and keeps the serializer; a null path is rejected. |
| ModelSpecs.SpecChild | curator-universal/src/main/java/org/apache/curator/universal/details/ModelSpecImpl.java:21-24 | The spec's path becomes the path's child; the serializer is kept. |
| ModelSpecs.SpecParent | curator-universal/src/main/java/org/apache/curator/universal/details/ModelSpecImpl.java:27-30 | It succeeds exactly when the path has a parent, which becomes the spec's path. The path's error passes through. |
| ModelSpecs.SpecResolved | curator-universal/src/main/java/org/apache/curator/universal/details/ModelSpecImpl.java:33-42 | The spec's path becomes the resolved path; the serializer is kept. |
| ModelSpecs.SpecChildParent | curator-universal/src/main/java/org/apache/curator/universal/details/ModelSpecImpl.java:21-30 | The parent of a child spec is the original spec. |
| ModelSpecs.WithPathLaws | curator-universal/src/main/java/org/apache/curator/universal/details/ModelSpecImpl.java:45-48 | The second of two `withPath` calls wins, and `withPath` with the current path changes nothing. |
| ModelSpecs.RootSpecHasNoParent | curator-universal/src/main/java/org/apache/curator/universal/details/ModelSpecImpl.java:27-30 | The parent of a spec at the root fails with "The root has no parent". |
| CacheListener.Deliver | curator-universal/src/main/java/org/apache/curator/universal/cache/CuratorCacheListener.java:62-84 | `initialized` sets the flag and is forwarded. `accept` is forwarded unchanged exactly when the flag is set. The flag is never cleared. |
| CacheListener.DeliverAll | curator-universal/src/main/java/org/apache/curator/universal/cache/CuratorCacheListener.java:62-84 | A set flag stays set, and no more calls are forwarded than were made. |
| CacheListener.FirstInitialized | curator-universal/src/main/java/org/apache/curator/universal/cache/CuratorCacheListener.java:69-82 | It finds the first `initialized` call; everything before it is an `accept`. |
| CacheListener.DeliverAllForwards | curator-universal/src/main/java/org/apache/curator/universal/cache/CuratorCacheListener.java:62-84 | An initialized gate forwards every call. A fresh gate forwards exactly the calls from the first `initialized` on, and is set afterwards exactly when one occurred. |
| CacheListener.PostInitializedOnly | curator-universal/src/main/java/org/apache/curator/universal/cache/CuratorCacheListener.java:69-75 | Without an `initialized` call nothing reaches the wrapped listener. Once the gate is set by a prefix of the calls it stays set. |
| ConsulClient.BuildUri | curator-universal-consul/src/main/java/org/apache/curator/universal/consul/details/ConsulClientImpl.java:125-157 | Without `extra`, the path is the API path. With `extra`, exactly one "/" joins the API path and the encoded extra. `cas=<version>` is the only parameter for a non-negative version, and there is none otherwise. |
| ConsulClient.KeyRequest | curator-universal-consul/src/main/java/org/apache/curator/universal/consul/details/ConsulClientImpl.java:112-123 | A key request targets "/v1/kv/" plus the encoded full path, with the given verb and body. It fails with IllegalStateException for an unresolved path. It carries a query exactly for a non-negative version. |
| ConsulClient.Read | curator-universal-consul/src/main/java/org/apache/curator/universal/consul/details/ConsulClientImpl.java:76-79 | `read` is a GET of "/v1/kv/" plus the encoded full path, with no body and no `cas`. It fails exactly for an unresolved path. |
| ConsulClient.Set | curator-universal-consul/src/main/java/org/apache/curator/universal/consul/details/ConsulClientImpl.java:87-91 | `set(path, data)` is a PUT of the data with no `cas`. It fails exactly for an unresolved path. |
| ConsulClient.SetVersioned | curator-universal-consul/src/main/java/org/apache/curator/universal/consul/details/ConsulClientImpl.java:81-85 | `set(path, version, data)` is a PUT of the data. It carries `cas=<version>` exactly for a non-negative version. |
| ConsulClient.Delete | curator-universal-consul/src/main/java/org/apache/curator/universal/consul/details/ConsulClientImpl.java:93-97 | `delete(path)` is a DELETE with no body and no `cas`. It fails exactly for an unresolved path. |
| ConsulClient.DeleteVersioned | curator-universal-consul/src/main/java/org/apache/curator/universal/consul/details/ConsulClientImpl.java:99-103 | `delete(path, version)` is a DELETE with no body. It carries `cas=<version>` exactly for a non-negative version. |
| ConsulClient.VersionedCarryCas | curator-universal-consul/src/main/java/org/apache/curator/universal/consul/details/ConsulClientImpl.java:82-103 | For a non-negative 32-bit version, the `cas` text of versioned `set` and `delete` parses back to that version. |
| ConsulClient.NegativeVersionIsUnconditional | curator-universal-consul/src/main/java/org/apache/curator/universal/consul/details/ConsulClientImpl.java:147-150 | A negative version makes the versioned calls equal the unversioned ones. |
| ConsulClient.SingleSeparator | curator-universal-consul/src/main/java/org/apache/curator/universal/consul/details/ConsulClientImpl.java:130-136 | "/v1/kv/" and "/v1/kv" both give "/v1/kv/" plus the encoded extra. A version of 3 gives the single parameter `cas=3`. |
| ConsulCache.Field | curator-universal-consul/src/main/java/org/apache/curator/universal/consul/details/ConsulCacheImpl.java:129-135 | Reading a missing field of a snapshot node fails with NullPointerException; a present field is returned. |
| ConsulCache.ApplyNode | curator-universal-consul/src/main/java/org/apache/curator/universal/consul/details/ConsulCacheImpl.java:129-140 | A path seen in the snapshot leaves the leftover set. If it is mirrored with the same ModifyIndex, nothing changes and nothing is emitted. Otherwise it alone is (re)placed with that index, and one NODE_ADDED or NODE_UPDATED carrying the new node is emitted: ADDED when the path was not mirrored before, UPDATED when it was. |
| ConsulCache.ApplyNodes | curator-universal-consul/src/main/java/org/apache/curator/universal/consul/details/ConsulCacheImpl.java:127-141 | The loop only adds to the mirror and only shrinks the leftover set. |
| ConsulCache.Removals | curator-universal-consul/src/main/java/org/apache/curator/universal/consul/details/ConsulCacheImpl.java:143-149 | Only leftover paths are removed, others are kept unchanged, and every event is NODE_REMOVED. |
| ConsulCache.RemovalEvents | curator-universal-consul/src/main/java/org/apache/curator/universal/consul/details/ConsulCacheImpl.java:143-149 | Every removed path emits NODE_REMOVED with the node it held. |
| ConsulCache.RemovalEventCount | curator-universal-consul/src/main/java/org/apache/curator/universal/consul/details/ConsulCacheImpl.java:143-149 | There is exactly one event per removed path. |
| ConsulCache.ProcessNodes | curator-universal-consul/src/main/java/org/apache/curator/universal/consul/details/ConsulCacheImpl.java:124-155 | A pass only appends to the event log. A complete pass sets the flag, and the first complete pass ends with the single `initialized`. A failed pass leaves the flag alone, and no other `initialized` is emitted. |
| ConsulCache.NoInitializedFromNodes | curator-universal-consul/src/main/java/org/apache/curator/universal/consul/details/ConsulCacheImpl.java:127-141 | The snapshot loop emits only node events. |
| ConsulCache.ReadFor | curator-universal-consul/src/main/java/org/apache/curator/universal/consul/details/ConsulCacheImpl.java:97-106 | Every read has `recurse` and the five-minute timeout. It carries `index=<index>` exactly for a non-negative index. |
| ConsulCache.Process | curator-universal-consul/src/main/java/org/apache/curator/universal/consul/details/ConsulCacheImpl.java:95-122 | An unresolved cache path escapes with IllegalStateException. A response overwrites the index with its header's value, even -1, and the new state is that of diffing the response's body against the mirror from there. No response, or an exception from the read, leaves the state untouched. The interrupt flag is re-asserted exactly on an interrupt. |
| ConsulCache.Processor | curator-universal-consul/src/main/java/org/apache/curator/universal/consul/details/ConsulCacheImpl.java:87-93 | The worker issues at most one read per pass. It dies only of an unresolved path. |
| ConsulCache.CountAppend | curator-universal-consul/src/main/java/org/apache/curator/universal/consul/details/ConsulCacheImpl.java:151-154 | `initialized` counts add up over concatenated logs. |
| ConsulCache.NoInitializedCount | curator-universal-consul/src/main/java/org/apache/curator/universal/consul/details/ConsulCacheImpl.java:127-149 | A log of node events holds no `initialized`. |
| ConsulCache.ExtensionKeepsInitializedOnce | curator-universal-consul/src/main/java/org/apache/curator/universal/consul/details/ConsulCacheImpl.java:151-154 | Appending at most one `initialized`, only on the false-to-true step, keeps the count equal to the flag. |
| ConsulCache.ProcessNodesKeepsInitializedOnce | curator-universal-consul/src/main/java/org/apache/curator/universal/consul/details/ConsulCacheImpl.java:151-154 | After any pass, `initialized` has been emitted once if the flag is set and never otherwise. |
| ConsulCache.ProcessorKeepsInitializedOnce | curator-universal-consul/src/main/java/org/apache/curator/universal/consul/details/ConsulCacheImpl.java:87-122 | Over the whole worker run, `initialized` is emitted at most once, and the flag is never cleared. |
| ConsulCache.SnapshotPathsCons | curator-universal-consul/src/main/java/org/apache/curator/universal/consul/details/ConsulCacheImpl.java:127-130 | The snapshot's paths are the first node's path plus the rest's. |
| ConsulCache.ApplyNodesComplete | curator-universal-consul/src/main/java/org/apache/curator/universal/consul/details/ConsulCacheImpl.java:127-141 | With every node well formed, the loop succeeds. The mirror gains exactly the snapshot's paths, the leftover set loses them, and unseen entries keep their nodes. |
| ConsulCache.RemovalsComplete | curator-universal-consul/src/main/java/org/apache/curator/universal/consul/details/ConsulCacheImpl.java:143-149 | When the iteration order covers the leftover set, exactly the leftover paths are removed. |
| ConsulCache.RemovalsSkipping | curator-universal-consul/src/main/java/org/apache/curator/universal/consul/details/ConsulCacheImpl.java:143-149 | Paths missing from the order that are not both leftover and mirrored do not affect the result. |
| ConsulCache.FullPassMirrorsSnapshot | curator-universal-consul/src/main/java/org/apache/curator/universal/consul/details/ConsulCacheImpl.java:124-155 | A well-formed snapshot leaves the mirror's key set equal to the snapshot's paths and sets the flag. |
| ConsulCache.Start | curator-universal-consul/src/main/java/org/apache/curator/universal/consul/details/ConsulCacheImpl.java:55-63 | An empty slot takes the new worker. A taken slot keeps its worker, cancels the new one and throws IllegalStateException "Already started". |
| ConsulCache.Close | curator-universal-consul/src/main/java/org/apache/curator/universal/consul/details/ConsulCacheImpl.java:66-73 | The slot is emptied, and the worker it held, if any, is cancelled. |
| ConsulCache.StartCloseStart | curator-universal-consul/src/main/java/org/apache/curator/universal/consul/details/ConsulCacheImpl.java:55-73 | A second start fails and cancels its worker. Close cancels the first worker. A start after close succeeds. |
| ConsulCache.UnresolvedRootKillsWorker | curator-universal-consul/src/main/java/org/apache/curator/universal/consul/details/ConsulCacheImpl.java:95-105 | With an unresolved cache path, the worker dies at its first pass without sending a read. |
| ConsulCache.KeyPath | curator-universal-consul/src/main/java/org/apache/curator/universal/consul/details/ConsulCacheImpl.java:129 | An element without `Key` fails with NullPointerException. Otherwise its path is the root followed by the non-empty segments of the key text. |
| ConsulCache.KeyNodePath | curator-universal-consul/src/main/java/org/apache/curator/universal/consul/details/ConsulCacheImpl.java:129 | A one-segment key parses to the path of that name under the root. |
| ConsulCache.CompletePass | curator-universal-consul/src/main/java/org/apache/curator/universal/consul/details/ConsulCacheImpl.java:124-155 | A pass whose loop succeeds applies the loop's and the removals' events in order, then `initialized` if this is the first complete pass. |
| ConsulCache.FailedPass | curator-universal-consul/src/main/java/org/apache/curator/universal/consul/details/ConsulCacheImpl.java:124-141 | A pass whose loop fails keeps the changes and events made before the failure. It skips the removals and `initialized`. |
| ConsulCache.AddKeyNode | curator-universal-consul/src/main/java/org/apache/curator/universal/consul/details/ConsulCacheImpl.java:132-139 | A new key is inserted with its index and decoded value, and emits NODE_ADDED with that node. |
| ConsulCache.KeepKeyNode | curator-universal-consul/src/main/java/org/apache/curator/universal/consul/details/ConsulCacheImpl.java:132-133 | A key mirrored at the same ModifyIndex emits nothing and changes nothing. |
| ConsulCache.BothKeysAdded | curator-universal-consul/src/main/java/org/apache/curator/universal/consul/details/ConsulCacheImpl.java:127-141 | Two new keys are added in snapshot order, each with one NODE_ADDED. |
| ConsulCache.OnlySecondKeySeen | curator-universal-consul/src/main/java/org/apache/curator/universal/consul/details/ConsulCacheImpl.java:126-141 | When an unchanged key is seen again, only the other key stays in the leftover set. |
| ConsulCache.FirstPassInitializes | curator-universal-consul/src/main/java/org/apache/curator/universal/consul/details/ConsulCacheImpl.java:124-155 | The first pass over two keys emits two NODE_ADDED events and then `initialized`. |
| ConsulCache.RemoveOne | curator-universal-consul/src/main/java/org/apache/curator/universal/consul/details/ConsulCacheImpl.java:143-149 | Removing one leftover path emits NODE_REMOVED with its node. |
| ConsulCache.SecondPassRemoves | curator-universal-consul/src/main/java/org/apache/curator/universal/consul/details/ConsulCacheImpl.java:124-155 | A later pass missing a key removes it with one NODE_REMOVED, and no second `initialized` follows. |
| ConsulCache.VanishedKeyIsRemoved | curator-universal-consul/src/main/java/org/apache/curator/universal/consul/details/ConsulCacheImpl.java:124-155 | Over two passes, where the second drops a key, the log is ADDED, ADDED, `initialized`, REMOVED. |
| ConsulCache.IndexOverwrittenNotMaximised | curator-universal-consul/src/main/java/org/apache/curator/universal/consul/details/ConsulCacheImpl.java:98-115 | An answer without an index header resets a positive index to -1, and the next read carries no `index`. |
| ConsulCache.StopsAtMissingIndex | curator-universal-consul/src/main/java/org/apache/curator/universal/consul/details/ConsulCacheImpl.java:127-141 | A node without ModifyIndex stops the loop after the earlier nodes were applied. |
| ConsulCache.PartialPassAdvancesIndex | curator-universal-consul/src/main/java/org/apache/curator/universal/consul/details/ConsulCacheImpl.java:112-121 | A failing snapshot still advances the index over a partially applied diff, and does not initialize. |
| Sessions.NewSession | curator-universal-consul/src/main/java/org/apache/curator/universal/consul/details/Session.java:41-52 | Construction parses the TTL string and fails with its error. `ttl` and `sessionLength` both start at the parsed value, with no session id and no suspension. |
| Sessions.SetSessionId | curator-universal-consul/src/main/java/org/apache/curator/universal/consul/details/Session.java:194-223 | A non-empty id reports CONNECTED and clears the suspension start. The first failure reports SUSPENDED and records now. A later failure keeps the start, and reports LOST exactly once `sessionLength` has elapsed, SUSPENDED before. |
| Sessions.Failures | curator-universal-consul/src/main/java/org/apache/curator/universal/consul/details/Session.java:194-223 | A run of failures reports once per failure and leaves the id empty; ttl, length and configuration stay. |
| Sessions.FailuresDuringSuspension | curator-universal-consul/src/main/java/org/apache/curator/universal/consul/details/Session.java:207-214 | During a suspension each failure reports LOST or SUSPENDED by its own elapsed time, and the start is kept. |
| Sessions.FailuresFromConnected | curator-universal-consul/src/main/java/org/apache/curator/universal/consul/details/Session.java:200-214 | From a connected state the first failure starts the suspension at its time. Later failures compare against it. |
| Sessions.LostStaysLost | curator-universal-consul/src/main/java/org/apache/curator/universal/consul/details/Session.java:203-214 | With a non-decreasing clock, once LOST every later failure is LOST. |
| Sessions.SuccessReconnects | curator-universal-consul/src/main/java/org/apache/curator/universal/consul/details/Session.java:216-220 | A success after failures reports CONNECTED; the next failure starts a fresh suspension. |
| Sessions.CreateBody | curator-universal-consul/src/main/java/org/apache/curator/universal/consul/details/Session.java:115-127 | The create body holds Name and TTL. It holds Checks exactly when checks are configured, with those checks in order, and LockDelay exactly when one is configured. |
| Sessions.RescheduleMillis | curator-universal-consul/src/main/java/org/apache/curator/universal/consul/details/Session.java:108-109 | For a positive ttl the delay is non-negative, no more than the ttl in milliseconds, and falls strictly before the ttl elapses. |
| Sessions.CheckSession | curator-universal-consul/src/main/java/org/apache/curator/universal/consul/details/Session.java:92-111 | With no id it creates with the body above; otherwise it renews the held id. Either way it reschedules at `ttl*2/3`. |
| Sessions.CreateCompleted | curator-universal-consul/src/main/java/org/apache/curator/universal/consul/details/Session.java:134-149 | A failed create reports twice and leaves the id empty. An answer with ID sets that id. An answer without ID changes nothing. |
| Sessions.FailedCreateReportsTwice | curator-universal-consul/src/main/java/org/apache/curator/universal/consul/details/Session.java:134-149 | From a connected state a failed create reports SUSPENDED, then SUSPENDED again, or LOST when the session length is not positive. |
| Sessions.RenewCompleted | curator-universal-consul/src/main/java/org/apache/curator/universal/consul/details/Session.java:157-192 | A failed renewal is a failure. A successful one re-sets the renewed id. It replaces `ttl` only with a TTL field that parses, never touches `sessionLength`. |
| Sessions.ArrayAnswerKeepsTtl | curator-universal-consul/src/main/java/org/apache/curator/universal/consul/details/Session.java:166-169 | Consul answers a renewal with an array, which has no TTL field, so the ttl is kept. |
| Sessions.Close | curator-universal-consul/src/main/java/org/apache/curator/universal/consul/details/Session.java:59-85 | Close empties the id. It deletes the session exactly when one was held. An interrupted wait is cleared, and a failed delete is not thrown. |
| Sessions.CloseThenCreates | curator-universal-consul/src/main/java/org/apache/curator/universal/consul/details/Session.java:59-111 | After close the next check creates, and a second close deletes nothing. |
| Sessions.RenewAfterCloseRestoresId | curator-universal-consul/src/main/java/org/apache/curator/universal/consul/details/Session.java:157-192 | A renewal issued before close and answered after it restores the old id and reports CONNECTED. |
| Sessions.SessionLengthFixed | curator-universal-consul/src/main/java/org/apache/curator/universal/consul/details/Session.java:33-49 | No transition changes `sessionLength`. |
| Locks.LockUri | curator-universal-consul/src/main/java/org/apache/curator/universal/consul/details/CuratorLockImpl.java:84-88 | Lock URIs address the lock's key under "/v1/kv/" with the given parameters. |
| Locks.MakeUri | curator-universal-consul/src/main/java/org/apache/curator/universal/consul/details/CuratorLockImpl.java:84-88 | `makeUri(mode)` addresses the key with `<mode>=<sessionId>`. An unresolved lock path fails with IllegalStateException. |
| Locks.ReadUri | curator-universal-consul/src/main/java/org/apache/curator/universal/consul/details/CuratorLockImpl.java:47-56 | The wait-read carries no parameters while the index is negative. Otherwise it carries `index` and `wait` with the remaining whole seconds. |
| Locks.PlayRound | curator-universal-consul/src/main/java/org/apache/curator/universal/consul/details/CuratorLockImpl.java:33-72 | A round sends the acquire and, unless it stopped, the read. It continues exactly when the acquire was refused and the read answered a key not held by this session. It stops with the lock exactly when the acquire answered true, before any read. |
| Locks.Acquire | curator-universal-consul/src/main/java/org/apache/curator/universal/consul/details/CuratorLockImpl.java:22-75 | A non-positive budget returns false with no request. At most one round is played per input, and the loop is left unfinished only when the inputs run out. An unresolved lock path throws before anything is sent. |
| Locks.AcquiredOnlyWhenGranted | curator-universal-consul/src/main/java/org/apache/curator/universal/consul/details/CuratorLockImpl.java:41-45 | The lock is acquired exactly when the last round's acquire answered true, and that round sent no read. |
| Locks.RemainingShift | curator-universal-consul/src/main/java/org/apache/curator/universal/consul/details/CuratorLockImpl.java:71-72 | Budgets compose round by round. |
| Locks.AcquireRounds | curator-universal-consul/src/main/java/org/apache/curator/universal/consul/details/CuratorLockImpl.java:31-72 | Every round but the last ran to its end, and each round started with budget left. |
| Locks.AcquireRequests | curator-universal-consul/src/main/java/org/apache/curator/universal/consul/details/CuratorLockImpl.java:35-69 | Each round asks `acquire=<session>`. Its read carries the index the previous read answered with and the budget left at the round's start. |
| Locks.FirstReadUnindexed | curator-universal-consul/src/main/java/org/apache/curator/universal/consul/details/CuratorLockImpl.java:47-56 | The first read of a fresh loop has no parameters. |
| Locks.AcquireGivesUp | curator-universal-consul/src/main/java/org/apache/curator/universal/consul/details/CuratorLockImpl.java:36-72 | A loop that sent requests and ended without the lock did so because a wait returned null, the key is held by this very session, or the budget ran out. |
| Locks.AcquireTerminates | curator-universal-consul/src/main/java/org/apache/curator/universal/consul/details/CuratorLockImpl.java:31-72 | When every round takes at least a nanosecond, the loop ends within as many rounds as the budget has nanoseconds. |
| Locks.Release | curator-universal-consul/src/main/java/org/apache/curator/universal/consul/details/CuratorLockImpl.java:77-82 | Release addresses the same key with `release=<sessionId>`, and fails the same way for an unresolved path. |

## Left out

- Threads, executors, schedulers, `CompletableFuture` callbacks, `volatile` and `synchronized` are not modelled. Each component is a sequence of steps whose clock readings, server answers, interrupts and random draws are inputs.
- Logging is left out; no decision depends on it.
- The HTTP client, Jackson's parser, `URLEncoder`, Base64 and ISO-8601 `Duration.parse` are library code. They appear as parameters (`encode`, `decode`, `parseIso`), as an already parsed `Json` body, or as `None` for an unreadable body.
- The variadic `buildUri`, the two-argument `buildUri` that `Session` calls, `newApiRequest()` and `sessionId()` are not part of this model; the revision of `ConsulClientImpl` here lacks them. The lock's and the session's URIs use the path shape of the three-argument `buildUri` with no version. The cache's read records the key and its query parameters. The session id is a parameter.
- The order in which a `HashSet` yields the leftover paths is an input (`order`).
- The retry policy seen by a request is any function from count, elapsed time and environment to a decision (`Transport.Decider`). `Transport.DeciderOf` plugs in the four policies, as written or corrected.
- `ApiRequest.get`, `put` and `delete` only choose the verb, URI and body of the request that `Transport.Execute` runs.
- `Session.start` only schedules the first `checkSession`, and the executor shutdown in `close` is not modelled.
- The RuntimeException `createSession` throws when Jackson cannot serialise the body is not modelled.
- `NodePathImpl.toPattern`, `nodeName`, `hashCode` and `ModelSpecImpl.hashCode` and `toString` are left out; no decision of the core uses them.
- `System.nanoTime` is a mathematical clock; its wrap-around is not modelled.
- Retry.BackoffSleep: the `ArithmeticException` of `Duration.multipliedBy` on long overflow is not modelled, because durations are unbounded integers.
- Locks.Acquire: long overflow of the remaining nanoseconds is not modelled, for the same reason.
- ConsulCache.ProcessNodes: a body that is not an array is treated as an empty snapshot, whereas Jackson would iterate the values of an object.
- Sessions.CreateCompleted: both failure transitions of a failed create happen at the same clock reading, where the source reads the clock twice.
- Sessions.RescheduleMillis: the contract bounds the delay rather than stating that it is exactly two thirds of the ttl.
- Transport.SyncGet: for a status other than 200 the contract gives only the exception class; the message is the status line, which the model does not render.
- JavaInt.ParseInt: only the ASCII digits 0-9 are accepted. `Integer.parseInt` also accepts the other Unicode decimal digits (for example Arabic-Indic digits); that digit table is not modelled.
- TimeStrings.ToInt: through `JavaInt.ParseInt`, a prefix written in non-ASCII decimal digits is rejected here but accepted by `Integer.parseInt`.
- TimeStrings.Parse: for the same reason, a duration string written in non-ASCII decimal digits is rejected here.
- Transport.ConsulIndex: for the same reason, an `X-Consul-Index` header written in non-ASCII decimal digits gives -1 here.
- TimeStrings.ToMillis: truncation toward zero is `Duration.toMillis` from Java 9 on; Java 8 rounds a negative duration toward negative infinity. The core only renders non-negative durations.
- Json.AsInt: text that is a decimal fraction or has an exponent gives 0 here, whereas Jackson reads it as a double and truncates it.
- ConsulCache.KeyPath: the one-argument `NodePath.parse` is not part of this model; it is taken to parse with the identity name filter, as `startsWith` does.
- Paths.ToString: the contract gives the shape of the text; its content is stated only for resolved paths, by `Paths.ToStringOfResolved`.

## Findings

| source | as written | input that shows it | evidently intended | confidence | as-written member | corrected member |
|---|---|---|---|---|---|---|
| curator-universal-consul/src/main/java/org/apache/curator/universal/consul/details/ApiRequest.java:65-69 | The raw status code is compared with 2 and 5, and the computed `statusFamily` is never used. | Status 200 is failed as a permanent error, and status 503 is never retried. | Compare `statusFamily`: family 2 succeeds, family 5 may be retried. | high, not executed | Transport.ClassifyAsWritten (shown by Transport.StatusCheckRejectsOk and Transport.AsWrittenNeverSucceedsOnOk) | Transport.Classify (proved by Transport.ClassifyByFamily and Transport.CorrectedSucceedsOn2xx) |
| curator-universal-consul/src/main/java/org/apache/curator/universal/consul/retry/RetryForever.java:18-27 | `sleep` catches the interrupt itself and returns false. `allowRetry` ignores that boolean, so its own catch never runs and it answers true. The same holds in ExponentialBackoffRetry.java:29-38. | The thread is interrupted during a one-second sleep: the retry is still allowed. | Answer false when the sleep was interrupted, as the catch clause intends. | low, not executed: the catch of InterruptedException around a call that does not declare it would not compile, so the shipped code may differ | Retry.AllowRetryAsWritten (shown by Retry.InterruptedSleepStillRetriesAsWritten) | Retry.AllowRetry (proved by Retry.ForeverDecision and Retry.BackoffDecision) |
