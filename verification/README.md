# ElectriPy: the algorithms and state machines, proved

ElectriPy is a toolkit for building LLM applications. Under its adapters sit small, self-contained pieces that have to be
right over unbounded runs and inputs: caches, circuit breakers, retry loops, rate limiters, redactors, session state
machines, packers and parsers. This project models those pieces in Dafny and proves what their documentation and tests
promise. Where the code does less than is promised, it proves exactly when the promise is kept.

`dafny verify dfyconfig.toml` checks everything.

## How it is built

Whatever changes state in the repository is a class or a method with a loop here, with the same fields, branches and
error cases. Each is proved against a function on values (`View() == Store(old(View()), entry)`). The theorems are about
these functions, over all runs. Raised exceptions are results: `None`, `false`, or a constructor of an outcome type.

| module | models | main results |
|---|---|---|
| `LruCache` | the in-memory response cache and the caching port | the store is the window of the last distinct keys; LRU inclusion; hits by reuse distance |
| `HttpBreaker`, `SimpleBreaker`, `BreakerEquivalence` | the two circuit breakers | indistinguishable by sequential calls if and only if the probes suffice |
| `BreakerProbes` | both breakers when calls overlap | which steps are answered alike; any number of probes against a bound; when a single probe is kept; how a late failure tells them apart |
| `BreakerHistory` | the HTTP breaker under every interleaving | probe bound, quiet time and trip rate; when it can deadlock |
| `RetryClient` | the HTTP retry loop with its breaker | one report per admission; sleeps bounded; hits until the breaker trips |
| `JsonRepair` | bracket repair | idempotent; inserts closers only; result well-bracketed if and only if the input allows it; damage is repaired |
| `TokenBucket` | the rate limiter | refills compose; window bound; nothing refused needlessly |
| `Redaction`, `Sanitizing` | the merging redactor and the sanitizer | equal to a rendering defined by coverage alone; on disjoint spans the two agree if and only if none touch |
| `Realtime` | sessions, journal, split tool calls | the journal is legal after every interleaving; how many tools can be in flight |
| `Greedy`, `ContextAssembly`, `ConversationMemory` | the two packers | lexicographically greatest; when the documented dropping order holds |
| `TokenBudget` | truncation | longest fitting text; kept length in closed form; MIDDLE always overshoots |
| `JsonText`, `Chunker`, `ContentHash`, `Indexer` | RAG chunking, hashing and indexing | the text reassembles; written metadata reads one way; which documents hash alike; the store is a function of the indexing history; when stale chunks remain |
| `SemVer`, `Precedence` | skill versions | parser and printer are inverse; the parser accepts exactly the grammar; the order, its ties, and exactly when it is item 11's |
| `GatherLimited` | bounded fan-out | limit, progress and order under every schedule |
| `GatewayRetry` | the gateway's retry budget and structured mode | back-off, time budget, call budget |

`Prelude`, `Sorting`, `Decimal`, `Whitespace` and `Reals` are shared helpers.

## Where the code and its documentation disagree

The model follows the code. Each of these is a lemma, or the contract of the method named.

- Context assembly is documented to drop the lowest priorities first, conversation trimming to drop the oldest turns
  first. Both skip an item that does not fit and go on, so a smaller, later item can survive (`InversionIff`,
  `OldestDroppedFirstIff`). Trimming is also documented to end within the budget, which fails exactly when the preserved
  system turns alone exceed it (`FitsBudgetIff`).
- `concurrency/circuit_breaker.py` speaks of a single probe; its HALF_OPEN state admits any number of overlapping calls
  (`AnyNumberOfProbes`), and under sequential calls a single one exactly when one success closes the circuit
  (`SingleProbeIff`). The HTTP breaker bounds them, and can then deadlock in HALF_OPEN under a configuration that is not
  rejected (`CanGetStuckIff`, `StuckForEver`).
- Non-idempotent requests are documented not to be retried without opting in; an exception is retried all the same
  (`ResentIff`).
- Negative amounts are not rejected by the rate limiter and overfill the bucket (`StaysInRangeIff`); rates that are not
  positive are not rejected either, and then a call that is refused once divides by zero or waits for ever (`Acquire`).
- `start_session` is documented for INITIALIZED and `resume` for INTERRUPTED; both check the transition table only, so
  both also leave WAITING_ON_TOOL, and it is exactly then that a second tool can be in flight (`StartAndResumeAlike`,
  `SecondToolIff`, `InFlightBound`).
- MIDDLE truncation does not budget its dots: it always ends over the budget (`MiddleStaysOver`), at the default ratio by
  one token (`MiddleEndsOneOver`).
- Re-indexing a document that has become shorter leaves the surplus chunks of the longer text in the store
  (`ExactIffNeverShrank`). Text and metadata are hashed with a plain separator, so a document without metadata and a
  shorter one with metadata can be taken for the same content, and no others (`HashInputsEqualIff`, `CanCollideIff`).
- Prerelease labels are compared as raw text; `ComparesAsItem11Iff` says exactly when that is the precedence of
  Semantic Versioning.
- `gather_limited` is documented to return the results in the original order; results that are `None` are dropped
  (`OneValuePerAwaitableIff`).
- The gateway sleeps once more after its last permitted attempt has failed, and only then gives up (`CallEnds`).

## Model

| member | source | states |
|---|---|---|
| `LruCache.InMemoryCacheBackend.constructor` | src/electripy/ai/llm_cache/adapters.py:21-26 | a new backend of any size is empty, with both counters at zero |
| `LruCache.InMemoryCacheBackend.Get` | src/electripy/ai/llm_cache/adapters.py:28-45 | a miss only counts; a hit counts, promotes the key to most recent and returns the entry with its own hit count raised: the whole new state as a function of the old |
| `LruCache.InMemoryCacheBackend.Put` | src/electripy/ai/llm_cache/adapters.py:47-56 | replacing promotes the key and evicts nothing; a new key at capacity evicts exactly the least recent one; the size bound is kept; at size 0 every put raises and changes nothing |
| `LruCache.InMemoryCacheBackend.Clear` | src/electripy/ai/llm_cache/adapters.py:67-72 | everything is forgotten, counters included |
| `LruCache.CachedLlmPort.Complete` | src/electripy/ai/llm_cache/services.py:64-86 | one lookup, then on a miss one inner call and one put; inner calls made equal misses counted; at size 0 the answer is lost to the put that raises |
| `LruCache.StoreIsMostRecentlyUsed` | src/electripy/ai/llm_cache/adapters.py:28-72 | after any run of get, put and clear the store holds, in order, exactly the last max_size distinct keys hit or put since the last clear |
| `LruCache.CountersAddUp` | src/electripy/ai/llm_cache/adapters.py:28-72 | hits and misses are all lookups since the last clear, and each entry counts exactly its own hits since it was put |
| `LruCache.StoredIsLastPut` | src/electripy/ai/llm_cache/adapters.py:28-72 | after any run what is stored under a key is the entry last put there since the last clear, with the hits counted since |
| `LruCache.ServedKeys` | src/electripy/ai/llm_cache/services.py:64-86 | driven through the port by any requests, the store is the last max_size distinct keys requested, and hits plus misses are the requests |
| `LruCache.EqualKeysIff` | src/electripy/ai/llm_cache/services.py:27-36 | two requests have the same key if and only if model, temperature and messages are equal |
| `LruCache.AnsweredBy` | src/electripy/ai/llm_cache/services.py:76-86 | whatever the inner port does, an answer is either its answer to this request, counted as a miss, or, counted as a hit, the text it gave to an earlier request with the same model, temperature and messages, with the model it named then, or the one asked for |
| `LruCache.CachedTextIsInnerText` | src/electripy/ai/llm_cache/services.py:64-86 | for an inner port whose text depends on model, temperature and messages only, every returned text is the one the inner port would return |
| `LruCache.SmallerIsSuffix` | src/electripy/ai/llm_cache/adapters.py:28-56 | LRU inclusion: on the same requests a smaller cache's keys are a suffix of a larger one's |
| `LruCache.SmallerHasFewerHits` | src/electripy/ai/llm_cache/adapters.py:28-56 | on the same requests a smaller cache never has more hits |
| `LruCache.HitIffReuseDistanceBelowSize` | src/electripy/ai/llm_cache/adapters.py:28-56 | a request is a hit if and only if its key came before and fewer than max_size distinct other keys came since |
| `LruCache.ByLastUseSnoc` | src/electripy/ai/llm_cache/adapters.py:35-37 | touching a key moves it, and nothing else, to the end of the order of last use |
| `LruCache.WindowAfterTouch` | src/electripy/ai/llm_cache/adapters.py:47-56 | eviction at capacity is the same as looking at the full order of last use through a window of max_size keys |
| `HttpBreaker.CircuitBreaker.constructor` | src/electripy/concurrency/http_resilience/circuit_breaker.py:64-70 | starts CLOSED with all counters at zero |
| `HttpBreaker.CircuitBreaker.TransitionTo` | src/electripy/concurrency/http_resilience/circuit_breaker.py:155-167 | a transition stamps the clock and zeroes all three counters |
| `HttpBreaker.CircuitBreaker.UpdateStateIfNeeded` | src/electripy/concurrency/http_resilience/circuit_breaker.py:141-153 | OPEN turns HALF_OPEN once the recovery timeout has passed, otherwise nothing changes |
| `HttpBreaker.CircuitBreaker.ReadState` | src/electripy/concurrency/http_resilience/circuit_breaker.py:72-84 | reading the state performs the timeout check first |
| `HttpBreaker.CircuitBreaker.BeforeCall` | src/electripy/concurrency/http_resilience/circuit_breaker.py:86-110 | who is admitted in each state, and that a HALF_OPEN admission uses up one probe |
| `HttpBreaker.CircuitBreaker.AfterCall` | src/electripy/concurrency/http_resilience/circuit_breaker.py:112-139 | what an outcome does in each state, after the timeout check |
| `SimpleBreaker.CircuitBreaker.constructor` | src/electripy/concurrency/circuit_breaker.py:92-105 | starts CLOSED with both counters at zero |
| `SimpleBreaker.CircuitBreaker.MaybeTransitionToHalfOpen` | src/electripy/concurrency/circuit_breaker.py:191-201 | OPEN turns HALF_OPEN once the recovery timeout has passed, with no successes counted |
| `SimpleBreaker.CircuitBreaker.BeforeCall` | src/electripy/concurrency/circuit_breaker.py:159-166 | rejects exactly in OPEN after the timeout check; HALF_OPEN does not limit calls |
| `SimpleBreaker.CircuitBreaker.OnSuccess` | src/electripy/concurrency/circuit_breaker.py:168-177 | success_threshold successes in HALF_OPEN close the circuit; elsewhere a success clears the failures |
| `SimpleBreaker.CircuitBreaker.OnFailure` | src/electripy/concurrency/circuit_breaker.py:179-189 | a failure in HALF_OPEN, or failure_threshold failures, open the circuit at that moment |
| `SimpleBreaker.CircuitBreaker.Reset` | src/electripy/concurrency/circuit_breaker.py:138-143 | forced CLOSED with both counters at zero; the time of the last opening stays |
| `BreakerEquivalence.StepPreservesRelation` | src/electripy/concurrency/http_resilience/circuit_breaker.py:86-167 | every sequential call or state read keeps the two breakers related and shows the same answer and state from both |
| `BreakerEquivalence.RelatedRunsAgree` | src/electripy/concurrency/circuit_breaker.py:159-201 | so whole runs of related breakers show the same observations |
| `BreakerEquivalence.IndistinguishableIff` | src/electripy/concurrency/circuit_breaker.py:159-201 | on one clock, from fresh, no run of sequential calls tells the two breakers apart if and only if half_open_success_threshold is at most half_open_max_calls |
| `BreakerEquivalence.ExhaustingRunEnds` | src/electripy/concurrency/http_resilience/circuit_breaker.py:86-110 | where more successes are needed than probes admitted, the run that trips, waits and uses up the probes leaves both HALF_OPEN, and any next call is refused by the HTTP breaker and admitted by the other |
| `BreakerEquivalence.OpensOnStreak` | src/electripy/concurrency/circuit_breaker.py:168-189 | a fresh circuit, of either kind, opens with the report that makes failure_threshold failures in a row and not before; until then it counts the failures since the last success |
| `BreakerProbes.HalfKeepsMatchedIff` | src/electripy/concurrency/circuit_breaker.py:159-189 | one step of overlapping calls is answered alike by matched breakers and keeps them matched if and only if it is harmless: a call asked in HALF_OPEN while a probe is left, an outcome reported outside OPEN, or while OPEN a success within the timeout, a failure after it, or a failure within it that the simple breaker, having forgotten its failures, does not count up to its threshold |
| `BreakerProbes.OverlappingRunsAgree` | src/electripy/concurrency/circuit_breaker.py:159-201 | so matched breakers answer every interleaving of overlapping calls alike as long as every step is harmless |
| `BreakerProbes.OrderlyRunsAgree` | src/electripy/concurrency/http_resilience/circuit_breaker.py:86-139 | in particular, in every valid configuration and from fresh, when no outcome is reported while OPEN and no HALF_OPEN episode is asked for more than half_open_max_calls calls |
| `BreakerProbes.LateFailureTellsThemApart` | src/electripy/concurrency/circuit_breaker.py:179-189 | in every valid configuration, two runs of overlapping calls that both breakers admitted while CLOSED differ after one of them fails late: a failure reported while OPEN, within the timeout, restarts the waiting of this breaker and is ignored by the HTTP one, and the next call is answered differently exactly between the ends of the two waiting periods |
| `BreakerProbes.AnyNumberOfProbes` | src/electripy/concurrency/circuit_breaker.py:159-166 | in every configuration and for every n, a tripped breaker admits n overlapping calls after the timeout: HALF_OPEN does not limit them |
| `BreakerProbes.HttpAdmitsProbesLeft` | src/electripy/concurrency/http_resilience/circuit_breaker.py:99-110 | the HTTP breaker admits exactly the first of them, as many as it has probes left |
| `BreakerProbes.SingleProbeIff` | src/electripy/concurrency/circuit_breaker.py:159-201 | under sequential calls every HALF_OPEN episode has the documented single call, in every run, if and only if success_threshold is at most 1 |
| `BreakerHistory.StepKeepsInvariant` | src/electripy/concurrency/http_resilience/circuit_breaker.py:86-167 | the invariant of every before, after and read event: log in time order, state readable from the log, probes bounded, trips spaced, counters in range |
| `BreakerHistory.ReachableInvariant` | src/electripy/concurrency/http_resilience/circuit_breaker.py:86-167 | it holds after every interleaving of events on a clock that does not run backwards |
| `BreakerHistory.Safety` | src/electripy/concurrency/http_resilience/circuit_breaker.py:86-167 | over every interleaving each HALF_OPEN episode admits at most half_open_max_calls, nothing is admitted and nothing trips within recovery_timeout_s of a trip, and CLOSED means failures below the threshold and probe counters zero |
| `BreakerHistory.TripRate` | src/electripy/concurrency/http_resilience/circuit_breaker.py:141-167 | in any stretch of a run lasting T the breaker trips at most 1 + T / recovery_timeout_s times |
| `BreakerHistory.ReachableProbesAccounted` | src/electripy/concurrency/http_resilience/circuit_breaker.py:99-139 | when only admitted calls report, every probe used in the current HALF_OPEN episode has succeeded or is still out |
| `BreakerHistory.StuckForEver` | src/electripy/concurrency/http_resilience/circuit_breaker.py:99-110 | once HALF_OPEN with no probe left and no call out, whatever sequence of events follows, the breaker is the same at the end, every attempt has been rejected and nothing else was observed |
| `BreakerHistory.CanGetStuckIff` | src/electripy/concurrency/http_resilience/domain.py:222-264 | a configuration, which is accepted without complaint, can reach that deadlock if and only if half_open_max_calls is below half_open_success_threshold |
| `RetryClient.ResilientSyncHttpClient.Request` | src/electripy/concurrency/http_resilience/services.py:186-265 | the attempt loop with its breaker calls, sleeps, port hits and result equals the attempt-by-attempt specification, and leaves the breaker as that says |
| `RetryClient.AdmissionsAreReported` | src/electripy/concurrency/http_resilience/services.py:188-262 | every admitted before_call gets exactly one after_call, before the next one; a refusal ends the request |
| `RetryClient.OnlyRetryableFailuresAreRetried` | src/electripy/concurrency/http_resilience/services.py:203-262 | every attempt but the last failed in a way that may be retried |
| `RetryClient.SentAgainIff` | src/electripy/concurrency/http_resilience/services.py:53-262 | method by method: a request already sent is sent once more if and only if attempts are left, the breaker admits it, and the last time the port raised a retryable exception, or answered a listed status outside 200 to 299 to GET, HEAD or OPTIONS or to another method that was opted in by the caller or else by the policy |
| `RetryClient.RequestEnds` | src/electripy/concurrency/http_resilience/services.py:186-265 | a request ends refused by the breaker, or with the status of its last answer if that is 200 to 299, or exhausted with the last status or none after an exception; and how it leaves the breaker |
| `RetryClient.CallsMade` | src/electripy/concurrency/http_resilience/services.py:188-262 | the breaker is told of a success exactly for the last attempt of a request that returns |
| `RetryClient.NoResendAfterResponse` | src/electripy/concurrency/http_resilience/services.py:53-66 | POST, PUT, PATCH, DELETE and unrecognised methods without opt-in are never sent again after a response, only after an exception |
| `RetryClient.ResentIff` | src/electripy/concurrency/http_resilience/services.py:148-262 | such a request, documented not to be retried, is sent a second time if and only if attempts are left, the first one raised a retryable exception and the breaker admits the second |
| `RetryClient.BackoffDoubles` | src/electripy/concurrency/http_resilience/services.py:68-109 | without a hint the delay starts at base_delay_s and doubles from attempt to attempt, up to max_delay_s |
| `RetryClient.DelayWithinCap` | src/electripy/concurrency/http_resilience/services.py:68-109 | with a non-negative Retry-After a delay is between 0 and max_delay_s * (1 + jitter_ratio) |
| `RetryClient.SleepsAreCalculatedDelays` | src/electripy/concurrency/http_resilience/services.py:203-262 | the i-th sleep is the delay calculated for the i-th attempt and its own Retry-After |
| `RetryClient.SleepIs` | src/electripy/concurrency/http_resilience/services.py:85-109 | the i-th sleep: what was drawn if there is jitter, else the smaller of max_delay_s and the hint when there is one and it is honoured, else the back-off |
| `RetryClient.JitterIsDistance` | src/electripy/concurrency/http_resilience/services.py:102-107 | what may be drawn lies at most jitter_ratio times the delay away from the delay |
| `RetryClient.SleepsBounded` | src/electripy/concurrency/http_resilience/services.py:68-109 | so every sleep of every request is within that bound |
| `RetryClient.HitsUntilTripped` | src/electripy/concurrency/http_resilience/services.py:186-265 | started CLOSED with c failures and failing retryably throughout, the port is hit min(max_attempts, failure_threshold - c) times and the request ends in RetryExhausted or CircuitOpen accordingly, exactly when the next before_call after a trip comes before the recovery timeout; later it is hit more often |
| `JsonRepair.PopThrough` | src/electripy/ai/json_repair.py:189-195 | the unwinding loop inserts the closers above the match and pops the match |
| `JsonRepair.FixMismatchedBrackets` | src/electripy/ai/json_repair.py:152-201 | the scanner with its stack, string and escape flags computes the specification function |
| `JsonRepair.CloseTruncated` | src/electripy/ai/json_repair.py:204-233 | the loop over the text and the comma strip compute the completed text |
| `JsonRepair.TrailingCommaGoes` | src/electripy/ai/json_repair.py:229-233 | a text that ends in a comma and white space at most becomes what is before the comma followed by the closers owed |
| `JsonRepair.OthersAreClosedWhole` | src/electripy/ai/json_repair.py:229-233 | any other text stays whole, trailing white space included, followed by the closers owed |
| `JsonRepair.EscapedIsPassedOver` | src/electripy/ai/json_repair.py:158-170 | a backslash escapes the next character outside strings too: neither scanner looks at it |
| `JsonRepair.Idempotent` | src/electripy/ai/json_repair.py:152-201 | fixing twice is fixing once, on every text |
| `JsonRepair.OnlyInsertsClosers` | src/electripy/ai/json_repair.py:152-201 | the output is the input with closers inserted: nothing is lost, moved or replaced |
| `JsonRepair.UnchangedIff` | src/electripy/ai/json_repair.py:152-201 | a text is left alone if and only if no closer comes while brackets opened after its own are still open |
| `JsonRepair.BalancedIffMatches` | src/electripy/ai/json_repair.py:152-233 | being the brackets of a forest of nested pairs is the same as passing the stack discipline |
| `JsonRepair.RepairedIff` | src/electripy/ai/json_repair.py:152-233 | for text without a backslash outside strings, fixing and then closing gives well-bracketed text if and only if it has no stray closer and does not end inside a string |
| `JsonRepair.WellBracketedUnchanged` | src/electripy/ai/json_repair.py:152-233 | well-bracketed text is not changed by fixing and loses at most a trailing comma when closed |
| `JsonRepair.DamageIsRepaired` | src/electripy/ai/json_repair.py:152-233 | whatever closers a well-bracketed document lost, and wherever outside a string it was cut off, fixing and closing what is left gives well-bracketed text |
| `JsonRepair.FixReadsBack` | src/electripy/ai/json_repair.py:152-233 | both scanners read the fixed text with the same stack that the fixing ended with |
| `JsonRepair.FixStructure` | src/electripy/ai/json_repair.py:172-199 | outside strings the brackets of the fixed text match as far as they go, unless the input had a stray closer |
| `TokenBucket.AsyncTokenBucketRateLimiter.constructor` | src/electripy/concurrency/rate_limiter.py:20-31 | starts full, with the capacity defaulting to the rate, for any rate and capacity |
| `TokenBucket.AsyncTokenBucketRateLimiter.Refill` | src/electripy/concurrency/rate_limiter.py:47-52 | adds what has accrued since the last update, capped |
| `TokenBucket.AsyncTokenBucketRateLimiter.TryOnce` | src/electripy/concurrency/rate_limiter.py:46-56 | one pass grants exactly when the refilled level covers the amount, and always when enough has accrued by then |
| `TokenBucket.AsyncTokenBucketRateLimiter.Wait` | src/electripy/concurrency/rate_limiter.py:57-61 | at a positive rate, sleeping for the computed time lets the needed tokens accrue; at a negative one the sleep is over at once |
| `TokenBucket.AsyncTokenBucketRateLimiter.Acquire` | src/electripy/concurrency/rate_limiter.py:33-61 | for any amount and any rate: fails exactly when more than the capacity is asked for, changing nothing; at a positive rate it grants after at most one refused pass and one sleep; at rate 0 a first refusal ends in a division by zero; at a negative rate a first refusal is final, and the caller who cancels after n sleeps has been refused n + 1 times |
| `TokenBucket.AsyncTokenBucketRateLimiter.AvailableTokens` | src/electripy/concurrency/rate_limiter.py:72-81 | reports the level an acquire would see now, and changes nothing |
| `TokenBucket.RefillsCompose` | src/electripy/concurrency/rate_limiter.py:47-52 | lazy refills at any instants in between compose to one capped refill |
| `TokenBucket.TokensInRange` | src/electripy/concurrency/rate_limiter.py:45-61 | after every run that asks for nothing negative the level is between 0 and the capacity |
| `TokenBucket.StaysInRangeIff` | src/electripy/concurrency/rate_limiter.py:33-61 | every run keeps the level between 0 and the capacity if and only if no negative amount may be asked for |
| `TokenBucket.LevelIsTightestWindow` | src/electripy/concurrency/rate_limiter.py:45-61 | the lazily refilled level is exactly what the tightest of all windows ending now still allows |
| `TokenBucket.RefusedIffAWindowIsFull` | src/electripy/concurrency/rate_limiter.py:45-61 | a pass is refused if and only if granting it would break the bound on some window: nothing is refused needlessly |
| `TokenBucket.WindowBound` | src/electripy/concurrency/rate_limiter.py:33-61 | over every window [t0, t1] of every run the tokens granted are at most capacity + rate * (t1 - t0) |
| `TokenBucket.NegativeAmountOverfills` | src/electripy/concurrency/rate_limiter.py:33-61 | a negative amount, which is not rejected, leaves more than the capacity in a fresh bucket |
| `TokenBucket.FirstGrant` | src/electripy/concurrency/rate_limiter.py:20-31 | a new limiter grants at once up to the capacity it was given, or up to the rate if none or zero was given |
| `Redaction.MergeSpans` | src/electripy/ai/lsas/engine.py:173-181 | the in-place loop over the last merged span computes the merge |
| `Redaction.SpliceReversed` | src/electripy/ai/lsas/engine.py:183-188 | the slice assignments from the last span to the first, with the clamping of list slices |
| `Redaction.ApplyRedactions` | src/electripy/ai/lsas/engine.py:160-188 | sort, merge and assign from the last span on, for any offsets; for spans in range the result is the left-to-right rendering: a character survives, in order, if and only if no span covers it, and each connected group of spans leaves one marker |
| `Redaction.MergedIsSeparated` | src/electripy/ai/lsas/engine.py:173-181 | merged spans are sorted and pairwise separated |
| `Redaction.MergedIsUnion` | src/electripy/ai/lsas/engine.py:173-181 | merged spans cover and touch exactly what the input spans do |
| `Redaction.RightToLeftIsLeftToRight` | src/electripy/ai/lsas/engine.py:183-188 | splicing spans in sequence right to left gives their left-to-right reading |
| `Redaction.SpliceIsRendering` | src/electripy/ai/lsas/engine.py:183-188 | splicing separated spans gives the rendering defined by coverage alone |
| `Redaction.MergedRendering` | src/electripy/ai/lsas/engine.py:160-188 | sort, merge and splice together render the original, unmerged spans |
| `Redaction.FindingsCover` | src/electripy/ai/lsas/engine.py:160-172 | what is covered is what the findings with both offsets cover, and nothing else |
| `Redaction.OneFinding` | src/electripy/ai/lsas/engine.py:160-188 | the characters of a single finding give way to the marker [REDACTED], and nothing else changes |
| `Redaction.AssignSliceIs` | src/electripy/ai/lsas/engine.py:180-188 | where a replacement goes and what it takes away, for offsets inside, across and beyond the end of the text |
| `Redaction.RedactionIgnoresOrder` | src/electripy/ai/lsas/engine.py:160-188 | neither the order nor the repetition of findings changes the redacted text |
| `Sanitizing.Sanitize` | src/electripy/ai/policy_gateway/adapters.py:54-78 | the unmerged variant: spans collected from the findings, spliced one after the other from the last offset on |
| `Sanitizing.SanitizeDisjoint` | src/electripy/ai/policy_gateway/adapters.py:63-78 | on spans that do not overlap, in any order, touching or not, the sanitized text is the left-to-right reading with each span replaced by its own text |
| `Sanitizing.RuleSpansAre` | src/electripy/ai/policy_gateway/adapters.py:54-62 | every finding with both offsets gives a span with the replacement of its rule, if that is known and has one, or with the default, and nothing else gives a span |
| `Sanitizing.OwnReplacementAppears` | src/electripy/ai/policy_gateway/adapters.py:54-78 | when no findings overlap, the replacement of its own rule, or the default, is in the sanitized text for every finding |
| `Sanitizing.SpliceClampedIs` | src/electripy/ai/policy_gateway/adapters.py:74-78 | where a replacement goes and what it takes away, for offsets inside, across and beyond the end of the text |
| `Sanitizing.RedactorsAgreeIff` | src/electripy/ai/policy_gateway/adapters.py:54-78 | for in-range spans that do not overlap, with the default marker: the two redactors give the same text if and only if no two spans touch, and otherwise the sanitized text is longer by one marker for each span that merging saves |
| `Realtime.RealtimeSession.constructor` | src/electripy/ai/realtime/domain.py:293-311 | a session starts INITIALIZED with an empty log |
| `Realtime.RealtimeSession.NextSequence` | src/electripy/ai/realtime/domain.py:313-317 | hands out the counter and advances it |
| `Realtime.RealtimeSessionService.Transition` | src/electripy/ai/realtime/services.py:405-433 | moves exactly along the transition table, and then records one LIFECYCLE event with both states |
| `Realtime.RealtimeSessionService.IngestEvent` | src/electripy/ai/realtime/services.py:203-249 | records one event with the next sequence number, refusing input and output unless ACTIVE |
| `Realtime.RealtimeSessionService.StartSession` | src/electripy/ai/realtime/services.py:136-151 | moves to ACTIVE from wherever the table allows |
| `Realtime.RealtimeSessionService.ResumeSession` | src/electripy/ai/realtime/services.py:289-300 | moves to ACTIVE from wherever the table allows |
| `Realtime.RealtimeSessionService.CloseSession` | src/electripy/ai/realtime/services.py:153-164 | moves to CLOSED |
| `Realtime.RealtimeSessionService.CompleteSession` | src/electripy/ai/realtime/services.py:166-177 | moves to COMPLETED |
| `Realtime.RealtimeSessionService.FailSession` | src/electripy/ai/realtime/services.py:179-191 | moves to FAILED |
| `Realtime.RealtimeSessionService.InterruptSession` | src/electripy/ai/realtime/services.py:265-287 | moves to INTERRUPTED and then records the interrupt, or does neither |
| `Realtime.RealtimeSessionService.BeginToolCall` | src/electripy/ai/realtime/services.py:325-337 | up to the await: moves to WAITING_ON_TOOL and records the call |
| `Realtime.RealtimeSessionService.FinishToolCall` | src/electripy/ai/realtime/services.py:336-348 | after the await: records the result and moves to ACTIVE, or tries to move to FAILED when the executor raised, or leaves the session as it is when the await was cancelled |
| `Realtime.StepKeepsInvariant` | src/electripy/ai/realtime/services.py:136-433 | every operation, and each half of a tool call, keeps the journal legal, the counter equal to its length, the state equal to its fold, and results plus waiting calls within the calls |
| `Realtime.ReachableInvariant` | src/electripy/ai/realtime/services.py:136-433 | so it holds after every interleaving |
| `Realtime.JournalIsLegal` | src/electripy/ai/realtime/services.py:203-249 | event i has sequence i, LIFECYCLE events chain through the table from INITIALIZED to the current state, and every input or output event stands where its prefix folds to ACTIVE |
| `Realtime.NothingAfterTheEnd` | src/electripy/ai/realtime/domain.py:267-289 | no input or output follows COMPLETED, FAILED or CLOSED |
| `Realtime.ToolCallsAccountForResults` | src/electripy/ai/realtime/services.py:304-348 | every prefix of the journal has at least as many TOOL_CALLs as TOOL_RESULTs, and waiting calls are among those without a result |
| `Realtime.StartAndResumeAlike` | src/electripy/ai/realtime/services.py:136-151 | start_session and resume do the same thing and succeed from exactly INITIALIZED, INTERRUPTED and WAITING_ON_TOOL, although each is documented for one state |
| `Realtime.InFlightBound` | src/electripy/ai/realtime/services.py:304-348 | in every run the tool calls in flight are at most one more than the times start_session or resume was called in WAITING_ON_TOOL with a tool in flight; without such a call there is one at most, and while it waits the session is WAITING_ON_TOOL, FAILED or CLOSED |
| `Realtime.ReactivationsOf` | src/electripy/ai/realtime/services.py:136-151 | every run has its number of such calls, so the bound is about every run |
| `Realtime.SecondToolIff` | src/electripy/ai/realtime/services.py:304-348 | after a run without such a call, the next operation lets the tool call after it be the second in flight if and only if it is such a call |
| `Realtime.TwoToolsInFlight` | src/electripy/ai/realtime/services.py:304-348 | such runs exist: two tool calls can be in flight at once |
| `Realtime.LateResultIsStillRecorded` | src/electripy/ai/realtime/services.py:338-348 | a tool that returns late still has its result recorded in any state; the call then raises if and only if the session may not become ACTIVE, leaving the state alone |
| `Realtime.WhatSucceeds` | src/electripy/ai/realtime/domain.py:267-289 | from which states completing, interrupting, calling a tool, failing, closing and ingesting each kind of event succeed |
| `Realtime.WhatIsRecorded` | src/electripy/ai/realtime/services.py:136-433 | which state each successful operation leads to and which events it appends |
| `Realtime.WhatRaises` | src/electripy/ai/realtime/services.py:136-433 | an operation that raises changes nothing, unless it ends a tool call: then it fails the session if that may still fail, or was cancelled and leaves it alone |
| `Greedy.GreatestWithinBudget` | src/electripy/ai/context_assembly/services.py:53-62 | taking whatever still fits gives the lexicographically greatest selection within the budget |
| `Greedy.ChooseConcat` | src/electripy/ai/context_assembly/services.py:53-62 | later items have no influence on earlier decisions |
| `Greedy.AllFit` | src/electripy/ai/context_assembly/services.py:53-62 | items that fit together are all kept |
| `Greedy.ChooseAgain` | src/electripy/ai/conversation_memory/services.py:135-142 | choosing again among what was kept keeps all of it |
| `Greedy.KeepsOnlyLeadingIff` | src/electripy/ai/conversation_memory/services.py:135-142 | nothing is kept after the first item that does not fit, if and only if no later item fits into what was left there |
| `Greedy.ChooseAt` | src/electripy/ai/context_assembly/services.py:53-62 | an item is kept if and only if it fits beside what was kept before it |
| `Greedy.SelectPartition` | src/electripy/ai/context_assembly/services.py:53-62 | kept and dropped items together are the items, as multisets |
| `ContextAssembly.CountBlocks` | src/electripy/ai/context_assembly/services.py:45-49 | every block gets its token count |
| `ContextAssembly.Pack` | src/electripy/ai/context_assembly/services.py:53-62 | the loop over the ranking computes the greedy choice, its total and the dropped labels |
| `ContextAssembly.AssembleContext` | src/electripy/ai/context_assembly/services.py:12-71 | the blocks returned are the survivors in original order, with the sum of their own counts as total, the labels dropped and the budget; every block has its count |
| `ContextAssembly.RankingOrdersEntries` | src/electripy/ai/context_assembly/services.py:51 | sorting by (-priority, position) is the stable sort by priority |
| `ContextAssembly.KeptAndDroppedPartition` | src/electripy/ai/context_assembly/services.py:53-71 | every block is kept or dropped, and none is both |
| `ContextAssembly.SurvivorsAreIncluded` | src/electripy/ai/context_assembly/services.py:53-71 | the block of rank k is returned if and only if it was decided to include it, and its label is dropped if and only if not |
| `ContextAssembly.SurvivingTokens` | src/electripy/ai/context_assembly/services.py:53-71 | the total is the sum of the counts of exactly the blocks returned |
| `ContextAssembly.RankingOrder` | src/electripy/ai/context_assembly/services.py:51 | ranks go by priority, and by position within a priority |
| `ContextAssembly.DroppedInRankOrder` | src/electripy/ai/context_assembly/services.py:53-62 | labels are dropped in the order of their ranks |
| `ContextAssembly.SurvivorsInOriginalOrder` | src/electripy/ai/context_assembly/services.py:64-71 | survivors appear strictly in their original order |
| `ContextAssembly.LexicographicallyGreatest` | src/electripy/ai/context_assembly/services.py:51-62 | the inclusion vector in rank order is within the budget and lexicographically greatest among all that are |
| `ContextAssembly.LowerPrioritiesDoNotMatter` | src/electripy/ai/context_assembly/services.py:51-62 | blocks of priority at least p are ranked and decided as if they were alone; the others share what they leave |
| `ContextAssembly.HighPrioritiesThatFitAreKept` | src/electripy/ai/context_assembly/services.py:51-62 | if all blocks of priority at least p fit together, none of them is dropped |
| `ContextAssembly.InversionIff` | src/electripy/ai/context_assembly/services.py:19-62 | the claim that lowest priorities are dropped first fails exactly when some block of lower priority than the first one that does not fit itself fits into what the higher ones leave |
| `ConversationMemory.FillCounts` | src/electripy/ai/conversation_memory/services.py:119-121 | missing token counts are filled in, others stay, also when a turn object occurs twice |
| `ConversationMemory.PartitionTurns` | src/electripy/ai/conversation_memory/services.py:123-130 | system turns apart from the others when they are to be preserved, each in order |
| `ConversationMemory.KeepNewest` | src/electripy/ai/conversation_memory/services.py:132-142 | the loop from the newest turn back computes the greedy choice, returned oldest first |
| `ConversationMemory.MergePreservingOrder` | src/electripy/ai/conversation_memory/services.py:149-157 | the members of either list, in the order of the original |
| `ConversationMemory.TrimCounted` | src/electripy/ai/conversation_memory/services.py:123-146 | the turns whose objects are chosen, in order and wherever they occur, and their exact total |
| `ConversationMemory.TrimToBudget` | src/electripy/ai/conversation_memory/services.py:98-146 | the same for turns whose counts may be missing, which are filled in; when no object occurs twice, these are exactly the turns kept, at the planned cost |
| `ConversationMemory.SystemTurnsStay` | src/electripy/ai/conversation_memory/services.py:123-146 | with preserve_system no system turn is dropped, and without it no turn is preserved |
| `ConversationMemory.FitsBudgetIff` | src/electripy/ai/conversation_memory/services.py:107-146 | every preserved turn is kept, and the result is within the budget if and only if the preserved turns alone are |
| `ConversationMemory.NewestTurnsPreferred` | src/electripy/ai/conversation_memory/services.py:132-146 | among all selections that keep the preserved turns and fit, the other turns are the lexicographically greatest from newest to oldest |
| `ConversationMemory.OldestDroppedFirstIff` | src/electripy/ai/conversation_memory/services.py:107-142 | the oldest turns are dropped first exactly when no turn older than the first one that does not fit would fit into what was left there |
| `ConversationMemory.TrimmingIsIdempotent` | src/electripy/ai/conversation_memory/services.py:98-146 | trimming what is already trimmed decides to keep everything |
| `ConversationMemory.TrimmedTurnsStay` | src/electripy/ai/conversation_memory/services.py:98-146 | so turns that were trimmed once come back unchanged from a second trim: no count is filled in and every turn is kept |
| `TokenBudget.BinarySearchPrefix` | src/electripy/ai/token_budget/services.py:129-141 | for a tokenizer monotone on prefixes, the longest prefix within the budget |
| `TokenBudget.BinarySearchSuffix` | src/electripy/ai/token_budget/services.py:144-156 | for a tokenizer monotone on suffixes, the longest suffix within the budget |
| `TokenBudget.TruncateByStrategy` | src/electripy/ai/token_budget/services.py:111-126 | which end each strategy keeps, and that MIDDLE joins two half-budget ends with dots |
| `TokenBudget.TruncateToBudget` | src/electripy/ai/token_budget/services.py:61-108 | fitting text is returned untouched, strict mode reports the excess, otherwise the truncation and its own count |
| `TokenBudget.EstimatorIsMonotone` | src/electripy/ai/token_budget/services.py:25-27 | the character estimator is monotone at every ratio |
| `TokenBudget.FitsIff` | src/electripy/ai/token_budget/services.py:25-27 | for a budget of at least 1, a length fits if and only if it is at most ceil(ratio * (budget + 1/2)) - 1 |
| `TokenBudget.KeptLength` | src/electripy/ai/token_budget/services.py:129-156 | so truncation at either end keeps min(length, ceil(ratio * (budget + 1/2)) - 1) characters |
| `TokenBudget.KeptAtRatioFour` | src/electripy/ai/token_budget/services.py:129-156 | at the default ratio, and budget 0 included: min(length, 4 * budget + 1), or nothing |
| `TokenBudget.MiddleStaysOver` | src/electripy/ai/token_budget/services.py:111-126 | at every ratio and for every budget, whatever MIDDLE truncates is still over the budget |
| `TokenBudget.MiddleEndsOneOver` | src/electripy/ai/token_budget/services.py:111-126 | at the default ratio whatever MIDDLE truncates ends exactly one token over the budget |
| `Chunker.DeterministicChunker.ChunkDocument` | src/electripy/ai/rag/services.py:73-114 | the loop over start and index computes the chunks |
| `Chunker.ChunksAreNumberedWindows` | src/electripy/ai/rag/services.py:92-109 | chunk i carries number i, its identifier, the document's metadata and exactly the i-th window of the text |
| `Chunker.ChunkTextIs` | src/electripy/ai/rag/services.py:83-114 | chunk i holds the characters from i * (size - overlap) on, size of them or as many as there are |
| `Chunker.Reassembles` | src/electripy/ai/rag/services.py:92-114 | the first chunk followed by every later one without its first overlap characters is exactly the text |
| `Chunker.WindowCount` | src/electripy/ai/rag/services.py:83-114 | 1 + ceil(max(0, length - size) / (size - overlap)) chunks for a non-empty text, none for the empty one |
| `Chunker.ShortStretchesAreWhole` | src/electripy/ai/rag/services.py:92-114 | every stretch of at most overlap + 1 characters lies inside a single chunk |
| `Decimal.PrintIsCanonical` | src/electripy/ai/skills/domain.py:125-131 | a printed number has no leading zero and reads back as itself |
| `Decimal.PrintOfValue` | src/electripy/ai/skills/domain.py:115-121 | digits without a needless zero are what their value prints as |
| `JsonText.EscapesAre` | src/electripy/ai/rag/domain.py:74 | which characters json.dumps escapes and how: the seven short escapes, four hex digits for other control and non-ASCII characters, nothing for the rest |
| `JsonText.UnitsAreUtf16` | src/electripy/ai/rag/domain.py:74 | characters beyond the basic plane are written as their UTF-16 surrogate pair |
| `JsonText.DumpedUnique` | src/electripy/ai/rag/domain.py:74 | a value can be read off the front of what json.dumps writes in one way only: no two values with any continuations make the same text |
| `JsonText.MappingUnique` | src/electripy/ai/rag/domain.py:74 | different metadata is written differently |
| `JsonText.NoMappingAfterBar` | src/electripy/ai/rag/domain.py:74-76 | no written mapping ends in a separator and the text of another mapping: the quotes of the two readings could not match |
| `ContentHash.LineEndStyleDoesNotMatter` | src/electripy/ai/rag/domain.py:33-53 | Windows and Unix line ends give the same hash input |
| `ContentHash.BlankRunsDoNotMatter` | src/electripy/ai/rag/domain.py:33-53 | the length and make-up of a run of spaces and tabs does not change the hash input |
| `ContentHash.NormalFormIsFixed` | src/electripy/ai/rag/domain.py:33-53 | a text with LF as its only line end and none at the end, without tabs, double spaces and white space before a line end or at the end, is its own normal form |
| `ContentHash.NormalisedByLine` | src/electripy/ai/rag/domain.py:47-53 | a text of several lines normalises line by line, whatever its line ends; only a final line end is lost |
| `ContentHash.TrailingSpaceIsLost` | src/electripy/ai/rag/domain.py:52 | white space at the end of a line does not matter |
| `Whitespace.CodePoints` | src/electripy/ai/rag/domain.py:47-53 | blanks, line ends and white space as the string methods see them, by code point |
| `ContentHash.HashInputSameMetadata` | src/electripy/ai/rag/domain.py:56-77 | for the same metadata the hash input tells normalised texts apart |
| `ContentHash.MetadataCanCollide` | src/electripy/ai/rag/domain.py:56-77 | such documents exist: for every text and every written mapping in normal form, the text followed by a separator and the mapping has, without metadata, the hash input of the text with this metadata |
| `ContentHash.HashInputsEqualIff` | src/electripy/ai/rag/domain.py:56-77 | two documents have the same hash input if and only if normalised texts and metadata are equal, or one has no metadata and its normalised text is that of the other followed by a separator and the written metadata of the other |
| `ContentHash.CanCollideIff` | src/electripy/ai/rag/domain.py:56-77 | two texts that differ after normalisation can be given metadata under which their hash inputs are equal if and only if one normalised text is the other followed by a separator and the text of some mapping |
| `Indexer.InMemoryVectorStoreAdapter.constructor` | src/electripy/ai/rag_eval_runner/adapters.py:74-75 | an empty store |
| `Indexer.InMemoryVectorStoreAdapter.Upsert` | src/electripy/ai/rag_eval_runner/adapters.py:77-81 | refuses lists of different length, storing nothing; otherwise every chunk is stored under its identifier, in order |
| `Indexer.InMemoryVectorStoreAdapter.DeleteByDocument` | src/electripy/ai/rag_eval_runner/adapters.py:117-122 | exactly the entries whose chunk belongs to the document are removed |
| `Indexer.IndexingService.IndexDocument` | src/electripy/ai/rag/services.py:210-248 | skipping, the empty document, failed or mismatched embeddings and the normal case: the whole new state and the outcome |
| `Indexer.IndexingService.DeleteDocument` | src/electripy/ai/rag/services.py:250-258 | entries and hash of the document are forgotten |
| `Indexer.ChunkIdInjective` | src/electripy/ai/rag/services.py:99 | identifiers of different chunks never collide, whatever colons and digits document identifiers contain |
| `Indexer.StoreIsHistory` | src/electripy/ai/rag/services.py:210-258 | after any run, what is stored as chunk k of a document is chunk k of the latest text indexed since the document was wiped that has more than k chunks, and nothing if there is none |
| `Indexer.NothingElseIsStored` | src/electripy/ai/rag_eval_runner/adapters.py:77-122 | every stored entry is one of these |
| `Indexer.CurrentChunksAreStored` | src/electripy/ai/rag/services.py:210-248 | every chunk of the last text that took effect is stored under its own number |
| `Indexer.HashesAreCurrent` | src/electripy/ai/rag/services.py:220-243 | the hash kept for a document is that of the last text that took effect |
| `Indexer.ExactIffNeverShrank` | src/electripy/ai/rag/services.py:210-248 | the store holds exactly the current chunks of a document if and only if no earlier text since the wipe had more of them |
| `Indexer.DeleteLeavesNone` | src/electripy/ai/rag/services.py:250-258 | after a delete no entry and no hash of the document is left |
| `Indexer.OthersUntouched` | src/electripy/ai/rag/services.py:210-258 | an operation on one document never changes another's entries or hash |
| `Indexer.SkippedIffSameContent` | src/electripy/ai/rag/services.py:222-228 | with an injective digest, a document is skipped if and only if it and the last text that took effect have equal normalised text and equal metadata, or one of them has no metadata and its normalised text goes on, after that of the other, with a separator and the metadata of the other |
| `Indexer.EditsAreSeen` | src/electripy/ai/rag/services.py:222-228 | of two texts in normal form, with metadata in both or in neither, an edit anywhere in text or metadata is never taken for unchanged |
| `Indexer.WhatIndexingReturns` | src/electripy/ai/rag/services.py:210-248 | an error, with nothing changed, exactly when a text that is neither empty nor skipped gets no embedding or one of another length; nothing for the empty text and when it skips; else all its chunks |
| `SemVer.ParsePrinted` | src/electripy/ai/skills/domain.py:99-131 | parsing a printed well-formed version gives it back |
| `SemVer.PrintParsed` | src/electripy/ai/skills/domain.py:99-131 | printing what was parsed gives the text back |
| `SemVer.ParseOfPrintIff` | src/electripy/ai/skills/domain.py:99-131 | a version survives printing and parsing if and only if its labels are well formed |
| `SemVer.ParsesIff` | src/electripy/ai/skills/domain.py:99-131 | a text parses to a version if and only if it is that version printed, up to surrounding white space, and the version is well formed |
| `SemVer.ParsesIffMatches` | src/electripy/ai/skills/domain.py:73-76 | the scanner accepts exactly the language of the regular expression and returns what its groups say |
| `SemVer.LabelCharIff` | src/electripy/ai/skills/domain.py:73-76 | the characters of labels by code point |
| `SemVer.PrintIsInjective` | src/electripy/ai/skills/domain.py:125-131 | different well-formed versions print differently |
| `SemVer.TotalPreorder` | src/electripy/ai/skills/domain.py:135-159 | the comparisons form a total preorder, with < as its strict part and > and >= as the converses |
| `SemVer.TiesDifferInBuildOnly` | src/electripy/ai/skills/domain.py:135-159 | two versions tie if and only if they differ at most in build metadata |
| `SemVer.SmallerIff` | src/electripy/ai/skills/domain.py:135-141 | labels are compared lexicographically: the first difference decides, a proper prefix is smaller |
| `SemVer.SmallerVersionIff` | src/electripy/ai/skills/domain.py:135-159 | which of two versions is the smaller: by the three numbers, then a prerelease before its release, then by the first difference of the prerelease labels |
| `Precedence.JoinedIdentifiers` | src/electripy/ai/skills/domain.py:135-141 | a label is its dot-separated identifiers, joined |
| `Precedence.PrecedenceTies` | src/electripy/ai/skills/domain.py:135-159 | item 11 precedence, defined on identifier lists, is antisymmetric and ties exactly what the comparisons tie |
| `Precedence.IdentifiersAgreeIff` | src/electripy/ai/skills/domain.py:135-141 | exactly when text order puts two different identifiers, within their labels, as item 11 does: number against number, number against word, word against word |
| `Precedence.ComparesAsItem11Iff` | src/electripy/ai/skills/domain.py:135-159 | for any two versions with labels that item 9 allows, the comparison is the precedence of item 11 if and only if they differ before their labels, or one is a release, or the first different identifiers are put in the same order: of two numbers the smaller is at most what as many leading digits of the larger make; of a number and a word, the leading digits both have are in order, or they are equal and the word does not go on with a hyphen while the label of the number goes on; of two words, neither goes on with a hyphen where the other is followed by more identifiers |
| `Precedence.NumericIdentifiersOrderedIff` | src/electripy/ai/skills/domain.py:135-141 | the number case by itself: the smaller comes first if and only if it is at most the number made by as many leading digits of the larger |
| `Precedence.TenComesBeforeTwo` | src/electripy/ai/skills/domain.py:135-141 | so, whatever the stem, identifier 10 comes before identifier 2 |
| `Precedence.HyphenComesBeforeDot` | src/electripy/ai/skills/domain.py:135-141 | and x-y comes before x.z for all x, y and z |
| `GatherLimited.GatherLimited` | src/electripy/concurrency/task_groups.py:34-50 | a non-positive limit is an error; otherwise, whichever enabled event comes next, some event is enabled until all tasks are done, the schedule followed is legal and complete, and the result is the non-None results in input order |
| `GatherLimited.WithoutNones` | src/electripy/concurrency/task_groups.py:50 | drops exactly the Nones and keeps the order |
| `GatherLimited.NeverOverLimit` | src/electripy/concurrency/task_groups.py:39-43 | at every moment of every schedule at most concurrency awaitables are in flight and permits add up; each event uses up one of 2n steps, so no schedule runs for ever |
| `GatherLimited.NeverStuck` | src/electripy/concurrency/task_groups.py:39-47 | until every task is done some event can happen; a schedule is complete exactly when it has 2n events |
| `GatherLimited.StartedOnce` | src/electripy/concurrency/task_groups.py:41-43 | each task starts once and finishes once, in that order |
| `GatherLimited.ResultsInInputOrder` | src/electripy/concurrency/task_groups.py:37-50 | once complete, the results are the awaitables' values in input order, whatever the schedule |
| `GatherLimited.OneValuePerAwaitableIff` | src/electripy/concurrency/task_groups.py:49-50 | the returned list has one value per awaitable at its place if and only if no awaitable gave None |
| `GatewayRetry.LlmGatewaySyncClient.CallWithRetry` | src/electripy/ai/llm_gateway/services.py:234-271 | the attempt loop: result, start of every attempt, every sleep and the end as the specification says |
| `GatewayRetry.LlmGatewaySyncClient.CompleteStructured` | src/electripy/ai/llm_gateway/services.py:273-318 | the rounds: result, number of port calls and the prompt of every round |
| `GatewayRetry.SleepLength` | src/electripy/ai/llm_gateway/services.py:245-267 | the sleep after i earlier failures is min(initial doubled i times, max_backoff) without a hint and min(hint, max_backoff) with one; the hint is honoured in full if and only if it is at most max_backoff |
| `GatewayRetry.DoubledIsPow2` | src/electripy/ai/llm_gateway/services.py:255-267 | doubling i times is multiplying by 2^i |
| `GatewayRetry.TimeBudget` | src/electripy/ai/llm_gateway/services.py:247-267 | the sleeps of a call add up to at most total_timeout_seconds and no attempt starts after that deadline |
| `GatewayRetry.CallEnds` | src/electripy/ai/llm_gateway/services.py:234-271 | at most max_attempts attempts; every sleep follows a retryable failure and ends when the next attempt starts, in time; how each result comes about, and that exhaustion by attempts sleeps once more in vain |
| `GatewayRetry.StructuredCallBudget` | src/electripy/ai/llm_gateway/services.py:280-318 | structured mode makes at most (max(1, repairs) + 1) * max_attempts port calls |
| `GatewayRetry.StructuredRounds` | src/electripy/ai/llm_gateway/services.py:280-318 | a returned text is valid and is the last round's reply; each later round asks to repair exactly the invalid text of the round before; the error means every round gave an invalid text |

## Left out

- LruCache.StoreIsMostRecentlyUsed: sizes from 1 on; at size 0 every put raises (see Put), and negative sizes, which behave like 0, are not modelled.
- LruCache.CachedTextIsInnerText: the SHA-256 digest of the key fields is taken as injective, and `max_output_tokens`, which is not part of the key, must not influence the inner port; only the text of a hit is claimed, its `model` field may differ.
- LruCache: `stats`, the lock and the SQLite backend, whose eviction differs, are not modelled.
- SimpleBreaker, HttpBreaker: locks are not modelled; each method is one atomic step. Outcomes and clock readings are parameters.
- RetryClient.ResilientSyncHttpClient.Request: exceptions other than the HTTP client's own escape without reporting to the breaker and are not modelled; the port, the clock and the random draws are parameters, and the asynchronous twin has the same logic.
- RetryClient.SleepsBounded: negative Retry-After values are left out; without jitter they would be handed to sleep as they are.
- JsonRepair.RepairedIff: backslashes outside strings are excluded, because the scanners honour them and JSON does not; the quote, key and trailing-comma rewrites by regular expression are not modelled.
- TokenBucket.AsyncTokenBucketRateLimiter.Acquire: sleeping takes at least the time asked for; floats are reals. The caller gives up after a number of sleeps of its choice, because at a negative rate the loop would not end.
- TokenBucket.WindowBound: runs ask for non-negative amounts (see StaysInRangeIff for the others).
- Redaction.ApplyRedactions: offsets are not negative; what the text becomes is characterised by coverage for offsets within the text, and given as the sequence of slice assignments for others. How findings are detected is not modelled.
- Sanitizing.SanitizeDisjoint: spans that overlap are excluded, because an earlier splice shifts their later bounds; spans that touch are included.
- Realtime: one session at a time; observers, the transport, time stamps and the registry of sessions are not modelled. Outside callers do not ingest LIFECYCLE, TOOL_CALL or TOOL_RESULT events themselves.
- ContextAssembly.AssembleContext: token counts are non-negative; the joined text of the result is not modelled.
- ConversationMemory.FitsBudgetIff: speaks of turns that are distinct objects; for a repeated object TrimToBudget gives the turns returned, but choosing it once returns it wherever it occurs. `sliding_window` and `append_turn` would only add easy members.
- TokenBudget.KeptLength: floats are reals; the closed form is for budgets of at least 1 (with budget 0 nothing is kept, stated at the default ratio in KeptAtRatioFour).
- Chunker: alternative chunkers are not modelled.
- Indexer.IndexingService.IndexDocument: the embedding gateway's answer is a parameter, absent when it raises; its batching and retries are not modelled, nor is similarity search.
- Indexer.SkippedIffSameContent: SHA-256 is an injective function. Metadata is the value that json.dumps writes, its members in key order; mappings that json.dumps refuses, and different Python values that it writes alike, are not told apart.
- SemVer.ParsesIffMatches: digits are ASCII; the regular expression would also accept other Unicode decimal digits. Version numbers are natural numbers.
- Precedence.ComparesAsItem11Iff: item 11 is defined for labels that item 9 allows; the parser also accepts empty identifiers and numbers with leading zeros, for which there is no precedence to compare with.
- GatherLimited.GatherLimited: every awaitable completes; failures, which cancel the group, are not modelled. Which waiting task gets a permit is left open, so the semaphore's fairness is not used.
- GatewayRetry.SleepLength: back-offs of the policy are non-negative; a negative hint makes the sleep raise, which is a result of its own.
- GatewayRetry.TimeBudget: sleeps take exactly the time asked for, and the total timeout is non-negative.
- Threshold ladders, report writers, cost ledgers, registries and the command line would only add members whose property is read off one branch; network and provider adapters are foreign calls.
