# 2kcookies — a verified functional model of the collector core

`2kcookies` is a Go program that fetches one page over and over. On each
fetch it captures the session cookie named `2K` and the `state` and
`client_id` parameters of the first anchor's `data-href`. It joins them
with the response's timestamp into one DynamoDB record. This Dafny project
models the pure logic under that glue and proves properties of it:

- `CookieJar` (cookie_jar.dfy) models `CookieManager`: a map from host to
  cookie list with `SetCookies`/`Cookies`. It also models the series of
  `SetCookies` calls the transport makes on a fresh jar.
- `RecordBuilder` (record_builder.dfy) models `ProcessCookies` over an
  explicit bucket order. Go's `range` over a map has no fixed order, so the
  order is a parameter that must list each host exactly once.
- `Scanner` (scanner.dfy) models `scrapePageWorker` over a token stream.
  `Emissions` is every pair the worker would send if nobody stopped listening; the real worker blocks for good on its next send. `FirstEmission` is the
  synchronous first match. `ScrapePage` turns the first pair's decoded query
  into the `state`/`client_id` map, and its panics become `Err` values.
- `Collector` (collector.dfy) models `main`. `CollectOnce` is one iteration:
  fresh jar, fetch, `Date` header, scrape, build. `Run` is the event trace of
  the loop `for i := 0; i <= count; i++`, with its progress notices and sleeps.
- `Wrappers` (wrappers.dfy) holds `Option` and `Result`.

Some behaviours of the code are kept as written, though a collector might
be expected to do otherwise:

- A missing `Date` header, an href that does not parse, or a missing
  `state`/`client_id` makes the program panic. That ends the whole run, so
  `Run` stops at a `Crash` event. The iteration is not merely skipped.
- An anchor needs no `id` to count. Only a `data-href` matters.
- When no anchor carries a `data-href`, `ScrapePage` returns the empty map.
  The record is then still built, with empty `state` and `client_id`.
- The loop runs `count + 1` times. The inclusive bound is kept.
- Only `StartTagToken`s named `a` are looked at. A self-closing `<a .../>` is
  ignored, as in the code.

## Model

| member | source | states |
|---|---|---|
| CookieJar.SetCookies | 2kcookies.go:43-45 | after setting, the URL's host holds exactly the given list (replaced, not merged); every other host reads as before; the key set grows by that host only |
| CookieJar.CookiesOfFreshJar | 2kcookies.go:47-50 | reading the iteration's jar gives the host's last `SetCookies` list, or the empty list for a host never set |
| CookieJar.NewJar | 2kcookies.go:180 | the jar made at the top of each iteration reads empty for every URL and holds no cookie |
| CookieJar.SetCookiesReplaces | 2kcookies.go:43-45 | setting one host twice leaves only the second list |
| CookieJar.ApplyWritesKeepsLast | 2kcookies.go:43-50 | after any series of `SetCookies` calls, each host reads as its last write, and a host never written reads as before |
| CookieJar.FreshJarHoldsOnlyWrites | 2kcookies.go:180-181 | every cookie in a jar that started fresh came from one of this iteration's writes (no cross-iteration leakage) |
| RecordBuilder.EnumerationExists | 2kcookies.go:83 | every jar has an order that lists each host once, so the enumeration `ProcessCookies` requires is always available |
| RecordBuilder.Visit | 2kcookies.go:84-110 | walking cookies with a candidate: without a `2K` cookie the candidate is unchanged; otherwise the result is built from the last `2K` cookie met |
| RecordBuilder.EncounterIsJar | 2kcookies.go:83-84 | over an order that lists each host once, the nested loops meet exactly the cookies in the jar |
| RecordBuilder.ProcessCookies | 2kcookies.go:81-113 | no record iff no host bucket holds a `2K` cookie; a record has name `2K`, the value of a `2K` cookie in the jar, namely the last one met in bucket order, and copies time, table and the `state`/`client_id` lookups |
| RecordBuilder.OrderIrrelevantWhenValuesAgree | 2kcookies.go:83 | when all `2K` cookies in the jar share a value, every bucket order gives the same record |
| RecordBuilder.LastBucketDecides | 2kcookies.go:83-110 | for any jar and any bucket order, when the last host visited holds a `2K` cookie, the record's value is the last `2K` value of that host's bucket, whatever the earlier buckets hold |
| RecordBuilder.OrderDecidesBetweenHosts | 2kcookies.go:83-110 | example: jar `a.2k.com: 2K=x`, `b.2k.com: 2K=y` gives `y` when visited a-then-b and `x` when visited b-then-a |
| RecordBuilder.RecordExample | 2kcookies.go:81-113 | jar `2k.com: 2K=abc123`, state `xyz`, client_id `42`, time `1700000000`, table `2kcookies` gives exactly that record |
| Scanner.TagPairsSpec | 2kcookies.go:136-144 | within one anchor, one pair per `data-href` in order; each carries its value and the last `id` seen before it in the same tag, or the empty slot |
| Scanner.EmissionsAppend | 2kcookies.go:122-147 | before any error token, the worker's sends over two stretches of tokens are the sends of the first then the second |
| Scanner.EmissionsStopAtError | 2kcookies.go:126-127 | nothing after the first error token is looked at |
| Scanner.EmissionsIgnoreOthers | 2kcookies.go:128-134 | a token that is neither an error nor an `a` start tag changes nothing |
| Scanner.NoEmissionIff | 2kcookies.go:122-147 | the worker sends nothing iff no `a` start tag it reaches before an error token has a `data-href` |
| Scanner.FirstInTag | 2kcookies.go:136-143 | the early-exit inner loop returns nothing iff the tag sends nothing, else the tag's first pair |
| Scanner.FirstEmission | 2kcookies.go:116-159 | the synchronous worker returns nothing iff the full send stream is empty, else its first pair, the one value `ScrapePage` receives |
| Scanner.FirstValue | 2kcookies.go:163-164 | `url.Values` first-value lookup: nothing iff the key is absent, else the value of the key's first occurrence |
| Scanner.ScrapePage | 2kcookies.go:151-169 | empty map iff nothing was sent; a non-empty map has exactly `state` and `client_id`, each the first value in the first pair's decoded query; an error iff the href does not decode or lacks one of them, naming `state` when it is missing and `client_id` otherwise, the order the code indexes them in |
| Scanner.ScrapePageUsesFirstAnchor | 2kcookies.go:158-164 | once an anchor with `data-href` is reached, later tokens cannot change the result |
| Scanner.SingleAnchorExample | 2kcookies.go:151-169 | one anchor whose href decodes to `state=S&client_id=C` gives exactly `{state: S, client_id: C}` |
| Collector.CollectOnce | 2kcookies.go:180-186 | a failed request gives a failure and only then; no `Date` header gives a panic; a scrape error panics with that error, otherwise a record's `state`/`client_id` are the scraped map's entries; a built record has table `2kcookies`, the stamped first `Date` value, name `2K`, the value of the last `2K` cookie met in the jar built from this iteration's writes (so an overwritten cookie cannot win), a value handed over by one of those writes, and empty `state`/`client_id` when no anchor had a `data-href` |
| Collector.RunWithoutPanic | 2kcookies.go:179-194 | without a panic, whatever each fetch does, attempts and sleeps happen at indices `0..count` in order, and progress notices exactly at the reporting indices |
| Collector.IterationReportsOutcome | 2kcookies.go:181-188 | a panic-free iteration's attempt is followed by the failure notice exactly when the fetch failed, and by the put of its parameters otherwise |
| Collector.RunStopsAtPanic | 2kcookies.go:179-186 | a first panic at iteration k leaves attempts `0..k`, sleeps `0..k-1`, and the crash as the last event |
| Collector.LoopIndicesSpec | 2kcookies.go:179 | the loop visits `count + 1` indices, `0` to `count` in order, and none for a negative count |
| Collector.ProgressAtMultiplesOfFive | 2kcookies.go:190-192 | the progress indices are exactly 5, 10, 15, ... up to `count`, and 0 is never one of them |
| Collector.CountThreeRunsFourTimes | 2kcookies.go:179-194 | with `count = 3` and no panic there are four fetch attempts and four sleeps, even if fetches fail |

## Left out

- `GetCookie` and `http.Client`: network I/O. What the transport does to the jar is the `writes` input of `Exchange`. A failed request is `response = None`.
- The DynamoDB client and `PutItem`: a foreign SDK. The record is a plain datatype, and the put is a `Put` event. The store rejecting the nil input when there is no record, and the ignored `PutItem` error, are not modelled.
- `time.Parse` of the `Date` header and `strconv.FormatInt`: library calls. They are the `stamp` parameter. It is total, because the source discards the parse error and formats the zero time.
- `url.Parse` and `Query`: library calls. They are the `decode` parameter, which returns the decoded pairs in order, or `None` for a parse error.
- The `golang.org/x/net/html` tokenizer: its token stream is the input. Running off the end of the sequence stands for its end-of-input error token. Tag-name lower-casing and entity decoding are the tokenizer's job.
- The goroutine, the two channels and the `select`: replaced by the synchronous `FirstEmission`. The worker blocks on its first unbuffered send before it can signal "finished", so the `select` always takes the first pair when there is one. The worker left blocked after that receive is not modelled.
- `time.Sleep` and flag parsing: the sleep is a `Sleep` event without a duration, and the `count` flag is a parameter.
- Printed text: the failure and progress messages are `FailureNotice` and `ProgressNotice` events.
- The unused `CookieResult` type, and cookie fields other than name and value: the program never reads them.
- Collector.LoopIndicesSpec: does not model the 64-bit counter. With `count` equal to the largest `int`, `i <= count` is always true and the loop never ends. The model's unbounded integers give `count + 1` iterations there too.
- Collector.RunWithoutPanic: the same 64-bit caveat applies to the trace for the largest `count`.
