# Dictation speech service: cache and word list

A Dafny model of the two pieces of sequential logic in the dictation game's
Flask server (`app.py`):

- **The `/speak` cache.** The request text is stripped and lower-cased to a
  key. A process-wide map from key to MP3 bytes is consulted. On a hit the
  stored bytes are answered and nothing else happens. On a miss the speech
  provider (edge-tts, writing to a temporary file) is called once for the key.
  Its bytes are stored under the key and answered. If the provider raises, the
  exception escapes before the store, so nothing is cached.
- **The word-list loader.** Each `words.csv` row becomes an `{en, zh}` pair.
  `en` is stripped and lower-cased, `zh` is stripped, and rows whose `en` is
  blank are skipped. When the file does not exist, the built-in list
  `cat/小貓`, `dog/小狗` is used.

Files:

- `wrappers.dfy`: `Option` and `Result`.
- `text.dfy` (module `Text`): `str.strip()` and `str.lower()` over ASCII, and
  `Normalize` (`s.strip().lower()`), with the laws the cache key relies on.
- `word_list.dfy` (module `WordList`): rows, pairs, `PairsFromRows` and
  `LoadWordPairs`.
- `speech_cache.dfy` (module `SpeechCache`): the service state; `Serve`, the
  cache logic for one key; `Speak`, the endpoint, which first turns the text
  into its key; `ServeAll`, a sequence of requests for keys served one after
  the other; and `SpeakAll`, a sequence of `/speak` request texts.

The provider is an oracle. Each request carries the reply the provider would
give if it were called: bytes, or a `ProviderError`/`StagingError`. That reply
is consulted only on a miss. The state logs every provider call by its key, so
the number of calls is the length of that log. The laws about sequences of
requests are stated over keys (`Call`), i.e. over texts that have already been
normalised. `SpeakAllIsServeAll` carries them over to request texts: serving a
sequence of texts is serving the sequence of their keys, and the `Text` laws say
which texts share a key.

Two behaviours of the code worth stating plainly:

- Blank text is not rejected: an empty or all-whitespace text is served under
  the key `""`.
- Nothing stops two concurrent misses for the same key from both calling the
  provider; the model serves requests one at a time (see "Left out").

## Model

| member | source | states |
|---|---|---|
| `Text.Strip` | app.py:58 | `str.strip()`: the result has no whitespace at either end and is no longer than the input |
| `Text.StripIsSlice` | app.py:58 | what `strip()` keeps is one contiguous slice of the input, starting right after the leading whitespace, and every character it drops on either side is whitespace |
| `Text.StripEmptyIff` | app.py:22-24 | a text strips to the empty string exactly when it is all whitespace |
| `Text.Lower` | app.py:58 | `str.lower()`: same length, and every character is the lower-cased character at the same position |
| `Text.Normalize` | app.py:58 | the cache key is in normal form: no whitespace at either end and no upper-case letter |
| `Text.LowerKeepsStripped` | app.py:58 | lower-casing a stripped text yields a key in normal form |
| `Text.LowerEqualIff` | app.py:58 | two texts lower-case to the same string exactly when they are equal up to letter case |
| `Text.NormalizeIsStripUpToCase` | app.py:58 | the key differs from the stripped text at most in letter case |
| `Text.StripFixesIff` | app.py:23 | stripping leaves a string unchanged exactly when it has no whitespace at either end |
| `Text.NormalizeFixesIff` | app.py:22 | normalising leaves a string unchanged exactly when it is already stripped and lower-case |
| `Text.NormalizeIdempotent` | app.py:22 | normalising an already normalised word changes nothing |
| `Text.StripPadded` | app.py:58 | whitespace added on either side of a text does not change what it strips to |
| `Text.TrimStartIgnoresCase` | app.py:58 | texts equal up to case stay equal up to case after leading whitespace is stripped |
| `Text.TrimEndIgnoresCase` | app.py:58 | texts equal up to case stay equal up to case after trailing whitespace is stripped |
| `Text.SameKeyIff` | app.py:58 | two texts share a cache key exactly when their stripped forms differ at most in letter case |
| `Text.SameKeyUpToCaseAndPadding` | app.py:58 | texts that differ only in letter case and in surrounding whitespace share a cache key |
| `WordList.KeepsIff` | app.py:22-24 | the loader's `if eng:` test passes exactly when the `english` column is not all whitespace |
| `WordList.PairOf` | app.py:22-25 | a kept row becomes a well-formed pair (`en` non-empty, stripped, lower-case; `zh` stripped); `en` is the stripped `english` column up to letter case, which with its normal form fixes it as the lower-cased stripped column; `zh` is the stripped `chinese` column |
| `WordList.PairsFromRows` | app.py:17-25 | there are never more pairs than rows |
| `WordList.PairsWellFormed` | app.py:21-25 | every pair read from rows is well formed |
| `WordList.LoadWordPairs` | app.py:16-30 | every loaded pair is well formed; a missing file gives exactly `cat/小貓`, `dog/小狗`; a present file gives `PairsFromRows(rows)`, the pairs of the kept rows in file order, at most one per row |
| `WordList.PairsFromRowsAppend` | app.py:21-25 | the rows are processed in file order: two blocks of rows give the pairs of the first block followed by those of the second |
| `WordList.PairsFromOneRow` | app.py:22-25 | one row gives its pair when its `english` column is not blank, and nothing otherwise |
| `WordList.PairsFromRowsMembers` | app.py:21-25 | a pair is in the output exactly when some kept row of the input makes it |
| `WordList.PairEnglishIsFixed` | app.py:22-25 | re-normalising a loaded `en` or re-stripping a loaded `zh` changes nothing |
| `SpeechCache.Serve` | app.py:61-94 | hit: the stored bytes, no provider call, state unchanged; miss: exactly one provider call, for the key, and its outcome is the answer; a successful miss stores the bytes under the key and leaves every other entry alone; a failure caches nothing; entries are never removed or overwritten; a request succeeds exactly when its key is cached afterwards, holding the answered bytes |
| `SpeechCache.Speak` | app.py:56-94 | for a request text: a cached key answers its bytes with no change; otherwise one provider call for the key; success stores the answered bytes under the key only, failure leaves the cache as it was |
| `SpeechCache.InitialValid` | app.py:36 | the empty cache at process start is a valid state |
| `SpeechCache.ServeKeepsValid` | app.py:61-88 | serving a normal-form key keeps every cached key in normal form and backed by a provider call |
| `SpeechCache.SpeakKeepsValid` | app.py:58-88 | any request text keeps the state valid |
| `SpeechCache.SpeakTwiceSameKey` | app.py:35 | after a successful request, a second request with the same key answers the same bytes, calls nothing and changes nothing; at most one provider call for the pair |
| `SpeechCache.CaseAndPaddingShareEntry` | app.py:58-67 | a text followed by the same text re-cased and padded with whitespace: one provider call, the same bytes |
| `SpeechCache.FailureNotCached` | app.py:84-88 | a failed synthesis leaves the cache as it was, and the next request for the same key calls the provider again |
| `SpeechCache.ServeAll` | app.py:56-94 | over a sequence of requests, entries present at the start are kept unchanged, only keys asked for are added, and the provider is called at most once per request, with earlier calls kept in the log |
| `SpeechCache.ServeAllKeepsValid` | app.py:36-88 | a sequence of normal-form requests from a valid state ends in a valid state |
| `SpeechCache.ServeAllAnswersAreCached` | app.py:61-94 | every successful answer in a sequence is the entry the cache holds for its key at the end |
| `SpeechCache.ServeAllSameKeySameAudio` | app.py:35 | two successful answers to requests with the same key are the same bytes |
| `SpeechCache.ServeAllCachesEveryKey` | app.py:87-88 | when the provider never fails, the keys cached at the end are exactly those cached at the start plus those asked for |
| `SpeechCache.ServeAllSynthesizesOncePerKey` | app.py:35-94 | when the provider never fails, the provider is called exactly for the keys asked for that were not already cached, and never twice for the same key |
| `SpeechCache.ServeAllCallCount` | app.py:35-94 | when the provider never fails, the number of provider calls equals the number of distinct keys asked for that were not already cached |
| `SpeechCache.ServeAllAppend` | app.py:56-94 | serving one sequence of requests and then another is serving the two joined, from the state the first left behind; the answers are those to the first followed by those to the second |
| `SpeechCache.CachedNeverCalled` | app.py:35-67 | a key cached at the start is never sent to the provider by any later request, whether or not the provider fails on other keys |
| `SpeechCache.SuccessNeverCalledAgain` | app.py:35-88 | once a request for a key has succeeded, no later request calls the provider for that key, even when the provider fails in between |
| `SpeechCache.SpeakAll` | app.py:56-94 | over a sequence of request texts, one answer per request and every entry present at the start is kept unchanged |
| `SpeechCache.SpeakAllIsServeAll` | app.py:58 | serving a sequence of request texts is exactly serving the sequence of their stripped, lower-cased keys, with the same answers and the same final state |
| `SpeechCache.SpeakAllKeepsValid` | app.py:36-88 | any sequence of request texts from a valid state ends in a valid state |

## Left out

- Concurrency. The lock guards only the lookup (app.py:61) and the store (app.py:87). Two concurrent misses for one key therefore both call the provider, and the second `cache[text] = mp3_bytes` (app.py:88) overwrites the first entry, so the two racing requests can answer different bytes. The model serves requests one at a time, and its "entries are never overwritten" (`Serve`) and "same key, same bytes" (`ServeAllSameKeySameAudio`) promises hold only under that one-at-a-time serving, not in a threaded server.
- The speech provider's internals. This covers edge-tts, `asyncio.run`, the voice name, and the temporary file's create/read/unlink steps (app.py:70-84). All of them are collapsed into the per-request reply oracle. An unlink failure after a good read is an error reply (`StagingError`).
- Flask plumbing. This covers reading `request.json["text"]` (a missing or non-string `text` raises before any cache work) and `send_file` with its MIME type and download name.
- Full Unicode `strip`/`lower`. Whitespace is `str.isspace` over ASCII (code points 9-13 and 28-32), and only `A`-`Z` are lower-cased. Non-ASCII characters are left as they are.
- A row with a missing cell. `csv.DictReader` fills the missing cells of a short row with `None`, so `.strip()` raises `AttributeError` at app.py:22 or app.py:23. Only `FileNotFoundError` is caught (app.py:27), so the error escapes `load_word_pairs` and the module load at app.py:32 fails. The model's `Row` always has both cells as strings, so this input cannot be expressed.
- CSV parsing, the BOM-aware `open`, a missing `english`/`chinese` column (a `KeyError`), I/O errors other than a missing file, and the `print` logging (app.py:18-28). The parsed rows are the input, and a missing file is `None`.
- The `index` route's HTML placeholder substitution (app.py:39-50), `favicon` (app.py:52-54), CORS setup, and the `__main__` port handling (app.py:96-104).
