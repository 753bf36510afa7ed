/** The `/speak` endpoint's memoising cache: a process-wide map from the
    normalised request text to the MP3 bytes synthesised for it.

    The speech provider (edge-tts writing to a temporary file) is opaque. Each
    request carries the reply the provider would give if it were called, and
    that reply is consulted only on a miss; every call that is made is logged
    by the key it was made for. Requests are served one at a time.

    `Serve` is the cache logic for one key; `Speak` is the endpoint, which
    first turns the request text into its key. */
module SpeechCache {
  import opened Wrappers
  import opened Text

  newtype byte = b: int | 0 <= b < 256

  /** The bytes of one MP3 file. */
  type Audio = seq<byte>

  /** A cache key: the request text after `strip()` and `lower()`. */
  type Key = string

  /** What a synthesis attempt can raise: the provider itself failing, or the
      temporary file it writes to not being created, read or removed. */
  datatype SynthesisError = ProviderError | StagingError

  /** What the provider returns or raises when it is called. */
  type Reply = Result<Audio, SynthesisError>

  /** The process-wide state: the cache, and the keys the provider has been
      called for, oldest first. */
  datatype Service = Service(cache: map<Key, Audio>, synthesized: seq<Key>)

  /** The state at process start: an empty cache, no provider calls. */
  const Initial: Service := Service(map[], [])

  /** The state after one request, and what the request answered. */
  datatype Step = Step(next: Service, response: Reply)

  /** Every entry of `before` is in `after`, with the same bytes. */
  ghost predicate Extends(before: map<Key, Audio>, after: map<Key, Audio>) {
    forall k :: k in before ==> k in after && after[k] == before[k]
  }

  /** One request for `key`; `reply` is what the provider returns or raises
      if it is called. A hit answers from the cache and calls nothing. A miss
      calls the provider once for the key; its bytes are stored and returned,
      and if it raises, the error escapes before the store and the cache is
      left as it was. */
  function Serve(s: Service, key: Key, reply: Reply): (r: Step)
    // hit: the stored bytes, no provider call, no change
    ensures key in s.cache ==> r.next == s && r.response == Ok(s.cache[key])
    // miss: exactly one provider call, for the key; its outcome is the answer
    ensures key !in s.cache ==>
              r.next.synthesized == s.synthesized + [key] && r.response == reply
    // a successful miss stores the bytes under the key and touches nothing else
    ensures key !in s.cache && reply.Ok? ==> r.next.cache == s.cache[key := reply.value]
    // a failed call caches nothing
    ensures reply.Err? ==> r.next.cache == s.cache
    // entries are never removed or overwritten; only the key can be added
    ensures Extends(s.cache, r.next.cache)
    ensures r.next.cache.Keys <= s.cache.Keys + {key}
    // a request succeeds exactly when its key is cached afterwards, and then
    // it answered with the cached bytes
    ensures r.response.Ok? <==> key in r.next.cache
    ensures r.response.Ok? ==> r.next.cache[key] == r.response.value
  {
    if key in s.cache then
      Step(s, Ok(s.cache[key]))
    else
      var called := s.(synthesized := s.synthesized + [key]);
      match reply
      case Ok(audio) => Step(called.(cache := called.cache[key := audio]), Ok(audio))
      case Err(e) => Step(called, Err(e))
  }

  /** The `/speak` endpoint: the text is stripped and lower-cased, and the
      result is served as the key. A text whose key is cached gets the cached
      bytes at no cost; otherwise the provider is called once, for the key,
      and a success is cached under the key while a failure caches nothing. */
  function Speak(s: Service, text: string, reply: Reply): (r: Step)
    ensures Normalize(text) in s.cache ==>
              r == Step(s, Ok(s.cache[Normalize(text)]))
    ensures Normalize(text) !in s.cache ==>
              r.next.synthesized == s.synthesized + [Normalize(text)] && r.response == reply
    ensures r.response.Ok? ==> r.next.cache == s.cache[Normalize(text) := r.response.value]
    ensures r.response.Err? ==> r.next.cache == s.cache
  {
    Serve(s, Normalize(text), reply)
  }

  /** What every reachable state satisfies: each cached key is in normal form
      and the provider was called for it. */
  ghost predicate Valid(s: Service) {
    forall k :: k in s.cache ==> IsNormal(k) && k in s.synthesized
  }

  lemma InitialValid()
    ensures Valid(Initial)
  {
  }

  /** Serving a key in normal form keeps the state valid. */
  lemma ServeKeepsValid(s: Service, key: Key, reply: Reply)
    requires Valid(s) && IsNormal(key)
    ensures Valid(Serve(s, key, reply).next)
  {
    var r := Serve(s, key, reply);
    forall k | k in r.next.cache
      ensures IsNormal(k) && k in r.next.synthesized
    {
      if k !in s.cache {
        assert k == key;
      }
    }
  }

  /** `Speak` keeps the state valid, whatever the text. */
  lemma SpeakKeepsValid(s: Service, text: string, reply: Reply)
    requires Valid(s)
    ensures Valid(Speak(s, text, reply).next)
  {
    ServeKeepsValid(s, Normalize(text), reply);
  }

  /** Two requests in a row whose texts have the same key: once the first has
      succeeded, the second answers the same bytes, calls nothing and changes
      nothing, so the pair made at most one provider call. */
  lemma SpeakTwiceSameKey(s: Service, a: string, b: string, ra: Reply, rb: Reply)
    requires Normalize(a) == Normalize(b)
    requires Speak(s, a, ra).response.Ok?
    ensures Speak(Speak(s, a, ra).next, b, rb) == Speak(s, a, ra)
    ensures |Speak(s, a, ra).next.synthesized| <= |s.synthesized| + 1
  {
  }

  /** A text, then the same text in other letter case and with whitespace
      around it (say "Cat", then " cat\n"): one provider call for both, and
      the same bytes. */
  lemma CaseAndPaddingShareEntry(s: Service, a: string, p: string, b: string, q: string,
                                 audio: Audio, rb: Reply)
    requires AllSpace(p) && AllSpace(q) && EqualIgnoringCase(a, b)
    requires Normalize(a) !in s.cache
    ensures Speak(s, a, Ok(audio)).next.synthesized == s.synthesized + [Normalize(a)]
    ensures Speak(Speak(s, a, Ok(audio)).next, p + b + q, rb).response == Ok(audio)
    ensures Speak(Speak(s, a, Ok(audio)).next, p + b + q, rb).next.synthesized
            == s.synthesized + [Normalize(a)]
  {
    assert EqualIgnoringCase(b, a);
    SameKeyUpToCaseAndPadding(p, b, q, a);
  }

  /** A failed synthesis is not remembered: the cache is unchanged, and the
      next request for the same key calls the provider again. */
  lemma FailureNotCached(s: Service, a: string, b: string, ra: Reply, rb: Reply)
    requires Normalize(a) == Normalize(b)
    requires Normalize(a) !in s.cache
    requires ra.Err?
    ensures Speak(s, a, ra).next.cache == s.cache
    ensures Speak(Speak(s, a, ra).next, b, rb).next.synthesized
            == s.synthesized + [Normalize(a), Normalize(a)]
  {
  }

  /** One request of a sequence, after its text has been turned into its key,
      with what the provider would reply if this request called it. */
  datatype Call = Call(key: Key, reply: Reply)

  /** The state after a sequence of requests, and each request's answer. */
  datatype Trace = Trace(final: Service, responses: seq<Reply>)

  /** The keys a sequence of requests asks for. */
  ghost function KeysOf(calls: seq<Call>): set<Key> {
    if calls == [] then {} else KeysOf(calls[..|calls| - 1]) + {calls[|calls| - 1].key}
  }

  /** Serving `calls` one after the other from `s`. Entries present at the
      start are never lost or changed, only keys asked for are added, the
      provider is called at most once per request, and the call log only
      grows. */
  function ServeAll(s: Service, calls: seq<Call>): (t: Trace)
    ensures |t.responses| == |calls|
    ensures Extends(s.cache, t.final.cache)
    ensures t.final.cache.Keys <= s.cache.Keys + KeysOf(calls)
    ensures |s.synthesized| <= |t.final.synthesized| <= |s.synthesized| + |calls|
    ensures t.final.synthesized[..|s.synthesized|] == s.synthesized
  {
    if calls == [] then Trace(s, [])
    else
      var prev := ServeAll(s, calls[..|calls| - 1]);
      var last := calls[|calls| - 1];
      var step := Serve(prev.final, last.key, last.reply);
      Trace(step.next, prev.responses + [step.response])
  }

  /** The last request of a sequence is served from the state the others
      left. */
  lemma ServeAllLast(s: Service, calls: seq<Call>)
    requires calls != []
    ensures var prev := ServeAll(s, calls[..|calls| - 1]);
            var step := Serve(prev.final, calls[|calls| - 1].key, calls[|calls| - 1].reply);
            && ServeAll(s, calls).final == step.next
            && ServeAll(s, calls).responses == prev.responses + [step.response]
  {
  }

  /** Serving `a` and then `b` is serving `b` from where `a` left off; the
      answers are those to `a` followed by those to `b`. */
  lemma {:induction false} ServeAllAppend(s: Service, a: seq<Call>, b: seq<Call>)
    ensures ServeAll(s, a + b).final == ServeAll(ServeAll(s, a).final, b).final
    ensures ServeAll(s, a + b).responses
            == ServeAll(s, a).responses + ServeAll(ServeAll(s, a).final, b).responses
  {
    var mid := ServeAll(s, a);
    if b == [] {
      assert a + b == a;
      assert ServeAll(mid.final, b) == Trace(mid.final, []);
    } else {
      var b0, last := b[..|b| - 1], b[|b| - 1];
      assert (a + b)[..|a + b| - 1] == a + b0;
      assert (a + b)[|a + b| - 1] == last;
      ServeAllAppend(s, a, b0);
      ServeAllLast(s, a + b);
      ServeAllLast(mid.final, b);
      var left, right := ServeAll(s, a + b0), ServeAll(mid.final, b0);
      assert left.final == right.final;
      var step := Serve(right.final, last.key, last.reply);
      assert ServeAll(s, a + b) == Trace(step.next, left.responses + [step.response]);
      assert ServeAll(mid.final, b) == Trace(step.next, right.responses + [step.response]);
      assert left.responses == mid.responses + right.responses;
      AppendAssoc(mid.responses, right.responses, step.response);
    }
  }

  /** Appending one answer after two blocks of answers. */
  lemma AppendAssoc(xs: seq<Reply>, ys: seq<Reply>, z: Reply)
    ensures (xs + ys) + [z] == xs + (ys + [z])
  {
  }

  /** A key cached at the start is never sent to the provider, however many
      requests follow and whether or not the provider fails on other keys. */
  lemma {:induction false} CachedNeverCalled(s: Service, calls: seq<Call>)
    ensures forall k :: k in s.cache ==> k !in ServeAll(s, calls).final.synthesized[|s.synthesized|..]
  {
    var n := |s.synthesized|;
    if calls == [] {
      assert ServeAll(s, calls).final.synthesized[n..] == [];
    } else {
      var init, last := calls[..|calls| - 1], calls[|calls| - 1];
      CachedNeverCalled(s, init);
      ServeAllLast(s, calls);
      var prev := ServeAll(s, init);
      var step := Serve(prev.final, last.key, last.reply);
      if last.key !in prev.final.cache {
        assert step.next.synthesized == prev.final.synthesized + [last.key];
        DropThenAppend(prev.final.synthesized, last.key, n);
        assert last.key !in s.cache;
      }
    }
  }

  /** Once a request for a key has succeeded, no later request calls the
      provider for that key, even when the provider fails on other keys in
      between. The later requests are `b` served where `a` left off, which is
      serving `a + b` (`ServeAllAppend`). */
  lemma SuccessNeverCalledAgain(s: Service, a: seq<Call>, b: seq<Call>)
    requires a != [] && ServeAll(s, a).responses[|a| - 1].Ok?
    ensures var mid := ServeAll(s, a).final;
            a[|a| - 1].key !in ServeAll(mid, b).final.synthesized[|mid.synthesized|..]
  {
    ServeAllAnswersAreCached(s, a, |a| - 1);
    CachedNeverCalled(ServeAll(s, a).final, b);
  }

  /** Serving any sequence of normal-form keys from a valid state, such as the
      state at process start, leaves a valid state. */
  lemma {:induction false} ServeAllKeepsValid(s: Service, calls: seq<Call>)
    requires Valid(s)
    requires forall i :: 0 <= i < |calls| ==> IsNormal(calls[i].key)
    ensures Valid(ServeAll(s, calls).final)
  {
    if calls != [] {
      var init, last := calls[..|calls| - 1], calls[|calls| - 1];
      assert forall i :: 0 <= i < |init| ==> init[i] == calls[i];
      ServeAllKeepsValid(s, init);
      ServeAllLast(s, calls);
      ServeKeepsValid(ServeAll(s, init).final, last.key, last.reply);
    }
  }

  /** Every successful answer is the very entry the cache holds for its key
      once the whole sequence has been served. */
  lemma {:induction false} ServeAllAnswersAreCached(s: Service, calls: seq<Call>, i: nat)
    requires i < |calls|
    requires ServeAll(s, calls).responses[i].Ok?
    ensures calls[i].key in ServeAll(s, calls).final.cache
    ensures ServeAll(s, calls).final.cache[calls[i].key] == ServeAll(s, calls).responses[i].value
  {
    var n := |calls| - 1;
    var init := calls[..n];
    var prev := ServeAll(s, init);
    var step := Serve(prev.final, calls[n].key, calls[n].reply);
    var t := ServeAll(s, calls);
    ServeAllLast(s, calls);
    if i < n {
      assert init[i] == calls[i];
      assert t.responses[i] == prev.responses[i];
      ServeAllAnswersAreCached(s, init, i);
      var k := calls[i].key;
      assert k in prev.final.cache && prev.final.cache[k] == prev.responses[i].value;
      assert k in step.next.cache && step.next.cache[k] == prev.final.cache[k];
    } else {
      assert t.responses[i] == step.response;
    }
  }

  /** Any two successful answers to requests with the same key are the same
      bytes. */
  lemma ServeAllSameKeySameAudio(s: Service, calls: seq<Call>, i: nat, j: nat)
    requires i < |calls| && j < |calls|
    requires calls[i].key == calls[j].key
    requires ServeAll(s, calls).responses[i].Ok? && ServeAll(s, calls).responses[j].Ok?
    ensures ServeAll(s, calls).responses[i] == ServeAll(s, calls).responses[j]
  {
    ServeAllAnswersAreCached(s, calls, i);
    ServeAllAnswersAreCached(s, calls, j);
  }

  /** The provider replies with bytes to every request of the sequence. */
  predicate NeverFails(calls: seq<Call>) {
    forall i :: 0 <= i < |calls| ==> calls[i].reply.Ok?
  }

  /** When the provider never fails, a sequence of requests leaves every key
      it asks for cached, and adds no other key. */
  lemma {:induction false} ServeAllCachesEveryKey(s: Service, calls: seq<Call>)
    requires NeverFails(calls)
    ensures ServeAll(s, calls).final.cache.Keys == s.cache.Keys + KeysOf(calls)
  {
    if calls != [] {
      var init, last := calls[..|calls| - 1], calls[|calls| - 1];
      assert forall i :: 0 <= i < |init| ==> init[i] == calls[i];
      ServeAllCachesEveryKey(s, init);
      ServeAllLast(s, calls);
      var step := Serve(ServeAll(s, init).final, last.key, last.reply);
      assert step.next.cache.Keys == ServeAll(s, init).final.cache.Keys + {last.key};
    }
  }

  /** No key occurs twice. */
  predicate NoDuplicates(xs: seq<Key>) {
    forall i, j :: 0 <= i < j < |xs| ==> xs[i] != xs[j]
  }

  /** When the provider never fails, a sequence of requests calls the
      provider exactly for the keys it asks for that were not already cached,
      and never twice for the same key. */
  lemma {:induction false} ServeAllSynthesizesOncePerKey(s: Service, calls: seq<Call>)
    requires NeverFails(calls)
    ensures NoDuplicates(ServeAll(s, calls).final.synthesized[|s.synthesized|..])
    ensures forall k :: k in ServeAll(s, calls).final.synthesized[|s.synthesized|..] <==>
                        k in KeysOf(calls) && k !in s.cache
  {
    var n := |s.synthesized|;
    var made := ServeAll(s, calls).final.synthesized[n..];
    if calls == [] {
      assert made == [];
    } else {
      var init, last := calls[..|calls| - 1], calls[|calls| - 1];
      assert forall i :: 0 <= i < |init| ==> init[i] == calls[i];
      ServeAllSynthesizesOncePerKey(s, init);
      ServeAllCachesEveryKey(s, init);
      ServeAllLast(s, calls);
      var prev := ServeAll(s, init);
      var made0 := prev.final.synthesized[n..];
      var key := last.key;
      var step := Serve(prev.final, key, last.reply);
      assert KeysOf(calls) == KeysOf(init) + {key};
      if key in prev.final.cache {
        assert made == made0 by {
          assert step.next == prev.final;
        }
      } else {
        assert key !in made0;
        assert step.next.synthesized == prev.final.synthesized + [key];
        DropThenAppend(prev.final.synthesized, key, n);
        AppendNew(made0, key);
      }
    }
  }

  /** Dropping a prefix commutes with appending at the end. */
  lemma DropThenAppend(xs: seq<Key>, x: Key, n: nat)
    requires n <= |xs|
    ensures (xs + [x])[n..] == xs[n..] + [x]
  {
  }

  /** One `/speak` request: its text, and what the provider would reply if
      this request called it. */
  datatype Request = Request(text: string, reply: Reply)

  /** The key-level requests a sequence of `/speak` requests amounts to: each
      text turned into its key, in order. */
  function CallsOf(reqs: seq<Request>): (calls: seq<Call>)
    ensures |calls| == |reqs|
  {
    if reqs == [] then []
    else
      var last := reqs[|reqs| - 1];
      CallsOf(reqs[..|reqs| - 1]) + [Call(Normalize(last.text), last.reply)]
  }

  /** `/speak` requests served one after the other, each by `Speak` on the
      state the previous ones left. Entries present at the start are never
      lost or changed. */
  function SpeakAll(s: Service, reqs: seq<Request>): (t: Trace)
    ensures |t.responses| == |reqs|
    ensures Extends(s.cache, t.final.cache)
  {
    if reqs == [] then Trace(s, [])
    else
      var prev := SpeakAll(s, reqs[..|reqs| - 1]);
      var last := reqs[|reqs| - 1];
      var step := Speak(prev.final, last.text, last.reply);
      Trace(step.next, prev.responses + [step.response])
  }

  /** Serving `/speak` texts is serving their keys: every law stated for
      `ServeAll` holds for a sequence of `/speak` requests. */
  lemma {:induction false} SpeakAllIsServeAll(s: Service, reqs: seq<Request>)
    ensures SpeakAll(s, reqs) == ServeAll(s, CallsOf(reqs))
  {
    if reqs != [] {
      var init, last := reqs[..|reqs| - 1], reqs[|reqs| - 1];
      var calls := CallsOf(reqs);
      SpeakAllIsServeAll(s, init);
      assert calls[..|calls| - 1] == CallsOf(init);
      assert calls[|calls| - 1] == Call(Normalize(last.text), last.reply);
      ServeAllLast(s, calls);
    }
  }

  /** Any sequence of `/speak` requests from a valid state, such as the state
      at process start, leaves a valid state, whatever the texts. */
  lemma {:induction false} SpeakAllKeepsValid(s: Service, reqs: seq<Request>)
    requires Valid(s)
    ensures Valid(SpeakAll(s, reqs).final)
  {
    if reqs != [] {
      var init, last := reqs[..|reqs| - 1], reqs[|reqs| - 1];
      SpeakAllKeepsValid(s, init);
      SpeakKeepsValid(SpeakAll(s, init).final, last.text, last.reply);
    }
  }

  /** Appending a key not yet present keeps a sequence free of duplicates. */
  lemma AppendNew(xs: seq<Key>, x: Key)
    requires NoDuplicates(xs) && x !in xs
    ensures NoDuplicates(xs + [x])
  {
    var ys := xs + [x];
    forall i, j | 0 <= i < j < |ys|
      ensures ys[i] != ys[j]
    {
      assert ys[i] == xs[i];
      if j < |xs| {
        assert ys[j] == xs[j];
      } else {
        assert ys[i] in xs;
      }
    }
  }

  /** The number of provider calls made while the provider never fails is the
      number of distinct keys asked for that were not already cached. */
  lemma ServeAllCallCount(s: Service, calls: seq<Call>)
    requires NeverFails(calls)
    ensures |ServeAll(s, calls).final.synthesized|
            == |s.synthesized| + |KeysOf(calls) - s.cache.Keys|
  {
    var made := ServeAll(s, calls).final.synthesized[|s.synthesized|..];
    ServeAllSynthesizesOncePerKey(s, calls);
    DistinctCount(made);
    assert (set k | k in made) == KeysOf(calls) - s.cache.Keys;
  }

  /** A sequence without duplicates has as many distinct elements as it is
      long. */
  lemma {:induction false} DistinctCount(xs: seq<Key>)
    requires NoDuplicates(xs)
    ensures |set k | k in xs| == |xs|
  {
    if xs != [] {
      var init := xs[..|xs| - 1];
      DistinctCount(init);
      assert (set k | k in xs) == (set k | k in init) + {xs[|xs| - 1]};
      assert xs[|xs| - 1] !in init;
    }
  }
}
