/**
 The client side of document classification: the analyze URL that a document is posted to,
 and the bounded exponential-backoff loop that polls the operation until it reaches a
 terminal status (`_get_classification_results`).

 The GET requests are not made here. The environment is a total function `responses` that
 gives the outcome of the n-th GET (counting from 0); `time.sleep(w)` is modelled as appending
 `w` to the returned schedule of sleeps.
 */
module ClassifyDocument {
  import opened Wrappers

  const ApiType: string := "documentClassifiers"
  const ApiVersion: string := "2024-02-29-preview"

  /** The retry policy of the poll loop. */
  const MaxTries: nat := 15
  const InitialWait: nat := 5
  const MaxWait: nat := 60

  /**
   A parsed JSON response body. `status` is the value of its `"status"` key, `None` when the
   body has no such key; `content` stands for the rest of the body.
   */
  datatype Body = Body(status: Option<string>, content: string)

  /**
   The outcome of one GET: a response whose body parsed as JSON, with its HTTP status code,
   or an exception (from the request or from parsing the body). A body that is the JSON
   literal `null` parses to `None`.
   */
  datatype Response = Http(code: int, body: Option<Body>) | Raised

  // ---------------------------------------------------------------------------------------
  // The analyze URL
  // ---------------------------------------------------------------------------------------

  const UrlInfix: string := "/documentintelligence/documentClassifiers/"
  const UrlSuffix: string := ":analyze?api-version=2024-02-29-preview"

  /** The URL a document is posted to for classification by model `modelId`. */
  function AnalyzeUrl(endpoint: string, modelId: string): (url: string)
    ensures url == endpoint + UrlInfix + modelId + UrlSuffix
  {
    UrlInfixPieces();
    UrlSuffixPieces();
    var infix := "/documentintelligence/" + ApiType + "/";
    var suffix := ":analyze?api-version=" + ApiVersion;
    endpoint + infix + modelId + suffix
  }

  lemma UrlInfixPieces()
    ensures "/documentintelligence/" + ApiType + "/" == UrlInfix
  {
  }

  lemma UrlSuffixPieces()
    ensures ":analyze?api-version=" + ApiVersion == UrlSuffix
  {
  }

  /** Reads the model id back out of an analyze URL built for `endpoint`. */
  function ModelIdOf(url: string, endpoint: string): (r: string)
    requires |endpoint| + |UrlInfix| + |UrlSuffix| <= |url|
  {
    url[|endpoint| + |UrlInfix|..|url| - |UrlSuffix|]
  }

  /** The model id can be recovered from the URL, so distinct models get distinct URLs. */
  lemma AnalyzeUrlRoundTrip(endpoint: string, modelId: string)
    ensures |endpoint| + |UrlInfix| + |UrlSuffix| <= |AnalyzeUrl(endpoint, modelId)|
    ensures ModelIdOf(AnalyzeUrl(endpoint, modelId), endpoint) == modelId
  {
    var url := AnalyzeUrl(endpoint, modelId);
    var lo := |endpoint| + |UrlInfix|;
    assert url == (endpoint + UrlInfix) + modelId + UrlSuffix;
    assert url[lo..|url| - |UrlSuffix|] == modelId;
  }

  // ---------------------------------------------------------------------------------------
  // The backoff schedule
  // ---------------------------------------------------------------------------------------

  function Min(a: int, b: int): (r: int)
  {
    if a <= b then a else b
  }

  function Pow2(n: nat): (r: nat)
  {
    if n == 0 then 1 else 2 * Pow2(n - 1)
  }

  /** `wait_sec` after `n` still-running responses: it starts at 5 s and becomes `min(2 * wait, 60)`. */
  function WaitAfter(n: nat): (w: nat)
    ensures InitialWait <= w <= MaxWait
  {
    if n == 0 then InitialWait else Min(2 * WaitAfter(n - 1), MaxWait)
  }

  /** The sleeps made after `n` still-running responses, in order. */
  function Schedule(n: nat): (s: seq<nat>)
    ensures |s| == n
  {
    if n == 0 then [] else Schedule(n - 1) + [WaitAfter(n - 1)]
  }

  /** The k-th sleep (from 0) of any run with more than `k` sleeps is the wait after `k` retries. */
  lemma {:induction false} ScheduleAt(n: nat, k: nat)
    requires k < n
    ensures Schedule(n)[k] == WaitAfter(k)
  {
    if k < n - 1 {
      ScheduleAt(n - 1, k);
    }
  }

  /** Every sleep lasts between 5 and 60 seconds. */
  lemma ScheduleInRange(n: nat)
    ensures forall k :: 0 <= k < |Schedule(n)| ==> InitialWait <= Schedule(n)[k] <= MaxWait
  {
    forall k | 0 <= k < |Schedule(n)| ensures InitialWait <= Schedule(n)[k] <= MaxWait {
      ScheduleAt(n, k);
    }
  }

  /** Closed form of the backoff: after `n` doublings the wait is `min(5 * 2^n, 60)`. */
  lemma {:induction false} WaitClosedForm(n: nat)
    ensures WaitAfter(n) == Min(InitialWait * Pow2(n), MaxWait)
  {
    if n > 0 {
      WaitClosedForm(n - 1);
      var p := Pow2(n - 1);
      assert Pow2(n) == 2 * p;
      if InitialWait * p <= MaxWait {
        assert WaitAfter(n) == Min(2 * (InitialWait * p), MaxWait);
        assert 2 * (InitialWait * p) == InitialWait * Pow2(n);
      } else {
        assert WaitAfter(n) == MaxWait;
        assert InitialWait * Pow2(n) == 2 * (InitialWait * p);
      }
    }
  }

  /** The k-th sleep (counting from 1) lasts `min(5 * 2^(k-1), 60)` seconds. */
  lemma KthSleep(n: nat, k: nat)
    requires 1 <= k <= n
    ensures Schedule(n)[k - 1] == Min(InitialWait * Pow2(k - 1), MaxWait)
  {
    ScheduleAt(n, k - 1);
    WaitClosedForm(k - 1);
  }

  /** From the fifth sleep on, the wait stays at its 60 s cap. */
  lemma {:induction false} WaitSaturates(n: nat)
    requires n >= 4
    ensures WaitAfter(n) == MaxWait
  {
    if n > 4 {
      WaitSaturates(n - 1);
    } else {
      assert WaitAfter(1) == 10 && WaitAfter(2) == 20 && WaitAfter(3) == 40;
    }
  }

  function Sum(s: seq<nat>): (r: nat)
  {
    if s == [] then 0 else s[0] + Sum(s[1..])
  }

  lemma {:induction false} SumConcat(a: seq<nat>, b: seq<nat>)
    ensures Sum(a + b) == Sum(a) + Sum(b)
  {
    if a != [] {
      assert (a + b)[0] == a[0];
      assert (a + b)[1..] == a[1..] + b;
      SumConcat(a[1..], b);
    } else {
      assert a + b == b;
    }
  }

  lemma {:induction false} SumConstant(n: nat, c: nat)
    ensures Sum(seq(n, _ => c)) == n * c
  {
    if n > 0 {
      assert seq(n, _ => c)[1..] == seq(n - 1, _ => c);
      SumConstant(n - 1, c);
    }
  }

  /** The schedule of a run that uses every attempt: 5, 10, 20, 40 and then eleven sleeps of 60 s, 735 s in all. */
  lemma FullSchedule()
    ensures Schedule(MaxTries) == [5, 10, 20, 40] + seq(11, _ => 60)
    ensures Sum(Schedule(MaxTries)) == 735
  {
    var s := Schedule(MaxTries);
    forall k | 0 <= k < MaxTries ensures s[k] == WaitAfter(k) {
      ScheduleAt(MaxTries, k);
    }
    forall k | 4 <= k < MaxTries ensures s[k] == 60 {
      WaitSaturates(k);
    }
    assert WaitAfter(1) == 10 && WaitAfter(2) == 20 && WaitAfter(3) == 40;
    assert s == [5, 10, 20, 40] + seq(11, _ => 60);
    SumConcat([5, 10, 20, 40], seq(11, _ => 60));
    SumConstant(11, 60);
    assert Sum([5, 10, 20, 40]) == 75 by {
      assert [5, 10, 20, 40][1..] == [10, 20, 40];
      assert [10, 20, 40][1..] == [20, 40];
      assert [20, 40][1..] == [40];
    }
  }

  // ---------------------------------------------------------------------------------------
  // The poll loop
  // ---------------------------------------------------------------------------------------

  /** The analysis is still running: a 200 response whose status is neither "succeeded" nor "failed". */
  predicate StillRunning(r: Response)
  {
    r.Http? && r.code == 200 && r.body.Some? && r.body.value.status.Some?
    && r.body.value.status.value != "succeeded" && r.body.value.status.value != "failed"
  }

  /** The first index at or after `from` whose response ends the loop, or `MaxTries`. */
  function FirstStop(responses: nat -> Response, from: nat): (k: nat)
    requires from <= MaxTries
    ensures from <= k <= MaxTries
    ensures forall j :: from <= j < k ==> StillRunning(responses(j))
    ensures k < MaxTries ==> !StillRunning(responses(k))
    decreases MaxTries - from
  {
    if from == MaxTries || !StillRunning(responses(from)) then from
    else FirstStop(responses, from + 1)
  }

  /** The number of still-running responses before the loop ends: also the number of sleeps. */
  function StopIndex(responses: nat -> Response): (k: nat)
    ensures k <= MaxTries
    ensures forall j :: 0 <= j < k ==> StillRunning(responses(j))
    ensures k < MaxTries ==> !StillRunning(responses(k))
  {
    FirstStop(responses, 0)
  }

  /** The stop index is the only index with the properties StopIndex promises. */
  lemma StopIndexUnique(responses: nat -> Response, n: nat)
    requires n <= MaxTries
    requires forall j :: 0 <= j < n ==> StillRunning(responses(j))
    requires n < MaxTries ==> !StillRunning(responses(n))
    ensures StopIndex(responses) == n
  {
  }

  /** The number of GET requests made: one per still-running response, plus the one that ended the loop. */
  function Queries(responses: nat -> Response): (q: nat)
    ensures q <= MaxTries
  {
    var k := StopIndex(responses);
    if k < MaxTries then k + 1 else MaxTries
  }

  /** `resp_json` after the first `n` GETs: the parsed body of the last response that parsed, or `None`. */
  function LastParsed(responses: nat -> Response, n: nat): (r: Option<Body>)
    ensures n > 0 && responses(n - 1).Http? ==> r == responses(n - 1).body
    ensures (forall j :: 0 <= j < n ==> responses(j).Raised?) ==> r == None
  {
    if n == 0 then None
    else if responses(n - 1).Http? then responses(n - 1).body
    else LastParsed(responses, n - 1)
  }

  /** The number of still-running responses among the first `n`. */
  function CountRunning(responses: nat -> Response, n: nat): (r: nat)
  {
    if n == 0 then 0
    else CountRunning(responses, n - 1) + (if StillRunning(responses(n - 1)) then 1 else 0)
  }

  /**
   `_get_classification_results`: polls until a terminal status, a non-200 response, an
   exception or 15 still-running responses, sleeping with exponential backoff in between.
   Returns the last parsed body, the sleeps made and the number of GETs.
   */
  method GetClassificationResults(responses: nat -> Response)
    returns (respJson: Option<Body>, sleeps: seq<nat>, queries: nat)
    ensures queries == Queries(responses)
    ensures sleeps == Schedule(StopIndex(responses))
    ensures respJson == LastParsed(responses, queries)
  {
    var nTry: nat := 0;
    var waitSec: nat := InitialWait;
    respJson := None;
    sleeps := [];
    queries := 0;
    while nTry < MaxTries
      invariant nTry <= MaxTries
      invariant queries == nTry
      invariant forall j :: 0 <= j < nTry ==> StillRunning(responses(j))
      invariant waitSec == WaitAfter(nTry)
      invariant sleeps == Schedule(nTry)
      invariant respJson == LastParsed(responses, queries)
    {
      var resp := responses(queries);
      queries := queries + 1;
      if resp.Raised? {
        assert !StillRunning(resp);
        break;
      }
      respJson := resp.body;
      if resp.code != 200 {
        assert !StillRunning(resp);
        break;
      }
      if resp.body.None? {
        // indexing a null body raises TypeError, caught by the except clause
        assert !StillRunning(resp);
        break;
      }
      if resp.body.value.status.None? {
        // a body without "status" raises KeyError, caught by the except clause
        assert !StillRunning(resp);
        break;
      }
      var status := resp.body.value.status.value;
      if status == "succeeded" {
        assert !StillRunning(resp);
        break;
      }
      if status == "failed" {
        assert !StillRunning(resp);
        break;
      }
      // still running: sleep, count the attempt and double the wait up to the cap
      sleeps := sleeps + [waitSec];
      nTry := nTry + 1;
      waitSec := Min(2 * waitSec, MaxWait);
    }
    StopIndexUnique(responses, nTry);
  }

  /** The loop makes at most 15 GETs and at most 15 sleeps, and sleeps once less than it queries unless it used every attempt. */
  lemma PollBounded(responses: nat -> Response)
    ensures 1 <= Queries(responses) <= MaxTries
    ensures |Schedule(StopIndex(responses))| <= MaxTries
    ensures StopIndex(responses) < MaxTries ==> |Schedule(StopIndex(responses))| == Queries(responses) - 1
  {
  }

  /** The number of sleeps equals the number of still-running responses the loop received. */
  lemma {:induction false} SleepsCountRunning(responses: nat -> Response)
    ensures |Schedule(StopIndex(responses))| == CountRunning(responses, Queries(responses))
  {
    var k := StopIndex(responses);
    CountRunningPrefix(responses, k);
    if k < MaxTries {
      assert CountRunning(responses, k + 1) == CountRunning(responses, k);
    }
  }

  lemma {:induction false} CountRunningPrefix(responses: nat -> Response, n: nat)
    requires forall j :: 0 <= j < n ==> StillRunning(responses(j))
    ensures CountRunning(responses, n) == n
  {
    if n > 0 {
      CountRunningPrefix(responses, n - 1);
    }
  }

  /** If every response is still running, the loop makes 15 GETs and 15 sleeps and returns the 15th body. */
  lemma AllRunning(responses: nat -> Response)
    requires forall j :: 0 <= j < MaxTries ==> StillRunning(responses(j))
    ensures StopIndex(responses) == MaxTries
    ensures Queries(responses) == MaxTries
    ensures |Schedule(StopIndex(responses))| == MaxTries
    ensures LastParsed(responses, Queries(responses)) == responses(MaxTries - 1).body
  {
    StopIndexUnique(responses, MaxTries);
  }

  /**
   A 200 response with status "succeeded" or "failed" after `k` still-running ones ends the
   loop at once: `k` sleeps, no sleep after it, and that response's body is returned.
   */
  lemma TerminalStatusStops(responses: nat -> Response, k: nat)
    requires k < MaxTries
    requires forall j :: 0 <= j < k ==> StillRunning(responses(j))
    requires responses(k).Http? && responses(k).code == 200 && responses(k).body.Some?
    requires responses(k).body.value.status == Some("succeeded") || responses(k).body.value.status == Some("failed")
    ensures StopIndex(responses) == k && Queries(responses) == k + 1
    ensures Schedule(StopIndex(responses)) == Schedule(k)
    ensures LastParsed(responses, Queries(responses)) == responses(k).body
  {
    StopIndexUnique(responses, k);
  }

  /** A non-200 response after `k` still-running ones ends the loop at once, returning its parsed body. */
  lemma Non200Stops(responses: nat -> Response, k: nat)
    requires k < MaxTries
    requires forall j :: 0 <= j < k ==> StillRunning(responses(j))
    requires responses(k).Http? && responses(k).code != 200
    ensures StopIndex(responses) == k && Queries(responses) == k + 1
    ensures LastParsed(responses, Queries(responses)) == responses(k).body
  {
    StopIndexUnique(responses, k);
  }

  /**
   A 200 response whose body is JSON `null`, or has no `"status"` key, after `k` still-running
   ones ends the loop at once, with no further sleep. Its body is returned, so a `null` body
   makes the result `None`.
   */
  lemma MalformedStops(responses: nat -> Response, k: nat)
    requires k < MaxTries
    requires forall j :: 0 <= j < k ==> StillRunning(responses(j))
    requires responses(k).Http? && responses(k).code == 200
    requires responses(k).body.None? || responses(k).body.value.status.None?
    ensures StopIndex(responses) == k && Queries(responses) == k + 1
    ensures Schedule(StopIndex(responses)) == Schedule(k)
    ensures LastParsed(responses, Queries(responses)) == responses(k).body
  {
    StopIndexUnique(responses, k);
  }

  /**
   An exception after `k` still-running responses ends the loop at once; the result is the
   body parsed before it, or `None` if it came on the first GET.
   */
  lemma RaisedStops(responses: nat -> Response, k: nat)
    requires k < MaxTries
    requires forall j :: 0 <= j < k ==> StillRunning(responses(j))
    requires responses(k).Raised?
    ensures StopIndex(responses) == k && Queries(responses) == k + 1
    ensures LastParsed(responses, Queries(responses))
            == if k == 0 then None else responses(k - 1).body
  {
    StopIndexUnique(responses, k);
  }

  /** Success on the third GET: the loop slept exactly twice, 5 s and then 10 s, and returns that body. */
  lemma SucceedsOnThirdQuery(responses: nat -> Response)
    requires StillRunning(responses(0)) && StillRunning(responses(1))
    requires responses(2).Http? && responses(2).code == 200
    requires responses(2).body.Some? && responses(2).body.value.status == Some("succeeded")
    ensures Queries(responses) == 3
    ensures Schedule(StopIndex(responses)) == [5, 10]
    ensures LastParsed(responses, Queries(responses)) == responses(2).body
  {
    TerminalStatusStops(responses, 2);
  }
}
