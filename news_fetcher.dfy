/**
 * The retry loop of `NewsFetcher.get_daily_news`: up to `retries` calls to
 * the model, returning the first response's text; after each failed call but
 * the last it sleeps for `delay` seconds and doubles `delay`.
 *
 * The remote call is an oracle: `script[i]` is what the i-th call does, and a
 * call beyond the end of the script fails. The sleeps are returned as the list
 * of their durations, in order.
 */
module NewsFetcher {
  import opened Wrappers

  /** What one `generate_content` call does: raise, or return a response with this text. */
  datatype Outcome = Failed | Returned(text: string)

  /** The outcome of the i-th call (counting from 0). */
  function Attempt(script: seq<Outcome>, i: nat): Outcome {
    if i < |script| then script[i] else Failed
  }

  /** `delay` after `k` rounds of `delay *= 2`. */
  function Doubled(delay: nat, k: nat): nat {
    if k == 0 then delay else 2 * Doubled(delay, k - 1)
  }

  function Pow2(k: nat): nat {
    if k == 0 then 1 else 2 * Pow2(k - 1)
  }

  /** After `k` doublings the delay is `delay * 2^k`. */
  lemma {:induction false} DoubledIsPower(delay: nat, k: nat)
    ensures Doubled(delay, k) == delay * Pow2(k)
  {
    if k > 0 {
      DoubledIsPower(delay, k - 1);
      assert delay * (2 * Pow2(k - 1)) == 2 * (delay * Pow2(k - 1));
    }
  }

  /** The first `k` sleeps: `delay`, then twice the one before each time. */
  function Backoff(delay: nat, k: nat): (r: seq<nat>)
    ensures |r| == k
    ensures k > 0 ==> r[0] == delay
    ensures forall j :: 0 < j < k ==> r[j] == 2 * r[j - 1]
  {
    if k == 0 then [] else Backoff(delay, k - 1) + [Doubled(delay, k - 1)]
  }

  /** The j-th sleep (counting from 0) lasts `delay * 2^j` seconds. */
  lemma {:induction false} BackoffIsPower(delay: nat, k: nat, j: nat)
    requires j < k
    ensures Backoff(delay, k)[j] == delay * Pow2(j)
  {
    if j < k - 1 {
      BackoffIsPower(delay, k - 1, j);
    } else {
      DoubledIsPower(delay, j);
    }
  }

  function Total(xs: seq<nat>): nat {
    if xs == [] then 0 else Total(xs[..|xs| - 1]) + xs[|xs| - 1]
  }

  /** `k` sleeps take as long as the delay has grown: `delay * (2^k - 1)` seconds in all. */
  lemma {:induction false} BackoffTotal(delay: nat, k: nat)
    ensures Total(Backoff(delay, k)) + delay == Doubled(delay, k)
  {
    if k > 0 {
      var b := Backoff(delay, k);
      assert b[..k - 1] == Backoff(delay, k - 1);
      BackoffTotal(delay, k - 1);
    }
  }

  /** The first of the first `n` calls that returns, if any. */
  function FirstSuccess(script: seq<Outcome>, n: nat): (r: Option<nat>)
    ensures r.Some? ==> r.value < n && Attempt(script, r.value).Returned?
    ensures r.Some? ==> forall j :: 0 <= j < r.value ==> Attempt(script, j).Failed?
    ensures r.None? <==> forall j :: 0 <= j < n ==> Attempt(script, j).Failed?
  {
    if n == 0 then None
    else match FirstSuccess(script, n - 1)
      case Some(k) => Some(k)
      case None => if Attempt(script, n - 1).Returned? then Some(n - 1) else None
  }

  /** Asking for more calls never changes which one succeeds first, once one has. */
  lemma {:induction false} FirstSuccessStable(script: seq<Outcome>, n: nat, m: nat)
    requires n <= m && FirstSuccess(script, n).Some?
    ensures FirstSuccess(script, m) == FirstSuccess(script, n)
    decreases m - n
  {
    if n < m {
      FirstSuccessStable(script, n, m - 1);
    }
  }

  /**
   * `get_daily_news`: the text of the first successful call, after sleeping
   * `delay`, `2 * delay`, … between failed calls; `None` once `retries` calls
   * have failed, with no sleep after the last. `calls` counts the calls made.
   */
  method GetDailyNews(script: seq<Outcome>, retries: int, delay: nat)
    returns (result: Option<string>, calls: nat, sleeps: seq<nat>)
    ensures retries <= 0 ==> result.None? && calls == 0 && sleeps == []
    ensures retries > 0 && FirstSuccess(script, retries).Some? ==>
      var k := FirstSuccess(script, retries).value;
      result == Some(Attempt(script, k).text) && calls == k + 1 && sleeps == Backoff(delay, k)
    ensures retries > 0 && FirstSuccess(script, retries).None? ==>
      result.None? && calls == retries && sleeps == Backoff(delay, retries - 1)
  {
    var d := delay;
    sleeps := [];
    calls := 0;
    var i := 0;
    while i < retries
      invariant 0 <= i && (i == 0 || i < retries)
      invariant calls == i
      invariant forall j :: 0 <= j < i ==> Attempt(script, j).Failed?
      invariant sleeps == Backoff(delay, i)
      invariant d == Doubled(delay, i)
      decreases retries - i
    {
      calls := calls + 1;
      match Attempt(script, i) {
        case Returned(text) =>
          FirstSuccessAt(script, i, retries);
          return Some(text), calls, sleeps;
        case Failed =>
          if i < retries - 1 {
            sleeps := sleeps + [d];
            d := d * 2;
          } else {
            assert FirstSuccess(script, retries).None?;
            return None, calls, sleeps;
          }
      }
      i := i + 1;
    }
    result := None;
  }

  lemma FirstSuccessAt(script: seq<Outcome>, k: nat, n: nat)
    requires k < n && Attempt(script, k).Returned?
    requires forall j :: 0 <= j < k ==> Attempt(script, j).Failed?
    ensures FirstSuccess(script, n) == Some(k)
  {
    assert FirstSuccess(script, k).None?;
    assert FirstSuccess(script, k + 1) == Some(k);
    FirstSuccessStable(script, k + 1, n);
  }
}
