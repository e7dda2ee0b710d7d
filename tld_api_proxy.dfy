/** The caching proxy in front of the traffic-light data API (tld_api_proxy.js):
    one observer per data stream keeps the newest observations, newest first;
    `getData` picks or replaces the observer and returns its first `nvalues`
    entries. Observations are opaque to the proxy: a type parameter `D`. */
module TldApiProxy {
  import opened Wrappers

  /** `N_VALUES_DEFAULT`: how many values `getData` returns when none is asked for. */
  const N_VALUES_DEFAULT: int := 10

  /** The first `k` entries of `s`, or all of them when there are fewer. */
  function Take<D>(s: seq<D>, k: nat): (r: seq<D>)
    ensures |r| == if k < |s| then k else |s|
    ensures r <= s
  {
    if k < |s| then s[..k] else s
  }

  /** The buffer after `onNewData(d)` with capacity `n`: the old entries
      beyond the newest `n - 1` are dropped and `d` goes in front. */
  function AfterNewData<D>(values: seq<D>, n: int, d: D): (r: seq<D>)
    requires n >= 1
    ensures |r| >= 1 && r[0] == d
    ensures |r| <= n && |r| <= |values| + 1
    ensures r[1..] <= values
    // nothing is dropped while the buffer has room
    ensures |values| < n ==> r == [d] + values
  {
    [d] + Take(values, n - 1)
  }

  /** The buffer after a stream of observations arrives, oldest first. */
  function Feed<D>(values: seq<D>, n: int, ds: seq<D>): (r: seq<D>)
    requires n >= 1
    // once anything has arrived, the buffer is never empty and never overfull
    ensures |ds| >= 1 ==> 1 <= |r| <= n
    decreases |ds|
  {
    if |ds| == 0 then values else AfterNewData(Feed(values, n, ds[..|ds| - 1]), n, ds[|ds| - 1])
  }

  /** `s` newest first: its last element in front. */
  function Reverse<D>(s: seq<D>): (r: seq<D>)
    ensures |r| == |s|
    ensures |s| >= 1 ==> r[0] == s[|s| - 1]
  {
    if |s| == 0 then [] else [s[|s| - 1]] + Reverse(s[..|s| - 1])
  }

  /** Once anything has arrived, the buffer holds the newest `n` observations
      of everything it has seen, newest first. */
  lemma {:induction false} FeedKeepsNewest<D>(values: seq<D>, n: int, ds: seq<D>)
    requires n >= 1 && |ds| >= 1
    ensures Feed(values, n, ds) == Take(Reverse(ds) + values, n)
    decreases |ds|
  {
    var p, last := ds[..|ds| - 1], ds[|ds| - 1];
    var before := Feed(values, n, p);
    if |ds| == 1 {
      assert before == values;
      assert Reverse(ds) == [last];
    } else {
      FeedKeepsNewest(values, n, p);
      assert before == Take(Reverse(p) + values, n);
    }
    NewDataOfTake(Reverse(p) + values, n, last);
    assert [last] + (Reverse(p) + values) == Reverse(ds) + values;
  }

  /** Feeding `d` to the newest `n` of `s` keeps the newest `n` of `[d] + s`. */
  lemma NewDataOfTake<D>(s: seq<D>, n: int, d: D)
    requires n >= 1
    ensures AfterNewData(Take(s, n), n, d) == Take([d] + s, n)
  {
    if n < |s| {
      assert s[..n][..n - 1] == s[..n - 1];
    }
  }

  /** The newest observation is always in front. */
  lemma LastInFront<D>(values: seq<D>, n: int, ds: seq<D>)
    requires n >= 1 && |ds| >= 1
    ensures Feed(values, n, ds)[0] == ds[|ds| - 1]
  {
    FeedKeepsNewest(values, n, ds);
  }

  /** `values.length == nvalues ? values : values.slice(0, nvalues)`, with
      JavaScript's `slice`: a negative end counts from the back. */
  function Front<D>(values: seq<D>, n: int): (r: seq<D>)
    ensures r <= values
  {
    if |values| == n then values
    else if n >= 0 then Take(values, n)
    else if |values| + n >= 0 then values[..|values| + n]
    else []
  }

  /** What `getData` hands out for a request of `n >= 0` values. */
  lemma FrontIsFirst<D>(values: seq<D>, n: int)
    requires n >= 0
    ensures Front(values, n) == values[..if n < |values| then n else |values|]
    ensures |Front(values, n)| == if n < |values| then n else |values|
  {
  }

  /** JavaScript's `<` on two strings: lexicographic, character by character.
      A `char` here is a Unicode scalar value where JavaScript compares UTF-16
      code units; the two orders agree on the digit strings of the query. */
  function StringLess(a: string, b: string): (r: bool)
    // a proper prefix is smaller
    ensures |a| < |b| && a == b[..|a|] ==> r
    ensures r ==> a != b
    decreases |a|
  {
    if |a| == 0 then |b| > 0
    else if |b| == 0 then false
    else if a[0] != b[0] then a[0] < b[0]
    else StringLess(a[1..], b[1..])
  }

  /** The replacement test `observer.nvalues < nvalues` as written, when both
      counts come from the `nvalues` query parameter and are therefore strings. */
  function ReplacesAsWritten(existing: string, requested: string): (r: bool)
    // the first character decides, whatever the lengths
    ensures |existing| >= 1 && |requested| >= 1 && existing[0] > requested[0] ==> !r
    ensures |existing| >= 1 && |requested| >= 1 && existing[0] < requested[0] ==> r
  {
    StringLess(existing, requested)
  }

  /** Comparing the query strings misses larger requests: an observer made for
      "9" values is kept for a request of "10", and one made for "10" is
      replaced for a request of "9". */
  lemma {:induction false} QueryStringComparison()
    ensures !ReplacesAsWritten("9", "10")
    ensures ReplacesAsWritten("10", "9")
  {
    assert "9"[0] == '9' && "10"[0] == '1';
  }

  /** `DatastreamObserver`: the newest `nvalues` observations of one data
      stream, newest first. */
  class DatastreamObserver<D> {
    const datastreamId: string
    const nvalues: int
    var values: seq<D>

    constructor(datastreamId: string, nvalues: int)
      ensures this.datastreamId == datastreamId && this.nvalues == nvalues
      ensures values == []
    {
      this.datastreamId := datastreamId;
      this.nvalues := nvalues;
      values := [];
    }

    /** `onNewData`: pops from the back until there is room, then puts `data`
        in front. With `nvalues <= 0` the popping never stops. */
    method OnNewData(data: D)
      requires nvalues >= 1
      modifies this
      ensures values == AfterNewData(old(values), nvalues, data)
    {
      while |values| >= nvalues
        invariant values <= old(values)
        invariant |values| < |old(values)| ==> |values| >= nvalues - 1
        decreases |values|
      {
        values := values[..|values| - 1];
      }
      values := [data] + values;
    }

    /** `getValues`: on the first call (an empty buffer) the buffer is filled
        with the answer of the initial request, `initial`. */
    method GetValues(initial: seq<D>) returns (vs: seq<D>)
      modifies this
      ensures old(values) == [] ==> values == initial
      ensures old(values) != [] ==> values == old(values)
      ensures vs == values
    {
      if |values| == 0 {
        values := values + initial;
      }
      vs := values;
    }
  }

  /** `OBSERVER_MAP`: the observer of every data stream that is being watched. */
  class ObserverRegistry<D> {
    var observers: map<string, DatastreamObserver<D>>

    constructor()
      ensures observers == map[]
    {
      observers := map[];
    }

    /** Every observer is filed under its own data stream. */
    ghost predicate Valid()
      reads this, observers.Values
    {
      forall id :: id in observers ==> observers[id].datastreamId == id
    }

    /** `evict`: the observer's data stream is no longer watched. */
    method Evict(observer: DatastreamObserver<D>)
      modifies this
      ensures observers == old(observers) - {observer.datastreamId}
    {
      observers := observers - {observer.datastreamId};
    }

    /** `getData`: an observer with room for fewer values than asked for is
        replaced by a new one; the result is the front of its buffer.
        `initial` stands for the answer of the initial request. */
    method GetData(datastreamId: string, nvalues: Option<int>, initial: seq<D>)
      returns (vs: seq<D>, observer: DatastreamObserver<D>)
      requires Valid()
      modifies this, observers.Values
      ensures Valid()
      ensures observers == old(observers)[datastreamId := observer]
      // the other data streams keep their observers and buffers
      ensures forall id :: id in old(observers) && id != datastreamId ==>
                observers[id] == old(observers[id]) && observers[id].values == old(observers[id].values)
      ensures observer.datastreamId == datastreamId
      ensures var n := nvalues.GetOr(N_VALUES_DEFAULT);
              if datastreamId in old(observers) && n <= old(observers[datastreamId].nvalues)
              then observer == old(observers[datastreamId])
              else fresh(observer) && observer.nvalues == n
      ensures old(allocated(observer)) && old(observer.values) != [] ==> observer.values == old(observer.values)
      ensures !old(allocated(observer)) || old(observer.values) == [] ==> observer.values == initial
      ensures vs == Front(observer.values, nvalues.GetOr(N_VALUES_DEFAULT))
    {
      var n := nvalues.GetOr(N_VALUES_DEFAULT);
      if datastreamId !in observers {
        observer := new DatastreamObserver(datastreamId, n);
        observers := observers[datastreamId := observer];
      } else if observers[datastreamId].nvalues < n {
        Evict(observers[datastreamId]);
        observer := new DatastreamObserver(datastreamId, n);
        observers := observers[datastreamId := observer];
      } else {
        observer := observers[datastreamId];
      }
      var values := observer.GetValues(initial);
      vs := Front(values, n);
    }
  }
}
