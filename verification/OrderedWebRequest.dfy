/**
 `app/src/main-process/ordered-webrequest.ts`: calling several web request filters in order, and the sets
 of listeners they are kept in. One event is one atomic step here.
 */
module OrderedWebRequest {
  import opened Strings

  type Headers = map<string, string>

  datatype Url = Url(protocol: string, origin: string, host: string, pathname: string)

  datatype Details = Details(id: int, url: Url, requestHeaders: Headers)

  /** A header of a response has one value or several. */
  datatype HeaderValue = One(value: string) | Several(values: seq<string>)

  datatype Response = Response(cancel: bool, requestHeaders: Option<map<string, HeaderValue>>)

  type HeadersListener = Details -> Response

  function FlattenValue(v: HeaderValue): string {
    match v
    case One(value) => value
    case Several(values) => Join(values, ',')
  }

  function FlattenHeaders(headers: map<string, HeaderValue>): Headers {
    map k | k in headers :: FlattenValue(headers[k])
  }

  /** The details after the listeners from `k` on; a cancelled request stops them, but the details remain. */
  function AfterListeners(listeners: seq<HeadersListener>, k: nat, details: Details): Details
    decreases |listeners| - k
  {
    if k >= |listeners| then details
    else
      var response := listeners[k](details);
      if response.cancel then details
      else AfterListeners(listeners, k + 1,
                          if response.requestHeaders.Some?
                          then details.(requestHeaders := FlattenHeaders(response.requestHeaders.value)) else details)
  }

  /**
   If a listener cancels the request, with whatever headers in its response, the details are those it was
   called with: its response is lost and the listeners behind it are not called.
   */
  lemma {:induction false} CancelKeepsDetails(listeners: seq<HeadersListener>, k: nat, j: nat, details: Details)
    requires k <= j < |listeners| && listeners[j](AfterListeners(listeners[..j], k, details)).cancel
    ensures AfterListeners(listeners, k, details) == AfterListeners(listeners[..j], k, details)
    decreases j - k
  {
    if k < j {
      var response := listeners[k](details);
      if !response.cancel {
        CancelKeepsDetails(listeners, k + 1, j,
                           if response.requestHeaders.Some?
                           then details.(requestHeaders := FlattenHeaders(response.requestHeaders.value)) else details);
      }
    }
  }

  /** What a listener leaves: the headers of its response, if it has any, in place of those it was called with. */
  function Stage(listener: HeadersListener, details: Details): Details {
    var response := listener(details);
    if response.requestHeaders.Some? then details.(requestHeaders := FlattenHeaders(response.requestHeaders.value))
    else details
  }

  /** None of the listeners from `k` on cancels, each called with what the one before left. */
  predicate NoneCancels(listeners: seq<HeadersListener>, k: nat, details: Details)
    decreases |listeners| - k
  {
    k < |listeners| ==>
      !listeners[k](details).cancel && NoneCancels(listeners, k + 1, Stage(listeners[k], details))
  }

  /** One listener more is called, with what those before it left, and its own headers count if it does not cancel. */
  lemma {:induction false} LastListenerDecides(listeners: seq<HeadersListener>, k: nat, last: HeadersListener,
                                               details: Details)
    requires k <= |listeners| && NoneCancels(listeners, k, details)
    ensures var left := AfterListeners(listeners, k, details);
      AfterListeners(listeners + [last], k, details) == if last(left).cancel then left else Stage(last, left)
    decreases |listeners| - k
  {
    if k < |listeners| {
      LastListenerDecides(listeners, k + 1, last, Stage(listeners[k], details));
    } else {
      var l := listeners + [last];
      assert AfterListeners(l, k + 1, Stage(last, details)) == Stage(last, details);
    }
  }

  /** The next listener sees a header with several values as one text, from which they can be read. */
  lemma SeveralValuesAreJoined(headers: map<string, HeaderValue>, k: string)
    requires k in headers
    ensures k in FlattenHeaders(headers) && FlattenHeaders(headers).Keys == headers.Keys
    ensures headers[k].One? ==> FlattenHeaders(headers)[k] == headers[k].value
    ensures headers[k].Several? && headers[k].values != [] && Free(headers[k].values, ',') ==>
              Split(FlattenHeaders(headers)[k], ',') == headers[k].values
  {
    if headers[k].Several? && headers[k].values != [] && Free(headers[k].values, ',') {
      SplitOfJoin(headers[k].values, ',');
    }
  }

  /** The handler of `onBeforeSendHeaders`. */
  method CallInOrder(listeners: seq<HeadersListener>, initialDetails: Details) returns (details: Details)
    ensures details == AfterListeners(listeners, 0, initialDetails)
  {
    details := initialDetails;
    for k := 0 to |listeners|
      invariant AfterListeners(listeners, k, details) == AfterListeners(listeners, 0, initialDetails)
    {
      var response := listeners[k](details);
      if response.cancel {
        return;
      }
      if response.requestHeaders.Some? {
        var requestHeaders := FlattenHeaders(response.requestHeaders.value);
        details := details.(requestHeaders := requestHeaders);
      }
    }
  }

  /** A set of listeners in the order they were added; it is subscribed to its event while it is not empty. */
  class ListenerSet<L(==)> {
    var listeners: seq<L>
    var subscribed: bool

    ghost predicate Valid()
      reads this
    {
      && (subscribed <==> |listeners| > 0)
      && forall i, j :: 0 <= i < j < |listeners| ==> listeners[i] != listeners[j]
    }

    constructor ()
      ensures Valid() && listeners == []
    {
      listeners, subscribed := [], false;
    }

    method AddEventListener(listener: L)
      requires Valid()
      modifies this
      ensures Valid()
      ensures listeners == if listener in old(listeners) then old(listeners) else old(listeners) + [listener]
    {
      var firstListener := |listeners| == 0;
      if listener !in listeners {
        listeners := listeners + [listener];
      }
      if firstListener {
        subscribed := true;
      }
    }

    method RemoveEventListener(listener: L)
      requires Valid()
      modifies this
      ensures Valid()
      ensures listeners == Without(old(listeners), listener)
      ensures listener !in old(listeners) ==> listeners == old(listeners)
      ensures forall k :: 0 <= k < |old(listeners)| && old(listeners)[k] == listener ==>
                listeners == old(listeners)[..k] + old(listeners)[k + 1..]
    {
      WithoutIsDistinct(listeners, listener);
      WithoutIs(listeners, listener);
      listeners := Without(listeners, listener);
      if |listeners| == 0 {
        subscribed := false;
      }
    }
  }

  /** The list without an element, the others in their order. */
  function Without<L(==)>(s: seq<L>, x: L): seq<L> {
    if |s| == 0 then []
    else if s[|s| - 1] == x then Without(s[..|s| - 1], x)
    else Without(s[..|s| - 1], x) + [s[|s| - 1]]
  }

  lemma {:induction false} WithoutIsDistinct<L>(s: seq<L>, x: L)
    requires forall i, j :: 0 <= i < j < |s| ==> s[i] != s[j]
    ensures var r := Without(s, x);
      && (forall i, j :: 0 <= i < j < |r| ==> r[i] != r[j])
      && (forall y :: y in r <==> y in s && y != x)
      && |r| <= |s|
    decreases |s|
  {
    if |s| > 0 {
      WithoutIsDistinct(s[..|s| - 1], x);
      var r := Without(s[..|s| - 1], x);
      forall y ensures y in Without(s, x) <==> y in s && y != x {
        assert y in s <==> y in s[..|s| - 1] || y == s[|s| - 1];
      }
      assert forall i :: 0 <= i < |r| ==> r[i] in r;
    }
  }

  /** Of distinct elements just that one goes, and the others keep their order. */
  lemma {:induction false} WithoutIs<L>(s: seq<L>, x: L)
    requires forall i, j :: 0 <= i < j < |s| ==> s[i] != s[j]
    ensures x !in s ==> Without(s, x) == s
    ensures forall k :: 0 <= k < |s| && s[k] == x ==> Without(s, x) == s[..k] + s[k + 1..]
    decreases |s|
  {
    if |s| > 0 {
      var front, last := s[..|s| - 1], s[|s| - 1];
      WithoutIs(front, x);
      assert s == front + [last];
      forall k | 0 <= k < |s| && s[k] == x ensures Without(s, x) == s[..k] + s[k + 1..] {
        if k < |front| {
          assert front[k] == x && front[..k] + front[k + 1..] + [last] == s[..k] + s[k + 1..];
        } else {
          assert x !in front && s[..k] + s[k + 1..] == front;
        }
      }
    }
  }
}
