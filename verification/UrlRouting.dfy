/** How a request is routed: the registered URLs in the map's order, exact match before prefix match. */
module UrlRouting {
  import opened Bytes
  import opened CStrings

  /** A page generator, which the model does not look into. */
  type Generator = nat

  /** A `url_item_t` whose function may be null. */
  datatype UrlItem = UrlItem(url: string, func: Option<Generator>)

  /** The part of the request that `find_exact` looks up. */
  function Key(request: string): string
  {
    Before(request, ' ')
  }

  /** The first item whose URL starts the request, `|items|` if there is none. */
  function PrefixIndex(items: seq<UrlItem>, request: string): (i: nat)
    ensures i <= |items|
    ensures forall j | 0 <= j < i :: !(items[j].url <= request)
    ensures i < |items| ==> items[i].url <= request
  {
    if items == [] || items[0].url <= request then 0 else 1 + PrefixIndex(items[1..], request)
  }

  /** The first item whose URL is the key, `|items|` if there is none. */
  function ExactIndex(items: seq<UrlItem>, key: string): (i: nat)
    ensures i <= |items|
    ensures forall j | 0 <= j < i :: items[j].url != key
    ensures i < |items| ==> items[i].url == key
  {
    if items == [] || items[0].url == key then 0 else 1 + ExactIndex(items[1..], key)
  }

  function FuncAt(items: seq<UrlItem>, i: nat): Option<Generator>
  {
    if i < |items| then items[i].func else None
  }

  /** The handler that the exact lookup alone finds; an empty request is never looked up. */
  function ExactHandler(items: seq<UrlItem>, request: string): Option<Generator>
  {
    if request == [] then None else FuncAt(items, ExactIndex(items, Key(request)))
  }

  /** The handler that the prefix lookup alone finds: what the access point's router serves. */
  function PrefixHandler(items: seq<UrlItem>, request: string): Option<Generator>
  {
    FuncAt(items, PrefixIndex(items, request))
  }

  /** The handler that serves a request, if any: the exact one, else the prefix one. */
  function Route(items: seq<UrlItem>, request: string): Option<Generator>
  {
    if ExactHandler(items, request).Some? then ExactHandler(items, request) else PrefixHandler(items, request)
  }

  /** The text is registered, and every registration of it has this generator. */
  ghost predicate Serves(items: seq<UrlItem>, url: string, g: Generator)
  {
    && UrlItem(url, Some(g)) in items
    && forall x | x in items && x.url == url :: x.func == Some(g)
  }

  /**
   Where a page is registered under the request's path, it is served, wherever in the map's order
   it stands and whatever other URLs begin the request. Only the empty request goes another way,
   and then its page is the one that can begin it.
   */
  lemma {:induction false} ExactPageIsServed(items: seq<UrlItem>, request: string, g: Generator)
    requires Serves(items, Key(request), g)
    ensures Route(items, request) == Some(g)
  {
    var i :| 0 <= i < |items| && items[i] == UrlItem(Key(request), Some(g));
    var e, p := ExactIndex(items, Key(request)), PrefixIndex(items, request);
    assert e <= i && items[e] in items;
    if request == [] {
      assert p <= i && items[p].url == [] && items[p] in items;
    }
  }

  /** Every URL equal to the key begins the request. */
  lemma {:induction false} KeyBegins(request: string)
    ensures Key(request) <= request
  {
    assert request[..|Key(request)|] == Key(request);
  }

  /** No registered handler is null. */
  predicate NoNullHandlers(items: seq<UrlItem>)
  {
    forall i | 0 <= i < |items| :: items[i].func.Some?
  }

  ghost predicate SomePrefix(items: seq<UrlItem>, request: string)
  {
    exists i | 0 <= i < |items| :: items[i].url <= request
  }

  /** The two routers serve the same requests: those that some registered URL begins. */
  lemma {:induction false} RoutersServeTheSame(items: seq<UrlItem>, request: string)
    requires NoNullHandlers(items)
    ensures Route(items, request).Some? <==> PrefixHandler(items, request).Some?
    ensures Route(items, request).Some? <==> SomePrefix(items, request)
  {
    KeyBegins(request);
    var e := ExactIndex(items, Key(request));
    var p := PrefixIndex(items, request);
    if e < |items| {
      assert items[e].url <= request;
    }
    if p < |items| {
      assert SomePrefix(items, request);
    }
  }

  /**
   With null functions they differ, and exactly so: the HTTP server serves a request that the access
   point does not when the path's first registration has a function and the first URL that begins
   the request has none. The other way round does not happen.
   */
  lemma {:induction false} RoutersDifferIff(items: seq<UrlItem>, request: string)
    ensures var e, p := ExactIndex(items, Key(request)), PrefixIndex(items, request);
            (Route(items, request).Some? && PrefixHandler(items, request).None?)
            == (request != [] && FuncAt(items, e).Some? && p < e && items[p].func.None?)
    ensures PrefixHandler(items, request).Some? ==> Route(items, request).Some?
  {
    KeyBegins(request);
    var e, p := ExactIndex(items, Key(request)), PrefixIndex(items, request);
    if e < |items| {
      assert items[e].url <= request;
      assert p <= e;
    }
  }

  /** For instance, a null function registered for "/" at the lower address. */
  lemma {:induction false} NullFunctionHides()
    ensures var items := [UrlItem("/", None), UrlItem("/x", Some(1))];
            Route(items, "/x") == Some(1) && PrefixHandler(items, "/x") == None
  {
    var items := [UrlItem("/", None), UrlItem("/x", Some(1))];
    FirstIs("/x", 0, ' ', 2);
    assert Key("/x") == "/x";
    assert ExactIndex(items, "/x") == 1 && PrefixIndex(items, "/x") == 0;
  }

  /** The same registrations in another order: the map's keys are addresses, not texts. */
  ghost predicate Reordered(a: seq<UrlItem>, b: seq<UrlItem>)
  {
    multiset(a) == multiset(b)
  }

  /** Whatever the addresses, the request goes the same way. */
  ghost predicate OrderFree(items: seq<UrlItem>, request: string)
  {
    forall other: seq<UrlItem> | Reordered(items, other) :: Route(other, request) == Route(items, request)
  }

  /** All URLs that begin the request have the same function. */
  ghost predicate PrefixesAgree(items: seq<UrlItem>, request: string)
  {
    forall x, y | x in items && y in items && x.url <= request && y.url <= request :: x.func == y.func
  }

  /** The request's path is registered, always with the same generator. */
  ghost predicate SureMatch(items: seq<UrlItem>, request: string)
  {
    request != [] && exists g: Generator :: Serves(items, Key(request), g)
  }

  lemma {:induction false} SameItems(a: seq<UrlItem>, b: seq<UrlItem>)
    requires Reordered(a, b)
    ensures forall x :: x in a <==> x in b
  {
    forall x
      ensures x in a <==> x in b
    {
      assert x in a <==> x in multiset(a);
      assert x in b <==> x in multiset(b);
    }
  }

  /** The item moved to the front of the order. */
  function ToFront(items: seq<UrlItem>, i: nat): seq<UrlItem>
    requires i < |items|
  {
    [items[i]] + items[..i] + items[i + 1..]
  }

  lemma {:induction false} ToFrontReorders(items: seq<UrlItem>, i: nat)
    requires i < |items|
    ensures Reordered(items, ToFront(items, i))
  {
    assert items == items[..i] + [items[i]] + items[i + 1..];
  }

  /** No registration of the request's path has a function. */
  ghost predicate NoExact(items: seq<UrlItem>, request: string)
  {
    request == [] || forall x | x in items && x.url == Key(request) :: x.func == None
  }

  /** The item at the front decides, if it is the path's, or begins a request whose path has no function. */
  lemma {:induction false} FrontDecides(items: seq<UrlItem>, request: string)
    requires items != [] && items[0].url <= request
    requires NoExact(items, request) || items[0].url == Key(request)
    ensures Route(items, request) == items[0].func
  {
    var e := ExactIndex(items, Key(request));
    assert e < |items| ==> items[e] in items;
  }

  /** When all URLs that begin the request agree, their function is the answer. */
  lemma {:induction false} AgreedRoute(items: seq<UrlItem>, request: string, x: UrlItem)
    requires PrefixesAgree(items, request) && x in items && x.url <= request
    ensures Route(items, request) == x.func
  {
    KeyBegins(request);
    var e, p := ExactIndex(items, Key(request)), PrefixIndex(items, request);
    assert e < |items| ==> items[e] in items && items[e].url <= request;
    assert p < |items| && items[p] in items;
  }

  lemma {:induction false} NothingBegins(items: seq<UrlItem>, request: string)
    requires forall x | x in items :: !(x.url <= request)
    ensures Route(items, request) == None
  {
    KeyBegins(request);
    assert forall i | 0 <= i < |items| :: items[i] in items;
  }

  lemma {:induction false} ReorderedServesTheSame(items: seq<UrlItem>, other: seq<UrlItem>, request: string)
    requires Reordered(items, other)
    requires SureMatch(items, request) || PrefixesAgree(items, request)
    ensures Route(other, request) == Route(items, request)
  {
    SameItems(items, other);
    if SureMatch(items, request) {
      var g: Generator :| Serves(items, Key(request), g);
      ExactPageIsServed(items, request, g);
      ExactPageIsServed(other, request, g);
    } else if x :| x in items && x.url <= request {
      AgreedRoute(items, request, x);
      AgreedRoute(other, request, x);
    } else {
      NothingBegins(items, request);
      NothingBegins(other, request);
    }
  }

  /** Two items, each of which decides when at the front, with different functions: two orders that differ. */
  lemma {:induction false} TwoOrders(items: seq<UrlItem>, request: string, x: UrlItem, y: UrlItem)
    requires x in items && y in items && x.func != y.func
    requires x.url <= request && y.url <= request
    requires NoExact(items, request) || x.url == y.url == Key(request)
    ensures !OrderFree(items, request)
  {
    var i :| 0 <= i < |items| && items[i] == x;
    var j :| 0 <= j < |items| && items[j] == y;
    ToFrontReorders(items, i);
    ToFrontReorders(items, j);
    SameItems(items, ToFront(items, i));
    SameItems(items, ToFront(items, j));
    FrontDecides(ToFront(items, i), request);
    FrontDecides(ToFront(items, j), request);
  }

  /**
   The addresses that order the map make no difference exactly when the path itself is registered,
   with one generator, or all URLs that begin the request have one function.
   */
  lemma {:induction false} OrderFreeIff(items: seq<UrlItem>, request: string)
    ensures OrderFree(items, request) <==> SureMatch(items, request) || PrefixesAgree(items, request)
  {
    if SureMatch(items, request) || PrefixesAgree(items, request) {
      forall other: seq<UrlItem> | Reordered(items, other)
        ensures Route(other, request) == Route(items, request)
      {
        ReorderedServesTheSame(items, other, request);
      }
    } else if NoExact(items, request) {
      var x, y :| x in items && y in items && x.url <= request && y.url <= request && x.func != y.func;
      TwoOrders(items, request, x, y);
    } else {
      var x :| x in items && x.url == Key(request) && x.func != None;
      assert x == UrlItem(Key(request), Some(x.func.value));
      assert !Serves(items, Key(request), x.func.value);
      var y :| y in items && y.url == Key(request) && y.func != x.func;
      KeyBegins(request);
      TwoOrders(items, request, x, y);
    }
  }

  /** One text at two addresses with different generators: the path is registered, and still order decides. */
  lemma {:induction false} SameTextTwice()
    ensures var items := [UrlItem("/x", Some(1)), UrlItem("/x", Some(2))];
            UrlItem(Key("/x"), Some(1)) in items && !OrderFree(items, "/x")
  {
    var items := [UrlItem("/x", Some(1)), UrlItem("/x", Some(2))];
    FirstIs("/x", 0, ' ', 2);
    assert Key("/x") == "/x";
    assert items[0] in items && items[1] in items;
    TwoOrders(items, "/x", items[0], items[1]);
  }

  /** Two URLs that both begin a request for neither: the one at the lower address is served. */
  lemma {:induction false} TwoPrefixes()
    ensures var a, b := UrlItem("/temp", Some(1)), UrlItem("/tempC", Some(2));
            Route([a, b], "/tempC/x") == Some(1) && Route([b, a], "/tempC/x") == Some(2)
  {
    var a, b := UrlItem("/temp", Some(1)), UrlItem("/tempC", Some(2));
    FirstIs("/tempC/x", 0, ' ', 8);
    assert Key("/tempC/x") == "/tempC/x";
    assert NoExact([a, b], "/tempC/x") && NoExact([b, a], "/tempC/x");
    FrontDecides([a, b], "/tempC/x");
    FrontDecides([b, a], "/tempC/x");
  }
}
