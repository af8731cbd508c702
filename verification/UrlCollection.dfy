/** The registry of page generators, a map ordered by the address of the URL's text, and its two routers. */
module UrlCollection {
  import opened Bytes
  import opened CStrings
  import opened UrlRouting

  /** A `const char*` used as a key: the map compares addresses, not texts. */
  type Address = nat

  datatype Entry = Entry(address: Address, item: UrlItem)

  /** `request_url` in find_exact. */
  const KEY_SIZE: nat := 512

  predicate Ascending(entries: seq<Entry>)
  {
    forall i, j | 0 <= i < j < |entries| :: entries[i].address < entries[j].address
  }

  /** The map that the ascending entries stand for. */
  function AsMap(entries: seq<Entry>): map<Address, UrlItem>
  {
    if entries == [] then map[]
    else AsMap(entries[..|entries| - 1])[entries[|entries| - 1].address := entries[|entries| - 1].item]
  }

  /** The items in the order a loop over the map meets them. */
  function Items(entries: seq<Entry>): (items: seq<UrlItem>)
    ensures |items| == |entries|
    ensures forall i | 0 <= i < |items| :: items[i] == entries[i].item
  {
    if entries == [] then [] else Items(entries[..|entries| - 1]) + [entries[|entries| - 1].item]
  }

  /** Every entry is in the map. */
  lemma {:induction false} EntryIsHeld(entries: seq<Entry>, i: nat)
    requires Ascending(entries) && i < |entries|
    ensures entries[i].address in AsMap(entries) && AsMap(entries)[entries[i].address] == entries[i].item
    decreases |entries|
  {
    var n := |entries| - 1;
    if i < n {
      EntryIsHeld(entries[..n], i);
      assert entries[i].address < entries[n].address;
    }
  }

  /** And everything in the map is an entry. */
  lemma {:induction false} HeldIsEntry(entries: seq<Entry>, a: Address) returns (i: nat)
    requires Ascending(entries) && a in AsMap(entries)
    ensures i < |entries| && entries[i].address == a && entries[i].item == AsMap(entries)[a]
    decreases |entries|
  {
    var n := |entries| - 1;
    if a == entries[n].address {
      i := n;
    } else {
      i := HeldIsEntry(entries[..n], a);
    }
  }

  /** The item is registered at some address. */
  ghost predicate Holds(urls: map<Address, UrlItem>, x: UrlItem)
  {
    exists a :: a in urls && urls[a] == x
  }

  /** A loop over the map meets exactly the items that are registered. */
  lemma {:induction false} ItemsAreRegistered(entries: seq<Entry>, x: UrlItem)
    requires Ascending(entries)
    ensures x in Items(entries) <==> Holds(AsMap(entries), x)
  {
    var urls := AsMap(entries);
    if x in Items(entries) {
      var i :| 0 <= i < |entries| && Items(entries)[i] == x;
      EntryIsHeld(entries, i);
      assert urls[entries[i].address] == x;
    }
    if Holds(urls, x) {
      var a :| a in urls && urls[a] == x;
      var i := HeldIsEntry(entries, a);
      assert Items(entries)[i] == x;
    }
  }

  /** Entry `i` has the least address of all URLs that begin the request; `|entries|` if there is none. */
  ghost predicate LeastBeginning(entries: seq<Entry>, i: nat, request: string)
  {
    var urls := AsMap(entries);
    if i < |entries| then
      && entries[i].address in urls && urls[entries[i].address] == entries[i].item
      && entries[i].item.url <= request
      && forall a :: a in urls && urls[a].url <= request ==> entries[i].address <= a
    else i == |entries| && forall a :: a in urls ==> !(urls[a].url <= request)
  }

  /** Entry `i` has the least address of all URLs that are the key; `|entries|` if there is none. */
  ghost predicate LeastEqual(entries: seq<Entry>, i: nat, key: string)
  {
    var urls := AsMap(entries);
    if i < |entries| then
      && entries[i].address in urls && urls[entries[i].address] == entries[i].item
      && entries[i].item.url == key
      && forall a :: a in urls && urls[a].url == key ==> entries[i].address <= a
    else i == |entries| && forall a :: a in urls ==> urls[a].url != key
  }

  /** In an ordered map the first entry is the one at the least address. */
  lemma {:induction false} PrefixIsLeast(entries: seq<Entry>, request: string)
    requires Ascending(entries)
    ensures LeastBeginning(entries, PrefixIndex(Items(entries), request), request)
  {
    var urls, i := AsMap(entries), PrefixIndex(Items(entries), request);
    if i < |entries| {
      EntryIsHeld(entries, i);
    }
    forall a | a in urls && urls[a].url <= request
      ensures i < |entries| && entries[i].address <= a
    {
      var j := HeldIsEntry(entries, a);
      assert Items(entries)[j].url <= request;
    }
  }

  lemma {:induction false} ExactIsLeast(entries: seq<Entry>, key: string)
    requires Ascending(entries)
    ensures LeastEqual(entries, ExactIndex(Items(entries), key), key)
  {
    var urls, i := AsMap(entries), ExactIndex(Items(entries), key);
    if i < |entries| {
      EntryIsHeld(entries, i);
    }
    forall a | a in urls && urls[a].url == key
      ensures i < |entries| && entries[i].address <= a
    {
      var j := HeldIsEntry(entries, a);
      assert Items(entries)[j].url == key;
    }
  }

  /** The least address whose URL begins the request. */
  ghost predicate Begins(urls: map<Address, UrlItem>, a: Address, request: string)
  {
    a in urls && urls[a].url <= request && forall b | b in urls && urls[b].url <= request :: a <= b
  }

  /** The least address whose URL is the path. */
  ghost predicate Equals(urls: map<Address, UrlItem>, a: Address, path: string)
  {
    a in urls && urls[a].url == path && forall b | b in urls && urls[b].url == path :: a <= b
  }

  /** The path of the request, up to a space, has a function at its least address. */
  ghost predicate HasExact(urls: map<Address, UrlItem>, a: Address, request: string)
  {
    request != "" && Equals(urls, a, Before(request, ' ')) && urls[a].func.Some?
  }

  /** The handler is the function at the least address whose URL begins the request, if there is one. */
  ghost predicate LeadsTo(urls: map<Address, UrlItem>, request: string, h: Option<Generator>)
  {
    && (forall a | Begins(urls, a, request) :: h == urls[a].func)
    && ((forall a | a in urls :: !(urls[a].url <= request)) ==> h == None)
  }

  /** It is the function at the path's least address; if there is none there, that of prefix match. */
  ghost predicate RoutesTo(urls: map<Address, UrlItem>, request: string, h: Option<Generator>)
  {
    && (forall a | HasExact(urls, a, request) :: h == urls[a].func)
    && ((forall a :: !HasExact(urls, a, request)) ==> LeadsTo(urls, request, h))
  }

  /** Prefix match goes by addresses. */
  lemma {:induction false} PrefixByAddress(entries: seq<Entry>, request: string)
    requires Ascending(entries)
    ensures LeadsTo(AsMap(entries), request, PrefixHandler(Items(entries), request))
  {
    PrefixIsLeast(entries, request);
  }

  lemma {:induction false} ExactByAddress(entries: seq<Entry>, request: string, a: Address)
    requires Ascending(entries)
    ensures HasExact(AsMap(entries), a, request) ==> ExactHandler(Items(entries), request) == AsMap(entries)[a].func
  {
    ExactIsLeast(entries, Key(request));
  }

  lemma {:induction false} ExactHasAddress(entries: seq<Entry>, request: string) returns (a: Address)
    requires Ascending(entries) && ExactHandler(Items(entries), request).Some?
    ensures HasExact(AsMap(entries), a, request)
  {
    var e := ExactIndex(Items(entries), Key(request));
    ExactIsLeast(entries, Key(request));
    a := entries[e].address;
  }

  /** And so does routing. */
  lemma {:induction false} RouteByAddress(entries: seq<Entry>, request: string)
    requires Ascending(entries)
    ensures RoutesTo(AsMap(entries), request, Route(Items(entries), request))
  {
    forall a | HasExact(AsMap(entries), a, request)
      ensures ExactHandler(Items(entries), request) == AsMap(entries)[a].func
    {
      ExactByAddress(entries, request, a);
    }
    if ExactHandler(Items(entries), request).Some? {
      var a := ExactHasAddress(entries, request);
    } else {
      PrefixByAddress(entries, request);
    }
  }

  /** The text is registered at some address, and wherever it is registered it has this generator. */
  ghost predicate RegisteredAs(urls: map<Address, UrlItem>, url: string, g: Generator)
  {
    Holds(urls, UrlItem(url, Some(g))) && forall x | Holds(urls, x) && x.url == url :: x.func == Some(g)
  }

  /** So what is registered is what routing finds. */
  lemma {:induction false} RegisteredServes(entries: seq<Entry>, url: string, g: Generator)
    requires Ascending(entries)
    ensures RegisteredAs(AsMap(entries), url, g) <==> Serves(Items(entries), url, g)
  {
    forall x
      ensures x in Items(entries) <==> Holds(AsMap(entries), x)
    {
      ItemsAreRegistered(entries, x);
    }
  }

  /** The entries with `e` put at index `i`, replacing the entry there if it has the same address. */
  function Put(entries: seq<Entry>, i: nat, e: Entry): seq<Entry>
    requires i <= |entries|
  {
    if i < |entries| && entries[i].address == e.address then entries[i := e]
    else entries[..i] + [e] + entries[i..]
  }

  /** The index is where an entry with this address belongs. */
  predicate Belongs(entries: seq<Entry>, i: nat, a: Address)
  {
    && i <= |entries|
    && (forall k | 0 <= k < i :: entries[k].address < a)
    && (forall k | i <= k < |entries| :: a <= entries[k].address)
  }

  /** Put where it belongs, an entry keeps the order. */
  lemma {:induction false} PutAscends(entries: seq<Entry>, i: nat, e: Entry)
    requires Ascending(entries) && Belongs(entries, i, e.address)
    ensures Ascending(Put(entries, i, e))
  {
    var after := Put(entries, i, e);
    var shift := |after| - |entries|;
    assert forall k | 0 <= k < i :: after[k] == entries[k];
    assert forall k | i < k < |after| :: after[k] == entries[k - shift];
  }

  /** And it updates the map. */
  lemma {:induction false} PutUpdates(entries: seq<Entry>, i: nat, e: Entry)
    requires Ascending(entries) && Belongs(entries, i, e.address)
    ensures AsMap(Put(entries, i, e)) == AsMap(entries)[e.address := e.item]
    decreases |entries|
  {
    var n := |entries| - 1;
    if i == |entries| {
      assert Put(entries, i, e) == entries + [e];
      AsMapAppend(entries, e);
    } else if i == n && entries[n].address == e.address {
      assert Put(entries, i, e) == entries[..n] + [e];
      AsMapAppend(entries[..n], e);
    } else {
      BelongsBefore(entries, i, e.address);
      PutUpdates(entries[..n], i, e);
      PutEarlier(entries, i, e);
    }
  }

  lemma {:induction false} BelongsBefore(entries: seq<Entry>, i: nat, a: Address)
    requires Ascending(entries) && Belongs(entries, i, a)
    requires i < |entries| && (i == |entries| - 1 ==> entries[i].address != a)
    ensures var n := |entries| - 1;
            Ascending(entries[..n]) && Belongs(entries[..n], i, a) && a < entries[n].address
  {
    var n := |entries| - 1;
    assert a <= entries[i].address;
    if i < n {
      assert entries[i].address < entries[n].address;
    }
  }

  lemma {:induction false} PutEarlier(entries: seq<Entry>, i: nat, e: Entry)
    requires i < |entries| && e.address != entries[|entries| - 1].address
    requires var n := |entries| - 1; AsMap(Put(entries[..n], i, e)) == AsMap(entries[..n])[e.address := e.item]
    ensures AsMap(Put(entries, i, e)) == AsMap(entries)[e.address := e.item]
  {
    var n := |entries| - 1;
    PutBeforeLast(entries, i, e);
    LastCommutes(entries[..n], Put(entries[..n], i, e), entries[n], e);
    assert entries == entries[..n] + [entries[n]];
  }

  /** An update commutes with an entry behind it at another address. */
  lemma {:induction false} LastCommutes(entries: seq<Entry>, updated: seq<Entry>, last: Entry, e: Entry)
    requires AsMap(updated) == AsMap(entries)[e.address := e.item] && e.address != last.address
    ensures AsMap(updated + [last]) == AsMap(entries + [last])[e.address := e.item]
  {
    AsMapAppend(updated, last);
    AsMapAppend(entries, last);
  }

  lemma {:induction false} AsMapAppend(entries: seq<Entry>, e: Entry)
    ensures AsMap(entries + [e]) == AsMap(entries)[e.address := e.item]
  {
    assert (entries + [e])[..|entries|] == entries;
  }

  lemma {:induction false} PutBeforeLast(entries: seq<Entry>, i: nat, e: Entry)
    requires i < |entries| && (i == |entries| - 1 ==> entries[i].address != e.address)
    ensures var n := |entries| - 1;
            Put(entries, i, e) == Put(entries[..n], i, e) + [entries[n]]
  {
    var n := |entries| - 1;
    assert entries == entries[..n] + [entries[n]];
    assert entries[i..] == entries[..n][i..] + [entries[n]];
  }

  class Registry {
    var entries: seq<Entry>

    /** The generators called so far, with the parameters they were given. */
    ghost var called: seq<(Generator, Option<string>)>

    ghost predicate Valid()
      reads this
    {
      Ascending(entries)
    }

    constructor ()
      ensures Valid() && AsMap(entries) == map[] && called == []
    {
      entries := [];
      called := [];
    }

    /** register_url: a text at an address already registered replaces what is there. */
    method RegisterUrl(address: Address, item: UrlItem)
      requires Valid()
      modifies this`entries
      ensures Valid()
      ensures AsMap(entries) == old(AsMap(entries))[address := item]
    {
      var i := 0;
      while i < |entries| && entries[i].address < address
        invariant i <= |entries|
        invariant forall k | 0 <= k < i :: entries[k].address < address
      {
        i := i + 1;
      }
      assert Belongs(entries, i, address);
      PutAscends(entries, i, Entry(address, item));
      PutUpdates(entries, i, Entry(address, item));
      entries := Put(entries, i, Entry(address, item));
    }

    /** find_handeler: the URL at the least address among those that the request starts with. */
    method FindHandler(request: string) returns (i: nat)
      requires Valid()
      ensures i == PrefixIndex(Items(entries), request)
      ensures LeastBeginning(entries, i, request)
    {
      ghost var items := Items(entries);
      i := 0;
      while i < |entries| && !(entries[i].item.url <= request)
        invariant i <= |entries|
        invariant forall k | 0 <= k < i :: !(items[k].url <= request)
      {
        i := i + 1;
      }
      PrefixIsLeast(entries, request);
    }

    /** find_exact: the URL at the least address among those that are the request up to its first space. */
    method FindExact(request: string) returns (i: nat)
      requires Valid()
      requires |Key(request)| < KEY_SIZE && NUL !in request
      ensures i == if request == [] then |entries| else ExactIndex(Items(entries), Key(request))
      ensures request != [] ==> LeastEqual(entries, i, Key(request))
    {
      if request == [] {
        return |entries|;
      }
      var key := CopyKey(request);
      ghost var items := Items(entries);
      i := 0;
      while i < |entries| && entries[i].item.url != key
        invariant i <= |entries|
        invariant forall k | 0 <= k < i :: items[k].url != key
      {
        i := i + 1;
      }
      ExactIsLeast(entries, key);
    }

    /** The copying in find_exact, into a zeroed buffer of its own. */
    static method CopyKey(request: string) returns (key: string)
      requires |Key(request)| < KEY_SIZE && NUL !in request
      ensures key == Key(request)
    {
      var requestUrl := new char[KEY_SIZE](_ => NUL);
      var cpyLen := First(request, 0, ' ');
      forall k | 0 <= k < cpyLen {
        requestUrl[k] := request[k];
      }
      CStrIs(requestUrl[..], 0, Key(request));
      var n := StrLen(requestUrl, 0);
      key := requestUrl[..n];
      assert key == requestUrl[..][0..n];
    }

    /** What a request with these parameters adds to the trace. */
    function CallsOf(h: Option<Generator>, params: Option<string>): seq<(Generator, Option<string>)>
    {
      if h.Some? then [(h.value, params)] else []
    }

    /** create_html_page of the HTTP server: exact match first, then prefix match. */
    method CreateHtmlPage(request: string, params: Option<string>) returns (served: bool)
      requires Valid()
      requires |Key(request)| < KEY_SIZE && NUL !in request
      modifies this`called
      ensures served == Route(Items(entries), request).Some?
      ensures called == old(called) + CallsOf(Route(Items(entries), request), params)
      ensures RoutesTo(AsMap(entries), request, Route(Items(entries), request))
    {
      RouteByAddress(entries, request);
      ghost var items := Items(entries);
      var i := FindExact(request);
      assert ExactHandler(items, request) == if i == |entries| then None else entries[i].item.func;
      if i == |entries| || entries[i].item.func == None {
        i := FindHandler(request);
        assert PrefixHandler(items, request) == if i == |entries| then None else entries[i].item.func;
        if i == |entries| || entries[i].item.func == None {
          assert called == called + [];
          return false;
        }
      }
      called := called + [(entries[i].item.func.value, params)];
      return true;
    }

    /** create_html_page of the access point: prefix match only. */
    method CreateApHtmlPage(request: string, params: Option<string>) returns (served: bool)
      requires Valid()
      modifies this`called
      ensures served == PrefixHandler(Items(entries), request).Some?
      ensures called == old(called) + CallsOf(PrefixHandler(Items(entries), request), params)
      ensures LeadsTo(AsMap(entries), request, PrefixHandler(Items(entries), request))
    {
      PrefixByAddress(entries, request);
      var i := FindHandler(request);
      if i == |entries| || entries[i].item.func == None {
        assert called == called + [];
        return false;
      }
      called := called + [(entries[i].item.func.value, params)];
      return true;
    }
  }
}
