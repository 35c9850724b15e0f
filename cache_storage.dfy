/** An abstract model of the browser's CacheStorage as the service worker
    uses it: an ordered collection of named stores, each a map from request
    URL to stored response. Network, open and delete outcomes are inputs. */
module CacheStorage {

  datatype Option<T> = None | Some(value: T)

  type Url = string

  /** A response as far as the cache cares: its HTTP status and its body. */
  datatype Response = Response(status: int, body: seq<bv8>)

  /** The identity a request is matched by: its method and its URL. */
  datatype Request = Request(verb: string, url: Url)

  /** What a network fetch produced: a response (of any status) or a
      network error (the rejected promise of `fetch`). */
  datatype FetchOutcome = Fetched(response: Response) | NetworkError

  /** One named store: URL to the response stored for it. */
  type Store = map<Url, Response>

  predicate Distinct<T(==)>(s: seq<T>)
  {
    forall i, j :: 0 <= i < j < |s| ==> s[i] != s[j]
  }

  /** `cache.add` stores a fetched response only when its status is an ok
      status (200 to 299) other than 206; a network error or any other
      status rejects the add and stores nothing. */
  predicate AddAccepts(o: FetchOutcome)
  {
    o.Fetched? && 200 <= o.response.status <= 299 && o.response.status != 206
  }

  /** The store after one `cache.add(url)` whose fetch produced `o`. */
  function PutIfAccepted(store: Store, url: Url, o: FetchOutcome): Store
  {
    if AddAccepts(o) then store[url := o.response] else store
  }

  predicate Holds(stores: map<string, Store>, name: string, url: Url)
  {
    name in stores && url in stores[name]
  }

  /** The response of the first store, in the order `names` lists them,
      that holds `url`. */
  function FirstMatch(names: seq<string>, stores: map<string, Store>, url: Url): Option<Response>
  {
    if names == [] then None
    else if Holds(stores, names[0], url) then Some(stores[names[0]][url])
    else FirstMatch(names[1..], stores, url)
  }

  /** `caches.match(request)`: a request that is not a GET never matches;
      a GET is looked up in every store, oldest first. */
  function CachesMatch(names: seq<string>, stores: map<string, Store>, req: Request): Option<Response>
  {
    if req.verb != "GET" then None else FirstMatch(names, stores, req.url)
  }

  /** There is no match exactly when no store holds the URL. */
  lemma {:induction false} FirstMatchNone(names: seq<string>, stores: map<string, Store>, url: Url)
    ensures FirstMatch(names, stores, url) == None
        <==> forall i :: 0 <= i < |names| ==> !Holds(stores, names[i], url)
  {
    if names != [] {
      FirstMatchNone(names[1..], stores, url);
      assert forall i :: 1 <= i < |names| ==> names[i] == names[1..][i - 1];
    }
  }

  /** The match is the response of the first store that holds the URL. */
  lemma {:induction false} FirstMatchFirst(names: seq<string>, stores: map<string, Store>, url: Url, i: nat)
    requires i < |names| && Holds(stores, names[i], url)
    requires forall j :: 0 <= j < i ==> !Holds(stores, names[j], url)
    ensures FirstMatch(names, stores, url) == Some(stores[names[i]][url])
  {
    if i > 0 {
      assert !Holds(stores, names[0], url);
      forall j | 0 <= j < i - 1
        ensures !Holds(stores, names[1..][j], url)
      {
        assert names[1..][j] == names[j + 1];
      }
      FirstMatchFirst(names[1..], stores, url, i - 1);
    }
  }

  /** `names` without `x`, order kept. */
  function Remove(names: seq<string>, x: string): seq<string>
  {
    if names == [] then []
    else (if names[0] == x then [] else [names[0]]) + Remove(names[1..], x)
  }

  /** Removing `x` drops exactly the occurrences of `x`. */
  lemma {:induction false} RemoveHas(names: seq<string>, x: string, n: string)
    ensures n in Remove(names, x) <==> n in names && n != x
  {
    if names != [] {
      RemoveHas(names[1..], x, n);
      assert names == [names[0]] + names[1..];
    }
  }

  lemma {:induction false} RemoveAbsent(names: seq<string>, x: string)
    requires x !in names
    ensures Remove(names, x) == names
  {
    if names != [] {
      RemoveAbsent(names[1..], x);
    }
  }

  lemma {:induction false} RemoveDistinct(names: seq<string>, x: string)
    requires Distinct(names)
    ensures Distinct(Remove(names, x))
  {
    if names != [] {
      assert Distinct(names[1..]) by {
        forall i, j | 0 <= i < j < |names[1..]|
          ensures names[1..][i] != names[1..][j]
        {
          assert names[1..][i] == names[i + 1] && names[1..][j] == names[j + 1];
        }
      }
      RemoveDistinct(names[1..], x);
      var rest := Remove(names[1..], x);
      assert names[0] !in names[1..];
      RemoveHas(names[1..], x, names[0]);
      var r := (if names[0] == x then [] else [names[0]]) + rest;
      forall i, j | 0 <= i < j < |r|
        ensures r[i] != r[j]
      {
        if names[0] != x && i == 0 {
          assert r[j] == rest[j - 1];
        }
      }
    }
  }

  /** The origin's CacheStorage: the store names in creation order, and the
      contents of each store. */
  class Caches {
    var names: seq<string>
    var stores: map<string, Store>

    ghost predicate Valid()
      reads this
    {
      Distinct(names) && forall n :: n in stores <==> n in names
    }

    constructor ()
      ensures Valid() && names == [] && stores == map[]
    {
      names := [];
      stores := map[];
    }

    /** `caches.keys()`: the store names in creation order. */
    method Keys() returns (ns: seq<string>)
      requires Valid()
      ensures ns == names && Distinct(ns)
    {
      ns := names;
    }

    /** `caches.open(name)`: creates an empty store at the end of the order
        when none has that name; `ok` says whether opening succeeds. */
    method Open(name: string, ok: bool) returns (success: bool)
      requires Valid()
      modifies this
      ensures Valid()
      ensures success == ok
      ensures success ==> name in stores
      ensures !ok || name in old(stores) ==> names == old(names) && stores == old(stores)
      ensures ok && name !in old(stores) ==>
        names == old(names) + [name] && stores == old(stores)[name := map[]]
    {
      success := ok;
      if ok && name !in stores {
        names := names + [name];
        stores := stores[name := map[]];
      }
    }

    /** `cache.add(url)` on the store `name`, the fetch of `url` having
        produced `o`. */
    method Add(name: string, url: Url, o: FetchOutcome) returns (ok: bool)
      requires Valid() && name in stores
      modifies this
      ensures Valid() && names == old(names)
      ensures ok == AddAccepts(o)
      ensures stores == old(stores)[name := PutIfAccepted(old(stores)[name], url, o)]
    {
      ok := AddAccepts(o);
      stores := stores[name := PutIfAccepted(stores[name], url, o)];
    }

    /** `caches.delete(name)`; `ok` says whether the deletion succeeds. A
        successful deletion reports whether there was such a store. */
    method Delete(name: string, ok: bool) returns (removed: bool)
      requires Valid()
      modifies this
      ensures Valid()
      ensures removed == (ok && name in old(stores))
      ensures ok ==> names == Remove(old(names), name) && stores == old(stores) - {name}
      ensures !ok ==> names == old(names) && stores == old(stores)
    {
      removed := ok && name in stores;
      if ok {
        RemoveDistinct(names, name);
        forall n {
          RemoveHas(names, name, n);
        }
        names := Remove(names, name);
        stores := stores - {name};
      }
    }

    /** `caches.match(req)`: looks through the stores in creation order. */
    method Match(req: Request) returns (r: Option<Response>)
      ensures r == CachesMatch(names, stores, req)
    {
      if req.verb != "GET" {
        return None;
      }
      var i := 0;
      while i < |names|
        invariant 0 <= i <= |names|
        invariant FirstMatch(names[i..], stores, req.url) == FirstMatch(names, stores, req.url)
      {
        var n := names[i];
        if n in stores && req.url in stores[n] {
          return Some(stores[n][req.url]);
        }
        assert names[i..][1..] == names[i + 1..];
        i := i + 1;
      }
      return None;
    }
  }
}
