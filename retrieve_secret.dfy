/** The memoising secret fetcher of `app/hooks/use-retrieve-secret.ts`. The HTTP request is
    not modelled: the response the caller would have received is a parameter. */
module RetrieveSecret {
  import opened Wrappers

  /** What the secret endpoint answered: a transport failure, or a response with its `ok`
      flag and its decoded JSON body. */
  datatype SecretResponse = NetworkError | Response(ok: bool, body: string)

  /** `retrieveSecret`: a non-ok response and a transport failure are both failures. */
  function Retrieve(response: SecretResponse): (r: Option<string>)
    ensures r.Some? <==> response.Response? && response.ok
    ensures r.Some? ==> r.value == response.body
  {
    match response
    case NetworkError => None
    case Response(ok, body) => if ok then Some(body) else None
  }

  /** One instance of the hook's cache. Every call to the hook creates its own instance. */
  class SecretCache {
    var cache: map<string, string>
    /** Every (path, value) pair some successful fetch of this instance returned. */
    ghost var fetchLog: set<(string, string)>

    /** Every cached value is one a successful fetch returned for that same path. */
    ghost predicate Valid()
      reads this
    {
      forall path :: path in cache ==> (path, cache[path]) in fetchLog
    }

    constructor ()
      ensures Valid() && cache == map[] && fetchLog == {}
    {
      cache := map[];
      fetchLog := {};
    }

    /** `getSecret(path)`. On a hit the stored value comes back and nothing is fetched; on a
        miss `response` is what the fetch received: a success is stored and returned, a
        failure returns "" and leaves the cache as it was. `fetched` tells whether the
        endpoint was consulted. */
    method GetSecret(path: string, response: SecretResponse) returns (value: string, fetched: bool)
      requires Valid()
      modifies this
      ensures Valid()
      ensures fetched <==> path !in old(cache)
      ensures !fetched ==> value == old(cache)[path] && cache == old(cache) && fetchLog == old(fetchLog)
      ensures fetched && Retrieve(response).Some? ==>
        && value == response.body
        && cache == old(cache)[path := value]
        && fetchLog == old(fetchLog) + {(path, value)}
      ensures fetched && Retrieve(response).None? ==>
        value == "" && cache == old(cache) && fetchLog == old(fetchLog)
    {
      if path in cache {
        return cache[path], false;
      }
      fetched := true;
      var outcome := Retrieve(response);
      match outcome {
        case Some(secret) =>
          fetchLog := fetchLog + {(path, secret)};
          cache := cache[path := secret];
          value := secret;
        case None =>
          value := "";
      }
    }

    /** `invalidateSecret(path)`: drops that one path; an absent path leaves the cache as it was. */
    method InvalidateSecret(path: string)
      requires Valid()
      modifies this`cache
      ensures Valid()
      ensures path !in cache
      ensures cache == old(cache) - {path}
      ensures path !in old(cache) ==> cache == old(cache)
    {
      if path in cache {
        cache := cache - {path};
      }
    }

    /** `invalidateAll()`. */
    method InvalidateAll()
      requires Valid()
      modifies this`cache
      ensures Valid() && cache == map[]
    {
      cache := map[];
    }
  }
}
