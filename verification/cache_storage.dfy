/** The browser's cache storage as the service workers use it: named cache
    generations in creation order, each mapping request URLs to stored
    responses. `caches.match` searches the generations in that order. */
module CacheStorage {
  import opened Options

  datatype Response = Response(status: int, body: string)

  /** `response.ok`: a status in the 200 range. */
  predicate Ok(r: Response) {
    200 <= r.status <= 299
  }

  /** What `cache.addAll` accepts: an ok response other than 206 Partial
      Content, which the Cache API refuses to store. */
  predicate Cacheable(r: Response) {
    Ok(r) && r.status != 206
  }

  /** The network as a worker sees it: what each URL fetches, with no entry for
      a URL whose fetch rejects. */
  type Network = map<string, Response>

  datatype Generation = Generation(name: string, entries: map<string, Response>)

  /** The generations in creation order. */
  type Storage = seq<Generation>

  predicate UniqueNames(st: Storage) {
    forall i, j :: 0 <= i < j < |st| ==> st[i].name != st[j].name
  }

  predicate HasGeneration(st: Storage, name: string) {
    exists i :: 0 <= i < |st| && st[i].name == name
  }

  /** The position of the generation called `name`, searching from `from`. */
  function IndexFrom(st: Storage, name: string, from: nat): (r: Option<nat>)
    ensures r.Some? ==> from <= r.value < |st| && st[r.value].name == name
    ensures r.Some? ==> forall j :: from <= j < r.value ==> st[j].name != name
    ensures r.None? ==> forall j :: from <= j < |st| ==> st[j].name != name
    decreases |st| - from
  {
    if from >= |st| then None
    else if st[from].name == name then Some(from)
    else IndexFrom(st, name, from + 1)
  }

  /** `caches.open(name)`: the generation called `name`, created empty at the
      end when there is none. */
  function Open(st: Storage, name: string): (r: Storage)
    ensures HasGeneration(st, name) ==> r == st
    ensures !HasGeneration(st, name) ==> r == st + [Generation(name, map[])]
    ensures HasGeneration(r, name)
    ensures UniqueNames(st) ==> UniqueNames(r)
  {
    match IndexFrom(st, name, 0)
    case Some(_) => st
    case None =>
      var r := st + [Generation(name, map[])];
      assert r[|st|].name == name;
      r
  }

  /** `cache.addAll(urls)`: every URL is fetched, and only when every fetch
      resolves with a cacheable response are all of them stored; otherwise
      the call rejects and the generation is left as it was. */
  function AddAll(g: Generation, urls: seq<string>, net: Network): (r: Option<Generation>)
    ensures r.Some? <==> forall i :: 0 <= i < |urls| ==> urls[i] in net && Cacheable(net[urls[i]])
    ensures r.Some? ==> r.value.name == g.name
    ensures r.Some? ==> forall i :: 0 <= i < |urls| ==> urls[i] in r.value.entries && r.value.entries[urls[i]] == net[urls[i]]
    ensures r.Some? ==> forall u :: u in g.entries && u !in urls ==> u in r.value.entries && r.value.entries[u] == g.entries[u]
    ensures r.Some? ==> forall u :: u in r.value.entries ==> u in g.entries || u in urls
  {
    if forall i :: 0 <= i < |urls| ==> urls[i] in net && Cacheable(net[urls[i]]) then
      Some(g.(entries := g.entries + map u | u in urls && u in net :: net[u]))
    else
      None
  }

  /** `caches.delete(name)`: every generation called `name` is removed and the
      others keep their order. */
  function Delete(st: Storage, name: string): (r: Storage)
    ensures |r| <= |st|
    ensures forall g :: g in r <==> g in st && g.name != name
    ensures !HasGeneration(r, name)
  {
    if |st| == 0 then []
    else if st[0].name == name then Delete(st[1..], name)
    else [st[0]] + Delete(st[1..], name)
  }

  /** `caches.match(url)`: the entry of the first generation, in creation
      order, that holds `url`. */
  function Match(st: Storage, url: string): (r: Option<Response>)
    ensures r.None? <==> forall i :: 0 <= i < |st| ==> url !in st[i].entries
    ensures r.Some? ==> exists i :: 0 <= i < |st| && url in st[i].entries && st[i].entries[url] == r.value
                                      && forall j :: 0 <= j < i ==> url !in st[j].entries
  {
    if |st| == 0 then None
    else if url in st[0].entries then Some(st[0].entries[url])
    else
      var r := Match(st[1..], url);
      if r.Some? then
        var i :| 0 <= i < |st[1..]| && url in st[1..][i].entries && st[1..][i].entries[url] == r.value
                 && forall j :: 0 <= j < i ==> url !in st[1..][j].entries;
        assert forall j :: 1 <= j <= i ==> st[j] == st[1..][j - 1];
        r
      else
        assert forall j :: 1 <= j < |st| ==> st[j] == st[1..][j - 1];
        r
  }

  /** A single generation answers exactly with its own entries. */
  lemma MatchSingle(g: Generation, url: string)
    ensures Match([g], url) == (if url in g.entries then Some(g.entries[url]) else None)
  {
  }

  /** How a worker answers a page's request. */
  datatype Reply =
    | FromCache(response: Response)
    | FromNetwork(response: Response)
    | NetworkFailure
    | PassThrough   // the worker does not respond and the browser fetches as usual

  datatype Event = Install | Activate | Fetch(url: string)

  /** A worker's observable state: cache storage, and whether it has called
      `skipWaiting` and `clients.claim`. */
  datatype Worker = Worker(storage: Storage, skippedWaiting: bool, claimedClients: bool)
}
