/** The development service worker: it takes control at once and never
    touches cache storage or answers a request. */
module DevWorker {
  import opened CacheStorage

  /** Declared by the worker but never used. */
  const CacheName := "funbook-dev-v1"

  /** The fetch handler returns without responding, so the browser fetches
      every request from the network as it would without a worker. */
  function Respond(st: Storage, url: string): (r: Reply)
    ensures r.PassThrough?
  {
    PassThrough
  }

  /** One event: install calls `skipWaiting`, activate calls `clients.claim`,
      and no event changes cache storage. */
  function Step(w: Worker, e: Event): (r: Worker)
    ensures r.storage == w.storage
    ensures r.skippedWaiting == (w.skippedWaiting || e.Install?)
    ensures r.claimedClients == (w.claimedClients || e.Activate?)
  {
    match e
    case Install => w.(skippedWaiting := true)
    case Activate => w.(claimedClients := true)
    case Fetch(_) => w
  }

  /** The events in order. */
  function Run(w: Worker, events: seq<Event>): (r: Worker)
    decreases |events|
  {
    if |events| == 0 then w else Run(Step(w, events[0]), events[1..])
  }

  /** Whatever the events, cache storage ends as it began, so no generation
      called `CacheName` is ever created; the worker has skipped waiting and
      claimed its clients exactly when some install or activate came by. */
  lemma {:induction false} RunKeepsStorage(w: Worker, events: seq<Event>)
    ensures Run(w, events).storage == w.storage
    ensures !HasGeneration(w.storage, CacheName) ==> !HasGeneration(Run(w, events).storage, CacheName)
    ensures Run(w, events).skippedWaiting <==> w.skippedWaiting || Install in events
    ensures Run(w, events).claimedClients <==> w.claimedClients || Activate in events
    decreases |events|
  {
    if |events| > 0 {
      RunKeepsStorage(Step(w, events[0]), events[1..]);
      assert events == [events[0]] + events[1..];
    }
  }
}
