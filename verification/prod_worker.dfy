/** The production service worker: install pre-caches the application shell
    into the current generation, activate evicts every other generation, and
    fetch answers from the cache and falls back to the network. */
module ProdWorker {
  import opened Options
  import opened CacheStorage

  const CacheName := "funbook-prod-v1"

  /** The application shell. */
  const Precache := ["/", "/index.html", "/manifest.json"]

  /** Every pre-cache URL fetches a response `addAll` accepts. */
  predicate ShellReachable(net: Network) {
    forall i :: 0 <= i < |Precache| ==> Precache[i] in net && Cacheable(net[Precache[i]])
  }

  /** The generation called `name` holds `url` with `response`. */
  predicate Holds(st: Storage, name: string, url: string, response: Response) {
    exists i :: 0 <= i < |st| && st[i].name == name && url in st[i].entries && st[i].entries[url] == response
  }

  // ---------------------------------------------------------------------------
  // install
  // ---------------------------------------------------------------------------

  /** The shell as fetched from `net`. */
  function ShellEntries(net: Network): (m: map<string, Response>)
    ensures forall u :: u in m <==> u in Precache && u in net
  {
    map u | u in Precache && u in net :: net[u]
  }

  /** `i` is the first generation called `name`. */
  predicate FirstNamed(st: Storage, name: string, i: nat) {
    i < |st| && st[i].name == name && forall j :: 0 <= j < i ==> st[j].name != name
  }

  /** `after` is `before` with the shell written into its first generation
      called `CacheName`, at `i`: that generation keeps its other entries,
      gains the shell's and nothing more, and no other generation changes. */
  predicate StoresShellAt(before: Storage, after: Storage, net: Network, i: nat) {
    && FirstNamed(before, CacheName, i)
    && |after| == |before|
    && after[i].name == CacheName
    && after[i].entries == before[i].entries + ShellEntries(net)
    && forall j :: 0 <= j < |after| && j != i ==> after[j] == before[j]
  }

  /** The install handler: open the generation, then `addAll` the shell. A
      failing `addAll` is caught, so installation completes either way, with
      the generation opened but its entries untouched. */
  function Install(st: Storage, net: Network): (r: Storage)
    ensures HasGeneration(r, CacheName)
    ensures UniqueNames(st) ==> UniqueNames(r)
    ensures |r| == |Open(st, CacheName)|
    ensures forall i :: 0 <= i < |r| && r[i].name != CacheName ==> r[i] == Open(st, CacheName)[i]
    ensures !ShellReachable(net) ==> r == Open(st, CacheName)
    ensures ShellReachable(net) ==> forall k :: 0 <= k < |Precache| ==> Holds(r, CacheName, Precache[k], net[Precache[k]])
    ensures ShellReachable(net) ==> exists i :: StoresShellAt(Open(st, CacheName), r, net, i)
  {
    var withGen := Open(st, CacheName);
    var i := IndexFrom(withGen, CacheName, 0).value;
    match AddAll(withGen[i], Precache, net)
    case None => withGen
    case Some(g) =>
      var r := withGen[i := g];
      assert r[i].name == CacheName;
      assert forall k :: 0 <= k < |Precache| ==> Precache[k] in r[i].entries && r[i].entries[Precache[k]] == net[Precache[k]];
      assert r[i].entries == withGen[i].entries + ShellEntries(net);
      assert StoresShellAt(withGen, r, net, i);
      r
  }

  /** Installing never removes a generation and never touches one with
      another name. */
  lemma InstallKeepsOthers(st: Storage, net: Network, g: Generation)
    requires g in st && g.name != CacheName
    ensures g in Install(st, net)
  {
    var i :| 0 <= i < |st| && st[i] == g;
    assert Open(st, CacheName)[i] == g;
    assert Install(st, net)[i] == g;
  }

  // ---------------------------------------------------------------------------
  // activate
  // ---------------------------------------------------------------------------

  function Names(st: Storage): (r: seq<string>)
    ensures |r| == |st| && forall i :: 0 <= i < |st| ==> r[i] == st[i].name
  {
    if |st| == 0 then [] else [st[0].name] + Names(st[1..])
  }

  /** The activate handler over the names `caches.keys()` listed: each name
      other than `current` is deleted, one after another. */
  function Evict(st: Storage, names: seq<string>, current: string): (r: Storage)
    decreases |names|
  {
    if |names| == 0 then st
    else
      var next := if names[0] != current then Delete(st, names[0]) else st;
      Evict(next, names[1..], current)
  }

  function ActivateWith(st: Storage, current: string): (r: Storage)
    ensures r == Retain(st, current)
  {
    EvictRetains(st, Names(st), current);
    Evict(st, Names(st), current)
  }

  function Activate(st: Storage): (r: Storage)
    ensures forall i :: 0 <= i < |r| ==> r[i].name == CacheName
    ensures forall g :: g in st && g.name == CacheName ==> g in r
    ensures UniqueNames(st) ==> r == Retain(st, CacheName) && |r| <= 1
  {
    var r := ActivateWith(st, CacheName);
    RetainSpec(st, CacheName);
    if UniqueNames(st) then
      RetainUnique(st, CacheName);
      r
    else
      r
  }

  /** The reference: the generations called `current`, in order. */
  function Retain(st: Storage, current: string): (r: Storage) {
    if |st| == 0 then []
    else if st[0].name == current then [st[0]] + Retain(st[1..], current)
    else Retain(st[1..], current)
  }

  lemma {:induction false} RetainSpec(st: Storage, current: string)
    ensures forall g :: g in Retain(st, current) <==> g in st && g.name == current
  {
    if |st| > 0 {
      RetainSpec(st[1..], current);
      assert st == [st[0]] + st[1..];
    }
  }

  lemma {:induction false} RetainNone(st: Storage, current: string)
    requires forall i :: 0 <= i < |st| ==> st[i].name != current
    ensures Retain(st, current) == []
  {
    if |st| > 0 {
      RetainNone(st[1..], current);
    }
  }

  /** With unique names at most the current generation survives. */
  lemma {:induction false} RetainUnique(st: Storage, current: string)
    requires UniqueNames(st)
    ensures |Retain(st, current)| <= 1
  {
    if |st| > 0 {
      RetainUnique(st[1..], current);
      if st[0].name == current {
        assert forall j :: 0 <= j < |st[1..]| ==> st[1..][j].name != current by {
          forall j | 0 <= j < |st[1..]| ensures st[1..][j].name != current {
            assert st[1..][j] == st[j + 1];
          }
        }
        RetainNone(st[1..], current);
      }
    }
  }

  /** The generations that survive deleting each of `names` except `current`. */
  function Survivors(st: Storage, names: seq<string>, current: string): (r: Storage) {
    if |st| == 0 then []
    else if st[0].name == current || st[0].name !in names then [st[0]] + Survivors(st[1..], names, current)
    else Survivors(st[1..], names, current)
  }

  lemma {:induction false} EvictSurvivors(st: Storage, names: seq<string>, current: string)
    ensures Evict(st, names, current) == Survivors(st, names, current)
    decreases |names|
  {
    if |names| == 0 {
      SurvivorsOfNone(st, current);
    } else {
      var next := if names[0] != current then Delete(st, names[0]) else st;
      EvictSurvivors(next, names[1..], current);
      SurvivorsStep(st, names, current);
    }
  }

  lemma {:induction false} SurvivorsOfNone(st: Storage, current: string)
    ensures Survivors(st, [], current) == st
  {
    if |st| > 0 {
      SurvivorsOfNone(st[1..], current);
    }
  }

  /** Deleting the first name then the rest leaves what deleting them all leaves. */
  lemma {:induction false} SurvivorsStep(st: Storage, names: seq<string>, current: string)
    requires |names| > 0
    ensures Survivors(if names[0] != current then Delete(st, names[0]) else st, names[1..], current)
         == Survivors(st, names, current)
  {
    if |st| > 0 {
      var n, later := names[0], names[1..];
      SurvivorsStep(st[1..], names, current);
      assert st[0].name in names <==> st[0].name == n || st[0].name in later by {
        assert names == [n] + later;
      }
      if n != current && st[0].name != n {
        var d := [st[0]] + Delete(st[1..], n);
        assert Delete(st, n) == d;
        assert d[1..] == Delete(st[1..], n);
      }
    }
  }

  /** When every generation is listed, the survivors are the current ones. */
  lemma {:induction false} SurvivorsOfListed(st: Storage, names: seq<string>, current: string)
    requires forall i :: 0 <= i < |st| ==> st[i].name in names
    ensures Survivors(st, names, current) == Retain(st, current)
  {
    if |st| > 0 {
      SurvivorsOfListed(st[1..], names, current);
    }
  }

  lemma EvictRetains(st: Storage, names: seq<string>, current: string)
    requires names == Names(st)
    ensures Evict(st, names, current) == Retain(st, current)
  {
    EvictSurvivors(st, names, current);
    SurvivorsOfListed(st, names, current);
  }

  /** Given generations "v1" and "v2" with "v2" current, only "v1" is deleted. */
  lemma ActivateExample(e1: map<string, Response>, e2: map<string, Response>)
    ensures ActivateWith([Generation("v1", e1), Generation("v2", e2)], "v2") == [Generation("v2", e2)]
  {
    var st := [Generation("v1", e1), Generation("v2", e2)];
    assert st[1..] == [Generation("v2", e2)];
    assert st[1..][1..] == [];
    assert Retain(st[1..], "v2") == [Generation("v2", e2)];
  }

  // ---------------------------------------------------------------------------
  // fetch
  // ---------------------------------------------------------------------------

  /** The fetch handler: a response found in any generation, else whatever the
      network returns (an error status included); a rejected network fetch
      fails the request. */
  function Respond(st: Storage, url: string, net: Network): (r: Reply)
    ensures r.FromCache? <==> exists i :: 0 <= i < |st| && url in st[i].entries
    ensures r.FromCache? ==> Some(r.response) == Match(st, url)
    ensures r.FromNetwork? <==> Match(st, url).None? && url in net
    ensures r.FromNetwork? ==> r.response == net[url]
    ensures r.NetworkFailure? <==> Match(st, url).None? && url !in net
    ensures !r.PassThrough?
  {
    match Match(st, url)
    case Some(resp) => FromCache(resp)
    case None => if url in net then FromNetwork(net[url]) else NetworkFailure
  }

  /** One event: install and activate change cache storage; fetch never
      writes to it, and the network response is not stored. Neither
      `skipWaiting` nor `clients.claim` is called. */
  function Step(w: Worker, e: Event, net: Network): (r: Worker)
    ensures r.skippedWaiting == w.skippedWaiting && r.claimedClients == w.claimedClients
    ensures e.Fetch? ==> r == w
    ensures e.Install? ==> r.storage == Install(w.storage, net)
    ensures e.Activate? ==> r.storage == Activate(w.storage)
  {
    match e
    case Install => w.(storage := Install(w.storage, net))
    case Activate => w.(storage := Activate(w.storage))
    case Fetch(_) => w
  }

  /** After an install that reached the network and an activate, exactly the
      current generation is left, and the shell is answered from it even
      when the network is gone. */
  lemma InstallThenActivate(st: Storage, net: Network, offline: Network, k: nat)
    requires UniqueNames(st) && ShellReachable(net) && k < |Precache|
    ensures var after := Activate(Install(st, net));
      && |after| == 1 && after[0].name == CacheName
      && Respond(after, Precache[k], offline) == FromCache(net[Precache[k]])
  {
    var installed := Install(st, net);
    assert Holds(installed, CacheName, Precache[k], net[Precache[k]]);
    var i :| 0 <= i < |installed| && installed[i].name == CacheName && Precache[k] in installed[i].entries
             && installed[i].entries[Precache[k]] == net[Precache[k]];
    ActivateLeavesOne(installed, installed[i]);
    RespondSingle(installed[i], Precache[k], offline);
  }

  /** With unique names, activation leaves the current generation alone. */
  lemma ActivateLeavesOne(st: Storage, g: Generation)
    requires UniqueNames(st) && g in st && g.name == CacheName
    ensures Activate(st) == [g]
  {
    var after := Activate(st);
    assert g in after;
    assert after == [after[0]];
  }

  /** A single generation answers every URL it holds. */
  lemma RespondSingle(g: Generation, url: string, net: Network)
    requires url in g.entries
    ensures Respond([g], url, net) == FromCache(g.entries[url])
  {
    MatchSingle(g, url);
  }
}
