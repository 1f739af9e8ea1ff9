/** The controller's rate-limited work queue with its retry rule, one worker, and a
    delegator that caches an object before handling it (the traffic-config controller). */
module WorkQueue {
  import opened Mesh
  import opened Prelude

  const MAX_RETRIES := 2

  /** One informer event: which object, in which version. `id` tells events apart. */
  datatype Item = Item(id: nat, event: EventType, name: string, version: nat)

  /** `ready` is the FIFO queue, `delayed` the items waiting out a back-off, `requeues` the
      rate limiter's failure counts. `handed` lists every item given to the delegator. */
  datatype Controller = Controller(
    ready: seq<Item>,
    delayed: seq<Item>,
    requeues: map<Item, nat>,
    cache: map<string, nat>,
    handed: seq<Item>)

  function NumRequeues(c: Controller, item: Item): nat {
    if item in c.requeues then c.requeues[item] else 0
  }

  /** A retry is pointless once the cache holds a newer version of the object. */
  predicate ShouldRetry(cache: map<string, nat>, item: Item) {
    !(item.name in cache && item.version < cache[item.name])
  }

  function Cached(cache: map<string, nat>, item: Item): map<string, nat> {
    if item.event.Delete? then cache - {item.name} else cache[item.name := item.version]
  }

  /** The head leaves the queue as a stale retry, without being handled. */
  function Drop(c: Controller): Controller
    requires c.ready != []
  {
    c.(ready := c.ready[1..], requeues := c.requeues - {c.ready[0]})
  }

  /** The head was handled and will not come back. */
  function Settle(c: Controller): Controller
    requires c.ready != []
  {
    var item := c.ready[0];
    Controller(c.ready[1..], c.delayed, c.requeues - {item}, Cached(c.cache, item), c.handed + [item])
  }

  /** The head was handled without success and waits out a back-off. */
  function Retry(c: Controller): Controller
    requires c.ready != []
  {
    var item := c.ready[0];
    Controller(c.ready[1..], c.delayed + [item], c.requeues[item := NumRequeues(c, item) + 1],
               Cached(c.cache, item), c.handed + [item])
  }

  /** One pass of the worker over the head of the queue; `ok` is the handler's result. */
  function ProcessNext(c: Controller, ok: bool): Controller
    requires c.ready != []
  {
    var item := c.ready[0];
    if NumRequeues(c, item) > 0 && !ShouldRetry(c.cache, item) then Drop(c)
    else if !ok && NumRequeues(c, item) < MAX_RETRIES && ShouldRetry(Cached(c.cache, item), item) then Retry(c)
    else Settle(c)
  }

  datatype Step =
    | Enqueue(item: Item)
    | Mature(index: nat)     // the back-off of a delayed item ends
    | Process(ok: bool)

  predicate Enabled(c: Controller, s: Step) {
    match s
    case Enqueue(_) => true
    case Mature(i) => i < |c.delayed|
    case Process(_) => c.ready != []
  }

  function Take(c: Controller, s: Step): Controller
    requires Enabled(c, s)
  {
    match s
    case Enqueue(item) => c.(ready := c.ready + [item])
    case Mature(i) =>
      c.(ready := c.ready + [c.delayed[i]], delayed := c.delayed[..i] + c.delayed[i + 1..])
    case Process(ok) => ProcessNext(c, ok)
  }

  const EMPTY := Controller([], [], map[], map[], [])

  // ----- the imperative controller -------------------------------------------------------

  class TrafficConfigCache {
    var cache: map<string, nat>

    method Put(name: string, version: nat)
      modifies this
      ensures cache == old(cache)[name := version]
    {
      cache := cache[name := version];
    }

    method Remove(name: string)
      modifies this
      ensures cache == old(cache) - {name}
    {
      cache := cache - {name};
    }

    method Get(name: string) returns (version: Option<nat>)
      ensures version == if name in cache then Some(cache[name]) else None
    {
      version := if name in cache then Some(cache[name]) else None;
    }
  }

  class Worker {
    const delegator: TrafficConfigCache
    var ready: seq<Item>
    var delayed: seq<Item>
    var requeues: map<Item, nat>
    ghost var handed: seq<Item>

    constructor ()
      ensures fresh(delegator) && State() == EMPTY
    {
      delegator := new TrafficConfigCache;
      ready, delayed, requeues, handed := [], [], map[], [];
      new;
      delegator.cache := map[];
    }

    ghost function State(): Controller
      reads this, delegator
    {
      Controller(ready, delayed, requeues, delegator.cache, handed)
    }

    method ShouldRetryItem(item: Item) returns (retry: bool)
      ensures retry <==> ShouldRetry(delegator.cache, item)
    {
      var latest := delegator.Get(item.name);
      if latest == None {
        return true;
      }
      return !(item.version < latest.value);
    }

    method ProcessItem(item: Item)
      modifies `handed, delegator
      ensures handed == old(handed) + [item]
      ensures delegator.cache == Cached(old(delegator.cache), item)
    {
      handed := handed + [item];
      match item.event
      case Delete => delegator.Remove(item.name);
      case _ => delegator.Put(item.name, item.version);
    }

    method ProcessNextItem(ok: bool)
      requires ready != []
      modifies this, delegator
      ensures State() == ProcessNext(old(State()), ok)
    {
      var item := ready[0];
      ready := ready[1..];
      var attempts := if item in requeues then requeues[item] else 0;
      var processEvent := true;
      if attempts > 0 {
        processEvent := ShouldRetryItem(item);
      }
      if !processEvent {
        requeues := requeues - {item};
        return;
      }
      ProcessItem(item);
      if ok {
        requeues := requeues - {item};
      } else if attempts < MAX_RETRIES {
        var retry := ShouldRetryItem(item);
        if retry {
          delayed := delayed + [item];
          requeues := requeues[item := attempts + 1];
        } else {
          requeues := requeues - {item};
        }
      } else {
        requeues := requeues - {item};
      }
    }
  }
}
