/** The crawler factory: a registry of named subscribers, the selection of
    subscribers by name, and the order in which subscribers are registered
    on a new crawl engine. */
module Factory {
  import opened Wrappers

  /** A registered subscriber; `id` tells apart two objects with one name. */
  datatype Subscriber = Subscriber(name: string, id: nat)

  /** The subscribers on an engine: the two defaults the factory always adds,
      then subscribers from the registry. */
  datatype EngineSubscriber = Robots | HtmlCrawler | Registered(subscriber: Subscriber)

  /** How an engine was made: from base hosts, or by resuming a job. */
  datatype Origin = FromBaseUris(baseHosts: set<string>) | FromJobId(jobId: string)

  datatype Engine = Engine(origin: Origin, subscribers: seq<EngineSubscriber>)

  /** `InvalidArgumentException` naming every registered subscriber, and the
      queue's `InvalidJobIdException`. */
  datatype Error = InvalidSubscriberSelection(validNames: seq<string>) | InvalidJobId(jobId: string)

  /** `addSubscriber`: append to the registry. */
  function AddSubscriber(registry: seq<Subscriber>, s: Subscriber): (r: seq<Subscriber>)
    ensures |r| == |registry| + 1
    ensures r[..|registry|] == registry
    ensures r[|registry|] == s
  {
    registry + [s]
  }

  /** `getSubscriberNames`. */
  function SubscriberNames(registry: seq<Subscriber>): (names: seq<string>)
    ensures |names| == |registry|
    ensures forall i :: 0 <= i < |registry| ==> names[i] == registry[i].name
  {
    if |registry| == 0 then []
    else SubscriberNames(registry[..|registry| - 1]) + [registry[|registry| - 1].name]
  }

  lemma NamesOfRegistry(registry: seq<Subscriber>)
    ensures forall n :: n in SubscriberNames(registry) <==> exists i :: 0 <= i < |registry| && registry[i].name == n
  {
    var names := SubscriberNames(registry);
    forall n | n in names
      ensures exists i :: 0 <= i < |registry| && registry[i].name == n
    {
      var i :| 0 <= i < |names| && names[i] == n;
      assert registry[i].name == n;
    }
  }

  /** `a` is `b` with some elements left out, order kept. */
  predicate IsSubsequence<T(==)>(a: seq<T>, b: seq<T>)
    decreases |b|
  {
    if |a| == 0 then true
    else if |b| == 0 then false
    else (a[0] == b[0] && IsSubsequence(a[1..], b[1..])) || IsSubsequence(a, b[1..])
  }

  lemma {:induction false} SubsequenceAppend<T>(a: seq<T>, b: seq<T>, x: T, keep: bool)
    requires IsSubsequence(a, b)
    ensures IsSubsequence(if keep then a + [x] else a, b + [x])
    decreases |b|
  {
    if |a| == 0 {
      if keep {
        SubsequenceOfSelf([x]);
        assert (b + [x])[|b|..] == [x];
        SubsequenceDropFront([x], b + [x], |b|);
        assert a + [x] == [x];
      } else {
        assert IsSubsequence(a, b + [x]);
      }
    } else {
      assert |b| > 0;
      assert (b + [x])[1..] == b[1..] + [x];
      var a' := if keep then a + [x] else a;
      assert a'[0] == a[0];
      if a[0] == b[0] && IsSubsequence(a[1..], b[1..]) {
        SubsequenceAppend(a[1..], b[1..], x, keep);
        assert a'[1..] == if keep then a[1..] + [x] else a[1..];
      } else {
        SubsequenceAppend(a, b[1..], x, keep);
      }
    }
  }

  lemma {:induction false} SubsequenceOfSelf<T>(a: seq<T>)
    ensures IsSubsequence(a, a)
    decreases |a|
  {
    if |a| > 0 {
      SubsequenceOfSelf(a[1..]);
    }
  }

  lemma {:induction false} SubsequenceDropFront<T>(a: seq<T>, b: seq<T>, k: nat)
    requires k <= |b|
    requires IsSubsequence(a, b[k..])
    ensures IsSubsequence(a, b)
    decreases k
  {
    if k > 0 {
      assert b[1..][k - 1..] == b[k..];
      SubsequenceDropFront(a, b[1..], k - 1);
      if |a| > 0 {
        assert IsSubsequence(a, b[1..]);
      }
    }
  }

  /** The registered subscribers whose name is selected, in registry order
      (`array_filter` with a strict `in_array`). */
  function Filter(registry: seq<Subscriber>, selected: seq<string>): (r: seq<Subscriber>)
    ensures IsSubsequence(r, registry)
    ensures forall s :: s in r <==> s in registry && s.name in selected
    ensures forall s :: multiset(r)[s] == if s.name in selected then multiset(registry)[s] else 0
  {
    if |registry| == 0 then []
    else
      var init := registry[..|registry| - 1];
      var last := registry[|registry| - 1];
      var rest := Filter(init, selected);
      SubsequenceAppend(rest, init, last, last.name in selected);
      assert init + [last] == registry;
      if last.name in selected then rest + [last] else rest
  }

  /** `getSubscribers`: everything when nothing is selected, otherwise the
      selected ones. */
  function GetSubscribers(registry: seq<Subscriber>, selected: seq<string>): (r: seq<Subscriber>)
    ensures |selected| == 0 ==> r == registry
    ensures |selected| > 0 ==> IsSubsequence(r, registry)
    ensures |selected| > 0 ==> forall s :: s in r <==> s in registry && s.name in selected
  {
    if |selected| == 0 then registry else Filter(registry, selected)
  }

  /** `array_intersect($names, $selected)`: the names that are selected,
      duplicates and order kept. */
  function Intersect(names: seq<string>, selected: seq<string>): (r: seq<string>)
    ensures IsSubsequence(r, names)
    ensures forall n :: n in r <==> n in names && n in selected
    ensures forall n :: multiset(r)[n] == if n in selected then multiset(names)[n] else 0
  {
    if |names| == 0 then []
    else
      var init := names[..|names| - 1];
      var last := names[|names| - 1];
      var rest := Intersect(init, selected);
      SubsequenceAppend(rest, init, last, last in selected);
      assert init + [last] == names;
      if last in selected then rest + [last] else rest
  }

  /** `validateSubscribers`: the registered names that are selected, in
      registry order; an empty selection, or one that names no registered
      subscriber, is an error listing the valid names. */
  function ValidateSubscribers(registry: seq<Subscriber>, selected: seq<string>): (r: Result<seq<string>, Error>)
    ensures r.Err? <==> |selected| == 0 || forall i :: 0 <= i < |registry| ==> registry[i].name !in selected
    ensures r.Err? ==> r.error == InvalidSubscriberSelection(SubscriberNames(registry))
    ensures r.Ok? ==> |r.value| > 0 && IsSubsequence(r.value, SubscriberNames(registry))
    ensures r.Ok? ==> forall n :: n in r.value <==> n in selected && exists i :: 0 <= i < |registry| && registry[i].name == n
  {
    var names := SubscriberNames(registry);
    var error := InvalidSubscriberSelection(names);
    if |selected| == 0 then Err(error)
    else
      var valid := Intersect(names, selected);
      assert forall i :: 0 <= i < |registry| && registry[i].name in selected ==> registry[i].name in valid;
      NamesOfRegistry(registry);
      assert |valid| > 0 ==> valid[0] in names && valid[0] in selected;
      if |valid| == 0 then Err(error) else Ok(valid)
  }

  /** `registerDefaultSubscribers`. */
  const Defaults: seq<EngineSubscriber> := [Robots, HtmlCrawler]

  /** `registerSubscribers`: in registry order, each subscriber whose name is
      among the validated names. */
  function RegisterSubscribers(registry: seq<Subscriber>, validated: seq<string>): (r: seq<EngineSubscriber>)
    ensures |r| <= |registry|
    ensures forall i :: 0 <= i < |r| ==>
      r[i].Registered? && r[i].subscriber in registry && r[i].subscriber.name in validated
    ensures forall s :: s in registry && s.name in validated ==> Registered(s) in r
  {
    if |registry| == 0 then []
    else
      var init := registry[..|registry| - 1];
      var rest := RegisterSubscribers(init, validated);
      var last := registry[|registry| - 1];
      assert forall s :: s in registry <==> s in init || s == last;
      if last.name in validated then rest + [Registered(last)] else rest
  }

  function Wrap(subscribers: seq<Subscriber>): (r: seq<EngineSubscriber>)
    ensures |r| == |subscribers|
    ensures forall i :: 0 <= i < |r| ==> r[i] == Registered(subscribers[i])
  {
    seq(|subscribers|, i requires 0 <= i < |subscribers| => Registered(subscribers[i]))
  }

  /** Registering against the validated names adds exactly the subscribers
      `getSubscribers` selects, in registry order. */
  lemma {:induction false} RegisterMatchesFilter(registry: seq<Subscriber>, selected: seq<string>)
    ensures RegisterSubscribers(registry, Intersect(SubscriberNames(registry), selected))
         == Wrap(Filter(registry, selected))
  {
    var names := SubscriberNames(registry);
    var valid := Intersect(names, selected);
    forall s | s in registry
      ensures s.name in valid <==> s.name in selected
    {
      var i :| 0 <= i < |registry| && registry[i] == s;
      assert names[i] == s.name;
    }
    RegisterAgainst(registry, selected, valid);
  }

  lemma {:induction false} RegisterAgainst(registry: seq<Subscriber>, selected: seq<string>, valid: seq<string>)
    requires forall s :: s in registry ==> (s.name in valid <==> s.name in selected)
    ensures RegisterSubscribers(registry, valid) == Wrap(Filter(registry, selected))
    decreases |registry|
  {
    if |registry| > 0 {
      var init := registry[..|registry| - 1];
      var last := registry[|registry| - 1];
      assert forall s :: s in init ==> s in registry;
      RegisterAgainst(init, selected, valid);
      assert last in registry;
      var rest := Filter(init, selected);
      if last.name in selected {
        assert Filter(registry, selected) == rest + [last];
        WrapAppend(rest, last);
      } else {
        assert Filter(registry, selected) == rest;
      }
    }
  }

  lemma WrapAppend(xs: seq<Subscriber>, x: Subscriber)
    ensures Wrap(xs + [x]) == Wrap(xs) + [Registered(x)]
  {
    assert |Wrap(xs + [x])| == |Wrap(xs) + [Registered(x)]|;
  }

  /** `create`: the defaults, then the selected registered subscribers. */
  function Create(registry: seq<Subscriber>, baseHosts: set<string>, selected: seq<string>): (r: Result<Engine, Error>)
    ensures r.Err? <==> ValidateSubscribers(registry, selected).Err?
    ensures r.Ok? ==> r.value.origin == FromBaseUris(baseHosts)
    ensures r.Ok? ==> r.value.subscribers == Defaults + Wrap(GetSubscribers(registry, selected))
  {
    var validated :- ValidateSubscribers(registry, selected);
    RegisterMatchesFilter(registry, selected);
    Ok(Engine(FromBaseUris(baseHosts), Defaults + RegisterSubscribers(registry, validated)))
  }

  /** `createFromJobId`: as `create`, for a job the queue knows; an unknown
      job id fails first, before the selection is looked at. */
  function CreateFromJobId(registry: seq<Subscriber>, knownJobs: set<string>, jobId: string, selected: seq<string>): (r: Result<Engine, Error>)
    ensures jobId !in knownJobs ==> r == Err(InvalidJobId(jobId))
    ensures jobId in knownJobs ==> (r.Err? <==> ValidateSubscribers(registry, selected).Err?)
    ensures r.Ok? ==> r.value.origin == FromJobId(jobId)
    ensures r.Ok? ==> r.value.subscribers == Defaults + Wrap(GetSubscribers(registry, selected))
  {
    if jobId !in knownJobs then Err(InvalidJobId(jobId))
    else
      var validated :- ValidateSubscribers(registry, selected);
      RegisterMatchesFilter(registry, selected);
      Ok(Engine(FromJobId(jobId), Defaults + RegisterSubscribers(registry, validated)))
  }

  /** The engine's list always starts with robots, then the HTML crawler. */
  lemma DefaultsFirst(registry: seq<Subscriber>, baseHosts: set<string>, selected: seq<string>)
    ensures var r := Create(registry, baseHosts, selected);
      r.Ok? ==> (|r.value.subscribers| >= 2
        && r.value.subscribers[0] == Robots && r.value.subscribers[1] == HtmlCrawler
        && forall i :: 2 <= i < |r.value.subscribers| ==> r.value.subscribers[i].Registered?)
  {
  }
}
