/**
  The pool of warm workers, one for each project (crates/nisaba-compile-wasm/src/lib.rs,
  eviction from crates/nisaba-compile-core/src/lib.rs). The clock is an input of each call.
 */
module CompilePool {
  import opened Wrappers
  import opened CompileWorker

  datatype Slot = Slot(worker: Worker, lastUsed: nat)

  datatype PoolError = Invalid | AtCapacity | NoUniverse | UpdateFailed

  /** Idle time; none if the clock went back. */
  function IdleFor(slot: Slot, now: nat): nat { if now >= slot.lastUsed then now - slot.lastUsed else 0 }

  class CompileWorkers {
    var workers: map<string, Slot>
    const maxWorkers: nat
    const ttl: nat
    const typesetter: Typesetter
    const valid: Request -> bool

    ghost function Objects(): set<object>
      reads this
    {
      set id | id in workers :: workers[id].worker
    }

    /** No more workers than allowed, each in step and serving the project it was made for. */
    ghost predicate Valid()
      reads this, Objects()
    {
      |workers| <= maxWorkers
      && forall id <- workers :: workers[id].worker.InStep() && workers[id].worker.project == id
    }

    constructor (maxWorkers: nat, ttl: nat, typesetter: Typesetter, valid: Request -> bool)
      ensures Valid() && workers == map[]
      ensures this.maxWorkers == maxWorkers && this.ttl == ttl && this.typesetter == typesetter && this.valid == valid
    {
      this.maxWorkers, this.ttl, this.typesetter, this.valid := maxWorkers, ttl, typesetter, valid;
      workers := map[];
    }

    /** Keeps exactly the workers that have not been idle for too long. */
    method EvictIdle(now: nat)
      requires Valid()
      modifies this`workers
      ensures Valid()
      ensures workers == NotIdle(old(workers), now, ttl)
    {
      ghost var before := workers;
      workers := NotIdle(workers, now, ttl);
      SubmapIsNoLarger(workers, before);
    }

    /** Drops one worker, none of the others used less recently. */
    method EvictLru()
      requires Valid()
      modifies this`workers
      ensures Valid()
      ensures old(workers) == map[] ==> workers == map[]
      ensures old(workers) != map[] ==>
                exists victim :: Longest(old(workers), victim) && workers == old(workers) - {victim}
    {
      if workers == map[] { return; }
      var victim :| victim in workers;
      var left := workers.Keys - {victim};
      while left != {}
        invariant victim in workers && left <= workers.Keys
        invariant forall id <- workers.Keys - left :: workers[victim].lastUsed <= workers[id].lastUsed
      {
        var id :| id in left;
        if workers[id].lastUsed < workers[victim].lastUsed { victim := id; }
        left := left - {id};
      }
      ghost var before := workers;
      workers := workers - {victim};
      SubmapIsNoLarger(workers, before);
      assert Longest(before, victim) && workers == before - {victim};
    }

    /** Room for one more worker; there is none only in a pool that may hold no worker at all. */
    method MakeRoom(project: string) returns (ok: bool)
      requires Valid() && project !in workers
      modifies this`workers
      ensures Valid() && ok == (maxWorkers > 0)
      ensures ok ==> |workers| < maxWorkers
      ensures project !in workers && RoomMade(old(workers), workers, maxWorkers)
      ensures OthersStay(old(workers), workers, project, maxWorkers)
    {
      ghost var before := workers;
      if |workers| >= maxWorkers { EvictLru(); }
      RoomKeepsOthers(before, workers, project, maxWorkers);
      if |workers| >= maxWorkers { return false; }
      ok := true;
    }

    /** A new worker takes the place of the least recently used one if there is no room. */
    method ColdWorker(request: Request, rootable: bool, now: nat) returns (r: Result<bool, PoolError>)
      requires Valid() && request.project !in workers
      modifies this`workers
      ensures Valid()
      ensures r == if maxWorkers == 0 then Err(AtCapacity) else if rootable then Ok(false) else Err(NoUniverse)
      ensures r.Ok? <==> request.project in workers
      ensures r.Ok? ==> fresh(workers[request.project].worker)
      ensures r.Ok? ==> workers[request.project].lastUsed == now && workers[request.project].worker.At(request)
      ensures OthersStay(old(workers), workers, request.project, maxWorkers)
    {
      ghost var before := workers;
      var ok := MakeRoom(request.project);
      if !ok { return Err(AtCapacity); }
      if !rootable { return Err(NoUniverse); }
      var worker := new Worker(request);
      NewKeepsOthers(before, workers, request.project, Slot(worker, now), maxWorkers);
      AddWorker(request.project, worker, now);
      r := Ok(false);
    }

    /** The worker of a project: the warm one, if it has not idled out, or a new one. */
    method WorkerFor(request: Request, rootable: bool, now: nat) returns (r: Result<bool, PoolError>)
      requires Valid()
      modifies this`workers
      ensures Valid()
      ensures r == if Warm(old(workers), request.project, now, ttl) then Ok(true)
                   else if maxWorkers == 0 then Err(AtCapacity) else if rootable then Ok(false) else Err(NoUniverse)
      ensures r.Ok? <==> request.project in workers
      ensures r.Ok? && r.value ==> workers[request.project].worker == old(workers)[request.project].worker
      ensures r == Ok(false) ==> fresh(workers[request.project].worker) && workers[request.project].worker.At(request)
      ensures r.Ok? ==> workers[request.project].lastUsed == now
      ensures OthersStay(NotIdle(old(workers), now, ttl), workers, request.project, maxWorkers)
      ensures fresh(Objects() - old(Objects()))
    {
      EvictIdle(now);
      if request.project in workers {
        Touch(request.project, now);
        r := Ok(true);
      } else {
        r := ColdWorker(request, rootable, now);
      }
    }

    method Touch(id: string, now: nat)
      requires Valid() && id in workers
      modifies this`workers
      ensures Valid() && workers == old(workers)[id := old(workers)[id].(lastUsed := now)]
    {
      ghost var before := workers;
      workers := workers[id := workers[id].(lastUsed := now)];
      assert workers.Keys == before.Keys;
      SubmapIsNoLarger(workers, before);
    }

    method AddWorker(project: string, worker: Worker, now: nat)
      requires Valid() && project !in workers && |workers| < maxWorkers
      requires worker.InStep() && worker.project == project
      modifies this`workers
      ensures Valid() && workers == old(workers)[project := Slot(worker, now)]
    {
      OneKeyMore(workers, project, Slot(worker, now));
      workers := workers[project := Slot(worker, now)];
    }

    /** The project's worker serves the request, if it can follow it; no other worker is touched. */
    method Serve(request: Request, c: Conditions, reused: bool) returns (r: Result<Response, PoolError>)
      requires Valid() && request.project in workers
      modifies workers[request.project].worker
      ensures Valid()
      ensures r.Ok? <==> old(workers[request.project].worker.CanFollow(request, c))
      ensures r.Ok? ==> workers[request.project].worker.At(request)
      ensures r.Ok? ==> r.value.content == FreshContent(typesetter, request) && r.value.reused == reused
      ensures r.Err? ==> r.error == UpdateFailed
    {
      var worker := workers[request.project].worker;
      var ok := worker.UpdateSources(request, c);
      if !ok { return Err(UpdateFailed); }
      var response := worker.Compile(request, reused, typesetter);
      r := Ok(response);
    }

    /** A compile fails for want of a valid request, of a worker, or of a source it cannot follow. */
    ghost predicate Succeeds(request: Request, c: Conditions, now: nat)
      reads this, Objects()
    {
      && valid(request) && maxWorkers > 0
      && if Warm(workers, request.project, now, ttl) then workers[request.project].worker.CanFollow(request, c)
         else c.rootable
    }

    /**
      A compile through the pool. Whatever the pool has served before, and whichever of its
      calls failed, the content is that of a compile from nothing; the workers of the other
      projects are not touched.
     */
    method Compile(request: Request, c: Conditions, now: nat) returns (r: Result<Response, PoolError>)
      requires Valid()
      modifies this`workers, Objects()
      ensures Valid()
      ensures r.Ok? <==> old(Succeeds(request, c, now))
      ensures r.Ok? ==> request.project in workers && workers[request.project].lastUsed == now
                        && workers[request.project].worker.At(request)
      ensures r == Err(UpdateFailed) <==> valid(request) && Warm(old(workers), request.project, now, ttl)
                                          && !old(Succeeds(request, c, now))
      ensures r.Ok? ==> r.value.content == FreshContent(typesetter, request)
      ensures r.Ok? ==> r.value.reused == Warm(old(workers), request.project, now, ttl)
      ensures r == Err(Invalid) <==> !valid(request)
      ensures r == Err(AtCapacity) <==> valid(request) && maxWorkers == 0
      ensures if valid(request) then OthersStay(NotIdle(old(workers), now, ttl), workers, request.project, maxWorkers)
              else workers == old(workers)
      ensures forall id <- workers :: id != request.project ==> unchanged(workers[id].worker)
      ensures fresh(Objects() - old(Objects()))
    {
      if !valid(request) { return Err(Invalid); }
      var found := WorkerFor(request, c.rootable, now);
      if found.Err? { return Err(found.error); }
      r := Serve(request, c, found.value);
    }
  }

  /** The workers that have not idled out. */
  function NotIdle(workers: map<string, Slot>, now: nat, ttl: nat): map<string, Slot> {
    map id | id in workers && IdleFor(workers[id], now) <= ttl :: workers[id]
  }

  /** No worker has been unused for longer. */
  ghost predicate Longest(workers: map<string, Slot>, victim: string) {
    victim in workers && forall id <- workers :: workers[victim].lastUsed <= workers[id].lastUsed
  }

  /** Only a full pool gives up a worker, and then one used least recently. */
  ghost predicate RoomMade(before: map<string, Slot>, after: map<string, Slot>, maxWorkers: nat) {
    if |before| < maxWorkers || before == map[] then after == before
    else exists victim :: Longest(before, victim) && after == before - {victim}
  }

  /** A full pool gave up this worker, and no other, for a project it had no worker for. */
  ghost predicate Displaced(before: map<string, Slot>, after: map<string, Slot>, project: string, maxWorkers: nat,
                            id: string) {
    && project !in before && |before| >= maxWorkers && Longest(before, id)
    && forall other <- before :: other != id ==> other in after
  }

  /** The other projects keep their workers, but for one that a new worker may have displaced. */
  ghost predicate OthersStay(before: map<string, Slot>, after: map<string, Slot>, project: string, maxWorkers: nat) {
    && (forall id <- after :: id != project ==> id in before && after[id] == before[id])
    && (forall id <- before :: id != project && id !in after ==> Displaced(before, after, project, maxWorkers, id))
  }

  lemma NewKeepsOthers(before: map<string, Slot>, after: map<string, Slot>, project: string, slot: Slot,
                       maxWorkers: nat)
    requires OthersStay(before, after, project, maxWorkers)
    ensures OthersStay(before, after[project := slot], project, maxWorkers)
  {
    var now := after[project := slot];
    forall id <- before | id != project && id !in now ensures Displaced(before, now, project, maxWorkers, id) {
      assert Displaced(before, after, project, maxWorkers, id);
    }
  }

  lemma RoomKeepsOthers(before: map<string, Slot>, after: map<string, Slot>, project: string, maxWorkers: nat)
    requires RoomMade(before, after, maxWorkers) && project !in before
    ensures OthersStay(before, after, project, maxWorkers)
  {
  }

  /** The project has a worker that has not idled out. */
  predicate Warm(workers: map<string, Slot>, project: string, now: nat, ttl: nat) {
    project in workers && IdleFor(workers[project], now) <= ttl
  }

  lemma OneKeyMore(m: map<string, Slot>, id: string, slot: Slot)
    requires id !in m
    ensures |m[id := slot]| == |m| + 1
  {
    assert m[id := slot].Keys == m.Keys + {id};
    assert |m| == |m.Keys| && |m[id := slot]| == |m[id := slot].Keys|;
  }

  lemma SubmapIsNoLarger(a: map<string, Slot>, b: map<string, Slot>)
    requires a.Keys <= b.Keys
    ensures |a| <= |b|
    ensures a.Keys != b.Keys ==> |a| < |b|
  {
    KeysNoLarger(a.Keys, b.Keys);
    assert |a| == |a.Keys| && |b| == |b.Keys|;
  }

  lemma {:induction false} KeysNoLarger(a: set<string>, b: set<string>)
    requires a <= b
    ensures |a| <= |b| && (a != b ==> |a| < |b|)
  {
    assert b == a + (b - a);
  }

  /** A worker made for this one request. */
  method CompileFresh(request: Request, c: Conditions, t: Typesetter) returns (r: Option<Response>)
    ensures r.Some? <==> c.rootable
    ensures r.Some? ==> r.value.content == FreshContent(t, request) && !r.value.reused
  {
    if !c.rootable { return None; }
    var worker := new Worker(request);
    var ok := worker.UpdateSources(request, c);
    var response := worker.Compile(request, false, t);
    r := Some(response);
  }

  /** One call to the pool. */
  datatype Call = Call(request: Request, conditions: Conditions, now: nat)

  /** The typesetter refuses nothing. */
  ghost predicate Willing(c: Conditions) { c.rootable && forall path :: c.removable(path) }

  /** The content is that of a compile from nothing, and there is one whenever nothing stands in its way. */
  ghost predicate GoodAnswer(pool: CompileWorkers, call: Call, answer: Result<Response, PoolError>) {
    && (answer.Ok? ==> answer.value.content == FreshContent(pool.typesetter, call.request))
    && (pool.maxWorkers > 0 && pool.valid(call.request) && Willing(call.conditions) ==> answer.Ok?)
  }

  ghost predicate GoodAnswers(pool: CompileWorkers, calls: seq<Call>, answers: seq<Result<Response, PoolError>>) {
    |answers| <= |calls| && forall i :: 0 <= i < |answers| ==> GoodAnswer(pool, calls[i], answers[i])
  }

  method Answer(pool: CompileWorkers, call: Call) returns (answer: Result<Response, PoolError>)
    requires pool.Valid()
    modifies pool`workers, pool.Objects()
    ensures pool.Valid() && fresh(pool.Objects() - old(pool.Objects()))
    ensures GoodAnswer(pool, call, answer)
  {
    answer := pool.Compile(call.request, call.conditions, call.now);
  }

  /**
    Over any run of calls the pool keeps its bound and every answer is as good as a fresh one.
    A valid call is answered whenever the typesetter refuses nothing, whatever came before it.
   */
  method ServeAll(pool: CompileWorkers, calls: seq<Call>) returns (answers: seq<Result<Response, PoolError>>)
    requires pool.Valid()
    modifies pool`workers, pool.Objects()
    ensures pool.Valid() && |pool.workers| <= pool.maxWorkers
    ensures |answers| == |calls| && GoodAnswers(pool, calls, answers)
  {
    answers := [];
    for i := 0 to |calls|
      invariant pool.Valid() && fresh(pool.Objects() - old(pool.Objects()))
      invariant |answers| == i && GoodAnswers(pool, calls, answers)
    {
      var answer := Answer(pool, calls[i]);
      answers := answers + [answer];
    }
  }
}
