/**
  A warm compile worker (crates/nisaba-compile-core/src/lib.rs). The workspace and the
  universe belong to the typesetter; the worker must keep its own record of them in step,
  also when an update fails half way. The typesetter's failures are inputs of each call.
 */
module CompileWorker {
  import opened Wrappers

  type Sources = map<string, string>

  /** What the typesetter compiles: an entry file in a set of files. */
  datatype Universe = Universe(entry: string, files: Sources)

  datatype Request = Request(project: string, entry: string, sources: Sources)

  /** The typesetter: the content it produces, and a digest of requests. */
  datatype Typesetter = Typesetter(content: (Universe, Sources) -> string, digest: Request -> nat)

  /** What the typesetter lets happen during one call. */
  datatype Conditions = Conditions(removable: string -> bool, rootable: bool)

  datatype Response = Response(content: string, reused: bool, hits: nat, misses: nat)

  /** The content of a compile that starts from nothing. */
  function FreshContent(t: Typesetter, request: Request): string {
    t.content(Universe(request.entry, request.sources), request.sources)
  }

  /** Sources the worker holds and the request no longer has. */
  function Gone(known: Sources, request: Request): set<string> { known.Keys - request.sources.Keys }

  class Worker {
    var workspace: Sources
    var universe: Universe
    var knownEntry: string
    var knownSources: Sources
    var compiles: nat
    var hits: nat
    var misses: nat
    var last: Option<nat>
    /** The project the worker was made for. */
    ghost const project: string

    /** The record agrees with the workspace and the universe, and every compile was counted. */
    ghost predicate InStep()
      reads this
    {
      workspace == knownSources && universe == Universe(knownEntry, knownSources) && hits + misses == compiles
    }

    /** The worker is exactly at this request. */
    ghost predicate At(request: Request)
      reads this
    {
      knownEntry == request.entry && knownSources == request.sources
    }

    /** The typesetter lets the worker follow the request. */
    ghost predicate CanFollow(request: Request, c: Conditions)
      reads this
    {
      && (forall path <- Gone(knownSources, request) :: c.removable(path))
      && (knownEntry == request.entry || c.rootable)
    }

    constructor (request: Request)
      ensures InStep() && At(request) && compiles == 0 && project == request.project
    {
      project := request.project;
      workspace := request.sources;
      universe := Universe(request.entry, request.sources);
      knownEntry := request.entry;
      knownSources := request.sources;
      compiles, hits, misses, last := 0, 0, 0, None;
    }

    /** Removes the sources that are gone, in any order; stops at one that cannot be removed. */
    method RemoveGone(request: Request, removable: string -> bool) returns (ok: bool)
      requires InStep()
      modifies this`workspace, this`universe, this`knownSources
      ensures InStep()
      ensures ok <==> forall path <- Gone(old(knownSources), request) :: removable(path)
      ensures ok ==> knownSources == old(knownSources) - Gone(old(knownSources), request)
      ensures !ok ==> knownSources.Keys <= old(knownSources).Keys
      ensures forall path :: path in knownSources ==>
                path in old(knownSources) && knownSources[path] == old(knownSources)[path]
    {
      var gone := Gone(knownSources, request);
      var left := gone;
      while left != {}
        invariant left <= gone && InStep()
        invariant knownSources == old(knownSources) - (gone - left)
        invariant forall path <- gone - left :: removable(path)
      {
        var path :| path in left;
        if !removable(path) { return false; }
        workspace := workspace - {path};
        universe := universe.(files := universe.files - {path});
        knownSources := knownSources - {path};
        left := left - {path};
      }
      ok := true;
    }

    /** Applies the sources that are new or have changed, in any order. */
    method ApplyChanged(request: Request)
      requires InStep() && knownSources.Keys <= request.sources.Keys
      modifies this`workspace, this`universe, this`knownSources
      ensures InStep() && knownSources == request.sources
    {
      var left := request.sources.Keys;
      while left != {}
        invariant left <= request.sources.Keys && InStep()
        invariant knownSources.Keys <= request.sources.Keys
        invariant forall path <- request.sources.Keys - left ::
                    path in knownSources && knownSources[path] == request.sources[path]
      {
        var path :| path in left;
        var source := request.sources[path];
        if path !in knownSources || knownSources[path] != source {
          workspace := workspace[path := source];
          universe := universe.(files := universe.files[path := source]);
          knownSources := knownSources[path := source];
        }
        left := left - {path};
      }
    }

    /**
      Brings the worker to the request. When the typesetter refuses a step, the worker stays
      in step with it, still rooted at the entry it had, and what it holds of a file is
      either what it held or what the request has.
     */
    method UpdateSources(request: Request, c: Conditions) returns (ok: bool)
      requires InStep()
      modifies this`workspace, this`universe, this`knownSources, this`knownEntry
      ensures InStep()
      ensures ok <==> old(CanFollow(request, c))
      ensures ok ==> At(request)
      ensures !ok ==> knownEntry == old(knownEntry)
      ensures !ok ==> knownSources == request.sources ||
                      forall path :: path in knownSources ==>
                        path in old(knownSources) && knownSources[path] == old(knownSources)[path]
    {
      ok := RemoveGone(request, c.removable);
      if !ok { return; }
      ApplyChanged(request);
      if knownEntry != request.entry {
        if !c.rootable { return false; }
        universe := Universe(request.entry, workspace);
        knownEntry := request.entry;
      }
    }

    method Compile(request: Request, reused: bool, t: Typesetter) returns (r: Response)
      requires InStep()
      modifies this`compiles, this`hits, this`misses, this`last
      ensures InStep() && compiles == old(compiles) + 1
      ensures r.content == t.content(universe, request.sources) && r.reused == reused
      ensures r.hits == hits && r.misses == misses && last == Some(t.digest(request))
      ensures hits == old(hits) + if old(last) == Some(t.digest(request)) then 1 else 0
    {
      var digest := t.digest(request);
      if last == Some(digest) {
        hits := hits + 1;
      } else {
        misses := misses + 1;
        last := Some(digest);
      }
      compiles := compiles + 1;
      r := Response(t.content(universe, request.sources), reused, hits, misses);
    }
  }
}
