/** The pending-plugin loop that registers installed directory plugins after their base plugins
    (internal/extensions/store.go, RegisterIntoRegistry). */
module PluginWorklist {

  /** An installed plugin: its base ("" when the manifest names none) and whether its directory can be read. */
  datatype Entry = Entry(id: string, base: string, readable: bool)

  type Pending = map<string, Entry>

  /** How the loop ends. */
  datatype Outcome =
    | Registered
    | LoadFailed(id: string)
    | Unresolved

  ghost predicate ValidPending(pending: Pending, norm: string -> string) {
    forall id <- pending :: pending[id].id == id && norm(id) != ""
  }

  // ---------- What can be registered at all ----------

  /** directoryplugin.Load succeeds once the base resolves: the directory reads and a base is named. */
  predicate Loadable(e: Entry) {
    e.readable && e.base != ""
  }

  /** `chain` leads from its first plugin through base plugins to one that `roots` already holds;
      every plugin after the first can be loaded. */
  ghost predicate BaseChain(pending: Pending, norm: string -> string, roots: set<string>, chain: seq<string>) {
    && |chain| > 0
    && (forall k :: 0 <= k < |chain| ==> chain[k] in pending && pending[chain[k]].base != "")
    && (forall k :: 0 < k < |chain| ==> Loadable(pending[chain[k]]))
    && (forall k :: 0 <= k < |chain| - 1 ==> norm(pending[chain[k]].base) == norm(chain[k + 1]))
    && norm(pending[chain[|chain| - 1]].base) in roots
  }

  /** The base chain of `id` ends in an already registered plugin. */
  ghost predicate Grounded(pending: Pending, norm: string -> string, roots: set<string>, id: string) {
    exists chain :: BaseChain(pending, norm, roots, chain) && chain[0] == id
  }

  /** Each plugin registered so far came after its base: `order` lists them as registered. */
  ghost predicate BasesFirst(pending: Pending, norm: string -> string, roots: set<string>, order: seq<string>) {
    forall k :: 0 <= k < |order| ==>
      && order[k] in pending && Loadable(pending[order[k]])
      && (norm(pending[order[k]].base) in roots
          || exists j :: 0 <= j < k && norm(order[j]) == norm(pending[order[k]].base))
  }

  lemma {:induction false} OrderedMeansGrounded(
    pending: Pending, norm: string -> string, roots: set<string>, order: seq<string>, k: nat)
    requires BasesFirst(pending, norm, roots, order) && k < |order|
    ensures Grounded(pending, norm, roots, order[k])
    decreases k
  {
    if norm(pending[order[k]].base) in roots {
      assert BaseChain(pending, norm, roots, [order[k]]);
    } else {
      var j :| 0 <= j < k && norm(order[j]) == norm(pending[order[k]].base);
      OrderedMeansGrounded(pending, norm, roots, order, j);
      var chain :| BaseChain(pending, norm, roots, chain) && chain[0] == order[j];
      assert BaseChain(pending, norm, roots, [order[k]] + chain);
    }
  }

  /** When every loadable plugin whose base is registered is itself registered, so is the whole grounded part. */
  lemma {:induction false} ClosedUnderBases(
    pending: Pending, norm: string -> string, roots: set<string>, registered: set<string>, chain: seq<string>)
    requires BaseChain(pending, norm, roots, chain) && roots <= registered
    requires forall id <- pending :: Loadable(pending[id]) && norm(pending[id].base) in registered ==> norm(id) in registered
    ensures norm(pending[chain[0]].base) in registered
    decreases |chain|
  {
    if |chain| > 1 {
      assert BaseChain(pending, norm, roots, chain[1..]);
      ClosedUnderBases(pending, norm, roots, registered, chain[1..]);
      assert chain[1] in pending;
    }
  }

  // ---------- The loop ----------

  datatype RegisterResult = Added | BlankId | AlreadyRegistered

  class Registry {
    const norm: string -> string
    var plugins: set<string>

    constructor (norm: string -> string, builtin: set<string>)
      ensures this.norm == norm && plugins == builtin
    {
      this.norm := norm;
      plugins := builtin;
    }

    predicate Resolves(id: string)
      reads this
    {
      norm(id) != "" && norm(id) in plugins
    }

    /** RegisterPlugin, for a plugin that is not nil. */
    method RegisterPlugin(id: string) returns (result: RegisterResult)
      modifies this
      ensures result.BlankId? <==> norm(id) == ""
      ensures result.AlreadyRegistered? <==> norm(id) != "" && norm(id) in old(plugins)
      ensures plugins == if result.Added? then old(plugins) + {norm(id)} else old(plugins)
    {
      if norm(id) == "" {
        return BlankId;
      }
      if norm(id) in plugins {
        return AlreadyRegistered;
      }
      plugins := plugins + {norm(id)};
      return Added;
    }
  }

  /** One id of one pass: skipped, failed, or registered and no longer pending. */
  method VisitPending(registry: Registry, pending: Pending, id: string) returns (visited: bool, failed: bool)
    requires id in pending && registry.norm(id) != ""
    modifies registry
    ensures failed <==> (pending[id].base == "" || old(registry.Resolves(pending[id].base))) && !Loadable(pending[id])
    ensures visited <==> old(registry.Resolves(pending[id].base)) && Loadable(pending[id])
    ensures registry.plugins == if visited then old(registry.plugins) + {registry.norm(id)} else old(registry.plugins)
  {
    var entry := pending[id];
    if entry.base != "" && !registry.Resolves(entry.base) {
      return false, false;
    }
    if entry.base == "" || !entry.readable {
      return false, true;
    }
    // An "already registered" error is ignored; the id is not blank.
    var _ := registry.RegisterPlugin(id);
    return true, false;
  }

  /** What the loop keeps: registered plugins and remaining ones account for all of them, bases first. */
  ghost predicate Progress(all: Pending, norm: string -> string, roots: set<string>,
                           plugins: set<string>, pending: Pending, order: seq<string>)
  {
    && pending.Keys <= all.Keys && (forall id <- pending :: pending[id] == all[id])
    && plugins == roots + (set id | id in order :: norm(id))
    && (forall id :: id in order <==> id in all && id !in pending)
    && BasesFirst(all, norm, roots, order)
  }

  lemma ProgressStep(all: Pending, norm: string -> string, roots: set<string>,
                     plugins: set<string>, pending: Pending, order: seq<string>, id: string)
    requires Progress(all, norm, roots, plugins, pending, order)
    requires id in pending && Loadable(pending[id]) && norm(pending[id].base) in plugins
    ensures Progress(all, norm, roots, plugins + {norm(id)}, pending - {id}, order + [id])
  {
    var order' := order + [id];
    forall k | 0 <= k < |order'|
      ensures order'[k] in all && Loadable(all[order'[k]])
      ensures norm(all[order'[k]].base) in roots
              || exists j :: 0 <= j < k && norm(order'[j]) == norm(all[order'[k]].base)
    {
      if k < |order| {
        if norm(all[order[k]].base) !in roots {
          var j :| 0 <= j < k && norm(order[j]) == norm(all[order[k]].base);
          assert order'[j] == order[j];
        }
      } else if norm(all[id].base) !in roots {
        var b :| b in order && norm(b) == norm(all[id].base);
        var j :| 0 <= j < |order| && order[j] == b;
        assert order'[j] == b;
      }
    }
    assert plugins + {norm(id)} == roots + (set x | x in order' :: norm(x)) by {
      forall n | n in plugins + {norm(id)} ensures n in roots + (set x | x in order' :: norm(x)) {
        if n !in roots && n != norm(id) {
          var x :| x in order && norm(x) == n;
          assert x in order';
        } else if n !in roots {
          assert id in order';
        }
      }
    }
  }

  /** The pass over the ids collected at its start. */
  method Pass(registry: Registry, ghost all: Pending, ghost roots: set<string>, pending: Pending, ghost order: seq<string>)
    returns (rest: Pending, progress: bool, failure: seq<string>, ghost order': seq<string>)
    requires ValidPending(all, registry.norm) && "" !in roots
    requires Progress(all, registry.norm, roots, registry.plugins, pending, order)
    modifies registry
    ensures Progress(all, registry.norm, roots, registry.plugins, rest, order')
    ensures |failure| <= 1
    ensures failure == [] ==> (progress <==> |rest| < |pending|)
    ensures failure == [] && !progress ==>
              forall id <- rest :: rest[id].base != "" && registry.norm(rest[id].base) !in registry.plugins
    ensures failure != [] ==> failure[0] in rest && !Loadable(rest[failure[0]])
                              && (rest[failure[0]].base == "" || registry.norm(rest[failure[0]].base) in registry.plugins)
  {
    rest, progress, failure, order' := pending, false, [], order;
    var ids := pending.Keys;
    while ids != {}
      invariant ids <= rest.Keys <= pending.Keys
      invariant Progress(all, registry.norm, roots, registry.plugins, rest, order')
      invariant failure == []
      invariant progress ==> |rest| < |pending|
      invariant !progress ==> rest == pending
      invariant !progress ==> forall id <- pending :: id !in ids ==>
                  pending[id].base != "" && registry.norm(pending[id].base) !in registry.plugins
      decreases ids
    {
      var id :| id in ids;
      NamesAreNonBlank(all, registry.norm, roots, registry.plugins, rest, order');
      var before := registry.plugins;
      var visited, failed := VisitPending(registry, rest, id);
      if failed {
        failure := [id];
        return;
      }
      ids := ids - {id};
      if visited {
        ProgressStep(all, registry.norm, roots, before, rest, order', id);
        assert rest.Keys - {id} == (rest - {id}).Keys;
        SmallerMap(rest, id);
        rest, order', progress := rest - {id}, order' + [id], true;
      }
    }
  }

  lemma SmallerMap(m: Pending, id: string)
    requires id in m
    ensures |m - {id}| == |m| - 1
  {
    assert (m - {id}).Keys == m.Keys - {id};
  }

  lemma NamesAreNonBlank(all: Pending, norm: string -> string, roots: set<string>,
                         plugins: set<string>, pending: Pending, order: seq<string>)
    requires ValidPending(all, norm) && "" !in roots
    requires Progress(all, norm, roots, plugins, pending, order)
    ensures "" !in plugins
    ensures ValidPending(pending, norm)
  {}

  /** RegisterIntoRegistry's worklist. It registers exactly the loadable plugins whose base chain ends in an
      already registered plugin, each after its base; what is left over on a stall is exactly the rest. */
  method RegisterPending(registry: Registry, all: Pending) returns (outcome: Outcome, ghost order: seq<string>)
    requires ValidPending(all, registry.norm) && "" !in registry.plugins
    modifies registry
    ensures BasesFirst(all, registry.norm, old(registry.plugins), order)
    ensures registry.plugins == old(registry.plugins) + (set id | id in order :: registry.norm(id))
    ensures outcome.Registered? ==> forall id <- all :: id in order && all[id].readable && all[id].base != ""
    ensures outcome.Registered? <==>
              forall id <- all :: Loadable(all[id]) && Grounded(all, registry.norm, old(registry.plugins), id)
    ensures outcome.Unresolved? ==>
              && (forall id <- all :: all[id].base != "")
              && (forall id <- all :: id in order <==> Grounded(all, registry.norm, old(registry.plugins), id))
              && (exists id <- all :: id !in order)
    ensures outcome.LoadFailed? <==>
              exists id <- all :: !Loadable(all[id]) &&
                (all[id].base == "" || Grounded(all, registry.norm, old(registry.plugins), id))
    ensures outcome.LoadFailed? ==>
              outcome.id in all && (all[outcome.id].readable ==> all[outcome.id].base == "")
              && (all[outcome.id].base == "" || Grounded(all, registry.norm, old(registry.plugins), outcome.id))
  {
    var pending := all;
    ghost var roots := registry.plugins;
    order := [];
    while |pending| > 0
      invariant Progress(all, registry.norm, roots, registry.plugins, pending, order)
      decreases |pending|
    {
      var rest, progress, failure, order' := Pass(registry, all, roots, pending, order);
      order := order';
      if failure != [] {
        FailureIsGrounded(all, registry.norm, roots, registry.plugins, rest, order, failure[0]);
        return LoadFailed(failure[0]), order;
      }
      if !progress {
        assert rest != map[] by { assert |rest| == |pending| || |rest| > |pending|; assert |rest| > 0; }
        StalledIsUngrounded(all, registry.norm, roots, registry.plugins, rest, order);
        return Unresolved, order;
      }
      pending := rest;
    }
    AllGrounded(all, registry.norm, roots, registry.plugins, pending, order);
    return Registered, order;
  }

  lemma FailureIsGrounded(all: Pending, norm: string -> string, roots: set<string>,
                          plugins: set<string>, pending: Pending, order: seq<string>, id: string)
    requires Progress(all, norm, roots, plugins, pending, order)
    requires id in pending && (pending[id].base == "" || norm(pending[id].base) in plugins)
    ensures all[id].base == "" || Grounded(all, norm, roots, id)
  {
    if all[id].base != "" {
      if norm(all[id].base) in roots {
        assert BaseChain(all, norm, roots, [id]);
      } else {
        var b :| b in order && norm(b) == norm(all[id].base);
        var k :| 0 <= k < |order| && order[k] == b;
        OrderedMeansGrounded(all, norm, roots, order, k);
        var chain :| BaseChain(all, norm, roots, chain) && chain[0] == b;
        assert BaseChain(all, norm, roots, [id] + chain);
      }
    }
  }

  lemma StalledIsUngrounded(all: Pending, norm: string -> string, roots: set<string>,
                            plugins: set<string>, pending: Pending, order: seq<string>)
    requires Progress(all, norm, roots, plugins, pending, order)
    requires pending != map[]
    requires forall id <- pending :: pending[id].base != "" && norm(pending[id].base) !in plugins
    ensures forall id <- all :: all[id].base != ""
    ensures forall id <- all :: id in order <==> Grounded(all, norm, roots, id)
    ensures exists id <- all :: id !in order
  {
    forall id | id in all
      ensures all[id].base != "" && (id in order <==> Grounded(all, norm, roots, id))
    {
      if id in order {
        var k :| 0 <= k < |order| && order[k] == id;
        OrderedMeansGrounded(all, norm, roots, order, k);
      } else if Grounded(all, norm, roots, id) {
        var chain :| BaseChain(all, norm, roots, chain) && chain[0] == id;
        ClosedUnderBases(all, norm, roots, plugins, chain);
        assert false;
      }
    }
    var left :| left in pending;
    assert left in all && left !in order;
  }

  lemma AllGrounded(all: Pending, norm: string -> string, roots: set<string>,
                    plugins: set<string>, pending: Pending, order: seq<string>)
    requires Progress(all, norm, roots, plugins, pending, order) && |pending| == 0
    ensures forall id <- all :: id in order && Loadable(all[id]) && Grounded(all, norm, roots, id)
  {
    forall id | id in all
      ensures id in order && Loadable(all[id]) && Grounded(all, norm, roots, id)
    {
      assert id !in pending;
      var k :| 0 <= k < |order| && order[k] == id;
      OrderedMeansGrounded(all, norm, roots, order, k);
    }
  }

  // ---------- What an unresolved plugin looks like ----------

  /** A walk along base plugins that stays inside `pending`. */
  ghost predicate Walk(pending: Pending, norm: string -> string, path: seq<string>) {
    && |path| > 0
    && (forall k :: 0 <= k < |path| ==> path[k] in pending)
    && (forall k :: 0 <= k < |path| - 1 ==> norm(pending[path[k]].base) == norm(path[k + 1]))
  }

  /** The base of `id` is neither registered nor installed. */
  ghost predicate MissingBase(pending: Pending, norm: string -> string, roots: set<string>, id: string)
    requires id in pending
  {
    && norm(pending[id].base) !in roots
    && (forall other <- pending :: norm(other) != norm(pending[id].base))
  }

  /** The walk from `id` runs into a missing base or comes back to a plugin it has passed. */
  ghost predicate DeadEnd(pending: Pending, norm: string -> string, roots: set<string>, id: string) {
    exists path ::
      && Walk(pending, norm, path) && path[0] == id
      && (|| MissingBase(pending, norm, roots, path[|path| - 1])
          || (exists i, j :: 0 <= i < j < |path| && path[i] == path[j]))
  }

  /** From an ungrounded plugin one can walk on through ungrounded plugins until a base is missing. */
  lemma {:induction false} WalkUngrounded(
    pending: Pending, norm: string -> string, roots: set<string>, id: string, n: nat) returns (path: seq<string>)
    requires forall x <- pending :: Loadable(pending[x])
    requires id in pending && !Grounded(pending, norm, roots, id)
    ensures Walk(pending, norm, path) && path[0] == id
    ensures |path| == n + 1 || MissingBase(pending, norm, roots, path[|path| - 1])
    decreases n
  {
    if norm(pending[id].base) in roots {
      assert BaseChain(pending, norm, roots, [id]);
    }
    if n == 0 || MissingBase(pending, norm, roots, id) {
      path := [id];
    } else {
      var next :| next in pending && norm(next) == norm(pending[id].base);
      if Grounded(pending, norm, roots, next) {
        var chain :| BaseChain(pending, norm, roots, chain) && chain[0] == next;
        assert BaseChain(pending, norm, roots, [id] + chain);
      }
      var rest := WalkUngrounded(pending, norm, roots, next, n - 1);
      path := [id] + rest;
    }
  }

  lemma {:induction false} DistinctIsShort(path: seq<string>, keys: set<string>)
    requires forall k :: 0 <= k < |path| ==> path[k] in keys
    requires forall i, j :: 0 <= i < j < |path| ==> path[i] != path[j]
    ensures |path| <= |keys|
    decreases |path|
  {
    if path != [] {
      var last := path[|path| - 1];
      var init := path[..|path| - 1];
      forall k | 0 <= k < |init| ensures init[k] in keys - {last} {
        assert init[k] == path[k];
      }
      DistinctIsShort(init, keys - {last});
    }
  }

  /** A plugin that stays unresolved has a missing base or a cycle of bases ahead of it. */
  lemma UngroundedIsDeadEnd(pending: Pending, norm: string -> string, roots: set<string>, id: string)
    requires forall x <- pending :: Loadable(pending[x])
    requires id in pending && !Grounded(pending, norm, roots, id)
    ensures DeadEnd(pending, norm, roots, id)
  {
    var path := WalkUngrounded(pending, norm, roots, id, |pending|);
    assert |pending.Keys| == |pending|;
    if !(exists i, j :: 0 <= i < j < |path| && path[i] == path[j]) {
      DistinctIsShort(path, pending.Keys);
    }
  }

  /** With distinct registry names the base of a plugin is unique, so a walk stays on the chain it starts on. */
  lemma {:induction false} WalkFollowsChain(
    pending: Pending, norm: string -> string, roots: set<string>, path: seq<string>, chain: seq<string>, k: nat)
    requires forall a, b :: a in pending && b in pending && norm(a) == norm(b) ==> a == b
    requires forall x <- pending :: norm(x) !in roots
    requires Walk(pending, norm, path) && BaseChain(pending, norm, roots, chain) && path[0] == chain[0]
    requires k < |path|
    ensures k < |chain| && path[k] == chain[k]
    decreases k
  {
    if k > 0 {
      WalkFollowsChain(pending, norm, roots, path, chain, k - 1);
      assert norm(path[k]) == norm(pending[chain[k - 1]].base);
    }
  }

  /** A chain that ends in a registered plugin never comes back to a plugin it has passed. */
  lemma {:induction false} ChainsDoNotCycle(
    pending: Pending, norm: string -> string, roots: set<string>, chain: seq<string>, i: nat, j: nat)
    requires forall a, b :: a in pending && b in pending && norm(a) == norm(b) ==> a == b
    requires forall x <- pending :: norm(x) !in roots
    requires BaseChain(pending, norm, roots, chain)
    requires i < j < |chain| && chain[i] == chain[j]
    ensures false
    decreases |chain| - j
  {
    assert norm(pending[chain[i]].base) == norm(chain[i + 1]);
    if j < |chain| - 1 {
      assert norm(chain[i + 1]) == norm(chain[j + 1]);
      ChainsDoNotCycle(pending, norm, roots, chain, i + 1, j + 1);
    }
  }

  lemma ChainBaseIsKnown(pending: Pending, norm: string -> string, roots: set<string>, chain: seq<string>, k: nat)
    requires BaseChain(pending, norm, roots, chain) && k < |chain|
    ensures !MissingBase(pending, norm, roots, chain[k])
  {
    if k < |chain| - 1 {
      assert chain[k + 1] in pending && norm(chain[k + 1]) == norm(pending[chain[k]].base);
    }
  }

  /** With loadable plugins of distinct names, none of them registered before, a plugin stays unresolved
      if and only if its bases run into a missing one or a cycle. */
  lemma UnresolvedIffDeadEnd(pending: Pending, norm: string -> string, roots: set<string>, id: string)
    requires forall a, b :: a in pending && b in pending && norm(a) == norm(b) ==> a == b
    requires forall x <- pending :: norm(x) !in roots && Loadable(pending[x])
    requires id in pending
    ensures !Grounded(pending, norm, roots, id) <==> DeadEnd(pending, norm, roots, id)
  {
    if !Grounded(pending, norm, roots, id) {
      UngroundedIsDeadEnd(pending, norm, roots, id);
    } else if DeadEnd(pending, norm, roots, id) {
      var chain :| BaseChain(pending, norm, roots, chain) && chain[0] == id;
      var path :|
        && Walk(pending, norm, path) && path[0] == id
        && (|| MissingBase(pending, norm, roots, path[|path| - 1])
            || (exists i, j :: 0 <= i < j < |path| && path[i] == path[j]));
      if MissingBase(pending, norm, roots, path[|path| - 1]) {
        var last := |path| - 1;
        WalkFollowsChain(pending, norm, roots, path, chain, last);
        ChainBaseIsKnown(pending, norm, roots, chain, last);
      } else {
        var i, j :| 0 <= i < j < |path| && path[i] == path[j];
        WalkFollowsChain(pending, norm, roots, path, chain, i);
        WalkFollowsChain(pending, norm, roots, path, chain, j);
        ChainsDoNotCycle(pending, norm, roots, chain, i, j);
      }
    }
  }
}
