/** Creating and deleting dependency edges. Creation runs the circular
    dependency check first and inserts the edge only when the new target cannot
    already reach the new source, so the edge set stays acyclic. */
module Dependencies {
  import opened Wrappers
  import opened Http
  import opened Body
  import opened Entities
  import opened Graph
  import opened Validation

  /** The stored type code: `type || "0"`. */
  function KindOrDefault(kind: Field<string>): (code: string)
    ensures kind.Given? && kind.value != "" ==> code == kind.value
    ensures !kind.Given? || kind.value == "" ==> code == "0"
  {
    if TruthyString(kind) then kind.value else "0"
  }

  /** `checkCircularDependency(source, target)`: true when the target already
      reaches the source, computed as `hasPath(target, source)`. */
  method CheckCircularDependency(edges: Edges, sourceId: int, targetId: int) returns (cycle: bool)
    ensures cycle <==> Reachable(edges, targetId, sourceId)
    ensures sourceId == targetId ==> cycle
  {
    ReachableRefl(edges, sourceId);
    var expansions;
    cycle, expansions := HasPath(edges, targetId, sourceId);
  }

  /** `createDependency`. `taskIds` are the existing tasks, which the edge's
      endpoints must name for the store to accept the row; `id` is the fresh
      identifier the store assigns. */
  method CreateDependency(taskIds: set<int>, edges: Edges, body: DependencyBody, id: int)
    returns (r: Result<Edges, Failure>)
    requires id !in edges
    ensures ValidateDependency(body).None? ==> r == Failure(ValidationFailed)
    ensures var v := ValidateDependency(body);
            v.Some? && Reachable(edges, v.value.targetId, v.value.sourceId) ==>
              r == Failure(BadRequest("Circular dependency detected"))
    ensures var v := ValidateDependency(body);
            v.Some? && v.value.sourceId == v.value.targetId ==>
              r == Failure(BadRequest("Circular dependency detected"))
    ensures var v := ValidateDependency(body);
            r.Success? <==>
              && v.Some?
              && !Reachable(edges, v.value.targetId, v.value.sourceId)
              && v.value.sourceId in taskIds && v.value.targetId in taskIds
    ensures var v := ValidateDependency(body);
            r.Success? ==>
              r.value == edges[id := Dependency(id, v.value.sourceId, v.value.targetId, KindOrDefault(v.value.kind))]
    ensures r.Success? && Acyclic(edges) ==> Acyclic(r.value)
  {
    var v := ValidateDependency(body);
    if v.None? {
      return Failure(ValidationFailed);
    }
    var req := v.value;
    var cycle := CheckCircularDependency(edges, req.sourceId, req.targetId);
    if cycle {
      return Failure(BadRequest("Circular dependency detected"));
    }
    if req.sourceId !in taskIds || req.targetId !in taskIds {
      return Failure(ServerError("Failed to create dependency"));
    }
    var e := Dependency(id, req.sourceId, req.targetId, KindOrDefault(req.kind));
    if Acyclic(edges) {
      InsertPreservesAcyclic(edges, id, e);
    }
    r := Success(edges[id := e]);
  }

  /** `deleteDependency`: removes exactly the named edge; an unknown id is a
      store error and changes nothing. Removal cannot create a cycle. */
  function DeleteDependency(edges: Edges, id: int): (r: Result<Edges, Failure>)
    ensures r.Success? <==> id in edges
    ensures r.Failure? ==> r.error == ServerError("Failed to delete dependency")
    ensures r.Success? ==> r.value.Keys == edges.Keys - {id}
    ensures r.Success? ==> forall k :: k in r.value ==> r.value[k] == edges[k]
    ensures r.Success? && Acyclic(edges) ==> Acyclic(r.value)
  {
    if id in edges then
      RemovePreservesAcyclic(edges, id);
      Success(edges - {id})
    else
      Failure(ServerError("Failed to delete dependency"))
  }

  /** A worked case: the chain T1 -> T2 -> T3 is acyclic, and a dependency
      from T3 back to T1 is circular, because T1 already reaches T3. */
  lemma {:induction false} ChainRejectsClosingEdge()
    ensures var edges := map[1 := Dependency(1, 1, 2, "0"), 2 := Dependency(2, 2, 3, "0")];
            Acyclic(edges) && Reachable(edges, 1, 3) && !Reachable(edges, 3, 1)
  {
    var edges := map[1 := Dependency(1, 1, 2, "0"), 2 := Dependency(2, 2, 3, "0")];
    assert edges[1].targetId in Succ(edges, 1);
    assert edges[2].targetId in Succ(edges, 2);
    assert Succ(edges, 2) <= {3};
    assert Succ(edges, 3) == {};
    assert IsPath(edges, [1, 2, 3]);
    ClosedSetBlocks(edges, {3}, 3, 2);
    ClosedSetBlocks(edges, {3}, 3, 1);
    ClosedSetBlocks(edges, {2, 3}, 2, 1);
  }
}
