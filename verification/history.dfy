/**
 * Sequences of mutating requests served one after another, and what holds
 * across them: the invariant, the counter, fresh and increasing ids, and the
 * fact that a deleted id never comes back.
 */
module History {
  import opened Text
  import opened Recipes
  import opened RecipeTable

  /** A mutating request, as routed to its handler. */
  datatype Request =
    | Post(dto: RecipeDto)
    | Delete(id: int)
    | Put(id: int, dto: RecipeDto)

  /** Serves one request. */
  function Serve(t: Table, req: Request): Transition
  {
    match req
    case Post(dto) => CreateStep(t, dto)
    case Delete(id) => DeleteStep(t, id)
    case Put(id, dto) => UpdateStep(t, id, dto)
  }

  /** The answers to a sequence of requests and the final state. */
  datatype Run = Run(outcomes: seq<Outcome>, final: Table)

  /** Serves the requests in order, each on the state the previous one left. */
  function Replay(t: Table, reqs: seq<Request>): (r: Run)
    ensures |r.outcomes| == |reqs|
    ensures r.final.nextId >= t.nextId
    decreases |reqs|
  {
    if reqs == [] then Run([], t)
    else
      var first := Serve(t, reqs[0]);
      var rest := Replay(first.after, reqs[1..]);
      Run([first.outcome] + rest.outcomes, rest.final)
  }

  /** The number of POST requests in `reqs`. */
  function Posts(reqs: seq<Request>): nat
  {
    if reqs == [] then 0 else (if reqs[0].Post? then 1 else 0) + Posts(reqs[1..])
  }

  /** Every request sequence keeps the table invariant. */
  lemma {:induction false} ReplayKeepsInv(t: Table, reqs: seq<Request>)
    requires Inv(t)
    ensures Inv(Replay(t, reqs).final)
    decreases |reqs|
  {
    if reqs != [] {
      ReplayKeepsInv(Serve(t, reqs[0]).after, reqs[1..]);
    }
  }

  /** The counter moves by exactly one per POST, successful or not. */
  lemma {:induction false} CounterCountsPosts(t: Table, reqs: seq<Request>)
    ensures Replay(t, reqs).final.nextId == t.nextId + Posts(reqs)
    decreases |reqs|
  {
    if reqs != [] {
      CounterCountsPosts(Serve(t, reqs[0]).after, reqs[1..]);
    }
  }

  /**
   * Every recipe created in `r` has an id above `lo` and at most the final
   * counter.
   */
  ghost predicate CreatedBetween(r: Run, lo: int)
  {
    forall i :: 0 <= i < |r.outcomes| && r.outcomes[i].Created? ==>
      lo < r.outcomes[i].recipe.id <= r.final.nextId
  }

  /** The created ids in `outcomes` are strictly increasing. */
  ghost predicate CreatedIncreasing(outcomes: seq<Outcome>)
  {
    forall i, j :: 0 <= i < j < |outcomes| && outcomes[i].Created? && outcomes[j].Created? ==>
      outcomes[i].recipe.id < outcomes[j].recipe.id
  }

  /**
   * Every id a run hands out is new (above the counter it started from, so
   * never one issued before) and the ids come out strictly increasing.
   */
  lemma {:induction false} CreatedIdsFresh(t: Table, reqs: seq<Request>)
    ensures CreatedBetween(Replay(t, reqs), t.nextId)
    ensures CreatedIncreasing(Replay(t, reqs).outcomes)
    decreases |reqs|
  {
    if reqs != [] {
      var first := Serve(t, reqs[0]);
      var rest := Replay(first.after, reqs[1..]);
      CreatedIdsFresh(first.after, reqs[1..]);
      var r := Replay(t, reqs);
      assert r.outcomes == [first.outcome] + rest.outcomes && r.final == rest.final;
      assert first.outcome.Created? ==> first.outcome.recipe.id == first.after.nextId == t.nextId + 1;
      assert first.after.nextId <= rest.final.nextId;
      forall i | 0 <= i < |r.outcomes| && r.outcomes[i].Created?
        ensures t.nextId < r.outcomes[i].recipe.id <= r.final.nextId
      {
        if i > 0 {
          assert r.outcomes[i] == rest.outcomes[i - 1];
        }
      }
      forall i, j | 0 <= i < j < |r.outcomes| && r.outcomes[i].Created? && r.outcomes[j].Created?
        ensures r.outcomes[i].recipe.id < r.outcomes[j].recipe.id
      {
        assert r.outcomes[j] == rest.outcomes[j - 1];
        if i > 0 {
          assert r.outcomes[i] == rest.outcomes[i - 1];
        }
      }
    }
  }

  /** No id created by a run was issued before it started. */
  lemma NoIdReissued(t: Table, reqs: seq<Request>, i: int)
    requires 0 <= i < |Replay(t, reqs).outcomes| && Replay(t, reqs).outcomes[i].Created?
    ensures !Issued(t, Replay(t, reqs).outcomes[i].recipe.id)
  {
    CreatedIdsFresh(t, reqs);
  }

  /** An id that was handed out and is no longer stored: it was deleted. */
  ghost predicate Retired(t: Table, id: int)
  {
    Issued(t, id) && id !in t.recipes
  }

  /**
   * Once retired, an id stays retired whatever follows: every later DELETE of
   * it answers NotFound, every later PUT of it throws, and no answer ever
   * carries a recipe with that id again.
   */
  lemma {:induction false} RetiredStaysRetired(t: Table, reqs: seq<Request>, id: int)
    requires Inv(t) && Retired(t, id)
    ensures var r := Replay(t, reqs);
      && Retired(r.final, id)
      && (forall i :: 0 <= i < |reqs| && reqs[i] == Delete(id) ==> r.outcomes[i] == NotFound)
      && (forall i :: 0 <= i < |reqs| && reqs[i].Put? && reqs[i].id == id ==> r.outcomes[i] == KeyNotFoundThrown)
      && (forall i :: 0 <= i < |reqs| && (r.outcomes[i].Ok? || r.outcomes[i].Created?) ==> r.outcomes[i].recipe.id != id)
    decreases |reqs|
  {
    if reqs != [] {
      var first := Serve(t, reqs[0]);
      RetiredStaysRetired(first.after, reqs[1..], id);
      var rest := Replay(first.after, reqs[1..]);
      var r := Replay(t, reqs);
      assert r.outcomes == [first.outcome] + rest.outcomes;
      assert first.outcome.Ok? ==> first.outcome.recipe.id != id;
      forall i | 1 <= i < |reqs|
        ensures r.outcomes[i] == rest.outcomes[i - 1] && reqs[i] == reqs[1..][i - 1]
      {
      }
    }
  }

  /**
   * DELETE of a stored id succeeds with the stored recipe, and then every
   * later DELETE of the same id answers NotFound.
   */
  lemma DeleteSucceedsOnce(t: Table, id: int, later: seq<Request>)
    requires Inv(t) && id in t.recipes
    ensures var r := Replay(t, [Delete(id)] + later);
      && r.outcomes[0] == Ok(t.recipes[id])
      && forall i :: 0 <= i < |later| && later[i] == Delete(id) ==> r.outcomes[i + 1] == NotFound
  {
    var reqs := [Delete(id)] + later;
    assert reqs[0] == Delete(id) && reqs[1..] == later;
    var first := Serve(t, reqs[0]);
    assert Retired(first.after, id);
    RetiredStaysRetired(first.after, later, id);
  }

  /**
   * A worked example: POST of a pasta recipe on a fresh table is created with
   * id 1; filtering by the ingredient "flour" finds it although the stored
   * name is "Flour"; DELETE of id 1 answers the same recipe; the list is then
   * empty.
   */
  lemma PastaScenario()
    ensures
      var flour := Ingredient("Flour", "g", 200);
      var pasta := Recipe(1, "Pasta", [flour], "Simple pasta", None);
      var r := Replay(Initial, [Post(RecipeDto(0, "Pasta", [flour], "Simple pasta", None)), Delete(1)]);
      var afterPost := Serve(Initial, Post(RecipeDto(0, "Pasta", [flour], "Simple pasta", None))).after;
      && r.outcomes == [Created(pasta), Ok(pasta)]
      && FilterByIngredient(afterPost.recipes, "flour") == {pasta}
      && List(r.final.recipes) == {}
  {
    var flour := Ingredient("Flour", "g", 200);
    var pasta := Recipe(1, "Pasta", [flour], "Simple pasta", None);
    var dto := RecipeDto(0, "Pasta", [flour], "Simple pasta", None);
    var afterPost := Serve(Initial, Post(dto)).after;
    assert afterPost.recipes == map[1 := pasta];
    assert Fold("Flour") == "FLOUR" && Fold("flour") == "FLOUR";
    assert ContainsIgnoreCase(flour.name, "flour");
    assert HasIngredientLike(pasta, "flour") by {
      assert flour in pasta.ingredients;
    }
    var reqs := [Post(dto), Delete(1)];
    assert reqs[1..] == [Delete(1)];
    assert Replay(afterPost, [Delete(1)]).outcomes == [Ok(pasta)];
  }
}
