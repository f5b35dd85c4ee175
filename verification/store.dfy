/**
 * The service's shared state as an object: the recipe dictionary and the id
 * counter, updated in place by the POST, DELETE and PUT handlers. Each method
 * performs one request as a single sequential step and is proved to agree
 * with the matching transition of module `RecipeTable`.
 */
module Store {
  import opened Recipes
  import opened RecipeTable

  class RecipeStore {
    /** The shared dictionary from id to recipe. */
    var recipes: map<int, Recipe>
    /** The last id handed out; POST pre-increments it. */
    var nextJokeId: int

    /** The current state as a value. */
    function Snapshot(): Table
      reads this
    {
      Table(recipes, nextJokeId)
    }

    /** The object invariant: the table invariant of the current state. */
    ghost predicate Valid()
      reads this
    {
      Inv(Snapshot())
    }

    /** Start-up: an empty dictionary and the counter at 0. */
    constructor ()
      ensures Valid()
      ensures Snapshot() == Initial
    {
      recipes := map[];
      nextJokeId := 0;
    }

    /**
     * POST /recipes. The counter goes up by one and its new value, never
     * handed out before, becomes the id of the stored recipe; all other
     * entries stay as they were.
     */
    method Create(dto: RecipeDto) returns (outcome: Outcome)
      requires Valid()
      modifies this
      ensures Valid()
      ensures Transition(outcome, Snapshot()) == CreateStep(old(Snapshot()), dto)
      ensures nextJokeId == old(nextJokeId) + 1 && !Issued(old(Snapshot()), nextJokeId)
      ensures outcome == Created(Recipe(nextJokeId, dto.title, dto.ingredients, dto.description, dto.imageUrl))
      ensures recipes == old(recipes)[nextJokeId := outcome.recipe]
    {
      nextJokeId := nextJokeId + 1;
      var newId := nextJokeId;
      var recipe := FromDto(newId, dto);
      var added := TryAdd(recipes, newId, recipe);
      if !added.succeeded {
        outcome := ServerError;
        return;
      }
      recipes := added.recipes;
      outcome := Created(recipe);
    }

    /**
     * DELETE /recipes/{id}. A stored id is removed and its recipe answered;
     * an absent id answers NotFound and changes nothing.
     */
    method Delete(id: int) returns (outcome: Outcome)
      requires Valid()
      modifies this
      ensures Valid()
      ensures Transition(outcome, Snapshot()) == DeleteStep(old(Snapshot()), id)
      ensures nextJokeId == old(nextJokeId)
      ensures id in old(recipes) ==> outcome == Ok(old(recipes)[id]) && recipes == old(recipes) - {id}
      ensures id !in old(recipes) ==> outcome == NotFound && recipes == old(recipes)
    {
      var (removed, rest) := TryRemove(recipes, id);
      if removed.Some? {
        recipes := rest;
        outcome := Ok(removed.value);
        return;
      }
      outcome := NotFound;
    }

    /**
     * PUT /recipes/{id}. A stored id gets the recipe built from the body with
     * the path id, which is answered; an absent id makes the indexer read
     * throw before anything changes.
     */
    method Update(id: int, dto: RecipeDto) returns (outcome: Outcome)
      requires Valid()
      modifies this
      ensures Valid()
      ensures Transition(outcome, Snapshot()) == UpdateStep(old(Snapshot()), id, dto)
      ensures nextJokeId == old(nextJokeId) && recipes.Keys == old(recipes).Keys
      ensures id in old(recipes) ==>
        && outcome == Ok(Recipe(id, dto.title, dto.ingredients, dto.description, dto.imageUrl))
        && recipes == old(recipes)[id := outcome.recipe]
      ensures id !in old(recipes) ==> outcome == KeyNotFoundThrown && recipes == old(recipes)
    {
      var recipe := FromDto(id, dto);
      if id !in recipes {
        outcome := KeyNotFoundThrown;
        return;
      }
      var current := recipes[id];
      var swap := TryUpdate(recipes, id, recipe, current);
      if swap.succeeded {
        recipes := swap.recipes;
        outcome := Ok(recipe);
        return;
      }
      outcome := NotFound;
    }
  }
}
