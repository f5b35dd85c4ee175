/**
 * The data shapes of the recipe service: the stored `Recipe`, its embedded
 * `Ingredients`, and the `RecipeDto` body of POST and PUT requests.
 */
module Recipes {

  datatype Option<+T> = None | Some(value: T)

  /** One ingredient line, owned by its recipe (no identity of its own). */
  datatype Ingredient = Ingredient(name: string, unit: string, quantity: int)

  /** A stored recipe; `id` is the key the store keeps it under. */
  datatype Recipe = Recipe(
    id: int,
    title: string,
    ingredients: seq<Ingredient>,
    description: string,
    imageUrl: Option<string>)

  /** The request body of POST and PUT; its `id` is never used by the service. */
  datatype RecipeDto = RecipeDto(
    id: int,
    title: string,
    ingredients: seq<Ingredient>,
    description: string,
    imageUrl: Option<string>)

  /** The recipe a handler builds from a request body and the id it chose. */
  function FromDto(id: int, dto: RecipeDto): Recipe
  {
    Recipe(id, dto.title, dto.ingredients, dto.description, dto.imageUrl)
  }
}
