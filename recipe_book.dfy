/**
  The recipe-book controller: the state of the `App` component and its
  handlers. Each handler is one atomic state update; the setters it calls
  become field assignments, and `localStorage['recipes']` becomes the field
  `store` (absent, empty or unparseable is `None`).
 */
module RecipeBook {
  import opened Wrappers
  import opened RecipeList

  /** Which top-level screen is shown: `'home'` or `'app'`. */
  datatype Screen = Home | Main
  /** The mode inside the main screen: `'lista'` or `'formulario'`. */
  datatype View = List | Form

  class App {
    var screen: Screen
    var view: View
    var recipes: seq<Recipe>
    var title: string
    var ingredients: string
    var preparation: string
    /** `editingRecipeId`: `null` is `None`. */
    var editingId: Option<string>
    /** The persisted mirror of `recipes`. */
    var store: Option<seq<Recipe>>

    /** The component's initial state, over whatever the store holds at start-up. */
    constructor (persisted: Option<seq<Recipe>>)
      ensures screen == Home && view == List && recipes == []
      ensures title == "" && ingredients == "" && preparation == ""
      ensures editingId == None && store == persisted
    {
      screen, view, recipes := Home, List, [];
      title, ingredients, preparation := "", "", "";
      editingId, store := None, persisted;
    }

    /** The mount effect: take the stored list when there is one, otherwise keep the current list. */
    method Load()
      modifies this`recipes
      ensures recipes == if store.Some? then store.value else old(recipes)
    {
      if store.Some? {
        recipes := store.value;
      }
    }

    /** `saveRecipes`: overwrite the persisted list. */
    method Save(newRecipes: seq<Recipe>)
      modifies this`store
      ensures store == Some(newRecipes)
    {
      store := Some(newRecipes);
    }

    /**
      `handleAddRecipe`. With an incomplete draft nothing changes. Otherwise a
      record with the generated id `now` and the draft's three fields either
      replaces every entry whose id is the editing target or is appended; the
      list is saved, the draft and the target are cleared and the list is shown.
     */
    method Submit(now: string)
      modifies this`recipes, this`store, this`title, this`ingredients, this`preparation, this`editingId, this`view
      ensures !DraftComplete(old(title), old(ingredients), old(preparation)) ==>
        && recipes == old(recipes) && store == old(store)
        && title == old(title) && ingredients == old(ingredients) && preparation == old(preparation)
        && editingId == old(editingId) && view == old(view)
      ensures DraftComplete(old(title), old(ingredients), old(preparation)) ==>
        && recipes == SubmitList(old(recipes), old(editingId), Recipe(now, old(title), old(ingredients), old(preparation)))
        && store == Some(recipes)
        && title == "" && ingredients == "" && preparation == ""
        && editingId == None && view == List
      ensures DistinctIds(old(recipes)) && !HasId(old(recipes), now) ==> DistinctIds(recipes)
    {
      if !DraftComplete(title, ingredients, preparation) {
        return;
      }
      var newRecipe := Recipe(now, title, ingredients, preparation);
      var updated := SubmitList(recipes, editingId, newRecipe);
      if DistinctIds(recipes) && !HasId(recipes, now) {
        SubmitKeepsDistinct(recipes, editingId, newRecipe);
      }
      recipes := updated;
      Save(updated);
      title, ingredients, preparation := "", "", "";
      editingId := None;
      view := List;
    }

    /**
      `handleDeleteRecipe`. When the user confirms, every entry with that id is
      dropped and the list is saved; when the user declines, nothing changes.
     */
    method Delete(id: string, confirmed: bool)
      modifies this`recipes, this`store
      ensures confirmed ==> recipes == RemoveById(old(recipes), id) && store == Some(recipes)
      ensures !confirmed ==> recipes == old(recipes) && store == old(store)
      ensures DistinctIds(old(recipes)) ==> DistinctIds(recipes)
    {
      if confirmed {
        var updated := RemoveById(recipes, id);
        if DistinctIds(recipes) {
          RemoveByIdKeepsDistinct(recipes, id);
        }
        recipes := updated;
        Save(updated);
      }
    }

    /**
      `handleChangeRecipe`. The first entry with that id, if any, is staged as
      the draft, becomes the editing target and the form is shown.
     */
    method BeginEdit(id: string)
      modifies this`title, this`ingredients, this`preparation, this`editingId, this`view
      ensures Find(recipes, id).None? ==>
        && title == old(title) && ingredients == old(ingredients) && preparation == old(preparation)
        && editingId == old(editingId) && view == old(view)
      ensures Find(recipes, id).Some? ==>
        && title == Find(recipes, id).value.title
        && ingredients == Find(recipes, id).value.ingredients
        && preparation == Find(recipes, id).value.preparation
        && editingId == Some(id) && view == Form
    {
      var found := Find(recipes, id);
      if found.Some? {
        title := found.value.title;
        ingredients := found.value.ingredients;
        preparation := found.value.preparation;
        editingId := Some(id);
        view := Form;
      }
    }

    /** The welcome screen's "Entrar" button. */
    method Enter()
      modifies this`screen
      ensures screen == Main
    {
      screen := Main;
    }

    /** "Adicionar Nova Receita": show the form; the draft and the target are kept. */
    method AddNew()
      modifies this`view
      ensures view == Form
    {
      view := Form;
    }

    /** "Cancelar": show the list; the draft and the target are kept. */
    method Cancel()
      modifies this`view
      ensures view == List
    {
      view := List;
    }

    /** The title input's `onChangeText`. */
    method SetTitle(s: string)
      modifies this`title
      ensures title == s
    {
      title := s;
    }

    /** The ingredients input's `onChangeText`. */
    method SetIngredients(s: string)
      modifies this`ingredients
      ensures ingredients == s
    {
      ingredients := s;
    }

    /** The preparation input's `onChangeText`. */
    method SetPreparation(s: string)
      modifies this`preparation
      ensures preparation == s
    {
      preparation := s;
    }
  }

  /**
    Create a recipe, then restart: a new component over the same store loads
    the list it started from (empty when the store held nothing) with the new
    recipe once, at the end, and the ids stay distinct.
   */
  method CreateThenRestart(persisted: Option<seq<Recipe>>, now: string, t: string, i: string, p: string)
    returns (reloaded: seq<Recipe>)
    requires persisted.Some? ==> DistinctIds(persisted.value) && !HasId(persisted.value, now)
    requires DraftComplete(t, i, p)
    ensures reloaded == (if persisted.Some? then persisted.value else []) + [Recipe(now, t, i, p)]
    ensures DistinctIds(reloaded)
    ensures multiset(reloaded)[Recipe(now, t, i, p)] == 1
  {
    var app := new App(persisted);
    app.Load();
    var start := app.recipes;
    assert start == if persisted.Some? then persisted.value else [];
    app.Enter();
    app.AddNew();
    app.SetTitle(t);
    app.SetIngredients(i);
    app.SetPreparation(p);
    app.Submit(now);
    var restarted := new App(app.store);
    restarted.Load();
    reloaded := restarted.recipes;
    assert Recipe(now, t, i, p) !in start;
  }

  /**
    Edit entry `k`, cancel, then press "add new" and submit a fresh draft: the
    stale editing target survives the cancel, so entry `k` is replaced in place
    (by a record with the new id) instead of a recipe being added.
   */
  method StaleEditTarget(rs: seq<Recipe>, k: nat, now: string, t: string, i: string, p: string)
    returns (after: seq<Recipe>)
    requires DistinctIds(rs) && k < |rs| && rs[k].id != ""
    requires DraftComplete(t, i, p)
    ensures after == rs[..k] + [Recipe(now, t, i, p)] + rs[k + 1..]
    ensures |after| == |rs|
  {
    var id := rs[k].id;
    var app := new App(Some(rs));
    app.Load();
    app.Enter();
    FindDistinct(rs, k);
    app.BeginEdit(id);
    assert app.recipes == rs && app.editingId == Some(id);
    app.Cancel();
    app.AddNew();
    app.SetTitle(t);
    app.SetIngredients(i);
    app.SetPreparation(p);
    assert app.recipes == rs && IsEditing(app.editingId) && app.editingId.value == id;
    assert DraftComplete(app.title, app.ingredients, app.preparation);
    var edited := Recipe(now, t, i, p);
    assert edited == Recipe(now, app.title, app.ingredients, app.preparation);
    app.Submit(now);
    assert app.recipes == ReplaceById(rs, id, edited);
    DistinctOnlyAt(rs, k);
    ReplaceByIdUnique(rs, k, edited);
    after := app.recipes;
  }
}
