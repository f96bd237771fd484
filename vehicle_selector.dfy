/**
 * The vehicle selector: four cascading choices (year, make, model, engine).
 * A choice is an id or nothing (the empty string of the select box). Picking a
 * make clears the model and the engine, picking a model clears the engine, and
 * a box is disabled until the choice it depends on is made.
 */
module VehicleSelector {
  import opened Wrappers
  import opened Seqs
  import opened Schema

  /** The vehicle handed to `onSelectVehicle`; the engine may be left unchosen. */
  datatype Selection = Selection(year: int, makeId: int, modelId: int, engineId: Option<int>)

  /** `filteredModels`: nothing before a make is chosen, then the models of that make, in the fetched order. */
  function FilteredModels(make: Option<int>, models: seq<VehicleModel>): (r: seq<VehicleModel>)
    ensures make.None? ==> r == []
    ensures make.Some? ==> forall m | m in r :: m in models && m.makeId == make.value
    ensures make.Some? ==> forall m | m in models && m.makeId == make.value :: m in r
    ensures IsSubseq(r, models)
  {
    match make
    case None => []
    case Some(id) => Filter(models, (m: VehicleModel) => m.makeId == id)
  }

  /** `filteredEngines`: nothing before a model is chosen, then the engines of that model, in the fetched order. */
  function FilteredEngines(model: Option<int>, engines: seq<VehicleEngine>): (r: seq<VehicleEngine>)
    ensures model.None? ==> r == []
    ensures model.Some? ==> forall e | e in r :: e in engines && e.modelId == model.value
    ensures model.Some? ==> forall e | e in engines && e.modelId == model.value :: e in r
    ensures IsSubseq(r, engines)
  {
    match model
    case None => []
    case Some(id) => Filter(engines, (e: VehicleEngine) => e.modelId == id)
  }

  class Selector {
    var year: Option<int>
    var make: Option<int>
    var model: Option<int>
    var engine: Option<int>

    /** Each choice rests on the one before it: engine, then model, then make, then year. */
    ghost predicate Valid()
      reads this
    {
      && (engine.Some? ==> model.Some?)
      && (model.Some? ==> make.Some?)
      && (make.Some? ==> year.Some?)
    }

    constructor ()
      ensures Valid()
      ensures year.None? && make.None? && model.None? && engine.None?
    {
      year, make, model, engine := None, None, None, None;
    }

    /** The year box is always enabled, and a year leaves the other choices alone. */
    method SelectYear(y: int)
      requires Valid()
      modifies this`year
      ensures Valid()
      ensures year == Some(y)
    {
      year := Some(y);
    }

    /** The make box is disabled until a year is chosen; a different make clears model and engine. */
    method SelectMake(m: int)
      requires Valid()
      modifies this`make, this`model, this`engine
      ensures Valid()
      ensures old(year).None? ==> make == old(make) && model == old(model) && engine == old(engine)
      ensures old(year).Some? && old(make) == Some(m) ==> make == old(make) && model == old(model) && engine == old(engine)
      ensures old(year).Some? && old(make) != Some(m) ==> make == Some(m) && model.None? && engine.None?
    {
      if year.None? || make == Some(m) {
        return;
      }
      make := Some(m);
      model, engine := None, None;
    }

    /**
     * The model box is disabled until a make is chosen and while the models
     * load (`loadingModels`); a different model clears the engine.
     */
    method SelectModel(m: int, loadingModels: bool)
      requires Valid()
      modifies this`model, this`engine
      ensures Valid()
      ensures old(make).None? || loadingModels ==> model == old(model) && engine == old(engine)
      ensures old(make).Some? && !loadingModels && old(model) == Some(m) ==> model == old(model) && engine == old(engine)
      ensures old(make).Some? && !loadingModels && old(model) != Some(m) ==> model == Some(m) && engine.None?
    {
      if make.None? || loadingModels || model == Some(m) {
        return;
      }
      model := Some(m);
      engine := None;
    }

    /** The engine box is disabled until a model is chosen and while the engines load (`loadingEngines`). */
    method SelectEngine(e: int, loadingEngines: bool)
      requires Valid()
      modifies this`engine
      ensures Valid()
      ensures old(model).None? || loadingEngines ==> engine == old(engine)
      ensures old(model).Some? && !loadingEngines ==> engine == Some(e)
    {
      if model.None? || loadingEngines {
        return;
      }
      engine := Some(e);
    }

    /**
     * handleFindParts: the selection passed to `onSelectVehicle` when there is
     * such a callback and year, make and model are chosen; no call otherwise.
     */
    function FindParts(hasCallback: bool): (r: Option<Selection>)
      reads this
      ensures r.Some? <==> hasCallback && year.Some? && make.Some? && model.Some?
      ensures r.Some? ==> r.value == Selection(year.value, make.value, model.value, engine)
    {
      if hasCallback && year.Some? && make.Some? && model.Some? then
        Some(Selection(year.value, make.value, model.value, engine))
      else None
    }

    /** In a consistent selector, the search fires exactly when there is a callback and a model is chosen. */
    lemma FindPartsNeedsModel(hasCallback: bool)
      requires Valid()
      ensures FindParts(hasCallback).Some? <==> hasCallback && model.Some?
    {
    }
  }
}
