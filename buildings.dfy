/**
 * The per-building growth automaton of `src/buildings.js`: the table of
 * constructors for the four building kinds, the `update` closure each record
 * carries, and `buildingFactory`, the lookup into that table.
 *
 * `Math.random()` is not modelled; every update takes the draw `r` it would
 * have returned as a parameter.
 */
module Buildings {

  datatype Option<T> = None | Some(value: T)

  /** The keys of the `buildings` table. */
  datatype Kind = Residential | Commercial | Industrial | Road {
    /** The three kinds whose records carry a height and grow. */
    predicate Growable() {
      this != Road
    }
  }

  /** A growable building grows only when the draw is below this value. */
  const GrowthChance: real := 0.01

  /** The height a growable building never grows past. */
  function Cap(k: Kind): (c: int)
    requires k.Growable()
    ensures 1 <= c <= 5
  {
    match k
    case Residential => 5
    case Commercial => 5
    case Industrial => 2
  }

  /** The `id` string each record carries, which is also its key in the table. */
  function Name(k: Kind): string {
    match k
    case Residential => "residential"
    case Commercial => "commercial"
    case Industrial => "industrial"
    case Road => "road"
  }

  const KindNames: set<string> := {"residential", "commercial", "industrial", "road"}

  /** The data fields of a building record; `height` is absent on a road. */
  datatype State = State(id: Kind, height: Option<int>, updated: bool)

  /** A growable record has a height between 1 and its cap; a road has none. */
  predicate WellFormed(s: State) {
    if s.id.Growable() then s.height.Some? && 1 <= s.height.value <= Cap(s.id)
    else s.height.None?
  }

  /** The record a constructor of the table returns for kind `k`. */
  function Initial(k: Kind): (s: State)
    ensures s.id == k && s.updated && WellFormed(s)
    ensures s.height.Some? ==> s.height.value == 1
  {
    State(k, if k.Growable() then Some(1) else None, true)
  }

  /**
   * One call of a record's `update` closure with draw `r`: a growable record
   * gains one storey when `r` is below the growth chance and it is under its
   * cap; a road only clears its `updated` flag.
   */
  function Step(s: State, r: real): (t: State)
    ensures t.id == s.id
    ensures WellFormed(s) ==> WellFormed(t)
    ensures t.height.Some? <==> s.height.Some?
    ensures s.height.Some? ==> s.height.value <= t.height.value <= s.height.value + 1
    ensures s.id.Growable() && s.updated ==> t.updated
    ensures !s.id.Growable() ==> !t.updated
  {
    if !s.id.Growable() then s.(updated := false)
    else if r < GrowthChance && s.height.Some? && s.height.value < Cap(s.id) then
      s.(height := Some(s.height.value + 1), updated := true)
    else s
  }

  /** The state after one `update` call per draw, in order. */
  function Run(s: State, draws: seq<real>): State
    decreases |draws|
  {
    if draws == [] then s else Run(Step(s, draws[0]), draws[1..])
  }

  /** A growable record's step increments the height exactly when it is allowed to. */
  lemma GrowableStep(s: State, r: real)
    requires WellFormed(s) && s.id.Growable()
    ensures var t := Step(s, r);
      if r < GrowthChance && s.height.value < Cap(s.id)
      then t.height.value == s.height.value + 1 && t.updated
      else t == s
  {
  }

  /** Updating a road twice leaves it as updating it once does. */
  lemma RoadStepIdempotent(s: State, r1: real, r2: real)
    requires s.id == Road
    ensures Step(Step(s, r1), r2) == Step(s, r1)
    ensures Step(s, r1) == s.(updated := false)
  {
  }

  /** No number of updates changes the kind or breaks the height bounds. */
  lemma {:induction false} RunPreservesWellFormed(s: State, draws: seq<real>)
    requires WellFormed(s)
    ensures WellFormed(Run(s, draws)) && Run(s, draws).id == s.id
    decreases |draws|
  {
    if draws != [] {
      RunPreservesWellFormed(Step(s, draws[0]), draws[1..]);
    }
  }

  /** A freshly constructed building stays within `1 <= height <= cap` forever. */
  lemma {:induction false} ConstructedStaysBounded(k: Kind, draws: seq<real>)
    ensures var t := Run(Initial(k), draws);
      t.id == k && WellFormed(t) && (k.Growable() ==> 1 <= t.height.value <= Cap(k))
  {
    RunPreservesWellFormed(Initial(k), draws);
  }

  /** Height never decreases and grows by at most one storey per update. */
  lemma {:induction false} RunMonotone(s: State, draws: seq<real>)
    requires s.height.Some?
    ensures var t := Run(s, draws);
      t.height.Some? && s.height.value <= t.height.value <= s.height.value + |draws|
    decreases |draws|
  {
    if draws != [] {
      RunMonotone(Step(s, draws[0]), draws[1..]);
    }
  }

  /** Once a growable record is flagged updated, no update clears the flag. */
  lemma {:induction false} GrowableStaysUpdated(s: State, draws: seq<real>)
    requires s.id.Growable() && s.updated
    ensures Run(s, draws).updated
    decreases |draws|
  {
    if draws != [] {
      GrowableStaysUpdated(Step(s, draws[0]), draws[1..]);
    }
  }

  /**
   * With enough successful draws a growable building reaches its cap, and
   * further updates keep it there.
   */
  lemma {:induction false} RunReachesCap(s: State, draws: seq<real>)
    requires WellFormed(s) && s.id.Growable()
    requires |draws| >= Cap(s.id) - s.height.value
    requires forall i :: 0 <= i < |draws| ==> draws[i] < GrowthChance
    ensures Run(s, draws).height == Some(Cap(s.id))
    decreases |draws|
  {
    if draws != [] {
      RunReachesCap(Step(s, draws[0]), draws[1..]);
    }
  }

  /** After at least one update a road is settled: `updated` is false and stays so. */
  lemma {:induction false} RoadRunSettles(s: State, draws: seq<real>)
    requires s.id == Road && draws != []
    ensures Run(s, draws) == s.(updated := false)
    decreases |draws|
  {
    if |draws| > 1 {
      RoadRunSettles(Step(s, draws[0]), draws[1..]);
    }
  }

  /** The `buildings` table: each key names the constructor of its kind. */
  function Table(): (t: map<string, Kind>)
    ensures t.Keys == KindNames
    ensures forall k :: Name(k) in t && t[Name(k)] == k
  {
    map["residential" := Residential, "commercial" := Commercial,
        "industrial" := Industrial, "road" := Road]
  }

  /**
   * `buildingFactory` as intended: the constructor of the named kind, or
   * nothing (the source's `undefined`, after a warning) for any other string.
   */
  function BuildingFactory(name: string): (r: Option<Kind>)
    ensures r.Some? <==> name in KindNames
    ensures r.Some? ==> Name(r.value) == name
  {
    if name in Table() then Some(Table()[name]) else None
  }

  /** Every kind is found under its own name, and under no other. */
  lemma FactoryFindsEveryKind(k: Kind, name: string)
    ensures BuildingFactory(Name(k)) == Some(k)
    ensures BuildingFactory(name) == Some(k) ==> name == Name(k)
  {
  }

  /**
   * What the `in` test of `buildingFactory` also accepts: the keys every
   * JavaScript object literal inherits from `Object.prototype`.
   */
  const ObjectPrototypeKeys: set<string> :=
    {"constructor", "hasOwnProperty", "isPrototypeOf", "propertyIsEnumerable",
     "toLocaleString", "toString", "valueOf", "__proto__", "__defineGetter__",
     "__defineSetter__", "__lookupGetter__", "__lookupSetter__"}

  /** The outcome of the lookup as the source writes it. */
  datatype Lookup = Constructor(kind: Kind) | Inherited(key: string) | Undefined

  /**
   * `buildingFactory` as written: `type in buildings` also holds for the
   * inherited keys, for which it returns an inherited member, not a
   * constructor and not `undefined`.
   */
  function BuildingFactoryAsWritten(name: string): (r: Lookup)
    ensures r.Constructor? <==> BuildingFactory(name).Some?
    ensures r.Undefined? <==> name !in KindNames && name !in ObjectPrototypeKeys
    ensures r.Constructor? ==> Some(r.kind) == BuildingFactory(name)
    ensures r.Inherited? ==> r.key == name
  {
    if name in Table() then Constructor(Table()[name])
    else if name in ObjectPrototypeKeys then Inherited(name)
    else Undefined
  }

  /** "toString" is no kind, yet the written lookup neither fails nor returns `undefined`. */
  lemma InheritedKeyEscapesFactory()
    ensures BuildingFactory("toString") == None
    ensures BuildingFactoryAsWritten("toString") == Inherited("toString")
  {
  }

  /** A building record, updated in place by its `update` closure. */
  class Building {
    var id: Kind
    var height: Option<int>
    var updated: bool

    /** The record's data fields as a value. */
    function View(): State
      reads this
    {
      State(id, height, updated)
    }

    /** `buildings[k]()`: a fresh record of kind `k`. */
    constructor(k: Kind)
      ensures View() == Initial(k)
    {
      id := k;
      height := if k.Growable() then Some(1) else None;
      updated := true;
    }

    /** The `update` closure of the record, given the draw `r` of `Math.random()`. */
    method Update(r: real)
      modifies this`height, this`updated
      ensures View() == Step(old(View()), r)
    {
      if id == Road {
        updated := false;
      } else if r < GrowthChance {
        if height.Some? && height.value < Cap(id) {
          height := Some(height.value + 1);
          updated := true;
        }
      }
    }
  }
}
