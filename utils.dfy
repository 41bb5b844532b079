/**
 * Pipeline stages and the lookup of a pipeline's `$match` stage.
 */
module Utils {
  import opened Values

  /** One condition of a `$match` object: a value given by the pipeline, or `{ $gt: date }`. */
  datatype Criterion = Given(v: Value) | After(millis: int)

  /**
   * A pipeline stage object. `keys` are its own property names (`$match`, `$group`, ...);
   * for a stage with a `$match` object, `criteria` are that object's entries, which the
   * publication overwrites to impose its time window.
   */
  class Stage {
    const keys: set<string>
    var criteria: map<string, Criterion>

    constructor (keys: set<string>, criteria: map<string, Criterion>)
      ensures this.keys == keys && this.criteria == criteria
    {
      this.keys := keys;
      this.criteria := criteria;
    }
  }

  /** `stage.hasOwnProperty('$match')` */
  predicate HasMatch(stage: Stage) {
    "$match" in stage.keys
  }

  /** Stage `i` is the first stage of the pipeline that has a `$match` key. */
  predicate FirstMatchAt(pipeline: seq<Stage>, i: int) {
    0 <= i < |pipeline| && HasMatch(pipeline[i]) && forall j :: 0 <= j < i ==> !HasMatch(pipeline[j])
  }

  /** `pipeline.filter(stage => stage.hasOwnProperty('$match'))` */
  function MatchStages(pipeline: seq<Stage>): (r: seq<Stage>)
    ensures forall s :: s in r ==> s in pipeline && HasMatch(s)
    ensures forall i :: 0 <= i < |pipeline| && HasMatch(pipeline[i]) ==> pipeline[i] in r
    ensures r != [] ==> exists i :: FirstMatchAt(pipeline, i) && pipeline[i] == r[0]
    decreases |pipeline|
  {
    if pipeline == [] then []
    else
      var rest := MatchStages(pipeline[1..]);
      assert forall i :: 1 <= i < |pipeline| ==> pipeline[i] == pipeline[1..][i - 1];
      if HasMatch(pipeline[0]) then
        assert FirstMatchAt(pipeline, 0);
        [pipeline[0]] + rest
      else
        rest
  }

  /**
   * `getPipelineMatchStage`: the first stage that has a `$match` key, itself rather than a
   * copy, or `false` (`None`) when there is none or when the pipeline is absent (falsy).
   */
  function GetPipelineMatchStage(pipeline: Option<seq<Stage>>): (r: Option<Stage>)
    ensures pipeline.None? ==> r.None?
    ensures pipeline.Some? ==>
              (r.None? <==> forall i :: 0 <= i < |pipeline.value| ==> !HasMatch(pipeline.value[i]))
    ensures r.Some? ==> pipeline.Some? && exists i :: FirstMatchAt(pipeline.value, i) && pipeline.value[i] == r.value
  {
    if pipeline.Some? then
      var matchStages := MatchStages(pipeline.value);
      if |matchStages| > 0 then Some(matchStages[0]) else None
    else None
  }
}
