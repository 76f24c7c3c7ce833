/** Action codes and the small enumerations of the environment (pcog/envconf.py). */
module EnvConf {
  import opened Wrappers

  /** `set(range(n))` */
  function Range(n: int): (r: set<int>)
    ensures forall i :: i in r <==> 0 <= i < n
    decreases n
  {
    if n <= 0 then {} else Range(n - 1) + {n - 1}
  }

  // Action: FLEE, EXPLORE, ATTACK = range(N)
  const ActionN: int := 3
  const Flee: int := 0
  const Explore: int := 1
  const Attack: int := 2
  const ActionSet: set<int> := Range(ActionN)

  // HealthObservation: GOOD, OK, BAD = range(N)
  const HealthN: int := 3
  const HealthSet: set<int> := Range(HealthN)

  // DangerState: LOW, MEDIUM, HIGH, SEVERE = range(N)
  const DangerN: int := 4
  const DangerSet: set<int> := Range(DangerN)

  // StaminaState: GOOD, AVERAGE, BAD = range(N)
  const StaminaN: int := 3
  const StaminaSet: set<int> := Range(StaminaN)

  /** The action code the QCog simulator uses for one of our actions. */
  function QcogAction(a: int): (r: Result<int>)
    ensures r.Ok? <==> a in ActionSet
    ensures r.Err? ==> r.error == ValueError
    ensures r.Ok? ==> r.value in {0, 8, 9}
  {
    if a == Flee then Ok(8)
    else if a == Attack then Ok(9)
    else if a == Explore then Ok(0)
    else Err(ValueError)
  }

  /** Distinct actions are sent to the simulator as distinct codes. */
  lemma QcogActionInjective(a: int, b: int)
    requires a in ActionSet && b in ActionSet && a != b
    ensures QcogAction(a).Ok? && QcogAction(b).Ok?
    ensures QcogAction(a).value != QcogAction(b).value
  {
  }

  /** The printable name of an action. */
  function ActionName(a: int): (r: Result<string>)
    ensures r.Ok? <==> a in ActionSet
    ensures r.Err? ==> r.error == ValueError
    ensures r.Ok? ==> r.value in {"FLEE", "ATTACK", "EXPLORE"}
  {
    if a == Flee then Ok("FLEE")
    else if a == Attack then Ok("ATTACK")
    else if a == Explore then Ok("EXPLORE")
    else Err(ValueError)
  }

  /** Distinct actions have distinct names. */
  lemma ActionNameInjective(a: int, b: int)
    requires a in ActionSet && b in ActionSet && a != b
    ensures ActionName(a).Ok? && ActionName(b).Ok?
    ensures ActionName(a).value != ActionName(b).value
  {
  }

  predicate ValidAction(a: int) {
    a in ActionSet
  }

  /** An action is valid exactly when it is one of the three codes, which is also
      exactly when it can be named and sent to the simulator. */
  lemma ValidActionCharacterised(a: int)
    ensures ValidAction(a) <==> a == Flee || a == Explore || a == Attack
    ensures ValidAction(a) <==> QcogAction(a).Ok?
    ensures ValidAction(a) <==> ActionName(a).Ok?
  {
  }

  predicate ValidStaminaState(s: int) {
    s in StaminaSet
  }

  lemma ValidStaminaStateCharacterised(s: int)
    ensures ValidStaminaState(s) <==> s == 0 || s == 1 || s == 2
  {
  }
}
