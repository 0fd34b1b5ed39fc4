/** Runs of a protocol, which is a function that makes a step where it is enabled. */
module Runs {
  import opened Options

  /** Where the steps lead, if each is enabled when it is taken. */
  function Last<S, A>(next: (S, A) -> Option<S>, s: S, steps: seq<A>): Option<S>
    decreases |steps|
  {
    if steps == [] then Some(s)
    else
      match next(s, steps[0])
      case None => None
      case Some(t) => Last(next, t, steps[1..])
  }

  ghost predicate Run<S, A>(next: (S, A) -> Option<S>, s: S, steps: seq<A>, end: S) {
    Last(next, s, steps) == Some(end)
  }

  /** Some step of the run is such a step. */
  ghost predicate Sometime<S, A>(next: (S, A) -> Option<S>, such: (S, A) -> bool, s: S, steps: seq<A>)
    decreases |steps|
  {
    steps != [] && next(s, steps[0]).Some?
    && (such(s, steps[0]) || Sometime(next, such, next(s, steps[0]).value, steps[1..]))
  }

  /** One more step before a run. */
  lemma Onward<S, A>(next: (S, A) -> Option<S>, s: S, a: A, t: S, steps: seq<A>, end: S)
    requires next(s, a) == Some(t) && Run(next, t, steps, end)
    ensures Run(next, s, [a] + steps, end)
  {
    assert ([a] + steps)[1..] == steps;
  }

  /** And one more after it. */
  lemma OneMore<S, A>(next: (S, A) -> Option<S>, s: S, steps: seq<A>, t: S, a: A)
    returns (more: seq<A>, end: S)
    requires Run(next, s, steps, t) && next(t, a).Some?
    ensures more == steps + [a] && end == next(t, a).value && Run(next, s, more, end)
    decreases |steps|
  {
    if steps == [] {
      more, end := [a], next(t, a).value;
    } else {
      more, end := OneMore(next, next(s, steps[0]).value, steps[1..], t, a);
      more := [steps[0]] + more;
      assert more[1..] == steps[1..] + [a];
    }
  }

  /** What every step keeps every run keeps. */
  lemma Kept<S, A>(next: (S, A) -> Option<S>, inv: S -> bool, s: S, steps: seq<A>, end: S)
    requires forall t, a :: inv(t) && next(t, a).Some? ==> inv(next(t, a).value)
    requires inv(s) && Run(next, s, steps, end)
    ensures inv(end)
    decreases |steps|
  {
    if steps != [] {
      Kept(next, inv, next(s, steps[0]).value, steps[1..], end);
    }
  }
}
