/**
 * `Continuation<T>` of `continuation.h`: an immutable function `T -> T`
 * that can be run, or extended by a further step into a new continuation.
 * The `shared_ptr` that `Make` and `Then` return is the value itself.
 */
module Continuations {

  datatype Continuation<!T> = Continuation(func: T -> T)

  /** `Make(k)`: a continuation running `k`. */
  function Make<T>(k: T -> T): Continuation<T>
  {
    Continuation(k)
  }

  /** `Run(a)`: apply the function to `a`. */
  function Run<T>(c: Continuation<T>, a: T): T
  {
    c.func(a)
  }

  /** `Then(k)`: a new continuation running this one, then `k` on its result. */
  function Then<T>(c: Continuation<T>, k: T -> T): Continuation<T>
  {
    var func := c.func;
    Make(a => k(func(a)))
  }

  /** Running a made continuation runs its function. */
  lemma RunMake<T>(k: T -> T, a: T)
    ensures Run(Make(k), a) == k(a)
  {
  }

  /** `c->Then(k)->Run(a)` is `k(c->Run(a))`. */
  lemma RunThen<T>(c: Continuation<T>, k: T -> T, a: T)
    ensures Run(Then(c, k), a) == k(Run(c, a))
  {
  }

  /** Chaining is associative: `(c.Then(f)).Then(g)` runs like `c.Then(g . f)`. */
  lemma ThenAssociative<T>(c: Continuation<T>, f: T -> T, g: T -> T, a: T)
    ensures Run(Then(Then(c, f), g), a) == Run(Then(c, x => g(f(x))), a)
  {
  }

  /** Steps chained by `Then` run in order: a chain of `steps` applies them first to last. */
  function RunAll<T>(steps: seq<T -> T>, a: T): T
  {
    if steps == [] then a else RunAll(steps[1..], steps[0](a))
  }

  /** `c->Then(steps[0])->Then(steps[1])->...`. */
  function ThenAll<T>(c: Continuation<T>, steps: seq<T -> T>): Continuation<T>
    decreases |steps|
  {
    if steps == [] then c else ThenAll(Then(c, steps[0]), steps[1..])
  }

  /** Running a chain runs the first continuation, then the added steps in the order they were added. */
  lemma {:induction false} RunThenAll<T>(c: Continuation<T>, steps: seq<T -> T>, a: T)
    ensures Run(ThenAll(c, steps), a) == RunAll(steps, Run(c, a))
    decreases |steps|
  {
    if steps != [] {
      RunThenAll(Then(c, steps[0]), steps[1..], a);
      RunThen(c, steps[0], a);
    }
  }

  /** Three `+1` steps run on 1 give 4. */
  lemma ThreeIncrements()
    ensures Run(Then(Then(Make((x: int) => x + 1), (x: int) => x + 1), (x: int) => x + 1), 1) == 4
  {
  }
}
