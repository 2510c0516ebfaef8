/** Functional options: each constructor applies its options from left to right and stops at the first one that
    refuses its value. */
module OptionFold {
  import opened Wrappers
  import opened Errors

  function Fold<S, O>(initial: S, apply: (S, O) -> Result<S, Error>, options: seq<O>): Result<S, Error> {
    if options == [] then Success(initial)
    else match Fold(initial, apply, options[..|options| - 1])
      case Failure(e) => Failure(e)
      case Success(s) => apply(s, options[|options| - 1])
  }

  lemma FoldOfOneMore<S, O>(initial: S, apply: (S, O) -> Result<S, Error>, options: seq<O>, last: O)
    ensures Fold(initial, apply, options + [last]) ==
            match Fold(initial, apply, options) case Failure(e) => Failure(e) case Success(s) => apply(s, last)
  {
    var all := options + [last];
    assert all[..|all| - 1] == options;
  }

  lemma FoldOfThree<S, O>(initial: S, apply: (S, O) -> Result<S, Error>, a: O, b: O, c: O, x: S, y: S)
    requires apply(initial, a) == Success(x) && apply(x, b) == Success(y)
    ensures Fold(initial, apply, [a, b, c]) == apply(y, c)
  {
    FoldOfOneMore(initial, apply, [], a);
    FoldOfOneMore(initial, apply, [a], b);
    FoldOfOneMore(initial, apply, [a, b], c);
    assert [] + [a] == [a] && [a] + [b] == [a, b] && [a, b] + [c] == [a, b, c];
  }

  /** A refusal is final: options after it are not looked at. */
  lemma {:induction false} RefusalIsFinal<S, O>(
      initial: S, apply: (S, O) -> Result<S, Error>, options: seq<O>, n: nat)
    requires n <= |options| && Fold(initial, apply, options[..n]).Failure?
    ensures Fold(initial, apply, options) == Fold(initial, apply, options[..n])
  {
    if n == |options| {
      assert options[..n] == options;
    } else {
      var front := options[..|options| - 1];
      assert front[..n] == options[..n];
      RefusalIsFinal(initial, apply, front, n);
    }
  }

  /* ---- what the options of a list decide together ---- */

  /** `final` is what the last option that writes the value wrote, or `initial` when none does. */
  ghost predicate LastWins<O, V>(options: seq<O>, writes: O -> Option<V>, initial: V, final: V) {
    && ((forall i :: 0 <= i < |options| ==> writes(options[i]).None?) ==> final == initial)
    && forall i :: 0 <= i < |options| && writes(options[i]).Some? && SilentAfter(options, writes, i)
         ==> final == writes(options[i]).value
  }

  ghost predicate SilentAfter<O, V>(options: seq<O>, writes: O -> Option<V>, i: int)
    requires 0 <= i < |options|
  {
    forall j :: i < j < |options| ==> writes(options[j]).None?
  }

  /** One option writes one value, or leaves it. */
  ghost predicate Writes<S(!new), O(!new), V>(apply: (S, O) -> Result<S, Error>, writes: O -> Option<V>, read: S -> V) {
    forall s, o :: apply(s, o).Success? ==>
      read(apply(s, o).value) == (if writes(o).Some? then writes(o).value else read(s))
  }

  lemma {:induction false} LastOptionWins<S(!new), O(!new), V>(
      initial: S, apply: (S, O) -> Result<S, Error>, options: seq<O>, writes: O -> Option<V>, read: S -> V)
    requires Writes(apply, writes, read)
    requires Fold(initial, apply, options).Success?
    ensures LastWins(options, writes, read(initial), read(Fold(initial, apply, options).value))
  {
    if options != [] {
      var n := |options| - 1;
      var front := options[..n];
      LastOptionWins(initial, apply, front, writes, read);
      assert forall i :: 0 <= i < n ==> front[i] == options[i];
      var final := read(Fold(initial, apply, options).value);
      forall i | 0 <= i < |options| && writes(options[i]).Some? && SilentAfter(options, writes, i)
        ensures final == writes(options[i]).value
      {
        if i < n {
          assert writes(options[n]).None?;
          assert SilentAfter(front, writes, i);
        }
      }
    }
  }

  /** When an option is accepted or refused on its own, a list is accepted exactly when each of its options is. */
  lemma {:induction false} AcceptedOneByOne<S(!new), O(!new)>(
      initial: S, apply: (S, O) -> Result<S, Error>, acceptable: O -> bool, options: seq<O>)
    requires forall s, o :: apply(s, o).Success? <==> acceptable(o)
    ensures Fold(initial, apply, options).Success? <==> forall i :: 0 <= i < |options| ==> acceptable(options[i])
  {
    if options != [] {
      var n := |options| - 1;
      AcceptedOneByOne(initial, apply, acceptable, options[..n]);
      assert forall i :: 0 <= i < n ==> options[..n][i] == options[i];
    }
  }

  /** What holds of every refusal of an option holds of the refusal of a list. */
  lemma {:induction false} RefusedWith<S(!new), O(!new)>(
      initial: S, apply: (S, O) -> Result<S, Error>, options: seq<O>, sentinel: Sentinel)
    requires forall s, o :: apply(s, o).Failure? ==> ReachesExactly(apply(s, o).error, sentinel)
    ensures Fold(initial, apply, options).Failure?
        ==> ReachesExactly(Fold(initial, apply, options).error, sentinel)
  {
    if options != [] {
      RefusedWith(initial, apply, options[..|options| - 1], sentinel);
    }
  }

  /** Where a value is written at all, some option writes it last. */
  lemma {:induction false} LastWriter<O, V>(options: seq<O>, writes: O -> Option<V>) returns (last: nat)
    requires exists i :: 0 <= i < |options| && writes(options[i]).Some?
    ensures last < |options| && writes(options[last]).Some? && SilentAfter(options, writes, last)
  {
    var n := |options| - 1;
    if writes(options[n]).Some? {
      last := n;
    } else {
      var i :| 0 <= i < |options| && writes(options[i]).Some?;
      assert options[..n][i] == options[i];
      last := LastWriter(options[..n], writes);
      assert forall j :: 0 <= j < n ==> options[..n][j] == options[j];
    }
  }
}
