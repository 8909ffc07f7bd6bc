/**
 * How a FluentValidation validator turns its rule chains into a result.
 *
 * A validator built from `RuleFor(...)` chains runs with the library's
 * default cascade mode: every check of every chain is evaluated, in the
 * order in which the chains and their checks are declared, and each failing
 * check adds its own error to the result. The validators of this program
 * differ only in their checks, so each is modelled as the ordered list of
 * its errors (one per check) and a predicate that says whether the check
 * reporting an error passes.
 */
module Validation {

  /** The errors of the failing checks of `rules`, in rule order. */
  function Failures<E>(rules: seq<E>, holds: E -> bool): (errs: seq<E>)
    ensures |errs| <= |rules|
    ensures forall e :: e in errs ==> e in rules && !holds(e)
    decreases |rules|
  {
    if rules == [] then []
    else (if holds(rules[0]) then [] else [rules[0]]) + Failures(rules[1..], holds)
  }

  /** No element of `s` occurs twice. */
  predicate Distinct<E(==)>(s: seq<E>)
  {
    forall a, b :: 0 <= a < b < |s| ==> s[a] != s[b]
  }

  /** Distinct checks give distinct errors: no failing check is reported twice. */
  lemma {:induction false} FailuresDistinct<E>(rules: seq<E>, holds: E -> bool)
    requires Distinct(rules)
    ensures Distinct(Failures(rules, holds))
    decreases |rules|
  {
    if rules != [] {
      var tail := Failures(rules[1..], holds);
      assert Distinct(rules[1..]) by {
        forall a, b | 0 <= a < b < |rules[1..]| ensures rules[1..][a] != rules[1..][b] {
          assert rules[1..][a] == rules[a + 1] && rules[1..][b] == rules[b + 1];
        }
      }
      FailuresDistinct(rules[1..], holds);
      if !holds(rules[0]) {
        assert rules[0] !in rules[1..] by {
          forall k | 0 <= k < |rules[1..]| ensures rules[1..][k] != rules[0] {
            assert rules[1..][k] == rules[k + 1];
          }
        }
        assert Failures(rules, holds) == [rules[0]] + tail;
        ConsDistinct(rules[0], tail);
      } else {
        assert Failures(rules, holds) == [] + tail;
        assert [] + tail == tail;
      }
    }
  }

  lemma ConsDistinct<E>(x: E, tail: seq<E>)
    requires x !in tail && Distinct(tail)
    ensures Distinct([x] + tail)
  {
    forall a, b | 0 <= a < b < |[x] + tail| ensures ([x] + tail)[a] != ([x] + tail)[b] {
      assert ([x] + tail)[b] == tail[b - 1];
      if a > 0 {
        assert ([x] + tail)[a] == tail[a - 1];
      }
    }
  }

  /** Every failing check is reported. */
  lemma {:induction false} FailuresComplete<E>(rules: seq<E>, holds: E -> bool, e: E)
    requires e in rules && !holds(e)
    ensures e in Failures(rules, holds)
    decreases |rules|
  {
    if rules[0] != e {
      FailuresComplete(rules[1..], holds, e);
    }
  }

  /** The result is empty exactly when every check passes. */
  lemma FailuresEmptyIff<E>(rules: seq<E>, holds: E -> bool)
    ensures Failures(rules, holds) == [] <==> forall e :: e in rules ==> holds(e)
  {
    forall e | e in rules && !holds(e)
      ensures e in Failures(rules, holds)
    {
      FailuresComplete(rules, holds, e);
    }
  }

  /** Whether `x` occurs in `s` at some position before an occurrence of `y`. */
  ghost predicate Before<E>(s: seq<E>, x: E, y: E)
  {
    exists a, b :: 0 <= a < b < |s| && s[a] == x && s[b] == y
  }

  /** Two failing checks are reported in the order of the checks. */
  lemma {:induction false} FailuresKeepOrder<E>(rules: seq<E>, holds: E -> bool, i: nat, j: nat)
    requires i < j < |rules|
    requires !holds(rules[i]) && !holds(rules[j])
    ensures Before(Failures(rules, holds), rules[i], rules[j])
    decreases |rules|
  {
    var tail := Failures(rules[1..], holds);
    if i == 0 {
      FailuresComplete(rules[1..], holds, rules[j]);
      var b :| 0 <= b < |tail| && tail[b] == rules[j];
      assert Failures(rules, holds) == [rules[0]] + tail;
      BeforeFront(rules[0], tail, b);
    } else {
      FailuresKeepOrder(rules[1..], holds, i - 1, j - 1);
      var head := if holds(rules[0]) then [] else [rules[0]];
      assert Failures(rules, holds) == head + tail;
      BeforeAppend(head, tail, rules[i], rules[j]);
    }
  }

  lemma BeforeFront<E>(x: E, tail: seq<E>, b: nat)
    requires b < |tail|
    ensures Before([x] + tail, x, tail[b])
  {
    assert ([x] + tail)[0] == x && ([x] + tail)[b + 1] == tail[b];
  }

  lemma BeforeAppend<E>(head: seq<E>, tail: seq<E>, x: E, y: E)
    requires Before(tail, x, y)
    ensures Before(head + tail, x, y)
  {
    var a, b :| 0 <= a < b < |tail| && tail[a] == x && tail[b] == y;
    assert (head + tail)[|head| + a] == x && (head + tail)[|head| + b] == y;
  }

  /** The result of concatenated chains is the concatenation of their results. */
  lemma {:induction false} FailuresAppend<E>(r: seq<E>, s: seq<E>, holds: E -> bool)
    ensures Failures(r + s, holds) == Failures(r, holds) + Failures(s, holds)
    decreases |r|
  {
    if r != [] {
      var head := if holds(r[0]) then [] else [r[0]];
      assert (r + s)[0] == r[0];
      assert (r + s)[1..] == r[1..] + s;
      assert Failures(r + s, holds) == head + Failures(r[1..] + s, holds);
      FailuresAppend(r[1..], s, holds);
      assert Failures(r, holds) == head + Failures(r[1..], holds);
    } else {
      assert r + s == s;
    }
  }

  /**
   * In `head + tail`, where `first` holds of every element of `head` and of
   * no element of `tail`, no element satisfying `first` follows one that
   * does not.
   */
  lemma Separated<E>(head: seq<E>, tail: seq<E>, first: E -> bool, a: nat, b: nat)
    requires forall e :: e in head ==> first(e)
    requires forall e :: e in tail ==> !first(e)
    requires a < b < |head + tail|
    requires !first((head + tail)[a])
    ensures !first((head + tail)[b])
  {
    if |head| <= a {
      assert (head + tail)[b] == tail[b - |head|];
    }
  }

  /** The image of a member under `f` is a member of the mapped sequence. */
  lemma MappedMember<E, M>(errs: seq<E>, msgs: seq<M>, f: E -> M, e: E)
    requires |msgs| == |errs| && forall i :: 0 <= i < |errs| ==> msgs[i] == f(errs[i])
    requires e in errs
    ensures f(e) in msgs
  {
    var i :| 0 <= i < |errs| && errs[i] == e;
    assert msgs[i] == f(e);
  }
}
