/**
 * The behaviour the two generations of dispatcher decorators share, as
 * functions on values: the deduplicator's history under an optional job
 * cap, the conjunction of the validators and the ordered composition of
 * the preprocessors. Each generation's classes are proved against these.
 */
module DecoratorSpec {
  import opened Wrappers

  predicate NoDuplicates<T(==)>(s: seq<T>) {
    forall i, j :: 0 <= i < j < |s| ==> s[i] != s[j]
  }

  /** The history has reached the cap, if there is one. */
  predicate Full<T>(history: seq<T>, cap: Option<nat>) {
    cap.Some? && |history| >= cap.value
  }

  /** The history after one dispatch: a repeat or a dispatch at the cap leaves it as it was. */
  function Admit<T(==)>(history: seq<T>, cap: Option<nat>, item: T): seq<T> {
    if item in history || Full(history, cap) then history else history + [item]
  }

  /** The history after dispatching `items` one after the other. */
  function AdmitAll<T(==)>(history: seq<T>, cap: Option<nat>, items: seq<T>): seq<T>
    decreases |items|
  {
    if items == [] then history else AdmitAll(Admit(history, cap, items[0]), cap, items[1..])
  }

  /** The history only grows: the old history is a prefix of the new one. */
  lemma {:induction false} AdmitAllExtends<T>(history: seq<T>, cap: Option<nat>, items: seq<T>)
    ensures |AdmitAll(history, cap, items)| >= |history|
    ensures AdmitAll(history, cap, items)[..|history|] == history
    decreases |items|
  {
    if items != [] {
      var h' := Admit(history, cap, items[0]);
      AdmitAllExtends(h', cap, items[1..]);
      assert h'[..|history|] == history;
      assert AdmitAll(history, cap, items)[..|history|] == AdmitAll(h', cap, items[1..])[..|h'|][..|history|];
    }
  }

  /** A history without repeats never acquires one. */
  lemma {:induction false} AdmitAllNoDuplicates<T>(history: seq<T>, cap: Option<nat>, items: seq<T>)
    requires NoDuplicates(history)
    ensures NoDuplicates(AdmitAll(history, cap, items))
    decreases |items|
  {
    if items != [] {
      var h' := Admit(history, cap, items[0]);
      assert NoDuplicates(h') by {
        if h' != history {
          forall i, j | 0 <= i < j < |h'| ensures h'[i] != h'[j] {
            if j == |history| {
              assert h'[i] == history[i];
            }
          }
        }
      }
      AdmitAllNoDuplicates(h', cap, items[1..]);
    }
  }

  /** A history within the cap stays within the cap. */
  lemma {:induction false} AdmitAllWithinCap<T>(history: seq<T>, m: nat, items: seq<T>)
    requires |history| <= m
    ensures |AdmitAll(history, Some(m), items)| <= m
    decreases |items|
  {
    if items != [] {
      AdmitAllWithinCap(Admit(history, Some(m), items[0]), m, items[1..]);
    }
  }

  /** Once the history has reached the cap it never changes again: the cap is permanent. */
  lemma {:induction false} AdmitAllFull<T>(history: seq<T>, cap: Option<nat>, items: seq<T>)
    requires Full(history, cap)
    ensures AdmitAll(history, cap, items) == history
    decreases |items|
  {
    if items != [] {
      AdmitAllFull(history, cap, items[1..]);
    }
  }

  /** Whatever the cap, the history holds only earlier entries and dispatched items. */
  lemma {:induction false} AdmitAllFrom<T>(history: seq<T>, cap: Option<nat>, items: seq<T>, x: T)
    requires x in AdmitAll(history, cap, items)
    ensures x in history || x in items
    decreases |items|
  {
    if items != [] {
      AdmitAllFrom(Admit(history, cap, items[0]), cap, items[1..], x);
    }
  }

  /** Without a cap every dispatched item ends up in the history. */
  lemma {:induction false} AdmitAllUncapped<T>(history: seq<T>, items: seq<T>, x: T)
    requires x in history || x in items
    ensures x in AdmitAll(history, None, items)
    decreases |items|
  {
    if items != [] {
      var h' := Admit(history, None, items[0]);
      assert x in h' || x in items[1..] by {
        if x !in history && x != items[0] {
          assert x in items[1..];
        }
      }
      AdmitAllUncapped(h', items[1..], x);
    }
  }

  /** Dispatching one more item after a list. */
  lemma {:induction false} AdmitAllSnoc<T>(history: seq<T>, cap: Option<nat>, items: seq<T>, x: T)
    ensures AdmitAll(history, cap, items + [x]) == Admit(AdmitAll(history, cap, items), cap, x)
    decreases |items|
  {
    if items == [] {
      assert AdmitAll(Admit(history, cap, x), cap, []) == Admit(history, cap, x);
      assert ([] + [x])[1..] == [];
    } else {
      assert (items + [x])[1..] == items[1..] + [x];
      AdmitAllSnoc(Admit(history, cap, items[0]), cap, items[1..], x);
    }
  }

  /** Every validator accepts the item. */
  predicate AllValid<T>(validators: seq<T -> bool>, item: T) {
    forall i :: 0 <= i < |validators| ==> validators[i](item)
  }

  /** The preprocessors applied to the item from first to last. */
  function Compose<T>(preProcessors: seq<T -> T>, item: T): T {
    if preProcessors == [] then item else Compose(preProcessors[1..], preProcessors[0](item))
  }

  /** Composing a concatenated chain runs the first part, then the second. */
  lemma {:induction false} ComposeAppend<T>(ps: seq<T -> T>, qs: seq<T -> T>, item: T)
    ensures Compose(ps + qs, item) == Compose(qs, Compose(ps, item))
  {
    if ps == [] {
      assert ps + qs == qs;
    } else {
      assert (ps + qs)[1..] == ps[1..] + qs;
      ComposeAppend(ps[1..], qs, ps[0](item));
    }
  }
}
