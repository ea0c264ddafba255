/**
 * The current generation of dispatcher decorators (package messaging),
 * whose Dispatch reports whether the caller may keep producing. The
 * wrapped dispatcher is represented by a Recorder that logs what reaches
 * it and answers from a script.
 */
module MessagingDispatcher {
  import opened Wrappers
  import opened DecoratorSpec

  /**
   * The wrapped dispatcher: it logs every forwarded item and every Close,
   * and answers the k-th dispatch (counting from 0) with script(k).
   */
  class Recorder<T> {
    var forwarded: seq<T>
    var closes: nat
    const script: nat -> bool

    constructor (script: nat -> bool)
      ensures forwarded == [] && closes == 0 && this.script == script
    {
      forwarded := [];
      closes := 0;
      this.script := script;
    }

    method Dispatch(item: T) returns (ok: bool)
      modifies this
      ensures forwarded == old(forwarded) + [item] && closes == old(closes)
      ensures ok == script(|old(forwarded)|)
    {
      ok := script(|forwarded|);
      forwarded := forwarded + [item];
    }

    method Close()
      modifies this
      ensures closes == old(closes) + 1 && forwarded == old(forwarded)
    {
      closes := closes + 1;
    }
  }

  /** In this generation only a positive maxJobs is a cap; the default 0 means unlimited. */
  function Cap(maxJobs: int): Option<nat> {
    if maxJobs > 0 then Some(maxJobs) else None
  }

  /** With the default maxJobs of 0 every new item is accepted. */
  lemma {:induction false} DefaultUnlimited<T>(history: seq<T>, items: seq<T>, x: T)
    requires x in items
    ensures x in AdmitAll(history, Cap(0), items)
  {
    AdmitAllUncapped(history, items, x);
  }

  /**
   * The scenario of a seed and its discoveries: a repeated address is
   * recorded once and the order of first acceptance is kept.
   */
  lemma {:induction false} SeedScenario()
    ensures AdmitAll([], Cap(0), ["http://example.test/", "http://example.test/a",
      "http://example.test/a", "http://other.test/b"])
      == ["http://example.test/", "http://example.test/a", "http://other.test/b"]
  {
    var seed, a, b := "http://example.test/", "http://example.test/a", "http://other.test/b";
    assert seed != a && a != b && seed != b by {
      assert |seed| == 20 && |a| == 21 && |b| == 19;
    }
    assert [seed, a, a, b][1..] == [a, a, b];
    assert [a, a, b][1..] == [a, b];
    assert [a, b][1..] == [b];
    assert Admit([], Cap(0), seed) == [seed];
    assert Admit([seed], Cap(0), a) == [seed, a];
    assert Admit([seed, a], Cap(0), a) == [seed, a];
    assert Admit([seed, a], Cap(0), b) == [seed, a, b];
  }

  class DeDuplicatingDispatcher<T(==)> {
    const dispatcher: Recorder<T>
    var previousItems: seq<T>
    var maxJobs: int

    /** The history never holds the same item twice. */
    ghost predicate Valid()
      reads this
    {
      NoDuplicates(previousItems)
    }

    /** WithDeDuplication: an empty history and maxJobs 0, that is no cap. */
    constructor WithDeDuplication(dispatcher: Recorder<T>)
      ensures Valid()
      ensures this.dispatcher == dispatcher && previousItems == [] && maxJobs == 0
    {
      this.dispatcher := dispatcher;
      previousItems := [];
      maxJobs := 0;
    }

    /** Fluent setter for the cap; returns the same dispatcher. */
    method SetMaxJobs(max: int) returns (self: DeDuplicatingDispatcher<T>)
      requires Valid()
      modifies this
      ensures Valid() && self == this
      ensures maxJobs == max && previousItems == old(previousItems)
    {
      maxJobs := max;
      self := this;
    }

    /**
     * A repeat is accepted without forwarding; a new item at the cap is
     * refused; any other new item is recorded, then forwarded once, and the
     * wrapped dispatcher's answer is returned even when it is false.
     */
    method Dispatch(item: T) returns (ok: bool)
      requires Valid()
      modifies this, dispatcher
      ensures Valid() && maxJobs == old(maxJobs) && dispatcher.closes == old(dispatcher.closes)
      ensures previousItems == Admit(old(previousItems), Cap(maxJobs), item)
      ensures dispatcher.forwarded == old(dispatcher.forwarded) + previousItems[|old(previousItems)|..]
      ensures item in old(previousItems) ==> ok && previousItems == old(previousItems)
      ensures item !in old(previousItems) && Full(old(previousItems), Cap(maxJobs)) ==>
        !ok && previousItems == old(previousItems)
      ensures item !in old(previousItems) && !Full(old(previousItems), Cap(maxJobs)) ==>
        previousItems == old(previousItems) + [item] &&
        dispatcher.forwarded == old(dispatcher.forwarded) + [item] &&
        ok == dispatcher.script(|old(dispatcher.forwarded)|)
    {
      for i := 0 to |previousItems|
        invariant forall j :: 0 <= j < i ==> previousItems[j] != item
      {
        if previousItems[i] == item {
          return true;
        }
      }
      if maxJobs > 0 && |previousItems| >= maxJobs {
        return false;
      }
      previousItems := previousItems + [item];
      ok := dispatcher.Dispatch(item);
    }

    /** Delegates to the wrapped dispatcher exactly once. */
    method Close()
      modifies dispatcher
      ensures dispatcher.closes == old(dispatcher.closes) + 1
      ensures dispatcher.forwarded == old(dispatcher.forwarded)
    {
      dispatcher.Close();
    }

    /** The history, in the order the items were first accepted. */
    method ReportDispatched() returns (items: seq<T>)
      requires Valid()
      ensures items == previousItems && NoDuplicates(items)
    {
      items := previousItems;
    }
  }

  class ValidDispatcher<T> {
    const dispatcher: Recorder<T>
    const validators: seq<T -> bool>

    constructor WithValidation(dispatcher: Recorder<T>, validators: seq<T -> bool>)
      ensures this.dispatcher == dispatcher && this.validators == validators
    {
      this.dispatcher := dispatcher;
      this.validators := validators;
    }

    /**
     * A job some validator rejects is dropped and reported as accepted;
     * otherwise it is forwarded unchanged and the wrapped answer returned.
     */
    method Dispatch(item: T) returns (ok: bool)
      modifies dispatcher
      ensures dispatcher.closes == old(dispatcher.closes)
      ensures !AllValid(validators, item) ==> ok && dispatcher.forwarded == old(dispatcher.forwarded)
      ensures AllValid(validators, item) ==>
        dispatcher.forwarded == old(dispatcher.forwarded) + [item] &&
        ok == dispatcher.script(|old(dispatcher.forwarded)|)
    {
      for i := 0 to |validators|
        invariant forall j :: 0 <= j < i ==> validators[j](item)
      {
        if !validators[i](item) {
          return true;
        }
      }
      ok := dispatcher.Dispatch(item);
    }

    /** Delegates to the wrapped dispatcher exactly once. */
    method Close()
      modifies dispatcher
      ensures dispatcher.closes == old(dispatcher.closes) + 1
      ensures dispatcher.forwarded == old(dispatcher.forwarded)
    {
      dispatcher.Close();
    }
  }

  class PreProcessingDispatcher<T> {
    const dispatcher: Recorder<T>
    const preProcessors: seq<T -> T>

    constructor WithPreProcessing(dispatcher: Recorder<T>, preProcessors: seq<T -> T>)
      ensures this.dispatcher == dispatcher && this.preProcessors == preProcessors
    {
      this.dispatcher := dispatcher;
      this.preProcessors := preProcessors;
    }

    /** Forwards the item transformed by every preprocessor, first to last, and returns the wrapped answer. */
    method Dispatch(item: T) returns (ok: bool)
      modifies dispatcher
      ensures dispatcher.closes == old(dispatcher.closes)
      ensures dispatcher.forwarded == old(dispatcher.forwarded) + [Compose(preProcessors, item)]
      ensures ok == dispatcher.script(|old(dispatcher.forwarded)|)
    {
      var current := item;
      for i := 0 to |preProcessors|
        invariant current == Compose(preProcessors[..i], item)
        invariant unchanged(dispatcher)
      {
        ComposeAppend(preProcessors[..i], [preProcessors[i]], item);
        assert preProcessors[..i + 1] == preProcessors[..i] + [preProcessors[i]];
        assert Compose([preProcessors[i]], current) == preProcessors[i](current);
        current := preProcessors[i](current);
      }
      assert preProcessors[..|preProcessors|] == preProcessors;
      ok := dispatcher.Dispatch(current);
    }

    /** Delegates to the wrapped dispatcher exactly once. */
    method Close()
      modifies dispatcher
      ensures dispatcher.closes == old(dispatcher.closes) + 1
      ensures dispatcher.forwarded == old(dispatcher.forwarded)
    {
      dispatcher.Close();
    }
  }
}
