/**
 * The older generation of dispatcher decorators (package util), whose
 * Dispatch returns nothing. The queue they ultimately feed is represented
 * by a Sink that records what reaches it.
 */
module UtilQueue {
  import opened Wrappers
  import opened DecoratorSpec

  /** The wrapped dispatcher: it records every item dispatched to it, in order. */
  class Sink<T> {
    var received: seq<T>

    constructor ()
      ensures received == []
    {
      received := [];
    }

    method Dispatch(item: T)
      modifies this
      ensures received == old(received) + [item]
    {
      received := received + [item];
    }
  }

  /** In this generation any non-negative maxJobs is a cap (0 admits nothing); a negative one is none. */
  function Cap(maxJobs: int): Option<nat> {
    if maxJobs >= 0 then Some(maxJobs) else None
  }

  /** The default maxJobs of -1 imposes no cap, while 0 drops every new item. */
  lemma {:induction false} CapDefaults<T>(history: seq<T>, items: seq<T>)
    ensures Cap(-1) == None
    ensures AdmitAll(history, Cap(0), items) == history
  {
    AdmitAllFull(history, Cap(0), items);
  }

  class DeDuplicatingDispatcher<T(==)> {
    const dispatcher: Sink<T>
    var previousItems: seq<T>
    var maxJobs: int

    /** The history never holds the same item twice. */
    ghost predicate Valid()
      reads this
    {
      NoDuplicates(previousItems)
    }

    /** WithDeDuplication: an empty history and no cap. */
    constructor WithDeDuplication(dispatcher: Sink<T>)
      ensures Valid()
      ensures this.dispatcher == dispatcher && previousItems == [] && maxJobs == -1
    {
      this.dispatcher := dispatcher;
      previousItems := [];
      maxJobs := -1;
    }

    /** Fluent setter for the cap; returns the same dispatcher. */
    method SetMaxJobs(max: int) returns (self: DeDuplicatingDispatcher<T>)
      requires Valid()
      modifies this
      ensures Valid() && self == this
      ensures maxJobs == max && previousItems == old(previousItems)
    {
      maxJobs := max;
      self := this;
    }

    /**
     * Drops repeats and, once the history has reached the cap, every new
     * item; otherwise records the item and then forwards it exactly once.
     */
    method Dispatch(item: T)
      requires Valid()
      modifies this, dispatcher
      ensures Valid() && maxJobs == old(maxJobs)
      ensures previousItems == Admit(old(previousItems), Cap(maxJobs), item)
      ensures dispatcher.received == old(dispatcher.received) + previousItems[|old(previousItems)|..]
      ensures item in old(previousItems) ==> previousItems == old(previousItems)
      ensures item !in old(previousItems) && Full(old(previousItems), Cap(maxJobs)) ==>
        previousItems == old(previousItems)
      ensures item !in old(previousItems) && !Full(old(previousItems), Cap(maxJobs)) ==>
        previousItems == old(previousItems) + [item] &&
        dispatcher.received == old(dispatcher.received) + [item]
    {
      for i := 0 to |previousItems|
        invariant forall j :: 0 <= j < i ==> previousItems[j] != item
      {
        if previousItems[i] == item {
          return;
        }
      }
      if maxJobs >= 0 && |previousItems| >= maxJobs {
        return;
      }
      previousItems := previousItems + [item];
      dispatcher.Dispatch(item);
    }

    /** The history, in the order the items were first accepted. */
    method ReportDispatched() returns (items: seq<T>)
      requires Valid()
      ensures items == previousItems && NoDuplicates(items)
    {
      items := previousItems;
    }
  }

  class ValidDispatcher<T> {
    const dispatcher: Sink<T>
    const validators: seq<T -> bool>

    constructor WithValidation(dispatcher: Sink<T>, validators: seq<T -> bool>)
      ensures this.dispatcher == dispatcher && this.validators == validators
    {
      this.dispatcher := dispatcher;
      this.validators := validators;
    }

    /** Forwards the item unchanged when every validator accepts it, and otherwise nothing. */
    method Dispatch(item: T)
      modifies dispatcher
      ensures AllValid(validators, item) ==> dispatcher.received == old(dispatcher.received) + [item]
      ensures !AllValid(validators, item) ==> dispatcher.received == old(dispatcher.received)
    {
      for i := 0 to |validators|
        invariant forall j :: 0 <= j < i ==> validators[j](item)
      {
        if !validators[i](item) {
          return;
        }
      }
      dispatcher.Dispatch(item);
    }
  }

  class PreProcessingDispatcher<T> {
    const dispatcher: Sink<T>
    const preProcessors: seq<T -> T>

    constructor WithPreProcessing(dispatcher: Sink<T>, preProcessors: seq<T -> T>)
      ensures this.dispatcher == dispatcher && this.preProcessors == preProcessors
    {
      this.dispatcher := dispatcher;
      this.preProcessors := preProcessors;
    }

    /** Forwards the item transformed by every preprocessor, first to last. */
    method Dispatch(item: T)
      modifies dispatcher
      ensures dispatcher.received == old(dispatcher.received) + [Compose(preProcessors, item)]
    {
      var current := item;
      for i := 0 to |preProcessors|
        invariant current == Compose(preProcessors[..i], item)
        invariant unchanged(dispatcher)
      {
        ComposeAppend(preProcessors[..i], [preProcessors[i]], item);
        assert preProcessors[..i + 1] == preProcessors[..i] + [preProcessors[i]];
        assert Compose([preProcessors[i]], current) == preProcessors[i](current);
        current := preProcessors[i](current);
      }
      assert preProcessors[..|preProcessors|] == preProcessors;
      dispatcher.Dispatch(current);
    }
  }
}
