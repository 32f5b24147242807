/**
 * The shopping-list component: three pieces of React state (`itemsArray`, `inputValue`,
 * `invalidInput`) and the event handlers that change them.
 *
 * React batches state updates: a handler reads the values of the render it was created in
 * and its setter calls take effect together when it returns. Each handler is therefore
 * specified by a function from the rendered snapshot (a `View`) to the next one, and the
 * `Component` class runs the handlers step by step against that specification.
 */
module ShoppingList {
  import opened JsString
  import opened JsArray

  datatype View = View(itemsArray: seq<string>, inputValue: string, invalidInput: bool)

  /** The state `useState` starts from: no items, an empty input, no warning. */
  function InitialView(): View {
    View([], "", false)
  }

  /** The test inside `isInputValid`: some item is exactly (case-sensitively) the typed text. */
  predicate IsDuplicate(v: View) {
    SomeEqual(v.itemsArray, v.inputValue)
  }

  /** `handleInputChange`: the input shows the new text and the warning goes away. */
  function InputChanged(v: View, value: string): View {
    View(v.itemsArray, value, false)
  }

  /** The input's `onFocus` handler: only the warning goes away. */
  function Focused(v: View): View {
    v.(invalidInput := false)
  }

  /**
   * `addItem`: a duplicate raises the warning and clears the input; otherwise text that is
   * not all white space is appended as typed (untrimmed) and the input is cleared; otherwise
   * nothing changes.
   */
  function Added(v: View): View {
    if IsDuplicate(v) then View(v.itemsArray, "", true)
    else if Trim(v.inputValue) != "" then View(v.itemsArray + [v.inputValue], "", false)
    else v
  }

  /** `handleKeyDown`: Enter adds, every other key does nothing. */
  function KeyPressed(v: View, key: string): View {
    if key == "Enter" then Added(v) else v
  }

  /**
   * `removeItem` for the item shown beside the clicked button: `indexOf` then `splice(index, 1)`.
   * An absent name gives index -1, which makes `splice` drop the last item.
   */
  function Removed(v: View, name: string): View {
    v.(itemsArray := Splice(v.itemsArray, IndexOf(v.itemsArray, name), 1))
  }

  /** The user actions the component reacts to. */
  datatype Event =
    | Change(value: string)
    | Focus
    | AddClick
    | KeyDown(key: string)
    | RemoveClick(name: string)

  function Step(v: View, e: Event): View {
    match e
    case Change(value) => InputChanged(v, value)
    case Focus => Focused(v)
    case AddClick => Added(v)
    case KeyDown(key) => KeyPressed(v, key)
    case RemoveClick(name) => Removed(v, name)
  }

  function Run(v: View, events: seq<Event>): View
    decreases |events|
  {
    if events == [] then v else Run(Step(v, events[0]), events[1..])
  }

  predicate Distinct(s: seq<string>) {
    forall i, j :: 0 <= i < j < |s| ==> s[i] != s[j]
  }

  predicate NoBlank(s: seq<string>) {
    forall i :: 0 <= i < |s| ==> !IsBlank(s[i])
  }

  /** What the handlers maintain: no name twice and no name made only of white space. */
  predicate Inv(v: View) {
    Distinct(v.itemsArray) && NoBlank(v.itemsArray)
  }

  /** A duplicate is rejected: the list stays, the warning shows and the input is cleared. */
  lemma AddedDuplicate(v: View)
    requires v.inputValue in v.itemsArray
    ensures Added(v) == View(v.itemsArray, "", true)
  {
    assert v.itemsArray[IndexOf(v.itemsArray, v.inputValue)] == v.inputValue;
  }

  /** New text made only of white space is ignored. */
  lemma AddedBlank(v: View)
    requires v.inputValue !in v.itemsArray
    requires IsBlank(v.inputValue)
    ensures Added(v) == v
  {
    TrimEmptyIffBlank(v.inputValue);
  }

  /** New text with a visible character is appended as typed; input and warning are reset. */
  lemma AddedFresh(v: View)
    requires v.inputValue !in v.itemsArray
    requires !IsBlank(v.inputValue)
    ensures Added(v) == View(v.itemsArray + [v.inputValue], "", false)
  {
    TrimEmptyIffBlank(v.inputValue);
  }

  /** Removing a name that is listed deletes its first occurrence and keeps the rest in order. */
  lemma RemovedPresent(v: View, name: string, i: int)
    requires 0 <= i < |v.itemsArray| && v.itemsArray[i] == name
    requires forall j :: 0 <= j < i ==> v.itemsArray[j] != name
    ensures Removed(v, name) == v.(itemsArray := v.itemsArray[..i] + v.itemsArray[i + 1..])
  {
    SpliceOneAt(v.itemsArray, i);
  }

  /** Removing a name that is not listed drops the last item, or nothing from an empty list. */
  lemma RemovedAbsent(v: View, name: string)
    requires name !in v.itemsArray
    ensures Removed(v, name).itemsArray ==
      if v.itemsArray == [] then [] else v.itemsArray[..|v.itemsArray| - 1]
    ensures Removed(v, name).inputValue == v.inputValue
    ensures Removed(v, name).invalidInput == v.invalidInput
  {
    SpliceOneAtMinusOne(v.itemsArray);
  }

  /** In a list without repeats, removing a listed name shortens it by one and the name is gone. */
  lemma RemovedPresentIsGone(v: View, name: string)
    requires Distinct(v.itemsArray) && name in v.itemsArray
    ensures |Removed(v, name).itemsArray| == |v.itemsArray| - 1
    ensures name !in Removed(v, name).itemsArray
  {
    var s := v.itemsArray;
    var i := IndexOf(s, name);
    RemovedPresent(v, name, i);
    var r := s[..i] + s[i + 1..];
    forall j | 0 <= j < |r| ensures r[j] != name {
      if j < i {
        assert r[j] == s[j];
      } else {
        assert r[j] == s[j + 1];
      }
    }
  }

  lemma AddedKeepsInv(v: View)
    requires Inv(v)
    ensures Inv(Added(v))
  {
    var s, x := v.itemsArray, v.inputValue;
    if x in s {
      AddedDuplicate(v);
    } else if IsBlank(x) {
      AddedBlank(v);
    } else {
      AddedFresh(v);
      var r := s + [x];
      assert forall i :: 0 <= i < |r| ==> r[i] == if i < |s| then s[i] else x;
      assert Distinct(r);
      assert NoBlank(r);
    }
  }

  /** Deleting one position keeps a list free of repeats and of blank names. */
  lemma DeleteAtKeepsInv(s: seq<string>, k: int)
    requires 0 <= k < |s| && Distinct(s) && NoBlank(s)
    ensures Distinct(s[..k] + s[k + 1..]) && NoBlank(s[..k] + s[k + 1..])
  {
    var r := s[..k] + s[k + 1..];
    forall j | 0 <= j < |r| ensures r[j] == s[if j < k then j else j + 1] {
    }
  }

  lemma RemovedKeepsInv(v: View, name: string)
    requires Inv(v)
    ensures Inv(Removed(v, name))
  {
    var s := v.itemsArray;
    var i := IndexOf(s, name);
    if i == -1 {
      SpliceOneAtMinusOne(s);
      if s != [] {
        DeleteAtKeepsInv(s, |s| - 1);
        assert s[..|s| - 1] == s[..|s| - 1] + s[|s|..];
      }
    } else {
      SpliceOneAt(s, i);
      DeleteAtKeepsInv(s, i);
    }
  }

  lemma StepKeepsInv(v: View, e: Event)
    requires Inv(v)
    ensures Inv(Step(v, e))
  {
    match e
    case AddClick => AddedKeepsInv(v);
    case KeyDown(key) => AddedKeepsInv(v);
    case RemoveClick(name) => RemovedKeepsInv(v, name);
    case _ =>
  }

  /** Whatever the user does from the initial state, the list has no repeats and no blank names. */
  lemma {:induction false} RunKeepsInv(v: View, events: seq<Event>)
    requires Inv(v)
    ensures Inv(Run(v, events))
    decreases |events|
  {
    if events != [] {
      StepKeepsInv(v, events[0]);
      RunKeepsInv(Step(v, events[0]), events[1..]);
    }
  }

  lemma ReachableInv(events: seq<Event>)
    ensures Distinct(Run(InitialView(), events).itemsArray)
    ensures NoBlank(Run(InitialView(), events).itemsArray)
  {
    RunKeepsInv(InitialView(), events);
  }

  /**
   * Adding "Milk" and "milk" lists both (the match is case-sensitive), adding "Milk" again is
   * rejected with the warning, and removing "Milk" leaves ["milk"].
   */
  lemma MilkScenario()
    ensures Run(InitialView(), [Change("Milk"), AddClick, Change("milk"), KeyDown("Enter")])
         == View(["Milk", "milk"], "", false)
    ensures Run(View(["Milk", "milk"], "", false), [Change("Milk"), AddClick])
         == View(["Milk", "milk"], "", true)
    ensures Run(View(["Milk", "milk"], "", true), [Focus, RemoveClick("Milk")])
         == View(["milk"], "", false)
  {
    assert !IsWhiteSpace("Milk"[0]) && !IsWhiteSpace("milk"[0]);
    var v1 := InputChanged(InitialView(), "Milk");
    AddedFresh(v1);
    var v2 := InputChanged(Added(v1), "milk");
    AddedFresh(v2);
    var v3 := InputChanged(View(["Milk", "milk"], "", false), "Milk");
    AddedDuplicate(v3);
    RemovedPresent(Focused(View(["Milk", "milk"], "", true)), "Milk", 0);
  }

  /** The mounted component: React's current state values, one field each. */
  class Component {
    var itemsArray: seq<string>
    var inputValue: string
    var invalidInput: bool

    function Snapshot(): View
      reads this
    {
      View(itemsArray, inputValue, invalidInput)
    }

    predicate Valid()
      reads this
    {
      Inv(Snapshot())
    }

    constructor ()
      ensures Snapshot() == InitialView() && Valid()
    {
      itemsArray := [];
      inputValue := "";
      invalidInput := false;
    }

    method HandleInputChange(value: string)
      modifies this
      ensures Snapshot() == InputChanged(old(Snapshot()), value)
      ensures old(Valid()) ==> Valid()
    {
      inputValue := value;
      invalidInput := false;
    }

    method HandleFocus()
      modifies this
      ensures Snapshot() == Focused(old(Snapshot()))
      ensures old(Valid()) ==> Valid()
    {
      invalidInput := false;
    }

    /**
     * `isInputValid`, run inside a handler created for the rendered snapshot `shown`: true
     * when the typed text is already listed, in which case it raises the warning and clears
     * the input; otherwise it changes nothing.
     */
    method IsInputValid(shown: View) returns (duplicate: bool)
      modifies this
      ensures duplicate <==> shown.inputValue in shown.itemsArray
      ensures duplicate ==> itemsArray == old(itemsArray) && inputValue == "" && invalidInput
      ensures !duplicate ==> Snapshot() == old(Snapshot())
    {
      if SomeEqual(shown.itemsArray, shown.inputValue) {
        invalidInput := true;
        inputValue := "";
        return true;
      }
      return false;
    }

    method AddItem()
      modifies this
      ensures Snapshot() == Added(old(Snapshot()))
      ensures old(Valid()) ==> Valid()
    {
      var shown := Snapshot();
      var duplicate := IsInputValid(shown);
      if !duplicate && Trim(shown.inputValue) != "" {
        itemsArray := shown.itemsArray + [shown.inputValue];
        inputValue := "";
        invalidInput := false;
      }
      assert Snapshot() == Added(shown);
      if Inv(shown) {
        AddedKeepsInv(shown);
      }
    }

    /** The Enter branch repeats `addItem`'s body rather than calling it. */
    method HandleKeyDown(key: string)
      modifies this
      ensures Snapshot() == KeyPressed(old(Snapshot()), key)
      ensures old(Valid()) ==> Valid()
    {
      var shown := Snapshot();
      if key == "Enter" {
        var duplicate := IsInputValid(shown);
        if !duplicate && Trim(shown.inputValue) != "" {
          itemsArray := shown.itemsArray + [shown.inputValue];
          inputValue := "";
          invalidInput := false;
        }
        assert Snapshot() == Added(shown);
        if Inv(shown) {
          AddedKeepsInv(shown);
        }
      }
    }

    /** `name` is the placeholder of the input beside the clicked button, i.e. the item shown there. */
    method RemoveItem(name: string)
      modifies this
      ensures Snapshot() == Removed(old(Snapshot()), name)
      ensures old(Valid()) ==> Valid()
    {
      var shown := Snapshot();
      var index := IndexOf(itemsArray, name);
      itemsArray := Splice(itemsArray, index, 1);
      assert Snapshot() == Removed(shown, name);
      if Inv(shown) {
        RemovedKeepsInv(shown, name);
      }
    }
  }
}
