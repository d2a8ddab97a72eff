// The title bookkeeping of the picker button: one display string per picker
// column, the label shown on the button, and the flag that gates refreshing it.
module PickerButtons {
  import opened TitleJoin

  datatype Option<T> = None | Some(value: T)

  /**
   * What the picker answers while a delegate is being installed: the number
   * of components (columns), the number of rows of each column, and the title
   * the delegate reports for row 0 of each column (None when it reports none).
   */
  datatype Picker = Picker(
    numberOfComponents: int,
    numberOfRows: int -> int,
    titleForRow0: int -> Option<string>)

  /** The starting display string of one column. */
  function InitialEntry(p: Picker, column: int): (r: string)
  {
    if p.numberOfRows(column) > 0 then
      match p.titleForRow0(column)
      case Some(t) => t
      case None => ""
    else ""
  }

  /** The starting display strings of columns 0 .. n-1, one per column. */
  function InitialValues(p: Picker, n: nat): (r: seq<string>)
    ensures |r| == n
    ensures forall i :: 0 <= i < n && p.numberOfRows(i) <= 0 ==> r[i] == ""
    ensures forall i :: 0 <= i < n && p.numberOfRows(i) > 0 && p.titleForRow0(i).None? ==> r[i] == ""
    ensures forall i :: 0 <= i < n && p.numberOfRows(i) > 0 && p.titleForRow0(i).Some? ==>
      r[i] == p.titleForRow0(i).value
  {
    if n == 0 then [] else InitialValues(p, n - 1) + [InitialEntry(p, n - 1)]
  }

  class PickerButton {
    /** One display string per picker column. */
    var values: seq<string>
    /** The label the button shows for its default state. */
    var title: string
    var closeButtonTitle: string
    var shouldUpdateTitleAutomatically: bool
    /** Whether a delegate (and with it the proxy that reports title changes) is installed. */
    var hasDelegateProxy: bool

    /** A fresh button showing `initialTitle`, with no columns and the default settings. */
    constructor (initialTitle: string)
      ensures values == [] && title == initialTitle
      ensures closeButtonTitle == "Done" && shouldUpdateTitleAutomatically
      ensures !hasDelegateProxy
    {
      values := [];
      title := initialTitle;
      closeButtonTitle := "Done";
      shouldUpdateTitleAutomatically := true;
      hasDelegateProxy := false;
    }

    /** Recomputes the label from `values`, unless automatic updating is off. */
    method UpdateTitle()
      modifies this`title
      ensures title == if shouldUpdateTitleAutomatically then Joined(values) else old(title)
    {
      if !shouldUpdateTitleAutomatically {
        return;
      }
      title := ComputeTitle(values);
    }

    /**
     * Installs a delegate. With no components nothing else changes; otherwise
     * `values` is rebuilt with one starting entry per column and the label is
     * recomputed.
     */
    method SetDelegate(p: Picker)
      modifies this`values, this`title, this`hasDelegateProxy
      ensures hasDelegateProxy
      ensures p.numberOfComponents <= 0 ==> values == old(values) && title == old(title)
      ensures p.numberOfComponents > 0 ==>
        values == InitialValues(p, p.numberOfComponents) &&
        title == if shouldUpdateTitleAutomatically then Joined(values) else old(title)
    {
      hasDelegateProxy := true;
      var components := p.numberOfComponents;
      if components <= 0 {
        return;
      }
      values := InitialValues(p, components);
      UpdateTitle();
    }

    /** The proxy reports that `component` now shows `newTitle`. */
    method TitleChanged(component: int, newTitle: string)
      requires hasDelegateProxy
      requires 0 <= component < |values|
      modifies this`values, this`title
      ensures values == old(values)[component := newTitle]
      ensures title == if shouldUpdateTitleAutomatically then Joined(values) else old(title)
    {
      values := values[component := newTitle];
      UpdateTitle();
    }

    /**
     * The key-input protocol's "has text": true exactly when there is at least
     * one column; when it is false the entries fold to the empty label.
     */
    predicate HasText()
      reads this
      ensures HasText() <==> |values| > 0
      ensures !HasText() ==> Joined(values) == ""
    {
      values != []
    }

    /** Text typed into the button is ignored. */
    method InsertText(text: string)
      ensures unchanged(this)
    {
    }

    /** Backward deletion is ignored. */
    method DeleteBackward()
      ensures unchanged(this)
    {
    }
  }

  // Two client runs that use only the contracts above.

  /** One column with rows "Red", "Green", "Blue"; the user then picks "Blue". */
  method SingleColumnSelection()
  {
    var b := new PickerButton("");
    b.SetDelegate(Picker(1, c => 3, c => Some("Red")));
    assert b.values == ["Red"];
    JoinedSingle("Red");
    assert b.title == "Red";
    b.TitleChanged(0, "Blue");
    assert b.values == ["Blue"];
    JoinedSingle("Blue");
    assert b.title == "Blue";
  }

  /** Column 0 has no rows, column 1 shows "X"; with updating off the label stays frozen until the next event. */
  method FrozenLabel()
  {
    var b := new PickerButton("Pick");
    b.SetDelegate(Picker(2, c => if c == 0 then 0 else 2, c => Some("X")));
    assert b.values == ["", "X"];
    LeadingEmptySwallowed();
    assert b.title == "X";
    b.shouldUpdateTitleAutomatically := false;
    b.TitleChanged(0, "A");
    assert b.values == ["A", "X"] && b.title == "X";
    b.shouldUpdateTitleAutomatically := true;
    b.TitleChanged(1, "X");
    assert b.values == ["A", "X"];
    JoinedNoLeadingEmpty(["A", "X"]);
    assert ["A", "X"][1..] == ["X"];
    assert b.title == "A X";
  }
}
