// The button label computed from the per-column display strings.
//
// The source folds the column strings into one label with an accumulator that
// starts empty: while the accumulator is still empty an entry is appended as
// is, afterwards every entry is appended after one space. The reference
// definition below, Joined, states the outcome independently of the fold:
// drop the leading empty entries, then join the rest with single spaces.
module TitleJoin {

  /** Index of the first non-empty entry, or |s| when every entry is empty. */
  function FirstNonEmpty(s: seq<string>): (k: nat)
    ensures k <= |s|
    ensures forall j :: 0 <= j < k ==> s[j] == ""
    ensures k < |s| ==> s[k] != ""
  {
    if s == [] then 0
    else if s[0] != "" then 0
    else 1 + FirstNonEmpty(s[1..])
  }

  /** The entries joined with one space between neighbours, empty entries included. */
  function SpaceJoined(s: seq<string>): (r: string)
    ensures s != [] ==> s[0] <= r
  {
    if s == [] then ""
    else if |s| == 1 then s[0]
    else s[0] + " " + SpaceJoined(s[1..])
  }

  /** The label: the entries from the first non-empty one onward, joined by single spaces. */
  function Joined(s: seq<string>): (r: string)
  {
    SpaceJoined(s[FirstNonEmpty(s)..])
  }

  /**
   * One step of the fold, the closure at PickerButton/PickerButton.swift:130-134:
   * while the accumulator is empty the entry is appended bare, afterwards after a space.
   */
  function Step(acc: string, entry: string): (r: string)
  {
    if acc == "" then acc + entry else acc + " " + entry
  }

  /** The label is empty exactly when every entry is empty (in particular for no entries). */
  lemma JoinedEmptyIff(s: seq<string>)
    ensures Joined(s) == "" <==> forall i :: 0 <= i < |s| ==> s[i] == ""
  {
    var k := FirstNonEmpty(s);
    if k < |s| {
      assert s[k..][0] == s[k];
      assert s[k] <= Joined(s);
    }
  }

  /** Joining is associative across a split, with one space at the seam. */
  lemma {:induction false} SpaceJoinedAppend(a: seq<string>, b: seq<string>)
    requires a != [] && b != []
    ensures SpaceJoined(a + b) == SpaceJoined(a) + " " + SpaceJoined(b)
  {
    if |a| == 1 {
      assert (a + b)[1..] == b;
    } else {
      assert (a + b)[1..] == a[1..] + b;
      SpaceJoinedAppend(a[1..], b);
    }
  }

  /** Where the first non-empty entry of a concatenation lies. */
  lemma {:induction false} FirstNonEmptyAppend(a: seq<string>, b: seq<string>)
    ensures FirstNonEmpty(a + b) ==
      if FirstNonEmpty(a) < |a| then FirstNonEmpty(a) else |a| + FirstNonEmpty(b)
  {
    if a == [] {
      assert a + b == b;
    } else if a[0] != "" {
    } else {
      assert (a + b)[1..] == a[1..] + b;
      FirstNonEmptyAppend(a[1..], b);
    }
  }

  /**
   * The label of a concatenation: when the first part has an empty label, the
   * second part alone decides; otherwise every entry of the second part, empty
   * or not, follows the first part's label after one space.
   */
  lemma JoinedAppend(a: seq<string>, b: seq<string>)
    ensures Joined(a + b) ==
      if Joined(a) == "" then Joined(b)
      else if b == [] then Joined(a)
      else Joined(a) + " " + SpaceJoined(b)
  {
    var ka := FirstNonEmpty(a);
    FirstNonEmptyAppend(a, b);
    JoinedEmptyIff(a);
    if ka < |a| {
      assert (a + b)[ka..] == a[ka..] + b;
      if b != [] {
        SpaceJoinedAppend(a[ka..], b);
      } else {
        assert a + b == a;
      }
    } else {
      assert (a + b)[|a| + FirstNonEmpty(b)..] == b[FirstNonEmpty(b)..];
    }
  }

  /** Appending one entry to the list acts on the label as one step of the fold. */
  lemma JoinedSnoc(s: seq<string>, entry: string)
    ensures Joined(s + [entry]) == Step(Joined(s), entry)
  {
    JoinedAppend(s, [entry]);
    JoinedSingle(entry);
  }

  /** A single entry joins to itself. */
  lemma JoinedSingle(entry: string)
    ensures Joined([entry]) == entry
  {
    if entry == "" {
      assert [entry][1..] == [];
    }
  }

  /**
   * The label seen from column i: the columns before i contribute their own
   * label, and from column i on every entry follows after one space, starting
   * with entry i itself.
   */
  lemma JoinedAt(s: seq<string>, i: nat)
    requires i < |s|
    ensures Joined(s[..i]) != "" ==> Joined(s) == Joined(s[..i]) + " " + SpaceJoined(s[i..])
    ensures Joined(s[..i]) != "" ==> Joined(s[..i]) + " " + s[i] <= Joined(s)
    ensures Joined(s[..i]) == "" ==> Joined(s) == Joined(s[i..])
  {
    assert s == s[..i] + s[i..];
    JoinedAppend(s[..i], s[i..]);
    assert s[i..][0] == s[i];
  }

  /**
   * After column i is set to t: when some column before i is non-empty, the
   * label continues the earlier columns' label with a space, then t, then the
   * later columns each after one space; when every earlier column is empty,
   * they vanish and the label is that of t and the later columns alone.
   */
  lemma JoinedAfterReplace(s: seq<string>, i: nat, t: string)
    requires i < |s|
    ensures Joined(s[..i]) != "" ==>
      Joined(s[i := t]) == Joined(s[..i]) + " " + SpaceJoined([t] + s[i + 1..])
    ensures Joined(s[..i]) == "" ==> Joined(s[i := t]) == Joined([t] + s[i + 1..])
  {
    var s' := s[i := t];
    assert s'[..i] == s[..i];
    assert s'[i..] == [t] + s[i + 1..];
    JoinedAt(s', i);
  }

  /** With a non-empty first entry the label is the plain space-join of all entries. */
  lemma JoinedNoLeadingEmpty(s: seq<string>)
    requires s != [] && s[0] != ""
    ensures Joined(s) == SpaceJoined(s)
  {
    assert s[0..] == s;
  }

  /**
   * Leading empty entries are swallowed, so the label differs from the plain
   * space-join whenever a non-empty entry follows an empty first one.
   */
  lemma LeadingEmptySwallowed()
    ensures Joined(["", "X"]) == "X"
    ensures SpaceJoined(["", "X"]) == " X"
  {
    assert ["", "X"][1..] == ["X"];
  }

  /** An empty entry after a non-empty one still contributes its separator. */
  lemma InnerEmptyKeepsSpace()
    ensures Joined(["A", "", "B"]) == "A  B"
  {
    JoinedNoLeadingEmpty(["A", "", "B"]);
    assert ["A", "", "B"][1..] == ["", "B"];
    assert ["", "B"][1..] == ["B"];
  }

  /** The fold over the column strings, appending to an accumulator step by step. */
  method ComputeTitle(values: seq<string>) returns (title: string)
    ensures title == Joined(values)
  {
    title := "";
    for i := 0 to |values|
      invariant title == Joined(values[..i])
    {
      assert values[..i + 1] == values[..i] + [values[i]];
      JoinedSnoc(values[..i], values[i]);
      title := Step(title, values[i]);
    }
    assert values[..|values|] == values;
  }
}
