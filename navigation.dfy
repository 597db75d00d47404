/**
 * The column browser: six side-by-side lists, a current column index and the
 * keyboard focus, driven by `initializeColumn`, the select handler it attaches
 * to every entry, and the Left/Right input capture it installs on a column.
 */
module Navigation {
  import opened Wrappers
  import opened Paths
  import opened Client

  /** The number of columns on screen. */
  const ColumnCount: nat := 6

  /** One entry of a column: the label shown, and the path its select handler captured. */
  datatype Item = Item(name: string, childPath: string)

  /** The keys the input capture looks at; every other key goes on to the list itself. */
  datatype Key = Left | Right | Other

  /** What the data pane shows: nothing yet, a pretty-printed leaf, or the error of a leaf read. */
  datatype Pane = Blank | Shown(text: string) | Failed(error: FetchError)

  /** The message written to the data pane after a leaf read (its colour tags are not modelled). */
  function LeafMessage(data: Outcome<string>): (p: Pane)
    ensures p != Blank
    ensures p.Shown? <==> data.Ok?
    ensures data.Ok? ==> p.text == data.value
    ensures data.Err? ==> p.error == data.error
  {
    match data
    case Ok(text) => Shown(text)
    case Err(e) => Failed(e)
  }

  /** The labels of a column, top to bottom. */
  function Labels(items: seq<Item>): (r: seq<string>)
    ensures |r| == |items|
  {
    seq(|items|, i requires 0 <= i < |items| => items[i].name)
  }

  /** The entries `initializeColumn` adds for `labels`, the children of `path`. */
  function ItemsFor(path: string, labels: seq<string>): (r: seq<Item>)
    ensures Labels(r) == labels
    ensures forall i :: 0 <= i < |r| ==> r[i].childPath == ChildPath(path, r[i].name)
  {
    var r := seq(|labels|, i requires 0 <= i < |labels| => Item(labels[i], ChildPath(path, labels[i])));
    assert Labels(r) == labels;
    r
  }

  lemma ItemsForSnoc(path: string, labels: seq<string>, n: nat)
    requires n < |labels|
    ensures ItemsFor(path, labels[..n + 1]) == ItemsFor(path, labels[..n]) + [Item(labels[n], ChildPath(path, labels[n]))]
  {
  }

  /**
   * The input capture's effect on the current column index: Left and Right
   * move by one within the six columns, and the index stays put exactly when
   * the key is another one or the move would leave the screen.
   */
  function KeyStep(current: int, key: Key): (r: int)
    ensures 0 <= current < ColumnCount ==> 0 <= r < ColumnCount
    ensures key == Left ==> current - 1 <= r <= current
    ensures key == Right ==> current <= r <= current + 1
    ensures r == current <==>
      key == Other || (key == Left && current <= 0) || (key == Right && current >= ColumnCount - 1)
  {
    match key
    case Left => if current > 0 then current - 1 else current
    case Right => if current < ColumnCount - 1 then current + 1 else current
    case Other => current
  }

  /**
   * The column index after one key press while column `current` has the focus:
   * only a column whose input capture has been installed reacts to the arrows.
   */
  function AfterKey(captures: seq<bool>, current: int, key: Key): (r: int)
    requires |captures| == ColumnCount && 0 <= current < ColumnCount
    ensures 0 <= r < ColumnCount
  {
    if captures[current] then KeyStep(current, key) else current
  }

  /** The column index after a run of key presses with no select in between. */
  function AfterKeys(captures: seq<bool>, current: int, keys: seq<Key>): (r: int)
    requires |captures| == ColumnCount && 0 <= current < ColumnCount
    ensures 0 <= r < ColumnCount
    decreases |keys|
  {
    if keys == [] then current
    else AfterKeys(captures, AfterKey(captures, current, keys[0]), keys[1..])
  }

  /** Each key press moves the current column by at most one. */
  lemma {:induction false} AfterKeysMovesAtMostOnePerKey(captures: seq<bool>, current: int, keys: seq<Key>)
    requires |captures| == ColumnCount && 0 <= current < ColumnCount
    ensures current - |keys| <= AfterKeys(captures, current, keys) <= current + |keys|
    decreases |keys|
  {
    if keys != [] {
      AfterKeysMovesAtMostOnePerKey(captures, AfterKey(captures, current, keys[0]), keys[1..]);
    }
  }

  /**
   * Once the focus sits on a column that was never populated (Right does not
   * check the target), neither arrow key moves it again.
   */
  lemma {:induction false} StuckOnUncapturedColumn(captures: seq<bool>, current: int, keys: seq<Key>)
    requires |captures| == ColumnCount && 0 <= current < ColumnCount
    requires !captures[current]
    ensures AfterKeys(captures, current, keys) == current
    decreases |keys|
  {
    if keys != [] {
      StuckOnUncapturedColumn(captures, current, keys[1..]);
    }
  }

  /** Right and then Left return to the start when both columns have their capture and Right could move. */
  lemma RightThenLeftReturns(captures: seq<bool>, current: int, keys: seq<Key>)
    requires |captures| == ColumnCount && 0 <= current < ColumnCount - 1
    requires captures[current] && captures[current + 1]
    ensures AfterKeys(captures, current, [Right, Left] + keys) == AfterKeys(captures, current, keys)
  {
  }

  class Browser {
    /** The entries of each column. */
    var columns: array<seq<Item>>
    /** Whether the Left/Right input capture has been installed on each column. */
    var captures: array<bool>
    /** The index the arrow keys and the select handler maintain. */
    var currentColumn: int
    /** The column that has the keyboard focus. */
    var focus: int
    /** The data pane. */
    var pane: Pane

    /**
     * Six columns; a column holding entries has had its input capture
     * installed; every entry's path lies below the root path.
     */
    ghost predicate WellFormed()
      reads this, columns, captures
    {
      columns.Length == ColumnCount && captures.Length == ColumnCount &&
      (forall i :: 0 <= i < ColumnCount && columns[i] != [] ==> captures[i]) &&
      (forall i, j :: 0 <= i < ColumnCount && 0 <= j < |columns[i]| ==> Root + "." <= columns[i][j].childPath)
    }

    /** Between events, the current column is on screen and has the focus. */
    ghost predicate Valid()
      reads this, columns, captures
    {
      WellFormed() && 0 <= currentColumn < ColumnCount && focus == currentColumn
    }

    /**
     * Startup: build six empty columns, fill the first with the root's children
     * and focus it. The source indexes column -1 when the root read fails or
     * lists nothing, so that case is excluded here.
     */
    constructor (rootChildren: Outcome<seq<string>>)
      requires rootChildren.Ok? && rootChildren.value != []
      ensures Valid() && fresh(columns) && fresh(captures)
      ensures columns[0] == ItemsFor(Root, rootChildren.value) && captures[0]
      ensures forall i :: 1 <= i < ColumnCount ==> columns[i] == [] && !captures[i]
      ensures currentColumn == 0 && focus == 0 && pane == Blank
    {
      columns := new seq<Item>[ColumnCount](_ => []);
      captures := new bool[ColumnCount](_ => false);
      currentColumn, focus, pane := 0, 0, Blank;
      new;
      Populate(Root, 0, rootChildren.value);
      currentColumn := 0;
      focus := currentColumn;
    }

    /**
     * The populating half of `initializeColumn`: clear column `level` alone,
     * add one entry per child in server order, and install the input capture.
     */
    method Populate(path: string, level: int, labels: seq<string>)
      requires WellFormed() && 0 <= level < ColumnCount && UnderRoot(path)
      modifies columns, captures
      ensures WellFormed()
      ensures columns[level] == ItemsFor(path, labels) && captures[level]
      ensures forall i :: 0 <= i < ColumnCount && i != level ==>
        columns[i] == old(columns[i]) && captures[i] == old(captures[i])
    {
      columns[level] := [];
      for n := 0 to |labels|
        invariant columns[level] == ItemsFor(path, labels[..n])
        invariant forall i :: 0 <= i < ColumnCount && i != level ==> columns[i] == old(columns[i])
        invariant captures[..] == old(captures[..])
      {
        var child := labels[n];
        var childPath := ChildPath(path, child);
        ItemsForSnoc(path, labels, n);
        columns[level] := columns[level] + [Item(child, childPath)];
      }
      assert labels[..|labels|] == labels;
      captures[level] := true;
      forall j | 0 <= j < |columns[level]| ensures Root + "." <= columns[level][j].childPath {
        ChildPathBelowRoot(path, columns[level][j].name);
      }
    }

    /**
     * `initializeColumn(path, level)`, given what the children read and, if it
     * comes to that, the leaf read return. It answers 1 when `path` has
     * children, and then column `level` lists them; otherwise it shows the
     * leaf (or the error) in the data pane, focuses column `level - 1` and
     * answers 0, and no column changes.
     */
    method InitializeColumn(path: string, level: int, children: Outcome<seq<string>>,
                            body: Outcome<string>, pretty: string -> Option<string>)
      returns (next: int)
      requires WellFormed() && 0 <= level < ColumnCount && UnderRoot(path)
      requires level >= 1 || (children.Ok? && children.value != [])
      modifies this, columns, captures
      ensures WellFormed() && columns == old(columns) && captures == old(captures)
      ensures currentColumn == old(currentColumn)
      ensures next == (if children.Ok? && children.value != [] then 1 else 0)
      ensures next == 1 ==>
        columns[level] == ItemsFor(path, children.value) && captures[level] &&
        (forall i :: 0 <= i < ColumnCount && i != level ==>
           columns[i] == old(columns[i]) && captures[i] == old(captures[i])) &&
        focus == old(focus) && pane == old(pane)
      ensures next == 0 ==>
        columns[..] == old(columns[..]) && captures[..] == old(captures[..]) &&
        focus == level - 1 && pane == LeafMessage(FetchData(body, pretty))
    {
      if children.Err? || children.value == [] {
        var data := FetchData(body, pretty);
        pane := LeafMessage(data);
        focus := level - 1;
        return 0;
      }
      Populate(path, level, children.value);
      return 1;
    }

    /**
     * The select handler of entry `index` in column `level`. In the last
     * column it does nothing. Otherwise it runs `initializeColumn` on the
     * entry's path one column to the right, and the current column (and the
     * focus) becomes `level` after a leaf and `level + 1` after a populate.
     */
    method Select(level: int, index: int, children: Outcome<seq<string>>,
                  body: Outcome<string>, pretty: string -> Option<string>)
      requires Valid() && 0 <= level < ColumnCount && 0 <= index < |columns[level]|
      modifies this, columns, captures
      ensures Valid() && columns == old(columns) && captures == old(captures)
      ensures level + 1 >= ColumnCount ==>
        columns[..] == old(columns[..]) && captures[..] == old(captures[..]) &&
        currentColumn == old(currentColumn) && pane == old(pane)
      ensures level + 1 < ColumnCount && children.Ok? && children.value != [] ==>
        currentColumn == level + 1 &&
        columns[level + 1] == ItemsFor(old(columns[level][index]).childPath, children.value) &&
        captures[level + 1] && pane == old(pane) &&
        (forall i :: 0 <= i < ColumnCount && i != level + 1 ==>
           columns[i] == old(columns[i]) && captures[i] == old(captures[i]))
      ensures level + 1 < ColumnCount && !(children.Ok? && children.value != []) ==>
        currentColumn == level &&
        columns[..] == old(columns[..]) && captures[..] == old(captures[..]) &&
        pane == LeafMessage(FetchData(body, pretty))
    {
      if level + 1 < ColumnCount {
        var childPath := columns[level][index].childPath;
        var next := InitializeColumn(childPath, level + 1, children, body, pretty);
        currentColumn := level + next;
        focus := currentColumn;
      }
    }

    /** The input capture (Left/Right) of the focused column, if it has one. */
    method HandleKey(key: Key)
      requires Valid()
      modifies this
      ensures Valid() && columns == old(columns) && captures == old(captures) && pane == old(pane)
      ensures currentColumn == AfterKey(captures[..], old(currentColumn), key)
    {
      if captures[focus] {
        match key
        case Left =>
          if currentColumn > 0 {
            currentColumn := currentColumn - 1;
            focus := currentColumn;
          }
        case Right =>
          if currentColumn < ColumnCount - 1 {
            currentColumn := currentColumn + 1;
            focus := currentColumn;
          }
        case Other =>
      }
    }
  }

  /**
   * A scenario: drilling down `published.a.x`, going back Left twice and then
   * selecting `b` in the first column repopulates the second column but leaves
   * the third one listing the children of `published.a.x`.
   */
  method StaleColumnSurvives(pretty: string -> Option<string>) returns (b: Browser)
    ensures b.Valid() && b.currentColumn == 1
    ensures Labels(b.columns[0]) == ["a", "b"]
    ensures b.columns[1] == ItemsFor(ChildPath(Root, "b"), ["z"])
    ensures b.columns[2] == ItemsFor(ChildPath(ChildPath(Root, "a"), "x"), ["y"])
  {
    b := new Browser(Ok(["a", "b"]));
    assert b.columns[0][0].childPath == ChildPath(Root, "a");
    var first := b.columns[0];
    b.Select(0, 0, Ok(["x"]), Err(RequestFailed), pretty);
    assert b.columns[0] == first;
    assert b.columns[1][0].childPath == ChildPath(ChildPath(Root, "a"), "x");
    b.Select(1, 0, Ok(["y"]), Err(RequestFailed), pretty);
    var third := b.columns[2];
    assert third == ItemsFor(ChildPath(ChildPath(Root, "a"), "x"), ["y"]);
    assert b.columns[0] == first && b.currentColumn == 2;
    assert b.captures[2] && b.captures[1];
    b.HandleKey(Left);
    assert b.currentColumn == 1;
    b.HandleKey(Left);
    assert b.currentColumn == 0 && b.columns[0] == first && b.columns[2] == third;
    assert b.columns[0][1].childPath == ChildPath(Root, "b");
    b.Select(0, 1, Ok(["z"]), Err(RequestFailed), pretty);
    assert b.columns[2] == third;
  }

  /**
   * A scenario: a children read fails for `published.b` and so does the leaf
   * read; the pane shows the error and the first column keeps the focus.
   */
  method FailedLeafKeepsFocus(pretty: string -> Option<string>) returns (b: Browser)
    ensures b.Valid() && b.currentColumn == 0 && b.focus == 0
    ensures b.pane == Failed(RequestFailed)
    ensures Labels(b.columns[0]) == ["a", "b"] && b.columns[1] == []
  {
    b := new Browser(Ok(["a", "b"]));
    b.Select(0, 1, Err(RequestFailed), Err(RequestFailed), pretty);
  }
}
