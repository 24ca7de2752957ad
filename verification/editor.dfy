/** The editor's live state — the tree `treeData` and the selection
    `selectedNode` — and the operations and button handlers that change it
    (public/js/main.js:1-21, 69-73, 138-154, 179-217). */
module Editor {
  import opened JsonValues
  import opened Validation
  import opened Trees
  import opened Text

  /** What the load button finds: no file chosen, or a file read and given to
      `JSON.parse`, which either fails (None) or yields a value. */
  datatype FileInput = NoFile | FileRead(parsed: Option<Json>)

  /** How a load ends, each failure with the alert it shows. */
  datatype LoadOutcome =
    | Loaded
    | NoFileSelected        // 'Please select a JSON file first'
    | InvalidJsonFile       // 'Invalid JSON file': the parse or the validator raised
    | InvalidTreeStructure  // 'Invalid tree structure. ...': the validator returned false

  /** The tree at start-up: `{ name: 'Root', children: [] }`. */
  function InitialTree(): (t: Json)
    ensures Validate(t) == Accepted && ChildList(t) == []
  {
    Leaf("Root")
  }

  class TreeEditor {
    /** `treeData` */
    var root: Json
    /** `selectedNode`, as the child indices that lead to it from the root */
    var selection: seq<nat>

    /** The selection denotes a node of the current tree, and a child can be
        appended to every node. */
    ghost predicate Valid()
      reads this
    {
      Editable(root) && IsPath(root, selection)
    }

    /** What the buttons keep: Valid, and the tree passes the validator. */
    ghost predicate Consistent()
      reads this
    {
      Valid() && Validate(root) == Accepted
    }

    /** The state at load time; the selection starts at the root. */
    constructor ()
      ensures Consistent()
      ensures root == InitialTree() && selection == []
    {
      root := InitialTree();
      selection := [];
      AcceptedIsEditable(InitialTree());
    }

    /** `addNode(name, parentNode)`, the parent given by its path: appends a
        fresh leaf at the end of the parent's children. */
    method AddNode(name: string, parent: seq<nat>)
      requires Valid() && IsPath(root, parent)
      modifies this
      ensures Valid() && selection == old(selection)
      ensures Some(root) == AddAt(old(root), parent, Leaf(name))
      ensures IsPath(root, parent) && ChildList(NodeAt(root, parent)) == ChildList(NodeAt(old(root), parent)) + [Leaf(name)]
      ensures OwnFields(NodeAt(root, parent)) == OwnFields(NodeAt(old(root), parent))
      ensures forall q :: IsPath(old(root), q) && !(q <= parent) ==> IsPath(root, q) && NodeAt(root, q) == NodeAt(old(root), q)
      ensures name != "" && old(Validate(root)) == Accepted ==> Validate(root) == Accepted
    {
      ghost var before := root;
      AddAtOnEditable(root, parent, Leaf(name));
      root := AddAt(root, parent, Leaf(name)).value;
      AddAtFrame(before, parent, Leaf(name), selection);
      AddAtFrame(before, parent, Leaf(name), parent);
      forall q | IsPath(before, q) && !(q <= parent)
        ensures IsPath(root, q) && NodeAt(root, q) == NodeAt(before, q)
      {
        AddAtFrame(before, parent, Leaf(name), q);
      }
      if name != "" && Validate(before) == Accepted {
        AddAtKeepsAccepted(before, parent, Leaf(name));
      }
    }

    /** `addChildToSelected(name)`: `addNode` under the selected node (the
        selection is never null, so the guard always passes). */
    method AddChildToSelected(name: string)
      requires Valid()
      modifies this
      ensures Valid() && selection == old(selection)
      ensures Some(root) == AddAt(old(root), selection, Leaf(name))
      ensures ChildList(NodeAt(root, selection)) == ChildList(NodeAt(old(root), selection)) + [Leaf(name)]
      ensures name != "" && old(Validate(root)) == Accepted ==> Validate(root) == Accepted
    {
      AddNode(name, selection);
    }

    /** A click on a drawn node makes it the selection; the drawing shows
        only nodes of the current tree. */
    method Select(p: seq<nat>)
      requires Valid() && IsPath(root, p)
      modifies this
      ensures Valid() && root == old(root) && selection == p
    {
      selection := p;
    }

    /** `loadTreeFromJSON(jsonData)`, with the parse result given: a value
        passing `data && typeof data === 'object'` becomes the tree and the
        selection goes back to its root; anything else leaves the state as it
        was. Its one caller passes only objects the validator accepted, so no
        array is ever installed. */
    method LoadTreeFromJSON(parsed: Option<Json>) returns (loaded: bool)
      requires Valid()
      requires parsed.Some? && IsObject(parsed.value) ==> Validate(parsed.value) == Accepted
      modifies this
      ensures Valid()
      ensures loaded <==> parsed.Some? && IsObject(parsed.value)
      ensures loaded ==> root == parsed.value && selection == []
      ensures !loaded ==> root == old(root) && selection == old(selection)
    {
      if parsed.Some? && IsObject(parsed.value) {
        AcceptedIsEditable(parsed.value);
        root := parsed.value;
        selection := [];
        loaded := true;
      } else {
        loaded := false;
      }
    }

    /** The "Add Node" button: the trimmed name is appended under the root;
        a blank name does nothing. Returns what the name field holds after. */
    method ClickAddNode(input: string) returns (field: string)
      requires Valid()
      modifies this
      ensures Valid() && selection == old(selection)
      ensures Trim(input) == "" ==> root == old(root) && field == input
      ensures Trim(input) != "" ==> Some(root) == AddAt(old(root), [], Leaf(Trim(input))) && field == ""
      ensures old(Consistent()) ==> Consistent()
    {
      var name := Trim(input);
      if name != "" {
        AddNode(name, []);
        field := "";
      } else {
        field := input;
      }
    }

    /** The "Add Child" button: the trimmed name is appended under the
        selected node; a blank name does nothing. */
    method ClickAddChild(input: string) returns (field: string)
      requires Valid()
      modifies this
      ensures Valid() && selection == old(selection)
      ensures Trim(input) == "" ==> root == old(root) && field == input
      ensures Trim(input) != "" ==> Some(root) == AddAt(old(root), selection, Leaf(Trim(input))) && field == ""
      ensures old(Consistent()) ==> Consistent()
    {
      var name := Trim(input);
      if name != "" {
        AddChildToSelected(name);
        field := "";
      } else {
        field := input;
      }
    }

    /** The "Load" button once the file is read: parse, validate, and only an
        accepted tree replaces the current one; every failure leaves the tree
        and the selection untouched. */
    method ClickLoad(file: FileInput) returns (outcome: LoadOutcome)
      requires Valid()
      modifies this
      ensures Valid()
      ensures file.NoFile? ==> outcome == NoFileSelected
      ensures file == FileRead(None) ==> outcome == InvalidJsonFile
      ensures file.FileRead? && file.parsed.Some? ==>
                outcome == match Validate(file.parsed.value)
                           case Accepted => Loaded
                           case Rejected => InvalidTreeStructure
                           case Threw => InvalidJsonFile
      ensures outcome == Loaded ==> root == file.parsed.value && selection == [] && Validate(root) == Accepted
      ensures outcome != Loaded ==> root == old(root) && selection == old(selection)
      ensures old(Consistent()) ==> Consistent()
    {
      match file
      case NoFile =>
        outcome := NoFileSelected;
      case FileRead(None) =>
        outcome := InvalidJsonFile;
      case FileRead(Some(data)) =>
        match Validate(data)
        case Threw =>
          outcome := InvalidJsonFile;
        case Rejected =>
          outcome := InvalidTreeStructure;
        case Accepted =>
          ValidateCases(data);
          var loaded := LoadTreeFromJSON(Some(data));
          outcome := Loaded;
    }
  }

  /** From start-up: `addNode` appends under the root, and so does
      `addChildToSelected` before any click, since the selection starts at
      the root. */
  method ScenarioAdd()
  {
    var e := new TreeEditor();
    e.AddNode("A", []);
    assert ChildList(e.root) == [Leaf("A")];
    e.AddChildToSelected("B");
    assert ChildList(e.root) == [Leaf("A"), Leaf("B")];
  }

  /** After a click on the first child, "Add Child" appends under it. */
  method ScenarioSelect(e: TreeEditor)
    requires e.Valid() && |ChildList(e.root)| > 0
    modifies e
  {
    ghost var first := ChildList(e.root)[0];
    e.Select([0]);
    e.AddChildToSelected("C");
    assert ChildList(NodeAt(e.root, [0])) == ChildList(first) + [Leaf("C")];
  }

  /** A blank name changes nothing and stays in the field. */
  method ScenarioBlankName(e: TreeEditor)
    requires e.Valid()
    modifies e
  {
    ghost var before := e.root;
    assert Trim(" \t") == "";
    var field := e.ClickAddChild(" \t");
    assert e.root == before && field == " \t";
  }

  /** Loading a file whose root has no `children` field: it is accepted,
      becomes the tree, and the selection goes back to its root. With the
      corrected append the loaded root then takes a child. */
  method ScenarioLoad(e: TreeEditor)
    requires e.Valid()
    modifies e
  {
    var x := Obj(map["name" := Str("X")]);
    var outcome := e.ClickLoad(FileRead(Some(x)));
    assert outcome == Loaded && e.root == x && e.selection == [];
    e.AddNode("D", []);
    assert ChildList(e.root) == [Leaf("D")];
  }

  /** A parse failure, a missing name and a null child each leave the tree
      and the selection alone. */
  method ScenarioLoadFailures(e: TreeEditor)
    requires e.Valid()
    modifies e
  {
    var t, sel := e.root, e.selection;
    var outcome := e.ClickLoad(FileRead(None));
    assert outcome == InvalidJsonFile;
    outcome := e.ClickLoad(FileRead(Some(Obj(map["children" := Arr([])]))));
    assert outcome == InvalidTreeStructure;
    outcome := e.ClickLoad(FileRead(Some(Obj(map["name" := Str("Y"), "children" := Arr([Null])]))));
    assert outcome == InvalidJsonFile;
    assert e.root == t && e.selection == sel;
  }
}
