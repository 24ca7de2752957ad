/** Appending a new leaf to a node of the tree: the value-level meaning of
    `addNode` (public/js/main.js:10-15). */
module Trees {
  import opened JsonValues
  import opened Validation

  /** The node `addNode` creates: `{ name, children: [] }`. */
  function Leaf(name: string): (r: Json)
    ensures Validate(r) == Accepted <==> name != ""
    ensures r.Obj? && ChildList(r) == [] && Get(r, "name") == Some(Str(name))
  {
    Obj(map["name" := Str(name), "children" := Arr([])])
  }

  /** Every node reachable through `children` arrays is an object whose
      `children`, when truthy, is an array: the shape on which appending a
      child cannot fail. The node names play no part. */
  ghost predicate Editable(v: Json)
    decreases v
  {
    && v.Obj?
    && ("children" in v.fields && Truthy(Some(v.fields["children"])) ==>
          var c := v.fields["children"];
          c.Arr? && forall i :: 0 <= i < |c.items| ==> Editable(c.items[i]))
  }

  /** `parentNode.children.push(newNode)` as written: it works only when
      `children` is an array; on a node whose `children` is absent, null,
      false, 0 or "" it raises a TypeError (None). */
  function PushAsWritten(parent: Json, child: Json): (r: Option<Json>)
    ensures r.Some? <==> parent.Obj? && "children" in parent.fields && parent.fields["children"].Arr?
    ensures r.Some? ==> r.value.Obj? && OwnFields(r.value) == OwnFields(parent)
    ensures r.Some? ==> ChildList(r.value) == ChildList(parent) + [child]
  {
    if parent.Obj? && "children" in parent.fields && parent.fields["children"].Arr? then
      var r := Obj(parent.fields["children" := Arr(parent.fields["children"].items + [child])]);
      assert r.fields - {"children"} == parent.fields - {"children"};
      Some(r)
    else None
  }

  /** The append `addNode` evidently intends: a node whose `children` is
      absent or falsy is given the array holding just the new child. It still
      fails (None) on a value that is not an object or whose `children` is a
      truthy non-array, neither of which the validator lets into the tree. */
  function Push(parent: Json, child: Json): (r: Option<Json>)
    ensures r.Some? ==> r.value.Obj? && OwnFields(r.value) == OwnFields(parent)
    ensures r.Some? ==> ChildList(r.value) == ChildList(parent) + [child]
  {
    if !parent.Obj? then None
    else if Truthy(Get(parent, "children")) && !parent.fields["children"].Arr? then None
    else
      var r := Obj(parent.fields["children" := Arr(ChildList(parent) + [child])]);
      assert r.fields - {"children"} == parent.fields - {"children"};
      Some(r)
  }

  /** The defect: a file holding `{"name": "X"}` passes the validator and
      becomes the tree, and appending under it then raises a TypeError. */
  lemma PushAsWrittenFailsOnLoadedLeaf()
    ensures var loaded := Obj(map["name" := Str("X")]);
            Validate(loaded) == Accepted && PushAsWritten(loaded, Leaf("A")) == None
  {
  }

  /** The correction changes nothing where the code as written succeeds. */
  lemma PushAgreesWhereAsWrittenWorks(parent: Json, child: Json)
    requires PushAsWritten(parent, child).Some?
    ensures Push(parent, child) == PushAsWritten(parent, child)
  {
  }

  /** On every node the validator lets into the tree, the corrected append
      succeeds, and it keeps the node accepted when the new child is. */
  lemma PushOnAcceptedNode(parent: Json, child: Json)
    requires Validate(parent) == Accepted
    ensures Push(parent, child).Some?
    ensures Validate(child) == Accepted ==> Validate(Push(parent, child).value) == Accepted
  {
    ValidateIsTree(parent);
    ValidateIsTree(child);
    var r := Push(parent, child);
    if Validate(child) == Accepted {
      assert r.value.fields["name"] == parent.fields["name"];
      ValidateIsTree(r.value);
    }
  }

  /** Appending `child` to the node that path `p` leads to; every node on the
      way down is rebuilt around its changed child. */
  function AddAt(v: Json, p: seq<nat>, child: Json): (r: Option<Json>)
    requires IsPath(v, p)
    ensures r.Some? ==> IsPath(r.value, p) && ChildList(NodeAt(r.value, p)) == ChildList(NodeAt(v, p)) + [child]
    decreases p
  {
    if p == [] then Push(v, child)
    else
      var kids := ChildList(v);
      match AddAt(kids[p[0]], p[1..], child)
      case None => None
      case Some(k) => Some(Obj(v.fields["children" := Arr(kids[p[0] := k])]))
  }

  /** An accepted tree is editable. */
  lemma {:induction false} AcceptedIsEditable(v: Json)
    requires Validate(v) == Accepted
    ensures Editable(v)
    decreases v
  {
    ValidateIsTree(v);
    if "children" in v.fields && Truthy(Some(v.fields["children"])) {
      var c := v.fields["children"];
      forall i | 0 <= i < |c.items| ensures Editable(c.items[i]) {
        ValidateIsTree(c.items[i]);
        AcceptedIsEditable(c.items[i]);
      }
    }
  }

  /** On an editable tree the append succeeds at every path, and an editable
      child keeps the tree editable. */
  lemma {:induction false} AddAtOnEditable(v: Json, p: seq<nat>, child: Json)
    requires Editable(v) && IsPath(v, p)
    ensures AddAt(v, p, child).Some?
    ensures Editable(child) ==> Editable(AddAt(v, p, child).value)
    decreases p
  {
    var kids := ChildList(v);
    if p == [] {
      var r := Push(v, child).value;
      if Editable(child) {
        assert ChildList(r) == kids + [child];
        forall i | 0 <= i < |ChildList(r)| ensures Editable(ChildList(r)[i]) {
          if i < |kids| { assert ChildList(r)[i] == kids[i]; }
        }
      }
    } else {
      AddAtOnEditable(kids[p[0]], p[1..], child);
      var k := AddAt(kids[p[0]], p[1..], child).value;
      var r := AddAt(v, p, child).value;
      if Editable(child) {
        assert ChildList(r) == kids[p[0] := k];
      }
    }
  }

  /** Appending an accepted child anywhere in an accepted tree keeps the
      whole tree accepted. */
  lemma {:induction false} AddAtKeepsAccepted(v: Json, p: seq<nat>, child: Json)
    requires Validate(v) == Accepted && IsPath(v, p) && Validate(child) == Accepted
    ensures AddAt(v, p, child).Some?
    ensures Validate(AddAt(v, p, child).value) == Accepted
    decreases p
  {
    if p == [] {
      PushOnAcceptedNode(v, child);
    } else {
      ValidateIsTree(v);
      var kids := ChildList(v);
      ValidateIsTree(kids[p[0]]);
      AddAtKeepsAccepted(kids[p[0]], p[1..], child);
      var k := AddAt(kids[p[0]], p[1..], child).value;
      var r := AddAt(v, p, child).value;
      ValidateIsTree(k);
      assert r.fields["name"] == v.fields["name"];
      var c := r.fields["children"];
      assert c.items == kids[p[0] := k];
      forall i | 0 <= i < |c.items| ensures IsTree(c.items[i]) {
        if i != p[0] { ValidateIsTree(kids[i]); }
      }
      ValidateIsTree(r);
    }
  }

  /** What the append leaves alone: every path stays valid, a node that is
      not on the way to the target is unchanged, and a node on the way keeps
      every field except `children`. */
  lemma {:induction false} AddAtFrame(v: Json, p: seq<nat>, child: Json, q: seq<nat>)
    requires IsPath(v, p) && AddAt(v, p, child).Some? && IsPath(v, q)
    ensures IsPath(AddAt(v, p, child).value, q)
    ensures !(q <= p) ==> NodeAt(AddAt(v, p, child).value, q) == NodeAt(v, q)
    ensures q <= p ==> OwnFields(NodeAt(AddAt(v, p, child).value, q)) == OwnFields(NodeAt(v, q))
    ensures q < p ==> |ChildList(NodeAt(AddAt(v, p, child).value, q))| == |ChildList(NodeAt(v, q))|
    decreases q
  {
    var r := AddAt(v, p, child).value;
    var kids := ChildList(v);
    if p == [] {
      if q != [] {
        assert ChildList(r)[q[0]] == kids[q[0]];
      }
    } else {
      var k := AddAt(kids[p[0]], p[1..], child).value;
      assert ChildList(r) == kids[p[0] := k];
      if q == [] {
        assert r.fields - {"children"} == v.fields - {"children"};
      } else if q[0] == p[0] {
        AddAtFrame(kids[p[0]], p[1..], child, q[1..]);
        assert q <= p <==> q[1..] <= p[1..];
        assert q < p <==> q[1..] < p[1..];
      } else {
        assert ChildList(r)[q[0]] == kids[q[0]];
      }
    }
  }
}
