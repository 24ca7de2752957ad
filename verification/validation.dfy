/** The structural check `validateTreeStructure` run on a parsed file before
    it may replace the tree. */
module Validation {
  import opened JsonValues

  /** What a call of the validator does: return true, return false, or raise
      a TypeError (reading a property of `null`). */
  datatype Outcome = Accepted | Rejected | Threw

  /** The name test passes: `node.name` is truthy and `typeof node.name` is
      'string', i.e. a non-empty string. */
  predicate NameOk(node: Json)
    ensures NameOk(node) <==> node.Obj? && "name" in node.fields && node.fields["name"].Str? && node.fields["name"].s != ""
  {
    var name := Get(node, "name");
    Truthy(name) && name.value.Str?
  }

  /** `validateTreeStructure(node)`. */
  function Validate(node: Json): (r: Outcome)
    ensures r == Accepted ==> node.Obj? && NameOk(node)
    ensures r == Threw ==> node.Null? || (node.Obj? && "children" in node.fields && node.fields["children"].Arr?)
    decreases node, 1
  {
    if node.Null? then Threw
    else if !NameOk(node) then Rejected
    else
      var children := Get(node, "children");
      if !Truthy(children) then Accepted
      else if !children.value.Arr? then Rejected
      else ValidateEvery(children.value.items)
  }

  /** `children.every(child => validateTreeStructure(child))`: left to right,
      stopping at the first child that is not accepted, whose outcome
      (false, or the exception it raised) becomes the result. */
  function ValidateEvery(nodes: seq<Json>): (r: Outcome)
    ensures r != Accepted ==> nodes != [] && exists i :: 0 <= i < |nodes| && Validate(nodes[i]) == r
    decreases nodes, 0
  {
    if nodes == [] then Accepted
    else
      var first := Validate(nodes[0]);
      if first == Accepted then ValidateEvery(nodes[1..]) else first
  }

  /** The accepted shape, stated without evaluation order: an object with a
      non-empty string `name` whose `children`, when present and truthy, is an
      array of such trees. */
  ghost predicate IsTree(v: Json)
    decreases v
  {
    && v.Obj?
    && "name" in v.fields && v.fields["name"].Str? && v.fields["name"].s != ""
    && ("children" in v.fields && Truthy(Some(v.fields["children"])) ==>
          var c := v.fields["children"];
          c.Arr? && forall i :: 0 <= i < |c.items| ==> IsTree(c.items[i]))
  }

  /** Some `null` sits at the node itself or under it, through `children` arrays. */
  ghost predicate HoldsNull(v: Json)
    decreases v
  {
    || v.Null?
    || (v.Obj? && "children" in v.fields && v.fields["children"].Arr? &&
        exists i :: 0 <= i < |v.fields["children"].items| && HoldsNull(v.fields["children"].items[i]))
  }

  /** The validator's decisions, one per branch, in terms of the node itself. */
  lemma ValidateCases(v: Json)
    ensures v.Null? ==> Validate(v) == Threw
    ensures !v.Null? && !NameOk(v) ==> Validate(v) == Rejected
    ensures NameOk(v) && !("children" in v.fields && Truthy(Some(v.fields["children"])))
            ==> Validate(v) == Accepted
    ensures NameOk(v) && "children" in v.fields && Truthy(Some(v.fields["children"])) && !v.fields["children"].Arr?
            ==> Validate(v) == Rejected
  {
  }

  /** `every` accepts exactly when each element is accepted. */
  lemma {:induction false} ValidateEveryAll(nodes: seq<Json>)
    ensures ValidateEvery(nodes) == Accepted <==> forall i :: 0 <= i < |nodes| ==> Validate(nodes[i]) == Accepted
  {
    if nodes != [] {
      ValidateEveryAll(nodes[1..]);
      if Validate(nodes[0]) == Accepted {
        forall i | 1 <= i < |nodes| ensures nodes[i] == nodes[1..][i - 1] { }
      }
    }
  }

  /** `every` reports the outcome of the first element that is not accepted:
      a rejected child before a `null` one yields false, not an exception. */
  lemma {:induction false} ValidateEveryFirstFailure(nodes: seq<Json>, k: nat)
    requires k < |nodes| && Validate(nodes[k]) != Accepted
    requires forall j :: 0 <= j < k ==> Validate(nodes[j]) == Accepted
    ensures ValidateEvery(nodes) == Validate(nodes[k])
  {
    if k > 0 {
      forall j | 0 <= j < k - 1 ensures Validate(nodes[1..][j]) == Accepted {
        assert nodes[1..][j] == nodes[j + 1];
      }
      ValidateEveryFirstFailure(nodes[1..], k - 1);
    }
  }

  /** The validator accepts exactly the trees of shape `IsTree`, which is
      stricter than the shape the alert at public/js/main.js:206 describes
      (an object with a `name` and optional `children`): the name must be a
      non-empty string, and a truthy `children` must be an array of such
      trees. */
  lemma {:induction false} ValidateIsTree(v: Json)
    ensures Validate(v) == Accepted <==> IsTree(v)
    decreases v
  {
    if v.Obj? && NameOk(v) && "children" in v.fields && Truthy(Some(v.fields["children"])) && v.fields["children"].Arr? {
      var c := v.fields["children"];
      ValidateEveryAll(c.items);
      forall i | 0 <= i < |c.items| ensures Validate(c.items[i]) == Accepted <==> IsTree(c.items[i]) {
        ValidateIsTree(c.items[i]);
      }
    }
  }

  /** The validator raises an exception only on a tree that holds a `null`. */
  lemma {:induction false} ThrowsOnlyOnNull(v: Json)
    ensures Validate(v) == Threw ==> HoldsNull(v)
    decreases v
  {
    if Validate(v) == Threw && !v.Null? {
      var c := v.fields["children"];
      var k := FirstNotAccepted(c.items);
      ThrowsOnlyOnNull(c.items[k]);
    }
  }

  /** Where `every` stopped: the first element that is not accepted, whose
      outcome is the outcome of the whole. */
  lemma {:induction false} FirstNotAccepted(nodes: seq<Json>) returns (k: nat)
    requires ValidateEvery(nodes) != Accepted
    ensures k < |nodes| && Validate(nodes[k]) == ValidateEvery(nodes)
    ensures forall j :: 0 <= j < k ==> Validate(nodes[j]) == Accepted
  {
    if Validate(nodes[0]) == Accepted {
      var k' := FirstNotAccepted(nodes[1..]);
      k := k' + 1;
      forall j | 0 <= j < k ensures Validate(nodes[j]) == Accepted {
        if j > 0 { assert nodes[j] == nodes[1..][j - 1]; }
      }
    } else {
      k := 0;
    }
  }

  /** A tree is accepted only if every node in it is: a single invalid
      descendant makes the whole tree invalid. */
  lemma {:induction false} AcceptedDescendants(v: Json, p: seq<nat>)
    requires IsPath(v, p) && Validate(v) == Accepted
    ensures Validate(NodeAt(v, p)) == Accepted
    decreases p
  {
    if p != [] {
      ValidateIsTree(v);
      var child := ChildList(v)[p[0]];
      ValidateIsTree(child);
      AcceptedDescendants(child, p[1..]);
    }
  }
}
