/** The tree sink: the parser object that owns the node table and applies the
    tree builder's commands to it in place. Each mutating method is proved to
    produce the table the matching function of module Tree describes. */
module Sink {
  import opened Tags
  import opened Tree

  /** The finished tree `finish` hands back. */
  datatype HtmlAst = HtmlAst(data: seq<Tag>)

  /** Linear search for `x` among the children `s`. */
  method FindChild(s: seq<Handle>, x: Handle) returns (i: nat)
    requires x in s
    ensures i < |s| && s[i] == x && x !in s[..i]
    ensures i == IndexOf(s, x)
  {
    i := 0;
    while i < |s| && s[i] != x
      invariant i <= |s|
      invariant x !in s[..i]
    {
      assert s[..i + 1] == s[..i] + [s[i]];
      i := i + 1;
    }
    assert s[..|s|] == s;
  }

  /** Adds, in order, each attribute whose name is not yet a key of `m`. */
  method MergeAttrs(m: map<string, string>, attrs: seq<Attribute>) returns (r: map<string, string>)
    ensures r == MergeMissing(m, attrs)
  {
    r := m;
    var i := 0;
    assert attrs[0..] == attrs;
    while i < |attrs|
      invariant i <= |attrs|
      invariant MergeMissing(r, attrs[i..]) == MergeMissing(m, attrs)
    {
      var a := attrs[i];
      assert attrs[i..][1..] == attrs[i + 1..];
      if a.name !in r {
        r := r[a.name := a.value];
      }
      i := i + 1;
    }
    assert attrs[i..] == [];
  }

  /** The `HtmlParser`: its node table stands for the `HtmlAst` it owns. */
  class HtmlParser {
    var data: seq<Tag>

    ghost predicate Valid()
      reads this
    {
      WellFormed(data)
    }

    /** `HtmlParser::new`: a table holding only the document node. */
    constructor ()
      ensures Valid() && data == [DocumentTag()]
    {
      data := [DocumentTag()];
    }

    /** `finish`: the finished, well-formed tree. */
    method Finish() returns (ast: HtmlAst)
      requires Valid()
      ensures WellFormed(ast.data) && ast.data == data
    {
      ast := HtmlAst(data);
    }

    /** `get_document`: the document node lives at handle 0. */
    method GetDocument() returns (h: Handle)
      requires Valid()
      ensures h == 0 && h < |data| && data[h].kind == Document
    {
      h := 0;
    }

    /** `elem_name`: only asked of elements. */
    method ElemName(target: Handle) returns (name: string)
      requires Valid() && target < |data| && data[target].kind == Element
      ensures name == data[target].name
    {
      name := data[target].name;
    }

    /** `create_element`: a new parentless element; a template element also
        gets its template contents. */
    method CreateElement(name: string, attrs: seq<Attribute>) returns (h: Handle)
      requires Valid()
      modifies this
      ensures Valid() && KeepsIdentity(old(data), data)
      ensures h == old(|data|) && data == old(data) + NewElement(h, name, attrs)
      ensures forall x | 0 <= x < old(|data|) :: !SameNode(x, h)
    {
      var attributes := MergeAttrs(map[], attrs);
      h := |data|;
      var e := Named(name).(attributes := attributes);
      if name == "template" {
        data := data + [e.(template := Some(h + 1)), DocumentTag()];
      } else {
        data := data + [e];
      }
      NewElementSpec(old(data), name, attrs);
    }

    /** `create_comment`. */
    method CreateComment(text: string) returns (h: Handle)
      requires Valid()
      modifies this
      ensures Valid() && KeepsIdentity(old(data), data)
      ensures h == old(|data|) && data == old(data) + [CommentTag(text)]
      ensures forall x | 0 <= x < old(|data|) :: !SameNode(x, h)
    {
      h := |data|;
      data := data + [CommentTag(text)];
      AddLeafSpec(old(data), CommentTag(text));
    }

    /** `create_pi`. */
    method CreatePi(target: string, pidata: string) returns (h: Handle)
      requires Valid()
      modifies this
      ensures Valid() && KeepsIdentity(old(data), data)
      ensures h == old(|data|) && data == old(data) + [PiTag(target, pidata)]
      ensures forall x | 0 <= x < old(|data|) :: !SameNode(x, h)
    {
      h := |data|;
      data := data + [PiTag(target, pidata)];
      AddLeafSpec(old(data), PiTag(target, pidata));
    }

    /** Links the parentless `child` into `p`'s children at position `i`. */
    method LinkChild(p: Handle, i: nat, child: NodeOrText)
      requires Valid() && p < |data| && i <= |data[p].inner|
      requires ValidChild(data, child) && Unparented(data, child)
      modifies this
      ensures Valid() && KeepsIdentity(old(data), data)
      ensures data == Place(old(data), p, i, child)
    {
      var x := NewChild(data, child);
      if child.AppendText? {
        data := data + [TextTag(child.text)];
      }
      var s := data[p].inner;
      data := data[p := data[p].(inner := s[..i] + [x] + s[i..])];
      data := data[x := data[x].(parent := Some(p))];
      PlaceSpec(old(data), p, i, child);
    }

    /** Concatenates `s` onto the buffer of the text node `t`. */
    method AppendToText(t: Handle, s: string)
      requires Valid() && t < |data|
      modifies this
      ensures Valid() && KeepsIdentity(old(data), data)
      ensures data == MergeText(old(data), t, s)
    {
      data := data[t := data[t].(textContents := data[t].textContents + s)];
      MergeTextSpec(old(data), t, s);
    }

    /** `append`: the child becomes the last child of `parent`, or its text is
        concatenated into a last child that is text. The tree builder never
        appends a node that still has a parent. */
    method Append(parent: Handle, child: NodeOrText)
      requires Valid() && parent < |data| && ValidChild(data, child) && Unparented(data, child)
      modifies this
      ensures Valid() && KeepsIdentity(old(data), data)
      ensures data == Appended(old(data), parent, child)
      ensures parent < |data| && (NoAdjacentText(old(data), parent) ==> NoAdjacentText(data, parent))
    {
      if NoAdjacentText(data, parent) {
        AppendedNoAdjacentText(data, parent, child);
      }
      var s := data[parent].inner;
      if MergesAfter(data, child, s, |s|) {
        AppendToText(s[|s| - 1], TextOf(data, child));
      } else {
        LinkChild(parent, |s|, child);
      }
    }

    /** `remove_from_parent`: a no-op for a node without parent. */
    method RemoveFromParent(target: Handle)
      requires Valid() && target < |data|
      modifies this
      ensures Valid() && KeepsIdentity(old(data), data)
      ensures data == Detached(old(data), target)
    {
      match data[target].parent {
        case None =>
        case Some(p) =>
          var s := data[p].inner;
          var i := FindChild(s, target);
          data := data[p := data[p].(inner := s[..i] + s[i + 1..])];
          data := data[target := data[target].(parent := None)];
      }
      DetachedSpec(old(data), target);
    }

    /** Places the parentless `child` right before `sibling`, a child of `p`,
        or merges its text into the previous sibling when that one is text. */
    method PlaceBefore(p: Handle, sibling: Handle, child: NodeOrText)
      requires Valid() && p < |data| && sibling in data[p].inner
      requires ValidChild(data, child) && Unparented(data, child)
      modifies this
      ensures data == PlacedBefore(old(data), p, sibling, child)
      ensures Valid() && KeepsIdentity(old(data), data)
    {
      var s := data[p].inner;
      var i := FindChild(s, sibling);
      if MergesAfter(data, child, s, i) {
        AppendToText(s[i - 1], TextOf(data, child));
      } else {
        LinkChild(p, i, child);
      }
    }

    /** `append_before_sibling`: the tree builder promises that `sibling` is
        not a text node; the new node may still have an old parent. */
    method AppendBeforeSibling(sibling: Handle, newNode: NodeOrText)
      requires Valid() && sibling < |data| && data[sibling].parent.Some? && data[sibling].kind != Text
      requires ValidChild(data, newNode) && (newNode.AppendNode? ==> newNode.handle != sibling)
      modifies this
      ensures data == InsertedBefore(old(data), sibling, newNode)
      ensures Valid() && KeepsIdentity(old(data), data)
      ensures var p := old(data[sibling].parent.value);
        && p < |data|
        && (NoAdjacentText(old(data), p) && (newNode.AppendNode? ==> old(data[newNode.handle].parent) != Some(p))
            ==> NoAdjacentText(data, p))
    {
      ghost var d := data;
      var p := data[sibling].parent.value;
      if newNode.AppendNode? {
        RemoveFromParent(newNode.handle);
      }
      assert data == DetachedChild(d, newNode);
      InsertedBeforeSpec(d, sibling, newNode);
      PlaceBefore(p, sibling, newNode);
      if NoAdjacentText(d, p) && (newNode.AppendNode? ==> d[newNode.handle].parent != Some(p)) {
        InsertedBeforeNoAdjacentText(d, sibling, newNode);
      }
    }

    /** `append_based_on_parent_node`: before `element` when it has a parent,
        otherwise as the last child of `prevElement`. */
    method AppendBasedOnParentNode(element: Handle, prevElement: Handle, child: NodeOrText)
      requires Valid() && element < |data| && prevElement < |data| && ValidChild(data, child)
      requires data[element].parent.Some? ==>
                 data[element].kind != Text && (child.AppendNode? ==> child.handle != element)
      requires data[element].parent.None? ==> Unparented(data, child)
      modifies this
      ensures Valid() && KeepsIdentity(old(data), data)
      ensures old(data[element].parent).Some? ==> data == InsertedBefore(old(data), element, child)
      ensures old(data[element].parent).None? ==> data == Appended(old(data), prevElement, child)
    {
      if data[element].parent.Some? {
        AppendBeforeSibling(element, child);
      } else {
        Append(prevElement, child);
      }
    }

    /** `add_attrs_if_missing`: only ever asked of elements. */
    method AddAttrsIfMissing(target: Handle, attrs: seq<Attribute>)
      requires Valid() && target < |data| && data[target].kind == Element
      modifies this
      ensures Valid() && KeepsIdentity(old(data), data)
      ensures data == old(data)[target := old(data[target]).(attributes := MergeMissing(old(data[target].attributes), attrs))]
    {
      var merged := MergeAttrs(data[target].attributes, attrs);
      data := data[target := data[target].(attributes := merged)];
      LinksUnchanged(old(data), data);
    }

    /** `reparent_children`. */
    method ReparentChildren(node: Handle, newParent: Handle)
      requires Valid() && node < |data| && newParent < |data|
      modifies this
      ensures data == Reparented(old(data), node, newParent)
      ensures Valid() && KeepsIdentity(old(data), data)
    {
      var moved := data[node].inner;
      assert forall k | 0 <= k < |moved| :: moved[k] < |data|;
      data := data[node := data[node].(inner := [])];
      data := data[newParent := data[newParent].(inner := data[newParent].inner + moved)];
      ghost var d2 := data;
      AdoptedNone(d2, newParent);
      assert moved[..0] == [];
      var i := 0;
      while i < |moved|
        invariant 0 <= i <= |moved|
        invariant data == Adopted(d2, moved[..i], newParent)
      {
        var c := moved[i];
        AdoptedStep(d2, moved, i, newParent);
        data := data[c := data[c].(parent := Some(newParent))];
        i := i + 1;
      }
      assert moved[..|moved|] == moved;
      assert data == Reparented(old(data), node, newParent);
      ReparentedSpec(old(data), node, newParent);
    }

    /** `get_template_contents`: only ever asked of template elements. */
    method GetTemplateContents(target: Handle) returns (h: Handle)
      requires Valid() && target < |data| && IsTemplate(data[target])
      ensures data[target].template == Some(h) && h < |data| && data[h].kind == Document
    {
      h := data[target].template.value;
    }
  }
}
