/** The node table as a value: what a well-formed table is, and the effect of
    each tree mutation of the sink as a function from the old table to the new. */
module Tree {
  import opened Tags

  /** What the tree builder inserts: an existing node, or a chunk of text. */
  datatype NodeOrText = AppendNode(handle: Handle) | AppendText(text: string)

  /** Handle identity: two handles denote the same node exactly when they are
      the same index, whatever the nodes contain. */
  function SameNode(x: Handle, y: Handle): bool
  {
    x == y
  }

  // ---------------------------------------------------------------------------
  // Sequences of handles

  predicate Distinct(s: seq<Handle>) {
    forall i, j | 0 <= i < j < |s| :: s[i] != s[j]
  }

  /** The position of the first `x` in `s`, or `|s|` when there is none. */
  function IndexOf(s: seq<Handle>, x: Handle): (i: nat)
    ensures i <= |s|
    ensures i < |s| <==> x in s
    ensures i < |s| ==> s[i] == x
    ensures x !in s[..i]
  {
    if s == [] then 0
    else if s[0] == x then 0
    else
      var j := IndexOf(s[1..], x);
      assert s[..j + 1] == [s[0]] + s[1..][..j];
      j + 1
  }

  function RemoveAt(s: seq<Handle>, i: nat): seq<Handle>
    requires i < |s|
  {
    s[..i] + s[i + 1..]
  }

  function InsertAt(s: seq<Handle>, i: nat, x: Handle): seq<Handle>
    requires i <= |s|
  {
    s[..i] + [x] + s[i..]
  }

  lemma RemoveAtFacts(s: seq<Handle>, i: nat)
    requires i < |s| && Distinct(s)
    ensures Distinct(RemoveAt(s, i))
    ensures forall c :: c in RemoveAt(s, i) <==> c in s && c != s[i]
  {
    var r := RemoveAt(s, i);
    assert forall j | 0 <= j < |r| :: r[j] == if j < i then s[j] else s[j + 1];
    forall c | c in s && c != s[i]
      ensures c in r
    {
      var k :| 0 <= k < |s| && s[k] == c;
      if k < i { assert r[k] == c; } else { assert r[k - 1] == c; }
    }
  }

  lemma InsertAtFacts(s: seq<Handle>, i: nat, x: Handle)
    requires i <= |s| && Distinct(s) && x !in s
    ensures Distinct(InsertAt(s, i, x))
    ensures forall c :: c in InsertAt(s, i, x) <==> c in s || c == x
  {
    var r := InsertAt(s, i, x);
    assert forall j | 0 <= j < |r| :: r[j] == if j < i then s[j] else if j == i then x else s[j - 1];
    forall c | c in s
      ensures c in r
    {
      var k :| 0 <= k < |s| && s[k] == c;
      if k < i { assert r[k] == c; } else { assert r[k + 1] == c; }
    }
  }

  lemma ConcatDistinct(s: seq<Handle>, t: seq<Handle>)
    requires Distinct(s) && Distinct(t)
    requires forall c | c in s :: c !in t
    ensures Distinct(s + t)
  {
    var r := s + t;
    forall i, j | 0 <= i < j < |r|
      ensures r[i] != r[j]
    {
      if j >= |s| && i < |s| {
        assert r[i] in s && r[j] == t[j - |s|];
      }
    }
  }

  // ---------------------------------------------------------------------------
  // Well-formed tables

  /** Every child's parent field names the node whose children list holds it. */
  ghost predicate ChildrenPointBack(d: seq<Tag>) {
    forall p, i | 0 <= p < |d| && 0 <= i < |d[p].inner| ::
      d[p].inner[i] < |d| && d[d[p].inner[i]].parent == Some(p)
  }

  /** Every node that has a parent is listed among that parent's children. */
  ghost predicate ParentsListChild(d: seq<Tag>) {
    forall c | 0 <= c < |d| && d[c].parent.Some? ::
      d[c].parent.value < |d| && c in d[d[c].parent.value].inner
  }

  ghost predicate NoDuplicateChildren(d: seq<Tag>) {
    forall p | 0 <= p < |d| :: Distinct(d[p].inner)
  }

  /** Exactly the template elements own template contents: a document
      node of their own, shared with no other element. */
  ghost predicate TemplatesOwned(d: seq<Tag>) {
    && (forall h | 0 <= h < |d| :: d[h].template.Some? <==> IsTemplate(d[h]))
    && (forall h | 0 <= h < |d| && d[h].template.Some? ::
          d[h].template.value < |d| && d[d[h].template.value].kind == Document)
    && (forall a, b | 0 <= a < |d| && 0 <= b < |d| && d[a].template.Some? && d[a].template == d[b].template :: a == b)
  }

  ghost predicate WellFormed(d: seq<Tag>) {
    && |d| > 0
    && d[0].kind == Document
    && ChildrenPointBack(d)
    && ParentsListChild(d)
    && NoDuplicateChildren(d)
    && TemplatesOwned(d)
  }

  /** In a well-formed table no node is listed under two parents. */
  lemma OneParent(d: seq<Tag>, c: Handle, p: Handle, q: Handle)
    requires WellFormed(d) && p < |d| && q < |d|
    requires c in d[p].inner && c in d[q].inner
    ensures p == q
  {
    var i :| 0 <= i < |d[p].inner| && d[p].inner[i] == c;
    var j :| 0 <= j < |d[q].inner| && d[q].inner[j] == c;
    assert d[c].parent == Some(p) && d[c].parent == Some(q);
  }

  /** A node is listed only under the node its parent field names. */
  lemma ListedOnlyUnderParent(d: seq<Tag>, c: Handle, q: Handle)
    requires WellFormed(d) && c < |d| && q < |d| && d[c].parent != Some(q)
    ensures c !in d[q].inner
  {
  }

  /** Same length, and every node keeps its kind, name and template contents. */
  ghost predicate SameIdentities(d: seq<Tag>, d': seq<Tag>) {
    |d'| == |d| && KeepsIdentity(d, d')
  }

  lemma TemplatesFrame(d: seq<Tag>, d': seq<Tag>)
    requires |d| > 0 && d[0].kind == Document && TemplatesOwned(d) && SameIdentities(d, d')
    ensures |d'| > 0 && d'[0].kind == Document && TemplatesOwned(d')
  {
    assert forall h | 0 <= h < |d| :: d'[h].template == d[h].template && IsTemplate(d'[h]) == IsTemplate(d[h]);
  }

  /** A table whose links are those of a well-formed one is well formed. */
  lemma LinksUnchanged(d: seq<Tag>, d': seq<Tag>)
    requires WellFormed(d) && SameIdentities(d, d')
    requires forall h | 0 <= h < |d| :: d'[h].parent == d[h].parent && d'[h].inner == d[h].inner
    ensures WellFormed(d')
  {
    TemplatesFrame(d, d');
  }

  /** `d'` is `d` with parentless, childless records added at the end. */
  ghost predicate ExtendsWithLeaves(d: seq<Tag>, d': seq<Tag>) {
    && |d| <= |d'|
    && (forall h | 0 <= h < |d| :: d'[h] == d[h])
    && (forall h | |d| <= h < |d'| :: d'[h].parent == None && d'[h].inner == [])
  }

  /** Adding parentless, childless records keeps every link valid. */
  lemma ExtendedLinks(d: seq<Tag>, d': seq<Tag>)
    requires WellFormed(d) && ExtendsWithLeaves(d, d')
    ensures |d'| > 0 && d'[0].kind == Document
    ensures ChildrenPointBack(d') && ParentsListChild(d') && NoDuplicateChildren(d')
    ensures KeepsIdentity(d, d') && KeepsContents(d, d')
  {
    ExtendedPointBack(d, d');
  }

  lemma ExtendedPointBack(d: seq<Tag>, d': seq<Tag>)
    requires WellFormed(d) && ExtendsWithLeaves(d, d')
    ensures ChildrenPointBack(d')
  {
    forall p, i | 0 <= p < |d'| && 0 <= i < |d'[p].inner|
      ensures d'[p].inner[i] < |d'| && d'[d'[p].inner[i]].parent == Some(p)
    {
      assert p < |d| && d'[p].inner[i] == d[p].inner[i];
    }
  }

  /** Adding a parentless, childless record that is not a template. */
  lemma AddLeafSpec(d: seq<Tag>, t: Tag)
    requires WellFormed(d)
    requires t.parent == None && t.inner == [] && t.template == None && !IsTemplate(t)
    ensures WellFormed(d + [t]) && KeepsIdentity(d, d + [t]) && KeepsContents(d, d + [t])
  {
    var d' := d + [t];
    assert ExtendsWithLeaves(d, d');
    ExtendedLinks(d, d');
    LeafTemplates(d, t);
  }

  /** A record without template contents leaves the ownership of template contents as it was. */
  lemma LeafTemplates(d: seq<Tag>, t: Tag)
    requires TemplatesOwned(d) && t.template == None && !IsTemplate(t)
    ensures TemplatesOwned(d + [t])
  {
    var d' := d + [t];
    assert forall h | 0 <= h < |d| :: d'[h] == d[h];
    assert d'[|d|] == t;
  }

  /** Every handle that resolved before still resolves, to a node of the same
      kind and name with the same template contents. */
  ghost predicate KeepsIdentity(d: seq<Tag>, d': seq<Tag>) {
    && |d| <= |d'|
    && forall h | 0 <= h < |d| ::
         d'[h].kind == d[h].kind && d'[h].name == d[h].name && d'[h].template == d[h].template
  }

  /** Only links changed: every old node keeps its attributes and its text. */
  ghost predicate KeepsContents(d: seq<Tag>, d': seq<Tag>) {
    && |d| <= |d'|
    && forall h | 0 <= h < |d| ::
         d'[h].attributes == d[h].attributes && d'[h].textContents == d[h].textContents
  }

  function IsTextAt(d: seq<Tag>, h: Handle): bool {
    h < |d| && d[h].kind == Text
  }

  /** No two adjacent handles of `s` are both text nodes. */
  predicate NoAdjacentTextIn(d: seq<Tag>, s: seq<Handle>) {
    forall j | 0 <= j < |s| - 1 :: !(IsTextAt(d, s[j]) && IsTextAt(d, s[j + 1]))
  }

  /** No two adjacent children of `p` are both text nodes. */
  predicate NoAdjacentText(d: seq<Tag>, p: Handle)
    requires p < |d|
  {
    NoAdjacentTextIn(d, d[p].inner)
  }

  /** Adjacency of text depends only on the kinds of the handles involved. */
  lemma NoAdjacentTextFrame(d: seq<Tag>, d': seq<Tag>, s: seq<Handle>)
    requires forall c | c in s :: IsTextAt(d', c) == IsTextAt(d, c)
    ensures NoAdjacentTextIn(d', s) == NoAdjacentTextIn(d, s)
  {
    assert forall j | 0 <= j < |s| :: s[j] in s;
  }

  /** When every node keeps its kind, adjacency of text stays as it was. */
  lemma SameKindsFrame(d: seq<Tag>, d': seq<Tag>, s: seq<Handle>)
    requires SameIdentities(d, d')
    ensures NoAdjacentTextIn(d', s) == NoAdjacentTextIn(d, s)
  {
    forall c | c in s
      ensures IsTextAt(d', c) == IsTextAt(d, c)
    {
      if c < |d| { assert d'[c].kind == d[c].kind; }
    }
    NoAdjacentTextFrame(d, d', s);
  }

  /** Inserting `x` before position `i` creates no adjacent text as long as
      the handle at `i`, if any, is not text and `x` is not text where the
      handle before it is. */
  lemma InsertNoAdjacentText(d: seq<Tag>, s: seq<Handle>, i: nat, x: Handle)
    requires i <= |s| && NoAdjacentTextIn(d, s)
    requires i < |s| ==> !IsTextAt(d, s[i])
    requires i > 0 && IsTextAt(d, s[i - 1]) ==> !IsTextAt(d, x)
    ensures NoAdjacentTextIn(d, InsertAt(s, i, x))
  {
    var s' := InsertAt(s, i, x);
    forall j | 0 <= j < |s'| - 1
      ensures !(IsTextAt(d, s'[j]) && IsTextAt(d, s'[j + 1]))
    {
      if j < i - 1 {
        assert s'[j] == s[j] && s'[j + 1] == s[j + 1];
      } else if j == i - 1 {
        assert s'[j] == s[j] && s'[j + 1] == x;
      } else if j == i {
        assert s'[j] == x && s'[j + 1] == s[i];
      } else {
        assert s'[j] == s[j - 1] && s'[j + 1] == s[j];
      }
    }
  }

  // ---------------------------------------------------------------------------
  // Node creation

  /** The records `create_element` adds at handle `h`: the element, and for a
      template element its template contents right after it. */
  function NewElement(h: Handle, name: string, attrs: seq<Attribute>): seq<Tag>
  {
    var e := Named(name).(attributes := MergeMissing(map[], attrs));
    if name == "template" then [e.(template := Some(h + 1)), DocumentTag()] else [e]
  }

  /** Adding a template element at handle `|d|` with its contents at `|d| + 1`. */
  lemma AddTemplateSpec(d: seq<Tag>, e: Tag)
    requires WellFormed(d)
    requires e.parent == None && e.inner == [] && IsTemplate(e) && e.template == Some(|d| + 1)
    ensures WellFormed(d + [e, DocumentTag()]) && KeepsIdentity(d, d + [e, DocumentTag()])
    ensures KeepsContents(d, d + [e, DocumentTag()])
  {
    var d' := d + [e, DocumentTag()];
    assert ExtendsWithLeaves(d, d');
    ExtendedLinks(d, d');
    TemplateTemplates(d, e);
  }

  /** A template element followed by its contents gives the new element the new contents. */
  lemma TemplateTemplates(d: seq<Tag>, e: Tag)
    requires |d| > 0 && TemplatesOwned(d) && IsTemplate(e) && e.template == Some(|d| + 1)
    ensures TemplatesOwned(d + [e, DocumentTag()])
  {
    var d' := d + [e, DocumentTag()];
    assert forall h | 0 <= h < |d| :: d'[h] == d[h];
    assert d'[|d|] == e && d'[|d| + 1] == DocumentTag();
    forall a, b | 0 <= a < |d'| && 0 <= b < |d'| && d'[a].template.Some? && d'[a].template == d'[b].template
      ensures a == b
    {
    }
  }

  lemma NewElementSpec(d: seq<Tag>, name: string, attrs: seq<Attribute>)
    requires WellFormed(d)
    ensures var d' := d + NewElement(|d|, name, attrs);
      && WellFormed(d') && KeepsIdentity(d, d') && KeepsContents(d, d')
      && d'[|d|].kind == Element && d'[|d|].name == name && d'[|d|].parent == None
      && d'[|d|].inner == [] && d'[|d|].attributes == MergeMissing(map[], attrs)
      && (IsTemplate(d'[|d|]) <==> d'[|d|].template == Some(|d| + 1))
      && (IsTemplate(d'[|d|]) ==> |d'| == |d| + 2 && d'[|d| + 1] == DocumentTag())
      && (!IsTemplate(d'[|d|]) ==> |d'| == |d| + 1)
  {
    var e := Named(name).(attributes := MergeMissing(map[], attrs));
    if name == "template" {
      AddTemplateSpec(d, e.(template := Some(|d| + 1)));
    } else {
      AddLeafSpec(d, e);
    }
  }

  // ---------------------------------------------------------------------------
  // Detaching

  /** The table after replacing `p`'s children by `s` and then `x`'s parent by `q`. */
  function Relink(d: seq<Tag>, p: Handle, s: seq<Handle>, x: Handle, q: Option<Handle>): seq<Tag>
    requires p < |d| && x < |d|
  {
    var d1 := d[p := d[p].(inner := s)];
    d1[x := d1[x].(parent := q)]
  }

  lemma RelinkShape(d: seq<Tag>, p: Handle, s: seq<Handle>, x: Handle, q: Option<Handle>)
    requires p < |d| && x < |d|
    ensures var d' := Relink(d, p, s, x, q);
      && SameIdentities(d, d') && KeepsContents(d, d')
      && (forall y | 0 <= y < |d| :: d'[y].inner == (if y == p then s else d[y].inner))
      && (forall y | 0 <= y < |d| :: d'[y].parent == (if y == x then q else d[y].parent))
  {
  }

  /** A node with a parent is listed among that parent's children (true of
      every node of a well-formed table). */
  predicate ListedByParent(d: seq<Tag>, h: Handle)
    requires h < |d|
  {
    d[h].parent.Some? ==> d[h].parent.value < |d| && h in d[d[h].parent.value].inner
  }

  /** `remove_from_parent`: `h` loses its parent and its entry in that
      parent's children; everything else stays. */
  function Detached(d: seq<Tag>, h: Handle): seq<Tag>
    requires h < |d| && ListedByParent(d, h)
  {
    match d[h].parent
    case None => d
    case Some(p) =>
      var s := d[p].inner;
      Relink(d, p, RemoveAt(s, IndexOf(s, h)), h, None)
  }

  /** `d'` has the links of `d` after `h` leaves position `i` of `p`'s children. */
  ghost predicate RemovedLinks(d: seq<Tag>, d': seq<Tag>, p: Handle, i: nat, h: Handle) {
    && SameIdentities(d, d')
    && p < |d| && i < |d[p].inner| && d[p].inner[i] == h
    && (forall y | 0 <= y < |d| :: d'[y].inner == (if y == p then RemoveAt(d[p].inner, i) else d[y].inner))
    && (forall y | 0 <= y < |d| :: d'[y].parent == (if y == h then None else d[y].parent))
  }

  /** The links after `h` leaves position `i` of `p`'s children form a well-formed table. */
  lemma LinksAfterRemove(d: seq<Tag>, d': seq<Tag>, p: Handle, i: nat, h: Handle)
    requires WellFormed(d) && RemovedLinks(d, d', p, i, h)
    ensures WellFormed(d')
  {
    TemplatesFrame(d, d');
    RemovedPointBack(d, d', p, i, h);
    RemovedListed(d, d', p, i, h);
    RemoveAtFacts(d[p].inner, i);
    assert NoDuplicateChildren(d') by {
      forall q | 0 <= q < |d'|
        ensures Distinct(d'[q].inner)
      {
        if q != p { assert d'[q].inner == d[q].inner; }
      }
    }
  }

  lemma RemovedPointBack(d: seq<Tag>, d': seq<Tag>, p: Handle, i: nat, h: Handle)
    requires WellFormed(d) && RemovedLinks(d, d', p, i, h)
    ensures ChildrenPointBack(d')
  {
    var s := d[p].inner;
    RemoveAtFacts(s, i);
    forall q, j | 0 <= q < |d'| && 0 <= j < |d'[q].inner|
      ensures d'[q].inner[j] < |d'| && d'[d'[q].inner[j]].parent == Some(q)
    {
      var c := d'[q].inner[j];
      if q == p {
        assert c in RemoveAt(s, i);
        var k :| 0 <= k < |s| && s[k] == c;
        assert d[c].parent == Some(p);
      } else {
        assert c == d[q].inner[j];
        assert d[c].parent == Some(q);
      }
    }
  }

  lemma RemovedListed(d: seq<Tag>, d': seq<Tag>, p: Handle, i: nat, h: Handle)
    requires WellFormed(d) && RemovedLinks(d, d', p, i, h)
    ensures ParentsListChild(d')
  {
    var s := d[p].inner;
    RemoveAtFacts(s, i);
    forall c | 0 <= c < |d'| && d'[c].parent.Some?
      ensures d'[c].parent.value < |d'| && c in d'[d'[c].parent.value].inner
    {
      var q := d[c].parent.value;
      assert c in d[q].inner;
      if q == p { assert c in RemoveAt(s, i); }
    }
  }

  lemma DetachedSpec(d: seq<Tag>, h: Handle)
    requires WellFormed(d) && h < |d|
    ensures var d' := Detached(d, h);
      && WellFormed(d') && SameIdentities(d, d') && KeepsContents(d, d')
      && d'[h].parent == None
      && (forall q | 0 <= q < |d'| :: h !in d'[q].inner)
      && (forall x | 0 <= x < |d| && x != h :: d'[x].parent == d[x].parent)
      && (forall x | 0 <= x < |d| && Some(x) != d[h].parent :: d'[x].inner == d[x].inner)
      && (d[h].parent.Some? ==>
            var s := d[d[h].parent.value].inner;
            var i := IndexOf(s, h);
            i < |s| && s[i] == h && d'[d[h].parent.value].inner == s[..i] + s[i + 1..])
  {
    if d[h].parent.Some? {
      DetachedShape(d, h, d[h].parent.value);
      DetachedFromParent(d, h, d[h].parent.value);
    } else {
      DetachedUnparented(d, h);
    }
  }

  /** Detaching a node without parent changes nothing. */
  lemma DetachedUnparented(d: seq<Tag>, h: Handle)
    requires WellFormed(d) && h < |d| && d[h].parent == None
    ensures Detached(d, h) == d
    ensures forall q | 0 <= q < |d| :: h !in d[q].inner
  {
    forall q | 0 <= q < |d|
      ensures h !in d[q].inner
    {
      ListedOnlyUnderParent(d, h, q);
    }
  }

  /** Detaching a node that has parent `p` changes only `p`'s children and
      `h`'s parent. */
  lemma DetachedShape(d: seq<Tag>, h: Handle, p: Handle)
    requires h < |d| && p < |d| && d[h].parent == Some(p) && h in d[p].inner
    ensures var d' := Detached(d, h);
      && SameIdentities(d, d') && KeepsContents(d, d')
      && d'[h].parent == None
      && (forall x | 0 <= x < |d| && x != h :: d'[x].parent == d[x].parent)
      && (forall x | 0 <= x < |d| && x != p :: d'[x].inner == d[x].inner)
      && var s := d[p].inner;
      && d'[p].inner == RemoveAt(s, IndexOf(s, h)) == s[..IndexOf(s, h)] + s[IndexOf(s, h) + 1..]
  {
    var s := d[p].inner;
    RelinkShape(d, p, RemoveAt(s, IndexOf(s, h)), h, None);
  }

  /** Detaching a node that has parent `p` keeps the table well-formed and
      lists `h` nowhere. */
  lemma DetachedFromParent(d: seq<Tag>, h: Handle, p: Handle)
    requires WellFormed(d) && h < |d| && d[h].parent == Some(p)
    ensures p < |d|
    ensures var d' := Detached(d, h);
      && WellFormed(d')
      && (forall q | 0 <= q < |d'| :: h !in d'[q].inner)
  {
    var s := d[p].inner;
    var i := IndexOf(s, h);
    var d' := Detached(d, h);
    DetachedShape(d, h, p);
    LinksAfterRemove(d, d', p, i, h);
    NotListedAfterRemove(d, d', p, i, h);
  }

  /** After the removal `h` is in no children list. */
  lemma NotListedAfterRemove(d: seq<Tag>, d': seq<Tag>, p: Handle, i: nat, h: Handle)
    requires WellFormed(d) && |d'| == |d|
    requires p < |d| && i < |d[p].inner| && d[p].inner[i] == h
    requires forall y | 0 <= y < |d| :: d'[y].inner == (if y == p then RemoveAt(d[p].inner, i) else d[y].inner)
    ensures forall q | 0 <= q < |d'| :: h !in d'[q].inner
  {
    var s := d[p].inner;
    assert d[h].parent == Some(p);
    forall q | 0 <= q < |d'|
      ensures h !in d'[q].inner
    {
      if q == p { RemoveAtFacts(s, i); } else { ListedOnlyUnderParent(d, h, q); }
    }
  }

  // ---------------------------------------------------------------------------
  // Insertion

  predicate ValidChild(d: seq<Tag>, child: NodeOrText) {
    child.AppendNode? ==> child.handle < |d|
  }

  /** The node to insert has no parent yet (always true of raw text). */
  predicate Unparented(d: seq<Tag>, child: NodeOrText)
    requires ValidChild(d, child)
  {
    child.AppendNode? ==> d[child.handle].parent == None
  }

  /** Raw text, or an existing text node. */
  predicate IsTextContent(d: seq<Tag>, child: NodeOrText)
    requires ValidChild(d, child)
  {
    child.AppendText? || d[child.handle].kind == Text
  }

  function TextOf(d: seq<Tag>, child: NodeOrText): string
    requires ValidChild(d, child)
  {
    if child.AppendText? then child.text else d[child.handle].textContents
  }

  /** The handle the inserted child ends up with: a fresh text node for raw text. */
  function NewChild(d: seq<Tag>, child: NodeOrText): Handle
  {
    if child.AppendText? then |d| else child.handle
  }

  /** Concatenates `s` onto the buffer of text node `t`. */
  function MergeText(d: seq<Tag>, t: Handle, s: string): seq<Tag>
    requires t < |d|
  {
    d[t := d[t].(textContents := d[t].textContents + s)]
  }

  lemma MergeTextSpec(d: seq<Tag>, t: Handle, s: string)
    requires WellFormed(d) && t < |d|
    ensures var d' := MergeText(d, t, s);
      && WellFormed(d') && SameIdentities(d, d')
      && d'[t].textContents == d[t].textContents + s
      && (forall x | 0 <= x < |d| :: d'[x].parent == d[x].parent && d'[x].inner == d[x].inner)
      && (forall x | 0 <= x < |d| && x != t :: d'[x] == d[x])
  {
    var d' := MergeText(d, t, s);
    assert forall x | 0 <= x < |d| :: d'[x].parent == d[x].parent && d'[x].inner == d[x].inner;
    LinksUnchanged(d, d');
  }

  /** `d'` has the links of `d` after the parentless `x` enters `p`'s children at `i`. */
  ghost predicate InsertedLinks(d: seq<Tag>, d': seq<Tag>, p: Handle, i: nat, x: Handle) {
    && SameIdentities(d, d')
    && p < |d| && i <= |d[p].inner| && x < |d| && d[x].parent == None
    && (forall y | 0 <= y < |d| :: d'[y].inner == (if y == p then InsertAt(d[p].inner, i, x) else d[y].inner))
    && (forall y | 0 <= y < |d| :: d'[y].parent == (if y == x then Some(p) else d[y].parent))
  }

  /** The links after inserting a parentless node form a well-formed table. */
  lemma LinksAfterInsert(d: seq<Tag>, d': seq<Tag>, p: Handle, i: nat, x: Handle)
    requires WellFormed(d) && InsertedLinks(d, d', p, i, x)
    ensures WellFormed(d')
  {
    TemplatesFrame(d, d');
    InsertedPointBack(d, d', p, i, x);
    InsertedListed(d, d', p, i, x);
    NotListedAnywhere(d, x);
    InsertAtFacts(d[p].inner, i, x);
    assert NoDuplicateChildren(d') by {
      forall q | 0 <= q < |d'|
        ensures Distinct(d'[q].inner)
      {
        if q != p { assert d'[q].inner == d[q].inner; }
      }
    }
  }

  /** A node without parent is in no children list. */
  lemma NotListedAnywhere(d: seq<Tag>, x: Handle)
    requires WellFormed(d) && x < |d| && d[x].parent == None
    ensures forall q | 0 <= q < |d| :: x !in d[q].inner
  {
    forall q | 0 <= q < |d|
      ensures x !in d[q].inner
    {
      ListedOnlyUnderParent(d, x, q);
    }
  }

  lemma InsertedPointBack(d: seq<Tag>, d': seq<Tag>, p: Handle, i: nat, x: Handle)
    requires WellFormed(d) && InsertedLinks(d, d', p, i, x)
    ensures ChildrenPointBack(d')
  {
    var s := d[p].inner;
    NotListedAnywhere(d, x);
    InsertAtFacts(s, i, x);
    forall q, j | 0 <= q < |d'| && 0 <= j < |d'[q].inner|
      ensures d'[q].inner[j] < |d'| && d'[d'[q].inner[j]].parent == Some(q)
    {
      var c := d'[q].inner[j];
      if q == p {
        assert c in InsertAt(s, i, x);
        if c != x {
          var k :| 0 <= k < |s| && s[k] == c;
          assert d[c].parent == Some(p);
        }
      } else {
        assert c == d[q].inner[j];
        assert c in d[q].inner;
        assert d[c].parent == Some(q);
      }
    }
  }

  lemma InsertedListed(d: seq<Tag>, d': seq<Tag>, p: Handle, i: nat, x: Handle)
    requires WellFormed(d) && InsertedLinks(d, d', p, i, x)
    ensures ParentsListChild(d')
  {
    var s := d[p].inner;
    NotListedAnywhere(d, x);
    InsertAtFacts(s, i, x);
    forall c | 0 <= c < |d'| && d'[c].parent.Some?
      ensures d'[c].parent.value < |d'| && c in d'[d'[c].parent.value].inner
    {
      if c != x {
        var q := d[c].parent.value;
        assert c in d[q].inner;
      }
    }
  }

  /** The table with the record for raw text added, before it is linked. */
  function WithChildRecord(d: seq<Tag>, child: NodeOrText): (d0: seq<Tag>)
    ensures |d0| == (if child.AppendText? then |d| + 1 else |d|)
    ensures forall y | 0 <= y < |d| :: d0[y] == d[y]
  {
    if child.AppendText? then d + [TextTag(child.text)] else d
  }

  /** Links `child` into `p`'s children at position `i`, creating a text node
      for raw text. */
  function Place(d: seq<Tag>, p: Handle, i: nat, child: NodeOrText): seq<Tag>
    requires p < |d| && i <= |d[p].inner| && ValidChild(d, child)
  {
    var x := NewChild(d, child);
    var d0 := WithChildRecord(d, child);
    Relink(d0, p, InsertAt(d0[p].inner, i, x), x, Some(p))
  }

  lemma PlaceSpec(d: seq<Tag>, p: Handle, i: nat, child: NodeOrText)
    requires WellFormed(d) && p < |d| && i <= |d[p].inner|
    requires ValidChild(d, child) && Unparented(d, child)
    ensures var d' := Place(d, p, i, child); var x := NewChild(d, child);
      && WellFormed(d') && KeepsIdentity(d, d') && KeepsContents(d, d')
      && |d'| == (if child.AppendText? then |d| + 1 else |d|)
      && x < |d'| && d'[x].parent == Some(p)
      && d'[p].inner == InsertAt(d[p].inner, i, x)
      && (child.AppendText? ==> d'[x].kind == Text && d'[x].textContents == child.text)
      && (forall y | 0 <= y < |d| && y != x :: d'[y].parent == d[y].parent)
      && (forall y | 0 <= y < |d| && y != p :: d'[y].inner == d[y].inner)
  {
    PlaceShape(d, p, i, child);
    PlaceWellFormed(d, p, i, child);
  }

  /** What linking changes, whatever the table. */
  lemma PlaceShape(d: seq<Tag>, p: Handle, i: nat, child: NodeOrText)
    requires p < |d| && i <= |d[p].inner| && ValidChild(d, child)
    ensures var d' := Place(d, p, i, child); var x := NewChild(d, child);
      && KeepsIdentity(d, d') && KeepsContents(d, d')
      && |d'| == (if child.AppendText? then |d| + 1 else |d|)
      && x < |d'| && d'[x].parent == Some(p)
      && d'[p].inner == InsertAt(d[p].inner, i, x)
      && (child.AppendText? ==> d'[x].kind == Text && d'[x].textContents == child.text)
      && (forall y | 0 <= y < |d| && y != x :: d'[y].parent == d[y].parent)
      && (forall y | 0 <= y < |d| && y != p :: d'[y].inner == d[y].inner)
  {
    var x := NewChild(d, child);
    var d0 := WithChildRecord(d, child);
    RelinkShape(d0, p, InsertAt(d0[p].inner, i, x), x, Some(p));
  }

  lemma PlaceWellFormed(d: seq<Tag>, p: Handle, i: nat, child: NodeOrText)
    requires WellFormed(d) && p < |d| && i <= |d[p].inner|
    requires ValidChild(d, child) && Unparented(d, child)
    ensures WellFormed(Place(d, p, i, child))
  {
    var x := NewChild(d, child);
    var d0 := WithChildRecord(d, child);
    var d' := Place(d, p, i, child);
    assert WellFormed(d0) by {
      if child.AppendText? { AddLeafSpec(d, TextTag(child.text)); }
    }
    assert d0[x].parent == None;
    RelinkShape(d0, p, InsertAt(d0[p].inner, i, x), x, Some(p));
    LinksAfterInsert(d0, d', p, i, x);
  }

  /** Merging text changes no node's kind, so no adjacency appears. */
  lemma MergeNoAdjacentText(d: seq<Tag>, t: Handle, s: string, p: Handle)
    requires t < |d| && p < |d| && NoAdjacentText(d, p)
    ensures p < |MergeText(d, t, s)| && NoAdjacentText(MergeText(d, t, s), p)
  {
    var d' := MergeText(d, t, s);
    assert forall c | c in d[p].inner :: IsTextAt(d', c) == IsTextAt(d, c);
    NoAdjacentTextFrame(d, d', d[p].inner);
  }

  /** Linking a child at position `i` creates no adjacent text when the
      child at `i` is not text and the child is not text where the one before
      `i` is. */
  lemma PlaceNoAdjacentText(d: seq<Tag>, p: Handle, i: nat, child: NodeOrText)
    requires WellFormed(d) && p < |d| && i <= |d[p].inner|
    requires ValidChild(d, child) && Unparented(d, child)
    requires NoAdjacentText(d, p)
    requires i < |d[p].inner| ==> !IsTextAt(d, d[p].inner[i])
    requires !(IsTextContent(d, child) && i > 0 && IsTextAt(d, d[p].inner[i - 1]))
    ensures p < |Place(d, p, i, child)| && NoAdjacentText(Place(d, p, i, child), p)
  {
    var s := d[p].inner;
    var x := NewChild(d, child);
    var d' := Place(d, p, i, child);
    PlaceShape(d, p, i, child);
    forall c | c in s
      ensures IsTextAt(d', c) == IsTextAt(d, c)
    {
      var k :| 0 <= k < |s| && s[k] == c;
      assert c < |d|;
    }
    NoAdjacentTextFrame(d, d', s);
    if i < |s| { assert s[i] in s; }
    if i > 0 { assert s[i - 1] in s; }
    assert i > 0 && IsTextAt(d', s[i - 1]) ==> !IsTextAt(d', x) by {
      if child.AppendNode? { assert d'[x].kind == d[x].kind; }
    }
    InsertNoAdjacentText(d', s, i, x);
  }

  /** The text `child` would end up right after the text node `s[i - 1]`, so
      it is merged into that node. */
  predicate MergesAfter(d: seq<Tag>, child: NodeOrText, s: seq<Handle>, i: nat)
    requires ValidChild(d, child) && i <= |s|
  {
    IsTextContent(d, child) && i > 0 && IsTextAt(d, s[i - 1])
  }

  /** `append`: `child` becomes the last child of `parent`, unless both it and
      the current last child are text, in which case the text is concatenated
      into that last child and no child is added. */
  function Appended(d: seq<Tag>, parent: Handle, child: NodeOrText): seq<Tag>
    requires WellFormed(d) && parent < |d| && ValidChild(d, child)
  {
    var s := d[parent].inner;
    if MergesAfter(d, child, s, |s|) then MergeText(d, s[|s| - 1], TextOf(d, child))
    else Place(d, parent, |s|, child)
  }

  lemma AppendedSpec(d: seq<Tag>, parent: Handle, child: NodeOrText)
    requires WellFormed(d) && parent < |d| && ValidChild(d, child) && Unparented(d, child)
    ensures var d' := Appended(d, parent, child); var s := d[parent].inner;
      && WellFormed(d') && KeepsIdentity(d, d')
      && (MergesAfter(d, child, s, |s|) ==>
            var t := s[|s| - 1];
            && |d'| == |d| && d'[parent].inner == s
            && d'[t] == d[t].(textContents := d[t].textContents + TextOf(d, child))
            && forall x | 0 <= x < |d| && x != t :: d'[x] == d[x])
      && (!MergesAfter(d, child, s, |s|) ==>
            var x := NewChild(d, child);
            && KeepsContents(d, d')
            && |d'| == (if child.AppendText? then |d| + 1 else |d|)
            && d'[parent].inner == s + [x]
            && d'[x].parent == Some(parent)
            && (child.AppendText? ==> d'[x].kind == Text && d'[x].textContents == child.text)
            && forall y | 0 <= y < |d| && y != x :: d'[y].parent == d[y].parent)
  {
    var s := d[parent].inner;
    if MergesAfter(d, child, s, |s|) {
      AppendedMerges(d, parent, child);
    } else {
      AppendedLinks(d, parent, child);
    }
  }

  /** The text `child` is concatenated into the last child, which is text. */
  lemma AppendedMerges(d: seq<Tag>, parent: Handle, child: NodeOrText)
    requires WellFormed(d) && parent < |d| && ValidChild(d, child)
    requires MergesAfter(d, child, d[parent].inner, |d[parent].inner|)
    ensures var d' := Appended(d, parent, child); var s := d[parent].inner; var t := s[|s| - 1];
      && WellFormed(d') && KeepsIdentity(d, d')
      && |d'| == |d| && d'[parent].inner == s
      && d'[t] == d[t].(textContents := d[t].textContents + TextOf(d, child))
      && forall x | 0 <= x < |d| && x != t :: d'[x] == d[x]
  {
    var s := d[parent].inner;
    var t := s[|s| - 1];
    assert Appended(d, parent, child) == MergeText(d, t, TextOf(d, child));
    MergeTextSpec(d, t, TextOf(d, child));
  }

  /** The parentless `child`, or a fresh text node for raw text, becomes the last child. */
  lemma AppendedLinks(d: seq<Tag>, parent: Handle, child: NodeOrText)
    requires WellFormed(d) && parent < |d| && ValidChild(d, child) && Unparented(d, child)
    requires !MergesAfter(d, child, d[parent].inner, |d[parent].inner|)
    ensures var d' := Appended(d, parent, child); var s := d[parent].inner; var x := NewChild(d, child);
      && WellFormed(d') && KeepsIdentity(d, d') && KeepsContents(d, d')
      && |d'| == (if child.AppendText? then |d| + 1 else |d|)
      && d'[parent].inner == s + [x]
      && d'[x].parent == Some(parent)
      && (child.AppendText? ==> d'[x].kind == Text && d'[x].textContents == child.text)
      && forall y | 0 <= y < |d| && y != x :: d'[y].parent == d[y].parent
  {
    var s := d[parent].inner;
    assert Appended(d, parent, child) == Place(d, parent, |s|, child);
    PlaceSpec(d, parent, |s|, child);
    assert InsertAt(s, |s|, NewChild(d, child)) == s + [NewChild(d, child)];
  }

  /** Appending changes no children list but `parent`'s. */
  lemma AppendedFrame(d: seq<Tag>, parent: Handle, child: NodeOrText)
    requires WellFormed(d) && parent < |d| && ValidChild(d, child) && Unparented(d, child)
    ensures var d' := Appended(d, parent, child);
      && |d| <= |d'|
      && forall y | 0 <= y < |d| && y != parent :: d'[y].inner == d[y].inner
  {
    var s := d[parent].inner;
    if MergesAfter(d, child, s, |s|) {
      MergeTextSpec(d, s[|s| - 1], TextOf(d, child));
    } else {
      PlaceSpec(d, parent, |s|, child);
    }
  }

  /** Appending never leaves two adjacent text children under `parent`
      that were not adjacent before. */
  lemma AppendedNoAdjacentText(d: seq<Tag>, parent: Handle, child: NodeOrText)
    requires WellFormed(d) && parent < |d| && ValidChild(d, child) && Unparented(d, child)
    requires NoAdjacentText(d, parent)
    ensures parent < |Appended(d, parent, child)| && NoAdjacentText(Appended(d, parent, child), parent)
  {
    var s := d[parent].inner;
    if MergesAfter(d, child, s, |s|) {
      MergeNoAdjacentText(d, s[|s| - 1], TextOf(d, child), parent);
    } else {
      PlaceNoAdjacentText(d, parent, |s|, child);
    }
  }

  /** Two runs of text appended in a row to a childless parent end up as one
      text child holding both runs. */
  lemma TextRunsCoalesce(d: seq<Tag>, parent: Handle, a: string, b: string)
    requires WellFormed(d) && parent < |d| && d[parent].inner == []
    ensures var d1 := Appended(d, parent, AppendText(a));
      && WellFormed(d1) && parent < |d1|
      && var d2 := Appended(d1, parent, AppendText(b));
      && |d2| == |d| + 1 && d2[parent].inner == [|d|]
      && d2[|d|].kind == Text && d2[|d|].textContents == a + b
  {
    var d1 := Appended(d, parent, AppendText(a));
    AppendedSpec(d, parent, AppendText(a));
    assert d1 == Place(d, parent, 0, AppendText(a));
    PlaceSpec(d, parent, 0, AppendText(a));
    assert d1[parent].inner == [|d|];
    AppendedSpec(d1, parent, AppendText(b));
  }

  /** Raw text stays as it is; a node is first removed from any old parent. */
  function DetachedChild(d: seq<Tag>, child: NodeOrText): (d1: seq<Tag>)
    requires WellFormed(d) && ValidChild(d, child)
    ensures WellFormed(d1) && SameIdentities(d, d1) && KeepsContents(d, d1)
    ensures ValidChild(d1, child) && Unparented(d1, child)
  {
    if child.AppendNode? then DetachedSpec(d, child.handle); Detached(d, child.handle) else d
  }

  /** Places the parentless `child` right before `sibling`, a child of `p`,
      merging text into a previous sibling that is text. */
  function PlacedBefore(d: seq<Tag>, p: Handle, sibling: Handle, child: NodeOrText): seq<Tag>
    requires WellFormed(d) && p < |d| && sibling in d[p].inner && ValidChild(d, child)
  {
    var s := d[p].inner;
    var i := IndexOf(s, sibling);
    if MergesAfter(d, child, s, i) then MergeText(d, s[i - 1], TextOf(d, child))
    else Place(d, p, i, child)
  }

  lemma PlacedBeforeSpec(d: seq<Tag>, p: Handle, sibling: Handle, child: NodeOrText)
    requires WellFormed(d) && p < |d| && sibling in d[p].inner && ValidChild(d, child) && Unparented(d, child)
    ensures var d' := PlacedBefore(d, p, sibling, child);
      var s := d[p].inner;
      var i := IndexOf(s, sibling);
      && WellFormed(d') && KeepsIdentity(d, d')
      && i < |s| && s[i] == sibling
      && (MergesAfter(d, child, s, i) ==>
            var t := s[i - 1];
            && |d'| == |d| && d'[p].inner == s
            && d'[t] == d[t].(textContents := d[t].textContents + TextOf(d, child))
            && forall x | 0 <= x < |d| && x != t :: d'[x] == d[x])
      && (!MergesAfter(d, child, s, i) ==>
            var x := NewChild(d, child);
            && KeepsContents(d, d')
            && |d'| == (if child.AppendText? then |d| + 1 else |d|)
            && d'[p].inner == s[..i] + [x] + s[i..]
            && d'[x].parent == Some(p)
            && (child.AppendText? ==> d'[x].kind == Text && d'[x].textContents == child.text)
            && (forall y | 0 <= y < |d| && y != x :: d'[y].parent == d[y].parent)
            && forall y | 0 <= y < |d| && y != p :: d'[y].inner == d[y].inner)
  {
    var s := d[p].inner;
    var i := IndexOf(s, sibling);
    if MergesAfter(d, child, s, i) {
      PlacedBeforeMerges(d, p, sibling, child);
    } else {
      PlacedBeforeLinks(d, p, sibling, child);
    }
  }

  /** The text `child` merges into the sibling before `sibling`. */
  lemma PlacedBeforeMerges(d: seq<Tag>, p: Handle, sibling: Handle, child: NodeOrText)
    requires WellFormed(d) && p < |d| && sibling in d[p].inner && ValidChild(d, child)
    requires MergesAfter(d, child, d[p].inner, IndexOf(d[p].inner, sibling))
    ensures var d' := PlacedBefore(d, p, sibling, child);
      var s := d[p].inner;
      var t := s[IndexOf(s, sibling) - 1];
      && WellFormed(d') && KeepsIdentity(d, d')
      && |d'| == |d| && d'[p].inner == s
      && d'[t] == d[t].(textContents := d[t].textContents + TextOf(d, child))
      && forall x | 0 <= x < |d| && x != t :: d'[x] == d[x]
  {
    var s := d[p].inner;
    var t := s[IndexOf(s, sibling) - 1];
    assert PlacedBefore(d, p, sibling, child) == MergeText(d, t, TextOf(d, child));
    MergeTextSpec(d, t, TextOf(d, child));
  }

  /** The parentless `child`, or a fresh text node for raw text, is linked in
      right before `sibling`. */
  lemma PlacedBeforeLinks(d: seq<Tag>, p: Handle, sibling: Handle, child: NodeOrText)
    requires WellFormed(d) && p < |d| && sibling in d[p].inner && ValidChild(d, child) && Unparented(d, child)
    requires !MergesAfter(d, child, d[p].inner, IndexOf(d[p].inner, sibling))
    ensures var d' := PlacedBefore(d, p, sibling, child);
      var s := d[p].inner;
      var i := IndexOf(s, sibling);
      var x := NewChild(d, child);
      && WellFormed(d') && KeepsIdentity(d, d') && KeepsContents(d, d')
      && |d'| == (if child.AppendText? then |d| + 1 else |d|)
      && d'[p].inner == s[..i] + [x] + s[i..]
      && d'[x].parent == Some(p)
      && (child.AppendText? ==> d'[x].kind == Text && d'[x].textContents == child.text)
      && (forall y | 0 <= y < |d| && y != x :: d'[y].parent == d[y].parent)
      && forall y | 0 <= y < |d| && y != p :: d'[y].inner == d[y].inner
  {
    var i := IndexOf(d[p].inner, sibling);
    assert PlacedBefore(d, p, sibling, child) == Place(d, p, i, child);
    PlaceSpec(d, p, i, child);
  }

  lemma PlacedBeforeNoAdjacentText(d: seq<Tag>, p: Handle, sibling: Handle, child: NodeOrText)
    requires WellFormed(d) && p < |d| && sibling in d[p].inner && ValidChild(d, child) && Unparented(d, child)
    requires d[sibling].kind != Text && NoAdjacentText(d, p)
    ensures p < |PlacedBefore(d, p, sibling, child)| && NoAdjacentText(PlacedBefore(d, p, sibling, child), p)
  {
    var s := d[p].inner;
    var i := IndexOf(s, sibling);
    if MergesAfter(d, child, s, i) {
      MergeNoAdjacentText(d, s[i - 1], TextOf(d, child), p);
    } else {
      PlaceNoAdjacentText(d, p, i, child);
    }
  }

  /** `append_before_sibling`: `child` is first detached from any old parent,
      then placed immediately before `sibling` in `sibling`'s parent, merging
      text into an old previous sibling that is text. */
  function InsertedBefore(d: seq<Tag>, sibling: Handle, child: NodeOrText): seq<Tag>
    requires WellFormed(d) && sibling < |d| && d[sibling].parent.Some? && ValidChild(d, child)
    requires child.AppendNode? ==> child.handle != sibling
  {
    var d1 := DetachedChild(d, child);
    assert d1[sibling].parent == d[sibling].parent by {
      if child.AppendNode? { DetachedSpec(d, child.handle); }
    }
    PlacedBefore(d1, d[sibling].parent.value, sibling, child)
  }

  lemma InsertedBeforeSpec(d: seq<Tag>, sibling: Handle, child: NodeOrText)
    requires WellFormed(d) && sibling < |d| && d[sibling].parent.Some? && ValidChild(d, child)
    requires child.AppendNode? ==> child.handle != sibling
    ensures var d' := InsertedBefore(d, sibling, child);
      var p := d[sibling].parent.value;
      var d1 := DetachedChild(d, child);
      && WellFormed(d') && KeepsIdentity(d, d')
      && sibling in d1[p].inner
      && d' == PlacedBefore(d1, p, sibling, child)
      && (child.AppendNode? ==>
            d1[child.handle].parent == None && forall q | 0 <= q < |d| :: child.handle !in d1[q].inner)
      && (forall q | 0 <= q < |d| && Some(q) != (if child.AppendNode? then d[child.handle].parent else None) ::
            d1[q].inner == d[q].inner)
  {
    var d1 := DetachedChild(d, child);
    var p := d[sibling].parent.value;
    if child.AppendNode? { DetachedSpec(d, child.handle); }
    PlacedBeforeSpec(d1, p, sibling, child);
  }

  /** Inserting before a non-text sibling never leaves two adjacent text
      children under the sibling's parent that were not adjacent before, when
      the inserted node does not come from that same parent. */
  lemma InsertedBeforeNoAdjacentText(d: seq<Tag>, sibling: Handle, child: NodeOrText)
    requires WellFormed(d) && sibling < |d| && d[sibling].parent.Some? && ValidChild(d, child)
    requires child.AppendNode? ==> child.handle != sibling
    requires d[sibling].kind != Text
    requires child.AppendNode? ==> d[child.handle].parent != d[sibling].parent
    requires NoAdjacentText(d, d[sibling].parent.value)
    ensures var p := d[sibling].parent.value;
      p < |InsertedBefore(d, sibling, child)| && NoAdjacentText(InsertedBefore(d, sibling, child), p)
  {
    var p := d[sibling].parent.value;
    var d1 := DetachedChild(d, child);
    if child.AppendNode? {
      var h := child.handle;
      if d[h].parent.Some? { DetachedShape(d, h, d[h].parent.value); } else { DetachedUnparented(d, h); }
    }
    assert d1[p].inner == d[p].inner;
    assert sibling in d1[p].inner;
    assert InsertedBefore(d, sibling, child) == PlacedBefore(d1, p, sibling, child);
    SameKindsFrame(d, d1, d[p].inner);
    PlacedBeforeNoAdjacentText(d1, p, sibling, child);
  }

  // ---------------------------------------------------------------------------
  // Reparenting

  /** Every handle in `cs` gets `p` as its parent. */
  function Adopted(d: seq<Tag>, cs: seq<Handle>, p: Handle): (d': seq<Tag>)
    ensures |d'| == |d|
  {
    seq(|d|, h requires 0 <= h < |d| => if h in cs then d[h].(parent := Some(p)) else d[h])
  }

  lemma AdoptedNone(d: seq<Tag>, p: Handle)
    ensures Adopted(d, [], p) == d
  {
  }

  lemma AdoptedStep(d: seq<Tag>, cs: seq<Handle>, k: nat, p: Handle)
    requires k < |cs| && cs[k] < |d|
    ensures var a := Adopted(d, cs[..k], p);
      Adopted(d, cs[..k + 1], p) == a[cs[k] := a[cs[k]].(parent := Some(p))]
  {
    assert cs[..k + 1] == cs[..k] + [cs[k]];
  }

  /** `reparent_children`: all of `node`'s children move, in order, to the end
      of `newParent`'s children. */
  function Reparented(d: seq<Tag>, node: Handle, newParent: Handle): seq<Tag>
    requires node < |d| && newParent < |d|
  {
    var moved := d[node].inner;
    var d1 := d[node := d[node].(inner := [])];
    var d2 := d1[newParent := d1[newParent].(inner := d1[newParent].inner + moved)];
    Adopted(d2, moved, newParent)
  }

  /** `d'` has the links of `d` after the children of `node` move to the end
      of `newParent`'s children. */
  ghost predicate MovedLinks(d: seq<Tag>, d': seq<Tag>, node: Handle, newParent: Handle) {
    && SameIdentities(d, d')
    && node < |d| && newParent < |d| && node != newParent
    && (forall y | 0 <= y < |d| ::
          d'[y].inner == (if y == newParent then d[newParent].inner + d[node].inner else if y == node then [] else d[y].inner))
    && (forall y | 0 <= y < |d| :: d'[y].parent == (if y in d[node].inner then Some(newParent) else d[y].parent))
  }

  /** The links after the children of `node` move to the end of `newParent`'s
      children form a well-formed table. */
  lemma LinksAfterReparent(d: seq<Tag>, d': seq<Tag>, node: Handle, newParent: Handle)
    requires WellFormed(d) && MovedLinks(d, d', node, newParent)
    ensures WellFormed(d')
  {
    TemplatesFrame(d, d');
    MovedPointBack(d, d', node, newParent);
    MovedListed(d, d', node, newParent);
    MovedDisjoint(d, node, newParent);
    ConcatDistinct(d[newParent].inner, d[node].inner);
    assert NoDuplicateChildren(d') by {
      forall q | 0 <= q < |d'|
        ensures Distinct(d'[q].inner)
      {
        if q != newParent && q != node { assert d'[q].inner == d[q].inner; }
      }
    }
  }

  /** Two different nodes have no child in common. */
  lemma MovedDisjoint(d: seq<Tag>, node: Handle, newParent: Handle)
    requires WellFormed(d) && node < |d| && newParent < |d| && node != newParent
    ensures forall c | c in d[newParent].inner :: c !in d[node].inner
  {
    forall c | c in d[newParent].inner
      ensures c !in d[node].inner
    {
      if c in d[node].inner { OneParent(d, c, node, newParent); }
    }
  }

  lemma MovedPointBack(d: seq<Tag>, d': seq<Tag>, node: Handle, newParent: Handle)
    requires WellFormed(d) && MovedLinks(d, d', node, newParent)
    ensures ChildrenPointBack(d')
  {
    MovedDisjoint(d, node, newParent);
    forall q, j | 0 <= q < |d'| && 0 <= j < |d'[q].inner|
      ensures d'[q].inner[j] < |d'| && d'[d'[q].inner[j]].parent == Some(q)
    {
      if q == newParent {
        MovedPointBackNew(d, d', node, newParent, j);
      } else {
        MovedPointBackOther(d, d', node, newParent, q, j);
      }
    }
  }

  /** The children of the new parent, old and moved, point back to it. */
  lemma MovedPointBackNew(d: seq<Tag>, d': seq<Tag>, node: Handle, newParent: Handle, j: nat)
    requires WellFormed(d) && MovedLinks(d, d', node, newParent)
    requires forall c | c in d[newParent].inner :: c !in d[node].inner
    requires j < |d'[newParent].inner|
    ensures d'[newParent].inner[j] < |d'| && d'[d'[newParent].inner[j]].parent == Some(newParent)
  {
    var old_ := d[newParent].inner;
    var moved := d[node].inner;
    var c := d'[newParent].inner[j];
    if j < |old_| {
      assert c == old_[j] && c in old_;
      assert c !in moved;
    } else {
      assert c == moved[j - |old_|] && c in moved;
    }
  }

  /** The children of any other node keep pointing back to it. */
  lemma MovedPointBackOther(d: seq<Tag>, d': seq<Tag>, node: Handle, newParent: Handle, q: Handle, j: nat)
    requires WellFormed(d) && MovedLinks(d, d', node, newParent)
    requires q < |d'| && q != newParent && j < |d'[q].inner|
    ensures d'[q].inner[j] < |d'| && d'[d'[q].inner[j]].parent == Some(q)
  {
    var c := d'[q].inner[j];
    assert q != node;
    assert c == d[q].inner[j];
    assert d[c].parent == Some(q);
    ListedOnlyUnderParent(d, c, node);
  }

  lemma MovedListed(d: seq<Tag>, d': seq<Tag>, node: Handle, newParent: Handle)
    requires WellFormed(d) && MovedLinks(d, d', node, newParent)
    ensures ParentsListChild(d')
  {
    var moved := d[node].inner;
    forall c | 0 <= c < |d'| && d'[c].parent.Some?
      ensures d'[c].parent.value < |d'| && c in d'[d'[c].parent.value].inner
    {
      if c !in moved {
        var q := d[c].parent.value;
        assert c in d[q].inner;
        if q == node { assert false; }
      }
    }
  }

  lemma ReparentedShape(d: seq<Tag>, node: Handle, newParent: Handle)
    requires node < |d| && newParent < |d|
    ensures var d' := Reparented(d, node, newParent); var moved := d[node].inner;
      && SameIdentities(d, d') && KeepsContents(d, d')
      && (forall y | 0 <= y < |d| :: d'[y].inner ==
            (if y == newParent then (if node == newParent then moved else d[newParent].inner + moved)
             else if y == node then [] else d[y].inner))
      && (forall y | 0 <= y < |d| :: d'[y].parent == (if y in moved then Some(newParent) else d[y].parent))
  {
    var moved := d[node].inner;
    var d1 := d[node := d[node].(inner := [])];
    var d2 := d1[newParent := d1[newParent].(inner := d1[newParent].inner + moved)];
    assert forall y | 0 <= y < |d| ::
      d2[y].parent == d[y].parent && d2[y].kind == d[y].kind && d2[y].name == d[y].name
      && d2[y].template == d[y].template && d2[y].attributes == d[y].attributes
      && d2[y].textContents == d[y].textContents;
    AdoptedShape(d2, moved, newParent);
  }

  /** Adopting changes parent fields only. */
  lemma AdoptedShape(d: seq<Tag>, cs: seq<Handle>, p: Handle)
    ensures var a := Adopted(d, cs, p);
      forall y | 0 <= y < |d| :: a[y] == d[y].(parent := if y in cs then Some(p) else d[y].parent)
  {
  }

  /** Moving the children of a node to the node itself changes nothing. */
  lemma ReparentedToSelf(d: seq<Tag>, node: Handle)
    requires WellFormed(d) && node < |d|
    ensures Reparented(d, node, node) == d
  {
    var moved := d[node].inner;
    var d' := Reparented(d, node, node);
    ReparentedShape(d, node, node);
    forall y | 0 <= y < |d|
      ensures d'[y] == d[y]
    {
      if y in moved {
        var k :| 0 <= k < |moved| && moved[k] == y;
        assert d[y].parent == Some(node);
      }
    }
  }

  lemma ReparentedSpec(d: seq<Tag>, node: Handle, newParent: Handle)
    requires WellFormed(d) && node < |d| && newParent < |d|
    ensures var d' := Reparented(d, node, newParent); var moved := d[node].inner;
      && WellFormed(d') && SameIdentities(d, d') && KeepsContents(d, d')
      && (node == newParent ==> d' == d)
      && (node != newParent ==> d'[node].inner == [] && d'[newParent].inner == d[newParent].inner + moved)
      && (forall c | c in moved :: c < |d'| && d'[c].parent == Some(newParent))
      && (forall x | 0 <= x < |d| && x !in moved :: d'[x].parent == d[x].parent)
      && (forall x | 0 <= x < |d| && x != node && x != newParent :: d'[x].inner == d[x].inner)
  {
    var moved := d[node].inner;
    var d' := Reparented(d, node, newParent);
    ReparentedShape(d, node, newParent);
    forall c | c in moved
      ensures c < |d|
    {
      var k :| 0 <= k < |moved| && moved[k] == c;
    }
    if node == newParent {
      ReparentedToSelf(d, node);
    } else {
      LinksAfterReparent(d, d', node, newParent);
    }
  }
}
