/** The records of the document tree: a `Tag` per node, its attributes and the
    constructors `Tag::named` and `Tag::default`. */
module Tags {

  datatype Option<T> = None | Some(value: T)

  /** An index into the node table; equality of handles is node identity. */
  type Handle = nat

  /** The kinds of node the sink creates. Template contents are `Document` nodes. */
  datatype Kind = Document | Element | Text | Comment | ProcessingInstruction

  /** One attribute as the tree builder hands it over: a name and a string value. */
  datatype Attribute = Attribute(name: string, value: string)

  /** A node record. `parent` and the handles in `inner` index the same table;
      `template` holds the template contents of a `<template>` element. */
  datatype Tag = Tag(
    name: string,
    parent: Option<Handle>,
    attributes: map<string, string>,
    inner: seq<Handle>,
    textContents: string,
    kind: Kind,
    template: Option<Handle>)

  /** A record that is not yet linked into any tree and carries no content. */
  predicate IsBlank(t: Tag) {
    && t.parent == None
    && t.attributes == map[]
    && t.inner == []
    && t.textContents == ""
    && t.template == None
  }

  predicate IsTemplate(t: Tag) {
    t.kind == Element && t.name == "template"
  }

  /** `Tag::default`: an unnamed, unlinked, empty element record. */
  function Default(): (t: Tag)
    ensures IsBlank(t) && t.name == "" && t.kind == Element
  {
    Tag("", None, map[], [], "", Element, None)
  }

  /** `Tag::named`: the default record with only the name replaced. */
  function Named(name: string): (t: Tag)
    ensures IsBlank(t) && t.kind == Element && t.name == name
    ensures t.(name := "") == Default()
  {
    Default().(name := name)
  }

  function DocumentTag(): (t: Tag)
    ensures IsBlank(t) && t.kind == Document
  {
    Default().(kind := Document)
  }

  function TextTag(s: string): (t: Tag)
    ensures t.kind == Text && t.textContents == s && t.parent == None && t.inner == []
  {
    Default().(kind := Text, textContents := s)
  }

  function CommentTag(s: string): (t: Tag)
    ensures t.kind == Comment && t.textContents == s && t.parent == None && t.inner == []
  {
    Default().(kind := Comment, textContents := s)
  }

  /** A processing instruction keeps its target as the name and its data as the text. */
  function PiTag(target: string, data: string): (t: Tag)
    ensures t.kind == ProcessingInstruction && t.name == target && t.textContents == data
    ensures t.parent == None && t.inner == []
  {
    Default().(kind := ProcessingInstruction, name := target, textContents := data)
  }

  /** The attribute names occurring in `attrs`. */
  function Names(attrs: seq<Attribute>): set<string>
  {
    if attrs == [] then {} else {attrs[0].name} + Names(attrs[1..])
  }

  /** The value of the first attribute in `attrs` named `k`. */
  function FirstValue(attrs: seq<Attribute>, k: string): string
    requires k in Names(attrs)
  {
    if attrs[0].name == k then attrs[0].value else FirstValue(attrs[1..], k)
  }

  /** Adds each attribute of `attrs` whose name is not yet a key; an existing
      value, or one added earlier in the same list, is never overwritten. */
  function MergeMissing(m: map<string, string>, attrs: seq<Attribute>): (r: map<string, string>)
    ensures r.Keys == m.Keys + Names(attrs)
    ensures forall k | k in m :: r[k] == m[k]
    decreases |attrs|
  {
    if attrs == [] then m
    else
      var a := attrs[0];
      MergeMissing(if a.name in m then m else m[a.name := a.value], attrs[1..])
  }

  /** A name missing from the map receives the value of its first occurrence. */
  lemma {:induction false} MergeMissingFirstWins(m: map<string, string>, attrs: seq<Attribute>, k: string)
    requires k !in m && k in Names(attrs)
    ensures MergeMissing(m, attrs)[k] == FirstValue(attrs, k)
    decreases |attrs|
  {
    var a := attrs[0];
    var m' := if a.name in m then m else m[a.name := a.value];
    if a.name == k {
      assert m'[k] == a.value;
    } else {
      MergeMissingFirstWins(m', attrs[1..], k);
    }
  }

  /** Merging names that are all present already changes nothing. */
  lemma {:induction false} MergeMissingPresent(m: map<string, string>, attrs: seq<Attribute>)
    requires Names(attrs) <= m.Keys
    ensures MergeMissing(m, attrs) == m
  {
    if attrs != [] {
      MergeMissingPresent(m, attrs[1..]);
    }
  }

  /** Merging the same list a second time has no further effect. */
  lemma MergeMissingIdempotent(m: map<string, string>, attrs: seq<Attribute>)
    ensures MergeMissing(MergeMissing(m, attrs), attrs) == MergeMissing(m, attrs)
  {
    MergeMissingPresent(MergeMissing(m, attrs), attrs);
  }

  /** Two merges naming the same attribute: the first value stays. */
  lemma FirstMergeWins(m: map<string, string>, k: string, a: string, b: string)
    ensures MergeMissing(MergeMissing(m, [Attribute(k, a)]), [Attribute(k, b)])[k]
         == if k in m then m[k] else a
  {
    if k !in m {
      MergeMissingFirstWins(m, [Attribute(k, a)], k);
    }
  }
}
