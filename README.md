# HTML tree sink

This project models the document-tree sink of `src/parsing.rs`: the
`HtmlParser` that owns an `HtmlAst` and receives html5ever's `TreeSink`
commands (create a node, append it, insert it before a sibling, merge text,
add missing attributes, detach a node, move all children of a node). Every
node is a `Tag` record. A `Tag` has a name, an optional parent, an attribute
map, an ordered list of children (`inner`) and a text buffer.

The model has four modules:

- `Tags` (`tags.dfy`): the `Tag` record, `Tag::default`, `Tag::named`, the
  records for the other node kinds, and the
  "add each attribute whose name is missing" merge.
- `Tree` (`tree.dfy`): the node table as a value. A handle is an index into a
  `seq<Tag>`. The document is handle 0. `WellFormed` has four parts:
  - every child's `parent` points back to the node whose `inner` lists it;
  - every parent lists its children;
  - no list holds a handle twice;
  - template contents belong to exactly the `<template>` elements.

  Each mutation is a function from the old table to the new one, with lemmas
  for what it does, what it leaves alone, and that it keeps the table
  well-formed.
- `Sink` (`sink.dfy`): class `HtmlParser` with a `data: seq<Tag>` field. Its
  methods change the table in place, using loops to find a child, merge
  attributes and re-point moved children. Each method is proved to leave
  exactly the table that the matching `Tree` function describes.
- `Scenarios` (`scenarios.dfy`): short command sequences, with what the
  resulting tree is proved to be.

The source leaves most `TreeSink` methods without a body and states their
behaviour in its doc comments (`src/parsing.rs:114-206`). The model
implements that documented contract. Two of the source's bodies do not
compile as given:

- `get_document` returns `self`;
- `elem_name` is empty.

The model uses handle 0 for the document and reads the name field for
`elem_name`.

Two further choices:

- `HtmlParser::new` leaves the node table empty
  (`src/parsing.rs:82-88`). The model's constructor creates the document node
  at handle 0, because every other operation needs a document to point at.
- `append_based_on_parent_node`: the doc comment (`src/parsing.rs:143-145`)
  says `element` is the one "used if a parent node exists". html5ever calls
  this hook when foster-parenting, and its own sinks insert the child before
  `element` in that case. The model does the same. When `element` has a
  parent, the child is inserted before `element`. Otherwise it is appended
  to `prev_element`.

Calls into html5ever, byte decoding and reference counting are not part of
the model. `Rc`/`Weak` parent links become handles. Borrowed `&str` slices
become owned strings.

## Model

| member | source | states |
|---|---|---|
| Tags.Default | src/parsing.rs:45-55 | the default tag is an element with empty name, no parent, no attributes, no children and empty text |
| Tags.Named | src/parsing.rs:36-43 | `Tag::named(n)` has name `n` and is otherwise exactly the default tag |
| Tags.MergeMissing | src/parsing.rs:188-191 | the merged attribute names are the old names plus the new ones, and no existing value is overwritten |
| Tags.MergeMissingFirstWins | src/parsing.rs:188-191 | a name missing from the element gets the value of its first occurrence in the list |
| Tags.MergeMissingIdempotent | src/parsing.rs:188-191 | adding the same attribute list a second time changes nothing |
| Tags.FirstMergeWins | src/parsing.rs:188-191 | after two calls naming the same attribute, the existing value stays, and otherwise the first call's value |
| Tree.SameNode | src/parsing.rs:172-173 | two handles are the same node exactly when they are equal; its partner is the fresh-handle clause of `CreateElement`, `CreateComment` and `CreatePi`, which makes every new node differ from all earlier ones |
| Tree.OneParent | src/parsing.rs:28-34 | in a well-formed table no node is listed under two different parents |
| Tree.NewElementSpec | src/parsing.rs:114-128 | a new element is parentless and childless with the merged attributes; a `template` element also gets a fresh document node as its contents and nothing else gets one; the table stays well-formed |
| Tree.DetachedSpec | src/parsing.rs:202-203 | a detached node has no parent and is in no children list; its former siblings keep their order; no other link changes; the table stays well-formed |
| Tree.DetachedUnparented | src/parsing.rs:202-203 | detaching a node that has no parent leaves the table unchanged |
| Tree.AppendedSpec | src/parsing.rs:136-141 | the child becomes the last child after the unchanged earlier children and points back to the parent; raw text becomes a new text node holding it; no other node's attributes, text or parent change. When both the child and the last child are text, the text is concatenated into the last child, no child is added, and no other node changes |
| Tree.AppendedFrame | src/parsing.rs:136-141 | appending changes no children list but the parent's |
| Tree.AppendedNoAdjacentText | src/parsing.rs:136-138 | appending never creates two adjacent text children |
| Tree.TextRunsCoalesce | src/parsing.rs:136-138 | two runs of text appended to a childless node end up as one text child holding both runs |
| Tree.PlacedBeforeSpec | src/parsing.rs:178-184 | a parentless node, or a new text node holding raw text, is placed immediately before the sibling, and no other node's attributes, text, parent or other children list change; or its text merges into a previous sibling that is text and no other node changes |
| Tree.InsertedBeforeSpec | src/parsing.rs:178-186 | the node is first removed from any old parent and then placed before the sibling in the sibling's parent; the table stays well-formed |
| Tree.InsertedBeforeNoAdjacentText | src/parsing.rs:180-183 | inserting a node that does not come from the sibling's parent (or raw text) before a non-text sibling never creates two adjacent text children under that parent |
| Tree.ReparentedSpec | src/parsing.rs:205-206 | the node's children list becomes empty; the new parent's list becomes its old list followed by the moved children in order; each moved child points to the new parent; nothing else changes |
| Tree.ReparentedToSelf | src/parsing.rs:205-206 | moving a node's children to the node itself leaves the table as it was |
| Sink.FindChild | src/parsing.rs:202-203 | the search returns the first position of the child in the list |
| Sink.MergeAttrs | src/parsing.rs:188-191 | the attribute loop produces the map `MergeMissing` describes |
| Sink.HtmlParser.constructor | src/parsing.rs:81-89 | a new parser holds a well-formed table made of the document node alone |
| Sink.HtmlParser.Finish | src/parsing.rs:95-97 | `finish` hands back the parser's table, and it is well-formed |
| Sink.HtmlParser.GetDocument | src/parsing.rs:101-104 | the document is handle 0, a node of kind document |
| Sink.HtmlParser.ElemName | src/parsing.rs:106-112 | returns the name of an element; calling it on anything else is excluded |
| Sink.HtmlParser.CreateElement | src/parsing.rs:114-128 | the new element gets a handle no existing node has, and template contents when it is a template; every existing node keeps its kind, name and template contents |
| Sink.HtmlParser.CreateComment | src/parsing.rs:130-131 | adds a fresh, parentless comment node holding the text |
| Sink.HtmlParser.CreatePi | src/parsing.rs:133-134 | adds a fresh, parentless processing-instruction node with the given target and data |
| Sink.HtmlParser.Append | src/parsing.rs:136-141 | the table becomes the one `Appended` describes, stays well-formed, and gains no adjacent text under the parent |
| Sink.HtmlParser.AppendBasedOnParentNode | src/parsing.rs:143-151 | inserts before `element` when `element` has a parent, and otherwise appends to `prev_element` |
| Sink.HtmlParser.AppendBeforeSibling | src/parsing.rs:178-186 | the table becomes the one `InsertedBefore` describes, stays well-formed, and gains no adjacent text under the sibling's parent when the node comes from elsewhere |
| Sink.HtmlParser.AddAttrsIfMissing | src/parsing.rs:188-191 | only the target's attribute map changes, and it becomes the missing-names merge of the list |
| Sink.HtmlParser.RemoveFromParent | src/parsing.rs:202-203 | the table becomes the one `Detached` describes and stays well-formed |
| Sink.HtmlParser.ReparentChildren | src/parsing.rs:205-206 | the table becomes the one `Reparented` describes and stays well-formed |
| Sink.HtmlParser.GetTemplateContents | src/parsing.rs:167-170 | for a template element, returns the handle recorded at its creation, a document node |
| Scenarios.DistinctCreations | src/parsing.rs:172-173 | a handle is the same node as itself, and two elements created alike are not the same node |
| Scenarios.TemplateContentsStable | src/parsing.rs:116-119 | the template contents handle stays the same through later appends, attribute merges and detaching |
| Scenarios.ElementWithTwoRuns | src/parsing.rs:136-141 | appending an element to the document and then two text runs to it gives one element child holding one text child with both runs |
| Scenarios.HtmlWithTwoTextRuns | src/parsing.rs:136-141 | the same gives a well-formed tree when driven through the parser's methods |

## Left out

- `parse_text` and `html_parser_opts` (`src/parsing.rs:62-75`) call html5ever's driver and read bytes. Both are foreign library calls. The tokenizer and the insertion-mode logic that choose the commands are outside the sink.
- `append_doctype_to_document` and `set_quirks_mode` (`src/parsing.rs:153-159`, `176`) only store document-level settings that no other operation reads. With `drop_doctype: true` (`src/parsing.rs:65`) the driver suppresses doctypes anyway.
- `parse_error`, `mark_script_already_started`, `pop`, `associate_with_form`, `set_current_line`, `complete_script` and `is_mathml_annotation_xml_integration_point` (`src/parsing.rs:99`, `161-165`, `193-200`, `208-219`) have empty or constant bodies. They never touch the tree, so the model has no counterpart for them.
- `ElementFlags` and qualified names: an element name is a plain string. A template is recognised by the name `template` alone, with no namespace check.
- Attribute values are plain strings. The single-variant `HtmlAttribute` enum wrapper is dropped.
- Tree.WellFormed: acyclicity of parent links is not part of the invariant. Like the source, the sink does not prevent cycles: appending a node to itself, moving a node's children into one of those children, or inserting an ancestor of `sibling` before it makes a node its own ancestor. html5ever's tree builder never issues such calls, and the model does not exclude them.
- Sink.HtmlParser.Finish: the source's `finish(self)` consumes the parser. The model's `Finish` hands back the table and leaves the parser usable. Dafny has no move semantics for class objects.
- Tree.AppendedNoAdjacentText: only the parent that receives the child is covered. No adjacency invariant holds for the whole tree, because detaching a node that stands between two text nodes leaves them adjacent, and the source does not merge them there.
- Sink.HtmlParser.AppendBeforeSibling: the no-adjacent-text guarantee is stated only when the moved node comes from a different parent, because removing it from the same parent can join two text siblings.
- Sink.HtmlParser.ReparentChildren: no text merge happens where the moved children meet the new parent's old last child. The source's contract asks for none.
