/** An already-parsed DDS-XML document: elements with a local tag (the namespace
    URI is already stripped), attributes, ordered children and an optional
    source line. Parent links are replaced by the chain of ancestors that a
    traversal carries down, so "the parent of an element" is the last node of
    that chain. */
module XmlTree {
  import opened Wrappers

  datatype Node = Node(tag: string, attrs: map<string, string>, children: seq<Node>, line: Option<int>)

  /** One input file: its name and its tree, or None when parsing it raised. */
  datatype SourceFile = SourceFile(name: string, root: Option<Node>)

  /** An element reached by a descendant search, with its ancestors from the
      document root (first) down to its parent (last). */
  datatype Visit = Visit(elem: Node, ancestors: seq<Node>)

  /** `elem.attrib.get(key)` read as a condition: a missing attribute and an
      empty value are both "absent". */
  function Attr(n: Node, key: string): (r: Option<string>)
    ensures r.Some? <==> key in n.attrs && n.attrs[key] != ""
    ensures r.Some? ==> r.value == n.attrs[key]
  {
    if key in n.attrs && n.attrs[key] != "" then Some(n.attrs[key]) else None
  }

  function Name(n: Node): Option<string> {
    Attr(n, "name")
  }

  /** True when the visited element has a parent whose tag is `tag`. */
  predicate ParentTagIs(v: Visit, tag: string) {
    |v.ancestors| > 0 && v.ancestors[|v.ancestors| - 1].tag == tag
  }

  /** A descendant search (`findall` with a `.//` path): the proper descendants of `n` in document order,
      each with its ancestor chain; `ancestors` is the chain above `n`. */
  function Descendants(n: Node, ancestors: seq<Node>): seq<Visit>
    decreases n, 1
  {
    ChildVisits(n, ancestors, 0)
  }

  /** The children of `n` from index `i` on, each followed by its own
      descendants. */
  function ChildVisits(n: Node, ancestors: seq<Node>, i: nat): seq<Visit>
    requires i <= |n.children|
    decreases n, 0, |n.children| - i
  {
    if i == |n.children| then []
    else
      var c := n.children[i];
      [Visit(c, ancestors + [n])] + Descendants(c, ancestors + [n]) + ChildVisits(n, ancestors, i + 1)
  }

  /** Every element found below `n` lies strictly below it: its ancestor
      chain extends the chain of `n` with `n` itself, and its last ancestor
      (its parent) really has it as a child. */
  lemma {:induction false} DescendantShape(n: Node, ancestors: seq<Node>, v: Visit)
    requires v in Descendants(n, ancestors)
    ensures |v.ancestors| > |ancestors|
    ensures v.ancestors[..|ancestors|] == ancestors && v.ancestors[|ancestors|] == n
    ensures v.elem in v.ancestors[|v.ancestors| - 1].children
    decreases n, 1
  {
    ChildVisitShape(n, ancestors, 0, v);
  }

  lemma {:induction false} ChildVisitShape(n: Node, ancestors: seq<Node>, i: nat, v: Visit)
    requires i <= |n.children|
    requires v in ChildVisits(n, ancestors, i)
    ensures |v.ancestors| > |ancestors|
    ensures v.ancestors[..|ancestors|] == ancestors && v.ancestors[|ancestors|] == n
    ensures v.elem in v.ancestors[|v.ancestors| - 1].children
    decreases n, 0, |n.children| - i
  {
    var c := n.children[i];
    var inner := ancestors + [n];
    if v == Visit(c, inner) {
    } else if v in Descendants(c, inner) {
      DescendantShape(c, inner, v);
      assert v.ancestors[..|ancestors|] == v.ancestors[..|inner|][..|ancestors|];
    } else {
      ChildVisitShape(n, ancestors, i + 1, v);
    }
  }

  /** A search started below a found element finds only elements that the
      search from the top finds too. */
  lemma {:induction false} DescendantsNest(n: Node, ancestors: seq<Node>, v: Visit, w: Visit)
    requires v in Descendants(n, ancestors)
    requires w in Descendants(v.elem, v.ancestors)
    ensures w in Descendants(n, ancestors)
    decreases n, 1
  {
    ChildVisitsNest(n, ancestors, 0, v, w);
  }

  lemma {:induction false} ChildVisitsNest(n: Node, ancestors: seq<Node>, i: nat, v: Visit, w: Visit)
    requires i <= |n.children|
    requires v in ChildVisits(n, ancestors, i)
    requires w in Descendants(v.elem, v.ancestors)
    ensures w in ChildVisits(n, ancestors, i)
    decreases n, 0, |n.children| - i
  {
    var c := n.children[i];
    var inner := ancestors + [n];
    if v == Visit(c, inner) {
    } else if v in Descendants(c, inner) {
      DescendantsNest(c, inner, v, w);
    } else {
      ChildVisitsNest(n, ancestors, i + 1, v, w);
    }
  }
}
