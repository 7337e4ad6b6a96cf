/** The already-parsed document the BeautifulSoup calls of src/scraper.py
    work on: elements with a name, attributes as written in the markup, the
    whitespace-split `class` list and children, and text nodes. Covers `SoupStrainer` restriction, the
    document-order walk behind `find_all`/`find`, `.parent`, and `.text`. */
module HtmlTree {
  import opened Wrappers
  import opened OrderedMaps

  /** `attrs` are the attribute values as the parser reports them, `class`
      included as one unsplit string; `classes` is the list a `Tag` holds for
      `class` once built, the words of that string. */
  datatype Node =
    | Element(name: string, attrs: OrderedMap<string, string>, classes: seq<string>, children: seq<Node>)
    | Text(text: string)

  /** A node reached by a walk, with the elements enclosing it from the
      outermost one inwards. An empty chain means the node sits directly
      under the soup object. */
  datatype Visit = Visit(node: Node, ancestors: seq<Node>)

  /** What `.parent` gives: the soup object, an element, or `None` (only the
      soup itself has no parent). The soup object is a `Tag` too. */
  datatype Parent = NoParent | SoupRoot | ParentElement(element: Node)

  predicate IsTag(p: Parent) {
    !p.NoParent?
  }

  function ParentOf(v: Visit): Parent {
    if |v.ancestors| == 0 then SoupRoot
    else ParentElement(v.ancestors[|v.ancestors| - 1])
  }

  function GrandparentOf(v: Visit): Parent {
    if |v.ancestors| == 0 then NoParent
    else if |v.ancestors| == 1 then SoupRoot
    else ParentElement(v.ancestors[|v.ancestors| - 2])
  }

  /** Every node of `forest` and everything below it, in document order
      (each node before its descendants, siblings left to right); the
      traversal behind `.descendants`. `DescendantsVisitEveryNode` and
      `DescendantsAncestry` state what the walk yields. */
  function Descendants(forest: seq<Node>, ancestors: seq<Node>): (vs: seq<Visit>)
    ensures |vs| >= |forest|
    ensures |forest| > 0 ==> vs[0] == Visit(forest[0], ancestors)
    decreases forest
  {
    if |forest| == 0 then []
    else
      var n := forest[0];
      var below := if n.Element? then Descendants(n.children, ancestors + [n]) else [];
      [Visit(n, ancestors)] + below + Descendants(forest[1..], ancestors)
  }

  /** Every node of the forest is visited, under the given chain. */
  lemma {:induction false} DescendantsVisitEveryNode(forest: seq<Node>, ancestors: seq<Node>)
    ensures forall i :: 0 <= i < |forest| ==> Visit(forest[i], ancestors) in Descendants(forest, ancestors)
    decreases forest
  {
    if |forest| > 0 {
      DescendantsVisitEveryNode(forest[1..], ancestors);
      forall i | 1 <= i < |forest|
        ensures Visit(forest[i], ancestors) in Descendants(forest, ancestors)
      {
        assert forest[i] == forest[1..][i - 1];
      }
    }
  }

  /** Every visit's chain extends the given one, and the visits that add
      nothing to it are the forest's own nodes. */
  lemma {:induction false} DescendantsAncestry(forest: seq<Node>, ancestors: seq<Node>)
    ensures forall v :: v in Descendants(forest, ancestors) ==>
      |v.ancestors| >= |ancestors| && v.ancestors[..|ancestors|] == ancestors
    ensures forall v :: v in Descendants(forest, ancestors) && |v.ancestors| == |ancestors| ==> v.node in forest
    decreases forest
  {
    if |forest| > 0 {
      var n := forest[0];
      var below := if n.Element? then Descendants(n.children, ancestors + [n]) else [];
      var rest := Descendants(forest[1..], ancestors);
      assert Descendants(forest, ancestors) == [Visit(n, ancestors)] + below + rest;
      if n.Element? {
        DescendantsAncestry(n.children, ancestors + [n]);
        forall v | v in below
          ensures |v.ancestors| > |ancestors| && v.ancestors[..|ancestors|] == ancestors
        {
          assert v.ancestors[..|ancestors| + 1] == ancestors + [n];
          assert v.ancestors[..|ancestors|] == (ancestors + [n])[..|ancestors|];
        }
      }
      DescendantsAncestry(forest[1..], ancestors);
      forall v | v in rest && |v.ancestors| == |ancestors|
        ensures v.node in forest
      {
        assert v.node in forest[1..];
      }
    }
  }

  /** A `SoupStrainer(name, attrs={attr: value})`. */
  datatype Strainer = Strainer(name: string, attr: string, value: string)

  /** Whether an element passes the strainer. BeautifulSoup tests the
      strainer on each start tag before the tag is built, against the
      attribute values as written, so `class` is compared as the whole
      unsplit string: `class="Layout-sidebar x"` does not pass a strainer
      for `Layout-sidebar`. */
  predicate Matches(s: Strainer, n: Node) {
    && n.Element?
    && n.name == s.name
    && Get(n.attrs, s.attr) == Some(s.value)
  }

  /** `BeautifulSoup(html, parse_only=s)`: the outermost elements passing
      the strainer, in document order, each with everything inside it.
      Text and elements outside them are dropped. */
  function Strain(forest: seq<Node>, s: Strainer): (kept: seq<Node>)
    ensures forall i :: 0 <= i < |kept| ==> Matches(s, kept[i])
    decreases forest
  {
    if |forest| == 0 then []
    else
      var n := forest[0];
      var here := if !n.Element? then [] else if Matches(s, n) then [n] else Strain(n.children, s);
      here + Strain(forest[1..], s)
  }

  /** A visit the strainer keeps: it passes the strainer and no element
      enclosing it, below the first `depth` of its chain, does. */
  predicate IsOutermost(s: Strainer, v: Visit, depth: nat) {
    Matches(s, v.node) && forall j :: depth <= j < |v.ancestors| ==> !Matches(s, v.ancestors[j])
  }

  /** The nodes of the outermost matching visits, order kept: an independent
      description of what `Strain` keeps. */
  function Outermost(vs: seq<Visit>, s: Strainer, depth: nat): seq<Node> {
    if |vs| == 0 then []
    else (if IsOutermost(s, vs[0], depth) then [vs[0].node] else []) + Outermost(vs[1..], s, depth)
  }

  lemma {:induction false} OutermostAppend(x: seq<Visit>, y: seq<Visit>, s: Strainer, depth: nat)
    ensures Outermost(x + y, s, depth) == Outermost(x, s, depth) + Outermost(y, s, depth)
  {
    if |x| > 0 {
      assert (x + y)[0] == x[0];
      assert (x + y)[1..] == x[1..] + y;
      OutermostAppend(x[1..], y, s, depth);
    } else {
      assert x + y == y;
    }
  }

  /** Visits inside an element at position `depth` of their chain: when that
      element passes the strainer none of them is kept, and when it does not
      the element can be dropped from consideration. */
  lemma {:induction false} OutermostBelow(vs: seq<Visit>, s: Strainer, depth: nat, n: Node)
    requires AllInside(vs, depth, n)
    ensures Matches(s, n) ==> Outermost(vs, s, depth) == []
    ensures !Matches(s, n) ==> Outermost(vs, s, depth) == Outermost(vs, s, depth + 1)
  {
    if |vs| > 0 {
      assert vs[0] in vs;
      assert forall v :: v in vs[1..] ==> v in vs;
      OutermostBelow(vs[1..], s, depth, n);
      if Matches(s, n) {
        assert !IsOutermost(s, vs[0], depth);
      } else {
        var v := vs[0];
        assert IsOutermost(s, v, depth) <==> IsOutermost(s, v, depth + 1) by {
          if IsOutermost(s, v, depth + 1) {
            forall j | depth <= j < |v.ancestors|
              ensures !Matches(s, v.ancestors[j])
            {
              if j == depth {
                assert v.ancestors[j] == n;
              }
            }
          }
        }
      }
    }
  }

  /** `Strain` keeps exactly the outermost matching elements of the walk, in
      document order: every matching element with no matching element around
      it is kept, and nothing else. */
  lemma {:induction false} StrainIsOutermost(forest: seq<Node>, s: Strainer, ancestors: seq<Node>)
    ensures Strain(forest, s) == Outermost(Descendants(forest, ancestors), s, |ancestors|)
    decreases forest
  {
    if |forest| > 0 {
      var n := forest[0];
      var below := if n.Element? then Descendants(n.children, ancestors + [n]) else [];
      var rest := Descendants(forest[1..], ancestors);
      var depth := |ancestors|;
      OutermostAppend([Visit(n, ancestors)] + below, rest, s, depth);
      OutermostAppend([Visit(n, ancestors)], below, s, depth);
      assert Outermost([Visit(n, ancestors)], s, depth) == if Matches(s, n) then [n] else [] by {
        assert [Visit(n, ancestors)][1..] == [];
      }
      StrainIsOutermost(forest[1..], s, ancestors);
      if n.Element? {
        if !Matches(s, n) {
          StrainIsOutermost(n.children, s, ancestors + [n]);
        }
        OutermostInside(n, s, ancestors);
      }
    }
  }

  /** What `Outermost` keeps inside an element, given what it keeps from the
      element's children on their own. */
  lemma OutermostInside(n: Node, s: Strainer, ancestors: seq<Node>)
    requires n.Element?
    requires !Matches(s, n) ==>
      Strain(n.children, s) == Outermost(Descendants(n.children, ancestors + [n]), s, |ancestors| + 1)
    ensures Outermost(Descendants(n.children, ancestors + [n]), s, |ancestors|)
      == if Matches(s, n) then [] else Strain(n.children, s)
  {
    VisitsInside(n, ancestors);
    OutermostBelow(Descendants(n.children, ancestors + [n]), s, |ancestors|, n);
  }

  /** Every visit of `vs` lies inside `n`, found at position `depth` of its
      chain. */
  predicate AllInside(vs: seq<Visit>, depth: nat, n: Node) {
    forall v :: v in vs ==> |v.ancestors| > depth && v.ancestors[depth] == n
  }

  /** Every visit below an element has that element at its position in the
      chain. */
  lemma VisitsInside(n: Node, ancestors: seq<Node>)
    requires n.Element?
    ensures AllInside(Descendants(n.children, ancestors + [n]), |ancestors|, n)
  {
    var depth := |ancestors|;
    DescendantsAncestry(n.children, ancestors + [n]);
    forall v | v in Descendants(n.children, ancestors + [n])
      ensures |v.ancestors| > depth && v.ancestors[depth] == n
    {
      assert v.ancestors[..depth + 1] == ancestors + [n];
      assert v.ancestors[depth] == v.ancestors[..depth + 1][depth];
    }
  }

  /** The selections the scraper makes: a tag by name (`find_all("li")`), a
      tag by name and class (`find_all("span", attrs={"class": …})`), and a
      string by its exact text (`find(string=…)`). */
  datatype Selector = TagNamed(name: string) | TagWithClass(name: string, cls: string) | StringEquals(text: string)

  predicate Selects(sel: Selector, n: Node) {
    match sel
    case TagNamed(name) => n.Element? && n.name == name
    case TagWithClass(name, cls) => n.Element? && n.name == name && cls in n.classes
    case StringEquals(text) => n.Text? && n.text == text
  }

  /** The visits that `sel` selects, order kept. */
  function Select(vs: seq<Visit>, sel: Selector): (r: seq<Visit>)
    ensures |r| <= |vs|
    ensures forall i :: 0 <= i < |r| ==> Selects(sel, r[i].node)
  {
    if |vs| == 0 then []
    else
      var rest := Select(vs[1..], sel);
      if Selects(sel, vs[0].node) then [vs[0]] + rest else rest
  }

  /** A visit is selected exactly when it is among `vs` and `sel` selects it. */
  lemma {:induction false} SelectMembers(vs: seq<Visit>, sel: Selector)
    ensures forall v :: v in Select(vs, sel) <==> v in vs && Selects(sel, v.node)
  {
    if |vs| > 0 {
      SelectMembers(vs[1..], sel);
      assert forall v :: v in vs <==> v == vs[0] || v in vs[1..];
    }
  }

  /** `find_all` under a node whose children are `forest` and whose own
      chain of enclosing elements, itself included, is `ancestors`. */
  function FindAll(forest: seq<Node>, ancestors: seq<Node>, sel: Selector): seq<Visit> {
    Select(Descendants(forest, ancestors), sel)
  }

  /** `find_all` yields exactly the visits of the walk that `sel` selects. */
  lemma FindAllMembers(forest: seq<Node>, ancestors: seq<Node>, sel: Selector)
    ensures forall v :: v in FindAll(forest, ancestors, sel) <==> v in Descendants(forest, ancestors) && Selects(sel, v.node)
  {
    SelectMembers(Descendants(forest, ancestors), sel);
  }

  /** `find`: the first match, if any. */
  function Find(forest: seq<Node>, ancestors: seq<Node>, sel: Selector): (r: Option<Visit>)
    ensures r.None? <==> |FindAll(forest, ancestors, sel)| == 0
    ensures r.Some? ==> r.value == FindAll(forest, ancestors, sel)[0]
  {
    var all := FindAll(forest, ancestors, sel);
    if |all| == 0 then None else Some(all[0])
  }

  /** Position `j` of `vs` is selected and no earlier position is. */
  predicate FirstSelectedAt(vs: seq<Visit>, sel: Selector, j: int) {
    0 <= j < |vs| && Selects(sel, vs[j].node) && forall k :: 0 <= k < j ==> !Selects(sel, vs[k].node)
  }

  /** The first visit `sel` selects comes before every other selected visit:
      nothing earlier in `vs` is selected. */
  lemma {:induction false} SelectFirst(vs: seq<Visit>, sel: Selector)
    requires |Select(vs, sel)| > 0
    ensures exists j :: FirstSelectedAt(vs, sel, j) && vs[j] == Select(vs, sel)[0]
  {
    if !Selects(sel, vs[0].node) {
      SelectFirst(vs[1..], sel);
      var j :| FirstSelectedAt(vs[1..], sel, j) && vs[1..][j] == Select(vs[1..], sel)[0];
      assert vs[j + 1] == vs[1..][j];
      forall k | 0 <= k < j + 1
        ensures !Selects(sel, vs[k].node)
      {
        if k > 0 {
          assert vs[k] == vs[1..][k - 1];
        }
      }
      assert FirstSelectedAt(vs, sel, j + 1);
    } else {
      assert FirstSelectedAt(vs, sel, 0);
    }
  }

  /** `find` gives the earliest match of the document-order walk, and `None`
      exactly when the walk holds no match. */
  lemma FindIsFirstMatch(forest: seq<Node>, ancestors: seq<Node>, sel: Selector)
    ensures var walk := Descendants(forest, ancestors);
      Find(forest, ancestors, sel).None? <==> forall v :: v in walk ==> !Selects(sel, v.node)
    ensures var walk := Descendants(forest, ancestors);
      Find(forest, ancestors, sel).Some? ==>
        exists j :: FirstSelectedAt(walk, sel, j) && walk[j] == Find(forest, ancestors, sel).value
  {
    var walk := Descendants(forest, ancestors);
    FindAllMembers(forest, ancestors, sel);
    if |FindAll(forest, ancestors, sel)| > 0 {
      SelectFirst(walk, sel);
    }
  }

  /** The strings of the text nodes among `vs`, concatenated. */
  function Strings(vs: seq<Visit>): string {
    if |vs| == 0 then ""
    else (if vs[0].node.Text? then vs[0].node.text else "") + Strings(vs[1..])
  }

  /** The children of an element; a text node has none. */
  function ChildrenOf(n: Node): seq<Node> {
    if n.Element? then n.children else []
  }

  /** `.text`: all the strings inside a node, in document order. */
  function TextOf(n: Node): string {
    match n
    case Text(t) => t
    case Element(_, _, _, children) => Strings(Descendants(children, [n]))
  }

  /** The texts of a sequence of sibling nodes, one after the other. */
  function ChildTexts(forest: seq<Node>): string {
    if |forest| == 0 then "" else TextOf(forest[0]) + ChildTexts(forest[1..])
  }

  /** Concatenation of visits concatenates their strings. */
  lemma {:induction false} StringsAppend(x: seq<Visit>, y: seq<Visit>)
    ensures Strings(x + y) == Strings(x) + Strings(y)
  {
    if |x| > 0 {
      assert (x + y)[0] == x[0];
      assert (x + y)[1..] == x[1..] + y;
      StringsAppend(x[1..], y);
    } else {
      assert x + y == y;
    }
  }

  /** The strings met on a walk are the texts of its top nodes, in order,
      whatever chain encloses them. */
  lemma {:induction false} StringsOfWalk(forest: seq<Node>, ancestors: seq<Node>)
    ensures Strings(Descendants(forest, ancestors)) == ChildTexts(forest)
    decreases forest
  {
    if |forest| > 0 {
      var n := forest[0];
      var below := if n.Element? then Descendants(n.children, ancestors + [n]) else [];
      var rest := Descendants(forest[1..], ancestors);
      StringsAppend([Visit(n, ancestors)] + below, rest);
      StringsAppend([Visit(n, ancestors)], below);
      assert Strings([Visit(n, ancestors)]) == if n.Text? then n.text else "";
      StringsOfWalk(forest[1..], ancestors);
      if n.Element? {
        StringsOfWalk(n.children, ancestors + [n]);
        StringsOfWalk(n.children, [n]);
      }
    }
  }

  /** `.text` of an element is the `.text` of its children, joined in order. */
  lemma TextOfElement(n: Node)
    requires n.Element?
    ensures TextOf(n) == ChildTexts(n.children)
  {
    StringsOfWalk(n.children, [n]);
  }

  /** A strainer that matches nothing in a document keeps nothing of it. */
  lemma {:induction false} StrainNothing(forest: seq<Node>, s: Strainer, ancestors: seq<Node>)
    requires forall v :: v in Descendants(forest, ancestors) ==> !Matches(s, v.node)
    ensures Strain(forest, s) == []
    decreases forest
  {
    if |forest| > 0 {
      var n := forest[0];
      if n.Element? {
        StrainNothing(n.children, s, ancestors + [n]);
      }
      StrainNothing(forest[1..], s, ancestors);
    }
  }

  /** In a strained soup every text node has an enclosing element, so its
      parent is an element and its grandparent is a `Tag` (an element or the
      soup object). */
  lemma TextInStrainedSoupHasTagAncestors(page: seq<Node>, s: Strainer, v: Visit)
    requires v in Descendants(Strain(page, s), [])
    requires v.node.Text?
    ensures |v.ancestors| >= 1
    ensures ParentOf(v).ParentElement? && IsTag(GrandparentOf(v))
  {
    DescendantsAncestry(Strain(page, s), []);
  }

  /** The walk of two forests side by side is the walk of the first followed
      by the walk of the second. */
  lemma {:induction false} DescendantsAppend(a: seq<Node>, b: seq<Node>, ancestors: seq<Node>)
    ensures Descendants(a + b, ancestors) == Descendants(a, ancestors) + Descendants(b, ancestors)
    decreases a
  {
    if |a| > 0 {
      assert (a + b)[0] == a[0];
      assert (a + b)[1..] == a[1..] + b;
      DescendantsAppend(a[1..], b, ancestors);
    } else {
      assert a + b == b;
    }
  }

  /** Selection distributes over concatenation. */
  lemma {:induction false} SelectAppend(x: seq<Visit>, y: seq<Visit>, sel: Selector)
    ensures Select(x + y, sel) == Select(x, sel) + Select(y, sel)
  {
    if |x| > 0 {
      assert (x + y)[0] == x[0];
      assert (x + y)[1..] == x[1..] + y;
      SelectAppend(x[1..], y, sel);
    } else {
      assert x + y == y;
    }
  }

  /** The walk of a single node: the node, then the walk of its children. */
  lemma DescendantsOfOne(n: Node, ancestors: seq<Node>)
    ensures Descendants([n], ancestors) == [Visit(n, ancestors)] + Descendants(ChildrenOf(n), ancestors + [n])
  {
    assert [n][1..] == [];
    var empty: seq<Node> := [];
    assert Descendants(empty, ancestors) == [];
    assert Descendants(empty, ancestors + [n]) == [];
  }

  /** `find_all` over side-by-side forests: the matches of the first, then
      those of the second. */
  lemma FindAllAppend(a: seq<Node>, b: seq<Node>, ancestors: seq<Node>, sel: Selector)
    ensures FindAll(a + b, ancestors, sel) == FindAll(a, ancestors, sel) + FindAll(b, ancestors, sel)
  {
    DescendantsAppend(a, b, ancestors);
    SelectAppend(Descendants(a, ancestors), Descendants(b, ancestors), sel);
  }

  /** `find_all` from a single node: the node itself if selected, then the
      matches below it. */
  lemma FindAllOfOne(n: Node, ancestors: seq<Node>, sel: Selector)
    ensures FindAll([n], ancestors, sel)
      == (if Selects(sel, n) then [Visit(n, ancestors)] else []) + FindAll(ChildrenOf(n), ancestors + [n], sel)
  {
    DescendantsOfOne(n, ancestors);
    SelectAppend([Visit(n, ancestors)], Descendants(ChildrenOf(n), ancestors + [n]), sel);
    assert [Visit(n, ancestors)][1..] == [];
  }
}
