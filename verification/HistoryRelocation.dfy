/**
 Report history relocation in tools/build_security_patch_summary.py: blocks of one document are copied
 into another, whose relationship table gives the same links other ids.

 An XML element is a value: tag, attributes by qualified name, text, tail and children.  How the target
 document picks ids is left open, up to the one law that an id never changes its meaning.
 */
module HistoryRelocation {
  import opened Wrappers

  const W := "{http://schemas.openxmlformats.org/wordprocessingml/2006/main}"
  const R := "{http://schemas.openxmlformats.org/officeDocument/2006/relationships}"
  const RID := R + "id"
  const HYPERLINK_REL := "http://schemas.openxmlformats.org/officeDocument/2006/relationships/hyperlink"
  const UNSUPPORTED: set<string> :=
    {W + "sectPr", W + "drawing", W + "pict", W + "object", W + "altChunk", W + "footnoteReference",
     W + "endnoteReference", W + "commentRangeStart", W + "commentRangeEnd", W + "commentReference"}

  datatype Node = Node(tag: string, attributes: map<string, string>, text: Option<string>, tail: Option<string>, children: seq<Node>)

  datatype Relationship = Relationship(reltype: string, target: string, external: bool)

  type Rels = map<string, Relationship>

  // ---------------------------------------------------------------- fingerprints

  predicate IsRelationshipKey(key: string) { R <= key }

  predicate IsExternalLink(rel: Relationship) { rel.reltype == HYPERLINK_REL && rel.external }

  /** Relationships are used only as the r:id of a hyperlink, and only for external links that the table knows. */
  predicate LinksAreKnown(node: Node, rels: Rels) {
    forall key :: key in node.attributes && IsRelationshipKey(key) ==>
                    && key == RID && node.tag == W + "hyperlink"
                    && node.attributes[key] in rels && IsExternalLink(rels[node.attributes[key]])
  }

  /** The attributes with every relationship id replaced by the target it stands for. */
  function Resolved(node: Node, rels: Rels): map<string, string>
    requires LinksAreKnown(node, rels)
  {
    map key | key in node.attributes ::
      if IsRelationshipKey(key) then rels[node.attributes[key]].target else node.attributes[key]
  }

  /** The projection of an element, or None when it holds something that cannot be carried over. */
  function Project(node: Node, rels: Rels): Option<Node>
    decreases node, 1
  {
    if node.tag in UNSUPPORTED || !LinksAreKnown(node, rels) then None
    else
      match ProjectAll(node.children, rels)
      case None => None
      case Some(children) => Some(Node(node.tag, Resolved(node, rels), node.text, node.tail, children))
  }

  function ProjectAll(nodes: seq<Node>, rels: Rels): Option<seq<Node>>
    decreases nodes, 0
  {
    if nodes == [] then Some([])
    else
      match Project(nodes[0], rels)
      case None => None
      case Some(first) =>
        match ProjectAll(nodes[1..], rels)
        case None => None
        case Some(rest) => Some([first] + rest)
  }

  /** A retained block is a paragraph or a table that can be projected. */
  function Fingerprint(node: Node, rels: Rels): Option<Node> {
    if node.tag == W + "p" || node.tag == W + "tbl" then Project(node, rels) else None
  }

  /** The element and everything in it. */
  function Elements(node: Node): seq<Node>
    decreases node, 1
  {
    [node] + AllElements(node.children)
  }

  function AllElements(nodes: seq<Node>): seq<Node>
    decreases nodes, 0
  {
    if nodes == [] then [] else Elements(nodes[0]) + AllElements(nodes[1..])
  }

  /** Nothing in it depends on its package but hyperlinks, by r:id, to external targets that the table knows. */
  ghost predicate Portable(x: Node, rels: Rels) {
    && x.tag != W + "sectPr" && x.tag != W + "drawing" && x.tag != W + "pict" && x.tag != W + "object"
    && x.tag != W + "altChunk" && x.tag != W + "footnoteReference" && x.tag != W + "endnoteReference"
    && x.tag != W + "commentRangeStart" && x.tag != W + "commentRangeEnd" && x.tag != W + "commentReference"
    && forall key :: key in x.attributes && R <= key ==>
         && key == R + "id" && x.tag == W + "hyperlink" && x.attributes[key] in rels
         && rels[x.attributes[key]].reltype == HYPERLINK_REL && rels[x.attributes[key]].external
  }

  lemma PortableExactly(x: Node, rels: Rels)
    ensures Portable(x, rels) <==> x.tag !in UNSUPPORTED && LinksAreKnown(x, rels)
  {
  }

  lemma {:induction false} ProjectedExactly(node: Node, rels: Rels)
    ensures Project(node, rels).Some? <==> forall x :: x in Elements(node) ==> Portable(x, rels)
    decreases node, 1
  {
    PortableExactly(node, rels);
    AllProjectedExactly(node.children, rels);
    assert forall x :: x in Elements(node) <==> x == node || x in AllElements(node.children);
  }

  lemma {:induction false} AllProjectedExactly(nodes: seq<Node>, rels: Rels)
    ensures ProjectAll(nodes, rels).Some? <==> forall x :: x in AllElements(nodes) ==> Portable(x, rels)
    decreases nodes, 0
  {
    if nodes != [] {
      ProjectedExactly(nodes[0], rels);
      AllProjectedExactly(nodes[1..], rels);
      assert forall x :: x in AllElements(nodes) <==> x in Elements(nodes[0]) || x in AllElements(nodes[1..]);
    }
  }

  /** A block has a fingerprint exactly when it is a paragraph or a table in which every element is portable. */
  lemma FingerprintedExactly(node: Node, rels: Rels)
    ensures Fingerprint(node, rels).Some? <==>
            (node.tag == W + "p" || node.tag == W + "tbl") && forall x :: x in Elements(node) ==> Portable(x, rels)
    ensures Fingerprint(node, rels).Some? ==> Fingerprint(node, rels) == Project(node, rels)
  {
    ProjectedExactly(node, rels);
  }

  ghost predicate SameAttributes(a: Node, ra: Rels, b: Node, rb: Rels)
    requires LinksAreKnown(a, ra) && LinksAreKnown(b, rb)
  {
    && a.attributes.Keys == b.attributes.Keys
    && forall key :: key in a.attributes ==>
         if IsRelationshipKey(key) then ra[a.attributes[key]].target == rb[b.attributes[key]].target
         else a.attributes[key] == b.attributes[key]
  }

  lemma ResolvedCompares(a: Node, ra: Rels, b: Node, rb: Rels)
    requires LinksAreKnown(a, ra) && LinksAreKnown(b, rb)
    ensures Resolved(a, ra) == Resolved(b, rb) <==> SameAttributes(a, ra, b, rb)
  {
    var p, q := Resolved(a, ra), Resolved(b, rb);
    assert p.Keys == a.attributes.Keys && q.Keys == b.attributes.Keys;
    if p == q {
      forall key | key in a.attributes
        ensures if IsRelationshipKey(key) then ra[a.attributes[key]].target == rb[b.attributes[key]].target
                else a.attributes[key] == b.attributes[key]
      {
        assert key in p && p[key] == q[key];
      }
    }
  }

  /** Equal XML once links are compared by target: an independent reading of what a fingerprint stands for. */
  ghost predicate SameMeaning(a: Node, ra: Rels, b: Node, rb: Rels)
    requires Project(a, ra).Some? && Project(b, rb).Some?
    decreases a, 1
  {
    && a.tag == b.tag && a.text == b.text && a.tail == b.tail
    && SameAttributes(a, ra, b, rb)
    && SameMeanings(a.children, ra, b.children, rb)
  }

  ghost predicate SameMeanings(a: seq<Node>, ra: Rels, b: seq<Node>, rb: Rels)
    requires ProjectAll(a, ra).Some? && ProjectAll(b, rb).Some?
    decreases a, 0
  {
    |a| == |b| && (a != [] ==> SameMeaning(a[0], ra, b[0], rb) && SameMeanings(a[1..], ra, b[1..], rb))
  }

  lemma {:induction false} FingerprintsCompareMeaning(a: Node, ra: Rels, b: Node, rb: Rels)
    requires Project(a, ra).Some? && Project(b, rb).Some?
    ensures Project(a, ra) == Project(b, rb) <==> SameMeaning(a, ra, b, rb)
    decreases a, 1
  {
    FingerprintsCompareMeanings(a.children, ra, b.children, rb);
    ResolvedCompares(a, ra, b, rb);
  }

  lemma {:induction false} FingerprintsCompareMeanings(a: seq<Node>, ra: Rels, b: seq<Node>, rb: Rels)
    requires ProjectAll(a, ra).Some? && ProjectAll(b, rb).Some?
    ensures ProjectAll(a, ra) == ProjectAll(b, rb) <==> SameMeanings(a, ra, b, rb)
    ensures |ProjectAll(a, ra).value| == |a| && |ProjectAll(b, rb).value| == |b|
    decreases a, 0
  {
    Lengths(a, ra);
    Lengths(b, rb);
    if a != [] && b != [] {
      FingerprintsCompareMeaning(a[0], ra, b[0], rb);
      FingerprintsCompareMeanings(a[1..], ra, b[1..], rb);
      var p, q := ProjectAll(a, ra).value, ProjectAll(b, rb).value;
      assert p[0] == Project(a[0], ra).value && p[1..] == ProjectAll(a[1..], ra).value;
      assert q[0] == Project(b[0], rb).value && q[1..] == ProjectAll(b[1..], rb).value;
      assert p == [p[0]] + p[1..] && q == [q[0]] + q[1..];
    }
  }

  lemma {:induction false} Lengths(a: seq<Node>, rels: Rels)
    requires ProjectAll(a, rels).Some?
    ensures |ProjectAll(a, rels).value| == |a|
  {
    if a != [] { Lengths(a[1..], rels); }
  }

  // ---------------------------------------------------------------- growing relationship tables

  /** Every id keeps its meaning. */
  ghost predicate Extends(before: Rels, after: Rels) {
    forall id :: id in before ==> id in after && after[id] == before[id]
  }

  lemma {:induction false} ProjectionSurvivesGrowth(node: Node, before: Rels, after: Rels)
    requires Extends(before, after) && Project(node, before).Some?
    ensures Project(node, after) == Project(node, before)
    decreases node, 1
  {
    assert LinksAreKnown(node, after);
    assert Resolved(node, after) == Resolved(node, before);
    ProjectionsSurviveGrowth(node.children, before, after);
  }

  lemma {:induction false} ProjectionsSurviveGrowth(nodes: seq<Node>, before: Rels, after: Rels)
    requires Extends(before, after) && ProjectAll(nodes, before).Some?
    ensures ProjectAll(nodes, after) == ProjectAll(nodes, before)
    decreases nodes, 0
  {
    if nodes != [] {
      ProjectionSurvivesGrowth(nodes[0], before, after);
      ProjectionsSurviveGrowth(nodes[1..], before, after);
    }
  }

  lemma Single(node: Node, rels: Rels)
    ensures ProjectAll([node], rels) == if Project(node, rels).None? then None else Some([Project(node, rels).value])
  {
    assert [node][1..] == [];
    assert Project(node, rels).Some? ==> [Project(node, rels).value] + [] == [Project(node, rels).value];
  }

  lemma {:induction false} ProjectAllAppend(nodes: seq<Node>, node: Node, rels: Rels)
    requires ProjectAll(nodes, rels).Some? && Project(node, rels).Some?
    ensures ProjectAll(nodes + [node], rels) == Some(ProjectAll(nodes, rels).value + [Project(node, rels).value])
    decreases |nodes|
  {
    if nodes == [] {
      Single(node, rels);
      assert nodes + [node] == [node] && [] + [Project(node, rels).value] == [Project(node, rels).value];
    } else {
      assert (nodes + [node])[1..] == nodes[1..] + [node];
      ProjectAllAppend(nodes[1..], node, rels);
      var first, rest := Project(nodes[0], rels).value, ProjectAll(nodes[1..], rels).value;
      assert ([first] + rest) + [Project(node, rels).value] == [first] + (rest + [Project(node, rels).value]);
    }
  }

  lemma {:induction false} ProjectAllPrefix(nodes: seq<Node>, n: nat, rels: Rels)
    requires n < |nodes| && ProjectAll(nodes, rels).Some?
    ensures ProjectAll(nodes[..n], rels).Some? && Project(nodes[n], rels).Some?
    ensures ProjectAll(nodes[..n + 1], rels) == Some(ProjectAll(nodes[..n], rels).value + [Project(nodes[n], rels).value])
    decreases n
  {
    if n == 0 {
      Single(nodes[0], rels);
      assert nodes[..1] == [nodes[0]] && [] + [Project(nodes[0], rels).value] == [Project(nodes[0], rels).value];
    } else {
      ProjectAllPrefix(nodes[1..], n - 1, rels);
      assert nodes[..n][1..] == nodes[1..][..n - 1] && nodes[..n + 1][1..] == nodes[1..][..n];
      var first, rest, last := Project(nodes[0], rels).value, ProjectAll(nodes[1..][..n - 1], rels).value, Project(nodes[n], rels).value;
      assert ([first] + rest) + [last] == [first] + (rest + [last]);
    }
  }

  // ---------------------------------------------------------------- the target document

  ghost function LongestId(ids: set<string>): (n: nat)
    ensures forall id :: id in ids ==> |id| <= n
  {
    if ids == {} then 0
    else
      var id :| id in ids;
      var n := LongestId(ids - {id});
      if |id| > n then |id| else n
  }

  lemma SomeIdIsFree(ids: set<string>)
    ensures exists id: string :: id !in ids
  {
    var id := seq(LongestId(ids) + 1, _ => 'r');
    assert id !in ids;
  }

  class Document {
    var body: seq<Node>
    var rels: Rels

    /** An id for an external link: one that already means this target, or one that means nothing yet. */
    method RelateTo(target: string) returns (id: string)
      modifies this`rels
      ensures id in rels && rels[id] == Relationship(HYPERLINK_REL, target, true)
      ensures Extends(old(rels), rels) && rels.Keys == old(rels).Keys + {id}
    {
      var link := Relationship(HYPERLINK_REL, target, true);
      SomeIdIsFree(rels.Keys);
      id :| id !in rels || rels[id] == link;
      rels := rels[id := link];
    }

    /** The copied element, visited in document order, with each r:id renamed into this document's table. */
    method Relocate(node: Node, source: Rels) returns (copied: Node)
      requires Project(node, source).Some?
      modifies this`rels
      ensures Extends(old(rels), rels) && Project(copied, rels) == Project(node, source) && copied.tag == node.tag
      decreases node, 1
    {
      var attributes := node.attributes;
      if RID in attributes {
        assert IsRelationshipKey(RID);
        var id := RelateTo(source[attributes[RID]].target);
        attributes := attributes[RID := id];
      }
      ghost var own := rels;
      var children := RelocateAll(node.children, source);
      copied := Node(node.tag, attributes, node.text, node.tail, children);
      assert LinksAreKnown(copied, rels);
      assert Resolved(copied, rels) == Resolved(node, source);
    }

    method RelocateAll(nodes: seq<Node>, source: Rels) returns (copies: seq<Node>)
      requires ProjectAll(nodes, source).Some?
      modifies this`rels
      ensures Extends(old(rels), rels) && ProjectAll(copies, rels) == ProjectAll(nodes, source)
      decreases nodes, 0
    {
      copies := [];
      for i := 0 to |nodes|
        invariant Extends(old(rels), rels)
        invariant ProjectAll(nodes[..i], source).Some? && ProjectAll(copies, rels) == ProjectAll(nodes[..i], source)
      {
        ProjectAllPrefix(nodes, i, source);
        ghost var before := rels;
        var copy := Relocate(nodes[i], source);
        ProjectionsSurviveGrowth(copies, before, rels);
        ProjectAllAppend(copies, copy, rels);
        copies := copies + [copy];
      }
      assert nodes[..|nodes|] == nodes;
    }

    /**
     Appending a block puts one copy with an equal fingerprint before the last body element.  The final
     comparison never fails, and every block that was in the body before keeps its place and its fingerprint.
     */
    method AppendHistoryBlock(node: Node, source: Rels) returns (appended: bool)
      requires body != []
      modifies this
      ensures appended <==> Fingerprint(node, source).Some?
      ensures !appended ==> body == old(body) && rels == old(rels)
      ensures Extends(old(rels), rels)
      ensures appended ==>
                && |body| == |old(body)| + 1
                && body[..|old(body)| - 1] == old(body)[..|old(body)| - 1] && body[|old(body)|] == old(body)[|old(body)| - 1]
                && Fingerprint(body[|old(body)| - 1], rels) == Fingerprint(node, source)
      ensures forall block :: block in old(body) && Fingerprint(block, old(rels)).Some? ==>
                                Fingerprint(block, rels) == Fingerprint(block, old(rels))
    {
      var before := Fingerprint(node, source);
      if before.None? { return false; }
      ghost var table := rels;
      var copied := Relocate(node, source);
      body := body[..|body| - 1] + [copied] + body[|body| - 1..];
      forall block | block in old(body) && Fingerprint(block, table).Some?
        ensures Fingerprint(block, rels) == Fingerprint(block, table)
      {
        ProjectionSurvivesGrowth(block, table, rels);
      }
      assert Fingerprint(copied, rels) == before;
      appended := true;
    }

    /** A whole retained history: its blocks stand in order before the last element, all with their fingerprints. */
    method AppendHistory(blocks: seq<Node>, source: Rels) returns (n: nat)
      requires body != []
      modifies this
      ensures n <= |blocks| && (n < |blocks| ==> Fingerprint(blocks[n], source).None?)
      ensures |body| == |old(body)| + n && body[..|old(body)| - 1] == old(body)[..|old(body)| - 1]
      ensures body[|body| - 1] == old(body)[|old(body)| - 1]
      ensures forall i :: 0 <= i < n ==>
                            && Fingerprint(blocks[i], source).Some?
                            && Fingerprint(body[|old(body)| - 1 + i], rels) == Fingerprint(blocks[i], source)
      ensures Extends(old(rels), rels)
    {
      n := 0;
      while n < |blocks|
        invariant n <= |blocks| && |body| == |old(body)| + n
        invariant body[..|old(body)| - 1] == old(body)[..|old(body)| - 1]
        invariant body[|body| - 1] == old(body)[|old(body)| - 1]
        invariant forall i :: 0 <= i < n ==>
                                && Fingerprint(blocks[i], source).Some?
                                && Fingerprint(body[|old(body)| - 1 + i], rels) == Fingerprint(blocks[i], source)
        invariant Extends(old(rels), rels)
      {
        ghost var earlier := body;
        var appended := AppendHistoryBlock(blocks[n], source);
        if !appended { return; }
        assert forall i :: 0 <= i < |earlier| - 1 ==> body[i] == body[..|earlier| - 1][i] == earlier[i];
        n := n + 1;
      }
    }
  }
}
