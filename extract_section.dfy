/** The node-selection loop of `extractSection(markdown, headingText)`. The
    markdown parser and stringifier are outside this model: the loop runs
    over the top-level nodes of the parsed tree, given as a sequence, and the
    stringifier is a parameter. Capture starts at the first depth-3 heading
    whose title contains `headingText`, stays on across later depth-3 headings
    that contain it too, and stops before the first later depth-3 heading that
    does not; headings of any other depth and all other nodes neither start
    nor stop it. */
module SectionExtract {
  import opened Text
  import opened Outcomes

  /** A top-level node of the parsed document. A heading keeps its depth and,
      for each inline child, its `value` (`None` for a child without one, such
      as emphasis or a link, which `join` renders as the empty string). Any
      other node is opaque: it is selected or not, never looked into. */
  datatype Node =
    | Heading(depth: int, children: seq<Option<string>>)
    | Other(kind: string, content: string)

  /** The one way the routine fails. */
  datatype ExtractError = SectionNotFound(headingText: string) {
    function Message(): string {
      "Section \"" + headingText + "\" not found."
    }
  }

  /** What the routine returns: the rendering of the selected nodes, and the nodes. */
  datatype Extracted = Extracted(sectionMarkdown: string, sectionNodes: seq<Node>)

  /** `children.map((c) => c.value).join("")`: the children's values in order,
      a missing value counting as the empty string. */
  function Title(children: seq<Option<string>>): (r: string)
    ensures (forall i :: 0 <= i < |children| ==> children[i].None?) ==> r == []
    ensures |children| == 1 && children[0].Some? ==> r == children[0].value
  {
    if children == [] then []
    else (match children[0] case Some(v) => v case None => []) + Title(children[1..])
  }

  /** A title is assembled piece by piece: the title of two runs of children
      is the first run's title followed by the second's. */
  lemma {:induction false} TitleConcat(a: seq<Option<string>>, b: seq<Option<string>>)
    ensures Title(a + b) == Title(a) + Title(b)
  {
    if a != [] {
      assert (a + b)[1..] == a[1..] + b;
      TitleConcat(a[1..], b);
    } else {
      assert a + b == b;
    }
  }

  /** The node turns capture on (or leaves it on): a depth-3 heading whose title contains the query. */
  predicate StartsCapture(node: Node, headingText: string)
    ensures headingText == [] ==> (StartsCapture(node, headingText) <==> node.Heading? && node.depth == 3)
    ensures StartsCapture(node, headingText) ==> node.Heading? && |headingText| <= |Title(node.children)|
  {
    node.Heading? && node.depth == 3 && Includes(Title(node.children), headingText)
  }

  /** The node ends a running capture: a depth-3 heading whose title does not contain the query. */
  predicate StopsCapture(node: Node, headingText: string)
    ensures StopsCapture(node, headingText) <==> node.Heading? && node.depth == 3 && !StartsCapture(node, headingText)
    ensures StopsCapture(node, headingText) ==> headingText != []
  {
    node.Heading? && node.depth == 3 && !Includes(Title(node.children), headingText)
  }

  /** The first index at or after `i` whose node starts capture, or -1. */
  function FirstStartFrom(nodes: seq<Node>, headingText: string, i: nat): (r: int)
    requires i <= |nodes|
    ensures r == -1 || i <= r < |nodes|
    ensures r != -1 ==> StartsCapture(nodes[r], headingText)
    ensures forall j :: i <= j < (if r == -1 then |nodes| else r) ==> !StartsCapture(nodes[j], headingText)
    decreases |nodes| - i
  {
    if i == |nodes| then -1
    else if StartsCapture(nodes[i], headingText) then i
    else FirstStartFrom(nodes, headingText, i + 1)
  }

  /** The first index at or after `i` whose node stops capture, or the number of nodes. */
  function CaptureEndFrom(nodes: seq<Node>, headingText: string, i: nat): (r: nat)
    requires i <= |nodes|
    ensures i <= r <= |nodes|
    ensures r == |nodes| || StopsCapture(nodes[r], headingText)
    ensures forall j :: i <= j < r ==> !StopsCapture(nodes[j], headingText)
    decreases |nodes| - i
  {
    if i == |nodes| then |nodes|
    else if StopsCapture(nodes[i], headingText) then i
    else CaptureEndFrom(nodes, headingText, i + 1)
  }

  /** `nodes[s..e]` is the captured run: `s` is the first node that starts
      capture, no node strictly between `s` and `e` stops it, and `e` is the
      end of the sequence or a node that stops it. */
  ghost predicate IsSelection(nodes: seq<Node>, headingText: string, s: int, e: int) {
    0 <= s < e <= |nodes|
    && StartsCapture(nodes[s], headingText)
    && (forall j :: 0 <= j < s ==> !StartsCapture(nodes[j], headingText))
    && (forall j :: s < j < e ==> !StopsCapture(nodes[j], headingText))
    && (e == |nodes| || StopsCapture(nodes[e], headingText))
  }

  /** The nodes the loop collects, as a function of its input. */
  function SelectedNodes(nodes: seq<Node>, headingText: string): (r: Result<seq<Node>, ExtractError>)
    ensures r.Failure? <==> forall i :: 0 <= i < |nodes| ==> !StartsCapture(nodes[i], headingText)
    ensures r.Failure? ==> r.error == SectionNotFound(headingText)
    ensures r.Success? ==> exists s, e :: IsSelection(nodes, headingText, s, e) && r.value == nodes[s..e]
  {
    var s := FirstStartFrom(nodes, headingText, 0);
    if s == -1 then Failure(SectionNotFound(headingText))
    else
      var e := CaptureEndFrom(nodes, headingText, s + 1);
      assert IsSelection(nodes, headingText, s, e);
      Success(nodes[s..e])
  }

  /** There is only one captured run: whatever bounds satisfy `IsSelection`
      are the ones the selection uses. */
  lemma SelectionUnique(nodes: seq<Node>, headingText: string, s: int, e: int)
    requires IsSelection(nodes, headingText, s, e)
    ensures SelectedNodes(nodes, headingText) == Success(nodes[s..e])
  {
    var s' := FirstStartFrom(nodes, headingText, 0);
    assert s' == s;
    var e' := CaptureEndFrom(nodes, headingText, s + 1);
    assert e' == e;
  }

  /** Every depth-3 heading in a selection contains the query, later ones
      included: such a heading never ends the capture. The selection is never
      empty and begins with the first heading that starts it. */
  lemma CapturedHeadingsMatch(nodes: seq<Node>, headingText: string)
    requires SelectedNodes(nodes, headingText).Success?
    ensures var sel := SelectedNodes(nodes, headingText).value;
      sel != [] && StartsCapture(sel[0], headingText)
      && forall i :: 0 <= i < |sel| && sel[i].Heading? && sel[i].depth == 3 ==> Includes(Title(sel[i].children), headingText)
  {
    var sel := SelectedNodes(nodes, headingText).value;
    var s, e :| IsSelection(nodes, headingText, s, e) && sel == nodes[s..e];
    forall i | 0 <= i < |sel| && sel[i].Heading? && sel[i].depth == 3
      ensures Includes(Title(sel[i].children), headingText)
    {
      assert sel[i] == nodes[s + i];
    }
  }

  /** Where the elements of a sequence go when `x` is inserted at `k`. */
  lemma InsertedAt<T>(a: seq<T>, k: nat, x: T)
    requires k <= |a|
    ensures var b := a[..k] + [x] + a[k..];
      |b| == |a| + 1 && b[k] == x
      && (forall j :: 0 <= j < k ==> b[j] == a[j])
      && (forall j :: k < j < |b| ==> b[j] == a[j - 1])
  {
  }

  /** Slices of a sequence with `x` inserted at `k`, against slices of the original. */
  lemma InsertedSlices<T>(a: seq<T>, k: nat, x: T, s: nat, e: nat)
    requires s <= e <= |a| && k <= |a|
    ensures var b := a[..k] + [x] + a[k..];
      (s < k <= e ==> b[s..e + 1] == a[s..k] + [x] + a[k..e])
      && (k <= s ==> b[s + 1..e + 1] == a[s..e])
      && (e < k ==> b[s..e] == a[s..e])
  {
    var b := a[..k] + [x] + a[k..];
    if s < k <= e {
      assert b[s..e + 1] == a[s..k] + [x] + a[k..e] by {
        forall j | 0 <= j < e + 1 - s ensures b[s..e + 1][j] == (a[s..k] + [x] + a[k..e])[j] {
          if s + j < k {
            assert b[s + j] == a[s + j];
          } else if s + j > k {
            assert b[s + j] == a[s + j - 1];
          }
        }
      }
    }
  }

  /** A node that does not stop capture (anything but a depth-3 heading
      without the query, so also a depth-3 heading with it) inserted inside
      the captured run, after its first node or right before the node that
      ends it, joins the selection at that place; nothing else changes. */
  lemma InsertInsideCapture(nodes: seq<Node>, headingText: string, s: int, e: int, k: nat, x: Node)
    requires IsSelection(nodes, headingText, s, e)
    requires s < k <= e
    requires !StopsCapture(x, headingText)
    ensures SelectedNodes(nodes[..k] + [x] + nodes[k..], headingText) == Success(nodes[s..k] + [x] + nodes[k..e])
  {
    var longer := nodes[..k] + [x] + nodes[k..];
    InsertedAt(nodes, k, x);
    InsertedSlices(nodes, k, x, s, e);
    assert forall j :: s < j < e + 1 ==> !StopsCapture(longer[j], headingText) by {
      forall j | s < j < e + 1 ensures !StopsCapture(longer[j], headingText) {
        if j > k {
          assert longer[j] == nodes[j - 1];
        }
      }
    }
    assert IsSelection(longer, headingText, s, e + 1);
    SelectionUnique(longer, headingText, s, e + 1);
  }

  /** Inserting a node outside the selection changes nothing, provided that a
      node inserted before the selection does not start capture. A node
      inserted after the one that ends the selection may be anything, another
      matching depth-3 heading included, because the loop has already broken
      off: only the first section is ever returned. */
  lemma InsertOutsideCapture(nodes: seq<Node>, headingText: string, s: int, e: int, k: nat, x: Node)
    requires IsSelection(nodes, headingText, s, e)
    requires (k <= s && !StartsCapture(x, headingText)) || e < k <= |nodes|
    ensures SelectedNodes(nodes[..k] + [x] + nodes[k..], headingText) == Success(nodes[s..e])
  {
    if k <= s {
      InsertBeforeSelection(nodes, headingText, s, e, k, x);
    } else {
      InsertAfterSelection(nodes, headingText, s, e, k, x);
    }
  }

  lemma InsertBeforeSelection(nodes: seq<Node>, headingText: string, s: int, e: int, k: nat, x: Node)
    requires IsSelection(nodes, headingText, s, e)
    requires k <= s
    requires !StartsCapture(x, headingText)
    ensures SelectedNodes(nodes[..k] + [x] + nodes[k..], headingText) == Success(nodes[s..e])
  {
    var longer := nodes[..k] + [x] + nodes[k..];
    InsertedAt(nodes, k, x);
    InsertedSlices(nodes, k, x, s, e);
    assert longer[s + 1] == nodes[s];
    assert e < |nodes| ==> longer[e + 1] == nodes[e];
    assert forall j :: 0 <= j < s + 1 ==> !StartsCapture(longer[j], headingText) by {
      forall j | 0 <= j < s + 1 ensures !StartsCapture(longer[j], headingText) {
        if j > k {
          assert longer[j] == nodes[j - 1];
        }
      }
    }
    assert forall j :: s + 1 < j < e + 1 ==> !StopsCapture(longer[j], headingText) by {
      forall j | s + 1 < j < e + 1 ensures !StopsCapture(longer[j], headingText) {
        assert longer[j] == nodes[j - 1];
      }
    }
    assert IsSelection(longer, headingText, s + 1, e + 1);
    SelectionUnique(longer, headingText, s + 1, e + 1);
  }

  /** Any node inserted after the node that ends the selection leaves it as it was. */
  lemma InsertAfterSelection(nodes: seq<Node>, headingText: string, s: int, e: int, k: nat, x: Node)
    requires IsSelection(nodes, headingText, s, e)
    requires e < k <= |nodes|
    ensures SelectedNodes(nodes[..k] + [x] + nodes[k..], headingText) == Success(nodes[s..e])
  {
    var longer := nodes[..k] + [x] + nodes[k..];
    InsertedAt(nodes, k, x);
    InsertedSlices(nodes, k, x, s, e);
    assert IsSelection(longer, headingText, s, e);
    SelectionUnique(longer, headingText, s, e);
  }

  /** When nothing starts capture, inserting a node that does not start it
      either leaves the section not found. */
  lemma InsertKeepsNotFound(nodes: seq<Node>, headingText: string, k: nat, x: Node)
    requires SelectedNodes(nodes, headingText).Failure?
    requires k <= |nodes| && !StartsCapture(x, headingText)
    ensures SelectedNodes(nodes[..k] + [x] + nodes[k..], headingText).Failure?
  {
    var longer := nodes[..k] + [x] + nodes[k..];
    forall j | 0 <= j < |longer| ensures !StartsCapture(longer[j], headingText) {
      if j < k {
        assert longer[j] == nodes[j];
      } else if j > k {
        assert longer[j] == nodes[j - 1];
      }
    }
  }

  /** Both behaviours on one document: the `##` heading titled like the
      query is skipped, the later `### Sizing details` keeps capture on, the
      `## Other` heading is swept in, and `### Colors` ends the section. */
  lemma SizingExample()
    ensures var nodes := [Heading(2, [Some("Sizing")]), Heading(3, [Some("Sizing")]), Other("paragraph", "a"),
                          Heading(3, [Some("Sizing details")]), Heading(2, [Some("Other")]),
                          Heading(3, [Some("Colors")]), Other("paragraph", "b")];
      SelectedNodes(nodes, "Sizing") == Success(nodes[1..5])
  {
    var nodes := [Heading(2, [Some("Sizing")]), Heading(3, [Some("Sizing")]), Other("paragraph", "a"),
                  Heading(3, [Some("Sizing details")]), Heading(2, [Some("Other")]),
                  Heading(3, [Some("Colors")]), Other("paragraph", "b")];
    assert Title(nodes[1].children) == "Sizing";
    assert Title(nodes[3].children) == "Sizing details";
    assert "Sizing" <= "Sizing details";
    assert Title(nodes[5].children) == "Colors";
    assert !Includes("Colors", "Sizing") by {
      IncludesAt("Colors", "Sizing");
      forall i | 0 <= i <= |"Colors"| ensures !("Sizing" <= "Colors"[i..]) {
        if i == 0 {
          assert "Colors"[0] != "Sizing"[0];
        } else {
          assert |"Colors"[i..]| < |"Sizing"|;
        }
      }
    }
    assert IsSelection(nodes, "Sizing", 1, 5);
    SelectionUnique(nodes, "Sizing", 1, 5);
  }

  /** The loop of `extractSection` over the parsed tree's top-level nodes,
      followed by the empty-selection check and the rendering of the result. */
  method ExtractSection(children: seq<Node>, headingText: string, stringify: seq<Node> -> string)
    returns (r: Result<Extracted, ExtractError>)
    ensures r.Failure? <==> forall i :: 0 <= i < |children| ==> !StartsCapture(children[i], headingText)
    ensures r.Failure? ==> r.error == SectionNotFound(headingText)
    ensures r.Success? ==> SelectedNodes(children, headingText) == Success(r.value.sectionNodes)
    ensures r.Success? ==> r.value.sectionMarkdown == stringify(r.value.sectionNodes)
  {
    var sectionNodes: seq<Node> := [];
    var capture := false;
    ghost var start := 0;

    var i := 0;
    while i < |children|
      invariant 0 <= i <= |children|
      invariant !capture ==> sectionNodes == [] && forall j :: 0 <= j < i ==> !StartsCapture(children[j], headingText)
      invariant capture ==> 0 <= start < i && StartsCapture(children[start], headingText)
      invariant capture ==> forall j :: 0 <= j < start ==> !StartsCapture(children[j], headingText)
      invariant capture ==> forall j :: start < j < i ==> !StopsCapture(children[j], headingText)
      invariant capture ==> sectionNodes == children[start..i]
    {
      var node := children[i];
      if node.Heading? && node.depth == 3 {
        var title := Title(node.children);
        if Includes(title, headingText) {
          if !capture {
            start := i;
          }
          capture := true;
        } else if capture {
          break;
        }
      }
      if capture {
        assert children[start..i + 1] == children[start..i] + [node];
        sectionNodes := sectionNodes + [node];
      }
      i := i + 1;
    }

    if |sectionNodes| == 0 {
      return Failure(SectionNotFound(headingText));
    }
    SelectionUnique(children, headingText, start, i);
    return Success(Extracted(stringify(sectionNodes), sectionNodes));
  }
}
