/** What the documentation-path bookkeeping guarantees: the steps and the running maximum
    computed by `CalculateStepFromRoot`, the setters and getters of `DocumentInfo`, and the
    result of the documentation search. */
module DocumentProperties {

  import opened StdString
  import opened ParsedDocument

  // ---------------------------------------------------------------------------------------
  // Steps and the running maximum

  /** The running maximum is the largest of its start value and all the steps it has seen:
      it never decreases, bounds every step and is one of them or the start value. */
  lemma {:induction false} MaxStepIsMaximum(m: u32, path: seq<Coordinate>)
    ensures m <= MaxStep(m, path)
    ensures forall k :: 0 <= k < |path| ==> path[k].step <= MaxStep(m, path)
    ensures MaxStep(m, path) == m || exists k :: 0 <= k < |path| && MaxStep(m, path) == path[k].step
  {
    if path != [] {
      var front := path[..|path| - 1];
      MaxStepIsMaximum(m, front);
      assert forall k :: 0 <= k < |front| ==> front[k] == path[k];
    }
  }

  lemma {:induction false} PrefixIndexSumMonotone(path: seq<Coordinate>, a: nat, b: nat)
    requires a <= b <= |path|
    ensures PrefixIndexSum(path, a) <= PrefixIndexSum(path, b)
    decreases b
  {
    if a < b {
      PrefixIndexSumMonotone(path, a, b - 1);
    }
  }

  /** Where no 32-bit addition wraps, a later entry's new step is its old step plus the
      inclusive prefix sum `index[0] + ... + index[k]`. */
  lemma StepWithoutOverflow(path: seq<Coordinate>, k: nat)
    requires 0 < k < |path|
    requires path[k].step as int + PrefixIndexSum(path, k + 1) < U32_LIMIT
    ensures Stepped(path)[k].step as int == path[k].step as int + PrefixIndexSum(path, k + 1)
    ensures Stepped(path)[0] == path[0]
  {
    assert Stepped(path)[k] == StepAt(path, k);
    assert Stepped(path)[0] == StepAt(path, 0);
  }

  /** With every step starting at 0 and the indices summing to less than 2^32, the steps
      are non-decreasing along the path, from the root to the leaf. */
  lemma StepsNondecreasingFromZero(path: seq<Coordinate>, a: nat, b: nat)
    requires forall k :: 0 <= k < |path| ==> path[k].step == 0
    requires PrefixIndexSum(path, |path|) < U32_LIMIT
    requires a <= b < |path|
    ensures Stepped(path)[a].step <= Stepped(path)[b].step
  {
    PrefixIndexSumMonotone(path, b + 1, |path|);
    if b > 0 {
      StepWithoutOverflowFromZero(path, b);
    }
    if a > 0 {
      PrefixIndexSumMonotone(path, a + 1, b + 1);
      StepWithoutOverflowFromZero(path, a);
    } else {
      assert Stepped(path)[0] == StepAt(path, 0);
    }
  }

  lemma StepWithoutOverflowFromZero(path: seq<Coordinate>, k: nat)
    requires 0 < k < |path| && path[k].step == 0
    requires PrefixIndexSum(path, k + 1) < U32_LIMIT
    ensures Stepped(path)[k].step as int == PrefixIndexSum(path, k + 1)
  {
    StepWithoutOverflow(path, k);
  }

  /** The calculation leaves the indices, hence their prefix sums, as they were. */
  lemma {:induction false} PrefixIndexSumOfStepped(path: seq<Coordinate>, n: nat)
    requires n <= |path|
    ensures PrefixIndexSum(Stepped(path), n) == PrefixIndexSum(path, n)
  {
    if n > 0 {
      PrefixIndexSumOfStepped(path, n - 1);
    }
  }

  /** A second calculation adds the prefix sums once more. */
  lemma SecondCalculation(path: seq<Coordinate>, k: nat)
    requires 0 < k < |path|
    ensures Stepped(Stepped(path))[k].step == Wrap(path[k].step as int + 2 * PrefixIndexSum(path, k + 1))
  {
    var once := Stepped(path);
    PrefixIndexSumOfStepped(path, k + 1);
    assert once[k] == StepAt(path, k);
    assert Stepped(once)[k] == StepAt(once, k);
    WrapAdd(path[k].step as int + PrefixIndexSum(path, k + 1), PrefixIndexSum(path, k + 1));
  }

  /** So the calculation is not idempotent: once some index up to a later entry is
      positive, and nothing wraps, calculating twice differs from calculating once. */
  lemma NotIdempotent(path: seq<Coordinate>, k: nat)
    requires 0 < k < |path|
    requires PrefixIndexSum(path, k + 1) > 0
    requires path[k].step as int + 2 * PrefixIndexSum(path, k + 1) < U32_LIMIT
    ensures Stepped(Stepped(path)) != Stepped(path)
  {
    SecondCalculation(path, k);
    StepWithoutOverflow(path, k);
  }

  /** A root with two nested entries: the steps are 0, 0 + 1 + 2 and 0 + 1 + 2 + 1. */
  lemma ThreeLevelPath()
    ensures Stepped([Coordinate(0, 0, 1), Coordinate(1, 0, 2), Coordinate(2, 0, 1)])
      == [Coordinate(0, 0, 1), Coordinate(1, 3, 2), Coordinate(2, 4, 1)]
    ensures MaxStep(0, Stepped([Coordinate(0, 0, 1), Coordinate(1, 0, 2), Coordinate(2, 0, 1)])) == 4
  {
    var path := [Coordinate(0, 0, 1), Coordinate(1, 0, 2), Coordinate(2, 0, 1)];
    assert Stepped(path)[0] == StepAt(path, 0);
    assert Stepped(path)[1] == StepAt(path, 1);
    assert Stepped(path)[2] == StepAt(path, 2);
    var stepped := [Coordinate(0, 0, 1), Coordinate(1, 3, 2), Coordinate(2, 4, 1)];
    assert Stepped(path) == stepped;
    assert MaxStep(0, stepped[..1]) == 0;
    assert MaxStep(0, stepped[..2]) == 3;
  }

  // ---------------------------------------------------------------------------------------
  // The record, seen from a caller

  /** Both constructors start with an empty path and a zero maximum step; the second one
      holds exactly the element it was given. */
  method Construction(element: ElementRef)
    returns (path1: seq<Coordinate>, max1: u32, element1: ElementRef,
             path2: seq<Coordinate>, max2: u32, element2: ElementRef)
    ensures path1 == [] && max1 == 0 && element1 == NullElement
    ensures path2 == [] && max2 == 0 && element2 == element
  {
    var plain := new DocumentInfo();
    path1 := plain.GetPath();
    max1 := plain.GetMaxStep();
    element1 := plain.GetParsedElement();
    var given := new DocumentInfo.FromElement(element);
    path2 := given.GetPath();
    max2 := given.GetMaxStep();
    element2 := given.GetParsedElement();
  }

  /** The getters return what the setters stored, in either order: neither setter touches
      the other field. */
  method SettersRoundTrip(p: seq<Coordinate>, m: u32)
    returns (pathFirst: seq<Coordinate>, maxFirst: u32, pathLast: seq<Coordinate>, maxLast: u32)
    ensures pathFirst == p && maxFirst == m
    ensures pathLast == p && maxLast == m
  {
    var info := new DocumentInfo();
    info.UpdatePath(p);
    info.SetMaxStep(m);
    pathFirst := info.GetPath();
    maxFirst := info.GetMaxStep();
    info := new DocumentInfo();
    info.SetMaxStep(m);
    info.UpdatePath(p);
    pathLast := info.GetPath();
    maxLast := info.GetMaxStep();
  }

  /** A fresh record given a path: afterwards the maximum step is the widest step of the
      path, and the path keeps its length, depths and indices. */
  method StepsOfFreshRecord(p: seq<Coordinate>) returns (steps: seq<Coordinate>, max: u32)
    ensures |steps| == |p|
    ensures forall k :: 0 <= k < |p| ==> steps[k].depth == p[k].depth && steps[k].index == p[k].index
    ensures forall k :: 0 <= k < |p| ==> steps[k].step <= max
    ensures max == 0 || exists k :: 0 <= k < |p| && max == steps[k].step
    ensures p == [] ==> steps == [] && max == 0
  {
    var info := new DocumentInfo();
    info.UpdatePath(p);
    info.CalculateStepFromRoot();
    steps := info.GetPath();
    max := info.GetMaxStep();
    MaxStepIsMaximum(0, steps);
  }

  // ---------------------------------------------------------------------------------------
  // Trimming

  /** A document made only of `\r`, `\n` and `\t` trims to the empty string. */
  lemma TrimAllDelimiters(doc: string)
    requires AllDelimiters(doc)
    ensures TrimDelimiters(doc) == []
  {
    assert FindFirstNotOf(doc, Delimiters).None?;
  }

  /** A document whose first and last characters are not `\r`, `\n` or `\t` (a space, say)
      is left as it is. */
  lemma TrimKeepsOtherEnds(doc: string)
    requires doc != [] && doc[0] !in Delimiters && doc[|doc| - 1] !in Delimiters
    ensures TrimDelimiters(doc) == doc
  {
    assert FindFirstNotOf(doc, Delimiters) == Some(0) && doc[0..] == doc;
    assert FindLastNotOf(doc, Delimiters) == Some(|doc| - 1) && doc[..|doc|] == doc;
  }

  // ---------------------------------------------------------------------------------------
  // The comparison loop

  lemma {:induction false} ComparedWriteOfSelf(doc: string, compared: seq<string>)
    ensures ComparedWrite(doc, doc, compared) == doc
    decreases compared
  {
    if compared != [] && Find(compared[0], doc).None? {
      ComparedWriteOfSelf(doc, compared[1..]);
    }
  }

  /** Only the first compared string decides: the document is written exactly when there is
      a first compared string and it does not contain the document; otherwise `prior`
      stays. */
  lemma ComparedWriteFirstDecides(doc: string, prior: string, compared: seq<string>)
    ensures ComparedWrite(doc, prior, compared)
      == if compared != [] && !Contains(compared[0], doc) then doc else prior
  {
    if compared != [] && Find(compared[0], doc).None? {
      ComparedWriteOfSelf(doc, compared[1..]);
    }
  }

  /** The loop writes the document even when a later compared string contains it. */
  lemma WritesDespiteLaterMatch(doc: string, prior: string, compared: seq<string>, k: nat)
    requires 0 < k < |compared| && Contains(compared[k], doc)
    requires !Contains(compared[0], doc)
    ensures ComparedWrite(doc, prior, compared) == doc
  {
    ComparedWriteFirstDecides(doc, prior, compared);
  }

  // ---------------------------------------------------------------------------------------
  // The search over the tree

  /** Moving what was already moved from leaves the same thing behind. */
  lemma MovedFromTwice(compared: seq<string>, move: PackMove)
    ensures MovedFrom(MovedFrom(compared, move), move) == MovedFrom(compared, move)
  {
  }

  /** With no compared strings the out-document is never written, anywhere in the tree. */
  lemma {:induction false} NoComparedNeverWrites(node: DocNode, prior: string, move: PackMove)
    ensures SearchResult(node, prior, [], move) == prior
    decreases node
  {
    if node.document == [] {
      NoComparedNeverWritesChildren(node.children, prior, move);
    }
  }

  lemma {:induction false} NoComparedNeverWritesChildren(children: seq<DocNode>, prior: string, move: PackMove)
    ensures VisitChildren(children, prior, [], move) == prior
    decreases children
  {
    if children != [] {
      assert MovedFrom([], move) == [];
      NoComparedNeverWrites(children[0], prior, move);
      NoComparedNeverWritesChildren(children[1..], prior, move);
    }
  }

  /** A node whose raw document is non-empty but made only of delimiters trims to the empty
      string, which every compared string contains: the out-document is not written and
      the children are not searched. */
  lemma DelimiterDocumentNeverWrites(node: DocNode, prior: string, compared: seq<string>, move: PackMove)
    requires node.document != [] && AllDelimiters(node.document)
    ensures SearchResult(node, prior, compared, move) == prior
  {
    TrimAllDelimiters(node.document);
    if compared != [] {
      FindEmpty(compared[0]);
    }
    ComparedWriteFirstDecides(TrimDelimiters(node.document), prior, compared);
  }

  /** A node with a non-empty raw document never recurses: its children do not matter. */
  lemma DocumentedNodeIgnoresChildren(document: string, children: seq<DocNode>, prior: string,
                                      compared: seq<string>, move: PackMove)
    requires document != []
    ensures SearchResult(DocNode(document, children), prior, compared, move)
      == SearchResult(DocNode(document, []), prior, compared, move)
  {
  }

  /** The compared strings the call for child `n` receives: the strings themselves for the
      first child, what a move left of them for every later one. */
  function ArgumentsOfChild(n: nat, compared: seq<string>, move: PackMove): seq<string> {
    if n == 0 then compared else MovedFrom(compared, move)
  }

  /** The children are searched left to right, so the last child has the final word over
      what the earlier ones left; when it is not the first child, it compares against what
      the moves left of the compared strings. */
  lemma {:induction false} LaterChildOverwrites(children: seq<DocNode>, last: DocNode, prior: string,
                                                compared: seq<string>, move: PackMove)
    ensures VisitChildren(children + [last], prior, compared, move)
      == SearchResult(last, VisitChildren(children, prior, compared, move),
                      ArgumentsOfChild(|children|, compared, move), move)
    decreases children
  {
    if children == [] {
      assert [] + [last] == [last];
      assert [last][1..] == [];
    } else {
      assert (children + [last])[1..] == children[1..] + [last];
      MovedFromTwice(compared, move);
      LaterChildOverwrites(children[1..], last, SearchResult(children[0], prior, compared, move),
                           MovedFrom(compared, move), move);
    }
  }

  /** In an empty string only the empty string is found. */
  lemma NothingFoundInEmpty(doc: string)
    requires doc != []
    ensures !Contains("", doc)
  {
  }

  /** With `std::string` arguments a later child compares against emptied strings, which
      contain no non-empty document: as long as the pack is not empty, it writes its trimmed
      document whatever the compared strings were. */
  lemma EmptiedArgumentsWriteEveryDocument(node: DocNode, prior: string, compared: seq<string>)
    requires node.document != [] && TrimDelimiters(node.document) != [] && compared != []
    ensures SearchResult(node, prior, MovedFrom(compared, MoveEmpties), MoveEmpties)
      == TrimDelimiters(node.document)
  {
    var emptied := MovedFrom(compared, MoveEmpties);
    assert emptied[0] == "";
    NothingFoundInEmpty(TrimDelimiters(node.document));
    ComparedWriteFirstDecides(TrimDelimiters(node.document), prior, emptied);
  }

  /** Two documented children under an undocumented root, compared against `["y"]`: with
      arguments whose move is a copy, the second child's "y" is found and "x" stays; with
      `std::string` arguments the second child compares against "" and writes "y". */
  lemma MovedArgumentsExample()
    ensures SearchResult(DocNode("", [DocNode("x", []), DocNode("y", [])]), "", ["y"], MoveCopies) == "x"
    ensures SearchResult(DocNode("", [DocNode("x", []), DocNode("y", [])]), "", ["y"], MoveEmpties) == "y"
  {
    TrimKeepsOtherEnds("x");
    TrimKeepsOtherEnds("y");
    assert OccursAt("y", "y", 0);
    assert !Contains("y", "x") by {
      assert "y"[0..1] != "x";
      assert FindFrom("y", "x", 1) == None;
      assert Find("y", "x") == None;
    }
    NothingFoundInEmpty("y");
    var children := [DocNode("x", []), DocNode("y", [])];
    assert children[1..] == [DocNode("y", [])];
    assert children[1..][1..] == [];
    ComparedWriteFirstDecides("x", "", ["y"]);
    ComparedWriteFirstDecides("y", "x", ["y"]);
    assert MovedFrom(["y"], MoveEmpties) == [""];
    ComparedWriteFirstDecides("y", "x", [""]);
  }

  /** The out-document is only ever assigned the trimmed document of some node of the
      subtree: afterwards it is the prior value or one of those. */
  lemma {:induction false} ResultFromSubtree(node: DocNode, prior: string, compared: seq<string>, move: PackMove)
    ensures var r := SearchResult(node, prior, compared, move);
      r == prior || r in SubtreeDocuments(node)
    decreases node
  {
    if node.document != [] {
      ComparedWriteFirstDecides(TrimDelimiters(node.document), prior, compared);
    } else {
      ResultFromChildren(node.children, prior, compared, move);
    }
  }

  lemma {:induction false} ResultFromChildren(children: seq<DocNode>, prior: string, compared: seq<string>, move: PackMove)
    ensures var r := VisitChildren(children, prior, compared, move);
      r == prior || r in ChildrenDocuments(children)
    decreases children
  {
    if children != [] {
      var first := SearchResult(children[0], prior, compared, move);
      ResultFromSubtree(children[0], prior, compared, move);
      ResultFromChildren(children[1..], first, MovedFrom(compared, move), move);
    }
  }
}
