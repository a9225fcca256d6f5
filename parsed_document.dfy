/** Documentation-path bookkeeping of the argument parser: the coordinates of a node on its
    path from the root, the per-node `DocumentInfo` record, and the helper that searches a
    parsed tree for a usable documentation string. */
module ParsedDocument {

  import opened StdString

  const U32_LIMIT: int := 0x1_0000_0000

  /** C++ `uint32_t`. */
  newtype u32 = x: int | 0 <= x < 0x1_0000_0000

  /** Unsigned 32-bit arithmetic: the value `x` wraps to. */
  function Wrap(x: nat): u32 {
    (x % U32_LIMIT) as u32
  }

  /** One entry of a path from the root: the tree depth, the accumulated step to the right
      of the root, and the position among the siblings of its sub-tree. */
  datatype Coordinate = Coordinate(depth: u32, step: u32, index: u32)

  /** Stands for the raw, non-owning `ParsedElement *`: null, or the element at an address. */
  datatype ElementRef = NullElement | ElementAt(address: nat)

  // ---------------------------------------------------------------------------------------
  // Specification of calculateStepFromRoot

  /** `index[0] + ... + index[n - 1]` over the entries of a path, as an unbounded sum. */
  function PrefixIndexSum(path: seq<Coordinate>, n: nat): nat
    requires n <= |path|
  {
    if n == 0 then 0 else PrefixIndexSum(path, n - 1) + path[n - 1].index as int
  }

  /** Entry `k` once its steps are calculated: entry 0 keeps its step, every later entry
      adds the indices of all entries up to and including itself, in 32-bit arithmetic. */
  function StepAt(path: seq<Coordinate>, k: nat): Coordinate
    requires k < |path|
  {
    if k == 0 then path[0]
    else path[k].(step := Wrap(path[k].step as int + PrefixIndexSum(path, k + 1)))
  }

  /** The whole path after calculateStepFromRoot. Only the steps change. */
  function Stepped(path: seq<Coordinate>): (r: seq<Coordinate>)
    ensures |r| == |path|
    ensures forall k :: 0 <= k < |r| ==> r[k].depth == path[k].depth && r[k].index == path[k].index
  {
    seq(|path|, k requires 0 <= k < |path| => StepAt(path, k))
  }

  function Max(a: u32, b: u32): u32 {
    if b > a then b else a
  }

  /** The running maximum `m_max_step` after looking at every step of `path` in order,
      starting from `m`. */
  function MaxStep(m: u32, path: seq<Coordinate>): u32 {
    if path == [] then m
    else Max(MaxStep(m, path[..|path| - 1]), path[|path| - 1].step)
  }

  // ---------------------------------------------------------------------------------------
  // Specification of searchChilden

  /** A parsed element, seen only through the documentation string of the grammar element
      it matched and its children in match order. */
  datatype DocNode = DocNode(document: string, children: seq<DocNode>)

  /** The characters trimmed from both ends of a document (spaces are not among them). */
  const Delimiters: string := "\r\n\t"

  predicate AllDelimiters(s: string) {
    forall k :: 0 <= k < |s| ==> s[k] in Delimiters
  }

  /** `r` is `doc` less a run of delimiters at each end, the first `lead` characters long. */
  predicate TrimmedAt(doc: string, r: string, lead: nat) {
    lead + |r| <= |doc| && r == doc[lead..lead + |r|]
    && AllDelimiters(doc[..lead]) && AllDelimiters(doc[lead + |r|..])
  }

  /** The two `erase` calls: drop everything before the first non-delimiter (everything, if
      there is none: `erase(0, npos)`), then everything after the last non-delimiter
      (everything, if there is none: `npos + 1` wraps to 0). */
  function TrimDelimiters(doc: string): (r: string)
    ensures r == [] || (r[0] !in Delimiters && r[|r| - 1] !in Delimiters)
    ensures exists lead: nat :: TrimmedAt(doc, r, lead)
  {
    match FindFirstNotOf(doc, Delimiters)
    case None =>
      assert TrimmedAt(doc, [], 0);
      []
    case Some(a) =>
      var front := doc[a..];
      match FindLastNotOf(front, Delimiters)
      case None => []
      case Some(b) =>
        assert doc[a + b + 1..] == front[b + 1..];
        assert TrimmedAt(doc, front[..b + 1], a);
        front[..b + 1]
  }

  /** `f_out_document` after the loop over the compared strings, which starts with `prior`:
      the loop returns at the first compared string that contains `doc` and writes `doc`
      for every one that does not. */
  function ComparedWrite(doc: string, prior: string, compared: seq<string>): string
    decreases compared
  {
    if compared == [] then prior
    else if Find(compared[0], doc).Some? then prior
    else ComparedWrite(doc, doc, compared[1..])
  }

  /** The arguments of `searchChilden`'s parameter pack are taken by value, and each child's
      call receives them through `std::forward`, which for a by-value pack is a move. What a
      moved-from argument holds depends on the template argument type: `MoveCopies` for a
      type whose move is a copy (`const char *`, say), `MoveEmpties` for `std::string`, whose
      moved-from value is empty in the common standard libraries. */
  datatype PackMove = MoveCopies | MoveEmpties

  /** The compared strings left behind once they have been moved into a call. */
  function MovedFrom(compared: seq<string>, move: PackMove): seq<string> {
    match move
    case MoveCopies => compared
    case MoveEmpties => seq(|compared|, _ => "")
  }

  /** `f_out_document` after `searchChilden` on `node`, starting from `prior`: a node with a
      document compares its trimmed document; a node without one searches its children. */
  function SearchResult(node: DocNode, prior: string, compared: seq<string>, move: PackMove): string
    decreases node
  {
    if node.document != [] then ComparedWrite(TrimDelimiters(node.document), prior, compared)
    else VisitChildren(node.children, prior, compared, move)
  }

  /** The children searched in order, each starting from what the previous one left. The
      first child's call receives the compared strings; every later one receives what the
      previous call's move left of them. */
  function VisitChildren(children: seq<DocNode>, prior: string, compared: seq<string>, move: PackMove): string
    decreases children
  {
    if children == [] then prior
    else VisitChildren(children[1..], SearchResult(children[0], prior, compared, move),
                       MovedFrom(compared, move), move)
  }

  /** The trimmed documents of the nodes of a subtree that carry one. */
  ghost function SubtreeDocuments(node: DocNode): set<string>
    decreases node
  {
    (if node.document != [] then {TrimDelimiters(node.document)} else {})
      + ChildrenDocuments(node.children)
  }

  ghost function ChildrenDocuments(children: seq<DocNode>): set<string>
    decreases children
  {
    if children == [] then {}
    else SubtreeDocuments(children[0]) + ChildrenDocuments(children[1..])
  }

  // ---------------------------------------------------------------------------------------
  // The record

  class DocumentInfo {
    var path: seq<Coordinate>
    var maxStep: u32
    var parsedElement: ElementRef

    /** `DocumentInfo()`: no element, an empty path, no step yet. */
    constructor ()
      ensures path == [] && maxStep == 0 && parsedElement == NullElement
    {
      path := [];
      maxStep := 0;
      parsedElement := NullElement;
    }

    /** `DocumentInfo(f_parseElement)`: the given element, an empty path, no step yet. */
    constructor FromElement(element: ElementRef)
      ensures path == [] && maxStep == 0 && parsedElement == element
    {
      path := [];
      maxStep := 0;
      parsedElement := element;
    }

    method GetPath() returns (p: seq<Coordinate>)
      ensures p == path
    {
      p := path;
    }

    method UpdatePath(p: seq<Coordinate>)
      modifies this`path
      ensures path == p
      ensures maxStep == old(maxStep) && parsedElement == old(parsedElement)
    {
      path := p;
    }

    method GetMaxStep() returns (m: u32)
      ensures m == maxStep
    {
      m := maxStep;
    }

    method SetMaxStep(m: u32)
      modifies this`maxStep
      ensures maxStep == m
      ensures path == old(path) && parsedElement == old(parsedElement)
    {
      maxStep := m;
    }

    method GetParsedElement() returns (e: ElementRef)
      ensures e == parsedElement
    {
      e := parsedElement;
    }

    /** How many steps to the right of the root each entry of the path is. */
    method CalculateStepFromRoot()
      modifies this`path, this`maxStep
      ensures path == Stepped(old(path))
      ensures maxStep == MaxStep(old(maxStep), path)
      ensures parsedElement == old(parsedElement)
    {
      ghost var original := path;
      ghost var target := Stepped(original);
      ghost var initialMax := maxStep;
      var i := 0;
      while i != |path|
        invariant 0 <= i <= |path| == |original|
        invariant forall k :: 0 <= k < i ==> path[k] == target[k]
        invariant forall k :: i <= k < |path| ==> path[k] == original[k]
        invariant maxStep == MaxStep(initialMax, target[..i])
      {
        if i > 0 {
          var j := 0;
          while j <= i
            invariant 0 <= j <= i + 1
            invariant |path| == |original|
            invariant forall k :: 0 <= k < i ==> path[k] == target[k]
            invariant forall k :: i < k < |path| ==> path[k] == original[k]
            invariant path[i] == PartlyStepped(original, i, j)
            invariant maxStep == MaxStep(initialMax, target[..i])
          {
            assert path[j].index == original[j].index;
            AddIndex(original, i, j);
            path := path[i := path[i].(step := Wrap(path[i].step as int + path[j].index as int))];
            j := j + 1;
          }
        }
        assert path[i] == target[i] by {
          assert target[i] == StepAt(original, i);
        }
        MaxStepExtend(initialMax, target, i);
        if path[i].step > maxStep {
          maxStep := path[i].step;
        }
        i := i + 1;
      }
      assert target[..i] == target;
    }

    /** The private helper `searchChilden`: `outDocument` is the reference parameter
        `f_out_document` on entry, `out` its value on return; `compared` is the parameter
        pack, and `move` says what moving one of its arguments leaves behind. */
    method SearchChildren(element: DocNode, outDocument: string, compared: seq<string>, move: PackMove)
      returns (out: string)
      ensures out == SearchResult(element, outDocument, compared, move)
      decreases element
    {
      out := outDocument;
      var childDoc := element.document;
      if childDoc != [] {
        childDoc := TrimDelimiters(childDoc);
        var k := 0;
        while k < |compared|
          invariant 0 <= k <= |compared|
          invariant ComparedWrite(childDoc, out, compared[k..]) == ComparedWrite(childDoc, outDocument, compared)
        {
          assert compared[k..][1..] == compared[k + 1..];
          if Find(compared[k], childDoc).Some? {
            return;
          } else {
            out := childDoc;
          }
          k := k + 1;
        }
      } else {
        var children := element.children;
        if |children| > 0 {
          var c := 0;
          var args := compared;
          while c < |children|
            invariant 0 <= c <= |children|
            invariant VisitChildren(children[c..], out, args, move) == VisitChildren(children, outDocument, compared, move)
          {
            assert children[c..][1..] == children[c + 1..];
            out := SearchChildren(children[c], out, args, move);
            args := MovedFrom(args, move);
            c := c + 1;
          }
        }
      }
    }
  }

  /** Entry `i` of `path` while its step is being calculated, after the indices of the first
      `j` entries have been added. */
  function PartlyStepped(path: seq<Coordinate>, i: nat, j: nat): Coordinate
    requires i < |path| && j <= i + 1
  {
    path[i].(step := Wrap(path[i].step as int + PrefixIndexSum(path, j)))
  }

  lemma AddIndex(path: seq<Coordinate>, i: nat, j: nat)
    requires j <= i < |path|
    ensures var e := PartlyStepped(path, i, j);
      e.(step := Wrap(e.step as int + path[j].index as int)) == PartlyStepped(path, i, j + 1)
  {
    WrapAdd(path[i].step as int + PrefixIndexSum(path, j), path[j].index as int);
  }

  lemma MaxStepExtend(m: u32, path: seq<Coordinate>, i: nat)
    requires i < |path|
    ensures MaxStep(m, path[..i + 1]) == Max(MaxStep(m, path[..i]), path[i].step)
  {
    assert path[..i + 1][..i] == path[..i];
  }

  /** `(x % 2^32 + y) % 2^32 == (x + y) % 2^32`: repeated 32-bit additions wrap once. */
  lemma WrapAdd(x: nat, y: nat)
    ensures Wrap(Wrap(x) as int + y) == Wrap(x + y)
  {
    var q := x / U32_LIMIT;
    assert x == q * U32_LIMIT + Wrap(x) as int;
    assert x + y == q * U32_LIMIT + (Wrap(x) as int + y);
  }
}
