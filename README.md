# Documentation-path bookkeeping of gWhisper's argument parser

This project models `ArgParse::DocumentInfo`, the per-node record that gWhisper's argument
parser uses to lay out help text for nested protobuf messages. It covers:

- the `Coordinate` record `{depth, step, index}` of one entry of a root-to-node path;
- the record `DocumentInfo`, a class with the path, the running maximum step and the
  parsed element it belongs to, with its two constructors, getters and setters;
- `calculateStepFromRoot`, which adds to the step of every entry after the first the
  indices of all entries up to and including it, in place. It also raises the running
  maximum step as it goes;
- the private helper `searchChilden`, which trims a node's documentation string and
  compares it with a list of strings. When the node has no documentation it searches the
  node's children in order.

Files:

- `std_string.dfy` (module `StdString`): the `std::string` members the helper calls
  (`find`, `find_first_not_of`, `find_last_not_of`). Each is a function whose contract
  states what it finds. `npos` is `None`.
- `parsed_document.dfy` (module `ParsedDocument`): the data model and the class. `u32`
  stands for `uint32_t`, and `Wrap` gives the value a 32-bit addition wraps to.
  `Stepped` and `MaxStep` specify `calculateStepFromRoot`. `ComparedWrite`,
  `SearchResult` and `VisitChildren` specify `searchChilden`. `DocNode` stands for a
  parsed element, seen only through its grammar element's documentation string and its
  children.
- `document_properties.dfy` (module `DocumentProperties`): lemmas about those functions,
  and client methods that drive the class through its public methods.

`CalculateStepFromRoot` keeps the two nested loops of the source. It updates the `path`
field one entry at a time. Its contract gives the new path as `Stepped(old(path))` and
the new maximum as `MaxStep(old(maxStep), path)`. The lemmas state what those mean:

- the exact prefix-sum formula where nothing wraps;
- the maximum's bounds;
- monotone steps from zero;
- a second call adds the prefix sums again.

`SearchChildren` is a recursive method. Its out-parameter stands for the reference
parameter `f_out_document`. It keeps the loop over the compared strings and the loop over
the children, and its contract ties the result to `SearchResult`.

The compared strings are a parameter pack taken by value. Each child's call receives the
pack through `std::forward`, and for a by-value pack that is a move. So only the first
child of a node gets the compared strings themselves; every later child gets what the
move left of them. What that is depends on the argument type, which the model takes as
the parameter `move`:

- `MoveCopies`: a type whose move is a copy, such as `const char *`. Every child sees the
  same strings.
- `MoveEmpties`: `std::string`, whose moved-from value is empty in libstdc++ and libc++.
  A later child then compares against empty strings, and writes any non-empty trimmed
  document (`EmptiedArgumentsWriteEveryDocument`, `MovedArgumentsExample`).

What the code does, as the lemmas state it:

- Only the first compared string decides whether a document is written
  (`ComparedWriteFirstDecides`). The comparison loop returns at the first compared string
  that contains the trimmed document, and writes the document for every compared string
  before that one. So a document is written even when a later compared string contains
  it (`WritesDespiteLaterMatch`).
- Only `\r`, `\n` and `\t` are stripped from the ends of a document; spaces are kept
  (`TrimKeepsOtherEnds`).
- Steps are non-decreasing along a path when every step starts at 0 and the indices sum
  to less than 2^32 (`StepsNondecreasingFromZero`).

## Model

| member | source | states |
|---|---|---|
| `StdString.FindFrom` | src/libArgParse/ParsedDocument.hpp:124 | the result is the first position at or after `from` where the needle occurs; `None` means it occurs at no such position |
| `StdString.Find` | src/libArgParse/ParsedDocument.hpp:124 | `find` returns a position exactly when the needle is a substring; that position is an occurrence and no earlier position is |
| `StdString.FindEmpty` | src/libArgParse/ParsedDocument.hpp:124 | the empty string is found, at position 0, in every string |
| `StdString.FindFirstNotOf` | src/libArgParse/ParsedDocument.hpp:118 | the result is the first position whose character is outside the set, and every earlier character is in it; `None` means every character is in the set |
| `StdString.FindLastNotOf` | src/libArgParse/ParsedDocument.hpp:119 | the result is the last position whose character is outside the set, and every later character is in it; `None` means every character is in the set |
| `ParsedDocument.WrapAdd` | src/libArgParse/ParsedDocument.hpp:77 | repeated `+=` on a `uint32_t` wraps the whole sum once: `((x mod 2^32) + y) mod 2^32 = (x + y) mod 2^32` |
| `ParsedDocument.Stepped` | src/libArgParse/ParsedDocument.hpp:69-85 | the calculation keeps the path's length and every entry's depth and index; only steps change |
| `ParsedDocument.AddIndex` | src/libArgParse/ParsedDocument.hpp:75-78 | one pass of the inner loop adds the index of entry `j` to the partial step of entry `i` |
| `ParsedDocument.MaxStepExtend` | src/libArgParse/ParsedDocument.hpp:80-83 | examining one more entry raises the running maximum to that entry's step if it is larger |
| `ParsedDocument.TrimDelimiters` | src/libArgParse/ParsedDocument.hpp:117-119 | the trimmed document is empty or starts and ends with a character other than `\r`, `\n`, `\t`, and it is the document less a run of those characters at each end |
| `ParsedDocument.DocumentInfo.constructor` | src/libArgParse/ParsedDocument.hpp:36-40 | the default record has a null element, an empty path and maximum step 0 |
| `ParsedDocument.DocumentInfo.FromElement` | src/libArgParse/ParsedDocument.hpp:42-46 | the record holds exactly the given element, with an empty path and maximum step 0 |
| `ParsedDocument.DocumentInfo.GetPath` | src/libArgParse/ParsedDocument.hpp:48-51 | returns the stored path and changes nothing |
| `ParsedDocument.DocumentInfo.UpdatePath` | src/libArgParse/ParsedDocument.hpp:53-56 | the path becomes the argument; the maximum step and the element are unchanged |
| `ParsedDocument.DocumentInfo.GetMaxStep` | src/libArgParse/ParsedDocument.hpp:58-61 | returns the stored maximum step and changes nothing |
| `ParsedDocument.DocumentInfo.SetMaxStep` | src/libArgParse/ParsedDocument.hpp:63-66 | the maximum step becomes the argument; the path and the element are unchanged |
| `ParsedDocument.DocumentInfo.GetParsedElement` | src/libArgParse/ParsedDocument.hpp:87-90 | returns the stored element and changes nothing |
| `ParsedDocument.DocumentInfo.CalculateStepFromRoot` | src/libArgParse/ParsedDocument.hpp:69-85 | the new path is `Stepped` of the old one, so entry 0 keeps its step and entry i > 0 gains `index[0] + ... + index[i]` modulo 2^32; the new maximum is the running maximum of the old maximum over the new steps (the loop at lines 80-83, specified by the function `MaxStep`); the element is unchanged |
| `ParsedDocument.DocumentInfo.SearchChildren` | src/libArgParse/ParsedDocument.hpp:112-145 | the out-document on return is `SearchResult` of the node, the value on entry, the compared strings and the argument type's move. `ComparedWrite` specifies the comparison loop at lines 121-132; `SearchResult` and `VisitChildren` specify the branch at lines 115 and 134-143, where the first child gets the compared strings and each later child gets what `std::forward` left of them |
| `DocumentProperties.MaxStepIsMaximum` | src/libArgParse/ParsedDocument.hpp:80-83 | the running maximum never decreases, bounds every step it has seen, and is either its start value or one of those steps |
| `DocumentProperties.PrefixIndexSumMonotone` | src/libArgParse/ParsedDocument.hpp:75-78 | the sums of the indices of longer prefixes are no smaller |
| `DocumentProperties.StepWithoutOverflow` | src/libArgParse/ParsedDocument.hpp:71-78 | where no addition wraps, entry k > 0 gets exactly its old step plus the inclusive prefix sum of the indices, and entry 0 is unchanged |
| `DocumentProperties.StepsNondecreasingFromZero` | src/libArgParse/ParsedDocument.hpp:71-78 | when every step starts at 0 and the indices sum to less than 2^32, the new steps are non-decreasing along the path |
| `DocumentProperties.PrefixIndexSumOfStepped` | src/libArgParse/ParsedDocument.hpp:77 | the calculation leaves every prefix sum of the indices unchanged |
| `DocumentProperties.SecondCalculation` | src/libArgParse/ParsedDocument.hpp:69-85 | calculating twice adds twice the inclusive prefix sum to every later entry's step |
| `DocumentProperties.NotIdempotent` | src/libArgParse/ParsedDocument.hpp:69-85 | when some index up to a later entry is positive and nothing wraps, calculating twice differs from calculating once |
| `DocumentProperties.ThreeLevelPath` | src/libArgParse/ParsedDocument.hpp:69-85 | a three-entry path with indices 1, 2, 1 and zero steps gets steps 0, 3, 4 and maximum step 4 |
| `DocumentProperties.Construction` | src/libArgParse/ParsedDocument.hpp:36-46 | through the getters, both constructors give an empty path and maximum step 0; the default one holds a null element and the other one holds the element it was given |
| `DocumentProperties.SettersRoundTrip` | src/libArgParse/ParsedDocument.hpp:48-66 | the getters return what the setters stored, in either order of the setters, so neither setter changes the other field |
| `DocumentProperties.StepsOfFreshRecord` | src/libArgParse/ParsedDocument.hpp:69-85 | on a fresh record, the calculation keeps the path's length, depths and indices; the maximum step bounds every step and is 0 or one of them; an empty path stays empty with maximum 0 |
| `DocumentProperties.TrimAllDelimiters` | src/libArgParse/ParsedDocument.hpp:117-119 | a document made only of `\r`, `\n`, `\t` trims to the empty string |
| `DocumentProperties.TrimKeepsOtherEnds` | src/libArgParse/ParsedDocument.hpp:117-119 | a document whose end characters are not `\r`, `\n`, `\t` (spaces, for instance) is unchanged by trimming |
| `DocumentProperties.ComparedWriteOfSelf` | src/libArgParse/ParsedDocument.hpp:122-132 | once the out-document holds the trimmed document, the rest of the comparison loop leaves it there |
| `DocumentProperties.ComparedWriteFirstDecides` | src/libArgParse/ParsedDocument.hpp:121-132 | after the comparison loop, the out-document is the trimmed document exactly when the list is non-empty and its first string does not contain it; otherwise the prior value is kept (also for an empty list) |
| `DocumentProperties.WritesDespiteLaterMatch` | src/libArgParse/ParsedDocument.hpp:121-132 | the document is written when the first compared string does not contain it, even if a later one does |
| `DocumentProperties.NoComparedNeverWrites` | src/libArgParse/ParsedDocument.hpp:121-144 | with no compared strings, the out-document is never written anywhere in the tree |
| `DocumentProperties.DelimiterDocumentNeverWrites` | src/libArgParse/ParsedDocument.hpp:115-132 | a raw document made only of `\r`, `\n`, `\t` trims to empty, which every compared string contains, so the out-document keeps its prior value and the children are not searched |
| `DocumentProperties.DocumentedNodeIgnoresChildren` | src/libArgParse/ParsedDocument.hpp:115-133 | a node with a non-empty raw document never recurses, so its children do not affect the result |
| `DocumentProperties.MovedFromTwice` | src/libArgParse/ParsedDocument.hpp:141 | moving an already moved-from pack again leaves the same strings |
| `DocumentProperties.LaterChildOverwrites` | src/libArgParse/ParsedDocument.hpp:139-142 | children are searched left to right, so the last child's search starts from what the earlier children left and decides the result; it receives the compared strings if it is the only child, and what the moves left of them otherwise |
| `DocumentProperties.NothingFoundInEmpty` | src/libArgParse/ParsedDocument.hpp:124 | a non-empty document is not found in the empty string |
| `DocumentProperties.EmptiedArgumentsWriteEveryDocument` | src/libArgParse/ParsedDocument.hpp:121-141 | with `std::string` arguments, a later child with a non-empty trimmed document and a non-empty pack writes that document, whatever the compared strings were |
| `DocumentProperties.MovedArgumentsExample` | src/libArgParse/ParsedDocument.hpp:112-145 | for an undocumented root with children "x" and "y" compared against "y", the result is "x" when the move copies and "y" when it empties the strings |
| `DocumentProperties.ResultFromSubtree` | src/libArgParse/ParsedDocument.hpp:112-145 | after the search, the out-document is its prior value or the trimmed document of some node of the subtree |

## Left out

- `printPath` (src/libArgParse/ParsedDocument.hpp:92-107) only writes to standard output.
- `transToMatrix`, `abstractDocTree` and `searchDocument` are only declared in the header; their bodies are not part of this model.
- `ParsedElement` and `GrammarElement` are not part of this model. A parsed element is a `DocNode` holding its grammar element's documentation and its children. The raw `ParsedElement *` is an `ElementRef` (null or an address), and ownership is not modelled.
- The variadic template arguments `f_compared_string...` of `searchChilden` are the sequence `compared`.
- `ParsedDocument.DocumentInfo.SearchChildren`: for `std::string` arguments the model takes a moved-from string to be empty, as libstdc++ and libc++ leave it. The C++ standard only promises a valid but unspecified value, and argument types whose move neither copies nor empties are not modelled.
- `ParsedDocument.DocumentInfo.CalculateStepFromRoot`: the loop counters are unbounded integers, while the source's `int i` and `int j` would overflow on a path of more than 2^31 - 1 entries.
- src/libCli/ConnectionManager.hpp (caching of gRPC channels and descriptor databases, credential prompts on standard input, certificate file reading) and tests/testServer/testServer.cpp (server start-up) are network and I/O plumbing outside this model.
