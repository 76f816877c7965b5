# Verified models of the hand-written data-structure algorithms

This Dafny project models seven programs of the repository and proves what they compute:

- the infix calculator (`cpp/date_struct/stack/fix/Fix.cpp`), a shunting-yard compiler to postfix text followed by a stack machine;
- the linked binary tree (`cpp/date_struct/tree/btree/BTree.cpp`) with recursive and iterative traversals, breadth-first output, the k-th largest search and the reader that builds a tree;
- the singly linked list (`cpp/date_struct/list/sigList/SigList.h`) with in-place reversal, two duplicate removals, removal from the end and cycle detection;
- the partition, merge, set and stack-sorting algorithms (`cpp/date_struct/array/code/sort_num.cpp`, `cpp/date_struct/array/code/merge_array.cpp`, `cpp/C++/setalg.cpp`, `cpp/date_struct/stack/sortStack.cpp`).

`dafny verify dfyconfig.toml` checks everything.

## How the model reads

Code that changes objects or arrays in place is a method on classes or arrays, with the loops and branches of the C++ code; a stack or queue that is local to one function is a local sequence that is reassigned. Long loop bodies are cut into methods of their own, one round or one inner loop each. Printed text is returned as a string. Where the C++ code runs into undefined behaviour (the top of an empty stack, a null dereference, running off the end of a function) the model has either a precondition that says exactly when this is avoided or an outcome that says exactly when it happens. `delete` clears a ghost `live` bit, and every access to a list node requires it, so a verified list method never touches or deletes a deleted node.

| file | contents |
|---|---|
| `Containers.dfy`, `Options.dfy`, `Sequences.dfy`, `Ordering.dfy`, `Division.dfy` | containers passed by reference, shared vocabulary |
| `Expressions.dfy` | expression trees, their postfix text, infix texts and their reading by precedence |
| `ShuntingYard.dfy` | the compiler as a machine and its theorems |
| `PostfixEvaluator.dfy` | the stack machine and its theorems |
| `Calculator.dfy` | the methods of the class `Fix` and the end-to-end theorems |
| `Trees.dfy`, `TreeText.dfy`, `BTree.dfy` | trees as values, their text, the linked tree |
| `Runs.dfy`, `Laps.dfy`, `SigList.dfy` | runs of equal values, walking around a cycle, the linked list |
| `SortNum.dfy`, `MergeArray.dfy`, `SetAlgorithms.dfy`, `SortStack.dfy` | arrays, ranges and the stack sort |

## Where the code does not do what its name or comments say

Each of these is proved, with the exact condition under which the code meets the expectation.

- The calculator computes `right op left`: `5-3` gives -2 (`FiveMinusThree`). A tree and all its subtrees get their ordinary values exactly when every subtraction is between equal numbers and every division between non-zero numbers of equal size (`OrdinaryIffOrderFree`); `GetResult` then returns the ordinary value. At the root alone the swaps can cancel out, as in `(5-3)-(3-5)` (`SwapsCanCancel`).
- A text without enough parentheses compiles to another tree than its writer meant, and only then (`CompilerIsCorrect`).
- `DelIndexValue(n)` on a list of n nodes leaves the list as it was: only a temporary node is relinked. The node is removed exactly when it is not the first (`DelIndexValue`); index 0 and the empty list end in a null dereference.
- `CheckHuan` dereferences null on every null-ended list of odd length and on the empty list, and on no other (`CheckHuan`, `CycleVerdict`).
- `DeleSameValue` always keeps the head, and agrees with `DeleteSameValue1` exactly when the first run has length one (`AgreeIffFirstRunIsSingle`).
- `SortNum` takes zeros for negatives: it separates the values exactly when no zero stands before a negative (`SortNumSeparatesIff`, `ZeroIsTakenForNegative`).
- `SortNum1` never ends on an array with two zeros (`SortNum1NeverEnds`; on `[0, 0]` every step leads back, `TwoZerosSpin`) and ends on every other (`SortNum1`).

## Model

| member | source | states |
|---|---|---|
| Calculator.IsNumber | cpp/date_struct/stack/fix/Fix.cpp:43-54 | true exactly for the six characters +-*/(), despite its name |
| Calculator.CheckOperatorPriority | cpp/date_struct/stack/fix/Fix.cpp:99-118 | true exactly when the stacked operator binds at least as tightly as the incoming one: sums wait for all four operators, products for products only |
| Calculator.LoopPushOperInStack | cpp/date_struct/stack/fix/Fix.cpp:120-128 | moves to the text, top first, all stacked operators down to the first that binds less tightly; nothing for a character that is no operator |
| Calculator.HandleOperator | cpp/date_struct/stack/fix/Fix.cpp:57-97 | performs one symbol step of the machine wherever that step does not pop an empty stack; any other character changes nothing |
| Calculator.InfixToSuffix | cpp/date_struct/stack/fix/Fix.cpp:12-41 | appends what the machine produces on the whole text, with the final flush only if something was written; on an empty text this is the compiled form that the theorems are about |
| Calculator.CalcResult | cpp/date_struct/stack/fix/Fix.cpp:155-188 | one operator on the value stack: the two top values are replaced by first popped + - * second popped, or by the quotient whose remainder has the sign of the first popped; a zero divisor gives the first popped, other symbols zero; nothing on an empty stack |
| Calculator.BySuffixGetResult | cpp/date_struct/stack/fix/Fix.cpp:130-153 | the top of the value stack after the whole postfix text |
| Calculator.GetResult | cpp/date_struct/stack/fix/Fix.cpp:3-9 | on every infix text, with any parentheses and blanks, the value of the text's reading by precedence; the ordinary value if that reading is order-free; on one digit, or one operator between two digits, the number in plain arithmetic |
| Calculator.CompilerIsCorrect | cpp/date_struct/stack/fix/Fix.cpp:12-128 | every infix text compiles to the postorder of its reading; this is the meant tree if and only if there are enough parentheses |
| Calculator.CalculatorIsCorrect | cpp/date_struct/stack/fix/Fix.cpp:3-188 | evaluating a compiled infix text never underflows and leaves exactly one value, the value of the reading |
| Calculator.PrecedenceSpelledOut | cpp/date_struct/stack/fix/Fix.cpp:99-128 | for all operands a, b, c: a+b*c compiles to abc*+, and likewise for every sum in front of a product; all other pairs of operators are taken from left to right |
| Calculator.ParenthesesSpelledOut | cpp/date_struct/stack/fix/Fix.cpp:80-92 | parentheses around the first or the second operation overrule precedence and order |
| Calculator.FlushSpelledOut | cpp/date_struct/stack/fix/Fix.cpp:33-40 | operators left on the stack are not written when nothing was written before; an unclosed parenthesis is written |
| Calculator.OneOperator | cpp/date_struct/stack/fix/Fix.cpp:130-188 | for all digits y and x: y+x, y-x, y*x and y/x compile and evaluate to the number that plain arithmetic gives for x before y, a zero divisor replaced by one |
| Calculator.BracketedTextsAreUnambiguous | cpp/date_struct/stack/fix/Fix.cpp:57-118 | two bracketed structures with the same text have the same tree |
| Calculator.FiveMinusThree | cpp/date_struct/stack/fix/Fix.cpp:163-178 | 5-3 evaluates to -2, because the right operand is popped first |
| Expressions.ReadAsMeantIff | cpp/date_struct/stack/fix/Fix.cpp:99-118 | a text is read as it was meant if and only if its parentheses respect precedence and left associativity |
| Expressions.ReadingIsBracketed | cpp/date_struct/stack/fix/Fix.cpp:99-118 | every infix text has a bracketed structure with the same characters |
| Expressions.EveryTreeIsWritable | cpp/date_struct/stack/fix/Fix.cpp:12-41 | every tree has an infix text with enough parentheses |
| ShuntingYard.SafeIffNeverOverCloses | cpp/date_struct/stack/fix/Fix.cpp:84-92 | the compiler pops no empty stack if and only if no prefix closes more parentheses than it opens; the stack then holds one '(' per open parenthesis |
| ShuntingYard.PrefixInvariant | cpp/date_struct/stack/fix/Fix.cpp:57-128 | after every prefix of every safe text precedence rises strictly between '(' entries, the stack holds at most 3d+2 entries under d open parentheses, every operand and operator read is in the text or on the stack exactly as often as it was read, and operands keep their order |
| ShuntingYard.RunInfix | cpp/date_struct/stack/fix/Fix.cpp:57-128 | compiling a bracketed text on top of lower-ranking operators touches none of them and leaves exactly the text's pending operators |
| ShuntingYard.BlanksDoNotMatter | cpp/date_struct/stack/fix/Fix.cpp:18-21 | blanks anywhere in the text change nothing |
| ShuntingYard.StripBlanksDropsBlanks | cpp/date_struct/stack/fix/Fix.cpp:18-21 | of a text without its blanks: all other characters are left, in their order |
| ShuntingYard.CompileBracketed | cpp/date_struct/stack/fix/Fix.cpp:12-41 | a bracketed text compiles to the postorder of its tree and ends with an empty operator stack |
| PostfixEvaluator.EvalPostorder | cpp/date_struct/stack/fix/Fix.cpp:138-188 | from any value stack and before any further text, a tree's postorder pushes exactly the tree's value |
| PostfixEvaluator.QuotientIsTruncated | cpp/date_struct/stack/fix/Fix.cpp:182-185 | the remainder of a division has the sign of the dividend and is smaller than the divisor in size |
| PostfixEvaluator.QuotientBySize | cpp/date_struct/stack/fix/Fix.cpp:182-185 | the same by sizes and signs of dividend, divisor and quotient |
| PostfixEvaluator.CombineSpelledOut | cpp/date_struct/stack/fix/Fix.cpp:171-186 | what each operator pushes, in plain arithmetic |
| PostfixEvaluator.PostorderInjective | cpp/date_struct/stack/fix/Fix.cpp:138-150 | a postfix text determines its tree |
| PostfixEvaluator.OrdinaryIffOrderFree | cpp/date_struct/stack/fix/Fix.cpp:163-186 | the calculator agrees with ordinary arithmetic on a tree and all its subtrees if and only if subtractions are between equal and divisions between non-zero numbers of equal size |
| PostfixEvaluator.SwapsCanCancel | cpp/date_struct/stack/fix/Fix.cpp:163-186 | (5-3)-(3-5) has its ordinary value though it is not order-free: the equivalence is about all subtrees |
| BTree.BTree.PreOrderOutput | cpp/date_struct/tree/btree/BTree.cpp:37-45 | prints the stored characters in preorder |
| BTree.BTree.MidOrderOutput | cpp/date_struct/tree/btree/BTree.cpp:59-67 | prints the stored characters in inorder |
| BTree.BTree.PostOrderOutput | cpp/date_struct/tree/btree/BTree.cpp:75-83 | prints the stored characters in postorder |
| BTree.BTree.PreOrder | cpp/date_struct/tree/btree/BTree.cpp:277-295 | the iterative traversal ends and prints what the recursive one prints |
| BTree.BTree.MidOrder | cpp/date_struct/tree/btree/BTree.cpp:308-326 | the iterative traversal ends and prints what the recursive one prints |
| BTree.BTree.PostOrder | cpp/date_struct/tree/btree/BTree.cpp:337-368 | the iterative traversal ends and prints what the recursive one prints, for repeated characters too |
| BTree.SecondReturnIff | cpp/date_struct/tree/btree/BTree.cpp:355-365 | the test on the node printed last holds exactly when the right subtree of the stacked node is done, because every node is printed once |
| BTree.BTree.LayerOrder | cpp/date_struct/tree/btree/BTree.cpp:412-434 | prints the levels one after the other, as many levels as the depth and as many characters as the node count, the root first; the characters of each level stand in their order in the inorder output, so from left to right |
| BTree.LayersListAll | cpp/date_struct/tree/btree/BTree.cpp:412-434 | the levels together hold every node exactly once |
| Trees.BreadthFirstListsLevels | cpp/date_struct/tree/btree/BTree.cpp:420-433 | queue order is the concatenation of the levels |
| Trees.LevelFollowsMid | cpp/date_struct/tree/btree/BTree.cpp:426-431 | each level is a subsequence of the inorder sequence |
| Trees.LevelFromLeft | cpp/date_struct/tree/btree/BTree.cpp:426-431 | of two elements of a level the one listed first stands first in the inorder sequence |
| Trees.LevelsFromTop | cpp/date_struct/tree/btree/BTree.cpp:420-433 | the list of more levels starts with the list of fewer, and with the root |
| Trees.LevelIffDepth | cpp/date_struct/tree/btree/BTree.cpp:250-265 | a level holds an element if and only if its number is below the depth |
| Trees.OrdersOfThree | cpp/date_struct/tree/btree/BTree.cpp:37-83 | preorder, inorder, postorder and levels of a root with a left and a right child |
| BTree.BTree.GetBtreeDepth | cpp/date_struct/tree/btree/BTree.cpp:250-265 | a level holds a node if and only if its number is below the result |
| BTree.BTree.GetNodeNum | cpp/date_struct/tree/btree/BTree.cpp:396-404 | the length of every traversal |
| BTree.BTree.GetMaxKValue | cpp/date_struct/tree/btree/BTree.cpp:473-501 | null on the empty tree, else the k-th node of the inorder sequence from its end; in a search tree the k-th largest |
| Trees.KthLargestOfSearchTree | cpp/date_struct/tree/btree/BTree.cpp:473-501 | in a search tree fewer than k values exceed the k-th of the reverse inorder sequence, and at least k are not below it |
| Trees.SearchTreeIffAscending | cpp/date_struct/tree/btree/BTree.h:56-57 | a tree is a search tree if and only if its inorder sequence ascends |
| BTree.Create | cpp/date_struct/tree/btree/BTree.cpp:19-35 | consumes exactly one tree's text, the preorder sequence with '#' at empty places, and builds exactly that tree from new nodes; an empty tree leaves the link as it was |
| BTree.BTree.CreateBTree | cpp/date_struct/tree/btree/BTree.cpp:14-17 | the text consumed is the preorder sequence, with '#' at the empty places, of the tree then stored; on '#' the old tree stays; the first child named hangs on the left link, a lone child on the side without '#' |
| TreeText.DecodeEncode | cpp/date_struct/tree/btree/BTree.cpp:19-35 | reading the text of a tree whose data avoids '#', followed by anything, gives the tree and leaves what follows |
| TreeText.EncodeDecode | cpp/date_struct/tree/btree/BTree.cpp:19-35 | whatever the reader accepts is the text of the tree it gives, and that tree avoids '#' |
| TreeText.EncodingIsPrefixFree | cpp/date_struct/tree/btree/BTree.cpp:19-35 | no tree's text is a prefix of another's |
| TreeText.EncodeIsPreorder | cpp/date_struct/tree/btree/BTree.cpp:19-35 | the text is the preorder sequence of the tree with a leaf '#' at every empty place |
| TreeText.ChildrenSpelledOut | cpp/date_struct/tree/btree/BTree.cpp:32-33 | xy##z## is read as x with the left child y and the right child z |
| TreeText.LoneChildSpelledOut | cpp/date_struct/tree/btree/BTree.cpp:32-33 | xy### is read as x with y on its left, x#y## as x with y on its right |
| SigList.SigList.InsertHead | cpp/date_struct/list/sigList/SigList.h:22-37 | one new node in front of the old ones; a cycle stays where it was |
| SigList.SigList.InsertTail | cpp/date_struct/list/sigList/SigList.h:39-58 | one new node behind the old ones of a null-ended list |
| SigList.SigList.FanZhuan | cpp/date_struct/list/sigList/SigList.h:199-215 | relinks the same nodes in reverse order without changing data |
| SigList.SigList.Reverse1 | cpp/date_struct/list/sigList/SigList.h:163-184 | the same, on the empty list too |
| SigList.SigList.ReverseTwice | cpp/date_struct/list/sigList/SigList.h:163-184 | two reversals restore the list node by node |
| SigList.SigList.CheckHuan | cpp/date_struct/list/sigList/SigList.h:217-238 | true on every cyclic list, false on null-ended lists of even non-zero length, a null dereference on all other null-ended lists; in a cycle the pointers advance one time fewer than the first positive multiple of the cycle length that reaches the tail length, so fewer times than the list has nodes |
| Laps.MeetingIsFirst | cpp/date_struct/list/sigList/SigList.h:225-236 | on a cyclic list the two pointers meet in that round and in none before |
| SigList.SigList.DelIndexValue | cpp/date_struct/list/sigList/SigList.h:240-266 | what the list holds afterwards for every index, all other nodes in their places, and exactly when null is dereferenced; of the nodes counted from the end, the index-th is removed if and only if it is not the first node |
| SigList.SigList.DeleSameValue | cpp/date_struct/list/sigList/SigList.h:268-296 | keeps, in order, the head and the later nodes that differ from both neighbours; dropped nodes are not deleted |
| SigList.SigList.DeleteSameValue1 | cpp/date_struct/list/sigList/SigList.h:298-343 | keeps, in order, exactly the nodes that differ from both neighbours, deletes exactly the others, and touches no deleted node |
| Runs.SinglesByPosition | cpp/date_struct/list/sigList/SigList.h:311-338 | what is kept are the positions that differ from both neighbours |
| Runs.SinglesSpelledOut | cpp/date_struct/list/sigList/SigList.h:311-338 | an item is left if and only if its key differs from the keys before and behind it; what is left is in order |
| Runs.HeadAndSinglesSpelledOut | cpp/date_struct/list/sigList/SigList.h:279-295 | the same for the other removal, which keeps the first item in any case |
| Runs.SinglesOccurOnce | cpp/date_struct/list/sigList/SigList.h:298-343 | where equal values stand together exactly the values of multiplicity one are left, once each |
| Runs.SinglesOfSorted | cpp/date_struct/list/sigList/SigList.h:298-343 | on a sorted list exactly the values of multiplicity one are left, once each |
| Runs.AgreeIffFirstRunIsSingle | cpp/date_struct/list/sigList/SigList.h:268-343 | the two removals agree if and only if the first run has length one |
| SortNum.SortNum | cpp/date_struct/array/code/sort_num.cpp:13-53 | ends on every array and leaves the stated rotation of its first len values, the rest untouched |
| SortNum.RotatedOnZeroFree | cpp/date_struct/array/code/sort_num.cpp:13-53 | without zeros: the negatives in order, then the others rotated by those that stood in front of the cut |
| SortNum.StopOnZeroFree | cpp/date_struct/array/code/sort_num.cpp:31-52 | without zeros the place where the others are rotated is just behind the last negative value |
| SortNum.SortNumSeparatesIff | cpp/date_struct/array/code/sort_num.cpp:15-18 | all negatives come first if and only if no zero stands before a negative |
| SortNum.ZeroIsTakenForNegative | cpp/date_struct/array/code/sort_num.cpp:38 | [0, -1] comes out unchanged |
| SortNum.SortNum1 | cpp/date_struct/array/code/sort_num.cpp:55-79 | with at most one zero it ends and separates the values, a permutation |
| SortNum.SortNum1NeverEnds | cpp/date_struct/array/code/sort_num.cpp:65-78 | with two zeros the loop condition holds in every state of every run |
| SortNum.StepsGoOn | cpp/date_struct/array/code/sort_num.cpp:65-78 | from every state with two zeros between the pointers a further step is possible |
| SortNum.TwoZerosSpin | cpp/date_struct/array/code/sort_num.cpp:65-78 | on [0, 0] the only step leads back to the same state |
| SortNum.SortNum2 | cpp/date_struct/array/code/sort_num.cpp:81-108 | the in-place swap chain gives the stable partition |
| SortNum.SwapChain | cpp/date_struct/array/code/sort_num.cpp:94-104 | the chain of swaps moves one value in front and shifts the values between by one place |
| SortNum.SortNum3 | cpp/date_struct/array/code/sort_num.cpp:110-147 | the buffer copy gives the stable partition |
| SortNum.StablePartitionIsPartitioned | cpp/date_struct/array/code/sort_num.cpp:81-147 | no negative stands behind a value that is not negative |
| SortNum.StablePartitionSpelledOut | cpp/date_struct/array/code/sort_num.cpp:81-147 | negative values, then the others, each part in the order of the array, together a permutation |
| SortNum.Complementary | cpp/date_struct/array/code/sort_num.cpp:81-147 | the stable partition is a permutation |
| SortNum.StablePartitionRefinesRotated | cpp/date_struct/array/code/sort_num.cpp:13-147 | without zeros all three versions have the same negatives in front and the same values overall |
| MergeArray.MergeArrayToNew | cpp/date_struct/array/code/merge_array.cpp:16-51 | null exactly on bad arguments, else a new array with the forward merge, a permutation of both inputs that is sorted when they are |
| MergeArray.MergeArrayToOld | cpp/date_struct/array/code/merge_array.cpp:53-85 | the backward merge of the original values in place, even when both arrays are the same; for up to 100 values together a permutation of them, sorted when both inputs are; nothing beyond them changes, and nothing at all on bad arguments or above 100 |
| MergeArray.CopyFirst | cpp/date_struct/array/code/merge_array.cpp:66-69 | writing a value of the first array to its final place destroys no unread value of either array |
| MergeArray.BothMergesAgree | cpp/date_struct/array/code/merge_array.cpp:16-85 | on sorted inputs both give the same sequence, sorted and a permutation of all values |
| MergeArray.MergeIsSorted | cpp/date_struct/array/code/merge_array.cpp:28-48 | the forward merge of sorted sequences is sorted |
| MergeArray.BackMergeIsSorted | cpp/date_struct/array/code/merge_array.cpp:64-84 | the backward merge of sorted sequences is sorted |
| SetAlgorithms.SetUnion | cpp/C++/setalg.cpp:16-42 | appends the union to what was written |
| SetAlgorithms.SetIntersection | cpp/C++/setalg.cpp:44-68 | appends the intersection |
| SetAlgorithms.SetDifference | cpp/C++/setalg.cpp:70-93 | appends the difference |
| SetAlgorithms.SetSymmetricDifference | cpp/C++/setalg.cpp:95-121 | appends the symmetric difference |
| SetAlgorithms.KeepsPromise | cpp/C++/setalg.cpp:16-121 | for each key, which items of which range are copied and in which order, as section 25.4.5 of ISO/IEC 14882:2011 asks |
| SetAlgorithms.PromisesSpelledOut | cpp/C++/setalg.cpp:16-121 | with lists p and q of the items of a key: the union has p and the rest of q, the intersection the first items of p, the difference the rest of p, the symmetric difference the rest of the longer list |
| SetAlgorithms.OfListsAll | cpp/C++/setalg.cpp:16-121 | the list of a key holds every item with that key as often as the range does, and no other |
| SetAlgorithms.Multiplicities | cpp/C++/setalg.cpp:16-121 | multiplicities max(p,q), min(p,q), max(p-q,0) and the distance of p and q |
| SetAlgorithms.CombineIsSorted | cpp/C++/setalg.cpp:16-121 | all four outputs are sorted |
| SetAlgorithms.ResultIsUnique | cpp/C++/setalg.cpp:16-121 | order and the promise for each key determine the output |
| SetAlgorithms.Lengths | cpp/C++/setalg.cpp:16-121 | union and intersection together have the length of both ranges; the other two follow; on unsorted ranges too |
| SortStack.SortStack | cpp/date_struct/stack/sortStack.cpp:5-28 | ends, and leaves a permutation with the smallest on top, never decreasing downwards |
| SortStack.MakeRoom | cpp/date_struct/stack/sortStack.cpp:14-18 | exactly the items above the last one not larger than the current value go back onto the input, turned over; all of them are larger, and none moves while put-back items are still being taken off |
| SortStack.SortedStackIsUnique | cpp/date_struct/stack/sortStack.cpp:5-28 | what was on the stack determines the sorted stack |

## Left out

- Console output, log lines, `main` functions and the mechanics of `cin`: printed text is returned, input is the sequence of characters that `cin >> ch` delivers, so blanks are already skipped.
- 32-bit overflow: integers are unbounded, division truncates toward zero as in C++.
- Character encoding: characters are compared as Unicode code points, C++ `char` may be signed; operands of the calculator are any single character that is no operator, parenthesis or blank, valued by its distance from '0'.
- Calculator.GetResult: only defined on texts that compile and evaluate without popping an empty stack; on all others the C++ code has undefined behaviour. All infix texts are among the defined ones.
- BTree.Create: the C++ pointer to a link becomes a link that is passed in and returned; the old tree that a second read drops is not freed in either. Input that ends inside a tree leaves the C++ character unset, hence the precondition that a whole tree can be read.
- BTree.BTree.GetMaxKValue: values of k outside 1 to the node count make the C++ function run off its end without returning, hence the precondition.
- Memory leaks: the nodes that `DeleSameValue` and `DelIndexValue` unlink and the buffer of `SortNum3` on an all-negative array are never freed; only the absence of early deletion is stated.
- SetAlgorithms.SetUnion: the template is modelled on items compared by an integer key with a tag that is not compared, on ranges that do not share memory with the output.
- The remaining members of `BTree.cpp`: destroying trees, leaf output, lookups by value or parent (easy recursion) and the unfinished or broken `CreateBtreeBYPreMid`, `_GetDepthKNode`, `_GetParents`, `_GetLeftChild` and `_GetRightChild`.
- The remaining members of `SigList.h`: search, display and removal of the head (easy), the recursive `Reverse` and `FreeList` (they do not compile), `DeleteByValue` and `DeleteTail` (they use or leave freed nodes).
- `GetLen` in `merge_array.cpp`: a plain scan for a zero.
- Sockets, threads, processes, shell scripts, build files and the design-pattern samples.
