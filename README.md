# lab0-c string queue and tic-tac-toe move input, in Dafny

This project models two pieces of sequential C code and proves properties of
the models.

**The string queue of `queue.c`.** A queue is a NULL-terminated, singly linked
chain of nodes (`list_ele_t`: a heap string `value` and a `next` link) under a
header (`queue_t`) that holds `head`, `tail` and a cached `size`. The
operations are:

- `q_new`, `q_free`;
- `q_insert_head`, `q_insert_tail`;
- `q_remove_head`, with a bounded copy of the removed string into a caller's buffer;
- `q_size`;
- the in-place `q_reverse`;
- `q_sort`: a top-down merge sort built from `find_mid` (a slow/fast pointer split), the recursive `merge` and `mergeSortList`, then a walk that repairs `tail`.

The model follows the code closely:

- `Node` and `Queue` are classes. Each C function that takes a `queue_t *` is a module-level method taking a `Queue?` (null for NULL). The mutators (InsertHead, InsertTail, RemoveHead, Reverse, Sort) relink `next` and rewrite `head`, `tail` and `size` in place; Size and Free change nothing.
- A ghost field `nodes` lists the chain from `head`. The invariant `Queue.Valid` ties it to the pointers: the nodes are distinct, each `next` is the following node, `size` is the length, and a non-empty queue's `tail` is the last node.
- Each operation's effect is stated on `Contents()`, the strings from head to tail. The insertions, removal and size are given by sequence expressions over the old contents; reversal, merge and sort are proved against reference definitions on sequences of strings (module `ListSpec`), about which sortedness and permutation are proved.
- The comparison is `strcasecmp` (module `CStrings`), modelled as ASCII case folding. It is proved antisymmetric and transitive, and it returns zero exactly on strings equal up to case.

**The move input of `ttt/ttt.c`.**

- `get_input` reads lines until one names a square on the board. On each line of `r` characters it scans the first `r-1`: a leading run of letters gives the 1-based column `x = x*26 + (tolower(c)-'a'+1)`, then a run of digits gives the 1-based row `y = y*10 + digit`. The values are capped at `BOARD_SIZE+1`, and malformed text is rejected.
- `ParseLine` is that scan, written as the same `for` loop with the same `break`s. It is proved to agree with the declarative definition `Accepts`/`Decode` (letters naming a column in 1..B, then digits naming a row in 1..B).
- `GetInput` is the retry loop. It returns the first acceptable line.
- `MoveLog` is the global `move_record` array with `move_count`, covering `record_move` and the resets at the start of a game.

`BOARD_SIZE` and `N_GRIDS` come from `ttt.h`, which is not part of this model.
They are parameters here (`boardSize >= 1`, the array length).

## Model

| member | source | states |
|---|---|---|
| `StringQueue.Queue.constructor` | queue.c:20-22 | the new header has head and tail null, size 0 and no nodes, and is Valid |
| `StringQueue.New` | queue.c:12-24 | a queue is returned exactly when the allocation succeeds; it is fresh, empty and Valid with head, tail null and size 0 |
| `StringQueue.Free` | queue.c:27-45 | nothing is released for NULL; otherwise the walk from head releases exactly the queue's nodes, in chain order |
| `StringQueue.InsertHead` | queue.c:54-89 | succeeds exactly when q is non-NULL and both allocations succeed; then the contents become [s] + old contents, size grows by 1, the fresh node is head, and tail is that node when the queue was empty and is unchanged otherwise; on failure the queue is unchanged; Valid is kept |
| `StringQueue.InsertTail` | queue.c:98-133 | succeeds exactly when q is non-NULL and both allocations succeed; then the contents become old contents + [s], size grows by 1, the fresh node is tail with next null, and head is that node when the queue was empty; on failure nothing changes; Valid is kept |
| `StringQueue.RemoveHead` | queue.c:143-166 | fails exactly on NULL or an empty queue, and then changes nothing; otherwise the contents become old contents[1..], size drops by 1, tail stays where it was (pointing at the removed node when the queue becomes empty), and with a buffer sp[0..bufsize) is CopyOut of the removed string, the rest of sp untouched |
| `StringQueue.Size` | queue.c:172-178 | 0 for NULL, otherwise the number of strings in the queue, which is what the cached size holds under Valid |
| `StringQueue.Reverse` | queue.c:187-210 | the node order and contents become exactly the reverse of the old ones, without allocating; for two or more elements old head becomes tail and old tail becomes head; NULL, empty and one-element queues are unchanged; Valid is kept |
| `StringQueue.ReverseChain` | queue.c:194-208 | relinking a chain of at least two nodes backwards leaves a well-formed chain in reverse order, headed by the old last node and ending in the old first node |
| `StringQueue.Merge` | queue.c:217-232 | the merged chain is well formed, consists of exactly the nodes of both inputs, and holds ListSpec.Merge of their strings |
| `StringQueue.FindMid` | queue.c:234-246 | a chain of n >= 2 nodes is cut into a well-formed first part of n/2 nodes and a well-formed rest of n - n/2 nodes, whose first node is returned |
| `StringQueue.MergeSortList` | queue.c:248-259 | the result is a well-formed chain of the same nodes (a permutation) holding ListSpec.MergeSort of the strings |
| `StringQueue.Sort` | queue.c:261-271 | contents become the merge sort of the old contents, which are non-decreasing under strcasecmp and a permutation of the old; size is unchanged; tail is again the last node; an empty queue is unchanged |
| `ListSpec.ReverseAt` | queue.c:187-210 | position k of the reversal holds position n-1-k of the original |
| `ListSpec.ReverseReverse` | queue.c:187-210 | reversing twice restores the original order |
| `ListSpec.ReversePermutes` | queue.c:187-210 | reversal keeps every element with its multiplicity |
| `ListSpec.MergePermutes` | queue.c:217-232 | the merge is a permutation of the concatenation of its inputs |
| `ListSpec.MergeSorted` | queue.c:217-232 | the merge of two inputs that are non-decreasing under strcasecmp is non-decreasing |
| `ListSpec.MergeSortSorted` | queue.c:248-259 | the merge sort's result is non-decreasing under strcasecmp |
| `ListSpec.MergeSortPermutes` | queue.c:248-259 | the merge sort's result is a permutation of its input |
| `ListSpec.SortExample` | queue.c:261-271 | "b", "a", "c" sort to "a", "b", "c" |
| `ListSpec.SortNotStable` | queue.c:225-230 | "ab" and "AB" compare equal, and sorting ["ab", "AB"] gives ["AB", "ab"]: ties are taken from the right list, so the sort is not stable |
| `CStrings.StrCaseCmpAntisymmetric` | queue.c:225 | swapping the arguments of strcasecmp negates the result |
| `CStrings.StrCaseCmpTransitive` | queue.c:225 | "not greater" under strcasecmp is transitive |
| `CStrings.StrCaseCmpZeroIffFoldedEqual` | queue.c:225 | strcasecmp is zero exactly when both strings are equal after ASCII case folding |
| `CStrings.Fold` | queue.c:225 | an upper-case letter becomes the lower-case letter at the same place in the alphabet; a folded byte is never an upper-case letter; it is a lower-case letter exactly when the byte was a letter of either case; lower-case letters and every byte that is not a letter are kept, and NUL stays NUL |
| `CStrings.CaseInsensitiveNotBytewise` | queue.c:225 | "B" sorts after "a" although 'B' < 'a' as bytes |
| `CStrings.CopyOut` | queue.c:154-157 | the buffer has exactly bufsize bytes and ends in NUL, and read back as a C string it holds the removed string cut to bufsize-1 bytes |
| `CStrings.MemcpyAsWritten` | queue.c:155-156 | the memcpy of bufsize bytes stays inside the string's strlen+1-byte allocation exactly when bufsize <= strlen+1, and then leaves exactly the bytes of CopyOut |
| `CStrings.MemcpyOverreadWitness` | queue.c:155 | removing "a" into a 1024-byte buffer makes memcpy read past the allocation |
| `Ttt.ParseLine` | ttt/ttt.c:76-117 | a line is skipped exactly when it has fewer than 2 characters; otherwise the decremented pair (x, y) lies in [-1, B] x [-1, B], is on the board exactly when the first r-1 characters are accepted, and is then the square they name |
| `Ttt.EndedDecides` | ttt/ttt.c:81-117 | for each way the scan can end (column too large, no leading letter, row too large, stray character, letters only, text exhausted) the decremented values decide the text as Accepts and Decode do |
| `Ttt.GetInput` | ttt/ttt.c:64-121 | the lines are read until the first acceptable one, which selects the returned square (on the board, by the test at line 71); every earlier line is unacceptable; when input runs out first no line was acceptable |
| `Ttt.ColumnMonotone` | ttt/ttt.c:82-89 | reading more letters never lowers the column, so a column once past the board stays past it |
| `Ttt.RowMonotone` | ttt/ttt.c:99-106 | reading more digits never lowers the row |
| `Ttt.ColumnPastBoardRejected` | ttt/ttt.c:84-89 | a text whose leading letters already exceed the board is rejected, whatever follows |
| `Ttt.RowPastBoardRejected` | ttt/ttt.c:101-106 | a text whose row digits already exceed the board is rejected, whatever follows |
| `Ttt.NoLeadingLetterRejected` | ttt/ttt.c:93-97 | a text whose first character is not a letter is rejected |
| `Ttt.StrayCharacterRejected` | ttt/ttt.c:109-114 | any non-digit after the leading letters, a letter included, makes the text rejected |
| `Ttt.LettersOnlyRejected` | ttt/ttt.c:79 | a text of letters only is rejected, since it names no row |
| `Ttt.ColumnOfColumnName` | ttt/ttt.c:83 | the column read from the letters "A".."Z", "AA", ... of column n is n: column reading is a bijective base-26 numeral |
| `Ttt.RowOfRowName` | ttt/ttt.c:100 | the row read from the decimal digits of n is n |
| `Ttt.SquareNameAccepted` | ttt/ttt.c:71-117 | every square (x, y) with x, y < B can be entered: the line naming it is acceptable and selects exactly (x, y) |
| `Ttt.AcceptedExamples` | ttt/ttt.c:82-100 | "a1" and "A1" select (0, 0) and "b3" selects (1, 2) on a 3-board |
| `Ttt.RejectedExamples` | ttt/ttt.c:76-117 | "a0", "1a", "ab", "a1b", "a 1", "d1" and a bare newline are rejected on a 3-board |
| `Ttt.MoveLog.constructor` | ttt/ttt.c:39-40 | the move array of N_GRIDS entries starts zeroed with no move recorded |
| `Ttt.MoveLog.Reset` | ttt/ttt.c:131-132 | the move array is zeroed and the count is 0, at the start of ttt() and likewise at ttt/ttt.c:408-409 |
| `Ttt.MoveLog.Record` | ttt/ttt.c:46-49 | the move is stored at index move_count, which grows by 1: the recorded moves become old moves + [move] and no other entry changes |

## Left out

- Memory management is not modelled. malloc's success or failure is a boolean parameter of New, InsertHead and InsertTail. `free` is not modelled, and Free returns the list of nodes it would release.
- strlen and the string copy in the insertions are not modelled; a node simply holds the string value.
- `size` is an unbounded integer. The `int` overflow after 2^31-1 insertions is not modelled.
- The recursion depth of merge and mergeSortList (stack exhaustion on long queues) is not modelled.
- StringQueue.Reverse sets `tail` after the relinking (ReverseChain) rather than before its loop as queue.c:199 does. The loop never reads `tail`, so the final state is the same.
- The instrumented malloc and free that the lab links in place of the C library ones are not part of this model. Neither is `queue.h`; the two structs are taken from their use in queue.c.
- The sort compares with strcasecmp and takes from the right list on a tie (queue.c:225-230), so equal-up-to-case strings can change places: the sort is not stable (SortNotStable).
- StringQueue.RemoveHead: when a buffer is given and a string is removed, requires `1 <= bufsize <= sp.Length`. queue.c checks neither, and after a removal line 156 with bufsize 0 writes `sp[SIZE_MAX]`, and a bufsize beyond the buffer writes past it, both undefined behaviour; on a NULL or empty queue (lines 147-148) any buffer and bufsize are allowed. Where queue.c:155 reads past the string's strlen+1 bytes, the model instead writes CopyOut's NUL padding (see the Findings row for queue.c:155).
- Ttt.ParseLine: characters are classified as in the C locale, where only ASCII letters and digits count. `isalpha` of a byte above 0x7F on a signed `char` is undefined behaviour, and the model reads such a byte as an ordinary non-letter.
- Ttt.ParseLine: `x` and `y` are unbounded integers. In the code they cannot overflow, because they are capped at BOARD_SIZE+1 as soon as they exceed BOARD_SIZE, so neither ever exceeds 26*BOARD_SIZE+26.
- Ttt.GetInput: the prompt (printf), the error messages, getline and free are left out. The lines typed are a parameter. exit(1) at the end of input is the result EndOfInput.
- Ttt.GetInput returns the pair (x, y) rather than GET_INDEX(y, x), because the macro lives in `ttt.h`.
- Ttt.MoveLog.Record: requires that the array has room. record_move performs no check, and a write past N_GRIDS entries would be out of bounds in C; a game places at most N_GRIDS pieces.
- print_moves is left out; it only prints. SquareName writes the same notation for columns below 26.
- The game loop, check_win, draw_board, the AI players, the raw-mode terminal, and the setjmp/longjmp task scheduler of `ttt/ttt.c` are left out. They are non-local control flow, terminal I/O, or code not part of this model.

## Findings

| source | as written | input that shows it | evidently intended | confidence | as-written member | corrected member |
|---|---|---|---|---|---|---|
| queue.c:155 | `memcpy(sp, q->head->value, bufsize)` copies bufsize bytes from the removed string, whose allocation holds only strlen+1 bytes | removing "a" (2 bytes allocated) with bufsize 1024 reads 1022 bytes past the allocation | copy at most bufsize-1 bytes of the string and terminate it, as the function's comment says (a strncpy-style bounded copy) | not executed | `CStrings.MemcpyOverreadWitness` | `CStrings.CopyOut` |
