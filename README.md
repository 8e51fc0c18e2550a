# argv-shell word splitter

This project models the one piece of computation in the toy `argv` shell of
`argv-shell.c`. For every line that `getline` returns, the shell does the
following to its buffer in place:

1. It overwrites the last byte read (normally the newline) with NUL
   (`line[n - 1] = '\0'`).
2. It sets `words[0]` to the start of the buffer.
3. A `for` loop calls `strchr(words[i - 1], ' ')` over and over. Each space
   it finds becomes NUL, and a pointer to the byte just after that space is
   stored in `words[i]`.
4. The `NULL` from the last `strchr` ends the vector. That vector is the
   `argv` handed to `execv`.

The model has three modules:

- `CStrings`: bytes, the NUL terminator, `char *` pointers into one buffer
  (`Ptr`), the C string found at an offset, and `strchr`. `strchr` is a
  method with a scanning loop, proved against the predicate `IsStrChr`.
- `WordSplit`: the reference meaning of the split on values.
  - `Split` splits on single spaces and does not collapse runs of spaces.
  - `Join` is its inverse.
  - `Starts` gives the offset at which each word starts.
- `ArgvShell`: the in-place splitter.
  - `SplitWords` works on a byte array and a 256-slot pointer array. It
    follows the source statement by statement.
  - Its loop is `CutAtSpaces`, and one turn of that loop is `CutOnce`.
  - Both are proved against `Blanked`, the buffer after the split, and
    `Argv`, the pointer vector.
  - Lemmas relate `Blanked` and `Argv` to `Split` and `Join`.

Two points about the text the splitter walks:

- `strchr` stops at the first NUL. The splitter therefore works on `Line`:
  the C string at the start of the buffer once byte `n - 1` is NUL. When
  the bytes read hold no NUL of their own, `Line` is exactly the first
  `n - 1` bytes. A NUL byte inside the input cuts the line short, and no
  space after it is touched.
- The splitter does not collapse runs of spaces. Two spaces in a row give
  an empty argument, and the model proves so (`ArgvKeepsEmptyWords`).

## Model

| member | source | states |
|---|---|---|
| CStrings.CStringAt | argv-shell.c:24 | the C string at an offset is the slice up to, not including, the first NUL at or after it, and holds no NUL |
| CStrings.IsStrChr | argv-shell.c:24 | defines the result of `strchr(s + p, c)`: a pointer to the first byte equal to `c` at or after p with no NUL before it, or `NULL` exactly when the C string at p holds no `c` (a search for NUL finds the terminator) |
| CStrings.StrChr | argv-shell.c:24 | `strchr` returns a pointer to the first byte equal to the character sought at or after the start, with neither that character nor NUL before it, or `NULL` exactly when the string holds no such byte |
| WordSplit.Split | argv-shell.c:24-25 | the reference split yields at least one word, and no word contains a space |
| WordSplit.JoinSplit | argv-shell.c:24-25 | joining the words of a line with single spaces gives the line back |
| WordSplit.SplitJoin | argv-shell.c:24-25 | splitting a join of space-free words gives those words back |
| WordSplit.SplitAtSpace | argv-shell.c:24-25 | a space divides the words into those before it and those after it |
| WordSplit.DoubleSpace | argv-shell.c:24-25 | two adjacent spaces put an empty word between the words around them |
| WordSplit.SplitNoSpace | argv-shell.c:24 | a line with no space is a single word, since the first `strchr` returns `NULL` |
| WordSplit.Starts | argv-shell.c:23-25 | the first word starts at offset 0, and every other start lies in (0, length] |
| WordSplit.WordCount | argv-shell.c:24 | there are as many words, and as many word starts, as spaces plus one |
| WordSplit.WordAt | argv-shell.c:24-25 | word k is the slice of the line from its start to its end, so `Starts` and `Split` describe the same words |
| WordSplit.StartsAfterSpace | argv-shell.c:25 | every word start but the first lies just past a space |
| WordSplit.StartsIncreasing | argv-shell.c:24-25 | word starts strictly increase |
| ArgvShell.Terminated | argv-shell.c:20 | defines the buffer after `line[n - 1] = '\0'`: the bytes read, with byte n - 1 replaced by NUL |
| ArgvShell.Line | argv-shell.c:20-24 | the text walked is a prefix of the bytes read, shorter than n and free of NUL, and it ends at byte n - 1 or at an earlier NUL |
| ArgvShell.Blanked | argv-shell.c:20-25 | the split buffer has the same length; it holds NUL at n - 1 and at each space of the line, and the byte read everywhere else |
| ArgvShell.Argv | argv-shell.c:23-25 | defines the `words` vector after the loop: a pointer to each word start of the line, in order, then `NULL` |
| ArgvShell.ArgvStrings | argv-shell.c:34 | defines the argument strings `execv` reads through `words[0]`, `words[1]`, ... up to the `NULL`: the C string at each word start of the split buffer |
| ArgvShell.SplitStep | argv-shell.c:25 | writing NUL at the next space of the line moves the split point past that space |
| ArgvShell.SpaceBefore | argv-shell.c:24 | the i-th `strchr` result is a pointer exactly when word i exists |
| ArgvShell.ScanLine | argv-shell.c:24 | `strchr` over a buffer split up to q finds the next space of the line, or `NULL` when none is left |
| ArgvShell.ScanFinds | argv-shell.c:24 | a `strchr` from the start of word i - 1 returns the space just before word i, or `NULL` after the last word |
| ArgvShell.Begin | argv-shell.c:20-24 | after the newline is erased, `words[0] = line` is set and the first `strchr` runs, the loop invariant holds with i = 1 |
| ArgvShell.Step | argv-shell.c:24-25 | one cut and the next `strchr` carry the loop invariant from i to i + 1 |
| ArgvShell.Finish | argv-shell.c:24 | when `strchr` returns `NULL` the buffer is fully split; i is the number of words, `words` starts with the full vector, and later slots are unchanged |
| ArgvShell.CutOnce | argv-shell.c:24-25 | `*(words[i]++) = '\0'` followed by the next `strchr` keeps the loop invariant with i + 1 |
| ArgvShell.CutAtSpaces | argv-shell.c:24-25 | the loop ends with the buffer equal to `Blanked` and `words` starting with `Argv`, the slots after it unchanged, and i the index of its `NULL` |
| ArgvShell.SplitWords | argv-shell.c:11-25 | given fewer than 255 spaces, the buffer becomes `Blanked`, `words` starts with the `NULL`-terminated `Argv` (which fits in 256 slots), and every later slot is untouched |
| ArgvShell.LastByteErased | argv-shell.c:18-20 | byte n - 1 becomes NUL whatever it was; with no NUL among the bytes read, the line is exactly the first n - 1 bytes, so a last line without a newline loses its last character |
| ArgvShell.ArgvShape | argv-shell.c:23-25 | the vector has spaces + 2 entries. `words[0]` is the buffer start and the last entry is `NULL`. Every other entry points within the line just past a space, and the pointers strictly increase |
| ArgvShell.ArgvOverflow | argv-shell.c:11-24 | with 255 or more spaces the vector needs more than 256 slots, so the unchecked `words[256]` would overflow |
| ArgvShell.EmptyLine | argv-shell.c:20-24 | a line of only the newline gives `words = {line, NULL}`, one empty argument |
| ArgvShell.ArgvWord | argv-shell.c:24-25 | the string `execv` reads through `words[k]` is word k of the reference split |
| ArgvShell.ArgvIsSplit | argv-shell.c:24-25 | the argument strings are exactly `Split` of the line |
| ArgvShell.ArgvRoundTrip | argv-shell.c:20-25 | joining the argument strings with single spaces gives the line back; with no embedded NUL, that is the bytes read minus the last |
| ArgvShell.ArgvKeepsEmptyWords | argv-shell.c:24-25 | runs of spaces are not collapsed: a double space yields an empty argument |
| ArgvShell.OnlySpacesBlanked | argv-shell.c:20-25 | byte n - 1 becomes NUL, and so does each space of the line. Every other byte keeps its value and position, including a space past an embedded NUL. A byte changes exactly when it is one of those and was not already NUL |

## Left out

- Reading lines with `getline` from standard input, the buffer growth it does, and the outer `while` loop (argv-shell.c:18). These are I/O. The buffer contents and the count `n > 0` are inputs to `SplitWords`.
- `fork`, `waitpid`, `execv`, `perror`, `fprintf` and `fflush` (argv-shell.c:27-37). These are process creation and output. The model stops at the vector that `execv` would receive.
- simple-pipe.c and ls-shell.c. They only sequence system calls with fixed arguments and compute nothing.
- A job-control shell with quoting, redirections, pipelines and a job table. No code for it exists in the repository.
- SplitWords: requires fewer than 255 spaces in the line. The source's `words[256]` has no bound check, so a longer line writes past the array, which is undefined behaviour in C that the model cannot represent. `ArgvOverflow` shows the vector would not fit.
- Whether `char` is signed is not modelled. The splitter only compares bytes with `' '` and `'\0'`, so bytes are taken as values 0 to 255.
- Pointers are offsets into the one line buffer. Aliasing between `line` and `words` cannot arise, because they are arrays of different types.
