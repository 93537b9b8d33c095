# secretArchivesLock: grid compaction and instruction optimizer

This project models the core of `main.js`, a solution to the
"secretArchivesLock" puzzle, and proves properties about it.

The grid is a rectangle of cells. Each cell is empty (`null` in the source)
or holds a token. An instruction string is read one character at a time:

- `L` and `R` slide every token of each row as far as it can go toward the
  left or right edge;
- `U` and `D` do the same within each column, toward the top or bottom edge;
- any other character does nothing.

Beside the engine, an optimizer drops instructions that cannot change the
result. One pass over the string walks it left to right and drops an
instruction when either rule applies:

- rule 1: the next instruction is the same one or its opposite;
- rule 2: its `calledLast` flag says it was the last instruction emitted on
  its axis.

The optimizer runs this pass twice.

The model has four modules.

- `Lines` (`lines.dfy`): the cell type `Cell<T> = Empty | Tok(t)` and the
  packing of one line. `PackLine(s, toEnd)` is the line's tokens in order,
  padded with empty cells at the end or at the start. The module proves
  that packing keeps the tokens, leaves no gap, and is the only line with
  those two properties. It also proves that packing twice along one line is
  packing once toward the second edge.
- `Compaction` (`compaction.dfy`): grids as `seq<seq<Cell<T>>>`, one
  instruction as the function `Compact`, and a string of them as `Run`. It
  proves the two facts the optimizer relies on:
  - an instruction followed by one on the same axis is absorbed by the
    second;
  - packing along one axis survives any instruction on the other axis.
- `Optimizer` (`optimizer.dfy`): `Pass` is one optimizer pass as a function
  of the flag table and the remaining input. `OptimizeRun` is the
  source's pass loop, proved equal to `Pass`, and `OptimizeInstructions` is
  the function that calls it twice, proved equal to the double pass
  `Optimize`. The module proves:
  - equivalence: `Run(g, Optimize(s)) == Run(g, s)` for every grid;
  - the output is a subsequence of the input;
  - between two emissions of one letter, its opposite is emitted;
  - worked examples of the optimizer.
- `Execution` (`execution.dfy`): the source's engine over `array2`
  buffers. Each switch case is a method (`ShiftLeft`, `ShiftUp`,
  `ShiftRight`, `ShiftDown`) that allocates an empty `processArr` and a
  zeroed `countArr`, runs the source's nested loops and writes each token at
  its counter position. Each method is proved to produce `Compact` of its
  input. The inner loops, and for `U`/`D` also the outer loop, are methods
  of their own (`PlaceRow*`, `FillColumns*`) so that each proof stays small.
  `ExecuteInstructions` is proved to compute `Run`.

`LLRR` optimizes to `R`, not to the empty string:

- the two `L`s are dropped by rule 1;
- the first `R` is dropped by rule 1;
- the last `R` is emitted.

`Optimizer.OptimizeExamples` proves
`Optimize("LLRR") == "R"`.

## Model

| member | source | states |
|---|---|---|
| Execution.CreateEmpty2DArr | main.js:190-202 | returns a fresh `h` by `w` buffer whose every cell is empty |
| Execution.CreateArrWithZeroes | main.js:205-212 | returns a fresh array of `l` counters, all zero |
| Execution.PlaceRowLeft | main.js:49-58 | after row `j` is scanned left to right, its counter is the row's token count (at most the width, so every write is in bounds) and the buffer row is the row packed to the left; other rows and counters are untouched |
| Execution.ShiftLeft | main.js:43-62 | case `L`: same shape, and the buffer is `Compact(grid, 'L')`, each row's tokens in order followed by empty cells |
| Execution.PlaceRowRight | main.js:86-94 | after row `j` is scanned right to left, its counter is the row's token count (at most the width) and the buffer row is the row packed to the right; other rows and counters are untouched |
| Execution.ShiftRight | main.js:81-98 | case `R`: same shape, and the buffer is `Compact(grid, 'R')`, empty cells followed by each row's tokens in order |
| Execution.PlaceRowUp | main.js:69-75 | scanning row `i` appends each of its tokens to its column's list; each counter is its list's length and each column of the buffer is its list followed by empty cells |
| Execution.FillColumnsUp | main.js:68-76 | after all rows are scanned top to bottom, each counter is its column's token count (at most the height, so every write is in bounds) and every buffer column holds its column's tokens in order from the top, then empty cells |
| Execution.ShiftUp | main.js:63-80 | case `U`: same shape, and the buffer is `Compact(grid, 'U')` |
| Execution.PlaceRowDown | main.js:105-111 | scanning row `i` puts each of its tokens in front of its column's list; each counter is its list's length and each column of the buffer is empty cells followed by its list |
| Execution.FillColumnsDown | main.js:104-112 | after all rows are scanned bottom to top, each counter is its column's token count (at most the height) and every buffer column holds empty cells and then its column's tokens in order, ending at the bottom |
| Execution.ShiftDown | main.js:99-116 | case `D`: same shape, and the buffer is `Compact(grid, 'D')` |
| Execution.ColumnsFilledAreCompact | main.js:63-116 | a buffer whose columns hold their tokens written from the top (`U`) or from the bottom (`D`) is the compacted grid |
| Execution.ExecuteInstructions | main.js:29-124 | for a grid with at least one row, the result has the input's shape and holds `Run(grid, instructions)` |
| Compaction.Compact | main.js:42-120 | one instruction keeps the grid rectangular with the same height and width; a character other than `L`, `R`, `U`, `D` leaves it unchanged |
| Compaction.Run | main.js:40-121 | running a string keeps the grid's shape |
| Compaction.RunPrefixStep | main.js:40-42 | running one more character applies that character's compaction to the grid reached so far |
| Compaction.CompactKeepsOrder | main.js:49-57 | every row (`L`, `R`) or column (`U`, `D`) keeps exactly its tokens, in their order |
| Compaction.CompactPacks | main.js:43-116 | after an instruction, every line along its axis has no gap toward the instruction's edge |
| Compaction.CompactIsUnique | main.js:43-116 | any grid of the same shape that keeps each line's tokens in order and is packed toward the edge equals the compacted grid |
| Compaction.CompactFixesPacked | main.js:170-173 | an instruction leaves a grid already packed toward its edge unchanged |
| Compaction.SameAxisAbsorbs | main.js:166-169 | compacting with `x` then with `y` on the same axis equals compacting with `y` alone |
| Compaction.PerpendicularKeepsPacked | main.js:170-177 | a grid packed toward `x` stays packed toward `x` after any instruction on the other axis |
| Compaction.Opposite | main.js:136-153 | the opposite table maps each instruction to a different one on the same axis, toward the other edge |
| Compaction.OppositeInvolutive | main.js:136-153 | the opposite of the opposite is the instruction itself |
| Lines.PackLine | main.js:49-57 | packing a line keeps its length; the packed line is its tokens in order, padded with empty cells at the end (`L`, `U`) or at the start (`R`, `D`), which `Lines.PackKeepsTokens` and `Lines.PackIsPacked` state |
| Compaction.PackRows | main.js:43-62 | every row becomes its packed line, and a rectangular grid keeps its height and width |
| Compaction.PackColumns | main.js:63-80 | every column becomes its packed line, and the grid keeps its height and width |
| Lines.PackKeepsTokens | main.js:49-57 | packing a line keeps its tokens and their order |
| Lines.PackIsPacked | main.js:49-57 | a packed line has no gap toward its edge |
| Lines.PackIsUnique | main.js:49-57 | a line of the same length with the same tokens in order and no gap is the packed line |
| Lines.PackedIsFixed | main.js:170-173 | packing a line that has no gap toward the edge returns it unchanged |
| Lines.PackAbsorbs | main.js:166-169 | packing toward one edge and then toward another equals packing toward the second alone |
| Optimizer.Pass | main.js:156-179 | a pass over L/R/U/D input emits only L/R/U/D and never more instructions than it reads |
| Optimizer.Optimize | main.js:183-185 | the double pass emits only L/R/U/D and is never longer than its input |
| Optimizer.PassIsSubsequence | main.js:156-179 | a pass only drops instructions: its output is a subsequence of its input |
| Optimizer.OptimizeIsSubsequence | main.js:126 | the optimized string is a subsequence of the original, hence no longer |
| Optimizer.EmitKeepsFlags | main.js:175-177 | emitting `x` (set its flag, clear its opposite's) keeps "every set flag's edge is packed" true of the grid after `x` |
| Optimizer.PassPreservesRun | main.js:156-179 | from any grid packed toward every instruction whose flag is set, running a pass's output gives the same grid as running its input |
| Optimizer.OptimizePreservesRun | main.js:183-185 | for every grid, running the optimized string gives the same grid as running the original |
| Optimizer.PassAlternates | main.js:170-177 | in a pass's output, two emissions of one letter have its opposite between them, and a letter whose flag starts set is emitted only after its opposite |
| Optimizer.PassOutputAlternates | main.js:156-179 | in one pass from the initial table, two emissions of one letter always have its opposite between them |
| Optimizer.OptimizeRun | main.js:128-181 | the source's loop, with its `calledLast` table and its two `continue` rules, computes exactly `Pass` from the all-false table |
| Optimizer.OptimizeInstructions | main.js:127-186 | the double pass computes `Optimize(s)`, a subsequence of `s` and no longer than it |
| Optimizer.OptimizeExamples | main.js:156-185 | `LR` becomes `R`, `LLRR` becomes `R`, and `LU` stays `LU` |

## Left out

- `main`, `generateRandomArray`, `generateInstructionString`, `nextChar` and `prettyPrintArray` are not modelled. They are the demo driver, random test data from `Math.random`, token labelling and console output.
- Token identity is not modelled. A cell is `Empty` or `Tok(t)` with a type parameter `T`, so the only thing the model can observe is whether a cell is occupied.
- Ragged grids are not modelled. The source takes nested JavaScript arrays and reads the width from the first row; the model's grid is an `array2`, which is always rectangular.
- Execution.ExecuteInstructions: requires at least one row, because the source reads `arr[0].length` before the loop and throws on an empty grid.
- Optimizer.OptimizeRun: requires every character to be `L`, `R`, `U` or `D`, because the source's `instData[curChar].opposite` throws a TypeError for any other character. The same holds for `Optimizer.OptimizeInstructions`, `Optimizer.Pass` and `Optimizer.Optimize`.
- Minimality of the optimized string and idempotence of the double pass are not claimed. The source only says that the second pass removes leftovers of the first.
- The loops of the four switch cases are split into methods of their own (`PlaceRow*`, `FillColumns*`). They run the same iterations in the same order on the same buffers. For case `D`, the row index `height - 1 - j` is computed by the caller and passed in.
