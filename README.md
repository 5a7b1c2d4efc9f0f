# Binary search `srch` — a verified Dafny model

`demo/binsort.c` holds one routine, `srch(a, alen, target)`: a binary search
over `alen` C `int`s sorted in non-decreasing order. It keeps a half-open
window `[base, limit)` that, by the invariant written in the source comment,
contains every index whose element equals `target`. Each pass looks at the
midpoint `base + (limit - base)/2` and moves `base` past it, moves `limit`
down to it, or returns it on equality. An empty window returns `alen`, the
"not found" sentinel. A small driver `main` searches the table
`{1,2,3,4,5,7,8,9,10}` for 7, 6, 12 and 0.

The model is one module, `BinSort`, in `binsort.dfy`:

- `Srch` is the C loop as a Dafny method over `array<Int32>`. It has the
  same window variables, the same midpoint, the same three-way branch, the
  early `return i` and the final `return alen`. Its loop carries the
  source's invariant and `decreases limit - base`.
- `SizeT` (0 .. 2^64 - 1) and `Int32` (-2^31 .. 2^31 - 1) are newtypes for
  C's `size_t` and `int`. These are the widths of an LP64 platform; C
  itself fixes neither. All arithmetic on the window bounds is done in
  `SizeT`, so Dafny checks that none of it wraps.
- `Search` is the same algorithm written as a recursive function of the
  window. `Srch` is proved to return exactly `Search(a[..alen], target, 0,
  alen)`. The lemmas about `Search` therefore hold for the method's result:
  soundness, completeness, the unique-occurrence case and the ends of the
  array. Since that result is a function of the inputs, repeated calls with
  the same arguments give the same answer.
- `Probes` counts the loop's passes. `Srch` returns the count as a ghost
  value and proves it equal to `Probes`. `ProbesBound` bounds the count
  logarithmically in `alen`.
- `DriverQueries` calls `Srch` (through `DriverSrch`) on the driver's table
  with the driver's four targets and proves what each call returns.

## Model

| member | source | states |
|---|---|---|
| `BinSort.Srch` | demo/binsort.c:4-21 | For a sorted prefix `a[..alen]`, the result is in `[0, alen]`. A result below `alen` is an index holding `target`. The result is `alen` exactly when `target` occurs nowhere in the prefix. The result equals the functional model `Search`, and the ghost count of loop passes equals `Probes`. The array is only read. The loop keeps the source invariant (every index holding `target` lies in `[base, limit)`, with `base <= limit <= alen`), and `limit - base` strictly decreases on every pass that does not return. |
| `BinSort.Midpoint` | demo/binsort.c:11-15 | The midpoint of a non-empty window lies inside it (`base <= i < limit`), so the read `a[i]` is in bounds. Both windows that can follow, `[i+1, limit)` and `[base, i)`, are at most half as long as the current one. |
| `BinSort.MidpointSizeT` | demo/binsort.c:11 | Computing `base + (limit - base)/2` in 64-bit `size_t` never wraps for any `size_t` bounds with `base < limit`. The value agrees with the mathematical midpoint and stays inside the window. |
| `BinSort.Search` | demo/binsort.c:7-20 | The loop as a function of the window. The result is either the sentinel `|s|` or an index inside the window that holds `target`. An early return happens only on equality. |
| `BinSort.NoMatchUpTo` | demo/binsort.c:12-13 | In a sorted sequence, `s[i] < target` rules out index `i` and every index below it. Moving `base` to `i+1` therefore keeps the invariant. |
| `BinSort.NoMatchFrom` | demo/binsort.c:14-15 | In a sorted sequence, `s[i] > target` rules out index `i` and every index above it. Moving `limit` to `i` therefore keeps the invariant. |
| `BinSort.SearchFindsIff` | demo/binsort.c:6-20 | For a sorted sequence, searching a window returns a real index exactly when some index in the window holds `target`. Both directions are proved, by induction on `limit - base`. |
| `BinSort.SearchCorrect` | demo/binsort.c:4-21 | For a sorted sequence, searching the whole of it returns a result in `[0, |s|]`. A result below `|s|` holds `target`. The result is `|s|` exactly when `target` is absent. For the empty sequence the result is therefore 0. |
| `BinSort.SearchFindsOnlyOccurrence` | demo/binsort.c:16-17 | When `target` occurs at exactly one index `j` of a sorted sequence, the search returns `j`. It never returns a neighbouring value. |
| `BinSort.SearchFindsEnds` | demo/binsort.c:10-20 | On a strictly increasing non-empty sequence, the first element is found at index 0 and the last at index `|s| - 1`. Strictness is needed: on `[1, 1]` the search for 1 probes index 1 first and returns 1, not 0. |
| `BinSort.Probes` | demo/binsort.c:10-19 | The number of loop passes over a window is 0 exactly when the window is empty, and never more than the window's length. |
| `BinSort.ProbesBound` | demo/binsort.c:10-19 | Over a non-empty window of `n` elements the loop makes `k` passes with `2^k <= 2n`, i.e. at most `floor(log2 n) + 1`. This holds for any input order, since each pass at least halves the window. |
| `BinSort.DriverTable` | demo/binsort.c:25-26 | The driver's table `T` has 9 elements, is sorted, does not contain 6, 12 or 0, and holds 7 only at index 5. |
| `BinSort.DriverSrch` | demo/binsort.c:27-30 | One driver call `srch(T, Tlen, target)` on an array holding `T`: the result is at most 9, a result below 9 indexes an element equal to `target`, and the result is 9 exactly when `target` is not in `T`. |
| `BinSort.DriverQueries` | demo/binsort.c:25-30 | On the driver's table `{1,2,3,4,5,7,8,9,10}` of length 9, `srch` returns 5 for target 7 and returns the sentinel 9 for targets 6, 12 and 0. |

## Left out

- The `printf` output of `main` and its `(int)` casts of the result
  (demo/binsort.c:27-30) are I/O. `DriverQueries` returns the four results
  instead of printing them.
- No runtime check that the input is sorted: the C code has none. Sortedness
  is a `requires` of `Srch`.
- Which occurrence is returned when `target` occurs more than once. The code
  returns whichever midpoint matches first and promises neither the first
  nor the last occurrence, so the model proves neither.
- Memory safety of the C pointer beyond its length. The pointer `a` is
  modelled as a Dafny array with at least `alen` elements
  (`alen <= a.Length`), so aliasing and invalid pointers cannot be expressed.
- The behaviour on unsorted input. The source leaves the result meaningless
  there, and `Srch` requires sortedness. The soundness half of the contract
  (a returned index holds `target`) does not depend on sortedness, but the
  model states it only under the same precondition.
