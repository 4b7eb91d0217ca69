# trimFits: trimming a FITS file down to selected detectors

This project models the one piece of logic this dataset repository owns itself: the
extension-selection step of `trimFits`. The step receives an opened FITS file and a list of
detector numbers `ccds`. It walks the extension HDUs (header-data units) at positions
1 .. n-1 and collects the positions of those whose `CCDNUM` header is not in `ccds`. It sorts
those positions in descending order and pops them one at a time from the HDU list. What
remains is written out: the primary HDU, then the requested detectors' extensions in their
original order.

Files:

- `hdu_list.dfy`, module `HduLists`: an HDU as a value (its optional `CCDNUM` plus opaque
  remaining content) and the HDU list as a class whose `hdus` sequence `Pop` updates in place.
- `trim_spec.dfy`, module `TrimSpec`: what trimming means. `Trimmed` is the primary followed
  by the surviving extensions. `Removals` and `Kept` are the removed and kept positions.
  `Drop` removes a set of positions while keeping order. The module also holds the lemmas
  that tie these together.
- `trim_fits.dfy`, module `TrimFits`: the step itself as methods with loops.
  `CollectRemovals` is the first loop, `SortDescending` is the reverse sort, `PopAll` is the
  pop loop, and `Trim` runs all three on a fresh `HduList`.

Reading `CCDNUM` from an extension that lacks it raises a `KeyError` in the first loop, so
nothing is popped or written. The model returns `Failure(MissingCcdNum(i))` for the first
such extension `i`. `Trim` succeeds exactly when every extension carries `CCDNUM`. The
primary HDU is never read for `CCDNUM` and may lack it.

## Model

| member | source | states |
|---|---|---|
| `HduLists.HduList.constructor` | scripts/trimFits.py:6 | the opened list holds exactly the file's HDUs |
| `HduLists.HduList.Pop` | scripts/trimFits.py:14 | `pop(i)` returns the HDU at `i`; the list loses exactly that entry and the rest keep their order |
| `TrimFits.CollectRemovals` | scripts/trimFits.py:7-11 | fails exactly when an extension lacks `CCDNUM`, naming the first such index; otherwise returns strictly increasing indices, each in [1, n), and an index is listed iff its `CCDNUM` is not in `ccds` |
| `TrimFits.SortDescending` | scripts/trimFits.py:12 | the result is non-increasing and a permutation of the input |
| `TrimFits.InsertDescending` | scripts/trimFits.py:12 | inserting into a non-increasing list keeps it non-increasing and adds exactly one copy of the element |
| `TrimFits.PopAll` | scripts/trimFits.py:13-14 | popping a strictly decreasing list of in-range positions pops the HDU originally at each position and leaves the original list minus those positions, in order, shorter by the number of pops |
| `TrimFits.Trim` | scripts/trimFits.py:4-16 | succeeds iff every extension has `CCDNUM` (else the first missing index is reported); on success the written list is the primary followed by exactly the extensions whose `CCDNUM` is in `ccds`, in order, with length n minus the number of removal indices |
| `TrimSpec.RemovalsSpec` | scripts/trimFits.py:9-11 | the removal indices are strictly increasing (no duplicates), and k is among them iff 1 <= k < n and extension k does not survive; so the primary is never a candidate |
| `TrimSpec.KeptSpec` | scripts/trimFits.py:9-14 | the kept indices are strictly increasing, k is kept iff k is 0 or extension k survives, and kept plus removed indices number n |
| `TrimSpec.TrimmedSpec` | scripts/trimFits.py:9-14 | the trimmed list starts with the primary HDU and is shorter than the original by exactly the number of removal indices; position j holds the HDU at the j-th kept index, and kept indices are increasing, so surviving HDUs keep their relative order |
| `TrimSpec.NothingToRemove` | scripts/trimFits.py:9-12 | no index is collected iff every extension's `CCDNUM` is in `ccds` |
| `TrimSpec.TrimmedUnchanged` | scripts/trimFits.py:9-14 | trimming leaves the list unchanged iff every extension's `CCDNUM` is in `ccds` |
| `TrimSpec.TrimmedIdempotent` | scripts/trimFits.py:9-14 | a trimmed list has `CCDNUM` on every extension, and trimming it again with the same `ccds` changes nothing |
| `TrimSpec.Report` | scripts/trimFits.py:15 | one label per remaining HDU: "Primary" exactly when that HDU has no `CCDNUM`, otherwise that HDU's own `CCDNUM` |
| `TrimSpec.TrimmedReport` | scripts/trimFits.py:15 | in the report of a trimmed list, the first label is the primary's and every later label is the `CCDNUM` of the HDU at that position, which is in `ccds` |
| `TrimSpec.DropPop` | scripts/trimFits.py:13-14 | when every position already removed lies above i, position i of the remaining list still holds the original HDU i, and popping it removes exactly original position i |
| `TrimSpec.DropIsTrimmed` | scripts/trimFits.py:9-14 | removing exactly the positions of the non-surviving extensions gives the trimmed list |
| `TrimSpec.IncreasingHasNoDuplicates` | scripts/trimFits.py:9-11 | a strictly increasing index list holds each index at most once |
| `TrimSpec.DescendingSortOfIncreasing` | scripts/trimFits.py:12 | sorting the strictly increasing removal list in descending order gives a strictly decreasing list of the same indices |

## Left out

- Opening the input file and writing the output file (`fits.open`, `writeto`) are FITS I/O in an external library. The model takes the opened file's HDUs as a sequence and returns the HDUs that would be written.
- The diagnostic `print` is left out. Only the list of labels it prints is modelled (`Report`).
- The three module-level calls with hard-coded file names and detector lists are script plumbing.
- `scripts/generate_ephemerides_gen3.py` is not part of this model. It is orchestration over an external data-butler framework: repository creation, ingest, a `pipetask` subprocess, and export/import.
- `config/calibrate.py` and `config/datasetIngest.py` are not part of this model. They only assign values to external task configuration objects.
- An HDU's header and data apart from `CCDNUM` are opaque bytes. `CCDNUM` values and `ccds` entries are integers compared by equality, as in the repository's own calls; Python comparisons between other value types are not modelled.
- HduLists.HduList.Pop: requires an index in range and does not model negative indices or the `IndexError` of an out-of-range index. `Trim` only ever pops in-range positive indices, which `PopAll`'s precondition and `Trim`'s proof establish.
- TrimFits.SortDescending: models the contract of `list.sort(reverse=True)` (a non-increasing permutation) with an insertion sort, not Python's own sorting algorithm. On integers that contract determines the result.
