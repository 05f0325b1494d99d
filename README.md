# ArceOS early allocators and RAM-filesystem directories in Dafny

This project models three pieces of an ArceOS tree and proves properties of them.

- **The bump allocator `EarlyAllocator`.** It hands out byte blocks upward from the bottom of one address range and pages downward from its top. It counts live byte blocks and reclaims the whole byte area when that count drops to zero.
- **The lab allocator `LabByteAllocator`.** It records every live block in an ordered map from address to length. It serves a request first-fit from the gaps between consecutive blocks and the gap after the last one. A cheap pre-check comes before the scan: the live total plus the request must fit in the range.
- **The RAM filesystem's directory node.** This covers path splitting (`split_path`, `split_rpath`), `lookup`, `exist`, `get_entries`, `create_node`, `remove_node`, `create`, `remove` and `rename`.

The files are:

- `allocator.dfy`: `Layout`, the allocator error kinds, and power-of-two mask rounding. `AlignDown` is `x & !(a-1)` and `AlignUp` is `(x+a-1) & !(a-1)`. Both are proved to give the nearest multiple below or above.
- `bump_allocator.dfy`: the class `EarlyAllocator`.
- `lab_allocator.dfy`: a specification of first fit over the gaps of the sorted key sequence, and the class `LabByteAllocator`. Its scan is a loop over the keys in ascending order. The main results are:
  - the scan returns exactly the specified first fit;
  - that fit is the lowest free aligned slot, and the scan fails only when no free slot exists;
  - the pre-check never refuses a request the scan would have served.
- `ramfs_path.dfy` and `name_order.dfy`: path splitting, and the order of names in a directory.
- `ramfs_dir.dfy`: the directory tree. The shared `Arc`/`Weak` nodes become a table from node numbers to nodes, held by the class `RamFs`.
  - Each state-changing method is specified by a function from the old table to the answer and the new table.
  - Lemmas tie those functions to `lookup`: after a `create`, `lookup` of the same path finds the new node; after a `remove`, it finds nothing.
  - `rename` is modelled as written, and next to it as its commented-out draft means it (see "## Findings").
- `scenarios.dfy`: a client sequence of bump-allocator calls whose answers follow from the contracts.

Machine words are unbounded naturals. Every subtraction that could underflow in the source is either required away or proved impossible. Sums are unbounded and never wrap, so the model does not follow the source where a sum would overflow a machine word (see "## Left out").

## Model

| member | source | states |
|---|---|---|
| Allocator.IsPow2 | arceos/modules/bump_allocator/src/lib.rs:106 | a power of two is positive |
| Allocator.AlignDown | arceos/modules/bump_allocator/src/lib.rs:115 | the mask rounding down gives a multiple of `a` at most `x` and within `a` of it, and no larger multiple of `a` is at most `x` |
| Allocator.AlignUp | arceos/modules/bump_allocator/src/lib.rs:42 | the mask rounding up gives a multiple of `a` at least `x` and below `x + a`, and no smaller multiple of `a` is at least `x` |
| Allocator.AlignedToSmallerPow2 | arceos/modules/bump_allocator/src/lib.rs:107-115 | an address aligned to `max(align_pow2, PAGE_SIZE)` is aligned to each of them |
| BumpAllocator.EarlyAllocator.constructor | arceos/modules/bump_allocator/src/lib.rs:30-39 | every field starts at zero |
| BumpAllocator.EarlyAllocator.CanAllocBytes | arceos/modules/bump_allocator/src/lib.rs:41-44 | true exactly when some address aligned to `align`, at or above `b_pos`, leaves `size` bytes below `p_pos` |
| BumpAllocator.EarlyAllocator.CanAllocPages | arceos/modules/bump_allocator/src/lib.rs:46-50 | true exactly when some address aligned to `align`, at or above `b_pos`, leaves `num_pages` pages below `p_pos` |
| BumpAllocator.EarlyAllocator.Init | arceos/modules/bump_allocator/src/lib.rs:54-60 | the range becomes `[start, start+size)`, with both cursors at its ends and the count at zero |
| BumpAllocator.EarlyAllocator.Alloc | arceos/modules/bump_allocator/src/lib.rs:68-81 | succeeds iff `can_alloc_bytes`; then returns the aligned-up `b_pos`, moves `b_pos` past the block and adds one to the count; otherwise `NoMemory` with nothing changed; the cursors never cross |
| BumpAllocator.EarlyAllocator.Dealloc | arceos/modules/bump_allocator/src/lib.rs:83-88 | the count drops by one, saturating at zero; when it is zero, `b_pos` returns to `start` |
| BumpAllocator.EarlyAllocator.AllocPages | arceos/modules/bump_allocator/src/lib.rs:106-119 | succeeds exactly when `CanAllocPages` holds for `max(align_pow2, PAGE_SIZE)`, so iff the rounded-down `p_pos - size` is at or above `b_pos`; the block is aligned to both `align_pow2` and `PAGE_SIZE`, lies between the cursors, and becomes the new `p_pos`; otherwise `NoMemory` with nothing changed |
| BumpAllocator.EarlyAllocator.TotalBytes | arceos/modules/bump_allocator/src/lib.rs:90-92 | the total is used plus available plus the page area |
| BumpAllocator.EarlyAllocator.UsedBytes | arceos/modules/bump_allocator/src/lib.rs:94-96 | no byte is in use while no byte allocation is live, and the used bytes never exceed the range |
| BumpAllocator.EarlyAllocator.AvailableBytes | arceos/modules/bump_allocator/src/lib.rs:98-100 | the available bytes are the largest byte request with alignment 1 that `alloc` would grant: that many fit, one more does not |
| BumpAllocator.EarlyAllocator.TotalPages | arceos/modules/bump_allocator/src/lib.rs:125-127 | the total pages fit in the total bytes |
| BumpAllocator.EarlyAllocator.UsedPages | arceos/modules/bump_allocator/src/lib.rs:129-131 | the used pages fit in the page area |
| BumpAllocator.EarlyAllocator.AvailablePages | arceos/modules/bump_allocator/src/lib.rs:133-135 | used plus available pages never exceed the total pages |
| BumpAllocator.WholePages | arceos/modules/bump_allocator/src/lib.rs:126 | the quotient is the number of whole pages: `r*d <= n < (r+1)*d` |
| BumpAllocator.Max | arceos/modules/bump_allocator/src/lib.rs:107 | the larger of the two, at least each |
| LabAllocator.SortedKeys | arceos/labs/lab_allocator/src/lib.rs:56 | the keys of the map, each once, in strictly ascending order (the `BTreeMap` iteration order) |
| LabAllocator.SumRemove | arceos/labs/lab_allocator/src/lib.rs:93-94 | the running total splits at any entry: removing it subtracts exactly its length |
| LabAllocator.SumWithinRange | arceos/labs/lab_allocator/src/lib.rs:106-108 | disjoint entries in `[start, stop)` add up to at most `stop - start`, so `available_bytes` cannot underflow |
| LabAllocator.GapBounds | arceos/labs/lab_allocator/src/lib.rs:57-60 | each gap starts at or after `start`, after every earlier entry ends and before every later entry starts, so `gap_end - gap_start` cannot underflow |
| LabAllocator.FirstFitFromIndex | arceos/labs/lab_allocator/src/lib.rs:54-86 | what the scan picks is the aligned start of some gap that fits |
| LabAllocator.FittingGapIsFree | arceos/labs/lab_allocator/src/lib.rs:62-65 | the aligned start of a gap that fits is a free slot: aligned, in range, overlapping no entry |
| LabAllocator.FirstFitFromIsFree | arceos/labs/lab_allocator/src/lib.rs:54-86 | whatever the scan picks from any gap on is a free slot |
| LabAllocator.FirstFitFromIsLowest | arceos/labs/lab_allocator/src/lib.rs:54-86 | the scan from a gap finds a slot at or below every free slot at or after that gap |
| LabAllocator.GapBeforeFreeSlot | arceos/labs/lab_allocator/src/lib.rs:54-69 | a free slot at or after a gap the request does not fit in lies at or after the next gap, so skipping that gap loses no slot |
| LabAllocator.GapStep | arceos/labs/lab_allocator/src/lib.rs:54-69 | one step of the scan: the gap ends at the next entry, the next gap starts where that entry ends, and the scan either answers this gap's aligned start, which is a free slot, or moves on to the next gap |
| LabAllocator.FirstFitIsLowestFree | arceos/labs/lab_allocator/src/lib.rs:54-88 | first fit fails iff there is no free slot; otherwise it is the lowest free slot |
| LabAllocator.InsertFreeSlot | arceos/labs/lab_allocator/src/lib.rs:66-67 | recording a free slot adds a new key, keeps entries disjoint and in range, and adds `size` to the total |
| LabAllocator.PreCheckSound | arceos/labs/lab_allocator/src/lib.rs:50-52 | when the live total plus the request exceeds the range, no free slot exists |
| LabAllocator.AllocOutcomeIsLowestFree | arceos/labs/lab_allocator/src/lib.rs:46-89 | `alloc` succeeds iff a free slot exists, and then returns the lowest one |
| LabAllocator.LabByteAllocator.constructor | arceos/labs/lab_allocator/src/lib.rs:20-27 | empty range, empty map, zero total |
| LabAllocator.LabByteAllocator.Init | arceos/labs/lab_allocator/src/lib.rs:31-34 | sets the range to `[start, start+size)` and keeps the map and total |
| LabAllocator.LabByteAllocator.Alloc | arceos/labs/lab_allocator/src/lib.rs:46-89 | answers `NoMemory` from the pre-check, else the first fit or `NotAllocated`; on success the map gains exactly that entry and the total grows by `size`; on failure nothing changes; entries stay disjoint and in range |
| LabAllocator.LabByteAllocator.FindGap | arceos/labs/lab_allocator/src/lib.rs:54-86 | the ascending scan over the entries, then the trailing gap, returns exactly the specified first fit, which is a free slot |
| LabAllocator.LabByteAllocator.Record | arceos/labs/lab_allocator/src/lib.rs:66-67 | inserting the block and adding its size keeps the invariant |
| LabAllocator.LabByteAllocator.Dealloc | arceos/labs/lab_allocator/src/lib.rs:91-96 | removes the entry at `pos` and subtracts its recorded length; an unknown address changes nothing |
| LabAllocator.LabByteAllocator.TotalBytes | arceos/labs/lab_allocator/src/lib.rs:98-100 | every live block lies within the range, so the live lengths add up to at most the total |
| LabAllocator.LabByteAllocator.UsedBytes | arceos/labs/lab_allocator/src/lib.rs:102-104 | the total equals the sum of the live lengths and never exceeds the range |
| LabAllocator.LabByteAllocator.AvailableBytes | arceos/labs/lab_allocator/src/lib.rs:106-108 | the available bytes plus the live lengths make up the range |
| RamFsPath.TrimStart | arceos/axfs_ramfs/src/dir.rs:196 | the result is no longer than the path and does not start with `/` |
| RamFsPath.TrimStartDropsSlashes | arceos/axfs_ramfs/src/dir.rs:196 | what `trim_start_matches('/')` keeps is a suffix of the path, and everything it drops is `/` |
| RamFsPath.Find | arceos/axfs_ramfs/src/dir.rs:197 | the first occurrence, or none when the character is absent |
| RamFsPath.RFind | arceos/axfs_ramfs/src/dir.rs:205 | the last occurrence, or none when the character is absent |
| RamFsPath.SplitPath | arceos/axfs_ramfs/src/dir.rs:195-201 | with no `/` after trimming, the name is the whole trimmed path; otherwise name + `/` + rest is the trimmed path and the name holds no `/` |
| RamFsPath.SplitRPath | arceos/axfs_ramfs/src/dir.rs:203-209 | with no `/` after trimming, the name is the whole trimmed path; otherwise prefix + `/` + name is the trimmed path and the name holds no `/` |
| RamFsPath.TrimStartAppend | arceos/axfs_ramfs/src/dir.rs:196 | trimming a concatenation trims the first part, and the second too when the first was all slashes |
| RamFsPath.SplitPathOfJoin | arceos/axfs_ramfs/src/dir.rs:195-201 | splitting `head/rest`, with `head` non-empty and free of `/`, gives back `head` and `rest` |
| RamFsPath.SplitPathOfName | arceos/axfs_ramfs/src/dir.rs:195-201 | a single component splits into itself and no rest |
| RamFsPath.SplitPathTrimmed | arceos/axfs_ramfs/src/dir.rs:195-201 | `split_path` ignores leading slashes |
| RamFsPath.SplitPathAppend | arceos/axfs_ramfs/src/dir.rs:195-201 | splitting a path joined to a plain component: the component alone when the path is all slashes, else the path's first component with the component joined to its rest |
| RamFsPath.SplitRPathOfJoin | arceos/axfs_ramfs/src/dir.rs:203-209 | splitting `dir/name`, with `dir` not starting with `/` and `name` free of `/`, gives back `dir` and `name` |
| RamFsPath.SplitRPathOfName | arceos/axfs_ramfs/src/dir.rs:203-209 | a single component splits into no prefix and itself |
| RamFsPath.SplitRPathName | arceos/axfs_ramfs/src/dir.rs:203-209 | whatever precedes it, the component after the last `/` is the name |
| NameOrder.BelowTransitive | arceos/axfs_ramfs/src/dir.rs:37 | the name order is transitive |
| NameOrder.BelowTotal | arceos/axfs_ramfs/src/dir.rs:37 | two different names are ordered one way or the other |
| NameOrder.SortedNames | arceos/axfs_ramfs/src/dir.rs:37 | the names of the set, each once, in strictly ascending order |
| RamFsDir.GetEntries | arceos/axfs_ramfs/src/dir.rs:36-38 | exactly the child names, strictly ascending |
| RamFsDir.Exist | arceos/axfs_ramfs/src/dir.rs:41-43 | true exactly when the name is among the entries |
| RamFsDir.LookupStep | arceos/axfs_ramfs/src/dir.rs:85-94 | any failure is `NotFound`; for a plain name, it succeeds iff the name is a child |
| RamFsDir.Lookup | arceos/axfs_ramfs/src/dir.rs:83-101 | a found node is a node of the tree |
| RamFsDir.ResolveParent | arceos/axfs_ramfs/src/dir.rs:105-119 | the walk shared by create and remove ends at a directory with a last component free of `/` |
| RamFsDir.ResolveThenLookup | arceos/axfs_ramfs/src/dir.rs:83-101 | `lookup` of a path whose walk ends at a plain name gives that name's child, or `NotFound` |
| RamFsDir.WithChildren | arceos/axfs_ramfs/src/dir.rs:56 | replacing a directory's children by children of the tree keeps every link inside the tree |
| RamFsDir.CreateNodeIn | arceos/axfs_ramfs/src/dir.rs:46-58 | `AlreadyExists` when the name is taken; `Unsupported` for a kind other than file or directory, both with no change; otherwise exactly the key `name` is added, leading to one new node |
| RamFsDir.RemoveNodeIn | arceos/axfs_ramfs/src/dir.rs:61-71 | `NotFound` for an absent name; `DirectoryNotEmpty` for a directory with children, both with no change; succeeds exactly when `name` is present and is a file or an empty directory, and then exactly the key `name` is removed |
| RamFsDir.CreateAt | arceos/axfs_ramfs/src/dir.rs:103-125 | the tree stays closed, and a failed `create` changes nothing |
| RamFsDir.RemoveAt | arceos/axfs_ramfs/src/dir.rs:127-149 | the tree stays closed, a failed `remove` changes nothing, and a lone `""`, `.` or `..` is `InvalidInput` |
| RamFsDir.CreateAtStep | arceos/axfs_ramfs/src/dir.rs:105-124 | one step of `create`: a last `""`/`.`/`..` is `Ok` unchanged, a last plain name goes to `create_node`, any other component is resolved and the walk continues |
| RamFsDir.ResolveParentExtends | arceos/axfs_ramfs/src/dir.rs:105-119 | adding nodes and children does not change where a successful walk ends |
| RamFsDir.CreateThenLookup | arceos/axfs_ramfs/src/dir.rs:103-125 | after a `create` that made a node, `lookup` of the same path finds that node |
| RamFsDir.RemoveThenLookup | arceos/axfs_ramfs/src/dir.rs:127-149 | after a successful `remove`, `lookup` of the same path answers `NotFound` |
| RamFsDir.DropThenLookup | arceos/axfs_ramfs/src/dir.rs:127-149 | after an entry is deleted, a walk that reached it answers `NotFound` |
| RamFsDir.LookupTrimmed | arceos/axfs_ramfs/src/dir.rs:83-101 | `lookup` ignores leading slashes |
| RamFsDir.LookupName | arceos/axfs_ramfs/src/dir.rs:83-94 | `lookup` of a plain name in a directory is its child of that name, or `NotFound` |
| RamFsDir.LookupAppend | arceos/axfs_ramfs/src/dir.rs:83-101 | `lookup` of a path joined to a plain component walks the path, then takes the component from where it ended; an error on the way is the answer |
| RamFsDir.RenamedChildren | arceos/axfs_ramfs/src/dir.rs:182-185 | after inserting under the destination name and then deleting `src`: `src` is gone, the node is under the destination name when it differs from `src`, every other entry is kept, and when the names coincide the entry is simply deleted |
| RamFsDir.RenameIn | arceos/axfs_ramfs/src/dir.rs:151-188 | `NotFound` unless `src` resolves; `AlreadyExists` when `dst` resolves, both with no change; otherwise only this directory changes, and its children become `RenamedChildren` under the last component of `dst` |
| RamFsDir.RenameThenLookup | arceos/axfs_ramfs/src/dir.rs:151-188 | after a successful `rename`, the last component of `dst` finds the node `src` named when it differs from `src`, and finds nothing when it is `src` itself |
| RamFsDir.FileAndEmptyDirLookups | arceos/axfs_ramfs/src/dir.rs:153-160 | in a directory holding file `f` and empty directory `d`, `f` and `d` resolve, `d/f` does not, and `split_rpath("d/f")` is `("d", "f")` |
| RamFsDir.RenameAsWrittenLosesNode | arceos/axfs_ramfs/src/dir.rs:182-185 | for `rename("f", "d/f")` there, both checks pass and `Ok` is returned, yet afterwards neither `f` nor `d/f` resolves |
| RamFsDir.RenameTarget | arceos/axfs_ramfs/src/dir.rs:160-181 | the intended destination is a directory, under the last component of `dst` |
| RamFsDir.RenameTargetLookup | arceos/axfs_ramfs/src/dir.rs:160-181 | `lookup` of the whole destination ends exactly where the destination's directory and last component lead |
| RamFsDir.RenameInFixed | arceos/axfs_ramfs/src/dir.rs:151-181 | the same two checks and errors as `rename`; succeeds iff they pass and the prefix of `dst` names a directory; a failure changes nothing |
| RamFsDir.RenameFixedThenLookup | arceos/axfs_ramfs/src/dir.rs:160-181 | after the intended `rename`, the node is under the last component in the directory the prefix named; `dst` finds it whenever the prefix still names that directory, always when there is no prefix; a plain `src` no longer resolves |
| RamFsDir.RenameFixedMovesNode | arceos/axfs_ramfs/src/dir.rs:160-181 | the intended `rename("f", "d/f")` succeeds, `d/f` then finds the file, and `f` finds nothing |
| RamFsDir.RamFs.constructor | arceos/axfs_ramfs/src/dir.rs:23-29 | the tree holds only an empty root directory with no parent |
| RamFsDir.RamFs.NewDir | arceos/axfs_ramfs/src/dir.rs:23-29 | a fresh, empty directory with the given parent is added, and nothing else changes |
| RamFsDir.RamFs.SetParent | arceos/axfs_ramfs/src/dir.rs:31-33 | only the parent link of that directory changes |
| RamFsDir.RamFs.CreateNode | arceos/axfs_ramfs/src/dir.rs:46-58 | answer and new tree are as `CreateNodeIn` says; a new node number is used only on success |
| RamFsDir.RamFs.RemoveNode | arceos/axfs_ramfs/src/dir.rs:61-71 | answer and new tree are as `RemoveNodeIn` says |
| RamFsDir.RamFs.Create | arceos/axfs_ramfs/src/dir.rs:103-125 | answer and new tree are as `CreateAt` says |
| RamFsDir.RamFs.Remove | arceos/axfs_ramfs/src/dir.rs:127-149 | answer and new tree are as `RemoveAt` says |
| RamFsDir.RamFs.Rename | arceos/axfs_ramfs/src/dir.rs:151-188 | insert, then delete, in place: answer and new tree are as `RenameIn` says |
| RamFsDir.RamFs.RenameFixed | arceos/axfs_ramfs/src/dir.rs:160-181 | the intended `rename` in place: answer and new tree are as `RenameInFixed` says |

## Left out

- `add_memory` of both allocators and the bump allocator's `dealloc_pages`: their bodies are `todo!()` / `unimplemented!()`.
- Machine-word overflow: all words are unbounded naturals and no sum wraps, so an input large enough to wrap a sum in the source gets the unwrapped answer here. The sums concerned:
  - in the bump allocator, `b_pos + align - 1` and `aligned_pos + size` in `can_alloc_bytes` and `alloc`;
  - in the bump allocator, `start + size` in `init` and `count += 1` in `alloc`;
  - in the lab allocator, `start + size` in `init` and `used + size` in the pre-check of `alloc`;
  - in the lab allocator, `gap_start + align - 1`, `aligned_start + size`, `used += size` and `ptr + len` in `alloc`'s scan.
  For example, a huge `size` wraps `aligned_pos + size` in a release build and passes the check there, while the model answers `NoMemory`.
- BumpAllocator.EarlyAllocator.AllocPages: requires `num_pages * PAGE_SIZE <= p_pos`. Without it, `p_pos - size` underflows in the source.
- BumpAllocator.EarlyAllocator.CanAllocPages: requires `num_pages * PAGE_SIZE <= p_pos`, for the same reason.
- LabAllocator.LabByteAllocator.Alloc requires a non-zero size. A zero-size request can land on an existing entry's address and overwrite that entry's recorded length.
- LabAllocator.LabByteAllocator.Init requires the live entries to lie in the new range. The source sets the range without looking at the map, so a later `init` over a smaller range breaks the allocator's bookkeeping.
- Alignments are assumed to be powers of two, as `Layout` guarantees and as the `align_pow2` argument of `alloc_pages` is named.
- The addresses the allocators hand out are numbers. The memory behind them is not modelled.
- Locking and reference counting in the directory code are not modelled.
  - `RwLock` becomes plain state.
  - `Arc`/`Weak` become node numbers in a table.
  - A parent link never dangles, because the table never drops a node. A node unlinked by `remove` or `rename` stays in the table unreachable.
- Node kinds are taken as known. `as_any().downcast_ref` becomes the tag of the node.
- `FileNode` (`file.rs`) and the `axfs_vfs` trait defaults are not part of this model. A file node is taken to answer `NotADirectory` to `lookup`, `create` and `remove`, and its contents are not modelled.
- `get_attr`, the default-method macro, and the `log` calls are left out; they return constants or only print.
- `axlog` and the `print_with_color` exercise are logging and output and are not modelled.
- RamFsDir.RenameInFixed: the draft at dir.rs:162-181 looks the prefix of `dst` up from the parent of this directory and panics when it names a file. The corrected model looks it up from this directory, where the `AlreadyExists` check looks up `dst`, and answers `NotADirectory` for a file.
- RamFsDir.RenameFixedThenLookup: promises that `dst` resolves afterwards only when the prefix still names the same directory. Moving a directory into itself, as in `rename("a", "a/x")`, deletes the entry the prefix walk goes through.
- Names are sequences of characters. `String`'s byte-wise order is the character order, because UTF-8 keeps code-point order.

## Findings

| source | as written | input that shows it | evidently intended | confidence | as-written member | corrected member |
|---|---|---|---|---|---|---|
| arceos/axfs_ramfs/src/dir.rs:182-185 | `rename` inserts the node under the last component of `dst`, then removes the key `src` | `rename("f", "d/f")` in a directory holding file `f` and empty directory `d`. `f` resolves, `d/f` does not, and `split_rpath` gives `"f"`. The insert overwrites `f` with itself, the remove deletes it, and `Ok` is returned with the file under no name | the node is entered under the last component of `dst` in the directory that `dst`'s prefix names, and `src` is removed from this directory, as the commented-out draft at dir.rs:162-181 does; afterwards `dst` resolves to the node | not executed | RamFsDir.RenameAsWrittenLosesNode | RamFsDir.RenameFixedThenLookup |
