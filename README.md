# NFT trait generator: a Dafny model of the generation pipeline

This project models the deterministic core of an NFT image generator.

- **Rules.** A table of rules is checked and then applied to sampled attribute lists.
- **Sampling.** Every property's value is chosen by cumulative-sum inverse-CDF selection.
- **Planning.** A capacity check runs first, and the id range is then split among the workers.
- **Generation.** Each worker resamples until a list passes the rules and is new. It then records the list, names the image `"{index}-{values}.png"` and appends a CSV row.
- **Final check.** Duplicate images are removed by a key built from filename fields. The survivors are renumbered consecutively and each new name is parsed back into an index and trait values.
- **Metadata refresh.** IPFS URLs are rewritten to a gateway and base URLs are recognised. Refresh rounds are built over windows of at most 100 ids, and failed URL lists are kept for retries.

The model treats randomness, the file system and the network as parameters:
- the uniform numbers, the chosen folder and the force-target draw;
- directory listings as sequences of names;
- HTTP responses as values.

Modules:
- `Wrappers`, `Text` (text.dfy): `Option` and the string operations the code relies on (`split`, `join`, `replace`, `str(int)`, `int(str)`, `os.path.join`), with their round trips.
- `Rules` (rules.dfy): `check_rules` and `apply_rules`.
- `Sampler` (sampler.dfy): the first-exceedance choice and `random_attr`.
- `Batch` (batch.dfy): the checks of `generate_images` and the worker sub-ranges.
- `Generation` (worker.dfy): `generate_func`. The class `Worker` holds the `used_attributes` dictionary that the resample loop updates in place.
- `FinalCheck` (final_check.dfy): `remove_duplicate_by_traits` and `generate_csv`.
- `FreshMetadata` (fresh_metadata.dfy): the URL helpers, and the request lists and windows of `main` and `__main__`. The class `Refresher` holds the module-level failed lists and the `first` flag.

Where the code and its documented intent differ, the model follows the code:
- **Capacity.** The capacity check multiplies the number of rows per (folder, prop) (`groupby(...).count()`). This count includes zero-ratio values.
- **Rules are not idempotent.** Applying the rule table twice can change an accepted list again: a later rule's rewrite can make an earlier rule fire on the next pass. `Rules.SecondPassCanDiffer` exhibits such a table.
- **The `$` anchor.** `is_base_url` uses `$`, which also matches just before one final newline. `FreshMetadata.IsBaseUrl` accepts that form as well.
- **Failed-list retries.** A metadata request that answers with a status other than 200 adds nothing to the failed lists. Only a raised exception does.
- **int64 capacity.** `cumprod()` and `sum()` run on numpy int64 and wrap silently. A folder with 13 props of 30 values each has 30^13 combinations, but `sum_count` wraps to a negative number, so every amount is refused (`Batch.OverflowRefusesEveryAmount`).
- **Table width.** `pd.DataFrame(all_data, columns=cols)` raises when the widest row is not exactly as wide as the header, and pads shorter rows with missing values. A value containing `.` splits into extra cells after `replace('.', '-')`, so one such image makes the whole call raise (`FinalCheck.DottedValueWidensRow`).

## Model

| member | source | states |
|---|---|---|
| Rules.CheckRulesIff | src/generate.py:41-44 | the table is valid exactly when no two distinct rows share (prop, value, rule) |
| Rules.CheckRules | src/generate.py:41-44 | the table is valid exactly when no row repeats the (prop, value, rule) of an earlier row |
| Rules.FindProp | src/generate.py:78 | the entry found is the first whose `value[1]` is the prop; none means no entry carries it |
| Rules.ForceTarget | src/generate.py:96-100 | the chosen force target is one of the row's targets |
| Rules.IndexOf | src/generate.py:107 | `list.index` returns the first position holding the element |
| Rules.Forced | src/generate.py:102-114 | forcing keeps every slot, gives every entry of the prop the new value and leaves every other entry unchanged |
| Rules.ForcedIdempotent | src/generate.py:102-114 | forcing the same value twice is forcing it once |
| Rules.ForceRewrite | src/generate.py:102-114 | the force loop rewrites exactly the entries with the target trait_type, as `Forced` describes |
| Rules.ScanForbidden | src/generate.py:86-91 | the forbid scan hits exactly when some entry carries some target |
| Rules.Step | src/generate.py:71-115 | one row raises StopIteration exactly when it is not a no-op and its prop is absent, IndexError exactly when it is a firing force row without targets, and rejects exactly when it is a firing forbid row whose target is present; a row that does not fire passes the list on; an accepted list keeps its slots |
| Rules.Run | src/generate.py:70-116 | an exception after n rows names one of those rows that can raise it |
| Rules.ApplyRow | src/generate.py:71-115 | one pass of the loop body has the effect of its row |
| Rules.ApplyRules | src/generate.py:59-116 | the loop over the rule rows yields the outcome of running the table in order, stopping at the first rejection or exception |
| Rules.RunKeepsSlots | src/generate.py:110-113 | an accepted result has the input's length, folders, props and trait types, and keeps `value[1] == trait_type` |
| Rules.StopIsFinal | src/generate.py:86-91 | once a row rejects or raises, later rows do not change the outcome |
| Rules.RunAgree | src/generate.py:71 | the outcome after n rows depends only on the first n rows of the table |
| Rules.ForbidRejects | src/generate.py:86-91 | a fired forbid row with a present target rejects the whole list |
| Rules.NoFirePassThrough | src/generate.py:72-82 | when no row fires, the list comes back unchanged and accepted |
| Rules.ForceStep | src/generate.py:95-114 | a fired force row sets `value[2]` of every entry of the chosen prop and leaves every other entry unchanged |
| Rules.SingleTargetDeterministic | src/generate.py:96-100 | with at most one target per force row, the random draw does not affect the outcome |
| Rules.ExamplePassThrough | src/generate.py:72-82 | two lists that trigger nothing pass through an example table unchanged |
| Rules.ExampleForceChain | src/generate.py:95-116 | a force rewrite makes a later row fire in the same pass |
| Rules.ExampleForbid | src/generate.py:86-91 | an example forbid row rejects a list carrying its target |
| Rules.SecondPassCanDiffer | src/generate.py:70-116 | applying a table to its own accepted output can change the list again |
| Sampler.FirstExceedance | src/generate.py:136-137 | the index is the first whose prefix sum exceeds k, is in bounds, and has positive weight; none exactly when no prefix sum exceeds k |
| Sampler.PrefixSumMonotone | src/generate.py:136 | the cumulative sums of non-negative ratios never decrease |
| Sampler.ChoiceInterval | src/generate.py:136-137 | index i is chosen exactly when k lies in [prefix(i), prefix(i+1)) |
| Sampler.RandomAttr | src/generate.py:122-147 | one entry per property, each drawn by its first exceedance, with `value[1] == trait_type`; fails exactly when some draw has no exceedance |
| Batch.CapacityIsSumOfProducts | src/generate.py:278-283 | the capacity is the sum over folders of the products of counts, and is undefined when a folder has no rows |
| Batch.Capacity | src/generate.py:278-283 | the capacity is undefined exactly when some folder has no rows, where `cumprod()[-1]` raises |
| Batch.SumCount64Wraps | src/generate.py:278-283 | numpy's int64 `sum_count` exists exactly when the capacity does, is the capacity wrapped to int64, and equals it when it fits |
| Batch.CapacityOverflowExample | src/generate.py:278-283 | a folder of 13 props with 30 values each has capacity 30^13, while `sum_count` wraps to a negative number |
| Batch.OverflowRefusesEveryAmount | src/generate.py:284-286 | with that folder and valid rules, every amount is refused |
| Batch.CombosCount | src/generate.py:282-286 | the product of counts is the number of distinct value combinations of a folder |
| Batch.Partition | src/generate.py:298-307 | one sub-range per process |
| Batch.Bound | src/generate.py:301-302 | `x * amount // processes` is the floor of x * amount / processes |
| Batch.BoundEnds | src/generate.py:301-302 | the first sub-range starts at 0 and the last ends at `amount` |
| Batch.PartitionCovers | src/generate.py:298-307 | the sub-ranges are contiguous, lie within [0, amount], and together enumerate 0..amount-1 in order |
| Batch.FlattenPrefix | src/generate.py:298-307 | the first n sub-ranges together enumerate 0 up to the n-th bound |
| Batch.CountPng | src/generate.py:292-294 | the png count raises exactly when a name has no dot, and is zero exactly when no name's second dot field is `png` |
| Batch.GenerateImagesPlan | src/generate.py:276-307 | generation proceeds exactly when the rules are valid, 0 < amount <= the int64 `sum_count`, the folder holds no png and there is a worker; then the ranges are the partition |
| Generation.RecordOne | src/generate.py:217 | recording one more list adds exactly that key |
| Generation.FileNameShape | src/generate.py:238-240 | the saved name starts with the index and `-` and ends with `.png` |
| Generation.RecordIsUnion | src/generate.py:213-217 | after the loop, the dictionary is the old one plus every accepted list under itself |
| Generation.AppendRow | src/generate.py:247-254 | appending the row of the next index extends the row list to the new accepted list |
| Generation.Try | src/generate.py:207-215 | a draw is taken exactly when the rules accept it and it is new; an exception crashes the worker |
| Generation.ResampleDistinct | src/generate.py:206-218 | accepted lists are pairwise distinct and new to the dictionary, there are at most as many as wanted, and the worker is done exactly when it has all of them |
| Generation.ResampleFromVerdicts | src/generate.py:206-218 | every accepted list is the accepted outcome of some draw |
| Generation.ResampleSound | src/generate.py:206-218 | every accepted list is what `apply_rules` accepted for some sampled draw |
| Generation.FreshDrawIsTaken | src/generate.py:206-218 | a first draw that is accepted and new becomes the first accepted list |
| Generation.Worker.constructor | src/generate.py:405 | a worker starts with an empty `used_attributes` |
| Generation.Worker.NextAccepted | src/generate.py:206-218 | the while loop stops at the next accepted new list and records it, or reports how the worker ends |
| Generation.Worker.GenerateOne | src/generate.py:201-254 | one index adds one accepted list, its dictionary entry and its row, or ends the worker |
| Generation.Worker.GenerateFunc | src/generate.py:182-255 | the header, the rows for indices `start_index + start_id` upward, and the updated dictionary are those of the resample specification |
| FinalCheck.ListPng | src/final_check.py:11 | the listing filter raises exactly when some name has no dot |
| FinalCheck.ListPngMembers | src/final_check.py:11 | the kept names are exactly those whose second dot field is `png` |
| FinalCheck.PyIndex | src/final_check.py:18 | Python indexing succeeds exactly from -len to len-1 |
| FinalCheck.Picks | src/final_check.py:17-22 | the picked fields exist exactly when every column index is valid, and are those fields in column order |
| FinalCheck.TraitKeyFaithful | src/final_check.py:18-23 | with at least one column, two valid names share a key exactly when their picked fields agree, so the join makes no false duplicates |
| FinalCheck.Visit | src/final_check.py:25-28 | one file's first sighting is recorded; a later one is paired with the first file of its key |
| FinalCheck.ScanDuplicates | src/final_check.py:14-28 | the scan stops at the first file without a valid key; a file before it is marked exactly when an earlier file has its key, and is paired with that key's first file |
| FinalCheck.RemoveDuplicateByTraits | src/final_check.py:8-34 | the removed files are exactly the first components of the recorded pairs |
| FinalCheck.OneSurvivorPerKey | src/final_check.py:25-34 | among the examined files, exactly one per key survives, and it comes no later than any file with that key |
| FinalCheck.InsertByPerm | src/final_check.py:42-46 | insertion adds exactly one element |
| FinalCheck.SortBy | src/final_check.py:42-46 | the sort neither adds nor drops an element |
| FinalCheck.InsertBySorted | src/final_check.py:42-46 | insertion into a sorted list keeps it sorted |
| FinalCheck.InsertByWithKey | src/final_check.py:42-46 | insertion keeps the order of the elements with equal keys |
| FinalCheck.SortByProps | src/final_check.py:42-46 | the sort is sorted, a permutation and stable |
| FinalCheck.SortBySorted | src/final_check.py:56-57 | sorting an already sorted list leaves it unchanged |
| FinalCheck.Keyed | src/final_check.py:42-46 | each name with its sort key; raises exactly when some leading field is not an integer |
| FinalCheck.FileSortKey | src/final_check.py:43-45 | `attr.csv` and `.DS_Store` sort with key 0 |
| FinalCheck.FileSortKeyOfNewName | src/final_check.py:43-50 | a renamed image sorts by its new number |
| FinalCheck.PngExtension | src/final_check.py:48 | an accepted name ends with `.png` and has a character before it |
| FinalCheck.PngOnly | src/final_check.py:47-48 | the `.png` files are no more than the listed names |
| FinalCheck.PngOnlyMembers | src/final_check.py:47-48 | a listed name is kept exactly when its extension is `.png` |
| FinalCheck.PngOnlyPrefixOf | src/final_check.py:47-48 | the `.png` files of a prefix of the listing are a prefix of its `.png` files, so the order is kept |
| FinalCheck.NewNameSpec | src/final_check.py:50 | the new name is `str(n)`, a `-`, and everything after the first `-` of the old name, or nothing when it has none |
| FinalCheck.RowFor | src/final_check.py:52-54 | a non-negative number always gives a row, whose index is that number |
| FinalCheck.Parsed | src/final_check.py:52-54 | the rows exist exactly when every new name parses, always for a non-negative START_ID, and match the images in order |
| FinalCheck.RenameAndParse | src/final_check.py:47-55 | the j-th png is renamed to `START_ID + j` and parsed into row j; a failing parse stops after that image's rename |
| FinalCheck.SortRowsMembers | src/final_check.py:56-57 | sorting the rows keeps the same rows and their number |
| FinalCheck.SortKeepsWidth | src/final_check.py:56-60 | pandas' width check gives the same verdict before and after the sort |
| FinalCheck.GenerateCsv | src/final_check.py:37-62 | raises when `random_attr()` or a sort key raises, before any rename; raises after the rename of the first image whose new name does not parse; raises when the widest row is not as wide as the header; otherwise every png is renamed in sorted order and the table has columns `path` plus the trait types, one padded row per image, sorted by index when asked |
| FinalCheck.NewNameIndex | src/final_check.py:50 | the new name's first field is the new number |
| FinalCheck.NewNamesDistinct | src/final_check.py:50-51 | different numbers give different new names |
| FinalCheck.RowsConsecutive | src/final_check.py:54-57 | row j carries index `START_ID + j`, so the final sort leaves the rows unchanged |
| FinalCheck.RowIndex | src/final_check.py:52-54 | the parsed index of a renamed file is its new number |
| FinalCheck.NewNameOfFileName | src/final_check.py:50 | renumbering a generated name gives the generated name for the new number |
| FinalCheck.SplitFileName | src/final_check.py:52 | a generated name splits into its index, its values and `png` |
| FinalCheck.FileNameRoundTrip | src/final_check.py:50-54 | parsing a renumbered generated name gives the new index, the new path and exactly the generated values |
| FinalCheck.GeneratedNameIsPng | src/final_check.py:48 | a generated name passes the `splitext` test of line 48 and the `split(".")` test of line 11 when no value contains `.` |
| FinalCheck.DottedValueWidensRow | src/final_check.py:52-60 | the renamed `0-a.b-c.png` parses to three attribute cells, so a two-trait header makes pandas refuse the table |
| FreshMetadata.IpfsToOpenseaSpec | src/fresh_metadata.py:30-35 | an `ipfs://` URL becomes the gateway prefix plus its rest; any other URL is unchanged |
| FreshMetadata.IpfsToOpenseaIdempotent | src/fresh_metadata.py:20-35 | rewriting twice is rewriting once |
| FreshMetadata.TrailingDigits | src/fresh_metadata.py:48 | the length of the digit run that ends the string |
| FreshMetadata.IsBaseUrlIff | src/fresh_metadata.py:38-52 | the test holds exactly when the pattern `/` digits `$` matches at some position |
| FreshMetadata.BaseUrlWithId | src/fresh_metadata.py:63-65 | a base directory ending in `/` plus a non-negative id is a base URL after the rewrite |
| FreshMetadata.RequestUrls | src/fresh_metadata.py:218-225 | one URL per id of start..end inclusive in order, or one per listed id in list order |
| FreshMetadata.ListedUrls | src/fresh_metadata.py:220-225 | one URL per id, `BASEURL + str(id)`, in list order |
| FreshMetadata.RangeUrlsDistinct | src/fresh_metadata.py:221-222 | the URLs of a full refresh are distinct |
| FreshMetadata.RangeUrlsAreBase | src/fresh_metadata.py:221-222 | every URL of a full refresh from a non-negative id is queried as a base URL |
| FreshMetadata.RemoveFirst | src/fresh_metadata.py:73-74 | `list.remove` shortens the list by one exactly when the URL is present |
| FreshMetadata.AddIfAbsent | src/fresh_metadata.py:99-100 | the guarded append adds exactly the URL and keeps the list duplicate-free |
| FreshMetadata.RemoveFirstDistinct | src/fresh_metadata.py:73-74 | the guarded remove keeps the list duplicate-free and drops exactly that URL |
| FreshMetadata.ImageStepDistinct | src/fresh_metadata.py:84-97 | the image request keeps the image list duplicate-free |
| FreshMetadata.ImageStepSpec | src/fresh_metadata.py:79-97 | on a duplicate-free list an exception adds the URL, a 200 removes exactly it, and any other status changes nothing |
| FreshMetadata.QueryEffectNonBase | src/fresh_metadata.py:104-118 | a URL that is not a base URL leaves the failed base URLs alone; an exception records it as an image, a 200 clears it, any other status changes nothing |
| FreshMetadata.QueryEffectDistinct | src/fresh_metadata.py:55-118 | a query keeps both failed lists duplicate-free |
| FreshMetadata.QueryEffectBase | src/fresh_metadata.py:66-103 | a raising request or a reply without an `image` field records the URL; a non-200 status changes nothing; a success clears the URL, and the image request then records or clears the image |
| FreshMetadata.QueriesDistinct | src/fresh_metadata.py:154-166 | a round of queries keeps both failed lists duplicate-free |
| FreshMetadata.Refresher.constructor | src/fresh_metadata.py:15-17 | both failed lists start empty with `first` set |
| FreshMetadata.Refresher.Query | src/fresh_metadata.py:55-118 | the failed lists after a query are its specified effect, and stay duplicate-free |
| FreshMetadata.Refresher.QueryImage | src/fresh_metadata.py:105-118 | only the image list changes, as the image request specifies |
| FreshMetadata.Refresher.QueryAll | src/fresh_metadata.py:154-166 | the queries run in list order, and the lists stay duplicate-free |
| FreshMetadata.Refresher.Round | src/fresh_metadata.py:194-230 | a round ends the batch exactly when no failure is left after the first pass; otherwise it queries the id URLs or the failed URLs and clears `first` |
| FreshMetadata.Windows | src/fresh_metadata.py:239-245 | the windows start at START, end at AMOUNT, are contiguous and each hold 1 to 100 ids; there are none exactly when START > AMOUNT |
| FreshMetadata.WindowsCover | src/fresh_metadata.py:242-243 | every id in [START, AMOUNT] lies in exactly one window |
| FreshMetadata.WindowsIncreasing | src/fresh_metadata.py:242-243 | a later window starts after an earlier one ends |
| Text.Split | src/final_check.py:18 | `str.split` yields at least one field, and no field contains the separator |
| Text.SplitJoin | src/final_check.py:50 | splitting a join of separator-free parts gives back the parts |
| Text.SplitThenJoin | src/final_check.py:50 | joining the split fields gives back the string |
| Text.JoinEnds | src/final_check.py:50 | a join starts with its first part and ends with its last |
| Text.ReplaceRoundTrip | src/final_check.py:52 | replacing `.` by `-` leaves no `.`, and on a string without `-` the reverse replace restores it |
| Text.IntToString | src/generate.py:239 | `str(n)` is all digits for n >= 0 and starts with `-` otherwise |
| Text.NatToStringRoundTrip | src/final_check.py:54 | the decimal digits of n read back as n |
| Text.IntToStringRoundTrip | src/final_check.py:54 | `int(str(n)) == n` for every integer |
| Text.ParseInt | src/final_check.py:54 | a successful `int()` read ends in a digit, and its sign follows a leading `-` |
| Text.PathJoinSpec | src/final_check.py:49-51 | `os.path.join(a, b)` ends with b, and starts with a unless b is absolute |

## Left out

- Image compositing, transparency detection and JPEG/PNG saving are pixel work in an imaging library.
- The float ratio tables and the `min_ratio * amount >= 1` check are floating-point numerics. The sampler takes exact real ratios.
- The worker pool runs `generate_func` in separate processes. Each process has its own `used_attributes`, so nothing here claims uniqueness across workers. Only the sub-range arithmetic is modelled.
- `eval` of a rule's target list is not modelled. Targets are already-parsed pairs.
- `hash(str(...))` and `sha1` keys are modelled as the attribute list or the joined string itself, so hash collisions are not modelled.
- Calls to `choice`, `sample` and `random` become parameters.
- File-system and CSV plumbing: `os.listdir`, `os.rename`, `os.remove`, `to_csv` and `generate_images_from_attr_csv`.
- `os.walk` subdirectories: `generate_csv` is modelled for the top directory's listing only.
- The header of `generate_csv` is a parameter: the trait types of one `random_attr()` call, or none when that call raises. The draw itself is `Sampler.RandomAttr`.
- A DataFrame cell is kept as the parsed string. The table is not written to disk.
- The HTTP clients, asyncio, `time.sleep` and the recursive retry of `main` are not modelled.
- `opensea_refresh` and `opensea_refresh_tasks` are network calls over a `failed_id` list and are not modelled.
- The constants of src/config.py, src/get_table.py and the upload scripts are not part of this model.
- `Generation.Worker.GenerateFunc`: the resample loop of the source only ends when a valid new list is drawn. Its draws are a finite sequence here, and running out is the extra outcome `OutOfDraws`.
- `FreshMetadata.Refresher.QueryAll`: the asyncio tasks of a round interleave at each request. The model applies the queries one after another in list order.
- `FreshMetadata.IsBaseUrl`: `\d` is modelled as the ASCII digits 0-9, while the `regex` module also accepts other Unicode decimal digits.
- `Text.ParseInt`: `int()` also accepts surrounding whitespace and `_` digit separators. The model accepts an optional sign and ASCII digits only.
