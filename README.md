# Image-sorter ranking pipeline, modelled in Dafny

Image-sorter ranks the images under a folder tree by how well they match a
free-text query. The query and each image are embedded by a pretrained
vision-language model, and each image is scored by cosine similarity. This
project models the part of `main.py` that is the tool's own logic:

- **the corpus enumerator** (`get_image_files_from_main_folder`): the output
  of the directory walk is flattened, root by root and file by file, into the
  joined paths of the files whose lower-cased name ends in `.png`, `.jpg` or
  `.jpeg` (module `Enumerator`, file `enumerator.dfy`);
- **the ranker** (`find_top_matches`): each enumerated path is scored, a
  failure is skipped and never stops the loop (module `Matches`); the matches
  are sorted in place by score, highest first and stably (module `ScoreSort`);
  the first `top_n` are kept (module `Ranker`).

Both are written as the source writes them: methods with loops that append to
a list (`GetImageFiles`, `ScoreAll`), an in-place sort on an array
(`SortByScore`), and the pipeline method `FindTopMatches`. Each method is
proved to compute a specification function (`ImagePaths`, `Scored`,
`SortDesc`, `TopMatches`). The properties the tool promises are lemmas about
those functions.

Inputs that are I/O or foreign code are parameters:

- the directory walk is a sequence of `WalkStep(root, files)`, one per
  directory, in the walk's order (a missing root is an empty walk);
- the query embedding is a function `embedText: string -> Option<F>`; `None`
  is a failure, which the source does not catch, and the pipeline then ends
  with `QueryFailed`;
- the image embedding plus cosine similarity is `similarity(q): string ->
  Option<real>`; `None` stands for the exception the source catches and skips.

Scores are `real`, so no floating point enters the model. Stability is stated
this way: for every score `v`, the subsequence of matches scoring `v` is the
same before and after the sort (`WithScore`). `StableSortUnique` shows that a
sorted sequence with that property is exactly `SortDesc`.

The filter is sometimes read as "the file's extension is `.png`, `.jpg` or
`.jpeg`". The code differs from that reading for names made only of dots
followed by an image extension, such as `.png` or `..png`: such a name has
no extension, but the code tests whether the lower-cased name ends with the
suffix, so it is enumerated. The model follows the code
(`Enumerator.ImageNamesAccepted`).
Python's `s[:n]` is modelled in full by `Ranker.SliceTo`, negative `n`
included.

## Model

| member | source | states |
|---|---|---|
| `Enumerator.GetImageFiles` | main.py:28-35 | the nested loops return exactly flatten-then-filter-then-join of the walk |
| `Enumerator.ImageNamesAccepted` | main.py:33 | the filter ignores case (`Cat.JPG`, `scan.Jpeg`) and accepts a name that is only an extension (`.png`) |
| `Enumerator.ImageNamesRejected` | main.py:33 | the filter tests the end of the name only and needs the dot: `notes.png.txt`, `png` and `photo.gif` are rejected |
| `Enumerator.FlattenMembership` | main.py:31-32 | a file is met by the walk exactly when some walk step lists it under its root |
| `Enumerator.SelectImagesCount` | main.py:32-34 | each image file is kept once per occurrence, and every other file is dropped |
| `Enumerator.SelectImagesAllKept` | main.py:32-34 | when every file is an image, the filter keeps all of them in their order |
| `Enumerator.SelectImagesAppend` | main.py:31-34 | filtering a concatenation gives the two filtered parts in order, so walk order is kept |
| `Enumerator.ImagePathsMembership` | main.py:31-34 | a path is returned exactly when it is the joined path of a walk file with an image name |
| `Enumerator.NoImagesNoPaths` | main.py:30-35 | the result is empty exactly when no file of the walk has an image name, including an empty walk |
| `Enumerator.JoinKeepsImageName` | main.py:34 | joining a directory and an image name gives a path that still ends in an image extension |
| `Enumerator.ImagePathsHaveImageNames` | main.py:33-34 | every returned path ends, case-insensitively, in `.png`, `.jpg` or `.jpeg` |
| `Matches.ScoreAll` | main.py:44-52 | the try/except loop returns one match per successfully scored path, in path order |
| `Matches.ScoredAppend` | main.py:44-52 | scoring a concatenation of path lists gives the two lists' matches in order |
| `Matches.ScoredMembership` | main.py:46-49 | a match is produced exactly for a listed path whose scoring succeeds, carrying that score |
| `Matches.ScoredCount` | main.py:44-52 | each occurrence of a path yields exactly one match when its scoring succeeds, with that score, and none when it fails |
| `Matches.ScoredLength` | main.py:44-52 | at most one match per path; one for each path when all succeed; none when all fail |
| `Matches.ScoredSkipsFailure` | main.py:50-52 | a failing path leaves the matches equal to those of the list without it |
| `ScoreSort.SortByScore` | main.py:55 | the in-place array sort leaves the array equal to the stable descending sort of its old contents |
| `ScoreSort.InsertLast` | main.py:55 | one pass inserts the next element into the sorted prefix after all elements scoring at least as much |
| `ScoreSort.SortDescSorted` | main.py:55 | the sorted matches are non-increasing in score |
| `ScoreSort.SortDescPermutation` | main.py:55 | the sorted matches are a permutation of the matches |
| `ScoreSort.SortDescStable` | main.py:55 | matches with equal scores keep their relative order |
| `ScoreSort.StableSortUnique` | main.py:55 | any score-sorted sequence that keeps every equal-score subsequence is the sort's result |
| `Ranker.FindTopMatches` | main.py:37-60 | fails only when the query embedding fails, else returns the top-N ranking of the walk's images, sorted by score |
| `Ranker.SliceToPrefix` | main.py:58 | the slice is a prefix of length min(n, length) for n >= 0 |
| `Ranker.RankSorted` | main.py:55-58 | the returned list is non-increasing in score |
| `Ranker.RankLength` | main.py:55-58 | with top_n >= 0 the result length is min(top_n, number of scored images) |
| `Ranker.RankEmpty` | main.py:127-130 | with top_n > 0 the result is empty exactly when every image fails to score, including an empty corpus |
| `Ranker.RankSound` | main.py:46-49 | every returned match is a corpus path, paired with the oracle's score for that path |
| `Ranker.RankPrefixOfPermutation` | main.py:55-58 | the result is a prefix of a permutation of the successful matches |
| `Ranker.SortedPrefixKeepsBest` | main.py:55-58 | in a score-sorted list, everything after a prefix scores no higher than anything inside it |
| `Ranker.RankKeepsBest` | main.py:55-58 | every successful match that was left out scores no higher than every returned match |
| `Ranker.RankStable` | main.py:55-58 | for each score, the returned matches with that score are the first in enumeration order |
| `Ranker.RankSkipsFailure` | main.py:44-52 | an image that fails to score gives the ranking of the corpus without it |
| `Ranker.RankScoresBounded` | main.py:48 | if the oracle's scores lie in [-1, 1], so do all returned scores |
| `Ranker.TopMatchesSound` | main.py:42-58 | every returned path is a walk image file's joined path with an image extension and the oracle's score |
| `Ranker.NoImagesNoMatches` | main.py:42-58 | a walk without image files gives an empty ranking |
| `Ranker.CatBeforeCar` | main.py:37-60 | a cat photo scoring above a car photo is ranked first, and both are returned |
| `Ranker.HigherScoreMovesFirst` | main.py:55-58 | two images listed lower score first come back higher score first, both kept |
| `Ranker.CatBeforeCarInWalk` | main.py:28-60 | a folder listing `car.png` before `cat.jpg`, the query scoring the cat higher, gives the cat's joined path first and then the car's |
| `Ranker.CorruptFileSkipped` | main.py:44-52 | with one undecodable file and one valid image, only the valid image is returned |

## Left out

- Loading the CLIP model and running it (main.py:9-26): foreign code over tensors. It is replaced by the functions `embedText` and `similarity`.
- The cosine-similarity arithmetic (main.py:48): floating point, done by a third-party library. Scores are opaque `real` values, so NaN and rounding are not modelled.
- The directory traversal itself (main.py:31): it is filesystem I/O, so its output is an input. The subdirectory lists it yields are not used by the code and are not modelled.
- Join: it follows the POSIX rule for two parts with `/` as the separator. The drive letters and `\` separators of the Windows path rules are not modelled.
- Lower: it lower-cases ASCII only. The source's full Unicode lower-casing is approximated.
- Scoring is modelled as a deterministic function of the path. An image file that changes between calls is not modelled.
- The message printed for a skipped image (main.py:51): console output.
- `show_results` (main.py:62-107): the Tk window, thumbnails and widget lifetimes.
- `open_directory` (main.py:109-119): a call into the operating system's file browser, plus path checks.
- Reading the prompt and the script's top level (main.py:122-130): console I/O. Only the empty-result case is covered, by `Ranker.RankEmpty` and `Ranker.NoImagesNoMatches`.
