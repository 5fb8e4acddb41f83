# Permutation rank engine and text codec, in Dafny

This project models the numeric core of `code_CIS_Project.c`, a tool that
turns documents into text and then into one large integer. The core has
three parts.

- **Permutation engine.** This is the linear-time ranking and unranking of
  Myrvold and Ruskey.
  - `_mr_unrank1` turns a rank into a permutation of 0 .. n-1. It divides
    the rank by k and swaps cells `r` and `k-1`, for k from n down to 1.
  - `get_permutation` starts it from the identity array.
  - `_mr_rank1` goes the other way. It uses an inverse array to swap the
    value n-1 into the last cell, then returns `sub_rank * n + s`.
  - `get_rank` copies the caller's permutation and builds that inverse
    array.
  - GMP integers are `nat`. The shared `vec`, `v` and `inv` buffers are
    Dafny arrays that the methods change in place, exactly as the C
    functions do.
- **Text codec.**
  - `load_text_to_gmp` folds the bytes of a file into one big-endian
    base-256 number. It skips LF and CR.
  - `save_gmp_to_text` sizes a buffer as `ceil(bitlength / 8)` bytes, where
    the bit length of 0 is 1. It fills the buffer from the last cell down
    with `temp % 256`, then writes it with `fputs`, which stops at the
    first NUL.
- **File names.** `has_extension` compares the text after the last '.'
  with an extension. `process_file` dispatches on that test to the PDF,
  Word or plain-text converter.

Layout:

- `arith.dfy` (module `Arith`): factorials, powers, and facts about
  Euclidean division.
- `permutations.dfy` (module `Permutations`): pure functions on sequences.
  - `UnrankFrom`/`Unrank` give the result of `_mr_unrank1`.
  - `Reduce`/`Rank` give the result of `_mr_rank1`.
  - It also holds the bijection theorems.
- `rank_engine.dfy` (module `RankEngine`): the in-place recursive methods
  on arrays. Each is proved against the functions above.
- `codec.dfy` (module `Codec`):
  - specification functions `Encode`, `Value`, `StripLineEnds`,
    `BitLength`, `ByteCount`, `ToBytes`, `Decode` and `TakeUntilNul`;
  - the two loops as methods;
  - the round-trip lemmas.
- `file_types.dfy` (module `FileTypes`): `strrchr`, `has_extension` and
  the `process_file` classifier.

The order is not lexicographic. The identity permutation has rank n! - 1,
not 0 (`RankOfIdentity`); `unrank(0, 4)` is `[1, 2, 3, 0]`, and
`rank([3, 2, 1, 0])` is 16.

Zero decodes to a one-byte buffer holding 0x00, not to an empty buffer:
`mpz_sizeinbase` reports 1 digit for 0. `fputs` then writes nothing, so the
written output is empty (`DecodeZero`).

## Model

| member | source | states |
|---|---|---|
| RankEngine.MrUnrank1 | code_CIS_Project.c:92-108 | The first n cells become `UnrankFrom(rank, old cells)` (divide by n, swap cell `rank % n` with cell n-1, recurse on n-1 cells with the quotient); cells from n on are untouched; n < 1 does nothing |
| RankEngine.GetPermutation | code_CIS_Project.c:152-177 | After filling 0 .. n-1 and unranking, `vec[..n]` is `Unrank(rank, n)`, a permutation of 0 .. n-1, equal to the result for `rank % n!`; other cells unchanged |
| RankEngine.MrRank1 | code_CIS_Project.c:110-150 | Given `inv` inverse to the first n cells of `v`, returns `Rank` of the old cells (so `sub_rank * n + s` at every level), and leaves both arrays holding the identity in their first n cells, other cells unchanged |
| RankEngine.SwapToTop | code_CIS_Project.c:118-124 | The two swaps of one level: `s` is the old last value, `v` trades cells n-1 and `inv[n-1]`, `inv` trades entries `s` and n-1; nothing else changes |
| RankEngine.RankLevelOnArrays | code_CIS_Project.c:118-144 | One level on whole-array snapshots: after the swaps cell n-1 of both arrays holds n-1, later cells are unchanged, the first n-1 cells are again mutually inverse, and the rank is the reduced rank times n plus the old last value |
| RankEngine.RankLevel | code_CIS_Project.c:118-144 | The same level on the first n cells: the swapped array's prefix is `Reduce(p)`, the swapped inverse inverts it, and `Rank(p) = Rank(prefix) * n + p[n-1]` |
| RankEngine.ReducedInverse | code_CIS_Project.c:122-124 | The inverse-array swap keeps `v[inv[k]] == k` for the reduced permutation of 0 .. n-2 and puts n-1 in the last inverse cell |
| RankEngine.ReducedSwap | code_CIS_Project.c:121 | Swapping cell n-1 with cell `inv[n-1]` puts n-1 last and leaves `Reduce(p)` in the first n-1 cells |
| RankEngine.SmallInverse | code_CIS_Project.c:112-115 | With fewer than two cells the permutation and its inverse are the identity and the rank is 0 |
| RankEngine.IdentityExtends | code_CIS_Project.c:140 | After the recursive call the first n-1 cells are the identity and the rest is as before, so the first n cells are the identity |
| RankEngine.GetRank | code_CIS_Project.c:181-231 | For a permutation of 0 .. n-1, builds the copy and the inverse array and returns `Rank(vec[..n])`, which lies in [0, n!); the caller's array is not modified (no modifies clause) |
| Permutations.UnrankFrom | code_CIS_Project.c:92-108 | The value `_mr_unrank1` leaves in the first n cells; unranking keeps the vector's length (its meaning is stated by `UnrankFromShuffles`, `UnrankFromRelabels` and `UnrankPeel`) |
| Permutations.Unrank | code_CIS_Project.c:161-167 | The value `get_permutation` computes: unranking from the identity of length n gives n cells (a permutation by `UnrankIsPermutation`) |
| Permutations.Reduce | code_CIS_Project.c:118-124 | One `_mr_rank1` level on values: the cell that held n-1 gets the old last value, the rest stay; the result is a permutation of 0 .. n-2 |
| Permutations.Rank | code_CIS_Project.c:143-144 | The rank of any permutation of 0 .. n-1 lies in [0, n!) |
| Permutations.UnrankIsPermutation | code_CIS_Project.c:99-104 | Unranking any rank from the identity gives a permutation of 0 .. n-1 |
| Permutations.UnrankFromShuffles | code_CIS_Project.c:103 | Unranking only swaps: every cell of the result comes from the starting vector, and distinct cells stay distinct |
| Permutations.UnrankFromRelabels | code_CIS_Project.c:92-108 | Unranking from any starting vector `v` is `v` indexed by the unranking of the identity |
| Permutations.UnrankWraps | code_CIS_Project.c:99-104 | A rank at or above n! gives the same permutation as the rank modulo n! |
| Permutations.UnrankLast | code_CIS_Project.c:99-103 | The last cell of `Unrank(r, n)` is `r mod n` |
| Permutations.UnrankPeel | code_CIS_Project.c:99-104 | `Unrank(r, n)` is `Unrank(r div n, n-1)` with values `r mod n` and n-1 exchanged, followed by `r mod n` |
| Permutations.ReduceOfUnrank | code_CIS_Project.c:118-124 | Reducing `Unrank(r, n)` gives `Unrank(r div n, n-1)`: a rank level undoes an unrank level |
| Permutations.RankOfUnrank | code_CIS_Project.c:92-150 | For 0 <= r < n!, `Unrank(r, n)` is a permutation and its rank is exactly r |
| Permutations.UnrankOfRank | code_CIS_Project.c:92-150 | For any permutation p, unranking `Rank(p)` with n = length of p gives back p |
| Permutations.RankInjective | code_CIS_Project.c:110-150 | Two permutations of the same length with the same rank are equal |
| Permutations.UnrankInjective | code_CIS_Project.c:92-108 | Two ranks below n! with the same unranking are equal |
| Permutations.PermutationIsOnto | code_CIS_Project.c:200-203 | A permutation of length n contains every value below n, so the inverse array `get_rank` builds is defined everywhere |
| Permutations.InverseGivesPermutation | code_CIS_Project.c:110-124 | An array with an inverse array is a permutation |
| Permutations.RankOfIdentity | code_CIS_Project.c:118-144 | The identity of length n >= 1 has rank n! - 1 (each level has s = n-1 and a no-op swap) |
| Permutations.UnrankZeroOfFour | code_CIS_Project.c:99-103 | `Unrank(0, 4) == [1, 2, 3, 0]` |
| Permutations.RankOfReversedFour | code_CIS_Project.c:143-144 | `Rank([3, 2, 1, 0]) == 16` |
| Codec.Encode | code_CIS_Project.c:250-258 | The fold of `load_text_to_gmp`: the value of k bytes is below 256^k |
| Codec.Value | code_CIS_Project.c:255-256 | The big-endian base-256 value of k bytes is below 256^k |
| Codec.StripLineEnds | code_CIS_Project.c:252-254 | The filtered bytes contain no LF or CR, and each comes from the input |
| Codec.LoadTextToGmp | code_CIS_Project.c:250-258 | The loop computes `Encode(text)`: shift by 8 bits and add each byte that is not LF or CR, in order; this equals the base-256 value of the text with line ends removed |
| Codec.EncodeIsValueOfStripped | code_CIS_Project.c:250-258 | The fold equals the base-256 value of the text with its LF and CR bytes removed |
| Codec.StripLineEndsKeeps | code_CIS_Project.c:252-254 | Text with no LF or CR is kept whole by the filter |
| Codec.EncodeEmpty | code_CIS_Project.c:244-258 | Empty text encodes to 0 |
| Codec.EncodeABC | code_CIS_Project.c:255-256 | "ABC" encodes to 0x414243 = 4276803 |
| Codec.EncodeSkipsLineFeed | code_CIS_Project.c:252-256 | "A\nB" and "AB" both encode to 0x4142 |
| Codec.SaveGmpToText | code_CIS_Project.c:304-325 | The buffer filled from the last cell down is `Decode(x)`: `ByteCount(x)` bytes whose base-256 value is x, with a nonzero first byte when x > 0; the bytes written are those before the first NUL of the terminated buffer |
| Codec.FillBytes | code_CIS_Project.c:316-323 | The fill loop: for x < 256^n the first n cells become `ToBytes(x, n)`, the cells from n on (the NUL) are unchanged |
| Codec.TakeUntilNul | code_CIS_Project.c:325 | `fputs` writes a prefix of the buffer that holds no NUL and stops exactly at the first NUL |
| Codec.TakeUntilNulStops | code_CIS_Project.c:314 | The NUL terminator placed after the buffer does not change what is written |
| Codec.BitLength | code_CIS_Project.c:306 | `mpz_sizeinbase(x, 2)`: at least 1, x < 2^bitlength, and 2^(bitlength-1) <= x for x > 0 |
| Codec.ByteCount | code_CIS_Project.c:307 | `(total_bits + 7) / 8`: at least one byte, and x < 256^bytes, so the buffer can hold x |
| Codec.ByteCountMinimal | code_CIS_Project.c:306-307 | For x > 0 one byte fewer would not hold x |
| Codec.ByteCountExact | code_CIS_Project.c:306-307 | A value with 256^(k-1) <= x < 256^k gets exactly k bytes |
| Codec.ValueOfToBytes | code_CIS_Project.c:316-323 | Extracting k low base-256 digits of an x below 256^k and reading them back gives x |
| Codec.ToBytesOfValue | code_CIS_Project.c:316-323 | Extracting the digits of the value of a byte sequence gives the sequence back |
| Codec.ToBytes | code_CIS_Project.c:316-323 | Extracting k low base-256 digits, most significant first, gives k bytes |
| Codec.Decode | code_CIS_Project.c:304-323 | The filled buffer has `ByteCount(x)` bytes and base-256 value x |
| Codec.DecodeLeadingByte | code_CIS_Project.c:306-323 | For x > 0 the first byte of the buffer is nonzero |
| Codec.LeadingByteBound | code_CIS_Project.c:255-256 | A byte sequence with a nonzero first byte has value at least 256^(length-1) |
| Codec.DecodeZero | code_CIS_Project.c:306-325 | 0 fills a single 0x00 byte, and nothing is written |
| Codec.RoundTrip | code_CIS_Project.c:250-325 | Text with no NUL, LF or CR that is loaded and then saved is written back exactly |
| FileTypes.LastIndexOf | code_CIS_Project.c:15 | `strrchr`: none exactly when the character is absent; otherwise an index holding it with no later occurrence |
| FileTypes.HasExtension | code_CIS_Project.c:14-18 | True only when the name ends in '.' followed by the extension, the extension holds no '.', and a character precedes the '.' |
| FileTypes.HasExtensionIff | code_CIS_Project.c:14-18 | Both directions: true exactly when the name ends in '.' then the extension, the extension has no '.', and the name is at least two characters longer than the extension |
| FileTypes.HasExtensionMeansExtension | code_CIS_Project.c:14-18 | `has_extension(f, e)` holds exactly when the text after the last '.' of f (with that '.' not first) is e |
| FileTypes.HiddenNameHasNoExtension | code_CIS_Project.c:16 | A name whose only '.' is its first character has no extension |
| FileTypes.HasExtensionExamples | code_CIS_Project.c:14-18 | "report.pdf" has "pdf"; "report.PDF", ".pdf", "report.pdf.bak" do not; "README" has no "txt"; "notes.v2.txt" has "txt" |
| FileTypes.Extension | code_CIS_Project.c:14-18 | The text after the last '.', when that '.' is not first: it holds no '.' and is shorter than the name |
| FileTypes.KindOf | code_CIS_Project.c:338-349 | Both directions: PDF exactly for "pdf", Word exactly for "doc" or "docx", plain text exactly for "txt"; anything else, or no extension, is unsupported |
| FileTypes.Classify | code_CIS_Project.c:338-349 | PDF, Word (doc or docx), plain text only when the matching `has_extension` test holds, otherwise unsupported |
| FileTypes.ClassifyByExtension | code_CIS_Project.c:338-349 | The dispatch depends only on the text after the last '.': it equals the kind that extension selects, so the order of the tests does not matter |

## Left out

- LoadTextToGmp: requires text with no NUL byte. The C loop reads the file in `fgets` chunks of up to 1023 bytes, and a NUL drops the rest of its chunk. The model treats the file as one byte sequence and leaves that chunk-dependent loss out.
- File I/O is left out: `fopen`/`fgets`/`fputs`/`fclose`, the exit on a file that cannot be opened, and the exit on a failed `malloc` in `save_gmp_to_text`. File contents enter and leave as byte sequences.
- GMP and `malloc` memory management are left out; `nat` and Dafny arrays replace them. The allocation-failure return of `get_rank` (which leaves `rank_result` unset) is not modelled.
- SaveGmpToText: the C loop index is an `int` set from the `size_t` expression `total_bytes - 1`. For a value needing more than 2^31 bytes that conversion does not give the intended index, the fill loop does not run as modelled, and an unfilled buffer is written. The model's index is unbounded, so its contract holds in the real program only for buffers below 2^31 bytes.
- GetRank: requires its input to be a permutation of 0 .. n-1. The C code writes `inv[vec[i]]` unchecked, and the model does not give that out-of-bounds write a meaning.
- MrUnrank1: n is a `nat`. A negative C `int` n takes the same no-work path as n = 0.
- `mpz_get_ui` of the remainder and of `s` is exact here. Those values are below n, so they always fit an `unsigned long`.
- Timing and latency printing are left out: `clock`, `gettimeofday`, floating-point division, `printf`.
- `pdf_to_text`, `word_to_text`, `copy_text_file` and `find_soffice_path` are left out. They run external programs or copy files; only the choice among them (`Classify`) is modelled.
- Most of the `process_file` orchestration is left out: the output-path `sprintf`s, the call chain load → save → unrank, and the `perm` array it computes and never uses. `main` and the thread pool are left out; their tasks share no mutable state.
