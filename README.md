# pimp-my-peer: a verified model of the vanity peer-id search engine

pimp-my-peer searches the secp256k1 key space for a key pair whose libp2p
peer id contains, starts with or ends with given keywords. This project
models the engine of that search in Dafny and proves its properties:

- **Keywords** (`keyword.dfy`, module `Keyword`): the `Keyword` enum,
  `Keyword::check` with Rust's `starts_with` / `contains` / `ends_with`
  written out, ASCII lower-casing, and the keyword set whose members must
  all hold. `check` is proved against character-by-character reference
  definitions of prefix, suffix and substring.
- **The builder** (`pmp.dfy`, module `Pmp`): the class `PimpMyPeer`, whose
  `starts_with`, `ends_with` and `contains` append one lower-cased keyword to
  its list in place; `is_valid`; and `crunch`, proved to give exactly what
  `pimp` gives on the linear strategy from the 0x61 seed.
- **The search** (`core.dfy`, module `Core`; `par_iter.dfy`, module
  `ParIter`): `pimp` as a first-match scan. Rayon's `find_map_first` returns
  what a left-to-right scan returns. It is modelled that way, and a lemma
  proves that splitting the items into contiguous ranges and keeping the
  leftmost answer changes nothing.
- **Strategies** (`strategy_linear.dfy`, `strategy_linear_memo.dfy`,
  `strategy_identity.dfy`, common parts in `strategy.dfy`): the seed check of
  every constructor, the element map of the linear strategy, the per-worker
  memo of the memoised strategy (a class whose one method updates the map in
  place), and the single element of the identity strategy.
- **Key encodings** (`utils.dfy`, module `Utils`; `bytes.dfy`): the 32-byte
  big-endian scalar (section 2.3.7 of SEC 1 version 2) and the 33-byte
  compressed point (section 2.3.3 of SEC 1 version 2), with their parsers
  and round-trip lemmas.

The group generated by G is modelled as Z_n (module `Secp256k1`, n the
order from section 2.4.1 of SEC 2). A point is held by its discrete
logarithm, so `ecmult_gen(k)` is `k mod n` and `add_ge(G)` is `+1 mod n`.
"The public point is the secret scalar times G" then becomes an equation the
verifier checks. The affine coordinates of a point come from the curve
library. They enter as the function `Curve.affine`. Lemmas that need those
coordinates to lie on the curve assume `Sound(curve)`.

Behaviour worth knowing, proved in the model:

- The identity library refuses a zero secret key, so an item whose secret
  scalar is zero panics in `expect("should parse secret key")`. A linear
  search from the all-zero seed therefore panics on element 0, whatever the
  keywords (`Core.PimpLinearZeroSeedPanics`). The memoised strategy gives
  worker 0 the scalar zero on its first call (`LinearMemo.WorkerZeroFirstCallPanics`).
- The linear strategy casts the index to `u32`, so its sequence repeats
  with period 2^32 (`Linear.ElementWraps`). Below 2^32 no scalar repeats.
- The element map clones `init` and hands the clone to `ecmult_gen`, which
  overwrites it. Each element is one full multiplication, and `init` plays no
  part in the result.

The linear strategy does one full multiplication per element, with no
per-worker incremental additions, and the memoised strategy never adds the
seed (see "## Findings").

## Model

| member | source | states |
|---|---|---|
| `Keyword.Check` | src/keyword.rs:10-16 | StartsWith holds iff its text is a prefix of the input, EndsWith iff a suffix, Contains iff it occurs at some offset |
| `Keyword.StrContainsIsSubstring` | src/keyword.rs:13 | the substring scan finds the keyword exactly when it occurs at some offset of the input |
| `Keyword.EmptyKeywordAccepts` | src/keyword.rs:11-15 | a keyword with empty text accepts every input, for every variant |
| `Keyword.LongKeywordRejects` | src/keyword.rs:11-15 | a keyword longer than the input never matches, for every variant |
| `Keyword.PrefixOrSuffixIsContained` | src/keyword.rs:12-14 | a prefix or suffix match implies a Contains match of the same text |
| `Keyword.IsValid` | src/core.rs:23 | the keyword set accepts an input iff every keyword in it, wherever it stands, checks against the input |
| `Keyword.ToLowercase` | src/pmp.rs:24 | lower-casing keeps the length and maps each character to its lower-case form, changing only A-Z |
| `Keyword.IsValidAppend` | src/pmp.rs:74-77 | the empty keyword set accepts everything; appending a keyword adds exactly one conjunct |
| `Keyword.IsValidOrderIndependent` | src/pmp.rs:74-77 | two keyword lists with the same members in any order accept the same inputs |
| `Keyword.ToLowercaseIdempotent` | src/pmp.rs:77 | lower-casing yields lower case, leaves lower case unchanged and is idempotent |
| `Keyword.LowercasePreservesMatch` | src/pmp.rs:24 | lower-casing both keyword and input keeps a match |
| `Pmp.PimpMyPeer.constructor` | src/pmp.rs:14-18 | a new builder has no keywords |
| `Pmp.PimpMyPeer.StartsWith` | src/pmp.rs:22-26 | appends exactly one lower-cased StartsWith at the end, keeps the earlier keywords, returns the same builder |
| `Pmp.PimpMyPeer.EndsWith` | src/pmp.rs:30-34 | appends exactly one lower-cased EndsWith at the end, keeps the earlier keywords, returns the same builder |
| `Pmp.PimpMyPeer.Contains` | src/pmp.rs:38-42 | appends exactly one lower-cased Contains at the end, keeps the earlier keywords, returns the same builder |
| `Pmp.PimpMyPeer.IsValid` | src/pmp.rs:61-83 | Some iff the stored keywords all hold of the lower-cased peer id (always with none); returns the input keys unchanged with the derived peer id |
| `Pmp.PimpMyPeer.Crunch` | src/pmp.rs:45-57 | equals `pimp` over the linear strategy from the 0x61 seed with the stored keywords |
| `Pmp.CrunchSeedInRange` | src/pmp.rs:51 | the 32 bytes 0x61 denote a number below n, so `crunch` never fails to build its strategy |
| `Pmp.ExactMatchAccepted` | src/pmp.rs:22-42 | the builder stores lower-case keywords, so a peer id that satisfies them as written, in any case, is accepted by `is_valid` |
| `Pmp.IsValidIgnoresCase` | src/pmp.rs:77 | peer ids equal up to case are accepted alike |
| `ParIter.FindMapFirst` | src/core.rs:20 | returns the first hit or the first panic of a left-to-right scan, None iff every item passes |
| `ParIter.FindMapFirstConcat` | src/core.rs:20 | on a front and a back part, the front part's answer wins unless it found nothing |
| `ParIter.SplitSearchIsSequential` | src/core.rs:20 | searching contiguous ranges separately and keeping the leftmost answer equals one sequential scan |
| `ParIter.FindMapFirstCongruent` | src/core.rs:20 | closures that agree on every produced item give the same search result |
| `Core.Pimp` | src/core.rs:14-31 | the returned keys are a candidate pair unchanged, its peer id is derived from its public key and satisfies the keywords, and no earlier item matched or panicked; None iff no item matches |
| `Core.PimpSplitAgrees` | src/core.rs:20 | one worker and many workers over contiguous ranges return the same match |
| `Core.PimpLinearZeroSeedPanics` | src/strategy/linear.rs:46-56 | a linear search from the zero seed panics on element 0 whatever the keywords |
| `Core.PimpIdentity` | src/core.rs:20-28 | the identity strategy finds its one key pair exactly when that pair's peer id matches |
| `Strategy.IntoKeyPair` | src/strategy/linear.rs:55-58 | an element converts iff its scalar is not zero and its point encodes; a zero scalar panics in the secret-key `expect` |
| `Strategy.IntoKeyPairOfMul` | src/utils.rs:58-74 | on a sound curve a scalar and its point convert iff the scalar is not zero, giving the library key pair's public key |
| `Linear.New` | src/strategy/linear.rs:16-31 | panics iff the big-endian seed is at least n; otherwise stores the seed and init = seed·G |
| `Linear.Element` | src/strategy/linear.rs:45-53 | element i's point is its scalar times G, and its scalar is congruent to (i mod 2^32) + seed modulo n |
| `Linear.Items` | src/strategy/linear.rs:39-61 | exactly max_iters items, in index order, item i the converted element i |
| `Linear.OptLen` | src/strategy/linear.rs:63-65 | the reported length is the number of items yielded |
| `Linear.ElementIsSeedPlusIndex` | src/strategy/linear.rs:46-53 | below 2^32, element i is ((seed + i) mod n, (seed + i)·G) |
| `Linear.ElementIsIncremental` | src/strategy/linear.rs:46-53 | below 2^32, element i's point is init with G added i times |
| `Linear.ElementWraps` | src/strategy/linear.rs:46 | the `as u32` cast makes element i + 2^32 equal element i |
| `Linear.ElementsDistinct` | src/strategy/linear.rs:46-49 | below 2^32 no two elements share a secret scalar |
| `Linear.ItemConverts` | src/strategy/linear.rs:55-58 | on a sound curve item i panics iff its scalar is zero, and otherwise is that secret key with the library's public key |
| `LinearMemo.New` | src/strategy/linear_memo.rs:14-30 | panics iff the big-endian seed is at least n; otherwise stores the seed and init = seed·G |
| `LinearMemo.OptLen` | src/strategy/linear_memo.rs:87-89 | the reported length is the number of items a run yields |
| `LinearMemo.MemoScalarFirst` | src/strategy/linear_memo.rs:65-67 | a worker's first scalar is its offset (work_size·t) as u32 added to the base |
| `LinearMemo.MemoScalarNext` | src/strategy/linear_memo.rs:61-64 | adding one to a worker's k-th scalar gives its (k+1)-th |
| `LinearMemo.MemoInvariantUpdate` | src/strategy/linear_memo.rs:60-74 | storing a worker's entry for its next call keeps the memo invariant: every point is its scalar times G, every entry holds its worker's latest scalar |
| `LinearMemo.Memo.constructor` | src/strategy/linear_memo.rs:44 | the memo starts empty and satisfies its invariant |
| `LinearMemo.Memo.Visit` | src/strategy/linear_memo.rs:60-76 | a known worker's entry advances by one and by G, a new one starts at its offset times G; pk = sk·G is kept; other workers' entries are unchanged; the updated entry is returned |
| `LinearMemo.Run` | src/strategy/linear_memo.rs:53-84 | call j yields worker schedule[j]'s scalar for its k-th call, k counting its earlier calls, with that scalar times G |
| `LinearMemo.DriveUnindexed` | src/strategy/linear_memo.rs:38-85 | max_iters calls with work_size = max_iters / threads (integer division) and no seed offset |
| `LinearMemo.DriveUnindexedSeeded` | src/strategy/linear_memo.rs:65-73 | the corrected run, whose scalars start from the seed plus the worker's offset |
| `LinearMemo.SeededSingleWorkerIsLinear` | src/strategy/linear_memo.rs:65-73 | the corrected run with one worker yields the linear strategy's items, up to 2^32 of them |
| `LinearMemo.WorkerZeroFirstCallPanics` | src/strategy/linear_memo.rs:65-82 | as written, worker 0's first call has scalar zero and its item panics |
| `LinearMemo.MemoIgnoresSeed` | src/strategy/linear_memo.rs:65-73 | as written, with a non-zero seed a single worker's first item differs from the linear strategy's |
| `Identity.New` | src/strategy/identity.rs:15-29 | panics iff the big-endian seed is at least n; otherwise stores the seed unchanged and init = seed·G |
| `Identity.Items` | src/strategy/identity.rs:37-54 | exactly one item: the seed as secret scalar with seed·G |
| `Identity.OptLen` | src/strategy/identity.rs:56-58 | the reported length, 1, is the number of items yielded |
| `Identity.SingleItemIsSeedKeyPair` | src/strategy/identity.rs:43-51 | on a sound curve with a non-zero seed the one item is the seed's secret key and the library's public key for it |
| `Utils.SecretKeyTryFromBytes` | src/utils.rs:28 | succeeds iff the 32 bytes denote a number strictly between 0 and n, and then holds that number |
| `Utils.SecretKeyToBytes` | src/utils.rs:27-29 | encoding a secret key and parsing it back gives the same key |
| `Utils.SecretKeyBytesUnique` | src/utils.rs:27-29 | the encoding of a secret key is the only byte string that parses to it |
| `Utils.ScalarToSecretKey` | src/utils.rs:26-29 | succeeds iff the scalar is not zero, returning that scalar; an Err otherwise, never a truncation |
| `Utils.PublicKeyTryFromBytes` | src/utils.rs:23 | accepted iff the bytes are a well-formed compressed encoding whose abscissa has a point on the curve; an accepted key keeps its bytes; a refusal is InvalidPublicKey |
| `Utils.CompressedBytes` | src/utils.rs:17-22 | 33 bytes; byte 0 is 0x03 iff y is odd; parsing gives back x and the parity of y |
| `Utils.CompressedBytesOfParse` | src/utils.rs:17-22 | a well-formed encoding is the encoding of every point with its abscissa and parity |
| `Utils.CompressedOnCurveAccepted` | src/utils.rs:23 | the encoding of a curve point is accepted unchanged |
| `Utils.PublicKeyOf` | src/utils.rs:11-24 | a point on the curve always converts, to a key carrying its x and the parity of y; failures are InvalidPublicKey |
| `Utils.JacobianToPublicKey` | src/utils.rs:11-24 | filling the 33-byte buffer with the tag and x and parsing it computes the point's public key |
| `Utils.KeypairPublic` | src/utils.rs:66 | the key pair's public key is the compressed encoding carrying the abscissa and the parity of the ordinate of secret·G |
| `Utils.JacobianKeyIsKeypairKey` | src/utils.rs:58-74 | scalar·G encoded equals the library key pair's public key for that secret |
| `Secp256k1.SetB32` | src/strategy/linear.rs:18-20 | overflow is reported iff the big-endian value is at least n; without overflow the scalar is that value |
| `Secp256k1.ScalarB32` | src/utils.rs:28 | 32 bytes whose big-endian value is the scalar |
| `Secp256k1.FieldB32` | src/utils.rs:22 | 32 bytes whose big-endian value is the field element |
| `Secp256k1.ScalarAdd` | src/strategy/linear.rs:49 | the sum is congruent to a + b modulo n, and equal to it when below n |
| `Secp256k1.EcmultGen` | src/strategy/linear.rs:52-53 | k·G is the point whose discrete logarithm is k; the point passed in is overwritten and plays no part |
| `Secp256k1.AddG` | src/strategy/linear_memo.rs:63 | adding G to k·G gives (k + 1 mod n)·G |
| `Secp256k1.AddGTimesIsMul` | src/utils.rs:39-56 | adding G to k·G m times gives (k + m mod n)·G |
| `Secp256k1.AddGRepeatedIsMul` | src/utils.rs:39-56 | adding G to itself m - 1 times gives m·G |
| `Bytes.BeBytes` | src/utils.rs:22 | the fixed-width big-endian encoding decodes back to the number |
| `Bytes.BeBytesOfValue` | src/utils.rs:28 | encoding the value of a byte string gives back that byte string |

## Findings

| source | as written | input that shows it | evidently intended | confidence | as-written member | corrected member |
|---|---|---|---|---|---|---|
| src/strategy/linear_memo.rs:65-73 | a worker's first scalar is `(work_size * thread_idx) as u32`; `init` = seed·G is cloned and then overwritten by `ecmult_gen`, so the seed never enters | seed 1, one worker: the first item has scalar 0 (and panics) where the linear strategy's has scalar 1 | start each worker at seed + work_size·t, so one worker reproduces the linear sequence | not executed | `LinearMemo.MemoIgnoresSeed` | `LinearMemo.DriveUnindexedSeeded` |

`LinearMemo.SeededSingleWorkerIsLinear` proves the intended property of the
corrected run: with one worker it yields the linear strategy's items.

## Left out

- src/strategy/random.rs: its elements come from OS randomness (`SecretKey::generate`), which has no behaviour to state.
- src/strategy.rs, src/strategy/mod.rs, src/main.rs and tests/threads_test.rs are not part of this model: an older copy of the strategies, module declarations, the command-line shell, and a test of rayon's thread numbering.
- Elapsed time (`Instant::elapsed`), `println!` and the `Debug` implementations: I/O and clocks.
- Rayon's parallel execution: the search is modelled by the order it guarantees, a left-to-right first match. A parallel run may also evaluate items after the first match, and a panic in one of those would propagate; the model does not capture that.
- The `DashMap` shared between threads and the `map_with` clone of it: the memo is one sequential map, updated as the code intends. The thread index of each call is the `schedule` parameter; the counts and offsets it implies are proved for every schedule. The model takes call j to be item j, so each worker handles its items in ascending index order; rayon's work stealing does not promise that, and the model does not capture a worker whose k-th call is not its k-th item by index.
- Curve arithmetic: points are held by their discrete logarithm. Jacobian-to-affine conversion and field normalisation are the `Curve.affine` parameter, and the multiplication tables (`ECMultGenContext`) are not modelled.
- Peer-id derivation (`PeerId::from_public_key`, multihash and base58) is the `derive` parameter, and a peer id is held by its string form.
- `to_lowercase` is modelled for ASCII only; peer ids are base58.
- `Keywords`, which src/core.rs imports, is not defined in src/keyword.rs. It is modelled as an ordered list of keywords that must all hold, the conjunction src/pmp.rs computes.
- `Scalar::cadd_bit`, which builds the constant one in the memoised strategy, is replaced by the constant 1.
- `max_iters` and thread indices are unbounded naturals. A `usize` wrap of `work_size * thread_idx` would not change the low 32 bits that `as u32` keeps.
- `PublicKey::try_from_bytes` is modelled as the compressed-key parser of the curve library: 33 bytes, tag 0x02 or 0x03, x below p, and x^3 + 7 a square modulo p.
