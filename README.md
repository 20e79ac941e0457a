# cw-fungible in Dafny

A model of `Fungible`, the asset identifier of the `cw-fungible` crate
(`src/lib.rs`): a closed union of `Coin(name)`, a chain-native unit named by a
string, and `Token(addr)`, a contract token named by its address. The model
covers its hand-written ordering (`PartialOrd::partial_cmp`) and the three
cw-storage-plus key operations: `PrimaryKey::key`, `Prefixer::prefix` and
`KeyDeserialize::from_vec`.

Files:

- `wrappers.dfy` (module `Wrappers`): `Option` and Rust's `Ordering`, with `reverse`.
- `lex.dfy` (module `Lex`): lexicographic comparison of sequences. This is the order
  Rust's `Ord for [u8]` uses, and so also `Ord for str`, which compares `as_bytes()`.
  It is proved to be a strict total order and to agree with an independent
  definition of "sorts first".
- `utf8.dfy` (module `Utf8`): UTF-8 as section 3 of RFC 3629 lays it out.
  `Encode` models `str::as_bytes`. `Decode` models the UTF-8 check inside
  `String::from_vec` and `Addr::from_vec`. The round trip, soundness, injectivity
  and order preservation (byte order equals code point order) are proved.
- `fungible.dfy` (module `CwFungible`): the `Fungible` datatype, its ordering, its key
  segments and `from_vec`, with the laws relating them.

A Rust `String` is a sequence of Unicode scalar values, and so is a Dafny `string`.
An `Addr` is modelled as the string it wraps, since it derives `PartialEq` and
`PartialOrd` from that string.

Notes on how the model reads `src/lib.rs`:

- A Coin name may be any string, including the empty one: `lib.rs` does no validation.
- `from_vec` indexes `value[0]` without a length check and `unwrap`s the UTF-8
  decoding of the tail. An empty input or a non-UTF-8 tail after tag 0 or 1 panics
  rather than returning an error. Both are preconditions of `FromVec`. The only
  error `from_vec` returns is `ParseErr { target_type: "Fungible", msg: "Invalid type byte" }`,
  for a tag other than 0 and 1.
- The value order puts Token before Coin. The tag bytes put Coin (0) before
  Token (1). `TaggedOrderVersusValueOrder` proves this: within a variant the two
  orders agree, and across variants they are opposite.
- `key` carries no tag. So `from_vec` inverts `prefix` followed by `key`, not
  `key` alone. `KeyAloneMisreadsTag` shows `from_vec` rejecting the bare key of
  `Coin("uluna")`, and `BareKeyRejected` does so for every payload whose first
  character is above U+0001. This is not claimed as a defect of `lib.rs`: which
  bytes reach `from_vec` when a `Map` iterates its keys is decided by
  cw-storage-plus, which is not part of this model.

## Model

| member | source | states |
|---|---|---|
| CwFungible.PartialCmp | src/lib.rs:15-28 | the comparison is always defined (`Some`) |
| CwFungible.StrPartialCmp | src/lib.rs:22-23 | comparing two strings (or addresses) is always defined (`Some`) |
| CwFungible.CmpEqualIff | src/lib.rs:17-19 | the result is `Equal` if and only if the two values are structurally equal |
| CwFungible.StrCmpEqualIff | src/lib.rs:22-23 | payload comparison is `Equal` exactly for identical strings |
| CwFungible.CmpCrossVariant | src/lib.rs:24-25 | any Coin compared with any Token is `Greater`, and any Token compared with any Coin is `Less`, whatever the payloads |
| CwFungible.CmpWithinVariant | src/lib.rs:22-23 | within one variant, the result is the lexicographic comparison of the payloads' UTF-8 bytes, which equals their code-point lexicographic order |
| CwFungible.CmpAntisymmetric | src/lib.rs:15-27 | `cmp(b, a)` is the reverse of `cmp(a, b)` |
| CwFungible.CmpTransitive | src/lib.rs:15-27 | `a < b` and `b < c` imply `a < c` |
| CwFungible.CmpTrichotomy | src/lib.rs:15-27 | exactly one of `a < b`, `a == b`, `b < a` holds |
| CwFungible.LeIsTotalOrder | src/lib.rs:15-27 | `<=` is reflexive, antisymmetric, transitive and total |
| CwFungible.DifferenceDecides | src/lib.rs:22-23 | two payloads of the same variant that first differ at a character compare as that character does, in both argument orders |
| CwFungible.ComparisonExamples | src/lib.rs:74-96 | the equalities and comparisons asserted in `test_comparison` hold |
| CwFungible.PrimaryKey | src/lib.rs:51-56 | `key` is exactly one `Ref` segment, and its bytes decode to the payload, with no tag |
| CwFungible.KeyForgetsVariant | src/lib.rs:51-56 | `Coin(s)` and `Token(s)` have the same `key`; only their `prefix` differs |
| CwFungible.Prefix | src/lib.rs:60-65 | `prefix` is exactly one `Val8` segment, whose byte is 0 for a Coin and 1 for a Token |
| CwFungible.TypeByte | src/lib.rs:62-63 | the tag is at most 1 and is 0 exactly for a Coin |
| CwFungible.TaggedBytesLayout | src/lib.rs:51-65 | the bytes of `prefix` followed by those of `key` are the tag byte followed by the payload's UTF-8 bytes |
| CwFungible.FromVec | src/lib.rs:33-42 | `from_vec` succeeds exactly when the tag is 0 or 1; a value it returns has that tag and encodes back to the tail; otherwise it returns `ParseErr("Fungible", "Invalid type byte")` |
| CwFungible.FromVecRoundTrip | src/lib.rs:33-65 | `from_vec(prefix(v) ++ key(v)) == Ok(v)` for every `v` |
| CwFungible.FromVecTagged | src/lib.rs:35-36 | `[0] ++ b` decodes to `Coin(decode(b))` and `[1] ++ b` to `Token(decode(b))` |
| CwFungible.FromVecRejectsTag | src/lib.rs:37-40 | a tag above 1 gives the `ParseErr`, and no value's tagged bytes start with such a tag |
| CwFungible.KeyAloneMisreadsTag | src/lib.rs:34-40 | an illustration of `CwFungible.BareKeyRejected`: the bare `key` of `Coin("uluna")` is rejected by `from_vec`, because its first payload byte is read as the tag |
| CwFungible.TagPartitionsVariants | src/lib.rs:60-65 | in the tag-then-payload layout (`prefix` bytes, then `key` bytes) the first byte is 0 exactly for Coins and 1 exactly for Tokens |
| CwFungible.BareKeyRejected | src/lib.rs:34-56 | `from_vec` applied to the bare `key` of any value whose payload starts with a character above U+0001 returns the `ParseErr`, since that first byte is read as the tag |
| CwFungible.TaggedOrderVersusValueOrder | src/lib.rs:15-65 | within a variant the value order equals the byte order of the tagged bytes; across variants it is the reverse |
| Lex.Compare | src/lib.rs:22-23 | `Ord for [u8]` (and `str`), reached through `partial_cmp`: equal inputs compare `Equal`, and `Equal` implies equal lengths; its meaning as lexicographic order is proved in `Lex.CompareEqualIff`, `Lex.CompareReverse`, `Lex.CompareTransitive` and against the independent definition in `Lex.CompareLessIff` |
| Lex.CompareEqualIff | src/lib.rs:22-23 | byte-lexicographic comparison is `Equal` exactly for equal sequences |
| Lex.CompareReverse | src/lib.rs:22-23 | swapping the arguments reverses the byte-lexicographic comparison |
| Lex.CompareTransitive | src/lib.rs:22-23 | byte-lexicographic `Less` is transitive |
| Lex.CompareLessIff | src/lib.rs:22-23 | `Less` holds exactly when the first is a proper prefix of the second, or at the first difference its element is smaller |
| Lex.CompareCommonPrefix | src/lib.rs:22-23 | a shared prefix does not change the comparison |
| Utf8.Encode | src/lib.rs:53-54 | `str::as_bytes`: each character takes one to four bytes and only the empty string has no bytes; that it is the UTF-8 encoding inverted by the check in `from_vec` is proved in `Utf8.DecodeEncode` and `Utf8.DecodeIff`, and that it preserves order in `Utf8.EncodeOrder` |
| Utf8.EncodeChar | src/lib.rs:53-54 | one scalar takes 1 to 4 bytes; the lead byte's range gives the width and every later byte is a continuation byte |
| Utf8.DecodeScalar | src/lib.rs:35-36 | an accepted head of input is exactly the encoding of the decoded scalar |
| Utf8.Decode | src/lib.rs:35-36 | whatever the UTF-8 check accepts re-encodes to exactly its input |
| Utf8.DecodeEncode | src/lib.rs:35-36 | decoding the bytes of any string gives that string back |
| Utf8.DecodeIff | src/lib.rs:35-36 | decoding yields `s` if and only if the input is the encoding of `s` |
| Utf8.EncodeInjective | src/lib.rs:53-54 | two strings have the same bytes if and only if they are equal |
| Utf8.EncodeOrder | src/lib.rs:22-23 | the byte order of two strings' encodings equals the order of their code points |
| Utf8.EncodeCharOrder | src/lib.rs:22-23 | the encodings of two scalars first differ at a byte where the smaller scalar's byte is smaller |

## Left out

- The derived `Serialize`, `Deserialize` and `JsonSchema` implementations (src/lib.rs:9): code generated by foreign crates.
- `Debug` and `Clone` (src/lib.rs:9): no behaviour to verify.
- Storage through `cw_storage_plus::Map` on `MockStorage` (src/lib.rs:98-117), including how tuple keys such as `(Coin("uluna"), Token("whDAI"))` are length-prefixed and concatenated. That code lives in cw-storage-plus, which is not part of this model. `Joined` lays segments end to end and does no length prefixing.
- The `Prefix = u8`, `SubPrefix`, `Suffix` and `SuperSuffix` associated types (src/lib.rs:46-49): they only name types, and the partial-key methods the store builds from them are in cw-storage-plus.
- CwFungible.SegmentBytes and CwFungible.Joined: the model's reading of cw-storage-plus's `Key::as_ref` and of laying segments end to end. They serve only to define `TaggedBytes`; `lib.rs` promises nothing about them and nothing is proved about them beyond their definitions.
- Joining `prefix` and `key` of one value: `lib.rs` never concatenates the two. `TaggedBytes` is that tag-then-payload layout, the one `from_vec` reads; no claim is made that a store lays a single `Fungible` key out this way.
- The panics of `from_vec` on an empty input (src/lib.rs:34) and on a tail that is not UTF-8 (src/lib.rs:35-36): preconditions of `CwFungible.FromVec`, not modelled error results.
- The message text of `String::from_utf8`'s error: it is never observed, because the source `unwrap`s it.
- `Addr` validation: `lib.rs` never validates an address; its core builds one through `Addr::from_vec` (src/lib.rs:36), its tests through `Addr::unchecked`.
- A human-readable `Coin(..)`/`Token(..)` string form: `lib.rs` has no `Display` or `FromStr` implementation for `Fungible`.
