/**
  The `Fungible` asset identifier of `src/lib.rs`: a closed two-variant union of a
  native coin (by unit name) and a contract token (by address), with the
  hand-written ordering that puts every Token before every Coin, and the
  cw-storage-plus key traits (`PrimaryKey::key`, `Prefixer::prefix`,
  `KeyDeserialize::from_vec`).
*/
module CwFungible {
  import opened Wrappers
  import opened Utf8
  import Lex

  /** `enum Fungible`. An `Addr` is treated as the string it wraps. */
  datatype Fungible = Coin(name: string) | Token(addr: string)

  /** The text a value carries, whichever variant it is. */
  function Payload(f: Fungible): string {
    match f
    case Coin(name) => name
    case Token(addr) => addr
  }

  // ---------------------------------------------------------------------------
  // Ordering

  /**
    `PartialOrd for str` (through `String` and `Addr`): the byte-wise order of the
    UTF-8 encodings. It is always defined.
  */
  function StrPartialCmp(a: string, b: string): (r: Option<Ordering>)
    ensures r.Some?
  {
    Some(Lex.Compare(Encode(a), Encode(b)))
  }

  /** `PartialOrd::partial_cmp` for Fungible. */
  function PartialCmp(self: Fungible, other: Fungible): (r: Option<Ordering>)
    ensures r.Some?
  {
    if self == other then Some(Equal)
    else
      match (self, other)
      case (Coin(a), Coin(b)) => StrPartialCmp(a, b)
      case (Token(a), Token(b)) => StrPartialCmp(a, b)
      case (Coin(_), Token(_)) => Some(Greater)
      case (Token(_), Coin(_)) => Some(Less)
  }

  /** Rust's `<` and `<=` on a `PartialOrd` type. */
  predicate Lt(a: Fungible, b: Fungible) {
    PartialCmp(a, b) == Some(Less)
  }

  predicate Le(a: Fungible, b: Fungible) {
    PartialCmp(a, b) == Some(Less) || PartialCmp(a, b) == Some(Equal)
  }

  /** Comparing two strings yields Equal exactly when they are the same string. */
  lemma StrCmpEqualIff(a: string, b: string)
    ensures StrPartialCmp(a, b) == Some(Equal) <==> a == b
  {
    Lex.CompareEqualIff(Encode(a), Encode(b));
    EncodeInjective(a, b);
  }

  /** Equal is returned for structurally equal values, and only for them. */
  lemma CmpEqualIff(a: Fungible, b: Fungible)
    ensures PartialCmp(a, b) == Some(Equal) <==> a == b
  {
    StrCmpEqualIff(Payload(a), Payload(b));
  }

  /** Variant stratification: every Token sorts before every Coin, whatever the payloads. */
  lemma CmpCrossVariant(name: string, addr: string)
    ensures PartialCmp(Coin(name), Token(addr)) == Some(Greater)
    ensures PartialCmp(Token(addr), Coin(name)) == Some(Less)
  {
  }

  /**
    Within one variant the order is the lexicographic order of the payloads, both
    as UTF-8 bytes (what Rust compares) and as sequences of code points.
  */
  lemma CmpWithinVariant(a: string, b: string)
    ensures PartialCmp(Coin(a), Coin(b)) == Some(Lex.Compare(Encode(a), Encode(b)))
    ensures PartialCmp(Token(a), Token(b)) == Some(Lex.Compare(Encode(a), Encode(b)))
    ensures Lex.Compare(Encode(a), Encode(b)) == Lex.Compare(CodePoints(a), CodePoints(b))
  {
    if a == b {
      Lex.CompareEqualIff(Encode(a), Encode(b));
    }
    EncodeOrder(a, b);
  }

  /** Swapping the arguments reverses the result. */
  lemma CmpAntisymmetric(a: Fungible, b: Fungible)
    ensures PartialCmp(b, a) == Some(PartialCmp(a, b).value.Reverse())
  {
    if a.Coin? == b.Coin? {
      Lex.CompareReverse(Encode(Payload(a)), Encode(Payload(b)));
    }
  }

  /** Less is transitive. */
  lemma CmpTransitive(a: Fungible, b: Fungible, c: Fungible)
    requires Lt(a, b) && Lt(b, c)
    ensures Lt(a, c)
  {
    if a.Coin? == b.Coin? == c.Coin? {
      Lex.CompareTransitive(Encode(Payload(a)), Encode(Payload(b)), Encode(Payload(c)));
      CmpEqualIff(a, c);
      if a == c {
        CmpAntisymmetric(a, b);
      }
    }
  }

  /** For any two values exactly one of a < b, a == b, b < a holds. */
  lemma CmpTrichotomy(a: Fungible, b: Fungible)
    ensures (Lt(a, b) && a != b && !Lt(b, a))
         || (!Lt(a, b) && a == b && !Lt(b, a))
         || (!Lt(a, b) && a != b && Lt(b, a))
  {
    CmpEqualIff(a, b);
    CmpAntisymmetric(a, b);
  }

  /** `<=` is a total order: reflexive, antisymmetric, transitive and total. */
  lemma LeIsTotalOrder()
    ensures forall a :: Le(a, a)
    ensures forall a, b :: Le(a, b) && Le(b, a) ==> a == b
    ensures forall a, b, c :: Le(a, b) && Le(b, c) ==> Le(a, c)
    ensures forall a, b :: Le(a, b) || Le(b, a)
  {
    forall a, b | Le(a, b) && Le(b, a) ensures a == b {
      CmpEqualIff(a, b);
      CmpAntisymmetric(a, b);
    }
    forall a, b, c | Le(a, b) && Le(b, c) ensures Le(a, c) {
      CmpEqualIff(a, b);
      CmpEqualIff(b, c);
      if Lt(a, b) && Lt(b, c) {
        CmpTransitive(a, b, c);
      }
    }
    forall a, b ensures Le(a, b) || Le(b, a) {
      CmpAntisymmetric(a, b);
    }
  }

  // ---------------------------------------------------------------------------
  // Storage keys

  /** The two kinds of `cw_storage_plus::Key` segment this type produces. */
  datatype Key = Ref(bytes: seq<Byte>) | Val8(byte: Byte)

  /** `Key::as_ref`: the bytes a segment stands for. */
  function SegmentBytes(k: Key): (r: seq<Byte>)
    ensures k.Ref? ==> r == k.bytes
    ensures k.Val8? ==> r == [k.byte]
  {
    match k
    case Ref(bytes) => bytes
    case Val8(byte) => [byte]
  }

  /** The bytes of a list of segments laid end to end. */
  function Joined(keys: seq<Key>): seq<Byte> {
    if keys == [] then [] else SegmentBytes(keys[0]) + Joined(keys[1..])
  }

  /**
    `PrimaryKey::key`: one segment holding the payload's UTF-8 bytes, with no tag,
    so that segment decodes back to the payload whichever variant it came from.
  */
  function PrimaryKey(f: Fungible): (r: seq<Key>)
    ensures |r| == 1 && r[0].Ref?
    ensures Decode(r[0].bytes) == Some(Payload(f))
  {
    DecodeEncode(Payload(f));
    match f
    case Coin(coin) => [Ref(Encode(coin))]
    case Token(token) => [Ref(Encode(token))]
  }

  /** The tag byte that `prefix` emits: 0 for Coin, 1 for Token. */
  function TypeByte(f: Fungible): (r: Byte)
    ensures r <= 1 && (r == 0 <==> f.Coin?)
  {
    if f.Coin? then 0 else 1
  }

  /** `Prefixer::prefix`: one single-byte segment carrying the variant tag. */
  function Prefix(f: Fungible): (r: seq<Key>)
    ensures |r| == 1 && r[0].Val8?
    ensures r[0].byte <= 1 && (r[0].byte == 0 <==> f.Coin?)
  {
    [Val8(TypeByte(f))]
  }

  /** `cosmwasm_std::StdError`, restricted to the variant this type raises. */
  datatype StdError = ParseErr(targetType: string, msg: string)

  /** `cosmwasm_std::StdResult`. */
  datatype StdResult<T> = Ok(value: T) | Err(error: StdError)

  /**
    The tag-then-payload layout: the bytes of `prefix` followed by those of `key`.
    This is the layout `from_vec` reads; `lib.rs` itself never joins the two.
  */
  function TaggedBytes(f: Fungible): seq<Byte> {
    Joined(Prefix(f) + PrimaryKey(f))
  }

  /**
    `KeyDeserialize::from_vec`. The Rust function indexes `value[0]` unchecked and
    unwraps the UTF-8 decoding of the tail, so an empty input or a tagged tail
    that is not UTF-8 panics; both are preconditions here.
  */
  function FromVec(value: seq<Byte>): (r: StdResult<Fungible>)
    requires |value| >= 1
    requires value[0] <= 1 ==> Decode(value[1..]).Some?
    ensures r.Ok? <==> value[0] <= 1
    ensures r.Ok? ==> TypeByte(r.value) == value[0] && Encode(Payload(r.value)) == value[1..]
    ensures r.Err? ==> r.error == ParseErr("Fungible", "Invalid type byte")
  {
    match value[0]
    case 0 => Ok(Coin(Decode(value[1..]).value))
    case 1 => Ok(Token(Decode(value[1..]).value))
    case _ => Err(ParseErr("Fungible", "Invalid type byte"))
  }

  /** The tagged bytes are the tag followed by the payload's UTF-8 bytes. */
  lemma TaggedBytesLayout(f: Fungible)
    ensures TaggedBytes(f) == [TypeByte(f)] + Encode(Payload(f))
  {
    var keys := Prefix(f) + PrimaryKey(f);
    var e := Encode(Payload(f));
    assert PrimaryKey(f) == [Ref(e)];
    assert keys == [Val8(TypeByte(f)), Ref(e)];
    assert keys[1..] == [Ref(e)] && keys[1..][1..] == [];
    assert Joined(keys[1..]) == e + [];
  }

  /** Round trip: `from_vec` of `prefix` then `key` gives the original value back. */
  lemma FromVecRoundTrip(f: Fungible)
    ensures |TaggedBytes(f)| >= 1 && Decode(TaggedBytes(f)[1..]) == Some(Payload(f))
    ensures FromVec(TaggedBytes(f)) == Ok(f)
  {
    TaggedBytesLayout(f);
    var b := TaggedBytes(f);
    assert b[1..] == Encode(Payload(f));
    DecodeEncode(Payload(f));
  }

  /** A 0 tag decodes its tail as a Coin name, a 1 tag as a Token address. */
  lemma FromVecTagged(b: seq<Byte>, s: string)
    requires Decode(b) == Some(s)
    ensures FromVec([0] + b) == Ok(Coin(s))
    ensures FromVec([1] + b) == Ok(Token(s))
  {
  }

  /** Any tag byte other than 0 and 1 is rejected, whatever follows it. */
  lemma FromVecRejectsTag(value: seq<Byte>)
    requires |value| >= 1 && value[0] > 1
    ensures FromVec(value) == Err(ParseErr("Fungible", "Invalid type byte"))
    ensures forall f :: TaggedBytes(f) != value
  {
  }

  /** `key` forgets the variant: a Coin and a Token with the same text share it. */
  lemma KeyForgetsVariant(s: string)
    ensures PrimaryKey(Coin(s)) == PrimaryKey(Token(s))
    ensures Prefix(Coin(s)) != Prefix(Token(s))
  {
  }

  /** An illustration of BareKeyRejected: `from_vec` takes the 'u' of the bare key of `Coin("uluna")` as its tag. */
  lemma KeyAloneMisreadsTag()
    ensures FromVec(Joined(PrimaryKey(Coin("uluna")))) == Err(ParseErr("Fungible", "Invalid type byte"))
  {
  }

  /**
    More generally, `from_vec` rejects the bare `key` of every value whose payload
    starts with a character other than U+0000 and U+0001.
  */
  lemma BareKeyRejected(f: Fungible)
    requires |Payload(f)| > 0 && Payload(f)[0] as int > 1
    ensures |Joined(PrimaryKey(f))| >= 1
    ensures FromVec(Joined(PrimaryKey(f))) == Err(ParseErr("Fungible", "Invalid type byte"))
  {
    var e := Encode(Payload(f));
    assert PrimaryKey(f) == [Ref(e)];
    assert Joined(PrimaryKey(f)) == e + Joined([]);
    assert e[0] == EncodeChar(Payload(f)[0])[0];
  }

  /** In the tag-then-payload layout the first byte is 0 exactly for Coins and 1 exactly for Tokens. */
  lemma TagPartitionsVariants(f: Fungible)
    ensures |TaggedBytes(f)| >= 1
    ensures TaggedBytes(f)[0] == 0 <==> f.Coin?
    ensures TaggedBytes(f)[0] == 1 <==> f.Token?
  {
  }

  /**
    Within a variant, the value order and the byte order of the tagged bytes
    agree; across variants they are opposite (Token < Coin, yet Coin's tag 0 is
    below Token's tag 1).
  */
  lemma TaggedOrderVersusValueOrder(a: Fungible, b: Fungible)
    ensures a.Coin? == b.Coin? ==> PartialCmp(a, b) == Some(Lex.Compare(TaggedBytes(a), TaggedBytes(b)))
    ensures a.Coin? != b.Coin? ==> PartialCmp(a, b) == Some(Lex.Compare(TaggedBytes(a), TaggedBytes(b)).Reverse())
  {
    TaggedBytesLayout(a);
    TaggedBytesLayout(b);
    CmpWithinVariant(Payload(a), Payload(b));
    if a.Coin? == b.Coin? {
      Lex.CompareCommonPrefix([TypeByte(a)], Encode(Payload(a)), Encode(Payload(b)));
    }
  }

  // ---------------------------------------------------------------------------
  // The comparisons `test_comparison` asserts

  lemma ComparisonExamples()
    ensures Coin("abc") == Coin("abc") && Token("token1") == Token("token1")
    ensures Lt(Coin("abc"), Coin("def")) && PartialCmp(Coin("def"), Coin("abc")) == Some(Greater)
    ensures PartialCmp(Coin("abc"), Token("token1")) == Some(Greater) && Lt(Token("token1"), Coin("abc"))
    ensures Lt(Token("token1"), Token("token2")) && PartialCmp(Token("token2"), Token("token1")) == Some(Greater)
  {
    DifferenceDecides("abc", "def", 0);
    DifferenceDecides("token1", "token2", 5);
  }

  /** Payloads that first differ at position k compare like their characters there. */
  lemma DifferenceDecides(a: string, b: string, n: nat)
    requires n < |a| && n < |b| && a[..n] == b[..n] && a[n] as int < b[n] as int
    ensures Lt(Coin(a), Coin(b)) && PartialCmp(Coin(b), Coin(a)) == Some(Greater)
    ensures Lt(Token(a), Token(b)) && PartialCmp(Token(b), Token(a)) == Some(Greater)
  {
    CodePointsPrefix(a, n);
    CodePointsPrefix(b, n);
    Lex.CompareDecidedAt(CodePoints(a), CodePoints(b), n);
    CmpWithinVariant(a, b);
    CmpAntisymmetric(Coin(a), Coin(b));
    CmpAntisymmetric(Token(a), Token(b));
  }

}
