/** Schema keys and label identifiers: `_N_` renders the numeric identifier
    `N`, and any other key is a name whose identifier is its hash. */
module LabelKeys {
  import opened Bytes
  import opened Wrappers
  import opened TypeGraph
  import opened Values
  import opened Decimals
  import Utf8

  const UNDERSCORE: nat := 95

  /** `candidLabelHash`: the Candid hash of the name's UTF-8 bytes. */
  method CandidLabelHash(name: Utf8.Units) returns (hash: u32)
    ensures hash == NameHash(Utf8.Encode(name))
  {
    var bytes := Utf8.Utf8Bytes(name);
    hash := 0;
    for i := 0 to |bytes|
      invariant hash == NameHash(bytes[..i])
    {
      assert bytes[..i + 1][..i] == bytes[..i];
      hash := (hash * 223 + bytes[i]) % U32_LIMIT;
    }
    assert bytes[..|bytes|] == bytes;
  }

  /** `numericKeyId`: a canonical decimal below 2^32 between underscores. */
  function NumericKeyId(key: Utf8.Units): Option<nat> {
    if |key| >= 3 && key[0] == UNDERSCORE && key[|key| - 1] == UNDERSCORE && CanonicalNat(key[1..|key| - 1])
       && Number(key[1..|key| - 1]) < U32_LIMIT
    then Some(Number(key[1..|key| - 1])) else None
  }

  function RenderedKey(id: nat): Utf8.Units {
    [UNDERSCORE] + Decimal(id) + [UNDERSCORE]
  }

  /** A key reads as a number exactly when it is the rendering of that number:
      the two rules never disagree about a key. */
  lemma KeyIsItsRendering(key: Utf8.Units, id: nat)
    ensures NumericKeyId(key) == Some(id) <==> id < U32_LIMIT && key == RenderedKey(id)
  {
    if NumericKeyId(key) == Some(id) {
      var digits := key[1..|key| - 1];
      DecimalOfNumber(digits);
      assert key == [key[0]] + digits + [key[|key| - 1]];
    }
    if id < U32_LIMIT && key == RenderedKey(id) {
      NumberOfDecimal(id);
      assert key[1..|key| - 1] == Decimal(id);
    }
  }

  /** `fieldIdOfKey`: parse back first, else the hash of the name. */
  method FieldIdOfKey(key: Utf8.Units) returns (id: nat)
    ensures id < U32_LIMIT
    ensures id == if NumericKeyId(key).Some? then NumericKeyId(key).value else NameHash(Utf8.Encode(key))
    ensures forall n: nat :: n < U32_LIMIT && key == RenderedKey(n) ==> id == n
  {
    forall n: nat | n < U32_LIMIT && key == RenderedKey(n) ensures NumericKeyId(key) == Some(n) { KeyIsItsRendering(key, n); }
    var numeric := NumericKeyId(key);
    if numeric.Some? { return numeric.value; }
    id := CandidLabelHash(key);
  }
}
