/** The Candid hash of a name as the Candid specification writes it: the sum of
    its bytes times powers of 223, the last byte weighing one, modulo 2^32. */
module NameHashes {
  import opened Bytes
  import opened TypeGraph

  ghost function Power(n: nat): nat { if n == 0 then 1 else 223 * Power(n - 1) }

  /** The weight of the byte at a position. */
  ghost function Weighted(name: Bytes.Text, i: nat): nat
    requires i < |name|
  { name[i] * Power(|name| - 1 - i) }

  ghost function SumFrom(name: Bytes.Text, i: nat): nat
    requires i <= |name|
    decreases |name| - i
  { if i == |name| then 0 else Weighted(name, i) + SumFrom(name, i + 1) }

  lemma Shifted(b: nat, power: nat)
    ensures b * (223 * power) == 223 * (b * power)
  {
  }

  /** One more byte multiplies what was there by 223. */
  lemma {:induction false} SumGrows(name: Bytes.Text, b: byte, i: nat)
    requires i <= |name|
    ensures SumFrom(name + [b], i) == 223 * SumFrom(name, i) + b
    decreases |name| - i
  {
    var longer := name + [b];
    if i == |name| {
      assert Power(0) == 1 && SumFrom(longer, i + 1) == 0;
    } else {
      SumGrows(name, b, i + 1);
      Shifted(name[i], Power(|name| - 1 - i));
      assert Weighted(longer, i) == 223 * Weighted(name, i);
    }
  }

  lemma ReducedStep(sum: nat, b: nat)
    ensures (sum % U32_LIMIT * 223 + b) % U32_LIMIT == (223 * sum + b) % U32_LIMIT
  {
    var q := sum / U32_LIMIT;
    assert 223 * sum + b == (sum % U32_LIMIT * 223 + b) + U32_LIMIT * (223 * q);
    Reduced(sum % U32_LIMIT * 223 + b, 223 * q);
  }

  lemma {:induction false} Reduced(m: nat, k: nat)
    ensures (m + U32_LIMIT * k) % U32_LIMIT == m % U32_LIMIT
  {
    if k > 0 {
      Reduced(m, k - 1);
      assert m + U32_LIMIT * k == (m + U32_LIMIT * (k - 1)) + U32_LIMIT;
    }
  }

  lemma {:induction false} HashIsPolynomial(name: Bytes.Text)
    ensures NameHash(name) == SumFrom(name, 0) % U32_LIMIT
  {
    if name != [] {
      var n := |name| - 1;
      HashIsPolynomial(name[..n]);
      assert name == name[..n] + [name[n]];
      SumGrows(name[..n], name[n], 0);
      ReducedStep(SumFrom(name[..n], 0), name[n]);
    }
  }

  /** `a`, `ok`, `ko`, and two names of one identifier: `jhwlzguu` and
      `jsyrjsvk`. */
  lemma KnownHashes()
    ensures NameHash([]) == 0 && NameHash([97]) == 97
    ensures NameHash([111, 107]) == 24_860 != NameHash([107, 111])
    ensures NameHash([106, 104, 119, 108, 122, 103, 117, 117]) == NameHash([106, 115, 121, 114, 106, 115, 118, 107])
  {
    Last([], 97);
    Last([], 111);
    Last([111], 107);
    Last([], 107);
    Last([107], 111);
    First();
    Second();
  }

  lemma Last(front: Bytes.Text, b: byte)
    ensures NameHash(front + [b]) == (NameHash(front) * 223 + b) % U32_LIMIT
    ensures [] + [b] == [b]
  {
    assert (front + [b])[..|front|] == front;
  }

  lemma First()
    ensures NameHash([106, 104, 119, 108, 122, 103, 117, 117]) == 2823597088
  {
    hide NameHash;
    Nothing();
    var w1: Bytes.Text := [] + [106];
    Last([], 106);
    assert NameHash(w1) == 106;
    var w2: Bytes.Text := w1 + [104];
    Last(w1, 104);
    assert NameHash(w2) == 23742;
    var w3: Bytes.Text := w2 + [119];
    Last(w2, 119);
    assert NameHash(w3) == 5294585;
    var w4: Bytes.Text := w3 + [108];
    Last(w3, 108);
    assert NameHash(w4) == 1180692563;
    var w5: Bytes.Text := w4 + [122];
    Last(w4, 122);
    assert NameHash(w5) == 1301436615;
    var w6: Bytes.Text := w5 + [103];
    Last(w5, 103);
    assert NameHash(w6) == 2457556416;
    var w7: Bytes.Text := w6 + [117];
    Last(w6, 117);
    assert NameHash(w7) == 2574234293;
    var w8: Bytes.Text := w7 + [117];
    Last(w7, 117);
    assert NameHash(w8) == 2823597088;
    assert w8 == [106, 104, 119, 108, 122, 103, 117, 117];
  }

  lemma Second()
    ensures NameHash([106, 115, 121, 114, 106, 115, 118, 107]) == 2823597088
  {
    hide NameHash;
    Nothing();
    var w1: Bytes.Text := [] + [106];
    Last([], 106);
    assert NameHash(w1) == 106;
    var w2: Bytes.Text := w1 + [115];
    Last(w1, 115);
    assert NameHash(w2) == 23753;
    var w3: Bytes.Text := w2 + [121];
    Last(w2, 121);
    assert NameHash(w3) == 5297040;
    var w4: Bytes.Text := w3 + [114];
    Last(w3, 114);
    assert NameHash(w4) == 1181240034;
    var w5: Bytes.Text := w4 + [106];
    Last(w4, 106);
    assert NameHash(w5) == 1423522632;
    var w6: Bytes.Text := w5 + [115];
    Last(w5, 115);
    assert NameHash(w6) == 3912934443;
    var w7: Bytes.Text := w6 + [118];
    Last(w6, 118);
    assert NameHash(w7) == 706019819;
    var w8: Bytes.Text := w7 + [107];
    Last(w7, 107);
    assert NameHash(w8) == 2823597088;
    assert w8 == [106, 115, 121, 114, 106, 115, 118, 107];
  }

  lemma Nothing()
    ensures NameHash([]) == 0
  {
  }
}
