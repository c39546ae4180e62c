/** Node identity: `hashCode` folds the UTF-16 code units of a string into a
    signed 32-bit integer the way JavaScript's `Math.imul` and `| 0` do, and
    `nodeId` renders the magnitude of the hash of `file + "::" + key` in
    decimal behind the letter `n`. */
module Identity {
  import opened JsText

  /** ECMAScript ToInt32, which `x | 0` applies to an integral number:
      the value in the signed 32-bit range congruent to `x` modulo 2^32. */
  function ToInt32(x: int): int
  {
    var m := x % 0x1_0000_0000;
    if m < 0x8000_0000 then m else m - 0x1_0000_0000
  }

  /** The image is a signed 32-bit value congruent to `x`, and a value
      already in range is its own image. */
  lemma ToInt32Range(x: int)
    ensures -0x8000_0000 <= ToInt32(x) < 0x8000_0000
    ensures (x - ToInt32(x)) % 0x1_0000_0000 == 0
    ensures -0x8000_0000 <= x < 0x8000_0000 <==> ToInt32(x) == x
  {
  }

  /** Adding a multiple of 2^32 does not change the ToInt32 image. */
  lemma ToInt32Shift(y: int, k: int)
    ensures ToInt32(y + k * 0x1_0000_0000) == ToInt32(y)
  {
    assert (y + k * 0x1_0000_0000) % 0x1_0000_0000 == y % 0x1_0000_0000;
  }

  /** `x` as `ToInt32(x)` plus a multiple of 2^32. */
  lemma ToInt32Quotient(x: int) returns (k: int)
    ensures x == ToInt32(x) + k * 0x1_0000_0000
  {
    ToInt32Range(x);
    k := (x - ToInt32(x)) / 0x1_0000_0000;
  }

  /** `Math.imul`: the product of the operands' 32-bit images, wrapped to
      the signed 32-bit range (ToUint32 and ToInt32 images are congruent,
      so the wrapped product is the same). */
  function Imul(a: int, b: int): int
  {
    ToInt32(ToInt32(a) * ToInt32(b))
  }

  /** One iteration of the `hashCode` loop, `h = (Math.imul(31, h) + unit) | 0`,
      written as the wrapped value of `31 * h + unit`; `HashStepIsImul` shows
      the two agree. */
  function HashStep(h: int, unit: int): int
  {
    ToInt32(31 * h + unit)
  }

  /** Wrapping the product first, as `Math.imul` does, and then the sum gives
      the same 32-bit value as wrapping once. */
  lemma HashStepIsImul(h: int, unit: int)
    ensures HashStep(h, unit) == ToInt32(Imul(31, h) + unit)
  {
    var t := ToInt32(h);
    ImulBy31(h);
    var m := Imul(31, h);
    var k1 := ToInt32Quotient(h);
    var k2 := ToInt32Quotient(31 * t);
    assert 31 * h + unit == (m + unit) + (31 * k1 + k2) * 0x1_0000_0000;
    ToInt32Shift(m + unit, 31 * k1 + k2);
  }

  lemma ImulBy31(h: int)
    ensures Imul(31, h) == ToInt32(31 * ToInt32(h))
  {
    var c := ToInt32(31);
    assert c == 31;
    var t := ToInt32(h);
    assert c * t == 31 * t;
  }

  /** The `hashCode` loop over a sequence of code units. */
  function HashUnits(us: seq<int>): int
  {
    if |us| == 0 then 0 else HashStep(HashUnits(us[..|us| - 1]), us[|us| - 1])
  }

  /** `hashCode(s)`: always a signed 32-bit value, and 0 for the empty string. */
  function HashCode(s: string): int
  {
    HashUnits(CodeUnits(s))
  }

  /** `hashCode(s)` is always a signed 32-bit value, and 0 for the empty
      string. */
  lemma HashCodeRange(s: string)
    ensures -0x8000_0000 <= HashCode(s) < 0x8000_0000
    ensures s == "" ==> HashCode(s) == 0
  {
    var us := CodeUnits(s);
    if |us| > 0 {
      ToInt32Range(31 * HashUnits(us[..|us| - 1]) + us[|us| - 1]);
    }
  }

  /** Reference definition: the polynomial u0*31^(n-1) + ... + u(n-1) over the
      code units, computed without any wrap-around. */
  function Poly(us: seq<int>): int
  {
    if |us| == 0 then 0 else 31 * Poly(us[..|us| - 1]) + us[|us| - 1]
  }

  /** The wrapping loop computes the reference polynomial reduced to the
      signed 32-bit range. */
  lemma {:induction false} HashIsReducedPolynomial(us: seq<int>)
    ensures HashUnits(us) == ToInt32(Poly(us))
    decreases |us|
  {
    if |us| > 0 {
      var pre := us[..|us| - 1];
      var u := us[|us| - 1];
      HashIsReducedPolynomial(pre);
      var h := HashUnits(pre);
      var p := Poly(pre);
      var k := ToInt32Quotient(p);
      assert 31 * p + u == (31 * h + u) + (31 * k) * 0x1_0000_0000;
      ToInt32Shift(31 * h + u, 31 * k);
    }
  }

  function Abs(x: int): nat
  {
    if x < 0 then -x else x
  }

  /** `'n' + Math.abs(h)`. */
  function IdOfHash(h: int): string
  {
    "n" + Decimal(Abs(h))
  }

  /** The key `nodeId` hashes: the template literal `${file}::${key}`. */
  function IdentityKey(file: string, key: string): string
  {
    file + "::" + key
  }

  /** `nodeId(file, key)`. */
  function NodeId(file: string, key: string): string
  {
    IdOfHash(HashCode(IdentityKey(file, key)))
  }

  /** A node id is the letter `n` followed by the canonical decimal numeral
      of the magnitude of the hash of `file::key`, a number at most 2^31. */
  lemma NodeIdShape(file: string, key: string)
    ensures var id := NodeId(file, key);
            && |id| >= 2 && id[0] == 'n'
            && IsCanonicalDecimal(id[1..])
            && DecimalValue(id[1..]) == Abs(HashCode(IdentityKey(file, key))) <= 0x8000_0000
  {
    var h := HashCode(IdentityKey(file, key));
    HashCodeRange(IdentityKey(file, key));
    DecimalRoundTrip(Abs(h));
    assert IdOfHash(h)[1..] == Decimal(Abs(h));
  }

  /** Two keys get the same id exactly when their hashes have the same
      magnitude: `h` and `-h` collide, and nothing else does. */
  lemma NodeIdCollision(f1: string, k1: string, f2: string, k2: string)
    ensures NodeId(f1, k1) == NodeId(f2, k2)
            <==> Abs(HashCode(IdentityKey(f1, k1))) == Abs(HashCode(IdentityKey(f2, k2)))
  {
    var a := NodeId(f1, k1);
    var b := NodeId(f2, k2);
    NodeIdShape(f1, k1);
    NodeIdShape(f2, k2);
    if a == b {
      assert a[1..] == b[1..];
    }
  }

  /** The most negative hash has no negative counterpart in 32 bits; its
      magnitude is still rendered in full. */
  lemma IdOfMostNegativeHash()
    ensures IdOfHash(-0x8000_0000) == "n2147483648"
  {
    DecimalDigits("2", 2);
    DecimalDigits("21", 21);
    DecimalDigits("214", 214);
    DecimalDigits("2147", 2147);
    DecimalDigits("21474", 21474);
    DecimalDigits("214748", 214748);
    DecimalDigits("2147483", 2147483);
    DecimalDigits("21474836", 21474836);
    DecimalDigits("214748364", 214748364);
    DecimalDigits("2147483648", 2147483648);
  }

  /** One step of rendering a numeral: its last digit is `n % 10`. */
  lemma DecimalDigits(s: string, n: nat)
    requires |s| >= 1 && s[|s| - 1] == DigitChar(n % 10)
    requires n < 10 ==> |s| == 1
    requires n >= 10 ==> |s| >= 2 && Decimal(n / 10) == s[..|s| - 1]
    ensures Decimal(n) == s
  {
    if n >= 10 {
      assert s == s[..|s| - 1] + [s[|s| - 1]];
    }
  }

  lemma PolyTwo(p: seq<int>, x: int, y: int)
    ensures Poly(p + [x, y]) == 961 * Poly(p) + 31 * x + y
  {
    var q := p + [x, y];
    assert q[..|q| - 1] == p + [x];
    assert (p + [x])[..|p|] == p;
  }

  lemma CodeUnitsTwo(x: char, y: char)
    requires (x as int) < 0x80 && (y as int) < 0x80
    ensures CodeUnits([x, y]) == [x as int, y as int]
  {
    assert [x, y][..1] == [x];
    assert [x][..0] == [];
    assert CodeUnits([x]) == [x as int];
    assert CodeUnits([x, y]) == CodeUnits([x]) + Utf16(y);
  }

  /** Hash collisions are accepted, not prevented: in every file the keys
      `Aa` and `BB` receive the same node id. */
  lemma {:induction false} KnownCollision(file: string)
    ensures NodeId(file, "Aa") == NodeId(file, "BB")
  {
    var pre := file + "::";
    var p := CodeUnits(pre);
    CodeUnitsAppend(pre, "Aa");
    CodeUnitsAppend(pre, "BB");
    assert IdentityKey(file, "Aa") == pre + "Aa";
    assert IdentityKey(file, "BB") == pre + "BB";
    CodeUnitsTwo('A', 'a');
    CodeUnitsTwo('B', 'B');
    PolyTwo(p, 65, 97);
    PolyTwo(p, 66, 66);
    HashIsReducedPolynomial(p + [65, 97]);
    HashIsReducedPolynomial(p + [66, 66]);
    assert HashCode(IdentityKey(file, "Aa")) == HashCode(IdentityKey(file, "BB"));
  }
}
