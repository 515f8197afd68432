/** The bytes of a little-endian machine word. */
module Bytes {
  import opened Words

  /** Byte k of a word, the low one first. */
  function Digit(w: nat, k: nat): Byte
  {
    if k == 0 then w % 256 else Digit(w / 256, k - 1)
  }

  function SetDigit(w: nat, k: nat, b: Byte): nat
  {
    if k == 0 then w / 256 * 256 + b else SetDigit(w / 256, k - 1, b) * 256 + w % 256
  }

  lemma {:induction false} DigitSet(w: nat, k: nat, b: Byte, j: nat)
    ensures Digit(SetDigit(w, k, b), j) == if j == k then b else Digit(w, j)
    decreases k
  {
    var w' := SetDigit(w, k, b);
    if k == 0 {
      assert w' / 256 == w / 256;
    } else {
      assert w' / 256 == SetDigit(w / 256, k - 1, b) && w' % 256 == w % 256;
      if j > 0 {
        DigitSet(w / 256, k - 1, b, j - 1);
      }
    }
  }

  function Power256(n: nat): nat
  {
    if n == 0 then 1 else 256 * Power256(n - 1)
  }

  lemma {:induction false} SetDigitFits(w: nat, k: nat, b: Byte, n: nat)
    requires k < n && w < Power256(n)
    ensures SetDigit(w, k, b) < Power256(n)
  {
    var q, bound := w / 256, Power256(n - 1);
    assert w == 256 * q + w % 256 && q < bound;
    if k > 0 {
      SetDigitFits(q, k - 1, b, n - 1);
      assert SetDigit(w, k, b) == SetDigit(q, k - 1, b) * 256 + w % 256;
    } else {
      assert SetDigit(w, k, b) == q * 256 + b;
    }
  }

  lemma {:induction false} ZeroDigit(k: nat)
    ensures Digit(0, k) == 0
  {
    if k > 0 {
      ZeroDigit(k - 1);
    }
  }

  // ---------------------------------------------------------------- fields in a row of bytes

  /** A number in n bytes, the low one first. */
  function LittleEndian(w: nat, n: nat): (bytes: seq<Byte>)
    ensures |bytes| == n
  {
    if n == 0 then [] else [w % 256] + LittleEndian(w / 256, n - 1)
  }

  /** Its k-th byte is byte k of the number. */
  lemma {:induction false} LittleEndianAt(w: nat, n: nat, k: nat)
    requires k < n
    ensures LittleEndian(w, n)[k] == Digit(w, k)
    decreases n
  {
    if k > 0 {
      LittleEndianAt(w / 256, n - 1, k - 1);
    }
  }

  /** `field` begins at offset o. */
  ghost predicate HasField(bytes: seq<Byte>, o: nat, field: seq<Byte>)
  {
    o + |field| <= |bytes| && bytes[o..o + |field|] == field
  }

  /** A field of a row of fields is where the ones before it end. */
  lemma {:induction false} FieldWithin(bytes: seq<Byte>, o: nat, before: seq<Byte>, field: seq<Byte>, all: seq<Byte>)
    requires HasField(bytes, o, all) && before + field <= all
    ensures HasField(bytes, o + |before|, field)
  {
    forall j | 0 <= j < |field| ensures bytes[o + |before| + j] == field[j] {
      assert (before + field)[|before| + j] == field[j];
      assert bytes[o..o + |all|][|before| + j] == all[|before| + j];
    }
  }

  lemma {:induction false} FirstField(bytes: seq<Byte>, o: nat, field: seq<Byte>, all: seq<Byte>)
    requires HasField(bytes, o, all) && field <= all
    ensures HasField(bytes, o, field)
  {
    assert [] + field == field;
    FieldWithin(bytes, o, [], field, all);
  }

  lemma {:induction false} FrontOf(a: seq<Byte>, b: seq<Byte>, all: seq<Byte>)
    requires a + b <= all
    ensures a <= all
  {
    assert a == (a + b)[..|a|];
  }

  /** The number in the n bytes at offset o. */
  function ValueAt(bytes: seq<Byte>, o: nat, n: nat): nat
    requires o + n <= |bytes|
    decreases n
  {
    if n == 0 then 0 else bytes[o] + 256 * ValueAt(bytes, o + 1, n - 1)
  }

  lemma {:induction false} ReadsBack(bytes: seq<Byte>, o: nat, w: nat, n: nat)
    requires HasField(bytes, o, LittleEndian(w, n)) && w < Power256(n)
    ensures ValueAt(bytes, o, n) == w
    decreases n
  {
    if n > 0 {
      var rest := LittleEndian(w / 256, n - 1);
      assert bytes[o] == bytes[o..o + n][0];
      assert [w % 256] + rest == LittleEndian(w, n);
      FieldWithin(bytes, o, [w % 256], rest, LittleEndian(w, n));
      ReadsBack(bytes, o + 1, w / 256, n - 1);
    }
  }

  lemma {:induction false} TwoAt(bytes: seq<Byte>, o: nat, w: nat)
    requires HasField(bytes, o, LittleEndian(w, 2)) && w < 0x1_0000
    ensures bytes[o] + 256 * bytes[o + 1] as nat == w
  {
    assert Power256(2) == 0x1_0000;
    ReadsBack(bytes, o, w, 2);
    assert ValueAt(bytes, o + 1, 1) == bytes[o + 1];
  }

  lemma {:induction false} FourAt(bytes: seq<Byte>, o: nat, w: nat)
    requires HasField(bytes, o, LittleEndian(w, 4)) && w < 0x1_0000_0000
    ensures bytes[o] + 0x100 * bytes[o + 1] as nat + 0x1_0000 * bytes[o + 2] as nat +
            0x100_0000 * bytes[o + 3] as nat == w
  {
    assert Power256(4) == 0x1_0000_0000;
    ReadsBack(bytes, o, w, 4);
    assert ValueAt(bytes, o + 3, 1) == bytes[o + 3];
    assert ValueAt(bytes, o + 2, 2) == bytes[o + 2] + 256 * ValueAt(bytes, o + 3, 1);
    assert ValueAt(bytes, o + 1, 3) == bytes[o + 1] + 256 * ValueAt(bytes, o + 2, 2);
  }
}
