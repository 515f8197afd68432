/**
 8.3 names: to_short (kernel/BasicDrivers/fat32.c) makes the 11-byte form that lookups compare, and
 readdir (kernel/VFSAdapters/fat32_vfs.c) prints a directory entry's name up to its first space.
 */
module ShortNames {
  import opened Words
  import opened FatChains
  import opened FatData
  import opened FatDisk
  import opened FatDirectory

  const SPACE: Byte := 32
  const DOT: Byte := 46

  /** A C string: position j, or its terminator. */
  function Char(s: seq<Byte>, j: nat): Byte
  {
    if j < |s| then s[j] else 0
  }

  /** The base name is the first b bytes: it ends at a dot, at the terminator, or after 8. */
  ghost predicate IsBase(s: seq<Byte>, b: nat)
  {
    && b <= 8 && (forall j: nat :: j < b ==> Char(s, j) != 0 && Char(s, j) != DOT)
    && (b < 8 ==> Char(s, b) == 0 || Char(s, b) == DOT)
  }

  /** Where the extension starts. */
  function Extension(s: seq<Byte>, b: nat): nat
  {
    if Char(s, b) == DOT then b + 1 else b
  }

  /** Byte k of the extension: a space from the terminator on. */
  ghost function ExtByte(s: seq<Byte>, from: nat, k: nat): Byte
  {
    if forall j: nat :: from <= j <= from + k ==> Char(s, j) != 0 then Upper(Char(s, from + k)) else SPACE
  }

  /** How long the base name is, counting from j on. */
  function BaseFrom(s: seq<Byte>, j: nat): (b: nat)
    requires j <= 8 && forall k: nat :: k < j ==> Char(s, k) != 0 && Char(s, k) != DOT
    ensures IsBase(s, b)
    decreases 8 - j
  {
    if j == 8 || Char(s, j) == 0 || Char(s, j) == DOT then j else BaseFrom(s, j + 1)
  }

  function BaseLength(s: seq<Byte>): (b: nat)
    ensures IsBase(s, b)
  {
    BaseFrom(s, 0)
  }

  lemma {:induction false} BaseUnique(s: seq<Byte>, b: nat)
    requires IsBase(s, b)
    ensures b == BaseLength(s)
  {
    assert BaseLength(s) < b ==> Char(s, BaseLength(s)) != 0;
    assert b < BaseLength(s) ==> Char(s, b) != 0;
  }

  /** What to_short makes of s. */
  ghost predicate IsShort(s: seq<Byte>, r: ShortName)
  {
    && (forall k: nat :: k < 8 ==> r[k] == if k < BaseLength(s) then Upper(Char(s, k)) else SPACE)
    && (forall k: nat :: k < 3 ==> r[8 + k] == ExtByte(s, Extension(s, BaseLength(s)), k))
  }

  method CopyBase(s: seq<Byte>) returns (out: seq<Byte>, b: nat)
    ensures |out| == 11 && IsBase(s, b) && forall k: nat :: k < 11 ==>
              out[k] == if k < b then Upper(Char(s, k)) else SPACE
  {
    out, b := seq(11, _ => SPACE), 0;
    while b < 8 && Char(s, b) != 0 && Char(s, b) != DOT
      invariant b <= 8 && |out| == 11
      invariant forall k: nat :: k < b ==> Char(s, k) != 0 && Char(s, k) != DOT
      invariant forall k: nat :: k < 11 ==> out[k] == if k < b then Upper(Char(s, k)) else SPACE
    {
      out := out[b := Upper(Char(s, b))];
      b := b + 1;
    }
  }

  method CopyExtension(s: seq<Byte>, from: nat, base: seq<Byte>) returns (out: seq<Byte>)
    requires |base| == 11 && forall k: nat :: 8 <= k < 11 ==> base[k] == SPACE
    ensures |out| == 11 && out[..8] == base[..8] && forall k: nat :: k < 3 ==> out[8 + k] == ExtByte(s, from, k)
  {
    out := base;
    var n := 0;
    while n < 3 && Char(s, from + n) != 0
      invariant n <= 3 && |out| == 11 && out[..8] == base[..8]
      invariant forall j: nat :: from <= j < from + n ==> Char(s, j) != 0
      invariant forall k: nat :: k < n ==> out[8 + k] == ExtByte(s, from, k)
      invariant forall m: nat :: 8 + n <= m < 11 ==> out[m] == SPACE
    {
      assert ExtByte(s, from, n) == Upper(Char(s, from + n));
      out := out[8 + n := Upper(Char(s, from + n))];
      n := n + 1;
    }
    forall k: nat | n <= k < 3 ensures out[8 + k] == ExtByte(s, from, k) {
      assert from <= from + n <= from + k;
    }
  }

  /** to_short. */
  method ToShort(s: seq<Byte>) returns (r: ShortName)
    ensures IsShort(s, r)
  {
    var base, j := CopyBase(s);
    BaseUnique(s, j);
    if Char(s, j) == DOT {
      j := j + 1;
    }
    assert j == Extension(s, BaseLength(s));
    r := CopyExtension(s, j, base);
    assert forall k: nat :: k < 8 ==> r[k] == r[..8][k] == base[k];
  }

  /** The name is determined by the string. */
  lemma {:induction false} ShortUnique(s: seq<Byte>, r: ShortName, r': ShortName)
    requires IsShort(s, r) && IsShort(s, r')
    ensures r == r'
  {
    forall f: nat | f < 11 ensures r[f] == r'[f] {
      if f >= 8 {
        assert r[8 + (f - 8)] == ExtByte(s, Extension(s, BaseLength(s)), f - 8);
      }
    }
  }

  // ---------------------------------------------------------------- names with and without an extension

  /** A byte of a name that does not end its base: neither a dot nor the terminator. */
  predicate Plain(s: seq<Byte>)
  {
    DOT !in s && 0 !in s
  }

  /** The bytes in capitals, cut or padded with spaces to n of them. */
  function Padded(s: seq<Byte>, n: nat): (r: seq<Byte>)
    ensures |r| == n
  {
    seq(n, k requires 0 <= k < n => if k < |s| then Upper(s[k]) else 32)
  }

  lemma {:induction false} PlainBase(s: seq<Byte>, base: seq<Byte>, rest: seq<Byte>)
    requires Plain(base) && |base| <= 8 && s == base + rest
    requires |base| < 8 ==> rest == [] || rest[0] == DOT || rest[0] == 0
    ensures BaseLength(s) == |base|
  {
    forall j: nat | j < |base| ensures Char(s, j) != 0 && Char(s, j) != DOT {
      assert Char(s, j) == base[j] && base[j] in base;
    }
    BaseUnique(s, |base|);
  }

  /** BASE.EXT: the base, padded to eight, and the extension, padded to three. */
  lemma {:induction false} NameWithExtension(base: seq<Byte>, ext: seq<Byte>, r: ShortName)
    requires Plain(base) && |base| <= 8 && 0 !in ext && IsShort(base + [46] + ext, r)
    ensures r == Padded(base, 8) + Padded(ext, 3)
  {
    var s := base + [DOT] + ext;
    var from := |base| + 1;
    assert s == base + ([DOT] + ext);
    PlainBase(s, base, [DOT] + ext);
    forall k: nat | k < 8 ensures r[k] == Padded(base, 8)[k] {
      assert k < |base| ==> Char(s, k) == base[k];
    }
    forall k: nat | k < 3 ensures r[8 + k] == Padded(ext, 3)[k] {
      ExtensionByte(s, base, ext, k);
      assert Extension(s, BaseLength(s)) == from;
      assert r[8 + k] == ExtByte(s, Extension(s, BaseLength(s)), k);
    }
    Eleven(r, Padded(base, 8), Padded(ext, 3));
  }

  lemma {:induction false} ExtensionByte(s: seq<Byte>, base: seq<Byte>, ext: seq<Byte>, k: nat)
    requires s == base + [DOT] + ext && 0 !in ext && k < 3
    ensures Char(s, |base|) == DOT
    ensures ExtByte(s, |base| + 1, k) == Padded(ext, 3)[k]
  {
    var from := |base| + 1;
    forall j: nat | from <= j < from + |ext| ensures Char(s, j) == ext[j - from] != 0 {
      assert s[j] == ext[j - from] && ext[j - from] in ext;
    }
    assert Char(s, from + |ext|) == 0;
  }

  /** BASE alone: the base, padded. A longer one spills into the extension instead of being cut. */
  lemma {:induction false} NameWithoutExtension(base: seq<Byte>, r: ShortName)
    requires Plain(base) && IsShort(base, r)
    ensures r == Padded(base, 11)
  {
    var head, rest := base[..Cut(|base|)], base[Cut(|base|)..];
    assert base == head + rest;
    PlainBase(base, head, rest);
    var b := |head|;
    forall j: nat | j < |base| ensures Char(base, j) != 0 && Char(base, j) != DOT {
      assert base[j] in base;
    }
    assert Extension(base, b) == b;
    forall k: nat | 8 <= k < 11 ensures r[k] == Padded(base, 11)[k] {
      assert r[8 + (k - 8)] == ExtByte(base, b, k - 8);
      assert |base| < 8 ==> Char(base, b) == 0;
      assert k >= |base| ==> Char(base, k) == 0;
    }
  }

  function Cut(n: nat): nat { if n < 8 then n else 8 }

  lemma {:induction false} Eleven(r: ShortName, a: seq<Byte>, b: seq<Byte>)
    requires |a| == 8 && |b| == 3
    requires (forall k: nat :: k < 8 ==> r[k] == a[k]) && (forall k: nat :: k < 3 ==> r[8 + k] == b[k])
    ensures r == a + b
  {
    forall f: nat | f < 11 ensures r[f] == (a + b)[f] {
      assert f >= 8 ==> r[8 + (f - 8)] == b[f - 8];
    }
  }

  /** Opening BASE.EXT, in small letters or capitals, finds an entry that is called so on disk. */
  lemma {:induction false} ExtensionNameIsFound(
    v: Volume, disk: Disk, dir: seq<nat>, i: nat, e: nat, base: seq<Byte>, ext: seq<Byte>, r: ShortName)
    requires Plain(base) && |base| <= 8 && 0 !in ext && IsShort(base + [46] + ext, r)
    requires Placed(dir) && At(v, disk, dir, i, e)
    requires RawName(Image(v, disk, dir[i]), e) == Padded(base, 8) + Padded(ext, 3)
    ensures Hit(Image(v, disk, dir[i]), e, r) && !NoHit(v, disk, dir, r)
  {
    var raw := RawName(Image(v, disk, dir[i]), e);
    NameWithExtension(base, ext, r);
    forall f: nat | f < 11 ensures Upper(raw[f]) == r[f] {
      assert f < 8 ==> r[f] == Padded(base, 8)[f];
      assert f >= 8 ==> r[f] == Padded(ext, 3)[f - 8];
    }
  }

  /** The kernel's own: README.TXT, however it is written, is looked up as eleven capitals and spaces. */
  lemma {:induction false} ReadmeName(s: seq<Byte>, r: ShortName)
    requires s == Ascii("README.TXT") || s == Ascii("readme.txt")
    requires IsShort(s, r)
    ensures r == Ascii("README  TXT")
  {
    var base, ext := s[..6], s[7..];
    assert s[6] == DOT && s == base + [46] + ext;
    NameWithExtension(base, ext, r);
  }

  /** The bytes of a text of seven-bit characters. */
  function Ascii(text: string): seq<Byte>
  {
    seq(|text|, k requires 0 <= k < |text| => if text[k] as int < 128 then text[k] as int else 0)
  }

  // ---------------------------------------------------------------- what readdir prints

  /** The bytes before the first space. */
  ghost predicate IsDisplay(raw: ShortName, d: seq<Byte>)
  {
    d <= raw && SPACE !in d && (|d| < 11 ==> raw[|d|] == SPACE)
  }

  method DisplayName(raw: ShortName) returns (d: seq<Byte>)
    ensures IsDisplay(raw, d)
  {
    d := [];
    while |d| < 11 && raw[|d|] != SPACE
      invariant |d| <= 11 && d == raw[..|d|] && SPACE !in d
    {
      d := d + [raw[|d|]];
    }
  }

  /** No end-of-string byte, no dot among the first nine, and nothing after a space but spaces. */
  predicate Printable(raw: ShortName)
  {
    && (forall f: nat :: f < 11 ==> raw[f] != 0)
    && (forall f: nat :: f < 9 ==> raw[f] != DOT)
    && (forall f: nat :: f < 10 && raw[f] == SPACE ==> raw[f + 1] == SPACE)
  }

  /** Looking up the printed name compares against the entry's own name exactly when it is printable. */
  lemma {:induction false} PrintedNameFindsItself(raw: ShortName, d: seq<Byte>, r: ShortName)
    requires IsDisplay(raw, d) && IsShort(d, r)
    ensures (forall f: nat :: f < 11 ==> r[f] == Upper(raw[f])) <==> Printable(raw)
  {
    if Printable(raw) {
      PrintableReturns(raw, d, r);
    }
    if forall f: nat :: f < 11 ==> r[f] == Upper(raw[f]) {
      ReturningIsPrintable(raw, d, r);
    }
  }

  lemma {:induction false} SpacesTrail(raw: ShortName, f: nat, g: nat)
    requires (forall x: nat :: x < 10 && raw[x] == SPACE ==> raw[x + 1] == SPACE) && f <= g < 11 && raw[f] == SPACE
    ensures raw[g] == SPACE
    decreases g - f
  {
    if f < g {
      SpacesTrail(raw, f + 1, g);
    }
  }

  /** A printed name ends at its terminator only, so its base name is its first eight bytes. */
  lemma {:induction false} PrintedBase(raw: ShortName, d: seq<Byte>)
    requires IsDisplay(raw, d) && forall f: nat :: f < 8 && f < |d| ==> d[f] != 0 && d[f] != DOT
    ensures BaseLength(d) == if |d| < 8 then |d| else 8
  {
    var b := BaseLength(d);
    assert b < |d| ==> Char(d, b) == d[b];
    assert |d| < b ==> Char(d, |d|) == 0;
  }

  lemma {:induction false} PrintableReturns(raw: ShortName, d: seq<Byte>, r: ShortName)
    requires IsDisplay(raw, d) && IsShort(d, r) && Printable(raw)
    ensures forall f: nat :: f < 11 ==> r[f] == Upper(raw[f])
  {
    assert forall j: nat :: j < |d| ==> d[j] == raw[j];
    PrintedBase(raw, d);
    var b := BaseLength(d);
    assert Extension(d, b) == b;
    forall f: nat | f < 11 ensures r[f] == Upper(raw[f]) {
      if f >= |d| {
        SpacesTrail(raw, |d|, f);
      }
      if f >= 8 {
        assert r[8 + (f - 8)] == ExtByte(d, b, f - 8);
        assert |d| <= f && b < 8 ==> Char(d, b) == 0;
        assert |d| <= f ==> Char(d, f) == 0;
      }
    }
  }

  lemma {:induction false} ReturningIsPrintable(raw: ShortName, d: seq<Byte>, r: ShortName)
    requires IsDisplay(raw, d) && IsShort(d, r) && forall f: nat :: f < 11 ==> r[f] == Upper(raw[f])
    ensures Printable(raw)
  {
    var b := BaseLength(d);
    assert forall j: nat :: j < |d| ==> d[j] == raw[j];
    BaseReturns(raw, d, r);
    forall f: nat | f < 8 && f < |d| ensures d[f] != 0 && d[f] != DOT {
      assert Char(d, f) == d[f];
    }
    PrintedBase(raw, d);
    assert r[8 + 0] == ExtByte(d, Extension(d, b), 0);
    assert r[8 + 1] == ExtByte(d, Extension(d, b), 1);
    assert r[8 + 2] == ExtByte(d, Extension(d, b), 2);
    if |d| <= 8 {
      ShortReturns(raw, d, r);
    } else {
      LongReturns(raw, d, r);
    }
  }

  /** A base name that ended early would leave a space where the entry has none. */
  lemma {:induction false} BaseReturns(raw: ShortName, d: seq<Byte>, r: ShortName)
    requires IsDisplay(raw, d) && IsShort(d, r) && forall f: nat :: f < 11 ==> r[f] == Upper(raw[f])
    ensures BaseLength(d) == 8 || BaseLength(d) >= |d|
  {
    var b := BaseLength(d);
    assert b < 8 ==> r[b] == SPACE == Upper(raw[b]);
    assert b < |d| ==> raw[b] == d[b];
  }

  /** A name of at most eight bytes leaves the rest blank. */
  lemma {:induction false} ShortReturns(raw: ShortName, d: seq<Byte>, r: ShortName)
    requires IsDisplay(raw, d) && IsShort(d, r) && BaseLength(d) == |d| <= 8
    requires forall f: nat :: f < 11 ==> r[f] == Upper(raw[f])
    requires forall f: nat :: f < |d| ==> d[f] != 0 && d[f] != DOT
    ensures Printable(raw)
  {
    var b := |d|;
    assert Char(d, b) == 0 && Extension(d, b) == b;
    forall f: nat | b <= f < 11 ensures raw[f] == SPACE {
      if f >= 8 {
        assert r[8 + (f - 8)] == ExtByte(d, b, f - 8);
        assert b <= b <= b + (f - 8);
      }
      assert r[f] == SPACE;
    }
    assert forall j: nat :: j < |d| ==> raw[j] == d[j];
  }

  lemma {:induction false} LongReturns(raw: ShortName, d: seq<Byte>, r: ShortName)
    requires IsDisplay(raw, d) && IsShort(d, r) && BaseLength(d) == 8 < |d|
    requires forall f: nat :: f < 11 ==> r[f] == Upper(raw[f])
    requires forall f: nat :: f < 8 ==> d[f] != 0 && d[f] != DOT
    ensures Printable(raw)
  {
    var from := Extension(d, 8);
    assert r[8 + 0] == ExtByte(d, from, 0);
    assert r[8 + 1] == ExtByte(d, from, 1);
    assert r[8 + 2] == ExtByte(d, from, 2);
    assert forall j: nat :: j < |d| ==> raw[j] == d[j] != SPACE;
    assert raw[8] != DOT;
    assert Char(d, 8) == d[8];
  }

  // ---------------------------------------------------------------- lookups

  /** A lookup of a printed name succeeds if the entry it was printed for is printable. */
  lemma {:induction false} ListedNameIsFound(
    v: Volume, disk: Disk, dir: seq<nat>, i: nat, e: nat, d: seq<Byte>, r: ShortName)
    requires Placed(dir) && At(v, disk, dir, i, e) && Printable(RawName(Image(v, disk, dir[i]), e))
    requires IsDisplay(RawName(Image(v, disk, dir[i]), e), d) && IsShort(d, r)
    ensures Hit(Image(v, disk, dir[i]), e, r) && !NoHit(v, disk, dir, r)
  {
    PrintableReturns(RawName(Image(v, disk, dir[i]), e), d, r);
  }
}
